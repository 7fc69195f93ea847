# growlin-merlout writers, modelled in Dafny

growlin-merlout moves a library's records out of CSV dumps of the legacy
Merlin Access database and into the Growlin catalogue. It has two interchangeable
writer modules, one per back end:

- `peewee_writers.py` targets a relational database.
- `mongo_writers.py` targets a document store.

Each module has one `write_*` function per CSV file: user groups, users,
currencies, publishers, places of publication, campus locations, the book
accession register, and the current loans. These functions turn rows into
catalogue records. They normalise the fields, find or create the
referenced records, and merge each loan into an item's circulation state.

The project models both writers over an abstract store. Each table or
collection is a `map` keyed by its natural key, or a `set` when a record
is only its name.

- **`wrappers.dfy`**: `Option`.
- **`fields.dfy`**: the field normalisers both writers share.
  - Python's `str.strip`, `split` with one-character separators, `''.join`, ASCII `lower`, and `[:n]`.
  - `int()` on a field, and the publication-year rule.
  - The two borrower-field splits.
  - The borrow-date and due-date stamping.
  - The date and `float` parsers are parameters (`Parsers`).
- **`entities.dfy`**: the records both writers store, and the CSV rows.
  - Get-or-create, as `_get_or_create` and `get_or_create` do, and its fold over a column.
  - Upsert or insert (`PutAll`: the last write at a key wins).
  - The per-row records both writers build for users and locations.
- **`mongo.dfy`**: the document writer.
  - Each function is a method of the class `Mongo.Store`, whose fields are the collections.
  - Each method is proved equal to a specification function on the store's value (`ImportUsergroups`, `ImportBooks`, `ImportBorrows`, …).
  - Lemmas prove what those functions promise: header checking, stopping at the first exception, author lists growing per row, the current holder kept through a borrow import, and the due-date law.
- **`peewee.dfy`**: the relational writer, `Peewee.Store`.
  - Reference files become one batch insert.
  - A book row always saves a fresh item.
  - Borrow rows route their accession by category and fetch or create the loan of (user, item).
  - Lemmas prove that, with an insert or `save()` read as replacing the record at its key, re-importing the register changes nothing and the last row for an accession wins. They also prove that loans stay under their own user (so the "borrowed by someone else" refusal never fires).

Both writers are modelled as the code is written. Two places in that code
do not do what the code itself says it should. Each is logged under
Findings:

- **`_user_from_userid("Smith, Jr., Students")`**: its docstring (peewee_writers.py:20-23) says some users have commas in their names. The `''.join` on line 28 drops those commas, so the relational writer looks up `"Smith Jr."` and skips the row.
- **The due date**: the `if … is not None` that sets it (mongo_writers.py:170, peewee_writers.py:220) is indented inside the handler for the first date format's failure. So a date the first format reads leaves the due date as it was (unset on a new loan). The due date is set only after the first format fails: from the second format's date, or, when that fails too, from the borrow date the loan already had.

The borrow functions take a `Reading`. `AsWritten` is what the store
methods run. `Corrected` joins the user back with its commas and always
derives the due date. The due-date law (`ImportBorrowsLawful`) is proved
for `Corrected`. The counterexample lemmas show where `AsWritten` differs.

## Model

| member | source | states |
|---|---|---|
| Fields.Strip | mongo_writers.py:48 | `strip()` never lengthens the field; that it removes exactly the leading and trailing whitespace is stated by LeadingSpacesRun, TrailingSpacesRun, StripSlice and StripEnds |
| Fields.LeadingSpacesRun | mongo_writers.py:48 | the whitespace `strip()` removes in front is a run of whitespace ending at the first other character |
| Fields.TrailingSpacesRun | mongo_writers.py:48 | the whitespace `strip()` removes at the end is a run of whitespace starting after the last other character |
| Fields.StripSlice | mongo_writers.py:48 | `strip()` removes exactly the leading and the trailing whitespace run: the result is the slice between two all-whitespace ends |
| Fields.StripEnds | mongo_writers.py:48 | a non-empty stripped value neither starts nor ends with whitespace |
| Fields.StripIdempotent | peewee_writers.py:26-27 | stripping an already-stripped piece changes nothing |
| Fields.StripKeepsInner | peewee_writers.py:26 | `strip()` never removes a character that is not whitespace |
| Fields.Split | peewee_writers.py:26 | `split(',')` yields one piece more than the field has commas |
| Fields.SplitPieces | peewee_writers.py:26 | no piece of a split contains the separator |
| Fields.JoinSplit | peewee_writers.py:26 | joining the pieces of a split with the separator gives the field back |
| Fields.SplitJoin | peewee_writers.py:26 | splitting a join of separator-free pieces gives the pieces back |
| Fields.SplitAround | peewee_writers.py:26 | a split at one separator is the split of the text before it followed by the split of the text after it |
| Fields.SplitWithout | peewee_writers.py:26 | a field without the separator splits into itself |
| Fields.ConcatSplit | peewee_writers.py:28 | `''.join` of the pieces is the field with every comma removed |
| Fields.UserFromUserid | peewee_writers.py:19-30 | as written: neither the user nor the group contains a comma |
| Fields.UserFromUseridAtLastComma | peewee_writers.py:26-28 | as written: the group is the stripped text after the last comma, and the user is the text before it with its commas removed, stripped |
| Fields.UserFromUseridNoComma | peewee_writers.py:26-28 | as written: a field without a comma names a group only, and the user is empty |
| Fields.UserFromUseridTwoCommas | peewee_writers.py:26-28 | as written: "first,second,group" is the user `strip(first+second)` in the group `strip(group)` |
| Fields.UserFromUseridDropsComma | peewee_writers.py:28 | on "Smith, Jr., Students" the as-written split and the corrected one give different users: only the corrected user keeps the comma |
| Fields.UserFromUseridCorrected | peewee_writers.py:19-30 | corrected: the group never contains a comma |
| Fields.UserFromUseridCorrectedRoundTrip | peewee_writers.py:19-30 | corrected: a field "name,group" with a comma-free group splits back into the stripped name, commas and all, and the stripped group |
| Fields.SplitBorrower | mongo_writers.py:132 | the two-way unpacking succeeds exactly when the stripped field has one comma; the two unstripped pieces rejoin around it to the field |
| Fields.Lower | peewee_writers.py:79 | `lower()` keeps the length, lowers each ASCII capital and leaves no capital |
| Fields.Take | peewee_writers.py:136 | `[:n]` is a prefix of at most n characters, the whole string when it is shorter |
| Fields.Username | mongo_writers.py:39 | the username has no capital and is `lower(name + "." + group)` cut to its first 32 characters: a prefix of it that is either 32 long or all of it |
| Fields.ParseInt | mongo_writers.py:74 | Python 2 `int()` on a str, defined by its body; what it accepts and rejects is stated by ParseDecimal, ParseSpacedSign and ParseIntRejects |
| Fields.ParseDecimal | mongo_writers.py:74 | `int()` reads back the decimal digits of n, and of -n |
| Fields.ParseSpacedSign | mongo_writers.py:74 | Python 2's `int()` skips whitespace after the sign: "- n" reads as -n |
| Fields.ParseIntRejects | mongo_writers.py:73-76 | a field with a character that is neither a digit nor whitespace, other than a leading sign, makes `int()` fail |
| Fields.IntFlag | mongo_writers.py:73-76 | `bool(int(field.strip()))` with a ValueError meaning False, defined by its body; see IntFlagMeaning and IntFlagOfDecimal |
| Fields.IntFlagMeaning | mongo_writers.py:73-76 | prevent_borrowing is set exactly when the field holds a nonzero integer; a field `int()` rejects gives False |
| Fields.IntFlagOfDecimal | peewee_writers.py:118-121 | "0" gives False, and any other number or its negation, with or without a space after the sign, gives True |
| Fields.LastToken | mongo_writers.py:98 | `split(' ')[-1]`, defined by its body over Split; see PublicationYearOfSuffix and PublicationYearTrailingSpace |
| Fields.PublicationYear | mongo_writers.py:97-102 | the year is the last space-separated token read as an integer; 0 or a failed read gives no year |
| Fields.PublicationYearOfSuffix | mongo_writers.py:97-102 | "… n" gives the year n, or none for 0 |
| Fields.PublicationYearTrailingSpace | mongo_writers.py:97-102 | a date ending in a space has no year, because its last token is empty |
| Fields.StampDates | mongo_writers.py:157-171 | as written: a first-format date leaves the due date alone; only after the first format fails is the second tried, and a known borrow date then sets the due date two weeks on; the warning fires when both fail |
| Fields.StampDatesLawOnFallback | peewee_writers.py:207-221 | as written: when the first format fails, the due-date law holds afterwards if it held before |
| Fields.StampDatesFirstFormatBreaksLaw | mongo_writers.py:157-159 | as written: a first-format date on a new loan leaves it with a borrow date and no due date |
| Fields.StampDatesCorrected | mongo_writers.py:157-171 | corrected: the warning fires exactly when both formats fail, and a known borrow date always has its due date two weeks on |
| Fields.StampDatesCorrectedLaw | peewee_writers.py:207-221 | corrected: every path keeps the due-date law |
| Fields.StampDatesCorrectedOnFallback | mongo_writers.py:160-171 | corrected: equals the as-written stamping whenever the first format fails |
| Fields.StampDatesCorrectedFirstFormat | mongo_writers.py:157-159 | corrected: a new loan whose date the first format reads is due two weeks later |
| Fields.StampDatesCorrectedKeepsBorrowDate | mongo_writers.py:157-171 | the correction changes only the due date: on every input the borrow date and the warning are those of the stamping as written |
| Entities.GetOrCreate | peewee_writers.py:12-17 | the key is present afterwards and its record is returned; a record is created exactly when the key was missing, and then with the defaults; otherwise the store is unchanged |
| Entities.GetOrCreateAll | mongo_writers.py:31-35 | after the rows, every group they name exists, groups that existed are unchanged, and a new one has the default record and was named by a row |
| Entities.GetOrCreateAllPresent | mongo_writers.py:31-35 | rows naming only existing groups change nothing |
| Entities.GetOrCreateAllTwice | mongo_writers.py:31-35 | resolving the same names again changes nothing |
| Entities.PutAll | mongo_writers.py:23-24 | after the upserts, the keys are the old keys plus the keys written |
| Entities.PutAllLastWins | mongo_writers.py:23-24 | a key holds the record of the last row writing it |
| Entities.PutAllUntouched | mongo_writers.py:23-24 | a key no row writes keeps its record, or stays absent |
| Entities.PutAllOverrides | mongo_writers.py:23-24 | the upserts override the old store with the map of the rows' records |
| Entities.PutAllTwice | mongo_writers.py:23-24 | upserting the same rows again changes nothing |
| Entities.StrippedNames | mongo_writers.py:55-57 | the names written are exactly the column's values, stripped: each row's name is in the set, and each name in it comes from a row |
| Entities.UserWrite | mongo_writers.py:37-41 | a user is keyed by the stripped name and stripped group; the email is absent exactly for an empty field, and otherwise stripped; the username is `lower(name + "." + group)` cut to its first 32 characters |
| Entities.LocationWrite | mongo_writers.py:72-77 | a location is keyed by the stripped name, and prevent_borrowing is set exactly for a nonzero integer |
| Entities.BookAccession | mongo_writers.py:84 | an item's accession is "b:" followed by the stripped field |
| Mongo.ImportUsergroups | mongo_writers.py:14-24 | an empty file raises on the header, and so does a wrong header; the groups change only after a correct header |
| Mongo.UpsertGroups | mongo_writers.py:23-24 | the group upserts, one per row until a row raises, defined by its body; see UpsertGroupsError, UpsertGroupsStops and UpsertGroupsWellFormed |
| Mongo.UpsertGroupsError | mongo_writers.py:23-24 | the only exception a group row can raise is a row too short to index |
| Mongo.UpsertGroupsStops | mongo_writers.py:23-24 | once a row has raised, the rows after it change nothing |
| Mongo.UpsertGroupsWellFormed | mongo_writers.py:23-24 | rows of at least two cells raise nothing, and upsert each group's position under its name |
| Mongo.UsergroupsReplay | mongo_writers.py:14-24 | a group holds the position from the last row naming it, and importing the same file again changes nothing |
| Mongo.CurrencyWrite | mongo_writers.py:47-49 | a currency is keyed by the stripped name, and its symbol is that name cut to its first four characters |
| Mongo.Existing | mongo_writers.py:85-89 | the item stored under the accession, or a new item with only that accession, defined by its body; BookStep states its use |
| Mongo.UpdateItem | mongo_writers.py:88-116 | a book row keeps the item's accession and loan, appends the stripped author, sets the call number cut to 8 characters and the source cut to 128, and sets the title, currency, publisher, place, location, publication year, receipt date and price from the row |
| Mongo.BookStep | mongo_writers.py:83-116 | one book row updates (or creates) exactly the item at its accession, adds its creator, publisher and place, fetches or creates its currency and location, and leaves users and groups alone |
| Mongo.ImportBooks | mongo_writers.py:83-116 | every book row in turn, defined by its body; see AuthorsGrowPerRow and BooksKeepLoans |
| Mongo.AuthorsGrowPerRow | mongo_writers.py:86-93 | after a book import, an item exists exactly when it existed or a row named it, and its author list grows by one entry per row naming it |
| Mongo.BooksKeepLoans | mongo_writers.py:85-116 | a book import never changes an item's current loan, and a new item has none |
| Mongo.BorrowStep | mongo_writers.py:120-172 | a missing item or an unresolved user skips the row with a warning; a field with other than one comma raises; an item someone else holds is skipped with a warning naming the holder; otherwise the loan is the row's user with the stamped dates, and the only warning is an unset borrow date when both formats fail; no other item changes |
| Mongo.ImportBorrows | mongo_writers.py:118-172 | a borrow import, as written or corrected, changes only items, and keeps the set of accessions |
| Mongo.ImportBorrowsStops | mongo_writers.py:132 | after a row raises, later rows change nothing |
| Mongo.HolderKept | mongo_writers.py:144-152 | conflict preservation: an item lent to a user stays lent to that user through a whole borrow import |
| Mongo.ImportBorrowsLawful | mongo_writers.py:156-171 | with the corrected stamping, every loan keeps the due-date law through a whole borrow import |
| Mongo.BorrowFirstFormatLeavesDueUnset | mongo_writers.py:157-171 | as written, a new loan whose date the first format reads gets that borrow date and no due date, which breaks the law; corrected, it is due two weeks later |
| Mongo.Store.WriteUsergroups | mongo_writers.py:14-24 | the groups and the exception are those `ImportUsergroups` gives |
| Mongo.Store.WriteUsers | mongo_writers.py:26-41 | each row's group is fetched or created, and its user upserted |
| Mongo.Store.WriteCurrencies | mongo_writers.py:43-49 | each row upserts its currency |
| Mongo.Store.WritePublishers | mongo_writers.py:51-57 | the publishers gain exactly the stripped names |
| Mongo.Store.WritePublishplaces | mongo_writers.py:59-65 | the places gain exactly the stripped names |
| Mongo.Store.WriteLocations | mongo_writers.py:67-77 | each row upserts its location |
| Mongo.Store.WriteBookitems | mongo_writers.py:79-116 | the store afterwards is `ImportBooks` of the store before |
| Mongo.Store.WriteBookRow | mongo_writers.py:84-116 | one row's effect is `BookStep` |
| Mongo.Store.RecordReferences | mongo_writers.py:93-114 | the creator, publisher, place, currency and location a row names are each fetched or created |
| Mongo.Store.WriteBorrowcurrent | mongo_writers.py:118-172 | the items, warnings and exception are those `ImportBorrows` gives with the stamping as written |
| Mongo.Store.WriteBorrowRow | mongo_writers.py:121-172 | one row's effect is `BorrowStep` with the stamping as written |
| Peewee.GroupRecords | peewee_writers.py:61 | one record per row, under the raw group name, at the position its GroupID gives |
| Peewee.UsergroupsLastWins | peewee_writers.py:56-63 | with an insert read as replacing the record at its key, a group holds the position from the last row naming it, and inserting the same rows again changes nothing |
| Peewee.CurrencyRecord | peewee_writers.py:89 | a currency is keyed by the raw name, and its symbol is the stripped name cut to its first four characters |
| Peewee.PaddedCurrencyTwice | peewee_writers.py:89 | a padded currency name is stored raw, so a book row naming it stripped creates a second currency |
| Peewee.FreshItem | peewee_writers.py:132-160 | a book row builds its item from nothing: type "book", accession "b:"+stripped, the call number cut to 8 characters and the source cut to 128, the stripped title, author and currency, the raw publisher, place and location, and the parsed publication year, receipt date and price |
| Peewee.BookStep | peewee_writers.py:132-161 | one book row, defined by its body; see ImportBooksItems, ImportBooksNames, ImportBooksCurrencies, ImportBooksLocations and ImportBooksFrame |
| Peewee.ImportBooks | peewee_writers.py:131-161 | every book row in turn, defined by its body; see ImportBooksItems, ImportBooksNames, ImportBooksCurrencies, ImportBooksLocations, ImportBooksFrame and ImportBooksTwice |
| Peewee.ImportBooksItems | peewee_writers.py:131-161 | after a book import, the items are the fresh items written in order |
| Peewee.ImportBooksNames | peewee_writers.py:139-142 | the creators, publishers and places gain exactly the names the rows give |
| Peewee.ImportBooksCurrencies | peewee_writers.py:154 | each row's stripped currency is fetched or created, in order |
| Peewee.ImportBooksLocations | peewee_writers.py:160 | each row's raw location is fetched or created, in order |
| Peewee.ImportBooksFrame | peewee_writers.py:126-161 | a book import touches no group, user, item type or loan |
| Peewee.ImportBooksTwice | peewee_writers.py:126-161 | with `save()` of a new item read as replacing the record at its key, importing the same register again changes nothing |
| Peewee.FreshItemsAt | peewee_writers.py:132-161 | the i-th item record the rows save is the i-th row's accession with its fresh item |
| Peewee.BookLastRowWins | peewee_writers.py:132-161 | with `save()` of a new item read as replacing the record at its key, an item is the fresh item of the last row naming its accession |
| Peewee.Route | peewee_writers.py:166-173 | category 1 prefixes "b:", category 2 prefixes "p:", and any other category keeps the raw accession |
| Peewee.RouteKeepsKindsApart | peewee_writers.py:166-171 | a book and a periodical never share an accession |
| Peewee.RouteFallbackAliases | peewee_writers.py:172-173 | a row of another category whose raw accession already has the book prefix names a book |
| Peewee.RouteFindsBook | peewee_writers.py:168 | a book row finds the stored item exactly when its raw accession has no surrounding whitespace |
| Peewee.BorrowStep | peewee_writers.py:165-222 | a missing item or an unresolved user (split as written or corrected) skips the row with exactly one warning; otherwise only the loan of (user, item) changes |
| Peewee.BorrowNeverRefused | peewee_writers.py:195-221 | loans stay under their own user, so a resolved row always leaves its user the loan of the item with the stamped dates; its only warning is one unset borrow date, exactly when neither format reads the date |
| Peewee.TwoHolders | peewee_writers.py:195-204 | a second user's row leaves the first user's loan of the same item in place |
| Peewee.ImportBorrows | peewee_writers.py:163-222 | every borrow row in turn, as written or corrected; no loan is ever removed; see ImportBorrowsKeyed and ImportBorrowsLawful |
| Peewee.ImportBorrowsKeyed | peewee_writers.py:163-222 | a whole borrow import keeps every loan under its own user |
| Peewee.BorrowCommaUserMissing | peewee_writers.py:184-194 | as written, a row naming a stored user whose name has a comma is skipped as an unknown user; with the corrected split the user gets the loan |
| Peewee.BorrowFirstFormatLeavesDueUnset | peewee_writers.py:207-221 | as written, a new loan whose date the first format reads gets that borrow date and no due date, which breaks the law; corrected, it is due two weeks later |
| Peewee.ImportBorrowsLawful | peewee_writers.py:206-222 | with the corrected split and stamping, every loan keeps the due-date law through a whole borrow import |
| Peewee.Store.WriteUsergroups | peewee_writers.py:56-63 | the groups are the old ones with the rows' records inserted |
| Peewee.Store.WriteUsers | peewee_writers.py:65-83 | each row's group is fetched or created, and all the user records are then inserted |
| Peewee.Store.ResolveUser | peewee_writers.py:71-81 | one row's group is fetched or created, and its user record built |
| Peewee.Store.WriteCurrencies | peewee_writers.py:85-91 | the currencies are the old ones with the rows' records inserted |
| Peewee.Store.WritePublishers | peewee_writers.py:93-99 | the publishers gain exactly the stripped names |
| Peewee.Store.WritePublishplaces | peewee_writers.py:101-108 | the places gain exactly the stripped names |
| Peewee.Store.WriteLocations | peewee_writers.py:110-124 | the location records are built in order, then inserted |
| Peewee.Store.WriteBookitems | peewee_writers.py:126-161 | the item type "book" is fetched or created with prefix "b", and then the store is `ImportBooks` of the store before |
| Peewee.Store.WriteBookRows | peewee_writers.py:131-161 | every row in turn has the effect of `BookStep` |
| Peewee.Store.WriteBookRow | peewee_writers.py:132-161 | one row's effect is `BookStep` |
| Peewee.Store.RecordReferences | peewee_writers.py:139-160 | the creator, publisher, place, currency and location a row names are each fetched or created |
| Peewee.Store.WriteBorrowcurrent | peewee_writers.py:163-222 | the loans and warnings are those `ImportBorrows` gives with the split and stamping as written |
| Peewee.Store.WriteBorrowRow | peewee_writers.py:166-222 | one row's effect is `BorrowStep` with the split and stamping as written |

## Left out

- `merlout.py` is not part of this model. It is the command-line driver that opens the CSV files and picks a writer.
- `create_tables` and `set_admin` are left out. The first is schema setup; the second asks a question on the console.
- I/O and the CSV readers are left out. Rows arrive as sequences of records with named fields. A missing column would raise `KeyError`, and that is not modelled.
- `datetime.strptime` and `float` are parameters (`Parsers`): there is no calendar and no floating point. Timestamps are integer seconds.
- `int()` is Python 2's `int()` on a `str`: whitespace, an optional sign, more optional whitespace, ASCII digits, whitespace. Every other form is rejected. A `long` result is not told apart from an `int`.
- Warnings are `Warning` values rather than printed text. Each keeps the accession and the other values its message prints (the user field, the holder, the date); the item's title is not kept.
- Records are values in maps, not ORM objects. An in-place field update followed by `save()` is one map update, so aliasing between objects is not modelled.
- The mongo book row's field-by-field updates are gathered into `UpdateItem`. Its reference lookups are gathered before the save. Their order does not affect the result.
- Peewee's `InsertQuery` and the `save()` of a new item are read as replacing any record already at the key. In the program, that INSERT raises on a unique key or adds a duplicate row, depending on the schema in `models`, which is not part of this model. `UsergroupsLastWins`, `ImportBooksTwice` and `BookLastRowWins` hold under this reading.
- Peewee.BorrowStep: `b.borrow_current` is read as the loan `get_or_create` just found. The loan table's model is not part of this model. Under this reading the refusal on lines 197-204 never fires (see `BorrowNeverRefused`).
- Peewee.Store.WriteUsers: the source creates a missing group through `UserGroup.objects.create` and catches `models.db.DoesNotExist`. The model follows the evident intent, a get-or-create.
- The peewee borrow path looks the group and user up through `models.UserGroup.objects.get` and `models.User.objects.get` and catches `models.db.DoesNotExist` (peewee_writers.py:186-190). These are read as map lookups, and a missing key as the not-found result that skips the row.
- The fields are Python 2 byte strings. Each Dafny `char` stands for one byte, so `[:n]` cuts bytes, not characters, and `lower()` and `strip()` see ASCII only.
- The item type's own record is only `ItemType(prefix)`. Genres, periodicals, roles and past loans are not written by the core.

## Findings

| source | as written | input that shows it | evidently intended | confidence | as-written member | corrected member |
|---|---|---|---|---|---|---|
| mongo_writers.py:157-171 | the due date is set only inside the handler for the first format's failure | item "b:100" with no loan, user ("Jane", "Staff") stored, row Accession "100", UserName "Jane,Staff", Date Borrowed "01/05/2020 09:00:00", which the first format reads: the loan gets a borrow date and no due date | a known borrow date always has its due date two weeks on | high; not executed | Mongo.BorrowFirstFormatLeavesDueUnset | Mongo.ImportBorrowsLawful |
| peewee_writers.py:207-221 | the same indentation: the due date is set only after the first format fails | the same row with Category "1": the new loan gets a borrow date and no due date | a known borrow date always has its due date two weeks on | high; not executed | Peewee.BorrowFirstFormatLeavesDueUnset | Peewee.ImportBorrowsLawful |
| peewee_writers.py:28 | `''.join` runs the pieces before the group together, dropping a user's own commas | user ("Smith, Jr.", "Students") stored, row UserName "Smith, Jr., Students": the lookup of "Smith Jr." fails and the row is skipped with "User does not exist" | the pieces joined back with commas, giving "Smith, Jr." (the docstring says names may contain commas) | high; not executed | Peewee.BorrowCommaUserMissing | Fields.UserFromUseridCorrectedRoundTrip |
