/** The relational writer (peewee_writers.py). Reference files are built into
    lists of records and inserted in one query; a book row always builds a
    fresh item; a borrow row routes its accession by category and creates or
    updates the loan of (user, item). The store is a class whose fields are
    the tables, each keyed by its natural key; inserting a record whose key
    is taken replaces the old one. */
module Peewee {
  import opened Wrappers
  import opened Fields
  import opened Entities

  /** An ItemType row: its prefix. */
  datatype ItemType = ItemType(prefix: string)

  /** A BookItem row. References to other tables are held by their key. */
  datatype Item = Item(
    itemType: string, accession: string, callNo: string, title: string,
    author: string, publisher: string, place: string,
    publicationYear: Option<int>, receiptDate: Option<Timestamp>,
    currency: string, price: Option<real>, source: string, location: string)

  /** A BorrowCurrent row is found by its user and its item's accession. */
  type LoanKey = (UserKey, string)

  /** A BorrowCurrent row: its user and its dates. */
  datatype Loan = Loan(user: UserKey, dates: Dates)

  /** The tables the writers touch, keyed by natural key. */
  datatype Db = Db(
    groups: map<string, Group>, users: map<UserKey, User>,
    currencies: map<string, Currency>, publishers: set<string>,
    places: set<string>, locations: map<string, Location>,
    creators: set<string>, itemTypes: map<string, ItemType>,
    items: map<string, Item>, loans: map<LoanKey, Loan>)

  /** A row of the user-groups file, as csv.DictReader yields it. */
  datatype GroupRow = GroupRow(groupId: string, groupName: string)

  // ---------------------------------------------------------------------
  // The reference files

  /** write_usergroups' records: each group under its raw name, at the
      position its GroupID gives. */
  function GroupRecords(rows: seq<GroupRow>): (records: seq<(string, Group)>)
    ensures |records| == |rows|
    ensures forall i :: 0 <= i < |rows| ==> records[i] == (rows[i].groupName, Group(Some(rows[i].groupId)))
  {
    seq(|rows|, i requires 0 <= i < |rows| => (rows[i].groupName, Group(Some(rows[i].groupId))))
  }

  /** One row of the currencies file: keyed by the raw name, its symbol the
      first four characters of the stripped name. */
  function CurrencyRecord(raw: string): (w: (string, Currency))
    ensures w.0 == raw && w.1.symbol.Some?
    ensures |w.1.symbol.value| <= 4 && w.1.symbol.value <= Strip(raw)
    ensures |w.1.symbol.value| == 4 || w.1.symbol.value == Strip(raw)
  {
    (raw, Currency(Some(Take(Strip(raw), 4))))
  }

  function CurrencyRecords(column: seq<string>): seq<(string, Currency)> {
    seq(|column|, i requires 0 <= i < |column| => CurrencyRecord(column[i]))
  }

  /** After the user groups are inserted, a group named by a row carries the
      position of the last row naming it; inserting them again changes
      nothing. */
  lemma UsergroupsLastWins(groups: map<string, Group>, rows: seq<GroupRow>, i: nat)
    requires i < |rows| && forall j :: i < j < |rows| ==> rows[j].groupName != rows[i].groupName
    ensures var g := PutAll(groups, GroupRecords(rows));
      rows[i].groupName in g && g[rows[i].groupName] == Group(Some(rows[i].groupId)) &&
      PutAll(g, GroupRecords(rows)) == g
  {
    PutAllLastWins(groups, GroupRecords(rows), i);
    PutAllTwice(groups, GroupRecords(rows));
  }

  /** A currency file names its currencies raw while a book row names its
      currency stripped: a padded name in the currency file and the same
      name in the accession register are two different currencies. */
  lemma PaddedCurrencyTwice(currencies: map<string, Currency>, raw: string)
    requires Strip(raw) != raw
    ensures var c := PutAll(currencies, CurrencyRecords([raw]));
      raw in c && Strip(raw) != raw &&
      (Strip(raw) !in currencies ==> GetOrCreate(c, Strip(raw), Currency(None)).created)
  {
    var w := CurrencyRecords([raw]);
    assert w[0] == CurrencyRecord(raw);
    PutAllLastWins(currencies, w, 0);
    assert KeysOf(w) == {raw};
  }

  // ---------------------------------------------------------------------
  // write_bookitems

  /** The item a book row builds, from nothing: every field comes from the
      row, none from an item the accession held before. */
  function FreshItem(row: BookRow, p: Parsers): (b: Item)
    ensures b.itemType == "book" && b.accession == BookAccession(row.accession)
    ensures |b.callNo| <= 8 && b.callNo <= Strip(row.callNumber)
    ensures |b.callNo| == 8 || b.callNo == Strip(row.callNumber)
    ensures |b.source| <= 128 && b.source <= row.source
    ensures |b.source| == 128 || b.source == row.source
    ensures b.author == Strip(row.author) && b.currency == Strip(row.currency)
    ensures b.title == Strip(row.title) && b.publisher == row.publisher && b.place == row.place
    ensures b.location == row.location
    ensures b.publicationYear == PublicationYear(row.dateOfPublication)
    ensures b.receiptDate == p.dayMonthNameYear(row.dateOfReceipt) && b.price == p.float(row.price)
  {
    Item(
      "book", BookAccession(row.accession), Take(Strip(row.callNumber), 8), Strip(row.title),
      Strip(row.author), row.publisher, row.place, PublicationYear(row.dateOfPublication),
      p.dayMonthNameYear(row.dateOfReceipt), Strip(row.currency), p.float(row.price),
      Take(row.source, 128), row.location)
  }

  /** What one book row does: record the creator, publisher, place, currency
      and location it names (each created only when missing) and save a
      fresh item under its accession. */
  function BookStep(db: Db, row: BookRow, p: Parsers): Db {
    db.(
      creators := db.creators + {Strip(row.author)},
      publishers := db.publishers + {row.publisher},
      places := db.places + {row.place},
      currencies := GetOrCreate(db.currencies, Strip(row.currency), Currency(None)).store,
      locations := GetOrCreate(db.locations, row.location, Location(None)).store,
      items := db.items[BookAccession(row.accession) := FreshItem(row, p)])
  }

  /** write_bookitems after its item type exists: every row in turn. */
  function ImportBooks(db: Db, rows: seq<BookRow>, p: Parsers): Db {
    if rows == [] then db else BookStep(ImportBooks(db, rows[..|rows| - 1], p), rows[|rows| - 1], p)
  }

  /** One more book row: the step write_bookitems' loop takes. */
  lemma ImportBooksPrefix(db: Db, rows: seq<BookRow>, p: Parsers, i: nat)
    requires i < |rows|
    ensures ImportBooks(db, rows[..i + 1], p) == BookStep(ImportBooks(db, rows[..i], p), rows[i], p)
  {
    assert rows[..i + 1][..i] == rows[..i];
  }

  /** The (accession, item) records the rows save, in order. */
  function FreshItems(rows: seq<BookRow>, p: Parsers): seq<(string, Item)> {
    if rows == [] then []
    else FreshItems(rows[..|rows| - 1], p) + [(BookAccession(rows[|rows| - 1].accession), FreshItem(rows[|rows| - 1], p))]
  }

  /** The stripped authors of the rows. */
  function AuthorSet(rows: seq<BookRow>): set<string> {
    if rows == [] then {} else AuthorSet(rows[..|rows| - 1]) + {Strip(rows[|rows| - 1].author)}
  }

  /** The raw publishers of the rows. */
  function PublisherSet(rows: seq<BookRow>): set<string> {
    if rows == [] then {} else PublisherSet(rows[..|rows| - 1]) + {rows[|rows| - 1].publisher}
  }

  /** The raw places of publication of the rows. */
  function PlaceSet(rows: seq<BookRow>): set<string> {
    if rows == [] then {} else PlaceSet(rows[..|rows| - 1]) + {rows[|rows| - 1].place}
  }

  /** The stripped currency names of the rows, in order. */
  function CurrencyNames(rows: seq<BookRow>): seq<string> {
    if rows == [] then [] else CurrencyNames(rows[..|rows| - 1]) + [Strip(rows[|rows| - 1].currency)]
  }

  /** The raw location names of the rows, in order. */
  function LocationNames(rows: seq<BookRow>): seq<string> {
    if rows == [] then [] else LocationNames(rows[..|rows| - 1]) + [rows[|rows| - 1].location]
  }

  /** The items after a book import: the fresh items written in order. */
  lemma {:induction false} ImportBooksItems(db: Db, rows: seq<BookRow>, p: Parsers)
    ensures ImportBooks(db, rows, p).items == PutAll(db.items, FreshItems(rows, p))
  {
    if rows != [] {
      var n := |rows| - 1;
      ImportBooksItems(db, rows[..n], p);
      PutAllSnoc(db.items, FreshItems(rows[..n], p), (BookAccession(rows[n].accession), FreshItem(rows[n], p)));
    }
  }

  /** The creators, publishers and places after a book import: every name
      the rows give, added to those already there. */
  lemma {:induction false} ImportBooksNames(db: Db, rows: seq<BookRow>, p: Parsers)
    ensures var r := ImportBooks(db, rows, p);
      r.creators == db.creators + AuthorSet(rows) &&
      r.publishers == db.publishers + PublisherSet(rows) &&
      r.places == db.places + PlaceSet(rows)
  {
    if rows != [] {
      ImportBooksNames(db, rows[..|rows| - 1], p);
    }
  }

  /** The currencies after a book import: each name the rows give fetched,
      or created when missing, in order. */
  lemma {:induction false} ImportBooksCurrencies(db: Db, rows: seq<BookRow>, p: Parsers)
    ensures ImportBooks(db, rows, p).currencies == GetOrCreateAll(db.currencies, CurrencyNames(rows), Currency(None))
  {
    if rows != [] {
      var n := |rows| - 1;
      ImportBooksCurrencies(db, rows[..n], p);
      GetOrCreateAllSnoc(db.currencies, CurrencyNames(rows[..n]), Strip(rows[n].currency), Currency(None));
    }
  }

  /** The locations after a book import: each name the rows give fetched,
      or created when missing, in order. */
  lemma {:induction false} ImportBooksLocations(db: Db, rows: seq<BookRow>, p: Parsers)
    ensures ImportBooks(db, rows, p).locations == GetOrCreateAll(db.locations, LocationNames(rows), Location(None))
  {
    if rows != [] {
      var n := |rows| - 1;
      ImportBooksLocations(db, rows[..n], p);
      GetOrCreateAllSnoc(db.locations, LocationNames(rows[..n]), rows[n].location, Location(None));
    }
  }

  /** A book import touches no group, user, item type or loan. */
  lemma {:induction false} ImportBooksFrame(db: Db, rows: seq<BookRow>, p: Parsers)
    ensures var r := ImportBooks(db, rows, p);
      r.groups == db.groups && r.users == db.users && r.itemTypes == db.itemTypes && r.loans == db.loans
  {
    if rows != [] {
      ImportBooksFrame(db, rows[..|rows| - 1], p);
    }
  }

  /** Re-importing the same register changes nothing: every item is rebuilt
      from its last row and every reference already exists. (The
      document-store writer, by contrast, appends each author again.) */
  lemma ImportBooksTwice(db: Db, rows: seq<BookRow>, p: Parsers)
    ensures ImportBooks(ImportBooks(db, rows, p), rows, p) == ImportBooks(db, rows, p)
  {
    var once := ImportBooks(db, rows, p);
    var twice := ImportBooks(once, rows, p);
    ImportBooksItems(db, rows, p);
    ImportBooksItems(once, rows, p);
    PutAllTwice(db.items, FreshItems(rows, p));
    ImportBooksNames(db, rows, p);
    ImportBooksNames(once, rows, p);
    ImportBooksCurrencies(db, rows, p);
    ImportBooksCurrencies(once, rows, p);
    ImportBooksLocations(db, rows, p);
    ImportBooksLocations(once, rows, p);
    GetOrCreateAllTwice(db.currencies, CurrencyNames(rows), Currency(None));
    GetOrCreateAllTwice(db.locations, LocationNames(rows), Location(None));
    ImportBooksFrame(db, rows, p);
    ImportBooksFrame(once, rows, p);
    assert twice.items == once.items && twice.creators == once.creators;
    assert twice.currencies == once.currencies && twice.locations == once.locations;
  }

  /** An item is rebuilt from the last row naming its accession: earlier
      rows for the same accession leave no trace in it. */
  lemma {:induction false} BookLastRowWins(db: Db, rows: seq<BookRow>, p: Parsers, i: nat)
    requires i < |rows|
    requires forall j :: i < j < |rows| ==> BookAccession(rows[j].accession) != BookAccession(rows[i].accession)
    ensures var items := ImportBooks(db, rows, p).items;
      BookAccession(rows[i].accession) in items &&
      items[BookAccession(rows[i].accession)] == FreshItem(rows[i], p)
  {
    var kvs := FreshItems(rows, p);
    ImportBooksItems(db, rows, p);
    FreshItemsAt(rows, p, i);
    forall j | i < j < |kvs|
      ensures kvs[j].0 != kvs[i].0
    {
      FreshItemsAt(rows, p, j);
    }
    PutAllLastWins(db.items, kvs, i);
  }

  /** The i-th record saved is the i-th row's accession and item. */
  lemma {:induction false} FreshItemsAt(rows: seq<BookRow>, p: Parsers, i: nat)
    requires i < |rows|
    ensures |FreshItems(rows, p)| == |rows|
    ensures FreshItems(rows, p)[i] == (BookAccession(rows[i].accession), FreshItem(rows[i], p))
  {
    var n := |rows| - 1;
    var init := rows[..n];
    var a := FreshItems(init, p);
    var last := (BookAccession(rows[n].accession), FreshItem(rows[n], p));
    assert FreshItems(rows, p) == a + [last];
    FreshItemsLength(init, p);
    if i < n {
      FreshItemsAt(init, p, i);
      assert init[i] == rows[i];
      assert (a + [last])[i] == a[i];
    } else {
      assert (a + [last])[i] == last;
    }
  }

  lemma {:induction false} FreshItemsLength(rows: seq<BookRow>, p: Parsers)
    ensures |FreshItems(rows, p)| == |rows|
  {
    if rows != [] {
      FreshItemsLength(rows[..|rows| - 1], p);
    }
  }

  // ---------------------------------------------------------------------
  // write_borrowcurrent

  /** The accession a borrow row names: category 1 is a book ('b:'), 2 a
      periodical ('p:'), anything else the raw field. */
  function Route(category: string, accession: string): (acc: string)
    ensures category == "1" ==> acc == "b:" + accession
    ensures category == "2" ==> acc == "p:" + accession
    ensures category != "1" && category != "2" ==> acc == accession
  {
    if category == "1" then "b:" + accession
    else if category == "2" then "p:" + accession
    else accession
  }

  /** A book and a periodical never share an accession. */
  lemma RouteKeepsKindsApart(a: string, b: string)
    ensures Route("1", a) != Route("2", b)
  {
    assert Route("1", a)[0] == 'b' && Route("2", b)[0] == 'p';
  }

  /** A row of another category whose raw accession already carries the
      book prefix names the same item as a book row. */
  lemma RouteFallbackAliases(a: string, category: string)
    requires category != "1" && category != "2"
    ensures Route(category, "b:" + a) == Route("1", a)
  {
  }

  /** The borrow import does not strip the accession while the book import
      does: a book row finds the item the register stored exactly when the
      raw field has no surrounding whitespace. */
  lemma RouteFindsBook(raw: string)
    ensures Route("1", raw) == BookAccession(raw) <==> Strip(raw) == raw
  {
    if Route("1", raw) == BookAccession(raw) {
      assert ("b:" + raw)[2..] == raw;
      assert ("b:" + Strip(raw))[2..] == Strip(raw);
    }
  }

  /** Every loan is stored under its own user. */
  predicate LoansKeyed(loans: map<LoanKey, Loan>) {
    forall k :: k in loans ==> loans[k].user == k.0
  }

  /** The loans after one borrow row and the warnings it printed. */
  datatype BorrowEffect = BorrowEffect(loans: map<LoanKey, Loan>, warnings: seq<Warning>)

  /** What one borrow row does. A missing item or an unknown group or user
      skips the row. Otherwise the loan of (user, item) is fetched or
      created; a loan that was found is refused when the item's loan belongs
      to someone else; else the user is set and the dates stamped. The user
      is split from the field and the dates stamped as the program does
      (AsWritten), or as its docstring and the due-date law intend (Corrected). */
  function BorrowStep(db: Db, row: BorrowRow, p: Parsers, reading: Reading): (r: BorrowEffect)
    ensures var acc := Route(row.category, row.accession);
      acc !in db.items ==> r == BorrowEffect(db.loans, [ItemMissing(acc, row.userName)])
    ensures var acc := Route(row.category, row.accession);
      var u := UserOf(reading, row.userName);
      acc in db.items && !(u.1 in db.groups && u in db.users) ==>
        r == BorrowEffect(db.loans, [UserMissing(acc, row.userName)])
    ensures r.loans.Keys <= db.loans.Keys + {(UserOf(reading, row.userName), Route(row.category, row.accession))}
    ensures forall k :: k in db.loans && k != (UserOf(reading, row.userName), Route(row.category, row.accession)) ==>
      k in r.loans && r.loans[k] == db.loans[k]
  {
    var acc := Route(row.category, row.accession);
    if acc !in db.items then BorrowEffect(db.loans, [ItemMissing(acc, row.userName)])
    else
      var u := UserOf(reading, row.userName);
      if !(u.1 in db.groups && u in db.users) then BorrowEffect(db.loans, [UserMissing(acc, row.userName)])
      else
        var found := GetOrCreate(db.loans, (u, acc), Loan(u, Dates(None, None)));
        var bc := found.value;
        if !found.created && bc.user != u then
          BorrowEffect(found.store, [BorrowedByOther(acc, row.userName, bc.user.0)])
        else
          var (dates, unset) := Stamp(reading, p, row.dateBorrowed, bc.dates);
          var warnings := if unset then [BorrowDateUnset(acc, Strip(row.dateBorrowed))] else [];
          BorrowEffect(found.store[(u, acc) := Loan(u, dates)], warnings)
  }

  /** A borrow row keeps every loan under its own user, and so it is never
      refused: a row whose item and user exist always leaves that user a
      loan of the item with the dates the row stamps, whoever else holds
      one, and the only warning is an unset borrow date, printed once when
      neither format reads the date. */
  lemma BorrowNeverRefused(db: Db, row: BorrowRow, p: Parsers, reading: Reading)
    requires LoansKeyed(db.loans)
    ensures LoansKeyed(BorrowStep(db, row, p, reading).loans)
    ensures var acc := Route(row.category, row.accession);
      var u := UserOf(reading, row.userName);
      var prior := if (u, acc) in db.loans then db.loans[(u, acc)].dates else Dates(None, None);
      acc in db.items && u.1 in db.groups && u in db.users ==>
        (u, acc) in BorrowStep(db, row, p, reading).loans &&
        BorrowStep(db, row, p, reading).loans[(u, acc)] == Loan(u, Stamp(reading, p, row.dateBorrowed, prior).0) &&
        BorrowStep(db, row, p, reading).warnings ==
          (if Stamp(reading, p, row.dateBorrowed, prior).1 then [BorrowDateUnset(acc, Strip(row.dateBorrowed))] else [])
  {
    var acc := Route(row.category, row.accession);
    var u := UserOf(reading, row.userName);
    if acc in db.items && u.1 in db.groups && u in db.users {
      var found := GetOrCreate(db.loans, (u, acc), Loan(u, Dates(None, None)));
      assert found.value.user == u;
    }
  }

  /** Two users can hold the same item at once: the second user's row
      leaves the first user's loan in place. */
  lemma TwoHolders(db: Db, row: BorrowRow, p: Parsers, reading: Reading, other: UserKey)
    requires LoansKeyed(db.loans)
    requires var acc := Route(row.category, row.accession);
      var u := UserOf(reading, row.userName);
      acc in db.items && u.1 in db.groups && u in db.users && other != u && (other, acc) in db.loans
    ensures var acc := Route(row.category, row.accession);
      var loans := BorrowStep(db, row, p, reading).loans;
      (other, acc) in loans && (UserOf(reading, row.userName), acc) in loans &&
      loans[(other, acc)].user != loans[(UserOf(reading, row.userName), acc)].user
  {
    BorrowNeverRefused(db, row, p, reading);
  }

  /** The program as written drops the commas inside a user's name before
      looking the user up: a row naming a stored user whose name has a
      comma ("Smith, Jr., Students") is skipped as an unknown user, where
      the corrected split finds the user and writes the loan. */
  lemma BorrowCommaUserMissing(db: Db, row: BorrowRow, p: Parsers, name: string, group: string)
    requires Strip(row.userName) == name + [','] + group && ',' !in group && ',' in Strip(name)
    requires Route(row.category, row.accession) in db.items && LoansKeyed(db.loans)
    requires Strip(group) in db.groups && db.users.Keys == {(Strip(name), Strip(group))}
    ensures var acc := Route(row.category, row.accession);
      BorrowStep(db, row, p, AsWritten) == BorrowEffect(db.loans, [UserMissing(acc, row.userName)])
    ensures ((Strip(name), Strip(group)), Route(row.category, row.accession)) in BorrowStep(db, row, p, Corrected).loans
  {
    UserFromUseridCorrectedRoundTrip(row.userName, name, group);
    BorrowNeverRefused(db, row, p, Corrected);
    assert UserOf(AsWritten, row.userName) != (Strip(name), Strip(group));
  }

  /** The program as written leaves a new loan whose date the first format
      reads with a borrow date and no due date, where the corrected stamping
      sets the due date two weeks on. */
  lemma BorrowFirstFormatLeavesDueUnset(db: Db, row: BorrowRow, p: Parsers, t: Timestamp)
    requires LoansKeyed(db.loans) && Route(row.category, row.accession) in db.items
    requires var u := UserFromUserid(row.userName);
      u.1 in db.groups && u in db.users && (u, Route(row.category, row.accession)) !in db.loans
    requires UserFromUseridCorrected(row.userName) == UserFromUserid(row.userName)
    requires p.monthDayLongYear(Strip(row.dateBorrowed)) == Some(t)
    ensures var k := (UserFromUserid(row.userName), Route(row.category, row.accession));
      BorrowStep(db, row, p, AsWritten).loans[k] == Loan(k.0, Dates(Some(t), None)) &&
      BorrowStep(db, row, p, Corrected).loans[k] == Loan(k.0, Dates(Some(t), Some(t + TwoWeeks)))
    ensures !LoansLawful(BorrowStep(db, row, p, AsWritten).loans)
  {
    var k := (UserFromUserid(row.userName), Route(row.category, row.accession));
    BorrowNeverRefused(db, row, p, AsWritten);
    BorrowNeverRefused(db, row, p, Corrected);
    assert !DueDateLaw(BorrowStep(db, row, p, AsWritten).loans[k].dates);
  }

  /** write_borrowcurrent: the loans and the warnings after every row. */
  function ImportBorrows(db: Db, rows: seq<BorrowRow>, p: Parsers, reading: Reading): (r: BorrowEffect)
    ensures db.loans.Keys <= r.loans.Keys
  {
    if rows == [] then BorrowEffect(db.loans, [])
    else
      var prev := ImportBorrows(db, rows[..|rows| - 1], p, reading);
      var e := BorrowStep(db.(loans := prev.loans), rows[|rows| - 1], p, reading);
      BorrowEffect(e.loans, prev.warnings + e.warnings)
  }

  /** One more borrow row: the step write_borrowcurrent's loop takes. */
  lemma ImportBorrowsPrefix(db: Db, rows: seq<BorrowRow>, p: Parsers, reading: Reading, i: nat)
    requires i < |rows|
    ensures var prev := ImportBorrows(db, rows[..i], p, reading);
      var e := BorrowStep(db.(loans := prev.loans), rows[i], p, reading);
      ImportBorrows(db, rows[..i + 1], p, reading) == BorrowEffect(e.loans, prev.warnings + e.warnings)
  {
    assert rows[..i + 1][..i] == rows[..i];
  }

  /** A whole borrow import keeps every loan under its own user, and no
      loan is ever removed. */
  lemma {:induction false} ImportBorrowsKeyed(db: Db, rows: seq<BorrowRow>, p: Parsers, reading: Reading)
    requires LoansKeyed(db.loans)
    ensures LoansKeyed(ImportBorrows(db, rows, p, reading).loans)
  {
    if rows != [] {
      var prev := ImportBorrows(db, rows[..|rows| - 1], p, reading);
      ImportBorrowsKeyed(db, rows[..|rows| - 1], p, reading);
      BorrowNeverRefused(db.(loans := prev.loans), rows[|rows| - 1], p, reading);
    }
  }

  /** Every loan keeps the due-date law. */
  predicate LoansLawful(loans: map<LoanKey, Loan>) {
    forall k :: k in loans ==> DueDateLaw(loans[k].dates)
  }

  /** With the corrected split and stamping, a borrow import keeps the
      due-date law on every loan it finds lawful and on every loan it
      creates. */
  lemma {:induction false} ImportBorrowsLawful(db: Db, rows: seq<BorrowRow>, p: Parsers)
    requires LoansLawful(db.loans) && LoansKeyed(db.loans)
    ensures LoansLawful(ImportBorrows(db, rows, p, Corrected).loans)
  {
    if rows != [] {
      var prev := ImportBorrows(db, rows[..|rows| - 1], p, Corrected);
      ImportBorrowsLawful(db, rows[..|rows| - 1], p);
      ImportBorrowsKeyed(db, rows[..|rows| - 1], p, Corrected);
      var row := rows[|rows| - 1];
      var acc := Route(row.category, row.accession);
      var u := UserFromUseridCorrected(row.userName);
      var prior := if (u, acc) in prev.loans then prev.loans[(u, acc)].dates else Dates(None, None);
      StampDatesCorrectedLaw(p, row.dateBorrowed, prior);
    }
  }

  // ---------------------------------------------------------------------
  // The store

  /** A list built one element at a time is a prefix of the whole. */
  lemma PrefixStep<T>(s: seq<T>, i: nat)
    requires i < |s|
    ensures s[..i + 1] == s[..i] + [s[i]]
  {
  }

  class Store {
    var groups: map<string, Group>
    var users: map<UserKey, User>
    var currencies: map<string, Currency>
    var publishers: set<string>
    var places: set<string>
    var locations: map<string, Location>
    var creators: set<string>
    var itemTypes: map<string, ItemType>
    var items: map<string, Item>
    var loans: map<LoanKey, Loan>

    function Snapshot(): Db
      reads this
    {
      Db(groups, users, currencies, publishers, places, locations, creators, itemTypes, items, loans)
    }

    /** Empty tables. */
    constructor ()
      ensures Snapshot() == Db(map[], map[], map[], {}, {}, map[], {}, map[], map[], map[])
    {
      groups, users, currencies := map[], map[], map[];
      publishers, places, locations := {}, {}, map[];
      creators, itemTypes, items, loans := {}, map[], map[], map[];
    }

    /** write_usergroups: one insert of every row's group. */
    method WriteUsergroups(rows: seq<GroupRow>)
      modifies this`groups
      ensures groups == PutAll(old(groups), GroupRecords(rows))
    {
      groups := PutAll(groups, GroupRecords(rows));
    }

    /** write_users: each row's group is fetched, or created when missing,
        and its user record is added to a list; the list is then inserted. */
    method WriteUsers(rows: seq<UserRow>)
      modifies this`groups, this`users
      ensures groups == GetOrCreateAll(old(groups), UserGroupNames(rows), Group(None))
      ensures users == PutAll(old(users), UserWrites(rows))
    {
      var pending: seq<(UserKey, User)> := [];
      var i := 0;
      while i < |rows|
        invariant 0 <= i <= |rows|
        invariant groups == GetOrCreateAll(old(groups), UserGroupNames(rows)[..i], Group(None))
        invariant pending == UserWrites(rows)[..i] && users == old(users)
      {
        var w := ResolveUser(rows[i]);
        pending := pending + [w];
        GetOrCreateAllPrefix(old(groups), UserGroupNames(rows), Group(None), i);
        PrefixStep(UserWrites(rows), i);
        i := i + 1;
      }
      assert UserWrites(rows)[..i] == UserWrites(rows);
      assert UserGroupNames(rows)[..i] == UserGroupNames(rows);
      users := PutAll(users, pending);
    }

    /** The body of write_users' loop for one row: the group is fetched, or
        created when missing, and the user record built. */
    method ResolveUser(d: UserRow) returns (w: (UserKey, User))
      modifies this`groups
      ensures groups == GetOrCreate(old(groups), Strip(d.groupName), Group(None)).store
      ensures w == UserWrite(d)
    {
      var groupName := Strip(d.groupName);
      groups := GetOrCreate(groups, groupName, Group(None)).store;
      var email := if d.email != "" then Some(Strip(d.email)) else None;
      var name := Strip(d.userName);
      w := ((name, groupName), User(email, Username(name, groupName)));
    }

    /** write_currencies: one insert of every row's currency. */
    method WriteCurrencies(column: seq<string>)
      modifies this`currencies
      ensures currencies == PutAll(old(currencies), CurrencyRecords(column))
    {
      currencies := PutAll(currencies, CurrencyRecords(column));
    }

    /** write_publishers: one insert of every stripped name. */
    method WritePublishers(column: seq<string>)
      modifies this`publishers
      ensures publishers == old(publishers) + StrippedNames(column)
    {
      publishers := publishers + StrippedNames(column);
    }

    /** write_publishplaces: one insert of every stripped name. */
    method WritePublishplaces(column: seq<string>)
      modifies this`places
      ensures places == old(places) + StrippedNames(column)
    {
      places := places + StrippedNames(column);
    }

    /** write_locations: each row's record is added to a list, which is then
        inserted. */
    method WriteLocations(rows: seq<LocationRow>)
      modifies this`locations
      ensures locations == PutAll(old(locations), LocationWrites(rows))
    {
      var pending: seq<(string, Location)> := [];
      var i := 0;
      while i < |rows|
        invariant 0 <= i <= |rows|
        invariant pending == LocationWrites(rows)[..i] && locations == old(locations)
      {
        var name := Strip(rows[i].location);
        var preventBorrowing := IntFlag(rows[i].preventBorrow);
        pending := pending + [(name, Location(Some(preventBorrowing)))];
        PrefixStep(LocationWrites(rows), i);
        i := i + 1;
      }
      assert LocationWrites(rows)[..i] == LocationWrites(rows);
      locations := PutAll(locations, pending);
    }

    /** write_bookitems: the item type 'book' is fetched, or created with
        prefix 'b', then every row saves a fresh item. */
    method WriteBookitems(rows: seq<BookRow>, p: Parsers)
      modifies this`itemTypes, this`creators, this`publishers, this`places, this`currencies, this`locations, this`items
      ensures itemTypes == GetOrCreate(old(itemTypes), "book", ItemType("b")).store
      ensures Snapshot() == ImportBooks(old(Snapshot()).(itemTypes := itemTypes), rows, p)
    {
      itemTypes := GetOrCreate(itemTypes, "book", ItemType("b")).store;
      WriteBookRows(rows, p);
    }

    /** write_bookitems' loop: every row saves a fresh item. */
    method WriteBookRows(rows: seq<BookRow>, p: Parsers)
      modifies this`creators, this`publishers, this`places, this`currencies, this`locations, this`items
      ensures Snapshot() == ImportBooks(old(Snapshot()), rows, p)
    {
      var i := 0;
      while i < |rows|
        invariant 0 <= i <= |rows|
        invariant Snapshot() == ImportBooks(old(Snapshot()), rows[..i], p)
      {
        WriteBookRow(rows[i], p);
        ImportBooksPrefix(old(Snapshot()), rows, p, i);
        i := i + 1;
      }
      assert rows[..i] == rows;
    }

    /** The body of write_bookitems' loop for one row. */
    method WriteBookRow(d: BookRow, p: Parsers)
      modifies this`creators, this`publishers, this`places, this`currencies, this`locations, this`items
      ensures Snapshot() == BookStep(old(Snapshot()), d, p)
    {
      var accession := BookAccession(d.accession);
      RecordReferences(d);
      items := items[accession := FreshItem(d, p)];
    }

    /** The creator, publisher, place, currency and location a book row
        names, each fetched or created. */
    method RecordReferences(d: BookRow)
      modifies this`creators, this`publishers, this`places, this`currencies, this`locations
      ensures creators == old(creators) + {Strip(d.author)}
      ensures publishers == old(publishers) + {d.publisher}
      ensures places == old(places) + {d.place}
      ensures currencies == GetOrCreate(old(currencies), Strip(d.currency), Currency(None)).store
      ensures locations == GetOrCreate(old(locations), d.location, Location(None)).store
    {
      creators := creators + {Strip(d.author)};
      publishers := publishers + {d.publisher};
      places := places + {d.place};
      currencies := GetOrCreate(currencies, Strip(d.currency), Currency(None)).store;
      locations := GetOrCreate(locations, d.location, Location(None)).store;
    }

    /** write_borrowcurrent: every row in turn; the warnings it prints are
        returned. */
    method WriteBorrowcurrent(rows: seq<BorrowRow>, p: Parsers) returns (warnings: seq<Warning>)
      modifies this`loans
      ensures var r := ImportBorrows(old(Snapshot()), rows, p, AsWritten);
        loans == r.loans && warnings == r.warnings
    {
      warnings := [];
      var i := 0;
      while i < |rows|
        invariant 0 <= i <= |rows|
        invariant Snapshot() == old(Snapshot()).(loans := loans)
        invariant ImportBorrows(old(Snapshot()), rows[..i], p, AsWritten) == BorrowEffect(loans, warnings)
      {
        var w := WriteBorrowRow(rows[i], p);
        ImportBorrowsPrefix(old(Snapshot()), rows, p, AsWritten, i);
        warnings := warnings + w;
        i := i + 1;
      }
      assert rows[..i] == rows;
    }

    /** The body of write_borrowcurrent's loop for one row. */
    method WriteBorrowRow(d: BorrowRow, p: Parsers) returns (warnings: seq<Warning>)
      modifies this`loans
      ensures var e := BorrowStep(old(Snapshot()), d, p, AsWritten);
        loans == e.loans && warnings == e.warnings
    {
      var accession := Route(d.category, d.accession);
      if accession !in items {
        return [ItemMissing(accession, d.userName)];
      }
      var u := UserFromUserid(d.userName);
      if u.1 !in groups || u !in users {
        return [UserMissing(accession, d.userName)];
      }
      var found := GetOrCreate(loans, (u, accession), Loan(u, Dates(None, None)));
      loans := found.store;
      var bc := found.value;
      if !found.created && bc.user != u {
        return [BorrowedByOther(accession, d.userName, bc.user.0)];
      }
      bc := bc.(user := u);
      var (dates, unset) := StampDates(p, d.dateBorrowed, bc.dates);
      warnings := if unset then [BorrowDateUnset(accession, Strip(d.dateBorrowed))] else [];
      bc := bc.(dates := dates);
      loans := loans[(u, accession) := bc];
    }
  }
}
