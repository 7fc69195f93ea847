/** The document-store writer (mongo_writers.py). Reference files are upserted
    row by row; a book row updates the item with its accession, or creates
    it, and appends its author; a borrow row updates the loan embedded in the
    item, refusing when someone else holds it. The store is a class whose
    fields are the collections; each writer is a method that loops over its
    rows, proved against a function that gives the store it leaves. */
module Mongo {
  import opened Wrappers
  import opened Fields
  import opened Entities

  /** The loan embedded in an item (BorrowCurrent). */
  datatype Loan = Loan(user: UserKey, dates: Dates)

  /** A BookItem document. */
  datatype Item = Item(
    accession: string, callNos: seq<string>, title: Option<string>,
    authors: seq<string>, publisher: Option<string>, place: Option<string>,
    publicationYear: Option<int>, receiptDate: Option<Timestamp>,
    currency: Option<string>, price: Option<real>, source: Option<string>,
    location: Option<string>, borrowCurrent: Option<Loan>)

  /** BookItem() with its accession set and nothing else filled in. */
  function NewItem(accession: string): Item {
    Item(accession, [], None, [], None, None, None, None, None, None, None, None, None)
  }

  /** The collections the writers touch, keyed by natural key. */
  datatype Db = Db(
    groups: map<string, Group>, users: map<UserKey, User>,
    currencies: map<string, Currency>, publishers: set<string>,
    places: set<string>, locations: map<string, Location>,
    creators: set<string>, items: map<string, Item>)

  /** The exceptions that end an import part-way. */
  datatype ImportError =
    | NoHeader                       // reader.next() on an empty file
    | BadHeader                      // the ValueError for a wrong header
    | ShortRow(row: seq<string>)     // d[1] on a row of fewer than two cells
    | BadUserName(userName: string)  // the unpacking of a split with other than one comma

  // ---------------------------------------------------------------------
  // write_usergroups

  const GroupHeader: seq<string> := ["GroupID", "GroupName"]

  /** The group rows after the header, upserted in turn: each sets the
      position d[0] of the group named d[1]; a row of fewer than two cells
      stops the import there, with what came before it written. */
  function UpsertGroups(groups: map<string, Group>, rows: seq<seq<string>>): (r: (map<string, Group>, Option<ImportError>))
  {
    if rows == [] then (groups, None)
    else
      var prev := UpsertGroups(groups, rows[..|rows| - 1]);
      var d := rows[|rows| - 1];
      if prev.1.Some? then prev
      else if |d| < 2 then (prev.0, Some(ShortRow(d)))
      else (prev.0[d[1] := Group(Some(d[0]))], None)
  }

  /** write_usergroups over a csv.reader: the first row must be exactly the
      header, checked before anything is written. */
  function ImportUsergroups(groups: map<string, Group>, rows: seq<seq<string>>): (r: (map<string, Group>, Option<ImportError>))
    ensures r.1 == Some(NoHeader) <==> rows == []
    ensures r.1 == Some(BadHeader) <==> rows != [] && rows[0] != GroupHeader
    ensures r.0 != groups ==> rows != [] && rows[0] == GroupHeader
  {
    if rows == [] then (groups, Some(NoHeader))
    else if rows[0] != GroupHeader then (groups, Some(BadHeader))
    else
      UpsertGroupsError(groups, rows[1..]);
      UpsertGroups(groups, rows[1..])
  }

  lemma {:induction false} UpsertGroupsError(groups: map<string, Group>, rows: seq<seq<string>>)
    ensures UpsertGroups(groups, rows).1 == None || UpsertGroups(groups, rows).1.value.ShortRow?
  {
    if rows != [] {
      UpsertGroupsError(groups, rows[..|rows| - 1]);
    }
  }

  /** Once a row has stopped the import, the rows after it change nothing. */
  lemma {:induction false} UpsertGroupsStops(groups: map<string, Group>, rows: seq<seq<string>>, i: nat)
    requires i <= |rows| && UpsertGroups(groups, rows[..i]).1.Some?
    ensures UpsertGroups(groups, rows) == UpsertGroups(groups, rows[..i])
  {
    if i < |rows| {
      assert rows[..|rows| - 1][..i] == rows[..i];
      UpsertGroupsStops(groups, rows[..|rows| - 1], i);
    } else {
      assert rows[..i] == rows;
    }
  }

  /** The position each well-formed group row writes. */
  function GroupWrites(rows: seq<seq<string>>): seq<(string, Group)>
    requires forall i :: 0 <= i < |rows| ==> |rows[i]| >= 2
  {
    seq(|rows|, i requires 0 <= i < |rows| => (rows[i][1], Group(Some(rows[i][0]))))
  }

  /** With every row well-formed, the group import is a sequence of upserts. */
  lemma {:induction false} UpsertGroupsWellFormed(groups: map<string, Group>, rows: seq<seq<string>>)
    requires forall i :: 0 <= i < |rows| ==> |rows[i]| >= 2
    ensures UpsertGroups(groups, rows) == (PutAll(groups, GroupWrites(rows)), None)
  {
    if rows != [] {
      var init := rows[..|rows| - 1];
      UpsertGroupsWellFormed(groups, init);
      assert GroupWrites(rows)[..|rows| - 1] == GroupWrites(init);
    }
  }

  /** After a well-formed group file, each group named in it exists with the
      position of the last row naming it; importing the file a second time
      leaves the groups as the first import left them. */
  lemma UsergroupsReplay(groups: map<string, Group>, rows: seq<seq<string>>, i: nat)
    requires rows != [] && rows[0] == GroupHeader
    requires forall j :: 1 <= j < |rows| ==> |rows[j]| >= 2
    requires 1 <= i < |rows| && forall j :: i < j < |rows| ==> rows[j][1] != rows[i][1]
    ensures var r := ImportUsergroups(groups, rows);
      r.1 == None && rows[i][1] in r.0 && r.0[rows[i][1]] == Group(Some(rows[i][0])) &&
      ImportUsergroups(r.0, rows) == r
  {
    var body := rows[1..];
    assert forall j :: 0 <= j < |body| ==> |body[j]| >= 2 by {
      forall j | 0 <= j < |body| ensures |body[j]| >= 2 {
        assert body[j] == rows[j + 1];
      }
    }
    UpsertGroupsWellFormed(groups, body);
    var w := GroupWrites(body);
    PutAllLastWins(groups, w, i - 1);
    UpsertGroupsWellFormed(PutAll(groups, w), body);
    PutAllTwice(groups, w);
  }

  // ---------------------------------------------------------------------
  // The other reference files

  /** One row of the currencies file: keyed by the stripped name, its symbol
      the first four characters. */
  function CurrencyWrite(raw: string): (w: (string, Currency))
    ensures w.0 == Strip(raw) && w.1.symbol.Some?
    ensures |w.1.symbol.value| <= 4 && w.1.symbol.value <= w.0
    ensures |w.1.symbol.value| == 4 || w.1.symbol.value == w.0
  {
    var name := Strip(raw);
    (name, Currency(Some(Take(name, 4))))
  }

  function CurrencyWrites(column: seq<string>): seq<(string, Currency)> {
    seq(|column|, i requires 0 <= i < |column| => CurrencyWrite(column[i]))
  }

  // ---------------------------------------------------------------------
  // write_bookitems

  /** The item a book row starts from: the one stored under its accession,
      or a new one. */
  function Existing(items: map<string, Item>, acc: string): Item {
    if acc in items then items[acc] else NewItem(acc)
  }

  /** The fields one book row sets on its item; the accession and the loan
      are left as they were, and the author is appended to the list. */
  function UpdateItem(b: Item, row: BookRow, p: Parsers): (b': Item)
    ensures b'.accession == b.accession && b'.borrowCurrent == b.borrowCurrent
    ensures b'.authors == b.authors + [Strip(row.author)]
    ensures |b'.callNos| == 1 && |b'.callNos[0]| <= 8 && b'.callNos[0] <= Strip(row.callNumber)
    ensures |b'.callNos[0]| == 8 || b'.callNos[0] == Strip(row.callNumber)
    ensures b'.source.Some? && |b'.source.value| <= 128 && b'.source.value <= row.source
    ensures |b'.source.value| == 128 || b'.source.value == row.source
    ensures b'.title == Some(Strip(row.title)) && b'.currency == Some(Strip(row.currency))
    ensures b'.publisher == Some(row.publisher) && b'.place == Some(row.place) && b'.location == Some(row.location)
    ensures b'.publicationYear == PublicationYear(row.dateOfPublication)
    ensures b'.receiptDate == p.dayMonthNameYear(row.dateOfReceipt) && b'.price == p.float(row.price)
  {
    b.(
      callNos := [Take(Strip(row.callNumber), 8)],
      title := Some(Strip(row.title)),
      authors := b.authors + [Strip(row.author)],
      publisher := Some(row.publisher),
      place := Some(row.place),
      publicationYear := PublicationYear(row.dateOfPublication),
      receiptDate := p.dayMonthNameYear(row.dateOfReceipt),
      currency := Some(Strip(row.currency)),
      price := p.float(row.price),
      source := Some(Take(row.source, 128)),
      location := Some(row.location))
  }

  /** What one book row does: find the item by accession, or start a new one;
      update it, creating the currency and location it names when they are
      missing, record its author, publisher and place, and save it under its
      accession. Nothing else in the store changes. */
  function BookStep(db: Db, row: BookRow, p: Parsers): (r: Db)
    ensures var acc := BookAccession(row.accession);
      r.items == db.items[acc := UpdateItem(Existing(db.items, acc), row, p)]
    ensures r.creators == db.creators + {Strip(row.author)}
    ensures r.publishers == db.publishers + {row.publisher}
    ensures r.places == db.places + {row.place}
    ensures r.currencies == GetOrCreate(db.currencies, Strip(row.currency), Currency(None)).store
    ensures r.locations == GetOrCreate(db.locations, row.location, Location(None)).store
    ensures r.groups == db.groups && r.users == db.users
  {
    var acc := BookAccession(row.accession);
    db.(
      creators := db.creators + {Strip(row.author)},
      publishers := db.publishers + {row.publisher},
      places := db.places + {row.place},
      currencies := GetOrCreate(db.currencies, Strip(row.currency), Currency(None)).store,
      locations := GetOrCreate(db.locations, row.location, Location(None)).store,
      items := db.items[acc := UpdateItem(Existing(db.items, acc), row, p)])
  }

  /** BookStep, field by field: the step the store's method takes. */
  lemma BookStepFields(db: Db, row: BookRow, p: Parsers, r: Db)
    requires r.groups == db.groups && r.users == db.users
    requires r.creators == db.creators + {Strip(row.author)}
    requires r.publishers == db.publishers + {row.publisher}
    requires r.places == db.places + {row.place}
    requires r.currencies == GetOrCreate(db.currencies, Strip(row.currency), Currency(None)).store
    requires r.locations == GetOrCreate(db.locations, row.location, Location(None)).store
    requires var acc := BookAccession(row.accession);
      r.items == db.items[acc := UpdateItem(Existing(db.items, acc), row, p)]
    ensures r == BookStep(db, row, p)
  {
  }

  /** write_bookitems: every row in turn. */
  function ImportBooks(db: Db, rows: seq<BookRow>, p: Parsers): Db {
    if rows == [] then db else BookStep(ImportBooks(db, rows[..|rows| - 1], p), rows[|rows| - 1], p)
  }

  /** One more book row: the step write_bookitems' loop takes. */
  lemma ImportBooksPrefix(db: Db, rows: seq<BookRow>, p: Parsers, i: nat)
    requires i < |rows|
    ensures ImportBooks(db, rows[..i + 1], p) == BookStep(ImportBooks(db, rows[..i], p), rows[i], p)
  {
    assert rows[..i + 1][..i] == rows[..i];
  }

  /** How many rows of a book file name the accession acc. */
  function RowsFor(rows: seq<BookRow>, acc: string): nat {
    if rows == [] then 0
    else RowsFor(rows[..|rows| - 1], acc) + (if BookAccession(rows[|rows| - 1].accession) == acc then 1 else 0)
  }

  /** A book import keeps one item per accession, and an item's author list
      grows by exactly one entry for every row naming it: re-importing a
      book appends its author again. */
  lemma {:induction false} AuthorsGrowPerRow(db: Db, rows: seq<BookRow>, p: Parsers, acc: string)
    ensures var r := ImportBooks(db, rows, p);
      (acc in r.items <==> acc in db.items || RowsFor(rows, acc) > 0) &&
      (acc in r.items ==>
        |r.items[acc].authors| == (if acc in db.items then |db.items[acc].authors| else 0) + RowsFor(rows, acc))
  {
    if rows != [] {
      var init, row := rows[..|rows| - 1], rows[|rows| - 1];
      AuthorsGrowPerRow(db, init, p, acc);
      var prev := ImportBooks(db, init, p);
      var k := BookAccession(row.accession);
      assert ImportBooks(db, rows, p).items == prev.items[k := UpdateItem(Existing(prev.items, k), row, p)];
      assert RowsFor(rows, acc) == RowsFor(init, acc) + if k == acc then 1 else 0;
    }
  }

  /** A book import never touches a loan: an item's borrow state is the one
      it had, or none for an item the import created. */
  lemma {:induction false} BooksKeepLoans(db: Db, rows: seq<BookRow>, p: Parsers, acc: string)
    requires acc in ImportBooks(db, rows, p).items
    ensures ImportBooks(db, rows, p).items[acc].borrowCurrent ==
      if acc in db.items then db.items[acc].borrowCurrent else None
  {
    if rows != [] {
      var prev := ImportBooks(db, rows[..|rows| - 1], p);
      if acc in prev.items {
        BooksKeepLoans(db, rows[..|rows| - 1], p, acc);
      } else {
        AuthorsGrowPerRow(db, rows[..|rows| - 1], p, acc);
      }
    }
  }

  // ---------------------------------------------------------------------
  // write_borrowcurrent

  /** The items after one borrow row, the warnings it printed, and the
      exception that ended the import, if any. */
  datatype BorrowEffect = BorrowEffect(items: map<string, Item>, warnings: seq<Warning>, error: Option<ImportError>)

  /** The user a borrow row names, when its group and then the user exist. */
  predicate Resolves(db: Db, u: UserKey) {
    u.1 in db.groups && u in db.users
  }

  /** The dates a borrow row starts from: the loan's, or none for a new loan. */
  function PriorDates(b: Item): Dates {
    if b.borrowCurrent.Some? then b.borrowCurrent.value.dates else Dates(None, None)
  }

  /** What one borrow row does. The accession is always 'b:' + the raw field.
      A missing item skips the row; otherwise the user field must split at
      exactly one comma (else the import stops); an unknown group or user
      skips the row, and so does an item someone else holds. Otherwise the
      loan is created if absent, its user set and its dates stamped, as the
      program stamps them (AsWritten) or with the due date always derived
      (Corrected). */
  function BorrowStep(db: Db, row: BorrowRow, p: Parsers, reading: Reading): (r: BorrowEffect)
    ensures r.items.Keys == db.items.Keys
    ensures var acc := "b:" + row.accession;
      forall a :: a in db.items && a != acc ==> r.items[a] == db.items[a]
    ensures var acc := "b:" + row.accession;
      acc !in db.items ==> r == BorrowEffect(db.items, [ItemMissing(acc, row.userName)], None)
    ensures var acc := "b:" + row.accession;
      acc in db.items && SplitBorrower(row.userName).None? ==>
        r == BorrowEffect(db.items, [], Some(BadUserName(row.userName)))
    ensures r.error.Some? ==> r.items == db.items
    ensures var acc := "b:" + row.accession;
      acc in db.items && SplitBorrower(row.userName).Some? && !Resolves(db, SplitBorrower(row.userName).value) ==>
        r == BorrowEffect(db.items, [UserMissing(acc, row.userName)], None)
    ensures var acc := "b:" + row.accession;
      acc in db.items && SplitBorrower(row.userName).Some? && Resolves(db, SplitBorrower(row.userName).value) &&
      db.items[acc].borrowCurrent.Some? && db.items[acc].borrowCurrent.value.user != SplitBorrower(row.userName).value ==>
        r == BorrowEffect(db.items, [BorrowedByOther(acc, row.userName, db.items[acc].borrowCurrent.value.user.0)], None)
    ensures var acc := "b:" + row.accession;
      acc in db.items && db.items[acc].borrowCurrent.Some? ==>
        r.items[acc].borrowCurrent.Some? &&
        r.items[acc].borrowCurrent.value.user == db.items[acc].borrowCurrent.value.user
    ensures var acc := "b:" + row.accession;
      r.items != db.items ==>
        SplitBorrower(row.userName).Some? && Resolves(db, SplitBorrower(row.userName).value) &&
        r.items[acc] == db.items[acc].(borrowCurrent := Some(Loan(
          SplitBorrower(row.userName).value,
          Stamp(reading, p, row.dateBorrowed, PriorDates(db.items[acc])).0)))
    ensures var acc := "b:" + row.accession;
      acc in db.items && SplitBorrower(row.userName).Some? && Resolves(db, SplitBorrower(row.userName).value) &&
      (db.items[acc].borrowCurrent.None? || db.items[acc].borrowCurrent.value.user == SplitBorrower(row.userName).value) ==>
        var s := Stamp(reading, p, row.dateBorrowed, PriorDates(db.items[acc]));
        r.error == None && r.items[acc].borrowCurrent == Some(Loan(SplitBorrower(row.userName).value, s.0)) &&
        r.warnings == (if s.1 then [BorrowDateUnset(acc, Strip(row.dateBorrowed))] else [])
  {
    var acc := "b:" + row.accession;
    if acc !in db.items then BorrowEffect(db.items, [ItemMissing(acc, row.userName)], None)
    else
      match SplitBorrower(row.userName)
      case None => BorrowEffect(db.items, [], Some(BadUserName(row.userName)))
      case Some(u) =>
        var b := db.items[acc];
        if !Resolves(db, u) then BorrowEffect(db.items, [UserMissing(acc, row.userName)], None)
        else if b.borrowCurrent.Some? && b.borrowCurrent.value.user != u then
          BorrowEffect(db.items, [BorrowedByOther(acc, row.userName, b.borrowCurrent.value.user.0)], None)
        else
          var (dates, unset) := Stamp(reading, p, row.dateBorrowed, PriorDates(b));
          var warnings := if unset then [BorrowDateUnset(acc, Strip(row.dateBorrowed))] else [];
          BorrowEffect(db.items[acc := b.(borrowCurrent := Some(Loan(u, dates)))], warnings, None)
  }

  /** The store, the warnings so far and the exception that ended the run. */
  datatype BorrowRun = BorrowRun(db: Db, warnings: seq<Warning>, error: Option<ImportError>)

  /** write_borrowcurrent: the rows in turn, until one raises. */
  function ImportBorrows(db: Db, rows: seq<BorrowRow>, p: Parsers, reading: Reading): (r: BorrowRun)
    ensures r.db.items.Keys == db.items.Keys
    ensures r.db.(items := db.items) == db
  {
    if rows == [] then BorrowRun(db, [], None)
    else
      var prev := ImportBorrows(db, rows[..|rows| - 1], p, reading);
      if prev.error.Some? then prev
      else
        var e := BorrowStep(prev.db, rows[|rows| - 1], p, reading);
        BorrowRun(prev.db.(items := e.items), prev.warnings + e.warnings, e.error)
  }

  /** One more borrow row after rows that raised nothing: the step
      write_borrowcurrent's loop takes. */
  lemma ImportBorrowsPrefix(db: Db, rows: seq<BorrowRow>, p: Parsers, reading: Reading, i: nat)
    requires i < |rows|
    requires ImportBorrows(db, rows[..i], p, reading).error == None
    ensures var prev := ImportBorrows(db, rows[..i], p, reading);
      var e := BorrowStep(prev.db, rows[i], p, reading);
      ImportBorrows(db, rows[..i + 1], p, reading) == BorrowRun(prev.db.(items := e.items), prev.warnings + e.warnings, e.error)
  {
    assert rows[..i + 1][..i] == rows[..i];
  }

  /** Once a row has raised, the rows after it change nothing. */
  lemma {:induction false} ImportBorrowsStops(db: Db, rows: seq<BorrowRow>, p: Parsers, reading: Reading, i: nat)
    requires i <= |rows| && ImportBorrows(db, rows[..i], p, reading).error.Some?
    ensures ImportBorrows(db, rows, p, reading) == ImportBorrows(db, rows[..i], p, reading)
  {
    if i < |rows| {
      assert rows[..|rows| - 1][..i] == rows[..i];
      ImportBorrowsStops(db, rows[..|rows| - 1], p, reading, i);
    } else {
      assert rows[..i] == rows;
    }
  }

  /** Conflict preservation: an item lent to a user stays lent to that user
      through a whole borrow import, whoever the later rows name. */
  lemma {:induction false} HolderKept(db: Db, rows: seq<BorrowRow>, p: Parsers, reading: Reading, acc: string)
    requires acc in db.items && db.items[acc].borrowCurrent.Some?
    ensures var r := ImportBorrows(db, rows, p, reading).db.items;
      acc in r && r[acc].borrowCurrent.Some? &&
      r[acc].borrowCurrent.value.user == db.items[acc].borrowCurrent.value.user
  {
    if rows != [] {
      HolderKept(db, rows[..|rows| - 1], p, reading, acc);
    }
  }

  /** Every loan of the items keeps the due-date law. */
  predicate LoansLawful(items: map<string, Item>) {
    forall a :: a in items && items[a].borrowCurrent.Some? ==> DueDateLaw(items[a].borrowCurrent.value.dates)
  }

  /** With the corrected stamping, a borrow import keeps the due-date law on
      every loan it finds lawful and on every loan it creates. */
  lemma {:induction false} ImportBorrowsLawful(db: Db, rows: seq<BorrowRow>, p: Parsers)
    requires LoansLawful(db.items)
    ensures LoansLawful(ImportBorrows(db, rows, p, Corrected).db.items)
  {
    if rows != [] {
      var prev := ImportBorrows(db, rows[..|rows| - 1], p, Corrected);
      ImportBorrowsLawful(db, rows[..|rows| - 1], p);
      if prev.error.None? {
        var row := rows[|rows| - 1];
        var acc := "b:" + row.accession;
        var e := BorrowStep(prev.db, row, p, Corrected);
        if e.items != prev.db.items {
          StampDatesCorrectedLaw(p, row.dateBorrowed, PriorDates(prev.db.items[acc]));
        }
      }
    }
  }

  /** The program as written breaks the law on a new loan whose date the
      first format reads: the borrow date is set and the due date left
      unset, where the corrected stamping sets it two weeks on. */
  lemma BorrowFirstFormatLeavesDueUnset(db: Db, row: BorrowRow, p: Parsers, u: UserKey, t: Timestamp)
    requires "b:" + row.accession in db.items && db.items["b:" + row.accession].borrowCurrent.None?
    requires SplitBorrower(row.userName) == Some(u) && Resolves(db, u)
    requires p.monthDayLongYear(Strip(row.dateBorrowed)) == Some(t)
    ensures var acc := "b:" + row.accession;
      BorrowStep(db, row, p, AsWritten).items[acc].borrowCurrent == Some(Loan(u, Dates(Some(t), None))) &&
      BorrowStep(db, row, p, Corrected).items[acc].borrowCurrent == Some(Loan(u, Dates(Some(t), Some(t + TwoWeeks))))
    ensures LoansLawful(db.items) ==> !LoansLawful(BorrowStep(db, row, p, AsWritten).items)
  {
    var acc := "b:" + row.accession;
    var r := BorrowStep(db, row, p, AsWritten);
    assert !DueDateLaw(r.items[acc].borrowCurrent.value.dates);
  }

  // ---------------------------------------------------------------------
  // The store

  class Store {
    var groups: map<string, Group>
    var users: map<UserKey, User>
    var currencies: map<string, Currency>
    var publishers: set<string>
    var places: set<string>
    var locations: map<string, Location>
    var creators: set<string>
    var items: map<string, Item>

    function Snapshot(): Db
      reads this
    {
      Db(groups, users, currencies, publishers, places, locations, creators, items)
    }

    /** An empty store. */
    constructor ()
      ensures Snapshot() == Db(map[], map[], map[], {}, {}, map[], {}, map[])
    {
      groups, users, currencies := map[], map[], map[];
      publishers, places, locations := {}, {}, map[];
      creators, items := {}, map[];
    }

    /** write_usergroups over a csv.reader: the header is checked first, then
        every row upserts a group's position. */
    method WriteUsergroups(rows: seq<seq<string>>) returns (error: Option<ImportError>)
      modifies this`groups
      ensures (groups, error) == ImportUsergroups(old(groups), rows)
    {
      if rows == [] {
        return Some(NoHeader);
      }
      if rows[0] != GroupHeader {
        return Some(BadHeader);
      }
      var body := rows[1..];
      UpsertGroupsError(old(groups), body);
      error := None;
      var i := 0;
      while i < |body|
        invariant 0 <= i <= |body|
        invariant (groups, None) == UpsertGroups(old(groups), body[..i])
      {
        var d := body[i];
        assert body[..i + 1][..i] == body[..i];
        if |d| < 2 {
          error := Some(ShortRow(d));
          UpsertGroupsStops(old(groups), body, i + 1);
          return;
        }
        groups := groups[d[1] := Group(Some(d[0]))];
        i := i + 1;
      }
      assert body[..i] == body;
    }

    /** write_users: each row resolves its group (creating it if absent) and
        upserts the user keyed by (name, group). */
    method WriteUsers(rows: seq<UserRow>)
      modifies this`groups, this`users
      ensures groups == GetOrCreateAll(old(groups), UserGroupNames(rows), Group(None))
      ensures users == PutAll(old(users), UserWrites(rows))
    {
      var i := 0;
      while i < |rows|
        invariant 0 <= i <= |rows|
        invariant groups == GetOrCreateAll(old(groups), UserGroupNames(rows)[..i], Group(None))
        invariant users == PutAll(old(users), UserWrites(rows)[..i])
      {
        var d := rows[i];
        var groupName := Strip(d.groupName);
        groups := GetOrCreate(groups, groupName, Group(None)).store;
        var email := if d.email != "" then Some(Strip(d.email)) else None;
        var name := Strip(d.userName);
        var username := Username(name, groupName);
        users := users[(name, groupName) := User(email, username)];
        GetOrCreateAllPrefix(old(groups), UserGroupNames(rows), Group(None), i);
        PutAllPrefix(old(users), UserWrites(rows), i);
        i := i + 1;
      }
      assert UserGroupNames(rows)[..i] == UserGroupNames(rows);
      assert UserWrites(rows)[..i] == UserWrites(rows);
    }

    /** write_currencies: each row upserts the symbol of a currency. */
    method WriteCurrencies(column: seq<string>)
      modifies this`currencies
      ensures currencies == PutAll(old(currencies), CurrencyWrites(column))
    {
      var i := 0;
      while i < |column|
        invariant 0 <= i <= |column|
        invariant currencies == PutAll(old(currencies), CurrencyWrites(column)[..i])
      {
        var currency := Strip(column[i]);
        currencies := currencies[currency := Currency(Some(Take(currency, 4)))];
        PutAllPrefix(old(currencies), CurrencyWrites(column), i);
        i := i + 1;
      }
      assert CurrencyWrites(column)[..i] == CurrencyWrites(column);
    }

    /** write_publishers: each row upserts a publisher by stripped name. */
    method WritePublishers(column: seq<string>)
      modifies this`publishers
      ensures publishers == old(publishers) + StrippedNames(column)
    {
      var i := 0;
      while i < |column|
        invariant 0 <= i <= |column|
        invariant publishers == old(publishers) + StrippedNames(column[..i])
      {
        publishers := publishers + {Strip(column[i])};
        StrippedNamesPrefix(column, i);
        i := i + 1;
      }
      assert column[..i] == column;
    }

    /** write_publishplaces: each row upserts a place by stripped name. */
    method WritePublishplaces(column: seq<string>)
      modifies this`places
      ensures places == old(places) + StrippedNames(column)
    {
      var i := 0;
      while i < |column|
        invariant 0 <= i <= |column|
        invariant places == old(places) + StrippedNames(column[..i])
      {
        places := places + {Strip(column[i])};
        StrippedNamesPrefix(column, i);
        i := i + 1;
      }
      assert column[..i] == column;
    }

    /** write_locations: each row upserts prevent_borrowing of a location. */
    method WriteLocations(rows: seq<LocationRow>)
      modifies this`locations
      ensures locations == PutAll(old(locations), LocationWrites(rows))
    {
      var i := 0;
      while i < |rows|
        invariant 0 <= i <= |rows|
        invariant locations == PutAll(old(locations), LocationWrites(rows)[..i])
      {
        var name := Strip(rows[i].location);
        var preventBorrowing := IntFlag(rows[i].preventBorrow);
        locations := locations[name := Location(Some(preventBorrowing))];
        PutAllPrefix(old(locations), LocationWrites(rows), i);
        i := i + 1;
      }
      assert LocationWrites(rows)[..i] == LocationWrites(rows);
    }

    /** write_bookitems: each row updates or creates its item. */
    method WriteBookitems(rows: seq<BookRow>, p: Parsers)
      modifies this`creators, this`publishers, this`places, this`currencies, this`locations, this`items
      ensures Snapshot() == ImportBooks(old(Snapshot()), rows, p)
    {
      var i := 0;
      while i < |rows|
        invariant 0 <= i <= |rows|
        invariant Snapshot() == ImportBooks(old(Snapshot()), rows[..i], p)
      {
        WriteBookRow(rows[i], p);
        ImportBooksPrefix(old(Snapshot()), rows, p, i);
        i := i + 1;
      }
      assert rows[..i] == rows;
    }

    /** The body of write_bookitems' loop for one row: the references the
        row names are recorded, then the item is updated and saved. */
    method WriteBookRow(d: BookRow, p: Parsers)
      modifies this`creators, this`publishers, this`places, this`currencies, this`locations, this`items
      ensures Snapshot() == BookStep(old(Snapshot()), d, p)
    {
      var accession := BookAccession(d.accession);
      var b := if accession in items then items[accession] else NewItem(accession);
      RecordReferences(d);
      items := items[accession := UpdateItem(b, d, p)];
      BookStepFields(old(Snapshot()), d, p, Snapshot());
    }

    /** The creator, publisher and place a book row names are recorded, and
        its currency and location are created when missing. */
    method RecordReferences(d: BookRow)
      modifies this`creators, this`publishers, this`places, this`currencies, this`locations
      ensures creators == old(creators) + {Strip(d.author)}
      ensures publishers == old(publishers) + {d.publisher}
      ensures places == old(places) + {d.place}
      ensures currencies == GetOrCreate(old(currencies), Strip(d.currency), Currency(None)).store
      ensures locations == GetOrCreate(old(locations), d.location, Location(None)).store
    {
      creators := creators + {Strip(d.author)};
      publishers := publishers + {d.publisher};
      places := places + {d.place};
      currencies := GetOrCreate(currencies, Strip(d.currency), Currency(None)).store;
      locations := GetOrCreate(locations, d.location, Location(None)).store;
    }

    /** write_borrowcurrent: each row updates the loan of the item it names,
        unless it is skipped; a user field that does not split at exactly one
        comma ends the import. */
    method WriteBorrowcurrent(rows: seq<BorrowRow>, p: Parsers) returns (warnings: seq<Warning>, error: Option<ImportError>)
      modifies this`items
      ensures var r := ImportBorrows(old(Snapshot()), rows, p, AsWritten);
        Snapshot() == r.db && warnings == r.warnings && error == r.error
    {
      warnings, error := [], None;
      var i := 0;
      while i < |rows|
        invariant 0 <= i <= |rows|
        invariant ImportBorrows(old(Snapshot()), rows[..i], p, AsWritten) == BorrowRun(Snapshot(), warnings, None)
      {
        var w, e := WriteBorrowRow(rows[i], p);
        ImportBorrowsPrefix(old(Snapshot()), rows, p, AsWritten, i);
        warnings := warnings + w;
        if e.Some? {
          error := e;
          ImportBorrowsStops(old(Snapshot()), rows, p, AsWritten, i + 1);
          return;
        }
        i := i + 1;
      }
      assert rows[..i] == rows;
    }

    /** The body of write_borrowcurrent's loop for one row. */
    method WriteBorrowRow(d: BorrowRow, p: Parsers) returns (warnings: seq<Warning>, error: Option<ImportError>)
      modifies this`items
      ensures var e := BorrowStep(old(Snapshot()), d, p, AsWritten);
        items == e.items && warnings == e.warnings && error == e.error
    {
      warnings, error := [], None;
      var accession := "b:" + d.accession;
      if accession !in items {
        warnings := [ItemMissing(accession, d.userName)];
        return;
      }
      var b := items[accession];
      var split := SplitBorrower(d.userName);
      if split.None? {
        error := Some(BadUserName(d.userName));
        return;
      }
      var u := split.value;
      if u.1 !in groups || u !in users {
        warnings := [UserMissing(accession, d.userName)];
      } else if b.borrowCurrent.Some? && b.borrowCurrent.value.user != u {
        warnings := [BorrowedByOther(accession, d.userName, b.borrowCurrent.value.user.0)];
      } else {
        var loan := if b.borrowCurrent.Some? then b.borrowCurrent.value else Loan(u, Dates(None, None));
        loan := loan.(user := u);
        var (dates, unset) := StampDates(p, d.dateBorrowed, loan.dates);
        if unset {
          warnings := [BorrowDateUnset(accession, Strip(d.dateBorrowed))];
        }
        loan := loan.(dates := dates);
        items := items[accession := b.(borrowCurrent := Some(loan))];
      }
    }
  }
}
