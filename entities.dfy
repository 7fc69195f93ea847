/** What both writers share: the reference records, the CSV rows as a
    csv.DictReader yields them, the warnings the borrow import reports, and
    the two ways a keyed collection is written — get-or-create, which leaves
    an existing record alone, and put (an upsert or an insert), which replaces
    the record at its key. Collections are finite maps from natural key to
    record; a collection whose records hold nothing but their name is a set. */
module Entities {
  import opened Wrappers
  import opened Fields

  /** A user's natural key: (name, group name). */
  type UserKey = (string, string)

  datatype Group = Group(position: Option<string>)
  datatype User = User(email: Option<string>, username: string)
  datatype Currency = Currency(symbol: Option<string>)
  datatype Location = Location(preventBorrowing: Option<bool>)

  /** A row of the users file. */
  datatype UserRow = UserRow(userName: string, groupName: string, email: string)

  /** A row of the locations file. */
  datatype LocationRow = LocationRow(location: string, preventBorrow: string)

  /** A row of the accession register (the book file). */
  datatype BookRow = BookRow(
    accession: string, callNumber: string, title: string, author: string,
    publisher: string, place: string, dateOfPublication: string,
    dateOfReceipt: string, currency: string, price: string, source: string,
    location: string)

  /** A row of the current-issues file (the borrow file). */
  datatype BorrowRow = BorrowRow(
    accession: string, category: string, title: string, userName: string,
    dateBorrowed: string)

  /** The warnings write_borrowcurrent prints, as values. */
  datatype Warning =
    | ItemMissing(accession: string, userName: string)
    | UserMissing(accession: string, userName: string)
    | BorrowedByOther(accession: string, userName: string, holder: string)
    | BorrowDateUnset(accession: string, date: string)

  // ---------------------------------------------------------------------
  // Get-or-create

  /** The store after a get-or-create, the record it returned and whether it
      had to create it. */
  datatype Resolved<K(==), V> = Resolved(store: map<K, V>, value: V, created: bool)

  /** _get_or_create: the record at k if there is one, with the store left as
      it was; otherwise exactly one new record, init, stored at k. */
  function GetOrCreate<K(==), V>(m: map<K, V>, k: K, init: V): (r: Resolved<K, V>)
    ensures k in r.store && r.value == r.store[k]
    ensures r.created <==> k !in m
    ensures !r.created ==> r.store == m
    ensures r.created ==> r.value == init && r.store.Keys == m.Keys + {k}
    ensures forall j :: j in m ==> j in r.store && r.store[j] == m[j]
  {
    if k in m then Resolved(m, m[k], false) else Resolved(m[k := init], init, true)
  }

  /** Get-or-create for every key of ks, in order. */
  function GetOrCreateAll<K(==), V>(m: map<K, V>, ks: seq<K>, init: V): (r: map<K, V>)
    ensures forall i :: 0 <= i < |ks| ==> ks[i] in r
    ensures forall j :: j in m ==> j in r && r[j] == m[j]
    ensures forall j :: j in r && j !in m ==> r[j] == init && j in ks
  {
    if ks == [] then m
    else
      var init' := ks[..|ks| - 1];
      var prev := GetOrCreateAll(m, init', init);
      var k := ks[|ks| - 1];
      assert forall i :: 0 <= i < |init'| ==> init'[i] == ks[i];
      assert forall j :: j in init' ==> j in ks;
      if k in prev then prev else prev[k := init]
  }

  /** One more key resolved: the step a loop over the keys takes. */
  lemma GetOrCreateAllPrefix<K, V>(m: map<K, V>, ks: seq<K>, init: V, i: nat)
    requires i < |ks|
    ensures GetOrCreateAll(m, ks[..i + 1], init) == GetOrCreate(GetOrCreateAll(m, ks[..i], init), ks[i], init).store
  {
    assert ks[..i + 1][..i] == ks[..i];
  }

  /** Resolving one more name after a list of names. */
  lemma GetOrCreateAllSnoc<K, V>(m: map<K, V>, ks: seq<K>, k: K, init: V)
    ensures GetOrCreateAll(m, ks + [k], init) == GetOrCreate(GetOrCreateAll(m, ks, init), k, init).store
  {
    assert (ks + [k])[..|ks|] == ks;
  }

  /** Once every key is present, resolving them again changes nothing. */
  lemma {:induction false} GetOrCreateAllPresent<K, V>(m: map<K, V>, ks: seq<K>, init: V)
    requires forall i :: 0 <= i < |ks| ==> ks[i] in m
    ensures GetOrCreateAll(m, ks, init) == m
  {
    if ks != [] {
      GetOrCreateAllPresent(m, ks[..|ks| - 1], init);
    }
  }

  /** Resolving the same keys twice is resolving them once. */
  lemma GetOrCreateAllTwice<K, V>(m: map<K, V>, ks: seq<K>, init: V)
    ensures GetOrCreateAll(GetOrCreateAll(m, ks, init), ks, init) == GetOrCreateAll(m, ks, init)
  {
    GetOrCreateAllPresent(GetOrCreateAll(m, ks, init), ks, init);
  }

  // ---------------------------------------------------------------------
  // Put: upserts, and inserts of fresh records

  function KeysOf<K(==), V>(kvs: seq<(K, V)>): set<K> {
    set i | 0 <= i < |kvs| :: kvs[i].0
  }

  /** Each (key, record) written in turn, replacing what was at the key. */
  function PutAll<K(==), V>(m: map<K, V>, kvs: seq<(K, V)>): (r: map<K, V>)
    ensures r.Keys == m.Keys + KeysOf(kvs)
  {
    if kvs == [] then m
    else
      var init := kvs[..|kvs| - 1];
      assert KeysOf(kvs) == KeysOf(init) + {kvs[|kvs| - 1].0} by {
        forall k | k in KeysOf(kvs) ensures k in KeysOf(init) + {kvs[|kvs| - 1].0} {
          var i :| 0 <= i < |kvs| && kvs[i].0 == k;
          if i < |kvs| - 1 {
            assert init[i].0 == k;
          }
        }
        forall k | k in KeysOf(init) ensures k in KeysOf(kvs) {
          var i :| 0 <= i < |init| && init[i].0 == k;
          assert kvs[i].0 == k;
        }
      }
      PutAll(m, init)[kvs[|kvs| - 1].0 := kvs[|kvs| - 1].1]
  }

  /** One more write: the step a loop over the writes takes. */
  lemma PutAllPrefix<K, V>(m: map<K, V>, kvs: seq<(K, V)>, i: nat)
    requires i < |kvs|
    ensures PutAll(m, kvs[..i + 1]) == PutAll(m, kvs[..i])[kvs[i].0 := kvs[i].1]
  {
    assert kvs[..i + 1][..i] == kvs[..i];
  }

  /** Writing one more record after a list of records. */
  lemma PutAllSnoc<K, V>(m: map<K, V>, kvs: seq<(K, V)>, kv: (K, V))
    ensures PutAll(m, kvs + [kv]) == PutAll(m, kvs)[kv.0 := kv.1]
  {
    assert (kvs + [kv])[..|kvs|] == kvs;
  }

  /** The last write to a key is the one that stays. */
  lemma {:induction false} PutAllLastWins<K, V>(m: map<K, V>, kvs: seq<(K, V)>, i: nat)
    requires i < |kvs|
    requires forall j :: i < j < |kvs| ==> kvs[j].0 != kvs[i].0
    ensures kvs[i].0 in PutAll(m, kvs) && PutAll(m, kvs)[kvs[i].0] == kvs[i].1
  {
    if i < |kvs| - 1 {
      PutAllLastWins(m, kvs[..|kvs| - 1], i);
    }
  }

  /** A key no write names keeps its old record, or stays absent. */
  lemma {:induction false} PutAllUntouched<K, V>(m: map<K, V>, kvs: seq<(K, V)>, k: K)
    requires forall j :: 0 <= j < |kvs| ==> kvs[j].0 != k
    ensures k in PutAll(m, kvs) <==> k in m
    ensures k in m ==> PutAll(m, kvs)[k] == m[k]
  {
    if kvs != [] {
      PutAllUntouched(m, kvs[..|kvs| - 1], k);
    }
  }

  /** The writes laid over the old store: what they name wins, the rest stays. */
  lemma {:induction false} PutAllOverrides<K, V>(m: map<K, V>, kvs: seq<(K, V)>)
    ensures PutAll(m, kvs) == m + PutAll(map[], kvs)
  {
    if kvs != [] {
      var init := kvs[..|kvs| - 1];
      var (k, v) := kvs[|kvs| - 1];
      PutAllOverrides(m, init);
      var w := PutAll(map[], init);
      assert (m + w)[k := v] == m + w[k := v];
    }
  }

  /** Replaying the same writes leaves the store as the first pass left it. */
  lemma PutAllTwice<K, V>(m: map<K, V>, kvs: seq<(K, V)>)
    ensures PutAll(PutAll(m, kvs), kvs) == PutAll(m, kvs)
  {
    var w := PutAll(map[], kvs);
    PutAllOverrides(m, kvs);
    PutAllOverrides(m + w, kvs);
    assert (m + w) + w == m + w;
  }

  // ---------------------------------------------------------------------
  // Name-only collections (publishers, places, creators)

  /** The stripped names of a single-column file. */
  function StrippedNames(column: seq<string>): (names: set<string>)
    ensures forall i :: 0 <= i < |column| ==> Strip(column[i]) in names
    ensures forall n :: n in names ==> exists i :: 0 <= i < |column| && Strip(column[i]) == n
  {
    if column == [] then {}
    else
      var init := column[..|column| - 1];
      var prev := StrippedNames(init);
      assert forall i :: 0 <= i < |init| ==> init[i] == column[i];
      prev + {Strip(column[|column| - 1])}
  }

  /** One more row of a single-column file. */
  lemma StrippedNamesPrefix(column: seq<string>, i: nat)
    requires i < |column|
    ensures StrippedNames(column[..i + 1]) == StrippedNames(column[..i]) + {Strip(column[i])}
  {
    var c := column[..i + 1];
    assert c[..|c| - 1] == column[..i] && c[|c| - 1] == column[i];
  }

  // ---------------------------------------------------------------------
  // Records derived from a row, the same in both writers

  /** The group names the users file refers to, stripped. */
  function UserGroupNames(rows: seq<UserRow>): seq<string> {
    seq(|rows|, i requires 0 <= i < |rows| => Strip(rows[i].groupName))
  }

  /** One row of the users file: the key (stripped name, stripped group name)
      and the record with the email (None for an empty field) and the
      username (name.group, lower-cased, at most 32 characters). */
  function UserWrite(row: UserRow): (w: (UserKey, User))
    ensures w.0 == (Strip(row.userName), Strip(row.groupName))
    ensures w.1.email == None <==> row.email == ""
    ensures w.1.email != None ==> w.1.email.value == Strip(row.email)
    ensures |w.1.username| <= 32 && IsLower(w.1.username)
    ensures w.1.username <= Lower(Strip(row.userName) + "." + Strip(row.groupName))
    ensures |w.1.username| == 32 || w.1.username == Lower(Strip(row.userName) + "." + Strip(row.groupName))
  {
    var group := Strip(row.groupName);
    var email := if row.email != "" then Some(Strip(row.email)) else None;
    var name := Strip(row.userName);
    ((name, group), User(email, Username(name, group)))
  }

  function UserWrites(rows: seq<UserRow>): seq<(UserKey, User)> {
    seq(|rows|, i requires 0 <= i < |rows| => UserWrite(rows[i]))
  }

  /** One row of the locations file: the stripped name, and prevent_borrowing
      set exactly when the field holds a nonzero integer. */
  function LocationWrite(row: LocationRow): (w: (string, Location))
    ensures w.0 == Strip(row.location)
    ensures w.1.preventBorrowing ==
      Some(ParseInt(row.preventBorrow).Some? && ParseInt(row.preventBorrow).value != 0)
  {
    IntFlagMeaning(row.preventBorrow);
    (Strip(row.location), Location(Some(IntFlag(row.preventBorrow))))
  }

  function LocationWrites(rows: seq<LocationRow>): seq<(string, Location)> {
    seq(|rows|, i requires 0 <= i < |rows| => LocationWrite(rows[i]))
  }

  /** The accession a book row is stored under: 'b:' and the stripped field. */
  function BookAccession(raw: string): (acc: string)
    ensures |acc| >= 2 && acc[..2] == "b:" && acc[2..] == Strip(raw)
  {
    "b:" + Strip(raw)
  }
}
