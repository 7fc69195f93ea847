/** The field normalisers both writer modules apply to raw CSV cells: Python's
    str.strip(), str.split(sep), ''.join, str.lower(), slicing s[:n] and int(),
    and the derived fields built from them (borrower splitting, usernames,
    integer flags, publication years, borrow and due dates). */
module Fields {
  import opened Wrappers

  // ---------------------------------------------------------------------
  // str.strip()

  /** The characters Python 2's str.strip() removes: space, \t, \n, \v, \f, \r. */
  predicate IsSpace(c: char) {
    c == ' ' || c == '\t' || c == '\n' || c == '\r' || c == '\U{000B}' || c == '\U{000C}'
  }

  predicate AllSpace(s: string) {
    forall i :: 0 <= i < |s| ==> IsSpace(s[i])
  }

  /** How many whitespace characters open s. */
  function LeadingSpaces(s: string): (k: nat)
    ensures k <= |s|
  {
    if s == [] || !IsSpace(s[0]) then 0 else 1 + LeadingSpaces(s[1..])
  }

  /** The opening run is all whitespace, and it stops at the first character
      that is not. */
  lemma {:induction false} LeadingSpacesRun(s: string)
    ensures AllSpace(s[..LeadingSpaces(s)])
    ensures LeadingSpaces(s) < |s| ==> !IsSpace(s[LeadingSpaces(s)])
  {
    if s != [] && IsSpace(s[0]) {
      var k' := LeadingSpaces(s[1..]);
      LeadingSpacesRun(s[1..]);
      assert s[..1 + k'] == [s[0]] + s[1..][..k'];
    }
  }

  /** How many whitespace characters close s. */
  function TrailingSpaces(s: string): (k: nat)
    ensures k <= |s|
  {
    if s == [] || !IsSpace(s[|s| - 1]) then 0 else 1 + TrailingSpaces(s[..|s| - 1])
  }

  /** The closing run is all whitespace, and it stops at the last character
      that is not. */
  lemma {:induction false} TrailingSpacesRun(s: string)
    ensures AllSpace(s[|s| - TrailingSpaces(s)..])
    ensures TrailingSpaces(s) < |s| ==> !IsSpace(s[|s| - 1 - TrailingSpaces(s)])
  {
    if s != [] && IsSpace(s[|s| - 1]) {
      var init := s[..|s| - 1];
      var k' := TrailingSpaces(init);
      TrailingSpacesRun(init);
      assert TrailingSpaces(s) == 1 + k';
      assert s[|s| - (1 + k')..] == init[|init| - k'..] + [s[|s| - 1]];
      if 1 + k' < |s| {
        assert s[|s| - 1 - (1 + k')] == init[|init| - 1 - k'];
      }
    }
  }

  /** s.strip(): s without its leading and trailing whitespace. */
  function Strip(s: string): (r: string)
    ensures |r| <= |s|
  {
    var k := LeadingSpaces(s);
    var t := s[k..];
    t[..|t| - TrailingSpaces(t)]
  }

  /** What strip keeps is one slice of s... */
  lemma StripSliceBounds(s: string)
    ensures LeadingSpaces(s) + |Strip(s)| <= |s|
    ensures Strip(s) == s[LeadingSpaces(s)..LeadingSpaces(s) + |Strip(s)|]
  {
    var k := LeadingSpaces(s);
    TrimmedSlice(s, k, TrailingSpaces(s[k..]));
  }

  /** Dropping k elements from the front and then j from the back leaves the
      slice s[k..|s| - j]. */
  lemma TrimmedSlice<T>(s: seq<T>, k: nat, j: nat)
    requires k <= |s| && j <= |s| - k
    ensures var t := s[k..]; var r := t[..|t| - j];
      k + |r| <= |s| && r == s[k..k + |r|]
  {
  }

  /** ...and everything around it is whitespace. */
  lemma StripSliceSpaces(s: string)
    ensures AllSpace(s[..LeadingSpaces(s)]) && AllSpace(s[LeadingSpaces(s) + |Strip(s)|..])
  {
    var k := LeadingSpaces(s);
    var t := s[k..];
    var j := TrailingSpaces(t);
    LeadingSpacesRun(s);
    TrailingSpacesRun(t);
    assert |Strip(s)| == |t| - j;
    assert s[k + (|t| - j)..] == t[|t| - j..];
  }

  /** What strip keeps is one slice of s, and everything around it is
      whitespace. */
  lemma StripSlice(s: string)
    ensures var r := Strip(s);
      LeadingSpaces(s) + |r| <= |s| && r == s[LeadingSpaces(s)..LeadingSpaces(s) + |r|] &&
      AllSpace(s[..LeadingSpaces(s)]) && AllSpace(s[LeadingSpaces(s) + |r|..])
  {
    StripSliceBounds(s);
    StripSliceSpaces(s);
  }

  /** What strip leaves neither starts nor ends with whitespace. */
  lemma StripEnds(s: string)
    ensures var r := Strip(s); |r| > 0 ==> !IsSpace(r[0]) && !IsSpace(r[|r| - 1])
  {
    var k := LeadingSpaces(s);
    var t := s[k..];
    var j := TrailingSpaces(t);
    var r := t[..|t| - j];
    if |r| > 0 {
      LeadingSpacesRun(s);
      TrailingSpacesRun(t);
      assert r[0] == s[k];
      assert r[|r| - 1] == t[|t| - 1 - j];
    }
  }

  /** A string with no whitespace at either end is its own strip. */
  lemma StripTrimmed(s: string)
    requires s == [] || (!IsSpace(s[0]) && !IsSpace(s[|s| - 1]))
    ensures Strip(s) == s
  {
    assert LeadingSpaces(s) == 0;
    assert s[0..] == s;
    assert TrailingSpaces(s) == 0;
  }

  /** Whitespace in front of a trimmed string is all that strip removes. */
  lemma StripLeading(c: char, s: string)
    requires IsSpace(c)
    requires s == [] || (!IsSpace(s[0]) && !IsSpace(s[|s| - 1]))
    ensures Strip([c] + s) == s
  {
    var t := [c] + s;
    assert t[1..] == s;
    StripTrimmed(s);
    assert LeadingSpaces(t) == 1 + LeadingSpaces(s);
  }

  lemma StripIdempotent(s: string)
    ensures Strip(Strip(s)) == Strip(s)
  {
    var r := Strip(s);
    StripEnds(s);
    assert LeadingSpaces(r) == 0;
    assert TrailingSpaces(r) == 0;
  }

  // ---------------------------------------------------------------------
  // str.split(sep) and ''.join

  function Count(s: string, c: char): nat {
    if s == [] then 0 else (if s[0] == c then 1 else 0) + Count(s[1..], c)
  }

  /** s.split(sep) for a one-character separator: the pieces between the
      separators, in order; there is always at least one piece. */
  function Split(s: string, sep: char): (parts: seq<string>)
    ensures |parts| == Count(s, sep) + 1
  {
    if s == [] then [""]
    else
      var rest := Split(s[1..], sep);
      if s[0] == sep then [""] + rest
      else [[s[0]] + rest[0]] + rest[1..]
  }

  /** No piece of a split contains the separator. */
  lemma {:induction false} SplitPieces(s: string, sep: char)
    ensures forall i :: 0 <= i < |Split(s, sep)| ==> sep !in Split(s, sep)[i]
  {
    if s != [] {
      SplitPieces(s[1..], sep);
      var rest := Split(s[1..], sep);
      var parts := Split(s, sep);
      forall i | 0 <= i < |parts| ensures sep !in parts[i] {
        if s[0] == sep {
          if i > 0 {
            assert parts[i] == rest[i - 1];
          }
        } else if i == 0 {
          assert parts[0] == [s[0]] + rest[0];
        } else {
          assert parts[i] == rest[i];
        }
      }
    }
  }

  /** sep.join(parts): the inverse of Split. */
  function JoinWith(parts: seq<string>, sep: char): string
    requires |parts| >= 1
  {
    if |parts| == 1 then parts[0] else parts[0] + [sep] + JoinWith(parts[1..], sep)
  }

  /** ''.join(parts): the pieces run together with no separator. */
  function Concat(parts: seq<string>): string {
    if parts == [] then "" else parts[0] + Concat(parts[1..])
  }

  /** s with every occurrence of c removed. */
  function Without(s: string, c: char): (r: string)
    ensures c !in r && |r| + Count(s, c) == |s|
  {
    if s == [] then "" else (if s[0] == c then "" else [s[0]]) + Without(s[1..], c)
  }

  lemma {:induction false} WithoutAbsent(s: string, c: char)
    requires c !in s
    ensures Without(s, c) == s
  {
    if s != [] {
      WithoutAbsent(s[1..], c);
      assert s == [s[0]] + s[1..];
    }
  }

  lemma {:induction false} WithoutAppend(a: string, b: string, c: char)
    ensures Without(a + b, c) == Without(a, c) + Without(b, c)
  {
    if a != [] {
      assert (a + b)[1..] == a[1..] + b;
      WithoutAppend(a[1..], b, c);
    } else {
      assert a + b == b;
    }
  }

  /** Dropping the one separator between two separator-free strings. */
  lemma WithoutOneSeparator(first: string, second: string, c: char)
    requires c !in first && c !in second
    ensures Without(first + [c] + second, c) == first + second
  {
    var f := first + [c];
    WithoutAppend(f, second, c);
    assert Without(f + second, c) == Without(f, c) + Without(second, c);
    WithoutAppend(first, [c], c);
    assert Without(f, c) == Without(first, c) + Without([c], c);
    WithoutAbsent(first, c);
    WithoutAbsent(second, c);
    assert [c][1..] == [];
    assert Without(f, c) == first;
  }

  /** Joining the pieces of a split with the separator gives back the string. */
  lemma {:induction false} JoinSplit(s: string, sep: char)
    ensures JoinWith(Split(s, sep), sep) == s
  {
    if s != [] {
      JoinSplit(s[1..], sep);
      if s[0] == sep {
        assert Split(s, sep)[1..] == Split(s[1..], sep);
      } else {
        JoinSplitOther(s, sep);
      }
    }
  }

  /** The step of JoinSplit when s opens with a character other than sep. */
  lemma JoinSplitOther(s: string, sep: char)
    requires s != [] && s[0] != sep
    requires JoinWith(Split(s[1..], sep), sep) == s[1..]
    ensures JoinWith(Split(s, sep), sep) == s
  {
    var rest := Split(s[1..], sep);
    assert s == [s[0]] + s[1..];
    SplitConsOther(s[0], s[1..], sep);
    JoinWithGrowFirst(s[0], rest, sep);
  }

  /** Growing the first piece grows the joined string at its front. */
  lemma JoinWithGrowFirst(c: char, parts: seq<string>, sep: char)
    requires |parts| >= 1
    ensures JoinWith([[c] + parts[0]] + parts[1..], sep) == [c] + JoinWith(parts, sep)
  {
    var grown := [[c] + parts[0]] + parts[1..];
    assert grown[1..] == parts[1..];
  }

  /** A string free of the separator is a single piece. */
  lemma {:induction false} SplitWithout(s: string, sep: char)
    requires sep !in s
    ensures Split(s, sep) == [s]
  {
    if s != [] {
      SplitWithout(s[1..], sep);
      assert s == [s[0]] + s[1..];
    }
  }

  /** A separator in front opens an empty piece. */
  lemma SplitConsSep(t: string, sep: char)
    ensures Split([sep] + t, sep) == [""] + Split(t, sep)
  {
    assert ([sep] + t)[1..] == t;
  }

  /** Any other character in front joins the first piece. */
  lemma SplitConsOther(c: char, t: string, sep: char)
    requires c != sep
    ensures Split([c] + t, sep) == [[c] + Split(t, sep)[0]] + Split(t, sep)[1..]
  {
    assert ([c] + t)[1..] == t;
  }

  lemma HeadAppend<T>(u: seq<T>, v: seq<T>)
    requires |u| >= 1
    ensures (u + v)[0] == u[0] && (u + v)[1..] == u[1..] + v
  {
  }

  /** Splitting at a separator splits each side independently. */
  lemma {:induction false} SplitAround(a: string, sep: char, b: string)
    ensures Split(a + [sep] + b, sep) == Split(a, sep) + Split(b, sep)
    decreases |a|
  {
    if a == [] {
      assert a + [sep] + b == [sep] + b;
      SplitConsSep(b, sep);
    } else {
      var c, t := a[0], a[1..];
      SplitAround(t, sep, b);
      assert a == [c] + t;
      assert a + [sep] + b == [c] + (t + [sep] + b);
      SplitAroundCons(c, t, sep, b);
    }
  }

  /** The inductive step of SplitAround: one more character in front. */
  lemma SplitAroundCons(c: char, t: string, sep: char, b: string)
    requires Split(t + [sep] + b, sep) == Split(t, sep) + Split(b, sep)
    ensures Split([c] + (t + [sep] + b), sep) == Split([c] + t, sep) + Split(b, sep)
  {
    if c == sep {
      SplitAroundSep(t, sep, b);
    } else {
      SplitAroundOther(c, t, sep, b);
    }
  }

  lemma SplitAroundSep(t: string, sep: char, b: string)
    requires Split(t + [sep] + b, sep) == Split(t, sep) + Split(b, sep)
    ensures Split([sep] + (t + [sep] + b), sep) == Split([sep] + t, sep) + Split(b, sep)
  {
    var x, y := Split(t, sep), Split(b, sep);
    assert [""] + (x + y) == ([""] + x) + y;
    SplitConsSep(t + [sep] + b, sep);
    SplitConsSep(t, sep);
  }

  lemma SplitAroundOther(c: char, t: string, sep: char, b: string)
    requires c != sep
    requires Split(t + [sep] + b, sep) == Split(t, sep) + Split(b, sep)
    ensures Split([c] + (t + [sep] + b), sep) == Split([c] + t, sep) + Split(b, sep)
  {
    var x, y := Split(t, sep), Split(b, sep);
    SplitConsOther(c, t + [sep] + b, sep);
    SplitConsOther(c, t, sep);
    ConsPiece(c, x, y);
  }

  /** Growing the first piece of a list of pieces commutes with appending more. */
  lemma ConsPiece(c: char, x: seq<string>, y: seq<string>)
    requires |x| >= 1
    ensures [[c] + (x + y)[0]] + (x + y)[1..] == ([[c] + x[0]] + x[1..]) + y
  {
    HeadAppend(x, y);
  }

  /** Splitting a joined list of separator-free pieces gives back the pieces. */
  lemma {:induction false} SplitJoin(parts: seq<string>, sep: char)
    requires |parts| >= 1
    requires forall i :: 0 <= i < |parts| ==> sep !in parts[i]
    ensures Split(JoinWith(parts, sep), sep) == parts
  {
    SplitWithout(parts[0], sep);
    if |parts| > 1 {
      SplitJoin(parts[1..], sep);
      SplitAround(parts[0], sep, JoinWith(parts[1..], sep));
    }
  }

  /** Running the pieces of a split together drops exactly the separators. */
  lemma {:induction false} ConcatSplit(s: string, sep: char)
    ensures Concat(Split(s, sep)) == Without(s, sep)
  {
    if s != [] {
      ConcatSplit(s[1..], sep);
      var rest := Split(s[1..], sep);
      if s[0] == sep {
        assert Split(s, sep)[1..] == rest;
      } else {
        var parts := Split(s, sep);
        assert parts[1..] == rest[1..];
        assert Concat(rest) == rest[0] + Concat(rest[1..]);
      }
    }
  }

  // ---------------------------------------------------------------------
  // The borrower field "User Name, Group"

  /** peewee's _user_from_userid: the group is the last comma-separated piece,
      stripped; the user is all earlier pieces run together with no separator
      (so commas inside a user's name are dropped), stripped. */
  function UserFromUserid(userid: string): (r: (string, string))
    ensures ',' !in r.0 && ',' !in r.1
  {
    var parts := Split(Strip(userid), ',');
    var group := Strip(parts[|parts| - 1]);
    var user := Strip(Concat(parts[..|parts| - 1]));
    SplitPieces(Strip(userid), ',');
    CommaFreeConcat(parts[..|parts| - 1]);
    StripKeepsOut(Concat(parts[..|parts| - 1]), ',');
    StripKeepsOut(parts[|parts| - 1], ',');
    (user, group)
  }

  lemma {:induction false} CommaFreeConcat(parts: seq<string>)
    requires forall i :: 0 <= i < |parts| ==> ',' !in parts[i]
    ensures ',' !in Concat(parts)
  {
    if parts != [] {
      CommaFreeConcat(parts[1..]);
    }
  }

  /** Strip never brings in a character that was not there. */
  lemma StripKeepsOut(s: string, c: char)
    requires c !in s
    ensures c !in Strip(s)
  {
    var k := LeadingSpaces(s);
    var r := Strip(s);
    forall i | 0 <= i < |r| ensures r[i] != c {
      assert r[i] == s[k + i];
    }
  }

  /** With a last comma splitting the stripped field into a and b, the group
      is b stripped and the user is a without its commas, stripped. */
  lemma UserFromUseridAtLastComma(userid: string, a: string, b: string)
    requires Strip(userid) == a + [','] + b
    requires ',' !in b
    ensures UserFromUserid(userid) == (Strip(Without(a, ',')), Strip(b))
  {
    var parts := Split(Strip(userid), ',');
    SplitAround(a, ',', b);
    SplitWithout(b, ',');
    assert parts == Split(a, ',') + [b];
    assert parts[..|parts| - 1] == Split(a, ',');
    ConcatSplit(a, ',');
  }

  /** A field with no comma names a group only: the user is empty. */
  lemma UserFromUseridNoComma(userid: string)
    requires ',' !in Strip(userid)
    ensures UserFromUserid(userid) == ("", Strip(userid))
  {
    SplitWithout(Strip(userid), ',');
    StripIdempotent(userid);
  }

  /** A user name with one comma of its own: "Smith, Jr., Students" is the
      user "Smith Jr." in the group "Students". */
  lemma UserFromUseridTwoCommas(userid: string, first: string, second: string, group: string)
    requires Strip(userid) == first + [','] + second + [','] + group
    requires ',' !in first && ',' !in second && ',' !in group
    ensures UserFromUserid(userid) == (Strip(first + second), Strip(group))
  {
    var a := first + [','] + second;
    assert Strip(userid) == a + [','] + group;
    UserFromUseridAtLastComma(userid, a, group);
    WithoutOneSeparator(first, second, ',');
  }

  /** A character other than whitespace is never stripped away. */
  lemma StripKeepsInner(s: string, i: nat)
    requires i < |s| && !IsSpace(s[i])
    ensures s[i] in Strip(s)
  {
    StripSlice(s);
    var k := LeadingSpaces(s);
    var r := Strip(s);
    if k <= i < k + |r| {
      assert r[i - k] == s[i];
    }
  }

  /** _user_from_userid as its docstring means it: the earlier pieces
      joined back with the commas between them, so a user's own commas
      survive. */
  function UserFromUseridCorrected(userid: string): (r: (string, string))
    ensures ',' !in r.1
  {
    var parts := Split(Strip(userid), ',');
    var group := Strip(parts[|parts| - 1]);
    SplitPieces(Strip(userid), ',');
    StripKeepsOut(parts[|parts| - 1], ',');
    var user := if |parts| == 1 then "" else Strip(JoinWith(parts[..|parts| - 1], ','));
    (user, group)
  }

  /** The corrected split undoes "name,group" for any name: the last comma
      separates the group, and everything before it is the user, commas
      and all. */
  lemma UserFromUseridCorrectedRoundTrip(userid: string, name: string, group: string)
    requires Strip(userid) == name + [','] + group
    requires ',' !in group
    ensures UserFromUseridCorrected(userid) == (Strip(name), Strip(group))
  {
    var parts := Split(Strip(userid), ',');
    SplitAround(name, ',', group);
    SplitWithout(group, ',');
    assert parts == Split(name, ',') + [group];
    assert parts[..|parts| - 1] == Split(name, ',');
    JoinSplit(name, ',');
  }

  /** "Smith, Jr., Students": the code as written looks up the user
      "Smith Jr.", the corrected split the user "Smith, Jr."; the two names
      differ, and only the corrected one keeps the comma. */
  lemma UserFromUseridDropsComma(userid: string, first: string, second: string, group: string)
    requires Strip(userid) == first + [','] + second + [','] + group
    requires ',' !in first && ',' !in second && ',' !in group
    ensures UserFromUserid(userid).0 == Strip(first + second)
    ensures UserFromUseridCorrected(userid).0 == Strip(first + [','] + second)
    ensures ',' in UserFromUseridCorrected(userid).0 && ',' !in UserFromUserid(userid).0
  {
    UserFromUseridTwoCommas(userid, first, second, group);
    var name := first + [','] + second;
    assert Strip(userid) == name + [','] + group;
    UserFromUseridCorrectedRoundTrip(userid, name, group);
    assert name[|first|] == ',';
    StripKeepsInner(name, |first|);
  }

  /** mongo's `user, group = userid.strip().split(',')`: exactly two pieces,
      neither stripped; any other number of commas is a ValueError (None). */
  function SplitBorrower(userid: string): (r: Option<(string, string)>)
    ensures r.Some? <==> Count(Strip(userid), ',') == 1
    ensures r.Some? ==> Strip(userid) == r.value.0 + [','] + r.value.1
    ensures r.Some? ==> ',' !in r.value.0 && ',' !in r.value.1
  {
    var parts := Split(Strip(userid), ',');
    if |parts| == 2 then
      JoinSplit(Strip(userid), ',');
      SplitPieces(Strip(userid), ',');
      Some((parts[0], parts[1]))
    else None
  }

  // ---------------------------------------------------------------------
  // str.lower() and s[:n]

  function LowerChar(c: char): char {
    if 'A' <= c <= 'Z' then (c as int + 32) as char else c
  }

  predicate IsLower(s: string) {
    forall i :: 0 <= i < |s| ==> !('A' <= s[i] <= 'Z')
  }

  /** Python 2's str.lower() on byte strings: ASCII letters only. */
  function Lower(s: string): (r: string)
    ensures |r| == |s| && IsLower(r)
    ensures forall i :: 0 <= i < |s| ==> r[i] == LowerChar(s[i])
  {
    if s == [] then "" else [LowerChar(s[0])] + Lower(s[1..])
  }

  /** s[:n]: the longest prefix of s with at most n characters. */
  function Take(s: string, n: nat): (r: string)
    ensures |r| <= n && r <= s
    ensures |r| == n || r == s
  {
    if |s| <= n then s else s[..n]
  }

  /** The username both writers derive: (name + '.' + group).lower()[:32]. */
  function Username(name: string, group: string): (r: string)
    ensures |r| <= 32 && IsLower(r)
    ensures r <= Lower(name + "." + group)
    ensures |r| == 32 || r == Lower(name + "." + group)
    ensures |name| + 1 + |group| <= 32 ==> r == Lower(name + "." + group)
  {
    Take(Lower(name + "." + group), 32)
  }

  // ---------------------------------------------------------------------
  // int()

  predicate IsDigit(c: char) {
    '0' <= c <= '9'
  }

  predicate IsDecimal(s: string) {
    |s| > 0 && forall i :: 0 <= i < |s| ==> IsDigit(s[i])
  }

  function DigitValue(c: char): nat
    requires IsDigit(c)
  {
    c as int - '0' as int
  }

  function DecimalValue(s: string): nat
    requires forall i :: 0 <= i < |s| ==> IsDigit(s[i])
  {
    if s == [] then 0
    else
      assert forall i :: 0 <= i < |s| - 1 ==> s[..|s| - 1][i] == s[i];
      DecimalValue(s[..|s| - 1]) * 10 + DigitValue(s[|s| - 1])
  }

  predicate IsSign(c: char) {
    c == '-' || c == '+'
  }

  /** Python 2's int(s) on a byte string, base 10: whitespace around the
      number, an optional sign followed by any whitespace (PyOS_strtol skips
      it), then at least one ASCII digit; anything else is a ValueError
      (None). */
  function ParseInt(raw: string): Option<int> {
    var t := Strip(raw);
    if |t| > 0 && IsSign(t[0]) then
      var digits := Strip(t[1..]);
      if !IsDecimal(digits) then None
      else if t[0] == '-' then Some(-(DecimalValue(digits) as int))
      else Some(DecimalValue(digits))
    else if IsDecimal(t) then Some(DecimalValue(t))
    else None
  }

  /** str(n) for a natural number: its decimal digits. */
  function Decimal(n: nat): (s: string)
    ensures IsDecimal(s)
  {
    var last := [('0' as int + n % 10) as char];
    if n < 10 then last else Decimal(n / 10) + last
  }

  lemma {:induction false} DecimalValueOfDecimal(n: nat)
    ensures DecimalValue(Decimal(n)) == n
  {
    var s := Decimal(n);
    if n >= 10 {
      DecimalValueOfDecimal(n / 10);
      assert s[..|s| - 1] == Decimal(n / 10);
    }
  }

  /** int() reads back what str() writes, with or without a minus sign... */
  lemma ParseDecimal(n: nat)
    ensures ParseInt(Decimal(n)) == Some(n)
    ensures ParseInt("-" + Decimal(n)) == Some(-(n as int))
  {
    var s := Decimal(n);
    DecimalValueOfDecimal(n);
    assert IsDigit(s[0]) && IsDigit(s[|s| - 1]);
    StripTrimmed(s);
    var m := "-" + s;
    assert m[1..] == s && m[|m| - 1] == s[|s| - 1];
    StripTrimmed(m);
  }

  /** ...and also with whitespace between the sign and the digits. */
  lemma ParseSpacedSign(n: nat)
    ensures ParseInt("- " + Decimal(n)) == Some(-(n as int))
  {
    var s := Decimal(n);
    DecimalValueOfDecimal(n);
    assert IsDigit(s[0]) && IsDigit(s[|s| - 1]);
    var spaced := "- " + s;
    assert spaced[|spaced| - 1] == s[|s| - 1];
    StripTrimmed(spaced);
    assert spaced[1..] == [' '] + s;
    StripLeading(' ', s);
  }

  /** A character that is neither a digit, nor whitespace, nor a leading
      sign makes int() fail. */
  lemma ParseIntRejects(raw: string, i: nat)
    requires i < |Strip(raw)| && !IsDigit(Strip(raw)[i]) && !IsSpace(Strip(raw)[i])
    requires i == 0 ==> !IsSign(Strip(raw)[0])
    ensures ParseInt(raw) == None
  {
    var t := Strip(raw);
    if i > 0 && IsSign(t[0]) {
      assert t[1..][i - 1] == t[i];
      StripKeepsInner(t[1..], i - 1);
    }
  }

  /** bool(int(raw.strip())), with a ValueError meaning False. */
  function IntFlag(raw: string): bool {
    match ParseInt(Strip(raw))
    case Some(v) => v != 0
    case None => false
  }

  /** The flag is set exactly when the field holds a nonzero number; any
      field int() rejects (empty, "yes", "1.0") gives False. */
  lemma IntFlagMeaning(raw: string)
    ensures IntFlag(raw) <==> ParseInt(raw).Some? && ParseInt(raw).value != 0
    ensures ParseInt(raw).None? ==> !IntFlag(raw)
  {
    StripIdempotent(raw);
  }

  lemma IntFlagOfDecimal(n: nat)
    ensures IntFlag(Decimal(n)) == (n != 0)
    ensures IntFlag("-" + Decimal(n)) == (n != 0)
    ensures IntFlag("- " + Decimal(n)) == (n != 0)
  {
    ParseDecimal(n);
    ParseSpacedSign(n);
    IntFlagMeaning(Decimal(n));
    IntFlagMeaning("-" + Decimal(n));
    IntFlagMeaning("- " + Decimal(n));
  }

  // ---------------------------------------------------------------------
  // Publication year

  /** The last ' '-separated token of a field. */
  function LastToken(raw: string): string {
    var tokens := Split(raw, ' ');
    tokens[|tokens| - 1]
  }

  /** int(raw.split(' ')[-1]), where 0 or any failure means no year. */
  function PublicationYear(raw: string): (r: Option<int>)
    ensures r.Some? ==> r.value != 0 && ParseInt(LastToken(raw)) == r
    ensures r.None? <==> ParseInt(LastToken(raw)) in {None, Some(0)}
  {
    match ParseInt(LastToken(raw))
    case Some(y) => if y == 0 then None else Some(y)
    case None => None
  }

  /** A field ending in " <year>" gives that year, unless the year is 0. */
  lemma PublicationYearOfSuffix(prefix: string, n: nat)
    ensures PublicationYear(prefix + " " + Decimal(n)) == if n == 0 then None else Some(n)
  {
    var s := Decimal(n);
    forall i | 0 <= i < |s| ensures s[i] != ' ' {
      assert IsDigit(s[i]);
    }
    assert prefix + " " + s == prefix + [' '] + s;
    SplitAround(prefix, ' ', s);
    SplitWithout(s, ' ');
    ParseDecimal(n);
  }

  /** A field ending in a space has an empty last token: no year. */
  lemma PublicationYearTrailingSpace(prefix: string)
    ensures PublicationYear(prefix + " ") == None
  {
    SplitAround(prefix, ' ', "");
    assert prefix + " " == prefix + [' '] + "";
    assert Strip("") == "";
  }

  // ---------------------------------------------------------------------
  // Dates: the format parsers are parameters, not a calendar model

  /** A point in time, in seconds. */
  type Timestamp = int

  /** timedelta(days=14), in seconds. */
  const TwoWeeks: int := 14 * 24 * 60 * 60

  /** The parsers the writers call and this model does not look into:
      datetime.strptime with each format, and float(). */
  datatype Parsers = Parsers(
    monthDayLongYear: string -> Option<Timestamp>,   // '%m/%d/%Y %H:%M:%S'
    monthDayShortYear: string -> Option<Timestamp>,  // '%m/%d/%y %H:%M:%S'
    dayMonthNameYear: string -> Option<Timestamp>,   // '%d %b %Y'
    float: string -> Option<real>)

  /** A loan's borrow and due dates. */
  datatype Dates = Dates(borrowDate: Option<Timestamp>, dueDate: Option<Timestamp>)

  /** The date handling of write_borrowcurrent as written, in both writers: the first
      format sets the borrow date and leaves the due date alone; only when it
      fails is the second format tried, and then, whether or not that worked,
      a known borrow date (the new one or the one already there) sets the due
      date two weeks on. The flag says the "Unset borrow date" warning is due. */
  function StampDates(p: Parsers, raw: string, prior: Dates): (r: (Dates, bool))
    ensures var s := Strip(raw);
      p.monthDayLongYear(s).Some? ==> r == (Dates(p.monthDayLongYear(s), prior.dueDate), false)
    ensures var s := Strip(raw);
      p.monthDayLongYear(s).None? && p.monthDayShortYear(s).Some? ==>
        !r.1 && r.0.borrowDate == p.monthDayShortYear(s) &&
        r.0.dueDate == Some(p.monthDayShortYear(s).value + TwoWeeks)
    ensures var s := Strip(raw);
      p.monthDayLongYear(s).None? && p.monthDayShortYear(s).None? ==>
        r.1 && r.0.borrowDate == prior.borrowDate &&
        r.0.dueDate == if prior.borrowDate.Some? then Some(prior.borrowDate.value + TwoWeeks) else prior.dueDate
    ensures r.0.dueDate != prior.dueDate ==>
      p.monthDayLongYear(Strip(raw)).None? && r.0.borrowDate.Some? && r.0.dueDate == Some(r.0.borrowDate.value + TwoWeeks)
  {
    var s := Strip(raw);
    match p.monthDayLongYear(s)
    case Some(t) => (Dates(Some(t), prior.dueDate), false)
    case None =>
      var (borrowDate, warn) :=
        match p.monthDayShortYear(s)
        case Some(t) => (Some(t), false)
        case None => (prior.borrowDate, true);
      var dueDate := if borrowDate.Some? then Some(borrowDate.value + TwoWeeks) else prior.dueDate;
      (Dates(borrowDate, dueDate), warn)
  }

  /** The due-date law: a known borrow date has its due date two weeks on,
      and without a borrow date there is no due date. */
  predicate DueDateLaw(d: Dates) {
    d.dueDate == if d.borrowDate.Some? then Some(d.borrowDate.value + TwoWeeks) else None
  }

  /** Whenever the first format fails, the law holds afterwards if it held
      before... */
  lemma StampDatesLawOnFallback(p: Parsers, raw: string, prior: Dates)
    requires p.monthDayLongYear(Strip(raw)).None?
    requires DueDateLaw(prior)
    ensures DueDateLaw(StampDates(p, raw, prior).0)
  {
  }

  /** ...but a first-format success on a fresh loan leaves the due date unset:
      the law does not hold for the dates as written. */
  lemma StampDatesFirstFormatBreaksLaw(t: Timestamp)
    ensures var p := Parsers(s => Some(t), s => None, s => None, s => None);
      StampDates(p, "01/05/2020 09:00:00", Dates(None, None)) == (Dates(Some(t), None), false) &&
      !DueDateLaw(StampDates(p, "01/05/2020 09:00:00", Dates(None, None)).0)
  {
  }

  /** The date handling as intended: the borrow date is the first format's
      reading, else the second's, else the one already there; a known borrow
      date always sets the due date two weeks on. */
  function StampDatesCorrected(p: Parsers, raw: string, prior: Dates): (r: (Dates, bool))
    ensures r.1 <==> p.monthDayLongYear(Strip(raw)).None? && p.monthDayShortYear(Strip(raw)).None?
    ensures r.0.borrowDate.Some? ==> r.0.dueDate == Some(r.0.borrowDate.value + TwoWeeks)
    ensures r.0.borrowDate.None? ==> r.0.dueDate == prior.dueDate && prior.borrowDate.None?
  {
    var s := Strip(raw);
    var (borrowDate, warn) :=
      match p.monthDayLongYear(s)
      case Some(t) => (Some(t), false)
      case None =>
        match p.monthDayShortYear(s)
        case Some(t) => (Some(t), false)
        case None => (prior.borrowDate, true);
    var dueDate := if borrowDate.Some? then Some(borrowDate.value + TwoWeeks) else prior.dueDate;
    (Dates(borrowDate, dueDate), warn)
  }

  /** The corrected stamping keeps the due-date law on every path... */
  lemma StampDatesCorrectedLaw(p: Parsers, raw: string, prior: Dates)
    requires DueDateLaw(prior)
    ensures DueDateLaw(StampDatesCorrected(p, raw, prior).0)
  {
  }

  /** ...and differs from the code as written only where the first format
      reads the date. */
  lemma StampDatesCorrectedOnFallback(p: Parsers, raw: string, prior: Dates)
    requires p.monthDayLongYear(Strip(raw)).None?
    ensures StampDatesCorrected(p, raw, prior) == StampDates(p, raw, prior)
  {
  }

  /** A fresh loan whose date the first format reads is due two weeks on. */
  lemma StampDatesCorrectedFirstFormat(t: Timestamp)
    ensures var p := Parsers(s => Some(t), s => None, s => None, s => None);
      StampDatesCorrected(p, "01/05/2020 09:00:00", Dates(None, None)) == (Dates(Some(t), Some(t + TwoWeeks)), false)
  {
  }

  /** The correction changes the due date only: the borrow date and the
      warning are those of the program as written, on every input. */
  lemma StampDatesCorrectedKeepsBorrowDate(p: Parsers, raw: string, prior: Dates)
    ensures StampDatesCorrected(p, raw, prior).0.borrowDate == StampDates(p, raw, prior).0.borrowDate
    ensures StampDatesCorrected(p, raw, prior).1 == StampDates(p, raw, prior).1
  {
  }

  // ---------------------------------------------------------------------
  // The code as written, or as corrected

  /** Which reading of the borrow import a writer runs: the code as written,
      or with the due date always derived from a known borrow date and the
      commas in a user's name kept. The store methods run AsWritten. */
  datatype Reading = AsWritten | Corrected

  /** The date stamping a reading runs. */
  function Stamp(reading: Reading, p: Parsers, raw: string, prior: Dates): (Dates, bool) {
    match reading
    case AsWritten => StampDates(p, raw, prior)
    case Corrected => StampDatesCorrected(p, raw, prior)
  }

  /** The user split a reading runs on the relational writer's user field. */
  function UserOf(reading: Reading, userid: string): (string, string) {
    match reading
    case AsWritten => UserFromUserid(userid)
    case Corrected => UserFromUseridCorrected(userid)
  }
}
