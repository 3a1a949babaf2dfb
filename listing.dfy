/**
 * The listing helpers of the GET branch of api/trips.ts: the `ids` query
 * parameter parsing (split on ',', trim, drop empty pieces), the newest-first
 * `createdAt` sort every listing applies, and the UTC-offset suffix that
 * `parseLocalDateTimeMs` appends to the passenger's local date and time.
 */
module Listing {
  import opened Wrappers

  // ---------------------------------------------------------------- trim

  /** The characters String.prototype.trim removes: JavaScript's WhiteSpace and LineTerminator code points. */
  predicate IsSpace(c: char) {
    c == '\U{0009}' || c == '\U{000A}' || c == '\U{000B}' || c == '\U{000C}' || c == '\U{000D}' ||
    c == '\U{0020}' || c == '\U{00A0}' || c == '\U{1680}' || ('\U{2000}' <= c <= '\U{200A}') ||
    c == '\U{2028}' || c == '\U{2029}' || c == '\U{202F}' || c == '\U{205F}' || c == '\U{3000}' ||
    c == '\U{FEFF}'
  }

  /** Every character of `s` is whitespace (the empty string included). */
  predicate Blank(s: string) {
    forall k :: 0 <= k < |s| ==> IsSpace(s[k])
  }

  /** `s` neither starts nor ends with whitespace. */
  predicate Trimmed(s: string) {
    s == [] || (!IsSpace(s[0]) && !IsSpace(s[|s| - 1]))
  }

  /** The suffix of `s` left after its leading whitespace. */
  function TrimStart(s: string): (r: string)
    ensures |r| <= |s| && r == s[|s| - |r|..]
    ensures forall k :: 0 <= k < |s| - |r| ==> IsSpace(s[k])
    ensures r != [] ==> !IsSpace(r[0])
  {
    if s != [] && IsSpace(s[0]) then
      var r := TrimStart(s[1..]);
      assert s[1..][|s| - 1 - |r|..] == s[|s| - |r|..];
      assert forall k :: 1 <= k < |s| - |r| ==> s[k] == s[1..][k - 1];
      r
    else s
  }

  /** The prefix of `s` left before its trailing whitespace. */
  function TrimEnd(s: string): (r: string)
    ensures |r| <= |s| && r == s[..|r|]
    ensures forall k :: |r| <= k < |s| ==> IsSpace(s[k])
    ensures r != [] ==> !IsSpace(r[|r| - 1])
  {
    if s != [] && IsSpace(s[|s| - 1]) then TrimEnd(s[..|s| - 1]) else s
  }

  /** String.prototype.trim: the slice of `s` between its leading and its trailing whitespace. */
  function Trim(s: string): (r: string)
    ensures Trimmed(r)
    ensures exists i, j :: (0 <= i <= j <= |s| && r == s[i..j] &&
                            (forall k :: 0 <= k < i ==> IsSpace(s[k])) &&
                            (forall k :: j <= k < |s| ==> IsSpace(s[k])))
    ensures r == [] <==> Blank(s)
    ensures Trimmed(s) ==> r == s
  {
    var t := TrimStart(s);
    var r := TrimEnd(t);
    TrimPieces(s, t, r);
    r
  }

  /** Cutting leading whitespace off `s` (giving `t`) and then trailing whitespace off `t` (giving `r`) trims `s`. */
  lemma TrimPieces(s: string, t: string, r: string)
    requires |t| <= |s| && t == s[|s| - |t|..]
    requires forall k :: 0 <= k < |s| - |t| ==> IsSpace(s[k])
    requires t != [] ==> !IsSpace(t[0])
    requires |r| <= |t| && r == t[..|r|]
    requires forall k :: |r| <= k < |t| ==> IsSpace(t[k])
    requires r != [] ==> !IsSpace(r[|r| - 1])
    ensures Trimmed(r)
    ensures exists i, j :: (0 <= i <= j <= |s| && r == s[i..j] &&
                            (forall k :: 0 <= k < i ==> IsSpace(s[k])) &&
                            (forall k :: j <= k < |s| ==> IsSpace(s[k])))
    ensures r == [] <==> Blank(s)
    ensures Trimmed(s) ==> r == s
  {
    var i := |s| - |t|;
    assert forall k :: i <= k < |s| ==> s[k] == t[k - i];
    assert r == s[i..i + |r|];
  }

  // ---------------------------------------------------------------- split and join

  /** String.prototype.split with a one-character separator: at least one piece, none holding `sep`. */
  function Split(s: string, sep: char): (parts: seq<string>)
    ensures |parts| >= 1
    ensures forall k :: 0 <= k < |parts| ==> sep !in parts[k]
  {
    if s == [] then [""]
    else
      var rest := Split(s[1..], sep);
      if s[0] == sep then [""] + rest
      else [[s[0]] + rest[0]] + rest[1..]
  }

  /** Array.prototype.join, the inverse of `Split`. */
  function Join(parts: seq<string>, sep: char): string {
    if parts == [] then ""
    else if |parts| == 1 then parts[0]
    else parts[0] + [sep] + Join(parts[1..], sep)
  }

  /** Joining the pieces of a split gives the original string back. */
  lemma {:induction false} JoinSplit(s: string, sep: char)
    ensures Join(Split(s, sep), sep) == s
  {
    if s != [] {
      var rest := Split(s[1..], sep);
      JoinSplit(s[1..], sep);
      if s[0] == sep {
        assert ([""] + rest)[1..] == rest;
      } else {
        var parts := [[s[0]] + rest[0]] + rest[1..];
        if |rest| == 1 {
          assert parts == [[s[0]] + rest[0]];
        } else {
          assert parts[1..] == rest[1..];
          assert Join(rest, sep) == rest[0] + [sep] + Join(rest[1..], sep);
        }
        assert s == [s[0]] + s[1..];
      }
    }
  }

  /** A piece without the separator splits to itself. */
  lemma {:induction false} SplitPiece(a: string, sep: char)
    requires sep !in a
    ensures Split(a, sep) == [a]
  {
    if a != [] {
      SplitPiece(a[1..], sep);
      assert [a[0]] + a[1..] == a;
    }
  }

  /** A leading piece without the separator, followed by the separator, splits off as one piece. */
  lemma {:induction false} SplitCons(a: string, rest: string, sep: char)
    requires sep !in a
    ensures Split(a + [sep] + rest, sep) == [a] + Split(rest, sep)
  {
    var s := a + [sep] + rest;
    if a == [] {
      assert s == [sep] + rest && s[1..] == rest;
    } else {
      assert s[0] == a[0] && s[1..] == a[1..] + [sep] + rest;
      SplitCons(a[1..], rest, sep);
      assert [a[0]] + a[1..] == a;
    }
  }

  /** Splitting a join of separator-free pieces gives the pieces back. */
  lemma {:induction false} SplitJoin(parts: seq<string>, sep: char)
    requires |parts| >= 1
    requires forall k :: 0 <= k < |parts| ==> sep !in parts[k]
    ensures Split(Join(parts, sep), sep) == parts
  {
    if |parts| == 1 {
      SplitPiece(parts[0], sep);
    } else {
      SplitJoin(parts[1..], sep);
      SplitCons(parts[0], Join(parts[1..], sep), sep);
      assert [parts[0]] + parts[1..] == parts;
    }
  }

  // ---------------------------------------------------------------- ids

  /** `.map((id) => id.trim()).filter(Boolean)`. */
  function TrimAll(pieces: seq<string>): (ids: seq<string>)
    ensures |ids| <= |pieces|
    ensures forall k :: 0 <= k < |ids| ==> ids[k] != "" && Trimmed(ids[k])
  {
    if pieces == [] then []
    else
      var id := Trim(pieces[0]);
      (if id == "" then [] else [id]) + TrimAll(pieces[1..])
  }

  /** The identifiers of an `ids` query value: non-empty, trimmed and free of commas. */
  function ParseIds(param: string): (ids: seq<string>)
    ensures forall k :: 0 <= k < |ids| ==> ids[k] != "" && Trimmed(ids[k]) && ',' !in ids[k]
  {
    var pieces := Split(param, ',');
    TrimAllKeepsOut(pieces, ',');
    TrimAll(pieces)
  }

  /** Trimming and dropping pieces never brings a character in. */
  lemma {:induction false} TrimAllKeepsOut(pieces: seq<string>, c: char)
    requires forall k :: 0 <= k < |pieces| ==> c !in pieces[k]
    ensures forall k :: 0 <= k < |TrimAll(pieces)| ==> c !in TrimAll(pieces)[k]
  {
    if pieces != [] {
      TrimAllKeepsOut(pieces[1..], c);
    }
  }

  /** Identifiers that are non-empty, trimmed and free of commas survive a round trip through the query value. */
  lemma ParseJoinedIds(ids: seq<string>)
    requires forall k :: 0 <= k < |ids| ==> ids[k] != "" && Trimmed(ids[k]) && ',' !in ids[k]
    ensures ParseIds(Join(ids, ',')) == ids
  {
    if ids == [] {
      assert Split("", ',') == [""];
    } else {
      SplitJoin(ids, ',');
      TrimAllIdentity(ids);
    }
  }

  /** `TrimAll` works piece by piece: it commutes with concatenation. */
  lemma {:induction false} TrimAllAppend(a: seq<string>, b: seq<string>)
    ensures TrimAll(a + b) == TrimAll(a) + TrimAll(b)
  {
    if a == [] {
      assert a + b == b;
    } else {
      var ab := a + b;
      assert ab[0] == a[0] && ab[1..] == a[1..] + b;
      TrimAllAppend(a[1..], b);
      var id := Trim(a[0]);
      Regroup(if id == "" then [] else [id], TrimAll(a[1..]), TrimAll(b));
    }
  }

  /** A single piece yields its trim, or nothing when it is blank. */
  lemma TrimAllSingle(p: string)
    ensures TrimAll([p]) == if Blank(p) then [] else [Trim(p)]
  {
    assert [p][1..] == [];
  }

  /** A value without a comma yields the trim of the whole value, or nothing when it is blank. */
  lemma ParseIdsPiece(a: string)
    requires ',' !in a
    ensures ParseIds(a) == if Blank(a) then [] else [Trim(a)]
  {
    SplitPiece(a, ',');
    TrimAllSingle(a);
  }

  /** The ids of a value are those of its first comma-separated piece, followed by those of the rest. */
  lemma ParseIdsCons(a: string, rest: string)
    requires ',' !in a
    ensures ParseIds(a + "," + rest) == (if Blank(a) then [] else [Trim(a)]) + ParseIds(rest)
  {
    assert a + "," + rest == a + [','] + rest;
    SplitCons(a, rest, ',');
    TrimAllAppend([a], Split(rest, ','));
    TrimAllSingle(a);
  }

  lemma {:induction false} TrimAllIdentity(ids: seq<string>)
    requires forall k :: 0 <= k < |ids| ==> ids[k] != "" && Trimmed(ids[k])
    ensures TrimAll(ids) == ids
  {
    if ids != [] {
      TrimAllIdentity(ids[1..]);
      assert [ids[0]] + ids[1..] == ids;
    }
  }

  /** Every character is a comma or whitespace. */
  predicate OnlyCommasAndSpaces(s: string) {
    forall k :: 0 <= k < |s| ==> s[k] == ',' || IsSpace(s[k])
  }

  /** A string is blank when its first character is whitespace and the rest is blank. */
  lemma BlankCons(c: char, t: string)
    ensures Blank([c] + t) <==> IsSpace(c) && Blank(t)
  {
    var s := [c] + t;
    assert s[0] == c;
    assert forall k :: 0 <= k < |t| ==> t[k] == s[k + 1];
  }

  lemma CommasAndSpacesCons(s: string)
    requires s != []
    ensures OnlyCommasAndSpaces(s) <==> (s[0] == ',' || IsSpace(s[0])) && OnlyCommasAndSpaces(s[1..])
  {
    assert forall k :: 0 <= k < |s| - 1 ==> s[1..][k] == s[k + 1];
  }

  /** A list of pieces yields nothing when its first piece is blank and the rest yield nothing. */
  lemma TrimAllCons(x: string, xs: seq<string>)
    ensures TrimAll([x] + xs) == [] <==> Blank(x) && TrimAll(xs) == []
  {
    assert ([x] + xs)[1..] == xs;
  }

  lemma TrimAllFirst(xs: seq<string>)
    requires xs != []
    ensures TrimAll(xs) == [] <==> Blank(xs[0]) && TrimAll(xs[1..]) == []
  {
  }

  /** Parsing yields no identifier exactly when the value holds nothing but commas and whitespace. */
  lemma {:induction false} ParseIdsEmpty(s: string)
    ensures TrimAll(Split(s, ',')) == [] <==> OnlyCommasAndSpaces(s)
  {
    if s != [] {
      ParseIdsEmpty(s[1..]);
      CommasAndSpacesCons(s);
      var rest := Split(s[1..], ',');
      if s[0] == ',' {
        TrimAllCons("", rest);
      } else {
        TrimAllCons([s[0]] + rest[0], rest[1..]);
        TrimAllFirst(rest);
        BlankCons(s[0], rest[0]);
      }
    }
  }

  /** What the `ids` query parameter selects. */
  datatype IdsOutcome =
    | NotRequested       // the parameter is absent or empty: the other listings are tried
    | EmptyIds           // 400 "ids query param is empty"
    | Fetch(ids: seq<string>)

  /** The `ids` branch of the GET handler; `param` is the first value of the parameter, "" when absent. */
  function IdsRequest(param: string): (o: IdsOutcome)
    ensures o == NotRequested <==> param == ""
    ensures o == EmptyIds <==> param != "" && OnlyCommasAndSpaces(param)
    ensures o.Fetch? ==> o.ids == ParseIds(param) && |o.ids| >= 1
  {
    if param == "" then NotRequested
    else
      var ids := ParseIds(param);
      ParseIdsEmpty(param);
      if ids == [] then EmptyIds else Fetch(ids)
  }

  // ---------------------------------------------------------------- newest-first sort

  /** `new Date(x.createdAt || 0).getTime()` on a timestamp already in milliseconds: absent counts as 0. */
  function CreatedAtMs(createdAt: Option<int>): int {
    createdAt.GetOr(0)
  }

  /** Ordered by `key`, largest first. */
  predicate NewestFirst<T>(s: seq<T>, key: T -> int) {
    forall i, j :: 0 <= i < j < |s| ==> key(s[i]) >= key(s[j])
  }

  /** The elements of `s` whose key is `k`, in their order in `s`. */
  function WithKey<T>(s: seq<T>, key: T -> int, k: int): seq<T> {
    if s == [] then []
    else (if key(s[0]) == k then [s[0]] else []) + WithKey(s[1..], key, k)
  }

  /** Place `x` in front of the first element whose key is not larger than its own. */
  function InsertNewest<T>(x: T, t: seq<T>, key: T -> int): (r: seq<T>)
    ensures multiset(r) == multiset(t) + multiset{x}
  {
    if t == [] || key(x) >= key(t[0]) then [x] + t
    else
      assert t == [t[0]] + t[1..];
      [t[0]] + InsertNewest(x, t[1..], key)
  }

  /** No key in `s` exceeds `b`. */
  predicate AtMost<T>(s: seq<T>, key: T -> int, b: int) {
    forall i :: 0 <= i < |s| ==> key(s[i]) <= b
  }

  /** Inserting an element whose key is at most `b` into a list bounded by `b` keeps it bounded by `b`. */
  lemma {:induction false} InsertAtMost<T>(x: T, t: seq<T>, key: T -> int, b: int)
    requires key(x) <= b && AtMost(t, key, b)
    ensures AtMost(InsertNewest(x, t, key), key, b)
  {
    var r := InsertNewest(x, t, key);
    if t == [] || key(x) >= key(t[0]) {
      assert r == [x] + t;
      forall i | 0 < i < |r|
        ensures key(r[i]) <= b
      {
        assert r[i] == t[i - 1];
      }
    } else {
      var tail := InsertNewest(x, t[1..], key);
      InsertAtMost(x, t[1..], key, b);
      assert r == [t[0]] + tail;
      forall i | 0 < i < |r|
        ensures key(r[i]) <= b
      {
        assert r[i] == tail[i - 1];
      }
    }
  }

  /** Inserting into a newest-first list keeps it newest first. */
  lemma {:induction false} InsertSorted<T>(x: T, t: seq<T>, key: T -> int)
    requires NewestFirst(t, key)
    ensures NewestFirst(InsertNewest(x, t, key), key)
  {
    var r := InsertNewest(x, t, key);
    if t == [] || key(x) >= key(t[0]) {
      assert r == [x] + t;
      forall i, j | 0 <= i < j < |r|
        ensures key(r[i]) >= key(r[j])
      {
        if i > 0 {
          assert r[i] == t[i - 1] && r[j] == t[j - 1];
        } else if j > 1 {
          assert r[j] == t[j - 1];
        }
      }
    } else {
      var tail := InsertNewest(x, t[1..], key);
      InsertSorted(x, t[1..], key);
      forall i | 0 <= i < |t[1..]|
        ensures key(t[1..][i]) <= key(t[0])
      {
        assert t[1..][i] == t[i + 1];
      }
      InsertAtMost(x, t[1..], key, key(t[0]));
      assert r == [t[0]] + tail;
      forall i, j | 0 <= i < j < |r|
        ensures key(r[i]) >= key(r[j])
      {
        assert r[j] == tail[j - 1];
        if i > 0 {
          assert r[i] == tail[i - 1];
        }
      }
    }
  }

  /**
   * Array.prototype.sort with the comparator `(a, b) => key(b) - key(a)`: a
   * stable sort, newest first.
   */
  function SortNewestFirst<T>(s: seq<T>, key: T -> int): (r: seq<T>)
    ensures NewestFirst(r, key)
    ensures multiset(r) == multiset(s)
  {
    if s == [] then []
    else
      assert s == [s[0]] + s[1..];
      var rest := SortNewestFirst(s[1..], key);
      InsertSorted(s[0], rest, key);
      InsertNewest(s[0], rest, key)
  }

  /** `WithKey` one element at a time. */
  lemma WithKeyCons<T>(y: T, s: seq<T>, key: T -> int, k: int)
    ensures WithKey([y] + s, key, k) == (if key(y) == k then [y] else []) + WithKey(s, key, k)
  {
    assert ([y] + s)[0] == y && ([y] + s)[1..] == s;
  }

  /** The step of `InsertKeepsTies` where `x` goes behind the first element. */
  lemma InsertBehind<T>(x: T, t: seq<T>, key: T -> int, k: int)
    requires t != [] && key(x) < key(t[0])
    requires WithKey(InsertNewest(x, t[1..], key), key, k) == (if key(x) == k then [x] else []) + WithKey(t[1..], key, k)
    ensures WithKey(InsertNewest(x, t, key), key, k) == (if key(x) == k then [x] else []) + WithKey(t, key, k)
  {
    var tail := InsertNewest(x, t[1..], key);
    assert InsertNewest(x, t, key) == [t[0]] + tail;
    WithKeyCons(t[0], tail, key, k);
    WithKeyCons(t[0], t[1..], key, k);
    assert [t[0]] + t[1..] == t;
    var first := if key(t[0]) == k then [t[0]] else [];
    var inserted := if key(x) == k then [x] else [];
    var rest := WithKey(t[1..], key, k);
    SwapEmpty(first, inserted, rest);
  }

  /** Two pieces of which at most one is non-empty can be swapped. */
  lemma SwapEmpty<T>(a: seq<T>, b: seq<T>, c: seq<T>)
    requires a == [] || b == []
    ensures a + (b + c) == b + (a + c)
  {
    if a == [] {
      assert a + (b + c) == b + c && a + c == c;
    } else {
      assert b + (a + c) == a + c && b + c == c;
    }
  }

  /** `x` lands in front of every element with its own key and leaves every other key's order alone. */
  lemma {:induction false} InsertKeepsTies<T>(x: T, t: seq<T>, key: T -> int, k: int)
    ensures WithKey(InsertNewest(x, t, key), key, k) == (if key(x) == k then [x] else []) + WithKey(t, key, k)
  {
    if t == [] || key(x) >= key(t[0]) {
      WithKeyCons(x, t, key, k);
    } else {
      InsertKeepsTies(x, t[1..], key, k);
      InsertBehind(x, t, key, k);
    }
  }

  /** Stability: for every key, the elements carrying it come out in their input order. */
  lemma {:induction false} SortKeepsTies<T>(s: seq<T>, key: T -> int, k: int)
    ensures WithKey(SortNewestFirst(s, key), key, k) == WithKey(s, key, k)
  {
    if s != [] {
      SortKeepsTies(s[1..], key, k);
      InsertKeepsTies(s[0], SortNewestFirst(s[1..], key), key, k);
    }
  }

  // ---------------------------------------------------------------- UTC offset

  /** The offset used when TRIP_TIMEZONE_OFFSET_MINUTES is not set: Bogotá, UTC-5. */
  const DefaultTimezoneOffsetMinutes: int := -300

  function DigitChar(d: nat): char
    requires d < 10
  {
    ('0' as int + d) as char
  }

  predicate IsDigit(c: char) {
    '0' as int <= c as int <= '9' as int
  }

  predicate AllDigits(s: string) {
    forall k :: 0 <= k < |s| ==> IsDigit(s[k])
  }

  /** A decimal numeral without a leading zero, other than "0" itself. */
  predicate Canonical(s: string) {
    s != [] && (s[0] == '0' ==> s == "0")
  }

  /** Number.prototype.toString on a non-negative integer: its decimal digits, no leading zero. */
  function Decimal(n: nat): (s: string)
    ensures |s| >= 1 && AllDigits(s)
    ensures |s| == 1 <==> n < 10
    ensures |s| <= 2 <==> n < 100
    ensures Canonical(s) && (s == "0" <==> n == 0)
  {
    if n < 10 then [DigitChar(n)] else Decimal(n / 10) + [DigitChar(n % 10)]
  }

  /** The number a string of decimal digits denotes. */
  function DigitsValue(s: string): nat
    requires AllDigits(s)
  {
    if s == [] then 0
    else
      assert IsDigit(s[|s| - 1]);
      DigitsValue(s[..|s| - 1]) * 10 + (s[|s| - 1] as int - '0' as int)
  }

  lemma {:induction false} DecimalValue(n: nat)
    ensures DigitsValue(Decimal(n)) == n
  {
    if n >= 10 {
      DecimalValue(n / 10);
      var s := Decimal(n);
      assert s[..|s| - 1] == Decimal(n / 10);
    }
  }

  /** A leading '0' does not change the value. */
  lemma {:induction false} LeadingZero(s: string)
    requires AllDigits(s)
    ensures DigitsValue("0" + s) == DigitsValue(s)
  {
    if s != [] {
      LeadingZero(s[..|s| - 1]);
      assert ("0" + s)[..|s|] == "0" + s[..|s| - 1];
    }
  }

  /** `padStart(2, "0")`. */
  function PadStart2(s: string): (r: string)
    ensures |r| == if |s| < 2 then 2 else |s|
    ensures |s| >= 2 ==> r == s
    ensures |s| < 2 ==> r[2 - |s|..] == s && forall i :: 0 <= i < 2 - |s| ==> r[i] == '0'
  {
    if |s| == 0 then "00" else if |s| == 1 then "0" + s else s
  }

  /** A padded decimal is still the same number. */
  lemma PaddedValue(n: nat)
    ensures AllDigits(PadStart2(Decimal(n)))
    ensures DigitsValue(PadStart2(Decimal(n))) == n
  {
    DecimalValue(n);
    if n < 10 {
      LeadingZero(Decimal(n));
    }
  }

  /** Between the sign and the ':' of `r` stand the digits of `a / 60`, after the ':' the digits of `a % 60`. */
  predicate SpellsMagnitude(r: string, a: nat) {
    && |r| >= 4
    && AllDigits(r[1..|r| - 3]) && DigitsValue(r[1..|r| - 3]) == a / 60
    && AllDigits(r[|r| - 2..]) && DigitsValue(r[|r| - 2..]) == a % 60
  }

  /** A suffix assembled from a sign, the digits of the hours and the two digits of the minutes of `a` spells `a`. */
  lemma Spelled(sign: char, hours: string, minutes: string, a: nat)
    requires AllDigits(hours) && DigitsValue(hours) == a / 60
    requires |minutes| == 2 && AllDigits(minutes) && DigitsValue(minutes) == a % 60
    ensures var r := [sign] + hours + ":" + minutes;
      |r| == |hours| + 4 && r[0] == sign && r[|r| - 3] == ':' && SpellsMagnitude(r, a)
  {
    SuffixPieces(sign, hours, minutes);
  }

  /** The `±HH:MM` suffix `parseLocalDateTimeMs` appends for an offset of `offset` minutes east of UTC. */
  function OffsetSuffix(offset: int): (r: string)
    ensures |r| >= 6 && r[|r| - 3] == ':'
    ensures r[0] == '+' <==> offset >= 0
    ensures r[0] == '-' <==> offset < 0
    ensures |r| == 6 <==> -6000 < offset < 6000
    ensures SpellsMagnitude(r, if offset < 0 then -offset else offset)
  {
    var absMinutes := if offset < 0 then -offset else offset;
    var hours := PadStart2(Decimal(absMinutes / 60));
    var minutes := PadStart2(Decimal(absMinutes % 60));
    var sign := if offset >= 0 then '+' else '-';
    PaddedValue(absMinutes / 60);
    PaddedValue(absMinutes % 60);
    assert |minutes| == 2;
    assert |hours| == 2 <==> absMinutes < 6000;
    Spelled(sign, hours, minutes, absMinutes);
    [sign] + hours + ":" + minutes
  }

  /** Reads a `±H…H:MM` suffix back into minutes east of UTC. */
  function ParseOffset(s: string): Option<int> {
    if |s| < 4 || (s[0] != '+' && s[0] != '-') || s[|s| - 3] != ':' then None
    else
      var hours := s[1..|s| - 3];
      var minutes := s[|s| - 2..];
      if !AllDigits(hours) || !AllDigits(minutes) then None
      else
        var v := DigitsValue(hours) * 60 + DigitsValue(minutes);
        Some(if s[0] == '+' then v else -v)
  }

  /** The pieces `ParseOffset` cuts out of a suffix are the ones it was built from. */
  lemma SuffixPieces(sign: char, hours: string, minutes: string)
    requires |minutes| == 2
    ensures var s := [sign] + hours + ":" + minutes;
      |s| >= 4 && s[0] == sign && s[|s| - 3] == ':' && s[1..|s| - 3] == hours && s[|s| - 2..] == minutes
  {
    var s := [sign] + hours + ":" + minutes;
    assert s[1..|s| - 3] == hours;
    assert s[|s| - 2..] == minutes;
  }

  /** A well-formed suffix reads back as its sign applied to hours * 60 + minutes. */
  lemma ParseSuffix(sign: char, hours: string, minutes: string)
    requires sign == '+' || sign == '-'
    requires AllDigits(hours) && AllDigits(minutes) && |minutes| == 2
    ensures ParseOffset([sign] + hours + ":" + minutes) ==
      var v := DigitsValue(hours) * 60 + DigitsValue(minutes);
      Some(if sign == '+' then v else -v)
  {
    SuffixPieces(sign, hours, minutes);
    var s := [sign] + hours + ":" + minutes;
    var h, m := s[1..|s| - 3], s[|s| - 2..];
    assert h == hours && m == minutes;
    assert AllDigits(h) && AllDigits(m);
    var v := DigitsValue(hours) * 60 + DigitsValue(minutes);
    assert DigitsValue(h) * 60 + DigitsValue(m) == v;
  }

  /** Every offset can be read back from its suffix. */
  lemma OffsetRoundTrip(offset: int)
    ensures ParseOffset(OffsetSuffix(offset)) == Some(offset)
  {
    ReadBack(OffsetSuffix(offset), offset);
  }

  /** Any suffix with the sign of `offset` and the hours and minutes of its magnitude reads back as `offset`. */
  lemma ReadBack(r: string, offset: int)
    requires |r| >= 6 && r[|r| - 3] == ':'
    requires r[0] == '+' <==> offset >= 0
    requires r[0] == '-' <==> offset < 0
    requires SpellsMagnitude(r, if offset < 0 then -offset else offset)
    ensures ParseOffset(r) == Some(offset)
  {
    HoursAndMinutes(if offset < 0 then -offset else offset);
  }

  /** Whole hours and the remaining minutes add back up to the minutes. */
  lemma HoursAndMinutes(a: nat)
    ensures (a / 60) * 60 + a % 60 == a
  {
  }

  /** With the default offset the suffix reads `-05:00`. */
  lemma DefaultSuffix()
    ensures OffsetSuffix(DefaultTimezoneOffsetMinutes) == "-05:00"
  {
    assert Decimal(5) == "5" && Decimal(0) == "0";
  }

  /** Where each of five concatenated pieces sits. */
  lemma PiecesAt<T>(a: seq<T>, b: seq<T>, c: seq<T>, d: seq<T>, e: seq<T>)
    ensures var s := a + b + c + d + e;
      && |s| == |a| + |b| + |c| + |d| + |e|
      && s[..|a|] == a
      && s[|a|..|a| + |b|] == b
      && s[|a| + |b|..|a| + |b| + |c|] == c
      && s[|a| + |b| + |c|..|a| + |b| + |c| + |d|] == d
      && s[|s| - |e|..] == e
  {
  }

  /** `s` is `date`, a 'T', `clock`, ":00" and `suffix`, in that order and nothing else. */
  predicate Laid(s: string, date: string, clock: string, suffix: string) {
    && |s| == |date| + 1 + |clock| + 3 + |suffix|
    && s[..|date|] == date && s[|date|..|date| + 1] == "T"
    && s[|date| + 1..|date| + 1 + |clock|] == clock
    && s[|date| + 1 + |clock|..|date| + 4 + |clock|] == ":00"
    && s[|s| - |suffix|..] == suffix
  }

  /** A date-time string ending in a suffix that reads back as `offset` still reads back as `offset` from its tail. */
  lemma Assembled(date: string, clock: string, suffix: string, offset: int)
    requires ParseOffset(suffix) == Some(offset)
    ensures var s := date + "T" + clock + ":00" + suffix;
      Laid(s, date, clock, suffix) && ParseOffset(s[|s| - |suffix|..]) == Some(offset)
  {
    LaidOut(date, clock, suffix);
  }

  /** The date-time string is laid out piece by piece. */
  lemma LaidOut(date: string, clock: string, suffix: string)
    ensures Laid(date + "T" + clock + ":00" + suffix, date, clock, suffix)
  {
    PiecesAt(date, "T", clock, ":00", suffix);
  }

  /**
   * The local date-time string `parseLocalDateTimeMs` hands to the Date
   * parser: none without a date; a missing time means midnight.
   */
  function LocalDateTimeString(date: string, time: string, offset: int): (r: Option<string>)
    ensures r.None? <==> date == ""
    ensures r.Some? ==> Laid(r.value, date, if time == "" then "00:00" else time, OffsetSuffix(offset))
    ensures r.Some? ==> ParseOffset(r.value[|r.value| - |OffsetSuffix(offset)|..]) == Some(offset)
  {
    if date == "" then None
    else
      var clock := if time == "" then "00:00" else time;
      OffsetRoundTrip(offset);
      Assembled(date, clock, OffsetSuffix(offset), offset);
      Some(date + "T" + clock + ":00" + OffsetSuffix(offset))
  }
}
