/**
 * The parts of `java.lang.String` and `java.lang.Integer` that the route code relies on,
 * restricted to one-character patterns: `replace`, `split` with and without a limit,
 * `endsWith`, `trim`, `Integer.parseInt` and `Integer.toString`.
 */
module Strings {
  import opened Wrappers

  /** The values of a Java `int`. */
  type Int32 = x: int | -0x8000_0000 <= x < 0x8000_0000

  /** `s.endsWith(c)` for a one-character suffix. */
  predicate EndsWith(s: string, c: char)
    ensures EndsWith(s, c) ==> c in s
  {
    |s| > 0 && s[|s| - 1] == c
  }

  // ---------------------------------------------------------------------------
  // replace(c, "")
  // ---------------------------------------------------------------------------

  /** `s.replace(c, "")`: every occurrence of `c` deleted. */
  function RemoveAll(s: string, c: char): (r: string)
    ensures c !in r
    ensures c !in s ==> r == s
  {
    if s == [] then []
    else (if s[0] == c then [] else [s[0]]) + RemoveAll(s[1..], c)
  }

  /** Removal deletes exactly the occurrences of `c`: every other character is kept as often as before. */
  lemma {:induction false} RemoveAllCounts(s: string, c: char)
    ensures |RemoveAll(s, c)| == |s| - multiset(s)[c]
    ensures forall d :: d != c ==> multiset(RemoveAll(s, c))[d] == multiset(s)[d]
  {
    if s != [] {
      RemoveAllCounts(s[1..], c);
      assert s == [s[0]] + s[1..];
    }
  }

  lemma {:induction false} RemoveAllAppend(a: string, b: string, c: char)
    ensures RemoveAll(a + b, c) == RemoveAll(a, c) + RemoveAll(b, c)
  {
    if a == [] {
      assert a + b == b;
    } else {
      assert (a + b)[1..] == a[1..] + b;
      RemoveAllAppend(a[1..], b, c);
    }
  }

  /** `sub` is what remains of `s` after deleting some of its characters; the rest keep their order. */
  predicate IsSubsequence(sub: string, s: string)
    decreases |s|
  {
    if sub == [] then true
    else if s == [] then false
    else if sub[0] == s[0] then IsSubsequence(sub[1..], s[1..])
    else IsSubsequence(sub, s[1..])
  }

  lemma {:induction false} RemoveAllIsSubsequence(s: string, c: char)
    ensures IsSubsequence(RemoveAll(s, c), s)
  {
    if s != [] {
      RemoveAllIsSubsequence(s[1..], c);
      var r, rest := RemoveAll(s, c), RemoveAll(s[1..], c);
      if s[0] == c {
        assert r == rest;
        assert rest == [] || rest[0] != s[0];
      } else {
        assert r == [s[0]] + rest;
        assert r[1..] == rest;
      }
    }
  }

  /**
   * `s.replace("\n", "").replace("\r", "")`: the sanitisation applied to route names and
   * to bus registration numbers.
   */
  function StripLineBreaks(s: string): (r: string)
    ensures '\n' !in r && '\r' !in r
    ensures forall d :: d != '\n' && d != '\r' ==> multiset(r)[d] == multiset(s)[d]
    ensures '\n' !in s && '\r' !in s ==> r == s
  {
    var once := RemoveAll(s, '\n');
    RemoveAllCounts(s, '\n');
    RemoveAllCounts(once, '\r');
    assert multiset(once)['\n'] == 0;
    RemoveAll(once, '\r')
  }

  lemma StripLineBreaksCons(x: char, tail: string)
    ensures StripLineBreaks([x] + tail)
      == (if x == '\n' || x == '\r' then [] else [x]) + StripLineBreaks(tail)
  {
    RemoveAllAppend([x], tail, '\n');
    RemoveAllAppend(RemoveAll([x], '\n'), RemoveAll(tail, '\n'), '\r');
    assert [x][1..] == [];
  }

  /** The characters of `s` that survive sanitisation keep their original order. */
  lemma {:induction false} StripLineBreaksIsSubsequence(s: string)
    ensures IsSubsequence(StripLineBreaks(s), s)
  {
    if s != [] {
      var tail := s[1..];
      StripLineBreaksCons(s[0], tail);
      assert s == [s[0]] + tail;
      StripLineBreaksIsSubsequence(tail);
      var r, rest := StripLineBreaks(s), StripLineBreaks(tail);
      if s[0] == '\n' || s[0] == '\r' {
        assert r == rest;
        assert rest == [] || rest[0] != s[0];
      } else {
        assert r[1..] == rest;
      }
    }
  }

  /** Sanitising twice is the same as sanitising once. */
  lemma StripLineBreaksIdempotent(s: string)
    ensures StripLineBreaks(StripLineBreaks(s)) == StripLineBreaks(s)
  {
  }

  // ---------------------------------------------------------------------------
  // split
  // ---------------------------------------------------------------------------

  /** The pieces joined back together, with `d` between neighbouring pieces. */
  function Join(parts: seq<string>, d: char): string
    requires |parts| > 0
  {
    if |parts| == 1 then parts[0] else parts[0] + [d] + Join(parts[1..], d)
  }

  /** Every piece between two occurrences of `d` (or an end of `s`), empty pieces included. */
  function Pieces(s: string, d: char): (r: seq<string>)
    ensures |r| > 0
  {
    if s == [] then [[]]
    else
      var rest := Pieces(s[1..], d);
      if s[0] == d then [[]] + rest
      else [[s[0]] + rest[0]] + rest[1..]
  }

  /** No piece holds the separator. */
  lemma {:induction false} PiecesAvoid(s: string, d: char)
    ensures forall k :: 0 <= k < |Pieces(s, d)| ==> d !in Pieces(s, d)[k]
  {
    if s != [] {
      PiecesAvoid(s[1..], d);
    }
  }

  /** There is one more piece than there are separators. */
  lemma {:induction false} PiecesCount(s: string, d: char)
    ensures |Pieces(s, d)| == multiset(s)[d] + 1
  {
    if s != [] {
      PiecesCount(s[1..], d);
      assert s == [s[0]] + s[1..];
    }
  }

  /** Joining the pieces with `d` gives back the input. */
  lemma {:induction false} JoinOfPieces(s: string, d: char)
    ensures Join(Pieces(s, d), d) == s
  {
    if s != [] {
      JoinOfPieces(s[1..], d);
      var rest := Pieces(s[1..], d);
      if s[0] == d {
        JoinCons([], rest, d);
      } else if |rest| > 1 {
        JoinCons([s[0]] + rest[0], rest[1..], d);
        JoinCons(rest[0], rest[1..], d);
        assert [rest[0]] + rest[1..] == rest;
      }
    }
  }

  lemma JoinCons(x: string, tail: seq<string>, d: char)
    requires tail != []
    ensures Join([x] + tail, d) == x + [d] + Join(tail, d)
  {
    assert ([x] + tail)[1..] == tail;
  }

  lemma {:induction false} PiecesOfFree(x: string, d: char)
    requires d !in x
    ensures Pieces(x, d) == [x]
  {
    if x != [] {
      PiecesOfFree(x[1..], d);
      assert x[0] != d;
      assert [x[0]] + x[1..] == x;
    }
  }

  lemma {:induction false} PiecesOfCons(x: string, d: char, y: string)
    requires d !in x
    ensures Pieces(x + [d] + y, d) == [x] + Pieces(y, d)
  {
    if x == [] {
      assert x + [d] + y == [d] + y;
      assert ([d] + y)[1..] == y;
    } else {
      assert (x + [d] + y)[1..] == x[1..] + [d] + y;
      PiecesOfCons(x[1..], d, y);
      assert [x[0]] + x[1..] == x;
    }
  }

  /** Cutting at every `d` undoes joining with `d`, when no piece holds a `d`. */
  lemma {:induction false} PiecesOfJoin(parts: seq<string>, d: char)
    requires |parts| > 0
    requires forall k :: 0 <= k < |parts| ==> d !in parts[k]
    ensures Pieces(Join(parts, d), d) == parts
  {
    if |parts| == 1 {
      PiecesOfFree(parts[0], d);
    } else {
      PiecesOfJoin(parts[1..], d);
      PiecesOfCons(parts[0], d, Join(parts[1..], d));
      assert [parts[0]] + parts[1..] == parts;
    }
  }

  lemma {:induction false} JoinAppend(a: seq<string>, b: seq<string>, d: char)
    requires |a| > 0 && |b| > 0
    ensures Join(a + b, d) == Join(a, d) + [d] + Join(b, d)
  {
    if |a| == 1 {
      assert (a + b)[1..] == b;
    } else {
      assert (a + b)[1..] == a[1..] + b;
      JoinAppend(a[1..], b, d);
    }
  }

  /** The joined text ends with the last piece. */
  lemma {:induction false} JoinEndsWithLast(parts: seq<string>, d: char)
    requires |parts| > 0
    ensures var j, last := Join(parts, d), parts[|parts| - 1];
      |last| <= |j| && j[|j| - |last|..] == last
  {
    if |parts| > 1 {
      JoinEndsWithLast(parts[1..], d);
    }
  }

  /** A join of several pieces ends with the separator when its last piece is empty or ends with it. */
  lemma JoinEndsWithSeparator(parts: seq<string>, d: char)
    requires |parts| >= 2
    requires parts[|parts| - 1] == [] || EndsWith(parts[|parts| - 1], d)
    ensures EndsWith(Join(parts, d), d)
  {
    var n := |parts|;
    if parts[n - 1] == [] {
      assert parts == parts[..n - 1] + [parts[n - 1]];
      JoinAppend(parts[..n - 1], [parts[n - 1]], d);
    } else {
      JoinEndsWithLast(parts, d);
      var j, last := Join(parts, d), parts[n - 1];
      assert j[|j| - 1] == j[|j| - |last|..][|last| - 1];
    }
  }

  /** A join whose last piece is not empty ends with the last character of that piece. */
  lemma JoinLastChar(parts: seq<string>, d: char)
    requires |parts| > 0 && parts[|parts| - 1] != []
    ensures var j, last := Join(parts, d), parts[|parts| - 1];
      j != [] && j[|j| - 1] == last[|last| - 1]
  {
    JoinEndsWithLast(parts, d);
    var j, last := Join(parts, d), parts[|parts| - 1];
    assert j[|j| - |last|..][|last| - 1] == j[|j| - 1];
  }

  /** A character that is not the separator and occurs in no piece does not occur in the joined text. */
  lemma {:induction false} JoinAvoids(parts: seq<string>, d: char, c: char)
    requires |parts| > 0 && c != d
    requires forall k :: 0 <= k < |parts| ==> c !in parts[k]
    ensures c !in Join(parts, d)
  {
    if |parts| > 1 {
      JoinAvoids(parts[1..], d, c);
    }
  }

  /** The separators in a join: one fewer than the pieces, when no piece holds one. */
  lemma {:induction false} JoinSeparatorCount(parts: seq<string>, d: char)
    requires |parts| > 0
    requires forall k :: 0 <= k < |parts| ==> d !in parts[k]
    ensures multiset(Join(parts, d))[d] == |parts| - 1
  {
    PiecesOfJoin(parts, d);
    PiecesCount(Join(parts, d), d);
  }

  /** Trailing empty strings removed, as `String.split` does when its limit is zero. */
  function DropTrailingEmpty(parts: seq<string>): (r: seq<string>)
    ensures r <= parts
    ensures r == [] || r[|r| - 1] != []
    ensures forall k :: |r| <= k < |parts| ==> parts[k] == []
  {
    if parts != [] && parts[|parts| - 1] == [] then DropTrailingEmpty(parts[..|parts| - 1]) else parts
  }

  /**
   * `s.split(d)` for a one-character pattern: the input alone when `d` does not occur in it,
   * otherwise its pieces with the empty pieces at the end removed.
   */
  function Split(s: string, d: char): (r: seq<string>)
    ensures d !in s ==> r == [s]
    ensures r <= Pieces(s, d)
    ensures forall k :: |r| <= k < |Pieces(s, d)| ==> Pieces(s, d)[k] == []
    ensures d in s ==> r == [] || r[|r| - 1] != []
  {
    if d !in s then
      PiecesOfFree(s, d);
      [s]
    else DropTrailingEmpty(Pieces(s, d))
  }

  /** Splitting undoes joining when no piece holds `d` and the last piece is not empty. */
  lemma {:induction false} SplitOfJoin(parts: seq<string>, d: char)
    requires |parts| > 0 && parts[|parts| - 1] != []
    requires forall k :: 0 <= k < |parts| ==> d !in parts[k]
    ensures Split(Join(parts, d), d) == parts
  {
    PiecesOfJoin(parts, d);
    var s := Join(parts, d);
    if d !in s {
      PiecesOfFree(s, d);
    }
  }

  /** The separator alone splits to no pieces at all: both pieces are empty and trail. */
  lemma SplitOfSeparator(d: char)
    ensures Split([d], d) == []
  {
    var s := [d];
    assert s[1..] == [];
    assert Pieces(s, d) == [[], []];
    assert DropTrailingEmpty([[], []]) == DropTrailingEmpty([[]]);
  }

  /**
   * `s.split(d, limit)` for a positive limit: at most `limit` pieces, the last one holding the
   * rest of the input, and no piece removed.
   */
  function SplitLimit(s: string, d: char, limit: nat): (r: seq<string>)
    requires limit > 0
    ensures |r| == if multiset(s)[d] < limit then multiset(s)[d] + 1 else limit
    ensures |r| > 0 && Join(r, d) == s
    ensures forall k :: 0 <= k < |r| - 1 ==> d !in r[k]
    ensures multiset(s)[d] < limit ==> r == Pieces(s, d)
  {
    var all := Pieces(s, d);
    JoinOfPieces(s, d);
    PiecesCount(s, d);
    PiecesAvoid(s, d);
    if |all| <= limit then all
    else if limit == 1 then [s]
    else
      var r := all[..limit - 1] + [Join(all[limit - 1..], d)];
      JoinAppend(all[..limit - 1], [Join(all[limit - 1..], d)], d);
      JoinAppend(all[..limit - 1], all[limit - 1..], d);
      assert all[..limit - 1] + all[limit - 1..] == all;
      r
  }

  // ---------------------------------------------------------------------------
  // trim
  // ---------------------------------------------------------------------------

  function TrimStart(s: string): (r: string)
    ensures |r| <= |s| && r == s[|s| - |r|..]
    ensures forall k :: 0 <= k < |s| - |r| ==> s[k] <= ' '
    ensures r == [] || r[0] > ' '
  {
    if s != [] && s[0] <= ' ' then TrimStart(s[1..]) else s
  }

  function TrimEnd(s: string): (r: string)
    ensures |r| <= |s| && r == s[..|r|]
    ensures forall k :: |r| <= k < |s| ==> s[k] <= ' '
    ensures r == [] || r[|r| - 1] > ' '
  {
    if s != [] && s[|s| - 1] <= ' ' then TrimEnd(s[..|s| - 1]) else s
  }

  /** Characters not above the space character, as `trim` removes them. */
  predicate IsBlank(s: string) {
    forall k :: 0 <= k < |s| ==> s[k] <= ' '
  }

  /** Blanks around a text that starts and ends above the space character are exactly what trim removes. */
  lemma TrimPadded(lead: string, x: string, trail: string)
    requires IsBlank(lead) && IsBlank(trail)
    requires x != [] && x[0] > ' ' && x[|x| - 1] > ' '
    ensures Trim(lead + x + trail) == x
  {
    var s := lead + x + trail;
    var front := TrimStart(s);
    assert s[|lead|] == x[0];
    assert |front| == |x| + |trail|;
    assert front == x + trail;
    var back := TrimEnd(front);
    assert front[|x| - 1] == x[|x| - 1];
    assert |back| == |x|;
  }

  /** `s.trim()`: leading and trailing characters not above the space character removed. */
  function Trim(s: string): (r: string)
    ensures r == [] || (r[0] > ' ' && r[|r| - 1] > ' ')
    ensures (s == [] || (s[0] > ' ' && s[|s| - 1] > ' ')) ==> r == s
  {
    TrimEnd(TrimStart(s))
  }

  // ---------------------------------------------------------------------------
  // Integer.parseInt and Integer.toString
  // ---------------------------------------------------------------------------

  predicate IsDigit(c: char) {
    '0' <= c <= '9'
  }

  predicate AllDigits(s: string) {
    forall k :: 0 <= k < |s| ==> IsDigit(s[k])
  }

  /** The value of a string of decimal digits, most significant first. */
  function DigitsValue(s: string): nat
    requires AllDigits(s)
  {
    if s == [] then 0 else 10 * DigitsValue(s[..|s| - 1]) + (s[|s| - 1] as int - '0' as int)
  }

  /** The text `Integer.parseInt` accepts: an optional sign and at least one ASCII digit. */
  predicate IsDecimal(s: string) {
    if s != [] && (s[0] == '-' || s[0] == '+') then |s| > 1 && AllDigits(s[1..])
    else s != [] && AllDigits(s)
  }

  /** The value of a decimal literal, unbounded. */
  function ParseInteger(s: string): (r: Option<int>)
    ensures r.Some? <==> IsDecimal(s)
    ensures r.Some? && s[0] == '-' ==> r.value <= 0
    ensures r.Some? && s[0] != '-' ==> r.value >= 0
  {
    if !IsDecimal(s) then None
    else if s[0] == '-' then Some(-(DigitsValue(s[1..]) as int))
    else if s[0] == '+' then Some(DigitsValue(s[1..]))
    else Some(DigitsValue(s))
  }

  /** `Integer.parseInt(s)`: a decimal literal whose value fits a Java `int`. */
  function ParseInt32(s: string): (r: Option<Int32>)
    ensures r.Some? <==> ParseInteger(s).Some? && -0x8000_0000 <= ParseInteger(s).value < 0x8000_0000
    ensures r.Some? ==> r.value == ParseInteger(s).value
  {
    match ParseInteger(s)
    case Some(v) => if -0x8000_0000 <= v < 0x8000_0000 then Some(v) else None
    case None => None
  }

  function DigitChar(n: nat): (c: char)
    requires n < 10
    ensures IsDigit(c) && c as int - '0' as int == n
  {
    ('0' as int + n) as char
  }

  /** The decimal digits of `n`, without leading zeros. */
  function NatToString(n: nat): (r: string)
    ensures r != [] && AllDigits(r)
    ensures n > 0 ==> r[0] != '0'
  {
    if n < 10 then [DigitChar(n)] else NatToString(n / 10) + [DigitChar(n % 10)]
  }

  /** `Integer.toString(n)`: a minus sign for negative values, then the digits of the magnitude. */
  function IntToString(n: int): (r: string)
    ensures r != [] && r[0] > ' ' && r[|r| - 1] > ' '
    ensures forall k :: 0 <= k < |r| ==> r[k] == '-' || IsDigit(r[k])
  {
    if n < 0 then "-" + NatToString(-n) else NatToString(n)
  }

  lemma {:induction false} NatToStringValue(n: nat)
    ensures DigitsValue(NatToString(n)) == n
  {
    var r := NatToString(n);
    if n >= 10 {
      NatToStringValue(n / 10);
      assert r[..|r| - 1] == NatToString(n / 10);
    }
  }

  /** Parsing undoes printing, for every integer. */
  lemma ParseIntToString(n: int)
    ensures ParseInteger(IntToString(n)) == Some(n)
  {
    NatToStringValue(if n < 0 then -n else n);
    var r := IntToString(n);
    if n < 0 {
      assert r[1..] == NatToString(-n);
    }
  }

  /** `Integer.parseInt` of a printed integer succeeds exactly when the value fits in 32 bits. */
  lemma ParseInt32ToString(n: int)
    ensures ParseInt32(IntToString(n)) == if -0x8000_0000 <= n < 0x8000_0000 then Some(n) else None
  {
    ParseIntToString(n);
  }
}
