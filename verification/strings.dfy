/** String operations of the JavaScript runtime that the bot relies on: `includes`/`indexOf`,
    ASCII case-insensitive matching, `split(" ")`, decimal rendering of ids, digit parsing, and the
    order-preserving de-duplication of `new Set(...)`. Strings are sequences of characters. */
module Strings {
  import opened Wrappers

  /** `p` occurs in `s` starting at position `i`. */
  predicate OccursAt(p: string, s: string, i: int) {
    0 <= i && i + |p| <= |s| && s[i..i + |p|] == p
  }

  /** Occurrences in `s[1..]` are the occurrences in `s` shifted by one. */
  lemma ShiftOccurrence(s: string, p: string)
    requires |s| > 0
    ensures forall j :: 0 <= j ==> (OccursAt(p, s[1..], j) <==> OccursAt(p, s, j + 1))
    ensures forall j :: 1 <= j ==> (OccursAt(p, s, j) <==> OccursAt(p, s[1..], j - 1))
  {
  }

  /** The first position at which `p` occurs in `s`: JavaScript's `s.indexOf(p)`, with `None` for -1. */
  function IndexOf(s: string, p: string): (r: Option<nat>)
    ensures r.Some? ==> OccursAt(p, s, r.value)
    ensures r.Some? ==> forall j :: 0 <= j < r.value ==> !OccursAt(p, s, j)
    ensures r.None? ==> forall j :: !OccursAt(p, s, j)
    decreases |s|
  {
    if |p| <= |s| && s[..|p|] == p then Some(0)
    else if |s| == 0 then None
    else
      ShiftOccurrence(s, p);
      match IndexOf(s[1..], p)
      case None => None
      case Some(k) => Some(k + 1)
  }

  /** JavaScript's `s.includes(p)`. */
  function Contains(s: string, p: string): (r: bool)
    ensures r <==> exists i :: OccursAt(p, s, i)
  {
    IndexOf(s, p).Some?
  }

  /** A pattern whose first character does not appear in `s` does not occur in it. */
  lemma MissingFirstChar(s: string, p: string)
    requires |p| > 0 && p[0] !in s
    ensures !Contains(s, p)
  {
    forall i | 0 <= i < |s|
      ensures !OccursAt(p, s, i)
    {
      assert s[i] in s;
    }
  }

  /** ASCII lower-casing: the canonicalisation a JavaScript `/…/i` regular expression without the
      `u` flag applies to a pattern made of ASCII letters. */
  function LowerChar(c: char): char {
    if 'A' <= c <= 'Z' then (c as int + 32) as char else c
  }

  function Lower(s: string): (r: string)
    ensures |r| == |s|
  {
    seq(|s|, i requires 0 <= i < |s| => LowerChar(s[i]))
  }

  /** Glues pieces back together with `sep` between neighbours: JavaScript's `parts.join(sep)`. */
  function Join(parts: seq<string>, sep: char): string
    requires |parts| > 0
    decreases |parts|
  {
    if |parts| == 1 then parts[0] else parts[0] + [sep] + Join(parts[1..], sep)
  }

  lemma JoinPrepend(c: char, parts: seq<string>, sep: char)
    requires |parts| > 0
    ensures Join([[c] + parts[0]] + parts[1..], sep) == [c] + Join(parts, sep)
  {
    var q := [[c] + parts[0]] + parts[1..];
    if |parts| > 1 {
      assert q[1..] == parts[1..];
    }
  }

  /** JavaScript's `s.split(sep)` for a one-character separator: the maximal separator-free pieces,
      one more than there are separators (so `""` splits into `[""]`). */
  function Split(s: string, sep: char): (parts: seq<string>)
    ensures |parts| > 0
    ensures forall i :: 0 <= i < |parts| ==> sep !in parts[i]
    ensures Join(parts, sep) == s
    decreases |s|
  {
    if |s| == 0 then [""]
    else
      var rest := Split(s[1..], sep);
      assert s == [s[0]] + s[1..];
      if s[0] == sep then
        assert ([""] + rest)[1..] == rest;
        [""] + rest
      else
        JoinPrepend(s[0], rest, sep);
        [[s[0]] + rest[0]] + rest[1..]
  }

  lemma {:induction false} SplitWithoutSeparator(s: string, sep: char)
    requires sep !in s
    ensures Split(s, sep) == [s]
    decreases |s|
  {
    if |s| > 0 {
      SplitWithoutSeparator(s[1..], sep);
      assert [s[0]] + s[1..] == s;
    }
  }

  lemma {:induction false} SplitAfterPiece(a: string, b: string, sep: char)
    requires sep !in a
    ensures Split(a + [sep] + b, sep) == [a] + Split(b, sep)
    decreases |a|
  {
    var s := a + [sep] + b;
    if |a| == 0 {
      assert s[1..] == b;
    } else {
      assert s[1..] == a[1..] + [sep] + b;
      SplitAfterPiece(a[1..], b, sep);
      assert [a[0]] + a[1..] == a;
    }
  }

  /** Splitting at one separator splits the two sides independently. */
  lemma {:induction false} SplitAppend(a: string, b: string, sep: char)
    ensures Split(a + [sep] + b, sep) == Split(a, sep) + Split(b, sep)
    decreases |a|
  {
    var s := a + [sep] + b;
    if |a| == 0 {
      assert s[1..] == b;
    } else {
      assert s[0] == a[0] && s[1..] == a[1..] + [sep] + b;
      SplitUnfold(s, sep);
      SplitUnfold(a, sep);
      SplitAppend(a[1..], b, sep);
      SplitStepAppend(a[0], Split(a[1..], sep), Split(b, sep), sep);
    }
  }

  /** One step of `split`: a separator starts a new piece, any other character extends the first. */
  function SplitStep(c: char, rest: seq<string>, sep: char): seq<string>
    requires |rest| > 0
  {
    if c == sep then [""] + rest else [[c] + rest[0]] + rest[1..]
  }

  lemma SplitUnfold(s: string, sep: char)
    requires |s| > 0
    ensures Split(s, sep) == SplitStep(s[0], Split(s[1..], sep), sep)
  {
  }

  /** The step only touches the first piece, so pieces appended behind it stay as they are. */
  lemma SplitStepAppend(c: char, x: seq<string>, y: seq<string>, sep: char)
    requires |x| > 0
    ensures SplitStep(c, x + y, sep) == SplitStep(c, x, sep) + y
  {
    if c == sep {
      assert ([""] + x) + y == [""] + (x + y);
    } else {
      var head := [c] + x[0];
      assert (x + y)[0] == x[0] && (x + y)[1..] == x[1..] + y;
      assert ([head] + x[1..]) + y == [head] + (x[1..] + y);
    }
  }

  /** Splitting is the inverse of joining separator-free pieces: `split` recovers exactly the pieces. */
  lemma {:induction false} SplitJoin(parts: seq<string>, sep: char)
    requires |parts| > 0
    requires forall i :: 0 <= i < |parts| ==> sep !in parts[i]
    ensures Split(Join(parts, sep), sep) == parts
    decreases |parts|
  {
    if |parts| == 1 {
      SplitWithoutSeparator(parts[0], sep);
    } else {
      SplitJoin(parts[1..], sep);
      SplitAfterPiece(parts[0], Join(parts[1..], sep), sep);
      assert [parts[0]] + parts[1..] == parts;
    }
  }

  /** The elements of `s` without repeats, each at its first occurrence: `[...new Set(s)]`. */
  function Distinct<T(==)>(s: seq<T>): (r: seq<T>)
    ensures forall i :: 0 <= i < |r| ==> r[i] in s
    ensures forall k :: 0 <= k < |s| ==> s[k] in r
    ensures forall i, j :: 0 <= i < j < |r| ==> r[i] != r[j]
    ensures forall i, j, k :: 0 <= i < j < |r| && 0 <= k < |s| && s[k] == r[j] ==> r[i] in s[..k]
    decreases |s|
  {
    if s == [] then []
    else
      var d := Distinct(s[..|s| - 1]);
      assert forall k :: 0 <= k < |s| - 1 ==> s[k] == s[..|s| - 1][k];
      DistinctStepContents(s, d);
      DistinctStepOrder(s, s[..|s| - 1], d);
      if s[|s| - 1] in d then d else d + [s[|s| - 1]]
  }

  /** Adding the last element of `s` to the distinct elements `d` of the rest, unless it is already
      there, gives exactly the elements of `s`. */
  lemma DistinctStepContents<T>(s: seq<T>, d: seq<T>)
    requires s != []
    requires forall i :: 0 <= i < |d| ==> d[i] in s[..|s| - 1]
    requires forall k :: 0 <= k < |s| - 1 ==> s[k] in d
    ensures var x := s[|s| - 1]; var r := if x in d then d else d + [x];
      (forall i :: 0 <= i < |r| ==> r[i] in s) && (forall k :: 0 <= k < |s| ==> s[k] in r)
  {
  }

  /** The same step keeps first-seen order. */
  lemma DistinctStepOrder<T>(s: seq<T>, init: seq<T>, d: seq<T>)
    requires s != [] && init == s[..|s| - 1]
    requires forall i :: 0 <= i < |d| ==> d[i] in init
    requires forall k :: 0 <= k < |init| ==> init[k] in d
    requires forall i, j, k :: 0 <= i < j < |d| && 0 <= k < |init| && init[k] == d[j] ==> d[i] in init[..k]
    ensures var x := s[|s| - 1]; var r := if x in d then d else d + [x];
      forall i, j, k :: 0 <= i < j < |r| && 0 <= k < |s| && s[k] == r[j] ==> r[i] in s[..k]
  {
    assert forall k :: 0 <= k < |init| ==> s[..k] == init[..k];
    assert forall k :: 0 <= k < |init| ==> s[k] == init[k];
  }

  /** An element listed before `r[j]` occurs in `s` before any occurrence of `r[j]`. */
  lemma DistinctOrder<T>(s: seq<T>, r: seq<T>, i: nat, j: nat, p: nat)
    requires r == Distinct(s)
    requires i < j < |r| && p < |s| && s[p] == r[j]
    ensures r[i] in s[..p]
  {
  }

  /** Appending one element to the input appends it to the output iff it is new. */
  lemma DistinctSnoc<T>(s: seq<T>, x: T)
    ensures Distinct(s + [x]) == if x in Distinct(s) then Distinct(s) else Distinct(s) + [x]
  {
    assert (s + [x])[..|s|] == s;
  }

  predicate IsDigit(c: char) {
    '0' <= c <= '9'
  }

  predicate AllDigits(s: string) {
    forall i :: 0 <= i < |s| ==> IsDigit(s[i])
  }

  function DigitValue(c: char): nat
    requires IsDigit(c)
  {
    c as int - '0' as int
  }

  function DigitChar(d: nat): (c: char)
    requires d < 10
    ensures IsDigit(c) && DigitValue(c) == d
  {
    ('0' as int + d) as char
  }

  /** The number a string of decimal digits denotes (JavaScript's numeric coercion of such a string). */
  function DecimalValue(s: string): nat
    requires AllDigits(s)
    decreases |s|
  {
    if |s| == 0 then 0 else DecimalValue(s[..|s| - 1]) * 10 + DigitValue(s[|s| - 1])
  }

  /** Decimal rendering without leading zeros: JavaScript's `n.toString()` for a non-negative integer. */
  function NatToString(n: nat): (r: string)
    ensures |r| > 0 && AllDigits(r)
    ensures n >= 10 ==> |r| >= 2
    decreases n
  {
    if n < 10 then [DigitChar(n)] else NatToString(n / 10) + [DigitChar(n % 10)]
  }

  /** Parsing the rendering gives the number back. */
  lemma {:induction false} NatToStringRoundTrip(n: nat)
    ensures DecimalValue(NatToString(n)) == n
    decreases n
  {
    var s := NatToString(n);
    if n >= 10 {
      NatToStringRoundTrip(n / 10);
      assert s[..|s| - 1] == NatToString(n / 10);
    } else {
      assert s[..0] == [];
    }
  }

  /** Distinct numbers have distinct renderings. */
  lemma NatToStringInjective(a: nat, b: nat)
    ensures NatToString(a) == NatToString(b) ==> a == b
  {
    NatToStringRoundTrip(a);
    NatToStringRoundTrip(b);
  }
}
