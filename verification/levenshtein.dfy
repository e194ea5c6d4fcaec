/** Levenshtein edit distance: the minimum number of single-character insertions, deletions and
    substitutions (each costing 1) that turn one string into the other. The wizard compares the typed
    surname with every surname of the directory by this distance. */
module Levenshtein {

  function Min3(a: nat, b: nat, c: nat): (m: nat)
    ensures m <= a && m <= b && m <= c
    ensures m == a || m == b || m == c
  {
    if a <= b && a <= c then a else if b <= c then b else c
  }

  /** The distance, defined on prefixes: the last characters are deleted, inserted or matched. */
  function Lev(a: string, b: string): nat
    decreases |a| + |b|
  {
    if |a| == 0 then |b|
    else if |b| == 0 then |a|
    else
      Min3(Lev(a[..|a| - 1], b) + 1,
           Lev(a, b[..|b| - 1]) + 1,
           Lev(a[..|a| - 1], b[..|b| - 1]) + (if a[|a| - 1] == b[|b| - 1] then 0 else 1))
  }

  /** A string is at distance 0 from itself. */
  lemma {:induction false} LevSelf(a: string)
    ensures Lev(a, a) == 0
    decreases |a|
  {
    if |a| > 0 {
      LevSelf(a[..|a| - 1]);
    }
  }

  /** Only equal strings are at distance 0. */
  lemma {:induction false} LevZero(a: string, b: string)
    ensures Lev(a, b) == 0 ==> a == b
    decreases |a| + |b|
  {
    if Lev(a, b) == 0 && |a| > 0 && |b| > 0 {
      LevZero(a[..|a| - 1], b[..|b| - 1]);
      assert a == a[..|a| - 1] + [a[|a| - 1]];
      assert b == b[..|b| - 1] + [b[|b| - 1]];
    }
  }

  /** Distance 0 is exactly equality. */
  lemma LevZeroIff(a: string, b: string)
    ensures Lev(a, b) == 0 <==> a == b
  {
    LevZero(a, b);
    if a == b {
      LevSelf(a);
    }
  }

  /** A common suffix never increases the distance. */
  lemma {:induction false} LevCommonSuffix(u: string, v: string, s: string)
    ensures Lev(u + s, v + s) <= Lev(u, v)
    decreases |s|
  {
    if s == [] {
      assert u + s == u && v + s == v;
    } else {
      var init := s[..|s| - 1];
      LevCommonSuffix(u, v, init);
      assert (u + s)[..|u + s| - 1] == u + init;
      assert (v + s)[..|v + s| - 1] == v + init;
      assert (u + s)[|u + s| - 1] == (v + s)[|v + s| - 1];
    }
  }

  /** Changing one character costs exactly one: "Mayer" and "Meyer" are at distance 1. */
  lemma OneSubstitution(p: string, c: char, d: char, s: string)
    ensures Lev(p + [c] + s, p + [d] + s) == if c == d then 0 else 1
  {
    var u, v := p + [c], p + [d];
    LevSelf(p);
    assert u[..|u| - 1] == p && v[..|v| - 1] == p;
    LevCommonSuffix(u, v, s);
    LevZeroIff(u + s, v + s);
    if c != d {
      assert (u + s)[|p|] == c && (v + s)[|p|] == d;
    }
  }

  lemma MayerMeyer()
    ensures Lev("Mayer", "Meyer") == 1
  {
    OneSubstitution("M", 'a', 'e', "yer");
    assert "M" + ['a'] + "yer" == "Mayer" && "M" + ['e'] + "yer" == "Meyer";
  }
}
