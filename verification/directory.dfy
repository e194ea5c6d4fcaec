/** The professor directory of the appointment wizard (src/components/appointmentProfessor.js):
    the catalog fetched at start-up is filtered to professors and grouped by surname, and a typed
    surname is resolved to the group of the nearest surname by edit distance. */
module Directory {
  import opened Wrappers
  import opened Strings
  import opened Levenshtein

  /** A record of the people catalog. `id` is the numeric id the button callbacks carry. */
  datatype Person = Person(
    id: nat,
    firstName: string,
    lastName: string,
    academicDegree: string,
    imageUrl: string,
    isDeleted: bool)

  /** The records that enter the directory: not deleted, and "Prof" occurs in the degree
      (case-sensitively). */
  predicate IsProfessor(p: Person): (r: bool)
    ensures r <==> !p.isDeleted && exists i :: OccursAt("Prof", p.academicDegree, i)
  {
    !p.isDeleted && Contains(p.academicDegree, "Prof")
  }

  /** One property of the surname-keyed object: a surname and the records filed under it.
      The directory is the list of these in the object's key order, which is insertion order. */
  datatype Entry = Entry(surname: string, people: seq<Person>)

  predicate HasKey(idx: seq<Entry>, k: string) {
    exists i :: 0 <= i < |idx| && idx[i].surname == k
  }

  predicate DistinctKeys(idx: seq<Entry>) {
    forall i, j :: 0 <= i < j < |idx| ==> idx[i].surname != idx[j].surname
  }

  /** The position of the key `k`, if the directory has it. */
  function KeyIndex(idx: seq<Entry>, k: string): (r: Option<nat>)
    ensures r.Some? ==> r.value < |idx| && idx[r.value].surname == k
    ensures r.None? <==> !HasKey(idx, k)
    decreases |idx|
  {
    if idx == [] then None
    else if idx[|idx| - 1].surname == k then Some(|idx| - 1)
    else
      var r := KeyIndex(idx[..|idx| - 1], k);
      assert forall i :: 0 <= i < |idx| - 1 ==> idx[..|idx| - 1][i] == idx[i];
      r
  }

  /** One step of the grouping `reduce`: append `p` to the group of its surname, or open a new group
      at the end when the surname is new. */
  function File(idx: seq<Entry>, p: Person): (r: seq<Entry>)
    requires DistinctKeys(idx)
    ensures DistinctKeys(r)
    ensures |r| == (if HasKey(idx, p.lastName) then |idx| else |idx| + 1)
    ensures forall i :: 0 <= i < |idx| ==> r[i].surname == idx[i].surname
    ensures forall i :: 0 <= i < |idx| ==>
      r[i].people == idx[i].people + (if idx[i].surname == p.lastName then [p] else [])
    ensures !HasKey(idx, p.lastName) ==> r[|idx|] == Entry(p.lastName, [p])
  {
    match KeyIndex(idx, p.lastName)
    case Some(k) => idx[k := Entry(idx[k].surname, idx[k].people + [p])]
    case None => idx + [Entry(p.lastName, [p])]
  }

  /** The directory built from the fetched catalog: the `filter` and the grouping `reduce` of
      `initialize`, fused into one left fold. */
  function BuildIndex(all: seq<Person>): (idx: seq<Entry>)
    ensures DistinctKeys(idx)
    decreases |all|
  {
    if all == [] then []
    else
      var idx := BuildIndex(all[..|all| - 1]);
      if IsProfessor(all[|all| - 1]) then File(idx, all[|all| - 1]) else idx
  }

  /** Reference definition: the professors of `all` whose surname is exactly `k`, in catalog order. */
  function Filed(all: seq<Person>, k: string): (r: seq<Person>)
    ensures forall j :: 0 <= j < |r| ==> r[j] in all && IsProfessor(r[j]) && r[j].lastName == k
    decreases |all|
  {
    if all == [] then []
    else
      var last := all[|all| - 1];
      Filed(all[..|all| - 1], k) + (if IsProfessor(last) && last.lastName == k then [last] else [])
  }

  /** `idx` files exactly the professors of `all`: each group is the list of professors with exactly
      that surname, in catalog order, and a surname is a key iff some professor carries it. */
  ghost predicate FilesExactly(idx: seq<Entry>, all: seq<Person>) {
    && (forall i :: 0 <= i < |idx| ==> idx[i].people == Filed(all, idx[i].surname))
    && (forall k :: HasKey(idx, k) <==> Filed(all, k) != [])
  }

  lemma FiledSnoc(init: seq<Person>, p: Person, k: string)
    ensures Filed(init + [p], k) == Filed(init, k) + (if IsProfessor(p) && p.lastName == k then [p] else [])
  {
    var all := init + [p];
    assert all[..|all| - 1] == init;
  }

  /** Filing one more professor keeps every group exact. */
  lemma FileKeepsGroups(prev: seq<Entry>, init: seq<Person>, p: Person)
    requires DistinctKeys(prev) && FilesExactly(prev, init) && IsProfessor(p)
    ensures forall i :: 0 <= i < |File(prev, p)| ==>
      File(prev, p)[i].people == Filed(init + [p], File(prev, p)[i].surname)
  {
    var idx := File(prev, p);
    forall i | 0 <= i < |idx| ensures idx[i].people == Filed(init + [p], idx[i].surname) {
      FiledSnoc(init, p, idx[i].surname);
      if i >= |prev| {
        assert !HasKey(prev, p.lastName);
      }
    }
  }

  /** Filing one more professor keeps the key set exact. */
  lemma FileKeepsKeys(prev: seq<Entry>, init: seq<Person>, p: Person)
    requires DistinctKeys(prev) && FilesExactly(prev, init) && IsProfessor(p)
    ensures forall k :: HasKey(File(prev, p), k) <==> Filed(init + [p], k) != []
  {
    var idx := File(prev, p);
    forall k ensures HasKey(idx, k) <==> Filed(init + [p], k) != [] {
      FiledSnoc(init, p, k);
      if HasKey(idx, k) && k != p.lastName {
        var i :| 0 <= i < |idx| && idx[i].surname == k;
        assert i < |prev| && prev[i].surname == k;
      }
      if HasKey(prev, k) {
        var i :| 0 <= i < |prev| && prev[i].surname == k;
        assert idx[i].surname == k;
      }
      if k == p.lastName && !HasKey(prev, k) {
        assert idx[|prev|].surname == k;
      }
    }
  }

  /** One more catalog record keeps the directory exact. */
  lemma FileKeepsExact(prev: seq<Entry>, init: seq<Person>, p: Person)
    requires DistinctKeys(prev) && FilesExactly(prev, init)
    ensures FilesExactly(if IsProfessor(p) then File(prev, p) else prev, init + [p])
  {
    if IsProfessor(p) {
      FileKeepsGroups(prev, init, p);
      FileKeepsKeys(prev, init, p);
    } else {
      forall k ensures Filed(init + [p], k) == Filed(init, k) {
        FiledSnoc(init, p, k);
      }
    }
  }

  /** The directory holds exactly the professors of the catalog, grouped by exact surname in catalog
      order. */
  lemma {:induction false} IndexContents(all: seq<Person>)
    ensures FilesExactly(BuildIndex(all), all)
    decreases |all|
  {
    if all != [] {
      var init, last := all[..|all| - 1], all[|all| - 1];
      IndexContents(init);
      FileKeepsExact(BuildIndex(init), init, last);
      assert init + [last] == all;
    }
  }

  /** Every group of the directory is non-empty and holds only professors filed under their exact
      surname. */
  lemma GroupsWellFormed(all: seq<Person>)
    ensures forall i :: 0 <= i < |BuildIndex(all)| ==> BuildIndex(all)[i].people != []
    ensures forall i, j :: 0 <= i < |BuildIndex(all)| && 0 <= j < |BuildIndex(all)[i].people| ==>
      var p := BuildIndex(all)[i].people[j];
      p in all && IsProfessor(p) && p.lastName == BuildIndex(all)[i].surname
  {
    IndexContents(all);
    var idx := BuildIndex(all);
    forall i | 0 <= i < |idx| ensures idx[i].people != [] {
      assert HasKey(idx, idx[i].surname);
    }
  }

  function Surnames(idx: seq<Entry>): (ks: seq<string>)
    ensures |ks| == |idx|
  {
    seq(|idx|, i requires 0 <= i < |idx| => idx[i].surname)
  }

  /** The surnames of the catalog's professors, in catalog order, repeats included. */
  function ProfessorSurnames(all: seq<Person>): seq<string>
    decreases |all|
  {
    if all == [] then []
    else
      var last := all[|all| - 1];
      ProfessorSurnames(all[..|all| - 1]) + (if IsProfessor(last) then [last.lastName] else [])
  }

  lemma HasKeyIffSurname(idx: seq<Entry>, k: string)
    ensures HasKey(idx, k) <==> k in Surnames(idx)
  {
    if k in Surnames(idx) {
      var i :| 0 <= i < |idx| && Surnames(idx)[i] == k;
      assert idx[i].surname == k;
    }
    if HasKey(idx, k) {
      var i :| 0 <= i < |idx| && idx[i].surname == k;
      assert Surnames(idx)[i] == k;
    }
  }

  /** Filing adds the surname at the end of the keys iff it is new. */
  lemma FileSurnames(prev: seq<Entry>, p: Person)
    requires DistinctKeys(prev)
    ensures Surnames(File(prev, p))
         == if p.lastName in Surnames(prev) then Surnames(prev) else Surnames(prev) + [p.lastName]
  {
    HasKeyIffSurname(prev, p.lastName);
    var idx := File(prev, p);
    if HasKey(prev, p.lastName) {
      assert Surnames(idx) == Surnames(prev);
    } else {
      assert Surnames(idx) == Surnames(prev) + [p.lastName];
    }
  }

  /** The directory's keys are the professors' surnames in order of first occurrence; this is the
      order in which ties between equally near surnames are broken. */
  lemma {:induction false} KeyOrder(all: seq<Person>)
    ensures Surnames(BuildIndex(all)) == Distinct(ProfessorSurnames(all))
    decreases |all|
  {
    if all != [] {
      var init, p := all[..|all| - 1], all[|all| - 1];
      KeyOrder(init);
      assert BuildIndex(all) == if IsProfessor(p) then File(BuildIndex(init), p) else BuildIndex(init);
      assert ProfessorSurnames(all)
          == ProfessorSurnames(init) + (if IsProfessor(p) then [p.lastName] else []);
      if IsProfessor(p) {
        FileSurnames(BuildIndex(init), p);
        DistinctSnoc(ProfessorSurnames(init), p.lastName);
      } else {
        assert ProfessorSurnames(all) == ProfessorSurnames(init);
      }
    }
  }

  /** Position `i` holds a minimum of `d`, and every earlier value is strictly larger. */
  predicate FirstMinAt(d: seq<int>, i: int) {
    && 0 <= i < |d|
    && (forall j :: 0 <= j < |d| ==> d[i] <= d[j])
    && (forall j :: 0 <= j < i ==> d[i] < d[j])
  }

  /** The first position of a minimum, found by a left-to-right scan that only moves on a strictly
      smaller value. */
  function FirstMin(d: seq<int>): (r: nat)
    requires d != []
    ensures FirstMinAt(d, r)
    decreases |d|
  {
    if |d| == 1 then 0
    else
      var n := |d| - 1;
      var r := FirstMin(d[..n]);
      assert forall j :: 0 <= j < n ==> d[..n][j] == d[j];
      if d[n] < d[r] then n else r
  }

  /** The Levenshtein distance from the query to each surname of the directory, in key order. */
  function Distances(idx: seq<Entry>, q: string): seq<int> {
    seq(|idx|, j requires 0 <= j < |idx| => Lev(q, idx[j].surname))
  }

  /** Entry `i` holds a surname nearest to `q`, and every earlier surname is strictly farther. */
  predicate NearestAt(idx: seq<Entry>, q: string, i: int) {
    FirstMinAt(Distances(idx, q), i)
  }

  /** `getClosest.custom` with the Levenshtein comparator: the position of the first surname at
      minimum distance from the query. */
  function Nearest(idx: seq<Entry>, q: string): (r: nat)
    requires idx != []
    ensures NearestAt(idx, q, r)
  {
    FirstMin(Distances(idx, q))
  }

  /** The candidate group for a typed surname; `None` when the directory is empty (the source then
      reads `.length` of `undefined`). */
  function Resolve(idx: seq<Entry>, q: string): (r: Option<seq<Person>>)
    ensures r.None? <==> idx == []
    ensures r.Some? ==> exists i :: NearestAt(idx, q, i) && r.value == idx[i].people
  {
    if idx == [] then None else Some(idx[Nearest(idx, q)].people)
  }

  /** Typing a surname that is a key exactly returns that surname's group. */
  lemma ResolveExact(idx: seq<Entry>, q: string, i: nat)
    requires DistinctKeys(idx)
    requires i < |idx| && idx[i].surname == q
    ensures Resolve(idx, q) == Some(idx[i].people)
  {
    var n := Nearest(idx, q);
    var d := Distances(idx, q);
    LevSelf(q);
    assert d[i] == Lev(q, q) == 0;
    assert d[n] == Lev(q, idx[n].surname) == 0;
    LevZero(q, idx[n].surname);
  }

  /** On the directory built from a catalog, resolution yields a non-empty group: all professors of
      the catalog carrying the surname nearest to the query. */
  lemma ResolveInBuiltIndex(all: seq<Person>, q: string)
    requires BuildIndex(all) != []
    ensures Resolve(BuildIndex(all), q).Some?
    ensures Resolve(BuildIndex(all), q).value != []
    ensures exists i :: (NearestAt(BuildIndex(all), q, i)
      && Resolve(BuildIndex(all), q).value == Filed(all, BuildIndex(all)[i].surname))
  {
    IndexContents(all);
    GroupsWellFormed(all);
  }
}
