/** The grouping step of `getAllCoursesAndFaculties` (src/util.js): the semester list of the university
    timetable service becomes a catalogue faculty → course name → semesters, from which the settings
    menu offers faculties, courses and semesters. The HTTP request itself is not modelled; the list
    it returns is the input. */
module Courses {
  import opened Wrappers
  import opened Strings

  datatype Faculty = Faculty(id: Option<int>)

  datatype Course = Course(name: string, faculty: Option<Faculty>)

  /** One element of the service's semester list; absent JSON fields are `None`. */
  datatype RawSemester = RawSemester(id: int, semesterNumber: int, iCalLink: Option<string>,
                                     name: string, course: Option<Course>)

  /** What the catalogue stores per semester. */
  datatype SemesterEntry = SemesterEntry(id: int, semester: int, iCalLink: Option<string>, name: string)

  type Catalog = map<int, map<string, seq<SemesterEntry>>>

  /** Telegram's limit on button data forces course names to at most this many characters. */
  const MaxCourseName: nat := 45

  const MasterName: string := "Wirtschaftsinformatik (Master)"
  const BachelorName: string := "Wirtschaftsinformatik (Bachelor)"
  const BusinessName: string := "International IT Business (Bachelor)"

  /** `current.course?.faculty?.id`, when it is truthy: present and not 0. */
  function FacultyOf(s: RawSemester): Option<int> {
    if s.course.Some? && s.course.value.faculty.Some? && s.course.value.faculty.value.id.Some?
       && s.course.value.faculty.value.id.value != 0
    then Some(s.course.value.faculty.value.id.value)
    else None
  }

  /** `current.iCalFileHttpLink?.includes(code)`. */
  predicate LinkHas(s: RawSemester, code: string) {
    s.iCalLink.Some? && Contains(s.iCalLink.value, code)
  }

  /** JavaScript's `name.slice(0, n)`. */
  function Prefix(name: string, n: nat): (r: string)
    ensures r <= name
    ensures |r| == if |name| <= n then |name| else n
  {
    if |name| <= n then name else name[..n]
  }

  /** Where a semester is filed. */
  datatype Slot = Slot(faculty: int, course: string)

  /** The faculty and (renamed, shortened) course a semester is filed under, or `None` when it is
      ignored: entries without a faculty, and entries of the data-science programme (link code
      `DSCB`) that none of the three business-informatics codes claims first. */
  function Placement(s: RawSemester): (r: Option<Slot>)
    ensures r.Some? ==> |r.value.course| <= MaxCourseName && Some(r.value.faculty) == FacultyOf(s)
  {
    match FacultyOf(s)
    case None => None
    case Some(f) =>
      if LinkHas(s, "WIIM") then Some(Slot(f, MasterName))
      else if LinkHas(s, "WIIB") then Some(Slot(f, BachelorName))
      else if LinkHas(s, "IIBB") then Some(Slot(f, BusinessName))
      else if LinkHas(s, "DSCB") then None
      else Some(Slot(f, Prefix(s.course.value.name, MaxCourseName)))
  }

  /** A semester is ignored exactly when it has no truthy faculty id, or its link names the
      data-science programme and none of the three business-informatics codes. */
  lemma SkipRule(s: RawSemester)
    ensures Placement(s).None? <==>
      FacultyOf(s).None? || (LinkHas(s, "DSCB") && !LinkHas(s, "WIIM") && !LinkHas(s, "WIIB") && !LinkHas(s, "IIBB"))
  {
  }

  /** The renaming codes are tried in the order WIIM, WIIB, IIBB, all before the data-science skip;
      any other course keeps its own name, cut to 45 characters. */
  lemma RenamePrecedence(s: RawSemester)
    requires FacultyOf(s).Some?
    ensures LinkHas(s, "WIIM") ==> Placement(s) == Some(Slot(FacultyOf(s).value, MasterName))
    ensures !LinkHas(s, "WIIM") && LinkHas(s, "WIIB") ==> Placement(s) == Some(Slot(FacultyOf(s).value, BachelorName))
    ensures !LinkHas(s, "WIIM") && !LinkHas(s, "WIIB") && LinkHas(s, "IIBB") ==>
      Placement(s) == Some(Slot(FacultyOf(s).value, BusinessName))
    ensures !LinkHas(s, "WIIM") && !LinkHas(s, "WIIB") && !LinkHas(s, "IIBB") && !LinkHas(s, "DSCB") ==>
      && s.course.Some?
      && Placement(s).Some? && Placement(s).value.faculty == FacultyOf(s).value
      && Placement(s).value.course <= s.course.value.name
      && |Placement(s).value.course| == if |s.course.value.name| <= MaxCourseName then |s.course.value.name| else MaxCourseName
  {
  }

  /** A link carrying both WIIB and DSCB is filed under the bachelor's programme. */
  lemma BachelorBeforeDataScience(f: int, name: string)
    requires f != 0
    ensures var s := RawSemester(1, 1, Some("WIIB-DSCB"), "x", Some(Course(name, Some(Faculty(Some(f))))));
      Placement(s) == Some(Slot(f, BachelorName))
  {
    var link := "WIIB-DSCB";
    assert OccursAt("WIIB", link, 0);
    forall i | 0 <= i < |link| ensures !OccursAt("WIIM", link, i) {
      if i == 0 {
        assert link[3] != "WIIM"[3];
      } else {
        assert link[i] != 'W';
      }
    }
  }

  function EntryOf(s: RawSemester): SemesterEntry {
    SemesterEntry(s.id, s.semesterNumber, s.iCalLink, s.name)
  }

  /** Some entry of the list is for semester number `n`. */
  predicate HasSemester(es: seq<SemesterEntry>, n: int) {
    exists i :: 0 <= i < |es| && es[i].semester == n
  }

  predicate Has(cat: Catalog, f: int, c: string) {
    f in cat && c in cat[f]
  }

  /** The catalogue's shape: no faculty without a course, no course without a semester, no course
      name over the limit. */
  predicate WellShaped(cat: Catalog) {
    forall f :: f in cat ==>
      |cat[f]| > 0 && forall c :: c in cat[f] ==> |cat[f][c]| > 0 && |c| <= MaxCourseName
  }

  /** Files entry `e` under course `c` of faculty `f`, unless an entry with the same semester number
      is there already. */
  function File(cat: Catalog, f: int, c: string, e: SemesterEntry): (r: Catalog)
    requires |c| <= MaxCourseName
    requires WellShaped(cat)
    ensures WellShaped(r)
  {
    if f in cat then
      if c in cat[f] then
        if HasSemester(cat[f][c], e.semester) then cat
        else cat[f := cat[f][c := cat[f][c] + [e]]]
      else cat[f := cat[f][c := [e]]]
    else cat[f := map[c := [e]]]
  }

  /** Filing touches one course: it is present afterwards, its list gains `e` unless the semester
      number is taken, and every other course keeps its list. */
  lemma FileAt(cat: Catalog, f: int, c: string, e: SemesterEntry, g: int, d: string)
    requires |c| <= MaxCourseName
    requires WellShaped(cat)
    ensures Has(File(cat, f, c, e), g, d) <==> Has(cat, g, d) || (g == f && d == c)
    ensures Has(cat, g, d) && (g != f || d != c) ==> File(cat, f, c, e)[g][d] == cat[g][d]
    ensures Has(File(cat, f, c, e), f, c) && File(cat, f, c, e)[f][c] ==
      if !Has(cat, f, c) then [e]
      else if HasSemester(cat[f][c], e.semester) then cat[f][c]
      else cat[f][c] + [e]
  {
    var r := File(cat, f, c, e);
    if !Has(cat, f, c) {
      assert r[f][c] == [e];
    } else if !HasSemester(cat[f][c], e.semester) {
      assert r == cat[f := cat[f][c := cat[f][c] + [e]]];
    }
  }

  /** One step of the `reduce`: file the semester unless it is ignored. */
  function AddSemester(cat: Catalog, s: RawSemester): (r: Catalog)
    requires WellShaped(cat)
    ensures WellShaped(r)
    ensures Placement(s).None? ==> r == cat
    ensures Placement(s).Some? ==> Has(r, Placement(s).value.faculty, Placement(s).value.course)
  {
    match Placement(s)
    case None => cat
    case Some(Slot(f, c)) =>
      FileAt(cat, f, c, EntryOf(s), f, c);
      File(cat, f, c, EntryOf(s))
  }

  /** `coursesByFaculty`: the semesters filed one after the other. */
  function GroupSemesters(ss: seq<RawSemester>): (cat: Catalog)
    ensures WellShaped(cat)
    decreases |ss|
  {
    if ss == [] then map[]
    else AddSemester(GroupSemesters(ss[..|ss| - 1]), ss[|ss| - 1])
  }

  // ----- an independent description of the catalogue

  /** The entries of the semesters filed under faculty `f` and course `c`, in list order. */
  function Slotted(ss: seq<RawSemester>, f: int, c: string): seq<SemesterEntry>
    decreases |ss|
  {
    if ss == [] then []
    else
      Slotted(ss[..|ss| - 1], f, c)
      + (if Placement(ss[|ss| - 1]) == Some(Slot(f, c)) then [EntryOf(ss[|ss| - 1])] else [])
  }

  /** The first entry for each semester number, in order. */
  function FirstPerSemester(es: seq<SemesterEntry>): (r: seq<SemesterEntry>)
    ensures forall i :: 0 <= i < |r| ==> r[i] in es
    ensures forall i, j :: 0 <= i < j < |r| ==> r[i].semester != r[j].semester
    decreases |es|
  {
    if es == [] then []
    else
      var d := FirstPerSemester(es[..|es| - 1]);
      if HasSemester(d, es[|es| - 1].semester) then d else d + [es[|es| - 1]]
  }

  /** Every semester number of the input is kept. */
  lemma {:induction false} FirstPerSemesterComplete(es: seq<SemesterEntry>, k: nat)
    requires k < |es|
    ensures HasSemester(FirstPerSemester(es), es[k].semester)
    decreases |es|
  {
    var init, last := es[..|es| - 1], es[|es| - 1];
    var d := FirstPerSemester(init);
    if k < |init| {
      FirstPerSemesterComplete(init, k);
      assert es[k] == init[k];
      var j :| 0 <= j < |d| && d[j].semester == es[k].semester;
      assert FirstPerSemester(es)[j] == d[j];
    } else if !HasSemester(d, last.semester) {
      assert FirstPerSemester(es)[|d|] == last;
    }
  }

  /** The entry kept for a semester number is the first one with that number. */
  lemma {:induction false} FirstPerSemesterFirst(es: seq<SemesterEntry>, i: nat, k: nat)
    requires i < |FirstPerSemester(es)| && k < |es| && es[k].semester == FirstPerSemester(es)[i].semester
    ensures FirstPerSemester(es)[i] in es[..k + 1]
    decreases |es|
  {
    var init, last := es[..|es| - 1], es[|es| - 1];
    var d := FirstPerSemester(init);
    var r := FirstPerSemester(es);
    if i < |d| {
      assert r[i] == d[i];
      if k < |init| {
        assert es[k] == init[k];
        FirstPerSemesterFirst(init, i, k);
        assert init[..k + 1] == es[..k + 1];
      } else {
        assert d[i] in init;
        assert init == es[..k];
      }
    } else {
      assert r[i] == last && !HasSemester(d, last.semester);
      if k < |init| {
        assert es[k] == init[k];
        FirstPerSemesterComplete(init, k);
        assert false;
      }
    }
  }

  /** The catalogue holds a course of a faculty exactly when some semester is filed there, and then
      its list is the first semester of each number among those, in the order of the input. */
  lemma {:induction false} GroupingContents(ss: seq<RawSemester>, f: int, c: string)
    ensures Has(GroupSemesters(ss), f, c) <==> Slotted(ss, f, c) != []
    ensures Has(GroupSemesters(ss), f, c) ==> GroupSemesters(ss)[f][c] == FirstPerSemester(Slotted(ss, f, c))
    decreases |ss|
  {
    if ss != [] {
      var init, last := ss[..|ss| - 1], ss[|ss| - 1];
      GroupingContents(init, f, c);
      var cat := GroupSemesters(init);
      var es := Slotted(init, f, c);
      assert GroupSemesters(ss) == AddSemester(cat, last);
      match Placement(last)
      case None =>
        assert Slotted(ss, f, c) == es;
      case Some(slot) =>
        FileAt(cat, slot.faculty, slot.course, EntryOf(last), f, c);
        if slot == Slot(f, c) {
          FirstPerSemesterSnoc(es, EntryOf(last));
          assert Slotted(ss, f, c) == es + [EntryOf(last)];
        } else {
          assert Slotted(ss, f, c) == es;
        }
    }
  }

  lemma FirstPerSemesterSnoc(es: seq<SemesterEntry>, e: SemesterEntry)
    ensures FirstPerSemester(es + [e])
         == if HasSemester(FirstPerSemester(es), e.semester) then FirstPerSemester(es) else FirstPerSemester(es) + [e]
  {
    assert (es + [e])[..|es|] == es;
  }

  /** A course's semesters have pairwise distinct numbers. */
  lemma SemestersDistinct(ss: seq<RawSemester>, f: int, c: string, i: nat, j: nat)
    requires Has(GroupSemesters(ss), f, c)
    requires i < j < |GroupSemesters(ss)[f][c]|
    ensures GroupSemesters(ss)[f][c][i].semester != GroupSemesters(ss)[f][c][j].semester
  {
    GroupingContents(ss, f, c);
  }

  /** Every semester number filed under a course appears in its list. */
  lemma SemesterListed(ss: seq<RawSemester>, f: int, c: string, k: nat)
    requires k < |ss| && Placement(ss[k]) == Some(Slot(f, c))
    ensures Has(GroupSemesters(ss), f, c)
    ensures HasSemester(GroupSemesters(ss)[f][c], ss[k].semesterNumber)
  {
    SlottedHas(ss, f, c, k);
    GroupingContents(ss, f, c);
    var es := Slotted(ss, f, c);
    var j :| 0 <= j < |es| && es[j] == EntryOf(ss[k]);
    FirstPerSemesterComplete(es, j);
  }

  /** A semester filed under a slot contributes its entry to that slot's list. */
  lemma {:induction false} SlottedHas(ss: seq<RawSemester>, f: int, c: string, k: nat)
    requires k < |ss| && Placement(ss[k]) == Some(Slot(f, c))
    ensures EntryOf(ss[k]) in Slotted(ss, f, c)
    decreases |ss|
  {
    if k < |ss| - 1 {
      SlottedHas(ss[..|ss| - 1], f, c, k);
    }
  }

  // ----- allFaculties

  /** The truthy faculty ids of the list, in order, with repeats. */
  function FacultyIds(ss: seq<RawSemester>): (r: seq<int>)
    ensures |r| <= |ss|
    ensures forall k :: 0 <= k < |r| ==> r[k] != 0
    decreases |ss|
  {
    if ss == [] then [] else FacultyIds(ss[..|ss| - 1]) + IdOf(ss[|ss| - 1])
  }

  /** The collected ids are exactly the truthy faculty ids of the list. */
  lemma {:induction false} FacultyIdsMembers(ss: seq<RawSemester>)
    ensures forall f :: f in FacultyIds(ss) <==> exists k :: 0 <= k < |ss| && FacultyOf(ss[k]) == Some(f)
    decreases |ss|
  {
    if ss != [] {
      var init, last := ss[..|ss| - 1], ss[|ss| - 1];
      FacultyIdsMembers(init);
      forall f ensures f in FacultyIds(ss) <==> exists k :: 0 <= k < |ss| && FacultyOf(ss[k]) == Some(f) {
        if f in FacultyIds(init) {
          var k :| 0 <= k < |init| && FacultyOf(init[k]) == Some(f);
          assert ss[k] == init[k];
        }
        if exists k :: 0 <= k < |ss| && FacultyOf(ss[k]) == Some(f) {
          var k :| 0 <= k < |ss| && FacultyOf(ss[k]) == Some(f);
          if k < |init| {
            assert init[k] == ss[k];
          }
        }
      }
    }
  }

  /** The truthy faculty id of one semester, as a list of at most one element. */
  function IdOf(s: RawSemester): seq<int> {
    match FacultyOf(s) case Some(f) => [f] case None => []
  }

  lemma FacultyIdsSnoc(init: seq<RawSemester>, last: RawSemester)
    ensures FacultyIds(init + [last]) == FacultyIds(init) + IdOf(last)
  {
    assert (init + [last])[..|init|] == init;
  }

  /** Collecting the ids of two lists one after the other is collecting them from the whole list:
      the ids come in list order. */
  lemma {:induction false} FacultyIdsAppend(a: seq<RawSemester>, b: seq<RawSemester>)
    ensures FacultyIds(a + b) == FacultyIds(a) + FacultyIds(b)
    decreases |b|
  {
    if b == [] {
      assert a + b == a;
    } else {
      var init, last := b[..|b| - 1], b[|b| - 1];
      var x, y, z := FacultyIds(a), FacultyIds(init), IdOf(last);
      FacultyIdsAppendLast(a, b);
      FacultyIdsAppend(a, init);
      assert (x + y) + z == x + (y + z);
    }
  }

  /** The ids of `a + b` for a non-empty `b`: those of `a` and all of `b` but its last semester,
      then the id of that last semester. */
  lemma FacultyIdsAppendLast(a: seq<RawSemester>, b: seq<RawSemester>)
    requires b != []
    ensures FacultyIds(a + b) == FacultyIds(a + b[..|b| - 1]) + IdOf(b[|b| - 1])
  {
    var ab := a + b;
    assert ab[..|ab| - 1] == a + b[..|b| - 1] && ab[|ab| - 1] == b[|b| - 1];
  }

  /** `allFaculties`: every truthy faculty id once, in order of first appearance (that order is
      `AllFacultiesOrder`). */
  function AllFaculties(ss: seq<RawSemester>): (r: seq<int>)
    ensures forall f :: f in r <==> exists k :: 0 <= k < |ss| && FacultyOf(ss[k]) == Some(f)
    ensures forall i, j :: 0 <= i < j < |r| ==> r[i] != r[j]
  {
    FacultyIdsMembers(ss);
    Distinct(FacultyIds(ss))
  }

  /** `[...new Set(ids)]` keeps first-seen order: a faculty listed before `r[j]` is offered by some
      semester before every semester of `r[j]`. */
  lemma AllFacultiesOrder(ss: seq<RawSemester>)
    ensures var r := AllFaculties(ss);
      forall i, j, k :: 0 <= i < j < |r| && 0 <= k < |ss| && FacultyOf(ss[k]) == Some(r[j]) ==>
        FirstSeenBy(ss, r[i], k)
  {
    var r := AllFaculties(ss);
    forall i, j, k | 0 <= i < j < |r| && 0 <= k < |ss| && FacultyOf(ss[k]) == Some(r[j])
      ensures FirstSeenBy(ss, r[i], k)
    {
      var l := SeenEarlier(ss, r, i, j, k);
    }
  }

  /** Faculty `f` is the id of some semester before position `k`. */
  predicate FirstSeenBy(ss: seq<RawSemester>, f: int, k: int) {
    exists l :: 0 <= l < k && l < |ss| && FacultyOf(ss[l]) == Some(f)
  }

  /** The ids of a non-empty list are the id of its head, then those of its tail. */
  lemma FacultyIdsHead(ss: seq<RawSemester>)
    requires ss != []
    ensures FacultyIds(ss) == IdOf(ss[0]) + FacultyIds(ss[1..])
  {
    var head := [ss[0]];
    assert head + ss[1..] == ss;
    FacultyIdsAppend(head, ss[1..]);
    assert head[..0] == [] && head[0] == ss[0];
    assert FacultyIds(head) == IdOf(ss[0]);
  }

  /** The ids of a list are those before position `k`, then the id at `k` if any, then those after. */
  lemma FacultyIdsAround(ss: seq<RawSemester>, k: nat)
    requires k < |ss|
    ensures FacultyIds(ss) == FacultyIds(ss[..k]) + (IdOf(ss[k]) + FacultyIds(ss[k + 1..]))
  {
    var before, rest := ss[..k], ss[k..];
    assert before + rest == ss;
    FacultyIdsAppend(before, rest);
    FacultyIdsHead(rest);
    assert rest[0] == ss[k] && rest[1..] == ss[k + 1..];
  }

  /** The id of semester `k` sits in the collected list right after the ids of the semesters
      before it. */
  lemma IdAt(ss: seq<RawSemester>, k: nat)
    requires k < |ss| && FacultyOf(ss[k]).Some?
    ensures |FacultyIds(ss[..k])| < |FacultyIds(ss)|
    ensures FacultyIds(ss)[|FacultyIds(ss[..k])|] == FacultyOf(ss[k]).value
  {
    FacultyIdsAround(ss, k);
    var x, y := FacultyIds(ss[..k]), IdOf(ss[k]) + FacultyIds(ss[k + 1..]);
    assert IdOf(ss[k]) == [FacultyOf(ss[k]).value];
    assert (x + y)[|x|] == y[0];
  }

  /** An id listed before the id of semester `k` was collected from a semester `l` before `k`. */
  lemma IdBefore(ss: seq<RawSemester>, k: nat, f: int) returns (l: nat)
    requires k < |ss| && |FacultyIds(ss[..k])| <= |FacultyIds(ss)|
    requires f in FacultyIds(ss)[..|FacultyIds(ss[..k])|]
    ensures l < k && FacultyOf(ss[l]) == Some(f)
  {
    FacultyIdsAround(ss, k);
    var x, y := FacultyIds(ss[..k]), IdOf(ss[k]) + FacultyIds(ss[k + 1..]);
    assert (x + y)[..|x|] == x;
    l := SeenInPrefix(ss, k, f);
  }

  /** In `[...new Set(ids)]`, an earlier faculty `r[i]` is met in the list, at semester `l`, before
      any semester `k` of a later one. */
  lemma SeenEarlier(ss: seq<RawSemester>, r: seq<int>, i: nat, j: nat, k: nat) returns (l: nat)
    requires r == Distinct(FacultyIds(ss))
    requires i < j < |r| && k < |ss| && FacultyOf(ss[k]) == Some(r[j])
    ensures l < k && FacultyOf(ss[l]) == Some(r[i])
  {
    IdAt(ss, k);
    DistinctOrder(FacultyIds(ss), r, i, j, |FacultyIds(ss[..k])|);
    l := IdBefore(ss, k, r[i]);
  }

  /** An id collected from the first `k` semesters is the id of one of them, semester `l`. */
  lemma SeenInPrefix(ss: seq<RawSemester>, k: nat, f: int) returns (l: nat)
    requires k <= |ss| && f in FacultyIds(ss[..k])
    ensures l < k && FacultyOf(ss[l]) == Some(f)
  {
    FacultyIdsMembers(ss[..k]);
    l :| 0 <= l < k && FacultyOf(ss[..k][l]) == Some(f);
    assert ss[..k][l] == ss[l];
  }

  /** Every faculty of the catalogue is offered in `allFaculties`. */
  lemma {:induction false} CatalogFacultiesListed(ss: seq<RawSemester>)
    ensures forall f :: f in GroupSemesters(ss) ==> f in AllFaculties(ss)
    decreases |ss|
  {
    if ss != [] {
      var init, last := ss[..|ss| - 1], ss[|ss| - 1];
      CatalogFacultiesListed(init);
      forall f | f in GroupSemesters(ss)
        ensures f in AllFaculties(ss)
      {
        if f !in GroupSemesters(init) {
          assert FacultyOf(ss[|ss| - 1]) == Some(f);
        } else {
          assert f in AllFaculties(init);
          var k :| 0 <= k < |init| && FacultyOf(init[k]) == Some(f);
          assert ss[k] == init[k];
        }
      }
    }
  }

  /** A faculty whose only programme is data science is offered in `allFaculties` but has no
      courses: its semesters are skipped by the grouping yet still counted by `allFaculties`. */
  lemma DataScienceOnlyFaculty()
    ensures var ss := [RawSemester(1, 1, Some("DSCB"), "DSCB1", Some(Course("Data Science", Some(Faculty(Some(7))))))];
      AllFaculties(ss) == [7] && GroupSemesters(ss) == map[]
  {
    var ss := [RawSemester(1, 1, Some("DSCB"), "DSCB1", Some(Course("Data Science", Some(Faculty(Some(7))))))];
    assert OccursAt("DSCB", "DSCB", 0);
    MissingFirstChar("DSCB", "WIIM");
    MissingFirstChar("DSCB", "WIIB");
    MissingFirstChar("DSCB", "IIBB");
    assert Placement(ss[0]) == None;
    assert ss[..0] == [];
    assert FacultyIds(ss) == [7];
    assert Distinct([7]) == [7] by {
      assert [7][..0] == [];
    }
  }
}
