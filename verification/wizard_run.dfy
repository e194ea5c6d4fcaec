/** A conversation with the appointment wizard: a sequence of updates fed through the step function.
    The stored data satisfies an invariant at every step, so whatever the user types, a saved
    appointment names a professor of the directory, a day after today and an hour within office
    hours, and at most one appointment is saved per conversation. */
module WizardRun {
  import opened Wrappers
  import opened Strings
  import opened Directory
  import opened Calendar
  import opened Util
  import opened Wizard

  /** `p` is filed somewhere in the directory. */
  predicate InDirectory(p: Person, directory: seq<Entry>) {
    exists i, j :: 0 <= i < |directory| && 0 <= j < |directory[i].people| && directory[i].people[j] == p
  }

  predicate SelectionOk(selected: Option<Person>, directory: seq<Entry>) {
    selected.Some? ==> InDirectory(selected.value, directory)
  }

  predicate IsGroup(found: seq<Person>, directory: seq<Entry>) {
    exists i :: 0 <= i < |directory| && directory[i].people == found
  }

  /** A day the date step accepts: a real date after today, in today's year. */
  predicate DayOk(d: Date, today: Date) {
    IsValidDate(d) && Before(today, d) && d.year == today.year
  }

  /** A time the time step accepts: a day as above and a clock time from 08:00 to 17:59, shifted
      by two hours in production. */
  predicate TimeOk(at: DateTime, env: Env) {
    && DayOk(at.date, env.today)
    && 8 - HourShift(env.production) <= at.hour < 18 - HourShift(env.production)
    && at.minute <= 59
  }

  /** The invariant on the stored data. */
  predicate Valid(s: State, env: Env) {
    match s
    case Start => true
    case AskName(sel) => SelectionOk(sel, env.directory)
    case Confirm(found, sel) => IsGroup(found, env.directory) && SelectionOk(sel, env.directory)
    case AskDate(sel) => SelectionOk(sel, env.directory)
    case AskTime(sel, d) => SelectionOk(sel, env.directory) && DayOk(d, env.today)
    case AskSubject(p, at) => InDirectory(p, env.directory) && TimeOk(at, env)
    case Saved => true
    case Cancelled => true
  }

  /** What a saved appointment guarantees. */
  predicate AppointmentOk(a: Appointment, env: Env) {
    && InDirectory(a.professor, env.directory)
    && TimeOk(a.at, env)
    && a.subject != ""
    && !CheckForBadWords(a.subject, env.badWords, env.matches)
  }

  /** The appointments among the effects, in order. */
  function Saves(acts: seq<Action>): (r: seq<Appointment>)
    ensures |r| <= |acts|
    ensures forall k :: 0 <= k < |r| ==> Save(r[k]) in acts
    ensures (forall k :: 0 <= k < |acts| ==> !acts[k].Save?) ==> r == []
    decreases |acts|
  {
    if acts == [] then []
    else
      assert forall k :: 1 <= k < |acts| ==> acts[k] == acts[1..][k - 1];
      (if acts[0].Save? then [acts[0].appointment] else []) + Saves(acts[1..])
  }

  lemma {:induction false} SavesAppend(a: seq<Action>, b: seq<Action>)
    ensures Saves(a + b) == Saves(a) + Saves(b)
    decreases |a|
  {
    if a != [] {
      var h := if a[0].Save? then [a[0].appointment] else [];
      assert (a + b)[0] == a[0] && (a + b)[1..] == a[1..] + b;
      assert Saves(a + b) == h + Saves(a[1..] + b);
      SavesAppend(a[1..], b);
      assert Saves(a) == h + Saves(a[1..]);
      assert h + (Saves(a[1..]) + Saves(b)) == (h + Saves(a[1..])) + Saves(b);
    } else {
      assert a + b == b;
    }
  }

  /** A member of a group is in the directory. */
  lemma GroupMember(found: seq<Person>, directory: seq<Entry>, k: nat)
    requires IsGroup(found, directory) && k < |found|
    ensures InDirectory(found[k], directory)
  {
    var i :| 0 <= i < |directory| && directory[i].people == found;
    assert directory[i].people[k] == found[k];
  }

  /** Every step keeps the invariant. */
  lemma StepPreservesValid(s: State, i: Input, env: Env)
    requires Valid(s, env)
    ensures Valid(Step(s, i, env).next, env)
  {
    var r := Step(s, i, env);
    match s
    case AskName(sel) =>
      if r.next.Confirm? {
        var found := r.next.found;
        var idx :| NearestAt(env.directory, i.text, idx) && found == env.directory[idx].people;
        assert IsGroup(found, env.directory);
        if |found| == 1 {
          GroupMember(found, env.directory, 0);
        }
      }
    case Confirm(found, sel) =>
      if r.next.AskDate? && i.Button? {
        var f := FindById(found, i.data);
        if f.Some? {
          var k :| 0 <= k < |found| && found[k] == f.value && NatToString(f.value.id) == i.data
                   && forall j :: 0 <= j < k ==> NatToString(found[j].id) != i.data;
          GroupMember(found, env.directory, k);
        }
      }
    case _ =>
  }

  /** An appointment saved from a valid state meets every guarantee. */
  lemma StepSavesOk(s: State, i: Input, env: Env)
    requires Valid(s, env)
    ensures forall k :: 0 <= k < |Saves(Step(s, i, env).actions)| ==>
      AppointmentOk(Saves(Step(s, i, env).actions)[k], env)
  {
    var r := Step(s, i, env);
    if s.AskSubject? && r.next.Saved? {
      assert r.actions == [Say(Confirmation(Appointment(s.prof, s.at, i.text))), Save(Appointment(s.prof, s.at, i.text))];
      assert Saves(r.actions) == [Appointment(s.prof, s.at, i.text)];
    } else {
      assert forall k :: 0 <= k < |r.actions| ==> !r.actions[k].Save?;
    }
  }

  /** Feeding a sequence of updates to the wizard: the final state and all effects, in order. */
  function Run(s: State, inputs: seq<Input>, env: Env): (r: Outcome)
    ensures !InProgress(s) ==> r == Outcome(s, [])
    decreases |inputs|
  {
    if inputs == [] then Outcome(s, [])
    else
      var o := Step(s, inputs[0], env);
      var rest := Run(o.next, inputs[1..], env);
      Outcome(rest.next, o.actions + rest.actions)
  }

  /** A conversation ends cancelled only if it already was, or one of its inputs said "stop". */
  lemma {:induction false} RunCancelledOnlyByStop(s: State, inputs: seq<Input>, env: Env)
    ensures Run(s, inputs, env).next.Cancelled? ==> s.Cancelled? || exists k :: 0 <= k < |inputs| && IsStop(inputs[k])
    decreases |inputs|
  {
    if inputs != [] && Run(s, inputs, env).next.Cancelled? && !s.Cancelled? {
      var o := Step(s, inputs[0], env);
      RunCancelledOnlyByStop(o.next, inputs[1..], env);
      if !IsStop(inputs[0]) {
        var k :| 0 <= k < |inputs[1..]| && IsStop(inputs[1..][k]);
        assert IsStop(inputs[k + 1]);
      }
    }
  }

  /** Feeding two batches of updates one after the other is feeding them together. */
  lemma {:induction false} RunAppend(s: State, a: seq<Input>, b: seq<Input>, env: Env)
    ensures Run(s, a + b, env).next == Run(Run(s, a, env).next, b, env).next
    ensures Run(s, a + b, env).actions == Run(s, a, env).actions + Run(Run(s, a, env).next, b, env).actions
    decreases |a|
  {
    if a == [] {
      assert a + b == b;
    } else {
      var o := Step(s, a[0], env);
      assert (a + b)[0] == a[0] && (a + b)[1..] == a[1..] + b;
      RunAppend(o.next, a[1..], b, env);
      var mid := Run(o.next, a[1..], env);
      var tail := Run(mid.next, b, env);
      assert o.actions + (mid.actions + tail.actions) == (o.actions + mid.actions) + tail.actions;
    }
  }

  /** Along a conversation the invariant holds and every saved appointment meets the guarantees. */
  lemma {:induction false} RunValid(s: State, inputs: seq<Input>, env: Env)
    requires Valid(s, env)
    ensures Valid(Run(s, inputs, env).next, env)
    ensures forall k :: 0 <= k < |Saves(Run(s, inputs, env).actions)| ==>
      AppointmentOk(Saves(Run(s, inputs, env).actions)[k], env)
    decreases |inputs|
  {
    if inputs != [] {
      var o := Step(s, inputs[0], env);
      StepPreservesValid(s, inputs[0], env);
      StepSavesOk(s, inputs[0], env);
      RunValid(o.next, inputs[1..], env);
      SavesAppend(o.actions, Run(o.next, inputs[1..], env).actions);
    }
  }

  /** A single step saves at most one appointment, and only on its way to `Saved`. */
  lemma StepSavesOnce(s: State, i: Input, env: Env)
    ensures |Saves(Step(s, i, env).actions)| <= 1
    ensures Saves(Step(s, i, env).actions) != [] ==> Step(s, i, env).next.Saved?
  {
    var r := Step(s, i, env);
    if s.AskSubject? && r.next.Saved? {
      assert Saves(r.actions) == [Appointment(s.prof, s.at, i.text)];
    } else {
      assert forall k :: 0 <= k < |r.actions| ==> !r.actions[k].Save?;
    }
  }

  /** A conversation saves at most one appointment, and saving one ends it in `Saved`. */
  lemma {:induction false} RunSavesAtMostOnce(s: State, inputs: seq<Input>, env: Env)
    ensures |Saves(Run(s, inputs, env).actions)| <= 1
    ensures |Saves(Run(s, inputs, env).actions)| == 1 ==> Run(s, inputs, env).next.Saved?
    decreases |inputs|
  {
    if inputs != [] {
      var o := Step(s, inputs[0], env);
      var rest := Run(o.next, inputs[1..], env);
      SavesAppend(o.actions, rest.actions);
      StepSavesOnce(s, inputs[0], env);
      if !o.next.Saved? {
        RunSavesAtMostOnce(o.next, inputs[1..], env);
      }
    }
  }

  /** On the directory built from the fetched catalog, a conversation from the start can only ever
      book an appointment with a professor of that catalog (not deleted, "Prof" in the degree). */
  lemma SavedProfessorFromCatalog(all: seq<Person>, inputs: seq<Input>, env: Env)
    requires env.directory == BuildIndex(all)
    ensures forall k :: 0 <= k < |Saves(Run(Start, inputs, env).actions)| ==>
      var p := Saves(Run(Start, inputs, env).actions)[k].professor;
      p in all && IsProfessor(p)
  {
    RunValid(Start, inputs, env);
    GroupsWellFormed(all);
  }

  // ----- a complete booking

  const Eva: Person := Person(7, "Eva", "Ab", "Prof. Dr.", "dummy", false)
  const Noon: DateTime := DateTime(Date(2024, 6, 15), 10, 30)
  const Booking: Appointment := Appointment(Eva, Noon, "Termin")

  function SampleEnv(): Env {
    Env([Entry("Ab", [Eva])], Date(2024, 1, 1), false, [], (w, x) => false)
  }

  lemma SampleName()
    ensures Step(AskName(None), Text("Ab"), SampleEnv()).next == Confirm([Eva], Some(Eva))
  {
    NoSNoStop("Ab");
  }

  lemma SampleConfirm()
    ensures Step(Confirm([Eva], Some(Eva)), Text("ja"), SampleEnv()).next == AskDate(Some(Eva))
  {
    NoSNoStop("ja");
  }

  lemma SampleDateText()
    ensures IsDateText("15.06")
    ensures DecimalValue("15.06"[3..]) == 6 && DecimalValue("15.06"[..2]) == 15
  {
    var d := "15.06";
    assert d[..2] == "15" && d[3..] == "06";
    assert d[..2][..1] == "1" && d[3..][..1] == "0";
  }

  lemma SampleDate()
    ensures Step(AskDate(Some(Eva)), Text("15.06"), SampleEnv()).next == AskTime(Some(Eva), Noon.date)
  {
    SampleDateText();
    assert MakeDate(2024, 6, 15) == Noon.date;
    DateStepAcceptance(Some(Eva), "15.06", Date(2024, 1, 1));
  }

  lemma SampleTimeText()
    ensures IsTimeText("10:30") && HourOf("10:30") == 10 && MinuteOf("10:30") == 30
  {
    var t := "10:30";
    assert t[..2] == "10" && t[|t| - 2..] == "30";
    assert t[..2][..1] == "1" && t[|t| - 2..][..1] == "3";
  }

  lemma SampleTime()
    ensures Step(AskTime(Some(Eva), Noon.date), Text("10:30"), SampleEnv()).next == AskSubject(Eva, Noon)
  {
    SampleTimeText();
    TimeStepAcceptance(Eva, Noon.date, "10:30", false);
    assert Step(AskTime(Some(Eva), Noon.date), Text("10:30"), SampleEnv())
        == TimeStep(Some(Eva), Noon.date, Text("10:30"), false);
  }

  lemma SampleSubject()
    ensures Step(AskSubject(Eva, Noon), Text("Termin"), SampleEnv()) == Outcome(Saved, [Say(Confirmation(Booking)), Save(Booking)])
  {
    NoSNoStop("Termin");
  }

  /** A step before the subject step saves nothing, so a run through it saves what the rest saves. */
  lemma RunThrough(s: State, i: Input, rest: seq<Input>, env: Env, t: State)
    requires !s.AskSubject? && Step(s, i, env).next == t
    ensures Run(s, [i] + rest, env).next == Run(t, rest, env).next
    ensures Saves(Run(s, [i] + rest, env).actions) == Saves(Run(t, rest, env).actions)
  {
    var o := Step(s, i, env);
    assert ([i] + rest)[1..] == rest;
    assert Saves(o.actions) == [];
    SavesAppend(o.actions, Run(t, rest, env).actions);
  }

  /** The inputs of a complete booking, as the suffixes left before each step. */
  const FromSubject: seq<Input> := [Text("Termin")]
  const FromTime: seq<Input> := [Text("10:30")] + FromSubject
  const FromDate: seq<Input> := [Text("15.06")] + FromTime
  const FromConfirm: seq<Input> := [Text("ja")] + FromDate
  const FromName: seq<Input> := [Text("Ab")] + FromConfirm
  const HappyInputs: seq<Input> := [Text("hi")] + FromName

  lemma HappyFromSubject()
    ensures var o := Run(AskSubject(Eva, Noon), FromSubject, SampleEnv());
      o.next == Saved && Saves(o.actions) == [Booking]
  {
    SampleSubject();
    assert FromSubject[1..] == [];
    assert Saves([Save(Booking)]) == [Booking];
  }

  lemma HappyFromTime()
    ensures var o := Run(AskTime(Some(Eva), Noon.date), FromTime, SampleEnv());
      o.next == Saved && Saves(o.actions) == [Booking]
  {
    HappyFromSubject();
    SampleTime();
    RunThrough(AskTime(Some(Eva), Noon.date), Text("10:30"), FromSubject, SampleEnv(), AskSubject(Eva, Noon));
  }

  lemma HappyFromDate()
    ensures var o := Run(AskDate(Some(Eva)), FromDate, SampleEnv());
      o.next == Saved && Saves(o.actions) == [Booking]
  {
    HappyFromTime();
    SampleDate();
    RunThrough(AskDate(Some(Eva)), Text("15.06"), FromTime, SampleEnv(), AskTime(Some(Eva), Noon.date));
  }

  lemma HappyFromConfirm()
    ensures var o := Run(Confirm([Eva], Some(Eva)), FromConfirm, SampleEnv());
      o.next == Saved && Saves(o.actions) == [Booking]
  {
    HappyFromDate();
    SampleConfirm();
    RunThrough(Confirm([Eva], Some(Eva)), Text("ja"), FromDate, SampleEnv(), AskDate(Some(Eva)));
  }

  lemma HappyFromName()
    ensures var o := Run(AskName(None), FromName, SampleEnv());
      o.next == Saved && Saves(o.actions) == [Booking]
  {
    HappyFromConfirm();
    SampleName();
    RunThrough(AskName(None), Text("Ab"), FromConfirm, SampleEnv(), Confirm([Eva], Some(Eva)));
  }

  /** A complete conversation that books an appointment: a greeting, a lone professor found by
      surname ("Ab"), confirmed with "ja", then the date "15.06", the time "10:30" and the
      subject "Termin". */
  lemma HappyPath()
    ensures Run(Start, HappyInputs, SampleEnv()).next == Saved
    ensures Saves(Run(Start, HappyInputs, SampleEnv()).actions) == [Booking]
  {
    HappyFromName();
    RunThrough(Start, Text("hi"), FromName, SampleEnv(), AskName(None));
  }
}
