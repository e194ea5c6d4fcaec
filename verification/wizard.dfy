/** The appointment wizard of src/components/appointmentProfessor.js as a state machine: each update
    the user sends is one input, and one step of the wizard maps the current state and the input to
    the next state and the effects the handler performs (replies, the stored appointment, or a
    thrown exception). The wizard's stored data travels inside the state. */
module Wizard {
  import opened Wrappers
  import opened Strings
  import opened Directory
  import opened Calendar
  import opened Util

  /** One update from the chat: a text message, a press on an inline button carrying its callback
      data, or anything else (a sticker, a photo, ...) that has neither. */
  datatype Input = Text(text: string) | Button(data: string) | Other

  /** An appointment time: the calendar day and the hour and minute handed to `setHours`. */
  datatype DateTime = DateTime(date: Date, hour: int, minute: nat)

  /** What is saved for the user. */
  datatype Appointment = Appointment(professor: Person, at: DateTime, subject: string)

  /** An inline-keyboard button: its caption and its callback data. */
  datatype Choice = Choice(caption: string, data: string)

  /** The replies of the wizard, by meaning; their German wording is not modelled. */
  datatype Reply =
    | AskSurname
    | AbortNotice
    | Choose(query: string, choices: seq<Choice>)
    | DidYouMean(candidate: Person)
    | Photo(url: string)
    | AskForDate
    | AskNameAgain
    | DateFormatHint
    | DateNotInFuture
    | AskForTime
    | TimeFormatHint
    | TooLateHint
    | AsleepHint(sleeper: Person)
    | AskForSubject(addressee: Person)
    | NotNice
    | Confirmation(request: Appointment)

  /** An effect of one handler run. `Crash` is an exception thrown by the handler (reading a property
      of `undefined`): nothing after it runs and the wizard stays at its step. */
  datatype Action = Say(reply: Reply) | Save(appointment: Appointment) | Crash

  /** The wizard's position together with the data stored so far. `selected` is the stored
      `selectedProf`, which may be unset (`None`); `Saved` and `Cancelled` are the two ways of
      leaving the scene. */
  datatype State =
    | Start
    | AskName(selected: Option<Person>)
    | Confirm(found: seq<Person>, selected: Option<Person>)
    | AskDate(selected: Option<Person>)
    | AskTime(selected: Option<Person>, date: Date)
    | AskSubject(prof: Person, at: DateTime)
    | Saved
    | Cancelled

  /** What the wizard depends on besides the chat: the directory built at start-up, the current UTC
      date, whether it runs in production (which shifts stored hours by two), the bad-word list and
      the case-insensitive regular-expression test used with it. */
  datatype Env = Env(directory: seq<Entry>, today: Date, production: bool,
                     badWords: seq<string>, matches: (string, string) -> bool)

  datatype Outcome = Outcome(next: State, actions: seq<Action>)

  predicate InProgress(s: State) {
    !s.Saved? && !s.Cancelled?
  }

  /** The handler's test `!ctx.message?.text`: no text, or the empty text. */
  predicate Silent(i: Input): (r: bool)
    ensures r <==> !(i.Text? && |i.text| > 0)
  {
    !i.Text? || i.text == ""
  }

  /** The four characters of `t` from position `k` spell "stop" in some mix of cases. */
  predicate StopAt(t: string, k: int) {
    && 0 <= k && k + 4 <= |t|
    && LowerChar(t[k]) == 's' && LowerChar(t[k + 1]) == 't'
    && LowerChar(t[k + 2]) == 'o' && LowerChar(t[k + 3]) == 'p'
  }

  lemma StopAtIff(t: string, k: int)
    ensures OccursAt("stop", Lower(t), k) <==> StopAt(t, k)
  {
    if 0 <= k && k + 4 <= |t| {
      var w := Lower(t)[k..k + 4];
      assert forall j :: 0 <= j < 4 ==> w[j] == LowerChar(t[k + j]);
      if StopAt(t, k) {
        assert w == "stop";
      }
      if w == "stop" {
        assert w[0] == 's' && w[1] == 't' && w[2] == 'o' && w[3] == 'p';
      }
    }
  }

  /** `/stop/i.test(ctx.message?.text)`: the text contains "stop" in any mix of cases. Without text
      the test sees the string "undefined" and fails. */
  predicate IsStop(i: Input): (r: bool)
    ensures r <==> i.Text? && exists k :: StopAt(i.text, k)
  {
    if i.Text? then
      assert forall k :: OccursAt("stop", Lower(i.text), k) <==> StopAt(i.text, k) by {
        forall k ensures OccursAt("stop", Lower(i.text), k) <==> StopAt(i.text, k) {
          StopAtIff(i.text, k);
        }
      }
      Contains(Lower(i.text), "stop")
    else false
  }

  /** The hours `setHours` is shifted by in production. */
  function HourShift(production: bool): nat {
    if production then 2 else 0
  }

  const Abort: Outcome := Outcome(Cancelled, [Say(AbortNotice)])

  // ----- step 1: entering the scene

  /** Entering the scene asks for the surname and clears the stored data. */
  function Enter(): (r: Outcome)
    ensures r.next.AskName? && r.next.selected.None?
    ensures r.actions == [Say(AskSurname)]
  {
    Outcome(AskName(None), [Say(AskSurname)])
  }

  // ----- step 2: the surname

  /** The button of one candidate: degree, first name and surname, with the id as callback data. */
  function ChoiceOf(p: Person): Choice {
    Choice(p.academicDegree + " " + p.firstName + " " + p.lastName, NatToString(p.id))
  }

  function Choices(found: seq<Person>): (cs: seq<Choice>)
    ensures |cs| == |found|
    ensures forall k :: 0 <= k < |found| ==> cs[k] == ChoiceOf(found[k])
  {
    seq(|found|, k requires 0 <= k < |found| => ChoiceOf(found[k]))
  }

  /** The replies for a single candidate: the question, then the photo unless it is a placeholder. */
  function SingleCandidateReplies(p: Person): (acts: seq<Action>)
    ensures |acts| > 0 && acts[0] == Say(DidYouMean(p))
    ensures |acts| == 2 <==> !Contains(p.imageUrl, "dummy")
    ensures |acts| == 2 ==> acts[1] == Say(Photo(p.imageUrl))
  {
    [Say(DidYouMean(p))] + (if Contains(p.imageUrl, "dummy") then [] else [Say(Photo(p.imageUrl))])
  }

  /** The surname step. The typed name is resolved to the group of the nearest surname; several
      candidates are offered as buttons and leave the stored selection as it was, a single one
      becomes the selection. An empty directory or an empty group makes the handler throw. */
  function NameStep(selected: Option<Person>, i: Input, directory: seq<Entry>): (r: Outcome)
    ensures Silent(i) ==> r == Outcome(AskName(selected), [])
    ensures r.next.Cancelled? <==> IsStop(i)
    ensures IsStop(i) ==> r == Outcome(Cancelled, [Say(AbortNotice)])
    ensures r.next.Confirm? ==> !Silent(i) && Resolve(directory, i.text) == Some(r.next.found)
    ensures r.next.Confirm? ==> r.next.selected == if |r.next.found| == 1 then Some(r.next.found[0]) else selected
    ensures Crash in r.actions <==> !Silent(i) && !IsStop(i) && (directory == [] || Resolve(directory, i.text) == Some([]))
    ensures !Silent(i) && !IsStop(i) && directory == [] ==> r == Outcome(AskName(selected), [Crash])
    ensures !Silent(i) && !IsStop(i) && Resolve(directory, i.text) == Some([]) ==> r == Outcome(AskName(None), [Crash])
    ensures !Silent(i) && !IsStop(i) && Resolve(directory, i.text).Some? && Resolve(directory, i.text).value != [] ==>
      var found := Resolve(directory, i.text).value;
      && r.next == Confirm(found, if |found| == 1 then Some(found[0]) else selected)
      && r.actions == if |found| == 1 then SingleCandidateReplies(found[0])
                      else [Say(Choose(i.text, Choices(found)))]
  {
    if Silent(i) then Outcome(AskName(selected), [])
    else if IsStop(i) then Abort
    else
      match Resolve(directory, i.text)
      case None => Outcome(AskName(selected), [Crash])
      case Some(found) =>
        if |found| > 1 then Outcome(Confirm(found, selected), [Say(Choose(i.text, Choices(found)))])
        else if |found| == 0 then Outcome(AskName(None), [Crash])
        else Outcome(Confirm(found, Some(found[0])), SingleCandidateReplies(found[0]))
  }

  // ----- step 3: confirming the candidate

  /** `foundProfs.find(prof => prof.id.toString() === data)`: the first candidate whose id renders
      as the callback data. */
  function FindById(found: seq<Person>, data: string): (r: Option<Person>)
    ensures r.Some? ==> exists k :: 0 <= k < |found| && found[k] == r.value && NatToString(r.value.id) == data
                                    && forall j :: 0 <= j < k ==> NatToString(found[j].id) != data
    ensures r.None? <==> forall k :: 0 <= k < |found| ==> NatToString(found[k].id) != data
    decreases |found|
  {
    if found == [] then None
    else if NatToString(found[0].id) == data then Some(found[0])
    else
      var rest := FindById(found[1..], data);
      assert forall k :: 1 <= k < |found| ==> found[k] == found[1..][k - 1];
      if rest.Some? then
        var k :| 0 <= k < |found[1..]| && found[1..][k] == rest.value && NatToString(rest.value.id) == data
                 && forall j :: 0 <= j < k ==> NatToString(found[1..][j].id) != data;
        assert found[k + 1] == rest.value;
        rest
      else rest
  }

  /** The text is exactly "ja" or "Ja". */
  predicate IsYes(i: Input): (r: bool)
    ensures r <==> i.Text? && |i.text| == 2 && i.text[0] in "jJ" && i.text[1] == 'a'
  {
    i == Text("ja") || i == Text("Ja")
  }

  /** The confirmation step: a button press selects the candidate with that id, "ja"/"Ja" keeps the
      stored selection, anything else goes back to the surname step. */
  function ConfirmStep(found: seq<Person>, selected: Option<Person>, i: Input): (r: Outcome)
    ensures r.next.Cancelled? <==> IsStop(i)
    ensures IsStop(i) ==> r == Outcome(Cancelled, [Say(AbortNotice)])
    ensures r.next.AskDate? <==> (i.Button? && i.data != "") || IsYes(i)
    ensures r.next.AskDate? ==> r.actions == [Say(AskForDate)]
    ensures r.next.AskName? ==> r == Outcome(AskName(selected), [Say(AskNameAgain)])
    ensures r.next.AskDate? && i.Text? ==> r.next.selected == selected
    ensures i.Button? && i.data != "" ==> r.next == AskDate(FindById(found, i.data))
    ensures !IsStop(i) && !(i.Button? && i.data != "") && !IsYes(i) ==>
      r == Outcome(AskName(selected), [Say(AskNameAgain)])
  {
    if IsStop(i) then Abort
    else if i.Button? && i.data != "" then Outcome(AskDate(FindById(found, i.data)), [Say(AskForDate)])
    else if IsYes(i) then Outcome(AskDate(selected), [Say(AskForDate)])
    else Outcome(AskName(selected), [Say(AskNameAgain)])
  }

  // ----- step 4: the date

  function DateStep(selected: Option<Person>, i: Input, today: Date): (r: Outcome)
    ensures Silent(i) ==> r == Outcome(AskDate(selected), [])
    ensures r.next.Cancelled? <==> IsStop(i)
    ensures IsStop(i) ==> r == Outcome(Cancelled, [Say(AbortNotice)])
    ensures r.next.AskTime? ==> r.next.selected == selected && IsValidDate(r.next.date)
                                && Before(today, r.next.date) && r.next.date.year == today.year
    ensures InProgress(r.next) ==> r.next.AskDate? || r.next.AskTime?
    ensures r.next.AskDate? ==> r.next == AskDate(selected)
    ensures !Silent(i) && !IsStop(i) && CheckDate(i.text, today).BadDateFormat? ==>
      r == Outcome(AskDate(selected), [Say(DateFormatHint)])
    ensures !Silent(i) && !IsStop(i) && CheckDate(i.text, today).NotInFuture? ==>
      r == Outcome(AskDate(selected), [Say(DateNotInFuture)])
    ensures !Silent(i) && !IsStop(i) && CheckDate(i.text, today).DateOk? ==>
      r == Outcome(AskTime(selected, CheckDate(i.text, today).date), [Say(AskForTime)])
  {
    if IsStop(i) then Abort
    else if Silent(i) then Outcome(AskDate(selected), [])
    else
      match CheckDate(i.text, today)
      case BadDateFormat => Outcome(AskDate(selected), [Say(DateFormatHint)])
      case NotInFuture => Outcome(AskDate(selected), [Say(DateNotInFuture)])
      case DateOk(d) => Outcome(AskTime(selected, d), [Say(AskForTime)])
  }

  // ----- step 5: the time

  /** The time step. Without a stored selection the handler throws where it reads the professor's
      name: on a too-early hour and on an accepted one. */
  function TimeStep(selected: Option<Person>, date: Date, i: Input, production: bool): (r: Outcome)
    ensures Silent(i) ==> r == Outcome(AskTime(selected, date), [])
    ensures r.next.Cancelled? <==> IsStop(i)
    ensures IsStop(i) ==> r == Outcome(Cancelled, [Say(AbortNotice)])
    ensures r.next.AskSubject? ==> Some(r.next.prof) == selected && r.next.at.date == date
    ensures r.next.AskSubject? ==> 8 - HourShift(production) <= r.next.at.hour < 18 - HourShift(production)
                                   && r.next.at.minute <= 59
    ensures Crash in r.actions ==> selected.None?
    ensures InProgress(r.next) ==> r.next.AskTime? || r.next.AskSubject?
    ensures r.next.AskTime? ==> r.next == AskTime(selected, date)
    ensures !Silent(i) && !IsStop(i) && CheckTime(i.text).BadTimeFormat? ==>
      r == Outcome(AskTime(selected, date), [Say(TimeFormatHint)])
    ensures !Silent(i) && !IsStop(i) && CheckTime(i.text).TooLate? ==>
      r == Outcome(AskTime(selected, date), [Say(TooLateHint)])
    ensures !Silent(i) && !IsStop(i) && (CheckTime(i.text).TooEarly? || CheckTime(i.text).TimeOk?) && selected.None? ==>
      r == Outcome(AskTime(selected, date), [Crash])
    ensures !Silent(i) && !IsStop(i) && CheckTime(i.text).TooEarly? && selected.Some? ==>
      r == Outcome(AskTime(selected, date), [Say(AsleepHint(selected.value))])
    ensures !Silent(i) && !IsStop(i) && CheckTime(i.text).TimeOk? && selected.Some? ==>
      var t := CheckTime(i.text);
      r == Outcome(AskSubject(selected.value, DateTime(date, t.hour - HourShift(production), t.minute)),
                   [Say(AskForSubject(selected.value))])
  {
    if IsStop(i) then Abort
    else if Silent(i) then Outcome(AskTime(selected, date), [])
    else
      match CheckTime(i.text)
      case BadTimeFormat => Outcome(AskTime(selected, date), [Say(TimeFormatHint)])
      case TooLate => Outcome(AskTime(selected, date), [Say(TooLateHint)])
      case TooEarly =>
        if selected.None? then Outcome(AskTime(selected, date), [Crash])
        else Outcome(AskTime(selected, date), [Say(AsleepHint(selected.value))])
      case TimeOk(h, m) =>
        if selected.None? then Outcome(AskTime(selected, date), [Crash])
        else
          Outcome(AskSubject(selected.value, DateTime(date, h - HourShift(production), m)),
                  [Say(AskForSubject(selected.value))])
  }

  // ----- step 6: the subject

  function SubjectStep(prof: Person, at: DateTime, i: Input, env: Env): (r: Outcome)
    ensures Silent(i) ==> r == Outcome(AskSubject(prof, at), [])
    ensures r.next.Cancelled? <==> IsStop(i)
    ensures IsStop(i) ==> r == Outcome(Cancelled, [Say(AbortNotice)])
    ensures r.next.Saved? <==> !Silent(i) && !IsStop(i) && !CheckForBadWords(i.text, env.badWords, env.matches)
    ensures r.next.Saved? ==> r.actions == [Say(Confirmation(Appointment(prof, at, i.text))),
                                            Save(Appointment(prof, at, i.text))]
    ensures !r.next.Saved? ==> forall k :: 0 <= k < |r.actions| ==> !r.actions[k].Save?
    ensures !Silent(i) && !IsStop(i) && CheckForBadWords(i.text, env.badWords, env.matches) ==>
      r == Outcome(AskSubject(prof, at), [Say(NotNice)])
  {
    if IsStop(i) then Abort
    else if Silent(i) then Outcome(AskSubject(prof, at), [])
    else if CheckForBadWords(i.text, env.badWords, env.matches) then Outcome(AskSubject(prof, at), [Say(NotNice)])
    else
      var a := Appointment(prof, at, i.text);
      Outcome(Saved, [Say(Confirmation(a)), Save(a)])
  }

  // ----- the whole wizard

  /** One update handled by the wizard. Once the scene is left, updates no longer reach it. */
  function Step(s: State, i: Input, env: Env): (r: Outcome)
    ensures !InProgress(s) ==> r == Outcome(s, [])
    ensures r.next.Cancelled? <==> s.Cancelled? || (InProgress(s) && !s.Start? && IsStop(i))
    ensures !(s.AskSubject? && r.next.Saved?) ==> forall k :: 0 <= k < |r.actions| ==> !r.actions[k].Save?
    ensures r.next.Saved? ==> s.Saved? || s.AskSubject?
  {
    match s
    case Start => Enter()
    case AskName(sel) => NameStep(sel, i, env.directory)
    case Confirm(found, sel) => ConfirmStep(found, sel, i)
    case AskDate(sel) => DateStep(sel, i, env.today)
    case AskTime(sel, d) => TimeStep(sel, d, i, env.production)
    case AskSubject(p, at) => SubjectStep(p, at, i, env)
    case Saved => Outcome(s, [])
    case Cancelled => Outcome(s, [])
  }

  // ----- properties of the steps

  /** Pressing the button offered for candidate `k` selects exactly that candidate, provided no
      earlier candidate shares its id: the button data and the lookup are inverse. */
  lemma ButtonSelects(found: seq<Person>, selected: Option<Person>, k: nat)
    requires k < |found|
    requires forall j :: 0 <= j < k ==> found[j].id != found[k].id
    ensures ConfirmStep(found, selected, Button(Choices(found)[k].data))
         == Outcome(AskDate(Some(found[k])), [Say(AskForDate)])
  {
    var data := NatToString(found[k].id);
    assert Choices(found)[k].data == data;
    var r := FindById(found, data);
    var m :| 0 <= m < |found| && found[m] == r.value && NatToString(r.value.id) == data
             && forall j :: 0 <= j < m ==> NatToString(found[j].id) != data;
    NatToStringInjective(found[m].id, found[k].id);
    assert m == k;
  }

  /** A text without the letter s, in either case, never reads as "stop". */
  lemma NoSNoStop(s: string)
    requires forall c :: c in s ==> c != 's' && c != 'S'
    ensures !IsStop(Text(s))
  {
    var t := Lower(s);
    forall k | 0 <= k < |t| ensures t[k] != 's' {
      assert s[k] in s;
    }
    MissingFirstChar(t, "stop");
  }

  lemma DateTextNotStop(s: string)
    requires IsDateText(s)
    ensures !IsStop(Text(s)) && !Silent(Text(s))
  {
    forall c | c in s ensures c != 's' && c != 'S' {
      var k :| 0 <= k < |s| && s[k] == c;
      if k < 2 {
        assert s[..2][k] == c;
      } else if k > 2 {
        assert s[3..][k - 3] == c;
      }
    }
    NoSNoStop(s);
  }

  lemma TimeTextNotStop(s: string)
    requires IsTimeText(s)
    ensures !IsStop(Text(s)) && !Silent(Text(s))
  {
    forall c | c in s ensures c != 's' && c != 'S' {
      var k :| 0 <= k < |s| && s[k] == c;
      if k < 2 {
        assert s[..2][k] == c;
      } else if k >= |s| - 2 {
        assert s[|s| - 2..][k - (|s| - 2)] == c;
      }
    }
    NoSNoStop(s);
  }

  /** The date step moves on exactly for a well-formed date after today, and stores that date. */
  lemma DateStepAcceptance(selected: Option<Person>, s: string, today: Date)
    ensures DateStep(selected, Text(s), today).next.AskTime? <==>
      IsDateText(s) && Before(today, MakeDate(today.year, DecimalValue(s[3..]), DecimalValue(s[..2])))
    ensures DateStep(selected, Text(s), today).next.AskTime? ==>
      DateStep(selected, Text(s), today).next
        == AskTime(selected, MakeDate(today.year, DecimalValue(s[3..]), DecimalValue(s[..2])))
  {
    DateAcceptance(s, today);
    if IsDateText(s) {
      DateTextNotStop(s);
    }
  }

  /** With a stored selection, the time step moves on exactly for a well-formed time from 08:00 to
      17:59, and stores that hour (shifted in production) and minute. */
  lemma TimeStepAcceptance(prof: Person, date: Date, s: string, production: bool)
    ensures TimeStep(Some(prof), date, Text(s), production).next.AskSubject? <==>
      IsTimeText(s) && 8 <= HourOf(s) <= 17
    ensures TimeStep(Some(prof), date, Text(s), production).next.AskSubject? ==>
      TimeStep(Some(prof), date, Text(s), production).next
        == AskSubject(prof, DateTime(date, HourOf(s) - HourShift(production), MinuteOf(s)))
  {
    TimeClassification(s);
    if IsTimeText(s) {
      TimeTextNotStop(s);
    }
  }

  /** A subject made of words joined by single spaces is refused as soon as one of its words
      offends, wherever that word stands: first, last, alone or in between. */
  lemma OffensiveSubjectRefused(prof: Person, at: DateTime, env: Env, words: seq<string>, j: nat, k: nat)
    requires forall n :: 0 <= n < |words| ==> ' ' !in words[n]
    requires j < |words| && k < |env.badWords| && env.matches(env.badWords[k], words[j])
    ensures !SubjectStep(prof, at, Text(Join(words, ' ')), env).next.Saved?
  {
    OneBadWordCondemns(words, env.badWords, env.matches, j, k);
  }

  /** Typing a surname of the directory exactly offers that surname's group; a lone professor is
      selected at once. */
  lemma ExactSurname(selected: Option<Person>, directory: seq<Entry>, k: nat)
    requires DistinctKeys(directory) && k < |directory|
    requires directory[k].people != []
    requires directory[k].surname != "" && !IsStop(Text(directory[k].surname))
    ensures NameStep(selected, Text(directory[k].surname), directory).next
         == Confirm(directory[k].people,
                    if |directory[k].people| == 1 then Some(directory[k].people[0]) else selected)
  {
    ResolveExact(directory, directory[k].surname, k);
  }

  /** Any typed name that is not a stop reaches the confirmation with the group of a nearest
      surname, as long as the directory is non-empty and has no empty group. */
  lemma NearestGroupOffered(selected: Option<Person>, directory: seq<Entry>, q: string)
    requires directory != [] && forall k :: 0 <= k < |directory| ==> directory[k].people != []
    requires q != "" && !IsStop(Text(q))
    ensures NameStep(selected, Text(q), directory).next.Confirm?
    ensures exists k :: NearestAt(directory, q, k)
                        && NameStep(selected, Text(q), directory).next.found == directory[k].people
  {
    var r := Resolve(directory, q);
    assert r.Some?;
    var k :| NearestAt(directory, q, k) && r.value == directory[k].people;
    assert r.value != [];
  }

  /** At the surname, date, time and subject steps an update without text changes nothing and
      gets no reply. */
  lemma SilentIgnored(s: State, i: Input, env: Env)
    requires s.AskName? || s.AskDate? || s.AskTime? || s.AskSubject?
    requires Silent(i)
    ensures Step(s, i, env) == Outcome(s, [])
  {
  }
}
