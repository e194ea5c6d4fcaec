# Student assistant Telegram bot: appointment wizard and data shaping, in Dafny

This project models the sequential core of a Telegram bot for university students. There are two parts.

**The professor-appointment wizard** (`src/components/appointmentProfessor.js`).
- At start-up the bot fetches the people catalog. It keeps the professors: records that are not deleted and whose academic degree contains "Prof". It groups them by surname.
- A student types a surname. The wizard picks the group of the nearest surname by Levenshtein distance, taking the first one on ties.
- The student confirms the candidate, either with an inline button or by answering "ja".
- The student then enters a date (`DD.MM`, strictly after today) and a time (`HH:MM` or `HHMM`, 08:00 to 17:59), and finally a subject that must pass the bad-word screen.
- Then the appointment request is saved.
- At any step after the first, a text containing "stop" (in any case) cancels the wizard.

The model is a pure step function from (state, update) to (next state, effects):
- `Wizard.Step` handles one update.
- `WizardRun.Run` handles a whole conversation.
- The effects are replies, the saved appointment, and `Crash`. `Crash` stands for a handler that throws because it reads a property of `undefined`.

**Data shaping in `src/util.js`**:
- `checkForBadWords`;
- `arrayToMap`;
- the grouping of the timetable service's semester list into faculty → course → semesters, together with the list of faculties (`getAllCoursesAndFaculties`);
- the extraction of news items from the parsed RSS feed;
- the canteen filter that keeps only lines serving meals.

Modules:
- `Wrappers`: `Option`.
- `Strings`: the JavaScript string operations used (`includes`, ASCII case folding, `split`, `new Set`, number rendering).
- `Levenshtein`: the edit distance.
- `Directory`: the professor index and nearest-surname resolution.
- `Calendar`: the date and time validators.
- `Util`: bad words, `arrayToMap`, RSS, canteen.
- `Courses`: the semester catalogue.
- `Wizard`: the steps.
- `WizardRun`: conversations, the invariant, and end-to-end guarantees.

Three behaviours of the code a reader may not expect:
- **Stored selection.** `wizard.back()` does not clear the stored data. A conversation can look up a single professor, answer something other than "ja", look up a surname with several candidates, and then answer "ja" instead of pressing a button. That conversation continues with the professor selected earlier, who is not among the candidates shown. If nothing was selected earlier, it continues with no selection, and the time step later throws. `Wizard.ConfirmStep` states this: "ja" keeps `selected` whatever `found` is.
- **Stop test.** The cancel test is a substring test: "Stoppelmann" cancels the surname step.
- **Impossible dates.** A date such as "31.02" is not rejected. The JavaScript engine rolls it over into March (`Calendar.MakeDate`).

## Model

| member | source | states |
|---|---|---|
| Strings.Contains | src/components/appointmentProfessor.js:19 | `includes` holds iff the pattern occurs at some position |
| Strings.IndexOf | src/util.js:123 | the position found is an occurrence and no earlier position is one; `None` iff there is no occurrence |
| Strings.Split | src/util.js:280 | `split(" ")` yields at least one piece, no piece contains the separator, and joining the pieces gives back the text |
| Strings.SplitJoin | src/util.js:280 | splitting is the inverse of joining separator-free pieces |
| Strings.SplitAppend | src/util.js:280 | splitting at one separator splits the two sides independently |
| Strings.Distinct | src/util.js:256-267 | `[...new Set(xs)]` keeps exactly the elements of `xs`, without repeats, each at its first occurrence |
| Strings.DistinctSnoc | src/util.js:256-267 | appending an element appends it to the de-duplicated list iff it is new |
| Strings.NatToString | src/components/appointmentProfessor.js:80 | `id.toString()` is a non-empty string of digits |
| Strings.NatToStringRoundTrip | src/components/appointmentProfessor.js:80 | reading the rendered id back gives the id |
| Strings.NatToStringInjective | src/components/appointmentProfessor.js:80 | different ids render differently, so button data identifies an id |
| Strings.MissingFirstChar | src/components/appointmentProfessor.js:41 | a pattern whose first character is absent from the text does not occur in it |
| Levenshtein.LevZeroIff | src/components/appointmentProfessor.js:9-11 | the distance is 0 exactly between equal strings |
| Levenshtein.LevCommonSuffix | src/components/appointmentProfessor.js:9-11 | appending the same suffix to both strings never increases the distance |
| Levenshtein.OneSubstitution | src/components/appointmentProfessor.js:9-11 | two strings that differ in one character at the same place are at distance 1, and equal ones at 0 |
| Levenshtein.MayerMeyer | src/components/appointmentProfessor.js:46 | a one-letter misspelling of a surname, "Mayer" for "Meyer", is at distance 1 |
| Directory.File | src/components/appointmentProfessor.js:20-26 | filing a professor appends them to the group of their surname, or opens a new group at the end; surnames stay distinct and other groups are unchanged |
| Directory.BuildIndex | src/components/appointmentProfessor.js:18-27 | the index has pairwise distinct surnames |
| Directory.IsProfessor | src/components/appointmentProfessor.js:19 | a record enters the directory iff it is not deleted and "Prof" occurs in its degree, case-sensitively |
| Directory.Filed | src/components/appointmentProfessor.js:18-19 | the reference list of a surname holds only catalog records that are professors with exactly that surname |
| Directory.IndexContents | src/components/appointmentProfessor.js:18-27 | each group is exactly the catalog's professors with that surname, in catalog order, and a surname is a key iff some professor carries it |
| Directory.GroupsWellFormed | src/components/appointmentProfessor.js:18-27 | every group is non-empty, and each member is a catalog professor filed under their exact surname |
| Directory.KeyOrder | src/components/appointmentProfessor.js:18-27 | the keys are the professors' surnames in order of first occurrence, which decides ties |
| Directory.Nearest | src/components/appointmentProfessor.js:46 | the chosen key is at minimum distance from the typed text, and every earlier key is strictly farther |
| Directory.FirstMin | src/components/appointmentProfessor.js:46 | the scan returns a position of minimum value with every earlier value strictly larger, so ties go to the first key |
| Directory.Resolve | src/components/appointmentProfessor.js:46-47 | the result is the group of a nearest key; there is no result iff the index is empty |
| Directory.ResolveExact | src/components/appointmentProfessor.js:46-47 | typing a key exactly returns that key's group |
| Directory.ResolveInBuiltIndex | src/components/appointmentProfessor.js:18-27 | on an index built from a catalog, the result is non-empty and lists all the catalog's professors with the nearest surname |
| Calendar.MakeDate | src/components/appointmentProfessor.js:110 | the date built for day 1-31 and month 1-12 is a real date in the given year, never earlier than the literal day; a day past the month's end rolls over into the next month by the excess |
| Calendar.MakeDateValid | src/components/appointmentProfessor.js:110 | a real date is taken as it is |
| Calendar.MatchDate | src/components/appointmentProfessor.js:13 | a match yields a day group and a month group with one separator between them, covering the whole text |
| Calendar.MatchDateComplete | src/components/appointmentProfessor.js:13 | every text of the pattern's language is matched, with the intended groups |
| Calendar.DayTokenValue | src/components/appointmentProfessor.js:13 | a two-character day group is exactly a two-digit number 01-31 |
| Calendar.MonthTokenValue | src/components/appointmentProfessor.js:13 | a two-character month group is exactly a two-digit number 01-12 |
| Calendar.CheckDate | src/components/appointmentProfessor.js:101-115 | an accepted date is a real date in today's year, strictly after today |
| Calendar.DigitCountImplied | src/components/appointmentProfessor.js:102 | the digit-count test never fails once the length is 5 and the pattern matched |
| Calendar.DateFormatIff | src/components/appointmentProfessor.js:101-109 | the format checks pass exactly on `DD?MM` with `?` one of `/ - .`, day 01-31 and month 01-12 |
| Calendar.DateAcceptance | src/components/appointmentProfessor.js:101-116 | a date is accepted iff it has that shape and, in today's year, lies after today; it is stored as that day |
| Calendar.MatchTime | src/components/appointmentProfessor.js:14 | a match yields an hour group and a minute group that make up the text, with or without a colon |
| Calendar.MatchTimeComplete | src/components/appointmentProfessor.js:14 | every text of the pattern's language is matched, with the intended groups |
| Calendar.CheckTime | src/components/appointmentProfessor.js:131-145 | an accepted time has an hour from 8 to 17 and a minute of at most 59 |
| Calendar.TimeClassification | src/components/appointmentProfessor.js:131-145 | a format error iff the text is not `HH(:)MM` with HH 00-23 and MM 00-59; otherwise "too late" iff the hour is 18 or more, "too early" iff it is below 8, and accepted exactly for hours 8-17, with the hour and minute read from the text |
| Util.AnyWordMatches | src/util.js:280-284 | the inner loop sets the flag iff the pattern matches some word |
| Util.ScreenFrom | src/util.js:275-286 | the outer `reduce` is true iff it started true or some pattern matches some word |
| Util.CheckForBadWords | src/util.js:274-287 | true iff some bad-word pattern matches some word of the subject split at single spaces; an empty list condemns nothing |
| Util.OneBadWordCondemns | src/util.js:274-287 | for a subject of words joined by single spaces, one matching word condemns it wherever it stands: first, last, alone or in between |
| Util.ArrayToMap | src/util.js:169-173 | every stored element is an element of the array, filed under its own key |
| Util.ArrayToMapKeys | src/util.js:169-173 | the map has exactly the keys of the elements |
| Util.ArrayToMapLastWins | src/util.js:169-173 | when keys repeat, the last element with the key is stored |
| Util.TagLength | src/util.js:123 | `<.*?>` ends at the first `>` after the `<`, with no line terminator before it; there is no match iff every `>` comes after a line terminator |
| Util.StripTags | src/util.js:123 | the replacement never lengthens the text and introduces no character except spaces |
| Util.StripTagsTagFree | src/util.js:123 | after the global tag replacement, every `<` is separated from any later `>` by a line terminator |
| Util.StripTagsKeepsUnclosed | src/util.js:123 | a `<` with no `>` before the end of its line is kept, and the scan continues right after it |
| Util.StripTagsPlain | src/util.js:123 | text without `<` passes the tag replacement unchanged |
| Util.StripTagsPlainPrefix | src/util.js:123 | a prefix without `<` passes unchanged and the rest is replaced on its own |
| Util.StripOneTag | src/util.js:123 | a whole tag is replaced by exactly one space, and replacement resumes after it |
| Util.ReplaceFirst | src/util.js:123 | `replace` with a string pattern replaces the first occurrence only, and leaves a text without the pattern unchanged |
| Util.CleanDescription | src/util.js:123 | the cleaned content holds no tag: every `<` is separated from any later `>` by a line terminator |
| Util.CleanTaggedText | src/util.js:123 | a text wrapped in one CDATA section and led by one tag comes out with the wrapper removed and the tag replaced by a space |
| Util.CleanWrappedText | src/util.js:123 | plain text wrapped in one CDATA section comes out as exactly that text |
| Util.NewsOf | src/util.js:121-124 | the entry of one item carries the item's first title and a tag-free content |
| Util.ExtractNews | src/util.js:119-126 | one news item per RSS item, in order, titled with the first title and holding the cleaned first description; no result iff some item lacks either |
| Util.LinesWithMeals | src/util.js:153-158 | the kept lines are exactly the lines with a non-empty meal list |
| Util.LinesWithMealsAppend | src/util.js:153-158 | the filter works piecewise, so kept lines keep their order |
| Util.LinesWithMealsIdempotent | src/util.js:153-158 | filtering twice is filtering once |
| Courses.Placement | src/util.js:196-210 | a filed semester has its truthy faculty id and a course name of at most 45 characters |
| Courses.Prefix | src/util.js:210 | `slice(0, n)` is the prefix of length `n`, or the whole name when it is shorter |
| Courses.SkipRule | src/util.js:196-208 | a semester is skipped iff it has no truthy faculty id, or its link contains DSCB but none of WIIM, WIIB and IIBB |
| Courses.RenamePrecedence | src/util.js:196-210 | on every semester with a faculty: a link with WIIM files under the master's name; else one with WIIB under the bachelor's name; else one with IIBB under the business name; with none of these and no DSCB, under its own name cut to 45 characters |
| Courses.BachelorBeforeDataScience | src/util.js:200-208 | a link with both WIIB and DSCB is filed as the bachelor's programme, not skipped |
| Courses.File | src/util.js:213-253 | filing keeps the catalogue well shaped: no empty faculty or course, no course name over 45 characters |
| Courses.FileAt | src/util.js:213-253 | after filing, the course is present; its list is the new entry alone when the course is new, unchanged when its semester number is already listed, and extended by the entry otherwise; every other course keeps its list |
| Courses.AddSemester | src/util.js:195-254 | one step of the grouping keeps the catalogue well shaped; an ignored semester leaves the catalogue unchanged, and a placed one makes its faculty and course present |
| Courses.GroupSemesters | src/util.js:194-255 | no faculty without a course, no course without a semester, no course name over 45 characters |
| Courses.FirstPerSemester | src/util.js:218-222 | the kept entries come from the input and have pairwise distinct semester numbers |
| Courses.FirstPerSemesterComplete | src/util.js:218-222 | every semester number of the input is kept |
| Courses.FirstPerSemesterFirst | src/util.js:218-222 | the entry kept for a number is its first occurrence |
| Courses.GroupingContents | src/util.js:194-255 | a course of a faculty is present iff some semester is filed under it, and its list is the first entry per semester number among those, in input order |
| Courses.SemestersDistinct | src/util.js:218-222 | the semester numbers of one course are pairwise distinct |
| Courses.SemesterListed | src/util.js:194-255 | every semester filed under a course has its number in that course's list |
| Courses.FacultyIds | src/util.js:258-265 | the collected ids are truthy (never 0), at most one per semester |
| Courses.FacultyIdsMembers | src/util.js:258-265 | the collected ids are exactly the truthy faculty ids of the list |
| Courses.FacultyIdsAppend | src/util.js:258-265 | the ids of two lists are collected one after the other, so they come in list order |
| Courses.AllFaculties | src/util.js:256-267 | `allFaculties` holds every truthy faculty id of the list exactly once |
| Courses.AllFacultiesOrder | src/util.js:256-267 | `allFaculties` lists faculties in order of first appearance: a faculty listed before another is offered by some semester before every semester of the other |
| Courses.CatalogFacultiesListed | src/util.js:256-267 | every faculty of the catalogue appears in `allFaculties` |
| Courses.DataScienceOnlyFaculty | src/util.js:206-207 | a faculty with only DSCB semesters appears in `allFaculties` but has no courses |
| Wizard.Enter | src/components/appointmentProfessor.js:31-35 | entering the scene replies with exactly the surname prompt and waits for the surname with nothing selected |
| Wizard.Silent | src/components/appointmentProfessor.js:37-38 | an update is ignored iff it carries no non-empty text |
| Wizard.IsYes | src/components/appointmentProfessor.js:84 | the confirmation is exactly the two-letter text "ja" or "Ja" |
| Wizard.Choices | src/components/appointmentProfessor.js:51-55 | one button per candidate, in order, carrying the candidate's rendered id |
| Wizard.SingleCandidateReplies | src/components/appointmentProfessor.js:60-64 | the question about the candidate, then the photo iff the image URL does not contain "dummy" |
| Wizard.NameStep | src/components/appointmentProfessor.js:36-67 | no text changes nothing; a stop text cancels and replies only with the abort acknowledgement; a name resolving to a non-empty group moves to the confirmation with that group, asking to choose among several candidates (selection unchanged) or asking about a lone candidate (who becomes the selection, with a photo unless it is a placeholder); it throws iff the directory or the group is empty: with an empty directory the step stays with the selection kept, and with an empty group it stays with the selection cleared, since `foundProfs[0]` is stored before the throw |
| Wizard.FindById | src/components/appointmentProfessor.js:80 | the first candidate whose rendered id equals the button data; `None` iff there is none |
| Wizard.ConfirmStep | src/components/appointmentProfessor.js:68-91 | a stop text cancels and replies only with the abort acknowledgement; a button with data selects the first candidate whose id renders as that data and moves to the date step; "ja"/"Ja" moves on keeping the stored selection; any other update goes back to the surname step with the selection kept |
| Wizard.DateStep | src/components/appointmentProfessor.js:92-121 | no text changes nothing; a stop text cancels and replies only with the abort acknowledgement; a malformed date gets the format hint and a date not after today the future hint, both staying with the selection kept; an accepted date is a real date after today, stored with the selection unchanged, and gets the ask-for-time reply |
| Wizard.TimeStep | src/components/appointmentProfessor.js:122-152 | no text changes nothing; a stop text cancels and replies only with the abort acknowledgement; a malformed time gets the format hint and an hour from 18 the "too late" hint, staying with selection and date kept; with a selection, a too-early hour gets the "asleep" hint and an accepted time moves to the subject step with the shifted hour and the minute, replying with the ask-for-subject text; without a selection, a too-early or accepted time throws and the step stays; moving on stores an hour of 8-17 (6-15 in production) and a minute of at most 59 |
| Wizard.SubjectStep | src/components/appointmentProfessor.js:153-188 | no text changes nothing; a stop text cancels and replies only with the abort acknowledgement; a subject failing the bad-word screen gets the "not nice" reply and stays; the appointment is saved iff the subject passes, and then exactly one confirmation and one save follow |
| Wizard.Step | src/components/appointmentProfessor.js:29-189 | a stop text cancels at every step after the first; an appointment is saved only at the subject step, which ends the scene; after the scene is left nothing happens |
| Wizard.ButtonSelects | src/components/appointmentProfessor.js:51-55 | pressing the button offered for a candidate selects exactly that candidate when no earlier candidate shares its id |
| Wizard.DateTextNotStop | src/components/appointmentProfessor.js:93-100 | a well-formed date is never read as "stop" or as missing text |
| Wizard.TimeTextNotStop | src/components/appointmentProfessor.js:123-130 | a well-formed time is never read as "stop" or as missing text |
| Wizard.DateStepAcceptance | src/components/appointmentProfessor.js:92-121 | the date step moves on exactly for a well-formed date after today, and stores that date |
| Wizard.TimeStepAcceptance | src/components/appointmentProfessor.js:122-152 | with a selection, the time step moves on exactly for a well-formed time from 08:00 to 17:59, and stores the hour shifted by 2 in production and the minute |
| Wizard.OffensiveSubjectRefused | src/components/appointmentProfessor.js:163-165 | a subject of words joined by single spaces is not saved when any one of its words offends, wherever it stands |
| Wizard.ExactSurname | src/components/appointmentProfessor.js:45-66 | typing a surname of the directory exactly offers that surname's group, and a lone professor is selected at once |
| Wizard.SilentIgnored | src/components/appointmentProfessor.js:37-40 | at the surname, date, time and subject steps, an update without text changes nothing and gets no reply |
| Wizard.IsStop | src/components/appointmentProfessor.js:41 | an update is a stop iff it is a text in which four consecutive characters spell "stop" in any mix of cases |
| Wizard.NearestGroupOffered | src/components/appointmentProfessor.js:45-66 | any typed name that is not a stop reaches the confirmation with the group of a nearest surname, when the directory is non-empty and has no empty group |
| WizardRun.StepPreservesValid | src/components/appointmentProfessor.js:29-189 | every step keeps the invariant: the stored candidates form a directory group, the selection is in the directory, the date is after today, and the time is within office hours |
| WizardRun.StepSavesOk | src/components/appointmentProfessor.js:163-187 | an appointment saved from a valid state names a directory professor, a day after today, office hours and a clean non-empty subject |
| WizardRun.RunValid | src/components/appointmentProfessor.js:29-189 | over a whole conversation the invariant holds and every saved appointment meets those guarantees |
| WizardRun.Run | src/components/appointmentProfessor.js:29-189 | once the scene is left, further updates do nothing |
| WizardRun.RunCancelledOnlyByStop | src/components/appointmentProfessor.js:41-44 | a conversation ends cancelled only if it was already cancelled or some update was a stop text |
| WizardRun.RunAppend | src/components/appointmentProfessor.js:29-189 | two batches of updates fed one after the other behave as the whole batch |
| WizardRun.RunSavesAtMostOnce | src/components/appointmentProfessor.js:182-187 | a conversation saves at most one appointment, and a saving conversation ends in the saved state |
| WizardRun.StepSavesOnce | src/components/appointmentProfessor.js:182-187 | a single update saves at most one appointment, and only when it moves the conversation to the saved state |
| WizardRun.SavedProfessorFromCatalog | src/components/appointmentProfessor.js:18-27 | on the directory built from the catalog, every saved professor is a non-deleted catalog record with "Prof" in the degree |
| WizardRun.HappyPath | src/components/appointmentProfessor.js:29-189 | a concrete conversation (surname, "ja", date, time, subject) saves exactly the expected appointment |

## Left out

- I/O is not modelled:
  - the HTTP requests for the people catalog, the semester list, the RSS feed and the canteen menus;
  - the iCal parsing;
  - the Firestore reads and writes, including `saveAppointmentForUser` and its random id. Saving is the `Save` effect.
- Telegram wiring is not modelled: the scene and stage objects, the menus of `settings.js` and `mainMenue.js`, and `index.js`. The reply texts are represented by what they mean, not by their German wording.
- Clock and environment are parameters: "today" (the UTC date) and the production flag are fields of `Wizard.Env`.
- Wizard.DateStep: the year is today's year. JavaScript takes the local year but compares against the UTC date, and that mismatch around New Year is not modelled.
- Wizard.TimeStep: `setHours` works in the server's local time zone. The stored hour is modelled as the shifted number itself; a shift below midnight cannot occur, because accepted hours start at 8.
- The "tomorrow" hint in the date prompts, which can print a day 32, is not modelled. Neither is the locale-formatted confirmation text.
- The regular-expression engine behind the bad-word list is the parameter `matches`, and the bad-word list itself is a parameter.
- Strings are sequences of characters, not UTF-16 code units. So `slice(0, 45)` and the edit distance count characters.
- The Levenshtein and get-closest libraries are replaced by the edit-distance definition `Levenshtein.Lev`, with the first minimum winning ties.
- JavaScript object key order is simplified:
  - The surname index is modelled as an insertion-ordered list, which ignores that integer-like keys are enumerated first.
  - Surnames that collide with `Object.prototype` properties (such as "constructor") are not modelled.
  - The key order of `coursesByFaculty` is not modelled, because it is a Dafny map.
- Courses.Placement: a course without a name (where `slice` on `undefined` throws) is not modelled. Course names are plain strings.
- Util.ExtractNews: the navigation of the parsed feed down to its item list is not modelled, and neither is a feed without items. The input is the item list.
- `getCanteenMenu` is not modelled beyond its line filter. The menu fetch and the canteen-name fallback are I/O.
