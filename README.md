# StudyOS academic core, modelled in Dafny

StudyOS is a Flask study planner. Each learner has a profile document holding the following:
- a purpose (`highschool`, `exam` or `after_tenth`) and the board, grade, exam or stream that goes with it;
- chapter completion flags and chapter exclusions;
- goals, tasks and exam results;
- a login streak and profile lists.

This project models the bookkeeping layer that sits between that document and the pages:

- **Curriculum lookup** (`Curriculum`). This covers `get_syllabus` and `get_available_subjects` over the static syllabus table.
  - The table is a parameter, and it keeps its insertion order.
  - The board falls back to CBSE.
  - The after-tenth subject filter is strict.
  - The duplicate `Chemistry` key in the grade-10 literal is modelled: its first position is kept, and the last value wins.
- **Progress** (`Progress`). `calculate_academic_progress` is a loop over the syllabus with its zero guards.
  - It reproduces the exclusion test that reads the leaking loop variable `chapter_name`.
  - Because of that quirk, the syllabus is an ordered list of subjects, and each subject's chapters are ordered too.
- **Scores** (`Scores`). This covers `calculate_average_percentage` and the statistics page, which groups results by test label and builds a dated timeline.
- **Dashboard** (`Dashboard`). This covers the per-chapter `completed`/`excluded` table shown on the academic dashboard and the order in which results are displayed.
- **Learner record** (`Learner`). This covers the updates the routes make to the profile document:
  - the two chapter toggles;
  - the login streak;
  - goal and task add, toggle and delete;
  - exam-result add and delete;
  - the comma-separated profile lists.

  The updates are pure functions over the document, with lemmas about each. A `LearnerRecord` class holds the document and applies the functions in place.
- **Catalogue lookups** (`Catalog`). These cover `get_career_by_id`, including the way it writes the domain into the stored career record, as well as `get_course_by_id` and `get_internship_by_id`.
- **Assistant** (`Assistant`). This covers:
  - `get_academic_context`;
  - the plain-text and "markdown" thread exporters;
  - the keyword routing, echo truncation and subject text of the offline answers;
  - the thread-document filter and ordering of `get_user_threads`.

Several modules hold shared building blocks:
- `Dicts` models Python's insertion-ordered dicts as lists of pairs.
- `Text` models the string methods the code uses: `strip`, `split`, `join`, `lower`, `startswith` and `endswith`.
- `Sorting` models a stable sort on text keys.
- `Rounding` models `round(x, 1)` and `round(x, 2)`.

Conventions:
- Numbers are exact reals.
- Dates are day numbers.
- Anything read from the request, the clock or the database is a parameter.

## Model

| member | source | states |
|---|---|---|
| Curriculum.BoardFallback | templates/academic_data.py:2262-2271 | for the school and after-tenth purposes, a board the table lacks or holds empty is answered exactly as CBSE would be |
| Curriculum.MissingGradeIsEmpty | templates/academic_data.py:2264-2273 | a missing or empty grade, or a grade absent under the chosen board, yields the empty syllabus whatever subjects are asked for |
| Curriculum.StrictSubjectFilter | templates/academic_data.py:2275-2277 | for after-tenth with a non-empty subject list, the result's subjects are exactly the requested ones that exist for the grade, each with its table entry; no fallback to the whole grade |
| Curriculum.FilterSubjectsSpec | templates/academic_data.py:2277 | the dict comprehension keeps a subject iff it was requested and exists, copies its entry unchanged and builds a proper dict |
| Curriculum.LookupCases | templates/academic_data.py:2262-2284 | school (or after-tenth without a usable list) returns the whole grade map; `exam`/`exams` return the exam entry or empty; any other purpose returns empty |
| Curriculum.ResultIsSubMap | templates/academic_data.py:2257-2284 | on a table whose dicts have unique keys, every lookup result is a sub-map of the unfiltered result: no subject is invented |
| Curriculum.AvailableSubjectsAreKeys | templates/academic_data.py:2286-2289 | the available subjects are exactly the keys of the unfiltered syllabus in order, and empty iff that syllabus is empty |
| Curriculum.DuplicateChemistryKey | templates/academic_data.py:936-992 | the grade-10 literal with `Chemistry` twice has three subjects, `Chemistry` in its first position, holding the later of the two (identical) entries |
| Curriculum.FirstOccurrencesGrade10 | templates/academic_data.py:936-992 | the key order of that literal keeps only the first `Chemistry` |
| Dicts.FromPairsKeyOrder | templates/academic_data.py:936-992 | a dict literal's keys are the literal's keys at their first occurrence |
| Dicts.FromPairsLastWins | templates/academic_data.py:936-992 | a dict literal holds, under a repeated key, the value of its last pair |
| Dicts.SetGet | app.py:94 | after `d[k] = v`, `k` holds `v` and every other key holds what it held |
| Progress.CalculateAcademicProgress | app.py:61-98 | the loop returns the report of the learner's syllabus, flags, exclusions and stored `chapter_name` |
| Progress.VisitSubject | app.py:80-96 | one pass of the subject loop updates `by_subject`, both totals and the leaking `chapter_name` as one step of the specification |
| Progress.CountChapters | app.py:89-93 | the inner loop counts the chapters whose completion flag is truthy and leaves `chapter_name` at the last chapter key |
| Progress.CountCompleted | app.py:89-93 | a subject never has more completed chapters than chapters |
| Progress.PercentBounds | app.py:94 | a rounded share of at most the whole lies in [0, 100] |
| Progress.TallyBounds | app.py:80-96 | after any prefix of subjects, total completed ≤ total chapters, each subject percentage is in [0, 100], and only syllabus subjects are reported |
| Progress.ProgressBounds | app.py:75-97 | an empty syllabus gives the all-zero report; overall is 0 when there are no chapters; completed ≤ chapters; overall and every subject percentage lie in [0, 100] |
| Progress.NoChaptersNoProgress | app.py:86-88 | subjects without chapters add nothing to either total and leave `chapter_name` alone |
| Progress.ZeroChapterSubject | app.py:86-88 | a chapterless subject changes no total and, unless excluded, is reported as 0 |
| Progress.ChapterNameAfterTurn | app.py:83-91 | `chapter_name` starts as the stored value and is rebound to a subject's last chapter only when that subject passes both the exclusion and the zero-chapter test |
| Progress.StepKeys | app.py:84-94 | one subject's pass adds at most its own `by_subject` entry, and adds it iff the subject is not excluded |
| Progress.SubjectReported | app.py:83-85 | a subject appears in `by_subject` iff its exclusion key, built from the leaked `chapter_name`, is not truthy |
| Progress.CountCompletedAgrees | app.py:90-93 | the completed count depends only on the flags of the subject's own chapters |
| Progress.FlagsOutsideSyllabusIgnored | app.py:89-96 | completion flags for chapters not in the syllabus do not change the result |
| Progress.LeakedNameDropsNextSubject | app.py:65-91 | with the exclusion `Physics::Algebra`, the subject after a Mathematics subject ending in `Algebra` is dropped entirely |
| Progress.ChapterExclusionIgnored | app.py:83-85 | excluding a chapter by its own key does not remove it from the count unless the key happens to match the leaked name |
| Scores.CalculateAveragePercentage | app.py:100-117 | the loop returns the rounded mean of the valid percentages, or 0 |
| Scores.ValidPercentages | app.py:101-113 | at most one percentage per result |
| Scores.ValidPercentagesAppend | app.py:103-113 | each result contributes independently of the others |
| Scores.ValidPercentagesMembers | app.py:103-113 | a value is collected iff some result parses with a positive maximum and gives that percentage |
| Scores.SkippedResultIgnored | app.py:105-112 | a result that fails to parse or has a non-positive maximum does not affect the average |
| Scores.NoValidResultsGiveZero | app.py:114-115 | no valid result gives an average of 0 |
| Scores.AverageIsRoundedMean | app.py:117 | the average is within 0.05 of the exact mean of the valid percentages |
| Scores.AverageBounds | app.py:100-117 | with scores between 0 and their maximum, the average lies in [0, 100] |
| Scores.ScoreNotClamped | app.py:108-110 | a score above its maximum gives a percentage above 100 |
| Scores.Collect | app.py:856-869 | every group of the statistics loop holds at least one percentage |
| Scores.Averages | app.py:871-875 | the averaged dict has the same keys, in the same order, as the grouping |
| Scores.StatisticsDashboard | app.py:847-884 | the route's loop computes the page as written, grouping by `test_type` |
| Scores.GroupHoldsPercentages | app.py:855-863 | the group under a label holds exactly the percentages of the taking-part results with that label, in result order |
| Scores.TimelineHoldsDatedPoints | app.py:865-869 | the collected timeline holds, in result order, one point (date, percentage rounded to 2 places) per taking-part result with a non-empty exam date |
| Scores.AveragesGet | app.py:871-875 | each label's average is its group's sum over its length, rounded to 2 places; an absent label has no average |
| Scores.StatisticsAverages | app.py:855-877 | a label that occurs has average round(sum(P)/len(P), 2) over its non-empty percentage list P, one that does not has none; the timeline is a reordering of the dated points; the streak is passed through |
| Scores.FailsIffBrokenResult | app.py:856-861 | the page fails iff some result with a truthy maximum has a score that is missing or not a number |
| Scores.GroupsAreLabels | app.py:861-863 | the groups are exactly the labels of the results that take part |
| Scores.TimelineInDateOrder | app.py:865-877 | the timeline is a permutation of the dated points, in ascending date order |
| Scores.AsWrittenSingleGroup | app.py:861 | results stored by the app carry no `test_type`, so every result falls into the single group `None` |
| Scores.CorrectedGroupsByTestType | app.py:861 | grouping by the stored `test_types` yields one group per test label that occurs, whose average is round(sum(P)/len(P), 2) over that label's percentages P |
| Rounding.Round1Error | app.py:117 | `round(x, 1)` is within 0.05 of `x` |
| Rounding.Round2Error | app.py:874 | `round(x, 2)` is within 0.005 of `x` |
| Rounding.Round1Bounds | app.py:94 | rounding keeps a percentage within [0, 100] |
| Dashboard.BuildSyllabusFlat | app.py:503-519 | the loop builds, for every subject, the status table of its chapters |
| Dashboard.BuildRow | app.py:505-519 | one subject's chapter statuses, in chapter order |
| Dashboard.ChapterStatusFor | app.py:509-518 | the status of one chapter |
| Dashboard.ChapterStatusShown | app.py:509-519 | every chapter of every subject has a status; `excluded` is the truthiness of its exclusion; an excluded chapter is never `completed`, and otherwise `completed` is its flag |
| Dashboard.FlatSubjects | app.py:504-506 | the table lists exactly the syllabus subjects, in order |
| Dashboard.DisplaySortIsIdentity | app.py:539 | sorting on the absent `date` key leaves the results in stored order |
| Dashboard.DisplayedResultsNewestFirst | app.py:539 | sorting on `exam_date` descending keeps exactly the stored results and puts the newest first |
| Sorting.SortBySorted | ai_assistant.py:417 | the sort returns a permutation of its input, in key order |
| Sorting.SortBySameKey | app.py:539 | when every key is equal, the stable sort changes nothing |
| Learner.ToggleCompletionFlipsOne | app.py:598-602 | toggling flips exactly one flag, counting an absent one as false; other subjects keep their flags |
| Learner.ToggleCompletionTwice | app.py:598-602 | toggling the same chapter twice restores every flag's truthiness |
| Learner.ToggleExclusionFlipsOne | app.py:627-633 | toggling removes a truthy key or sets it true; every other key keeps its presence and value |
| Learner.ToggleExclusionTwice | app.py:627-633 | toggling the same key twice restores its truthiness |
| Learner.LoginStreakRule | app.py:332-350 | first login gives 1; same day keeps the streak; the next day adds one; an unreadable date writes nothing; otherwise only the date and the streak change |
| Learner.ConsecutiveLoginsCount | app.py:336-345 | `n` logins on consecutive days from no login give a streak of `n` |
| Learner.SameDayLoginIdempotent | app.py:338-339 | a second login on the same day changes nothing |
| Learner.GapRestartsStreak | app.py:342-343 | a login after a gap restarts the streak at 1 |
| Learner.AppendEntryAdds | app.py:716-723 | an add keeps the list and appends one open entry whose id is the old length |
| Learner.FirstIndexOf | app.py:730-733 | finds the first entry with the id, or reports that none has it |
| Learner.ToggleFirstEntry | app.py:730-733 | the toggle loop flips the first matching entry and stops |
| Learner.ToggleTouchesFirstMatchOnly | app.py:730-733 | only the first entry with the id is changed, and only its `completed` flag |
| Learner.ToggleFirstTwice | app.py:730-733 | toggling the same id twice restores the list |
| Learner.DeleteIdMembers | app.py:738 | an entry survives a delete iff it was there and has another id |
| Learner.DeleteIdUnused | app.py:738 | deleting an id no entry has leaves the list unchanged |
| Learner.DeleteRemovesOnlyChosen | app.py:738 | with distinct ids, deleting one removes exactly that entry and keeps the rest in order |
| Learner.IdsCollideAfterDelete | app.py:716-738 | add, add, delete id 0, add gives two entries with id 1, and deleting one deletes both |
| Learner.NextId | app.py:717 | the fresh id exceeds every id in the list |
| Learner.FreshIdsStayUnique | app.py:716-738 | with fresh ids, adds and deletes keep the ids distinct |
| Learner.DeleteIdSublist | app.py:738 | a delete keeps distinct ids distinct |
| Learner.AddedResultCounts | app.py:808-817 | an added result contributes its score over its maximum, which defaults to 100, to the average |
| Learner.DeleteResultById | app.py:828-831 | deleting by the text of an id removes exactly the results with that id |
| Learner.CleanItems | app.py:457 | every kept item is non-empty and stripped |
| Learner.ParseList | app.py:457-460 | parsing a comma list yields non-empty stripped items |
| Learner.ParseBlank | app.py:457 | blank text parses to no items |
| Learner.ParseSingle | app.py:457 | one comma-free item parses to itself |
| Learner.ParseJoinPadded | app.py:457-473 | parsing the `', '`-join of comma-free stripped items, with or without a leading blank, gives them back |
| Learner.ParseJoinRoundTrip | app.py:457-473 | re-parsing the displayed join of such a list returns the same list |
| Learner.LearnerRecord.constructor | app.py:55-59 | the record holds the document read |
| Learner.LearnerRecord.ToggleChapterCompletion | app.py:590-603 | with both names present, only `chapters_completed` changes, by the toggle; otherwise nothing changes |
| Learner.LearnerRecord.ToggleChapterExclusion | app.py:609-635 | with both names present, only `academic_exclusions` changes, by the toggle of `subject::chapter`; otherwise nothing changes |
| Learner.LearnerRecord.RecordLogin | app.py:332-350 | the document becomes its state after the login rule |
| Learner.LearnerRecord.AddGoal | app.py:711-725 | with a title, only `goals` changes, by the append; otherwise nothing changes |
| Learner.LearnerRecord.ToggleGoal | app.py:726-734 | only `goals` changes, by the first-match toggle |
| Learner.LearnerRecord.DeleteGoal | app.py:735-740 | only `goals` changes, losing every entry with the id |
| Learner.LearnerRecord.AddTask | app.py:755-769 | with a title, only `tasks` changes, by the append |
| Learner.LearnerRecord.ToggleTask | app.py:770-778 | only `tasks` changes, by the first-match toggle |
| Learner.LearnerRecord.DeleteTask | app.py:779-784 | only `tasks` changes, losing every entry with the id |
| Learner.LearnerRecord.AddResult | app.py:801-823 | with a label and a score, only `exam_results` changes, by appending the new result; otherwise nothing changes |
| Learner.LearnerRecord.DeleteResult | app.py:825-836 | with an id given, only `exam_results` changes, losing the results whose id text matches |
| Learner.LearnerRecord.EditProfile | app.py:454-462 | name and about are replaced and the four lists are re-parsed; nothing else changes |
| Text.StripStripped | app.py:457 | stripping already-stripped text changes nothing |
| Text.SplitAtSep | app.py:457 | splitting at the first separator gives its left part, then the split of the rest |
| Text.DecimalTextInjective | app.py:830 | different ids have different texts |
| Catalog.FindById | app.py:199-209 | the scan returns `None` iff no element has the id, and otherwise the first element that has it |
| Catalog.GetCourseById | app.py:199-203 | the first course with the id, or `None` iff none has it |
| Catalog.GetInternshipById | app.py:205-209 | the first internship with the id, or `None` iff none has it |
| Catalog.FindCareerIn | app.py:193-196 | the position of the first career with the id in one domain |
| Catalog.Stamped | app.py:195 | the returned career is the stored one, carrying its domain's name |
| Catalog.Stamp | app.py:195 | the write changes that one career and nothing else in the table |
| Catalog.StampIdempotent | app.py:191-197 | after the write, the same career is still the first match, a repeat lookup returns the same record, and writing again changes nothing |
| Catalog.CareerCatalog.constructor | app.py:149-171 | the catalogue holds the given career table |
| Catalog.CareerCatalog.GetCareerById | app.py:191-197 | returns `None` iff no career has the id, leaving the table alone; otherwise returns the first match in domain order, stamped with its domain, and the table holds the stamped record |
| Assistant.LastFive | ai_assistant.py:237-238 | the last five results, or all of them when there are fewer, in stored order |
| Assistant.ContextFor | ai_assistant.py:185-240 | momentum, consistency and readiness are always 0; overall and per-subject progress are the learner's; the history is the last five results; purpose, goals and time studied are copied |
| Assistant.AsWrittenContextMissesLearner | ai_assistant.py:199-213 | a school or exam learner gets no subjects, grade, board or exam type |
| Assistant.AsWrittenContextDiffers | ai_assistant.py:199-206 | a school learner with a non-empty syllabus gets no subjects as written, and the subjects when the stored purpose texts are used |
| Assistant.CorrectedContextSubjects | ai_assistant.py:199-213 | with the stored purpose texts, the subjects are the keys of the learner's syllabus |
| Assistant.AfterTenthContextSubjects | ai_assistant.py:215-223 | an after-tenth learner gets the filtered syllabus's subjects, or the requested list when that syllabus is empty |
| Assistant.Stamp | ai_assistant.py:550 | a message shows at most 19 leading characters of its timestamp, or `Unknown` when it is missing or empty |
| Assistant.Separator | ai_assistant.py:547 | the separator is 50 dashes |
| Assistant.RoleLabel | ai_assistant.py:551 | the label is `AI` iff the role is `assistant`, otherwise `You` |
| Assistant.FormatThreadAsText | ai_assistant.py:541-555 | the loop joins the header, one line per message and the closing separator with newlines |
| Assistant.TextExportShape | ai_assistant.py:541-555 | the text export has 5 + n lines: the title line (default `Untitled`), the mode line (`_` as spaces, title-cased, default `Unknown`), the created line (default `Unknown`), a separator, one `[stamp] AI/You: content` line per message in order, and a closing separator |
| Assistant.MarkdownBody | ai_assistant.py:565-572 | three entries per message |
| Assistant.MarkdownBodyAt | ai_assistant.py:565-572 | the entries of message `i` sit at positions 3i to 3i+2 |
| Assistant.FormatThreadAsMarkdown | ai_assistant.py:557-574 | the loop joins the header and three entries per message with newlines |
| Assistant.MarkdownExportShape | ai_assistant.py:557-574 | the second export has 4 + 3n lines with no closing separator; each message contributes a heading, its content and an empty line |
| Assistant.AnyIn | ai_assistant.py:707-711 | a keyword test succeeds only if some keyword occurs in the text |
| Assistant.AnyInFound | ai_assistant.py:707-711 | a keyword test succeeds if some keyword occurs in the text |
| Assistant.ClassifyIgnoresCase | ai_assistant.py:701 | routing depends only on the lower-cased question |
| Assistant.MathFirst | ai_assistant.py:706-708 | a question holding a math keyword is routed to math |
| Assistant.ScienceSecond | ai_assistant.py:709-710 | without math keywords, a science keyword routes to science |
| Assistant.LanguageThird | ai_assistant.py:711-712 | without math or science keywords, a language keyword routes to language |
| Assistant.GeneralMeansNoKeyword | ai_assistant.py:701-712 | a general question contains no keyword of any list |
| Assistant.SectionFor | ai_assistant.py:724-760 | language and general questions share the study-approach section |
| Assistant.Echo | ai_assistant.py:714 | a question of at most 100 characters is echoed whole; a longer one as its first 100 characters followed by `...` |
| Assistant.FocusAreas | ai_assistant.py:651 | at most the first three subjects, followed by ` and more` iff there are more than three |
| Assistant.RelevantSubjectsRunTogether | ai_assistant.py:720 | one subject is shown run into the fallback text |
| Assistant.RelevantSubjectsCorrected | ai_assistant.py:720 | the corrected text shows the fallback only for no subjects, and agrees with the code whenever the code's text is not run together |
| Assistant.ThreadDocHasUnderscore | ai_assistant.py:411 | every kept document id holds an underscore |
| Assistant.ThreadOf | ai_assistant.py:412-413 | the thread id is the stored one, or the text after the first underscore of the document id |
| Assistant.GetUserThreads | ai_assistant.py:393-417 | a missing learner gives no threads; otherwise the kept threads, most recent first |
| Assistant.ThreadsOfMembers | ai_assistant.py:408-414 | a thread is listed iff some document of the type that is neither the active-thread nor the list document yields it |
| Assistant.UserThreadsSpec | ai_assistant.py:408-417 | the listing is a permutation of the kept threads, ordered by `last_message_at` descending, and holds exactly the threads the filter yields |

## Left out

- Firestore and Flask. Document reads and writes, sessions, flashes, redirects and templates are not modelled. The document read is a `UserData` value, and the update written back is its new value.
- Request forms and the clock. Form fields are parameters. A missing or empty field is `None` or `""`. `date.today()` and `utcnow()` become integer days and given texts. The timestamp-based result id is a parameter.
- `int(request.form.get(...))` on a non-numeric goal or task id. It raises before any write, and the model takes the id as an integer.
- Password hashing, the Gemini client, prompt building and thread persistence (saving messages, creating, switching, renaming and deleting threads). These are foreign calls or storage operations.
- The prose of the fallback answers beyond the routed section, the echo, the focus areas and the relevant-subjects text. The Unicode behaviour of `.lower()`, `.title()` and `.strip()` beyond ASCII and the whitespace set listed in `Text.IsSpace` is also left out.
- Binary floating point. Percentages are exact reals. `round` is half-up on reals, not round-half-even on binary floats. `float()` parsing is the `Value` abstraction:
  - absent;
  - `None`;
  - a number;
  - a text `float()` rejects.

  A number stored as text is not distinguished from a number, because the app stores floats.
- Scores.StatisticsDashboard: a numeric score stored as text would fail the statistics page in Python but is a `Num` here. The corrected grouping is `Scores.StatisticsCorrected`, whose groups `Scores.CorrectedGroupsByTestType` states.
- Progress.CalculateAcademicProgress takes the syllabus already looked up (`Progress.LearnerSyllabus`). It does not repeat the lookup, which is pure.
- Curriculum lookups: a `subjects` argument that is not a list, and a missing one, are both `None`. An after-tenth `subjects` value that is not a list makes the context fall back to `[]`.
- Learner.LearnerRecord.AddResult takes the score and maximum already parsed: a form text `float()` rejects raises before any write, which is not modelled.
- `Sorting.SortBy` is stable, but stability is proved only for equal keys (`Sorting.SortBySameKey`), not in general.
- Learner.LearnerRecord.AddGoal and Learner.LearnerRecord.AddTask number the new entry by the list length, as the code does. The fresh-id rule `Learner.AppendFresh` is a separate definition.
- The catalogue data is a parameter. Only the fields the lookups read or write are kept. The career, course and internship prose is not modelled.
- `get_user_threads` catches every exception and returns `[]`. Only the missing-learner case of that is modelled. Timestamp formatting of the listing is not modelled.
- Assistant.ThreadInfo and Assistant.ThreadDoc: a field that is absent and one stored as `None` are both `None`, so `.get(k, default)` on a stored `None` is modelled as the default. The app never writes `None` to a thread's title, mode, creation time or id.
- Multi-scope exclusions, momentum, consistency, readiness, risk tiers and heatmaps have no code here. The context's three analytics fields are stated to be 0.

## Findings

| source | as written | input that shows it | evidently intended | confidence | as-written member | corrected member |
|---|---|---|---|---|---|---|
| app.py:717 | new goals and tasks take `id = len(list)` | add A, add B, delete id 0, add C: B and C both get id 1, and deleting C deletes B | ids that stay distinct | high; not executed | Learner.IdsCollideAfterDelete | Learner.FreshIdsStayUnique |
| app.py:861 | statistics groups by `test_type` | any result added by the app: it stores `test_types`, so every result lands in group `None` | one average per test label | high; not executed | Scores.AsWrittenSingleGroup | Scores.CorrectedGroupsByTestType |
| app.py:539 | results are sorted on `date` | results with different `exam_date`s are shown in stored order | newest exam first | medium; not executed | Dashboard.DisplaySortIsIdentity | Dashboard.DisplayedResultsNewestFirst |
| ai_assistant.py:199 | the context tests `high_school` and `exam_prep` | a learner with purpose `highschool` and a known board and grade gets no subjects | the purpose texts the app stores (`highschool`, `exam`) | high; not executed | Assistant.AsWrittenContextMissesLearner | Assistant.CorrectedContextSubjects |
| ai_assistant.py:720 | the fallback text is appended whenever there are at most three subjects | subjects `["Mathematics"]` show `MathematicsGeneral academic support` | the fallback only when there are no subjects | high; not executed | Assistant.RelevantSubjectsRunTogether | Assistant.RelevantSubjectsCorrected |
