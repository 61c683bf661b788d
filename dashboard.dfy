/**
 * The academic dashboard's derived views (`academic_dashboard` in app.py): the per-chapter
 * status table `syllabus_flat` and the order of the exam results list.
 */
module Dashboard {
  import opened Wrappers
  import opened Dicts
  import opened Curriculum
  import opened Records
  import opened Progress
  import opened Sorting
  import opened Text

  /** `{'completed': is_done, 'excluded': is_excluded}`. */
  datatype ChapterStatus = ChapterStatus(completed: bool, excluded: bool)

  type SyllabusFlat = Dict<string, Dict<string, ChapterStatus>>

  /** The status shown for one chapter. */
  function StatusOf(subject: string, chapter: string, completed: map<string, map<string, bool>>,
                    exclusions: map<string, bool>): ChapterStatus
  {
    var excluded := Truthy(exclusions, ExclusionKey(subject, chapter));
    ChapterStatus(if excluded then false else Truthy(FlagsOf(completed, subject), chapter), excluded)
  }

  /** The assignments the inner loop makes for one subject, in order. */
  function RowPairs(subject: string, chapters: Dict<string, Chapter>, completed: map<string, map<string, bool>>,
                    exclusions: map<string, bool>): seq<(string, ChapterStatus)>
  {
    seq(|chapters|, j requires 0 <= j < |chapters| => (chapters[j].0, StatusOf(subject, chapters[j].0, completed, exclusions)))
  }

  /** The assignments the outer loop makes, in order. */
  function FlatPairs(syl: Syllabus, completed: map<string, map<string, bool>>, exclusions: map<string, bool>)
    : seq<(string, Dict<string, ChapterStatus>)>
  {
    seq(|syl|, i requires 0 <= i < |syl| => (syl[i].0, FromPairs(RowPairs(syl[i].0, syl[i].1.chapters, completed, exclusions))))
  }

  function FlatOf(syl: Syllabus, completed: map<string, map<string, bool>>, exclusions: map<string, bool>): SyllabusFlat {
    FromPairs(FlatPairs(syl, completed, exclusions))
  }

  /** The `syllabus_flat` loop of `academic_dashboard`. */
  method BuildSyllabusFlat(syl: Syllabus, completed: map<string, map<string, bool>>, exclusions: map<string, bool>)
    returns (flat: SyllabusFlat)
    ensures flat == FlatOf(syl, completed, exclusions)
  {
    ghost var outer := FlatPairs(syl, completed, exclusions);
    flat := [];
    var i := 0;
    while i < |syl|
      invariant 0 <= i <= |syl|
      invariant flat == FromPairs(outer[..i])
    {
      var (subjectName, subjectData) := syl[i];
      var row := BuildRow(subjectName, subjectData.chapters, completed, exclusions);
      FromPairsSnoc(outer, i);
      flat := Set(flat, subjectName, row);
      i := i + 1;
    }
    assert outer[..i] == outer;
  }

  /** The inner loop of `BuildSyllabusFlat`: one subject's chapter statuses. */
  method BuildRow(subjectName: string, chapters: Dict<string, Chapter>, completed: map<string, map<string, bool>>,
                  exclusions: map<string, bool>)
    returns (row: Dict<string, ChapterStatus>)
    ensures row == FromPairs(RowPairs(subjectName, chapters, completed, exclusions))
  {
    ghost var inner := RowPairs(subjectName, chapters, completed, exclusions);
    row := [];
    var j := 0;
    while j < |chapters|
      invariant 0 <= j <= |chapters|
      invariant row == FromPairs(inner[..j])
    {
      var chapterName := chapters[j].0;
      var status := ChapterStatusFor(subjectName, chapterName, completed, exclusions);
      FromPairsSnoc(inner, j);
      row := Set(row, chapterName, status);
      j := j + 1;
    }
    assert inner[..j] == inner;
  }

  /** The loop body's status for one chapter: never completed while excluded. */
  method ChapterStatusFor(subjectName: string, chapterName: string, completed: map<string, map<string, bool>>,
                          exclusions: map<string, bool>)
    returns (status: ChapterStatus)
    ensures status == StatusOf(subjectName, chapterName, completed, exclusions)
  {
    var isExcluded := Truthy(exclusions, ExclusionKey(subjectName, chapterName));
    var isDone := false;
    if !isExcluded {
      isDone := Truthy(FlagsOf(completed, subjectName), chapterName);
    }
    status := ChapterStatus(isDone, isExcluded);
  }

  /**
   * Every chapter of the syllabus appears under its subject, and an excluded chapter is always
   * shown as not completed, whatever its completion flag; any other chapter shows its flag.
   */
  lemma ChapterStatusShown(syl: Syllabus, completed: map<string, map<string, bool>>, exclusions: map<string, bool>,
                           i: nat, j: nat)
    requires WellFormedSyllabus(syl) && i < |syl| && j < |syl[i].1.chapters|
    ensures var s := syl[i].0;
            var k := syl[i].1.chapters[j].0;
            var excluded := Truthy(exclusions, ExclusionKey(s, k));
            var row := Get(FlatOf(syl, completed, exclusions), s);
            && row.Some?
            && Get(row.value, k).Some?
            && Get(row.value, k).value.excluded == excluded
            && (excluded ==> !Get(row.value, k).value.completed)
            && (!excluded ==> Get(row.value, k).value.completed == Truthy(FlagsOf(completed, s), k))
  {
    var outer := FlatPairs(syl, completed, exclusions);
    var chapters := syl[i].1.chapters;
    var inner := RowPairs(syl[i].0, chapters, completed, exclusions);
    FromPairsLastWins(outer, i);
    FromPairsLastWins(inner, j);
  }

  /** The subjects of `syllabus_flat` are the syllabus subjects, in order. */
  lemma FlatSubjects(syl: Syllabus, completed: map<string, map<string, bool>>, exclusions: map<string, bool>)
    requires UniqueKeys(syl)
    ensures Keys(FlatOf(syl, completed, exclusions)) == Keys(syl)
  {
    var outer := FlatPairs(syl, completed, exclusions);
    FromPairsKeyOrder(outer);
    assert Keys(outer) == Keys(syl);
    FirstOccurrencesUnique(Keys(syl));
  }

  /**
   * The results list as ordered for display: `sorted(results, key=lambda x: x.get('date', ''),
   * reverse=True)`. No result carries a `date` key, so every key is the empty text.
   */
  function DisplayedResultsAsWritten(rs: seq<ExamResult>): seq<ExamResult> {
    SortBy(rs, (r: ExamResult) => "", true)
  }

  /** The display sort leaves the results in insertion order. */
  lemma DisplaySortIsIdentity(rs: seq<ExamResult>)
    ensures DisplayedResultsAsWritten(rs) == rs
  {
    SortBySameKey(rs, (r: ExamResult) => "", true, "");
  }

  /** The sort key evidently meant: the stored `exam_date`, empty when absent. */
  function ExamDateKey(r: ExamResult): string {
    r.examDate.GetOr("")
  }

  /** The results ordered newest exam first. */
  function DisplayedResults(rs: seq<ExamResult>): seq<ExamResult> {
    SortBy(rs, ExamDateKey, true)
  }

  /** Newest-first order holds, and the displayed list holds exactly the stored results. */
  lemma DisplayedResultsNewestFirst(rs: seq<ExamResult>)
    ensures multiset(DisplayedResults(rs)) == multiset(rs)
    ensures forall i, j :: 0 <= i < j < |DisplayedResults(rs)| ==>
              !LexLess(ExamDateKey(DisplayedResults(rs)[i]), ExamDateKey(DisplayedResults(rs)[j]))
  {
    SortBySorted(rs, ExamDateKey, true);
  }
}
