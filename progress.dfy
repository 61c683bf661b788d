/**
 * Completion counting over a learner's syllabus: `calculate_academic_progress` (app.py),
 * including the leaked loop variable that its exclusion test reads.
 */
module Progress {
  import opened Wrappers
  import opened Dicts
  import opened Curriculum
  import opened Records
  import opened Rounding

  /** The syllabus a learner's profile selects; the dashboards select it the same way. */
  function LearnerSyllabus(u: UserData, t: Table): Syllabus {
    if u.purpose == Some("highschool") && u.highschool.Some? then
      GetSyllabus(t, "highschool", u.highschool.value.board, u.highschool.value.grade, None)
    else if u.purpose == Some("exam") && u.exam.Some? then
      GetSyllabus(t, "exam", u.exam.value.examType, None, None)
    else if u.purpose == Some("after_tenth") && u.afterTenth.Some? then
      GetSyllabus(t, "after_tenth", Some(FallbackBoard), u.afterTenth.value.grade, u.afterTenth.value.subjects)
    else []
  }

  /** The `academic_exclusions` key of a chapter: `f"{subject}::{chapter}"`. */
  function ExclusionKey(subject: string, chapter: string): string {
    subject + "::" + chapter
  }

  /** `f"{x}"` of an optional string: Python renders `None` as the text "None". */
  function Formatted(o: Option<string>): string {
    o.GetOr("None")
  }

  /** `m.get(k)` is truthy. */
  predicate Truthy(m: map<string, bool>, k: string) {
    k in m && m[k]
  }

  /** `chapters_completed.get(subject, {})`. */
  function FlagsOf(completed: map<string, map<string, bool>>, subject: string): map<string, bool> {
    if subject in completed then completed[subject] else map[]
  }

  /** The number of chapters whose completion flag is truthy. */
  function CountCompleted(chapters: Dict<string, Chapter>, flags: map<string, bool>): (n: nat)
    ensures n <= |chapters|
  {
    if chapters == [] then 0
    else
      CountCompleted(chapters[..|chapters| - 1], flags)
      + (if Truthy(flags, chapters[|chapters| - 1].0) then 1 else 0)
  }

  /** `round((part / whole) * 100, 1)`. */
  function Percent(part: nat, whole: nat): real
    requires whole > 0
  {
    Round1(part as real / whole as real * 100.0)
  }

  /** The loop state: `by_subject`, both totals, and the (leaking) variable `chapter_name`. */
  datatype Tally = Tally(bySubject: Dict<string, real>, totalChapters: nat, totalCompleted: nat, chapterName: string)

  /** One iteration of the subject loop. */
  function Step(t: Tally, entry: (string, Subject), completed: map<string, map<string, bool>>,
                exclusions: map<string, bool>): Tally
  {
    var (name, subject) := entry;
    var chapters := subject.chapters;
    if Truthy(exclusions, ExclusionKey(name, t.chapterName)) then t
    else if |chapters| == 0 then t.(bySubject := Set(t.bySubject, name, 0.0))
    else
      var done := CountCompleted(chapters, FlagsOf(completed, name));
      Tally(Set(t.bySubject, name, Percent(done, |chapters|)),
            t.totalChapters + |chapters|, t.totalCompleted + done, chapters[|chapters| - 1].0)
  }

  /** The loop state after the subjects of `syl`, starting from `chapterName`. */
  function TallyOf(syl: Syllabus, completed: map<string, map<string, bool>>, exclusions: map<string, bool>,
                   chapterName: string): Tally
  {
    if syl == [] then Tally([], 0, 0, chapterName)
    else Step(TallyOf(syl[..|syl| - 1], completed, exclusions, chapterName), syl[|syl| - 1], completed, exclusions)
  }

  /** Unfolding `TallyOf` at a prefix: one more subject is one more `Step`. */
  lemma TallyOfSnoc(syl: Syllabus, completed: map<string, map<string, bool>>, exclusions: map<string, bool>,
                    chapterName: string, i: nat)
    requires i < |syl|
    ensures TallyOf(syl[..i + 1], completed, exclusions, chapterName)
            == Step(TallyOf(syl[..i], completed, exclusions, chapterName), syl[i], completed, exclusions)
  {
    assert syl[..i + 1][..i] == syl[..i];
  }

  /** The dict `calculate_academic_progress` returns. */
  datatype ProgressReport = ProgressReport(overall: real, bySubject: Dict<string, real>, totalChapters: nat,
                                           totalCompleted: nat)

  const ZeroProgress: ProgressReport := ProgressReport(0.0, [], 0, 0)

  /** The progress of a syllabus, given the learner's flags and the stored `chapter_name`. */
  function ProgressOf(syl: Syllabus, completed: map<string, map<string, bool>>, exclusions: map<string, bool>,
                      chapterName: Option<string>): ProgressReport
  {
    if syl == [] then ZeroProgress
    else
      var t := TallyOf(syl, completed, exclusions, Formatted(chapterName));
      ProgressReport(if t.totalChapters > 0 then Percent(t.totalCompleted, t.totalChapters) else 0.0,
                     t.bySubject, t.totalChapters, t.totalCompleted)
  }

  function AcademicProgress(u: UserData, t: Table): ProgressReport {
    ProgressOf(LearnerSyllabus(u, t), u.chaptersCompleted, u.academicExclusions, u.chapterName)
  }

  /**
   * `calculate_academic_progress(user_data)` once the learner's syllabus has been looked up
   * (`syllabus` is `LearnerSyllabus` of the learner).
   */
  method CalculateAcademicProgress(syllabus: Syllabus, u: UserData) returns (p: ProgressReport)
    ensures p == ProgressOf(syllabus, u.chaptersCompleted, u.academicExclusions, u.chapterName)
  {
    var chapterName := Formatted(u.chapterName);
    if syllabus == [] {
      return ZeroProgress;
    }
    var bySubject: Dict<string, real> := [];
    var totalChapters: nat, totalCompleted: nat := 0, 0;
    var i := 0;
    assert syllabus[..0] == [];
    while i < |syllabus|
      invariant 0 <= i <= |syllabus|
      invariant Tally(bySubject, totalChapters, totalCompleted, chapterName)
                == TallyOf(syllabus[..i], u.chaptersCompleted, u.academicExclusions, Formatted(u.chapterName))
    {
      TallyOfSnoc(syllabus, u.chaptersCompleted, u.academicExclusions, Formatted(u.chapterName), i);
      bySubject, totalChapters, totalCompleted, chapterName :=
        VisitSubject(bySubject, totalChapters, totalCompleted, chapterName, syllabus[i],
                     u.chaptersCompleted, u.academicExclusions);
      i := i + 1;
    }
    assert syllabus[..i] == syllabus;
    var overall := if totalChapters > 0 then Percent(totalCompleted, totalChapters) else 0.0;
    p := ProgressReport(overall, bySubject, totalChapters, totalCompleted);
  }

  /** The body of the subject loop: one subject's effect on the running figures. */
  method VisitSubject(bySubject: Dict<string, real>, totalChapters: nat, totalCompleted: nat, chapterName: string,
                      entry: (string, Subject), chaptersCompleted: map<string, map<string, bool>>,
                      academicExclusions: map<string, bool>)
    returns (bySubject': Dict<string, real>, totalChapters': nat, totalCompleted': nat, chapterName': string)
    ensures Tally(bySubject', totalChapters', totalCompleted', chapterName')
            == Step(Tally(bySubject, totalChapters, totalCompleted, chapterName), entry, chaptersCompleted, academicExclusions)
  {
    bySubject', totalChapters', totalCompleted', chapterName' := bySubject, totalChapters, totalCompleted, chapterName;
    var (subjectName, subjectData) := entry;
    var chapters := subjectData.chapters;
    var chapterCount := |chapters|;
    if Truthy(academicExclusions, ExclusionKey(subjectName, chapterName)) {
      // the whole subject is skipped
    } else if chapterCount == 0 {
      bySubject' := Set(bySubject, subjectName, 0.0);
    } else {
      var completed: nat;
      var flags := FlagsOf(chaptersCompleted, subjectName);
      completed, chapterName' := CountChapters(chapters, flags, chapterName);
      bySubject' := Set(bySubject, subjectName, Percent(completed, chapterCount));
      totalChapters' := totalChapters + chapterCount;
      totalCompleted' := totalCompleted + completed;
    }
  }

  /**
   * The inner loop over one subject's chapters: the completed count, and `chapter_name` left
   * holding the last chapter key (unchanged when there are none).
   */
  method CountChapters(chapters: Dict<string, Chapter>, flags: map<string, bool>, chapterName: string)
    returns (completed: nat, lastName: string)
    ensures completed == CountCompleted(chapters, flags)
    ensures lastName == if chapters == [] then chapterName else chapters[|chapters| - 1].0
  {
    completed, lastName := 0, chapterName;
    var j := 0;
    while j < |chapters|
      invariant 0 <= j <= |chapters|
      invariant completed == CountCompleted(chapters[..j], flags)
      invariant lastName == if j == 0 then chapterName else chapters[j - 1].0
    {
      lastName := chapters[j].0;
      if Truthy(flags, lastName) {
        completed := completed + 1;
      }
      assert chapters[..j + 1][..j] == chapters[..j];
      j := j + 1;
    }
    assert chapters[..j] == chapters;
  }

  lemma PercentBounds(part: nat, whole: nat)
    requires 0 < whole && part <= whole
    ensures 0.0 <= Percent(part, whole) <= 100.0
  {
    var q := part as real / whole as real;
    assert q * whole as real == part as real;
    assert q <= 1.0;
    Round1Bounds(q * 100.0);
  }

  /** Completed chapters never exceed counted ones, and every subject percentage lies in [0, 100]. */
  lemma {:induction false} TallyBounds(syl: Syllabus, completed: map<string, map<string, bool>>,
                                      exclusions: map<string, bool>, chapterName: string)
    ensures var t := TallyOf(syl, completed, exclusions, chapterName);
            && t.totalCompleted <= t.totalChapters
            && (forall p :: p in t.bySubject ==> 0.0 <= p.1 <= 100.0)
            && (forall k :: k in Keys(t.bySubject) ==> k in Keys(syl))
  {
    if syl != [] {
      var init := syl[..|syl| - 1];
      var (name, subject) := syl[|syl| - 1];
      var t0 := TallyOf(init, completed, exclusions, chapterName);
      TallyBounds(init, completed, exclusions, chapterName);
      forall k | k in Keys(init) ensures k in Keys(syl) {
        var i :| 0 <= i < |init| && Keys(init)[i] == k;
        assert Keys(syl)[i] == k;
      }
      assert name == Keys(syl)[|syl| - 1];
      var chapters := subject.chapters;
      if !Truthy(exclusions, ExclusionKey(name, t0.chapterName)) && |chapters| > 0 {
        PercentBounds(CountCompleted(chapters, FlagsOf(completed, name)), |chapters|);
      }
    }
  }

  /**
   * No division by zero: the empty syllabus gives the all-zero report, `overall` is 0 whenever
   * nothing was counted, and every percentage lies in [0, 100].
   */
  lemma ProgressBounds(syl: Syllabus, completed: map<string, map<string, bool>>, exclusions: map<string, bool>,
                       chapterName: Option<string>)
    ensures var p := ProgressOf(syl, completed, exclusions, chapterName);
            && (syl == [] ==> p == ZeroProgress)
            && (p.totalChapters == 0 ==> p.overall == 0.0)
            && p.totalCompleted <= p.totalChapters
            && 0.0 <= p.overall <= 100.0
            && (forall e :: e in p.bySubject ==> 0.0 <= e.1 <= 100.0)
  {
    if syl != [] {
      var t := TallyOf(syl, completed, exclusions, Formatted(chapterName));
      TallyBounds(syl, completed, exclusions, Formatted(chapterName));
      if t.totalChapters > 0 {
        PercentBounds(t.totalCompleted, t.totalChapters);
      }
    }
  }

  /** A syllabus whose subjects have no chapters counts nothing and reports 0 overall. */
  lemma {:induction false} NoChaptersNoProgress(syl: Syllabus, completed: map<string, map<string, bool>>,
                                               exclusions: map<string, bool>, chapterName: string)
    requires forall i :: 0 <= i < |syl| ==> syl[i].1.chapters == []
    ensures TallyOf(syl, completed, exclusions, chapterName).totalChapters == 0
    ensures TallyOf(syl, completed, exclusions, chapterName).totalCompleted == 0
    ensures TallyOf(syl, completed, exclusions, chapterName).chapterName == chapterName
  {
    if syl != [] {
      NoChaptersNoProgress(syl[..|syl| - 1], completed, exclusions, chapterName);
    }
  }

  /** A subject with zero chapters reports 0 (unless skipped) and adds nothing to either total. */
  lemma ZeroChapterSubject(syl: Syllabus, completed: map<string, map<string, bool>>, exclusions: map<string, bool>,
                           chapterName: string, i: nat)
    requires i < |syl| && syl[i].1.chapters == []
    ensures var before := TallyOf(syl[..i], completed, exclusions, chapterName);
            var after := TallyOf(syl[..i + 1], completed, exclusions, chapterName);
            && after.totalChapters == before.totalChapters
            && after.totalCompleted == before.totalCompleted
            && after.chapterName == before.chapterName
            && (!Truthy(exclusions, ExclusionKey(syl[i].0, before.chapterName)) ==> Get(after.bySubject, syl[i].0) == Some(0.0))
  {
    assert syl[..i + 1][..i] == syl[..i];
    var before := TallyOf(syl[..i], completed, exclusions, chapterName);
    SetGet(before.bySubject, syl[i].0, 0.0, syl[i].0);
  }

  /**
   * The exclusion test reads `chapter_name` as it was left: the stored `chapter_name` until a
   * subject passes both checks, after which it is that subject's last chapter key.
   */
  lemma ChapterNameAfterTurn(syl: Syllabus, completed: map<string, map<string, bool>>,
                             exclusions: map<string, bool>, chapterName: string, i: nat)
    requires i < |syl|
    ensures TallyOf([], completed, exclusions, chapterName).chapterName == chapterName
    ensures var before := TallyOf(syl[..i], completed, exclusions, chapterName);
            var chapters := syl[i].1.chapters;
            TallyOf(syl[..i + 1], completed, exclusions, chapterName).chapterName
            == if !Truthy(exclusions, ExclusionKey(syl[i].0, before.chapterName)) && chapters != []
               then chapters[|chapters| - 1].0 else before.chapterName
  {
    assert syl[..i + 1][..i] == syl[..i];
  }

  /** The exclusion key a subject is checked against: its name and `chapter_name` as left by the earlier subjects. */
  function CheckedKey(syl: Syllabus, completed: map<string, map<string, bool>>, exclusions: map<string, bool>,
                     chapterName: string, i: nat): string
    requires i < |syl|
  {
    ExclusionKey(syl[i].0, TallyOf(syl[..i], completed, exclusions, chapterName).chapterName)
  }

  /** A step adds at most its own subject's entry and never removes one. */
  lemma StepKeys(t: Tally, entry: (string, Subject), completed: map<string, map<string, bool>>,
                 exclusions: map<string, bool>, k: string)
    ensures k != entry.0 ==>
              (k in Keys(Step(t, entry, completed, exclusions).bySubject) <==> k in Keys(t.bySubject))
    ensures k == entry.0 ==>
              (k in Keys(Step(t, entry, completed, exclusions).bySubject)
               <==> k in Keys(t.bySubject) || !Truthy(exclusions, ExclusionKey(k, t.chapterName)))
  {
  }

  /** Later subjects neither add nor remove an earlier subject's entry. */
  lemma {:induction false} EntryStable(syl: Syllabus, completed: map<string, map<string, bool>>,
                                      exclusions: map<string, bool>, chapterName: string, i: nat)
    requires UniqueKeys(syl) && i < |syl|
    ensures syl[i].0 in Keys(TallyOf(syl, completed, exclusions, chapterName).bySubject)
            <==> syl[i].0 in Keys(TallyOf(syl[..i + 1], completed, exclusions, chapterName).bySubject)
  {
    if |syl| == i + 1 {
      assert syl[..i + 1] == syl;
    } else {
      var init := syl[..|syl| - 1];
      var k := syl[i].0;
      assert UniqueKeys(init) && init[i].0 == k && init[..i + 1] == syl[..i + 1];
      EntryStable(init, completed, exclusions, chapterName, i);
      assert k != syl[|syl| - 1].0;
      StepKeys(TallyOf(init, completed, exclusions, chapterName), syl[|syl| - 1], completed, exclusions, k);
    }
  }

  /** Under unique keys, no earlier entry carries a subject's name. */
  lemma NotInPrefix(syl: Syllabus, i: nat)
    requires UniqueKeys(syl) && i < |syl|
    ensures syl[i].0 !in Keys(syl[..i])
  {
    forall j | 0 <= j < i
      ensures Keys(syl[..i])[j] != syl[i].0
    {
    }
  }

  /**
   * A subject is left out entirely (no `by_subject` entry) exactly when the exclusion key it is
   * checked against, built from the leaked `chapter_name`, is truthy.
   */
  lemma SubjectReported(syl: Syllabus, completed: map<string, map<string, bool>>, exclusions: map<string, bool>,
                        chapterName: string, i: nat)
    requires UniqueKeys(syl) && i < |syl|
    ensures syl[i].0 in Keys(TallyOf(syl, completed, exclusions, chapterName).bySubject)
            <==> !Truthy(exclusions, CheckedKey(syl, completed, exclusions, chapterName, i))
  {
    var before := TallyOf(syl[..i], completed, exclusions, chapterName);
    TallyBounds(syl[..i], completed, exclusions, chapterName);
    NotInPrefix(syl, i);
    TallyOfSnoc(syl, completed, exclusions, chapterName, i);
    StepKeys(before, syl[i], completed, exclusions, syl[i].0);
    EntryStable(syl, completed, exclusions, chapterName, i);
  }

  lemma {:induction false} CountCompletedAgrees(chapters: Dict<string, Chapter>, f1: map<string, bool>,
                                               f2: map<string, bool>)
    requires forall k :: k in Keys(chapters) ==> Truthy(f1, k) == Truthy(f2, k)
    ensures CountCompleted(chapters, f1) == CountCompleted(chapters, f2)
  {
    if chapters != [] {
      var init := chapters[..|chapters| - 1];
      forall k | k in Keys(init) ensures Truthy(f1, k) == Truthy(f2, k) {
        var j :| 0 <= j < |init| && Keys(init)[j] == k;
        assert Keys(chapters)[j] == k;
      }
      assert Keys(chapters)[|chapters| - 1] == chapters[|chapters| - 1].0;
      CountCompletedAgrees(init, f1, f2);
    }
  }

  /** Completion flags of chapters outside the syllabus have no effect. */
  lemma {:induction false} FlagsOutsideSyllabusIgnored(syl: Syllabus, c1: map<string, map<string, bool>>,
                                                      c2: map<string, map<string, bool>>,
                                                      exclusions: map<string, bool>, chapterName: string)
    requires forall i, k :: 0 <= i < |syl| && k in Keys(syl[i].1.chapters) ==>
               Truthy(FlagsOf(c1, syl[i].0), k) == Truthy(FlagsOf(c2, syl[i].0), k)
    ensures TallyOf(syl, c1, exclusions, chapterName) == TallyOf(syl, c2, exclusions, chapterName)
  {
    if syl != [] {
      var n := |syl| - 1;
      var init := syl[..n];
      forall i, k | 0 <= i < |init| && k in Keys(init[i].1.chapters)
        ensures Truthy(FlagsOf(c1, init[i].0), k) == Truthy(FlagsOf(c2, init[i].0), k)
      {
        assert init[i] == syl[i];
      }
      FlagsOutsideSyllabusIgnored(init, c1, c2, exclusions, chapterName);
      var t := TallyOf(init, c1, exclusions, chapterName);
      CountCompletedAgrees(syl[n].1.chapters, FlagsOf(c1, syl[n].0), FlagsOf(c2, syl[n].0));
      StepSameCount(t, syl[n], c1, c2, exclusions);
    }
  }

  /** A step depends on the completion flags only through its subject's completed count. */
  lemma StepSameCount(t: Tally, entry: (string, Subject), c1: map<string, map<string, bool>>,
                      c2: map<string, map<string, bool>>, exclusions: map<string, bool>)
    requires CountCompleted(entry.1.chapters, FlagsOf(c1, entry.0)) == CountCompleted(entry.1.chapters, FlagsOf(c2, entry.0))
    ensures Step(t, entry, c1, exclusions) == Step(t, entry, c2, exclusions)
  {
  }

  /** Two subjects of one chapter each, used to exhibit the leaked `chapter_name`. */
  const TwoSubjects: Syllabus :=
    [("Mathematics", Subject([("Algebra", Chapter([]))])), ("Physics", Subject([("Motion", Chapter([]))]))]

  /**
   * Excluding the key "Physics::Algebra" (no chapter of Physics) drops Physics, because the
   * variable still holds Mathematics' last chapter.
   */
  lemma LeakedNameDropsNextSubject()
    ensures ProgressOf(TwoSubjects, map[], map["Physics::Algebra" := true], None).bySubject == [("Mathematics", 0.0)]
    ensures ProgressOf(TwoSubjects, map[], map["Physics::Algebra" := true], None).totalChapters == 1
  {
    var e := map["Physics::Algebra" := true];
    assert TwoSubjects[..1][..0] == [];
    assert TwoSubjects[..1] == TwoSubjects[..|TwoSubjects| - 1];
    MathematicsCounted(e);
    PhysicsDropped(e);
    assert TallyOf(TwoSubjects, map[], e, "None") == Tally([("Mathematics", 0.0)], 1, 0, "Algebra");
  }

  /** Mathematics is counted, and leaves "Algebra" in the variable. */
  lemma MathematicsCounted(e: map<string, bool>)
    requires ExclusionKey("Mathematics", "None") !in e
    ensures Step(Tally([], 0, 0, "None"), TwoSubjects[0], map[], e) == Tally([("Mathematics", 0.0)], 1, 0, "Algebra")
  {
    assert CountCompleted(TwoSubjects[0].1.chapters, FlagsOf(map[], "Mathematics")) == 0;
    assert (0.0 * 10.0 + 0.5).Floor == 0;
    assert Percent(0, 1) == 0.0;
  }

  /** Physics is checked against "Physics::Algebra". */
  lemma PhysicsDropped(e: map<string, bool>)
    requires Truthy(e, "Physics::Algebra")
    ensures Step(Tally([("Mathematics", 0.0)], 1, 0, "Algebra"), TwoSubjects[1], map[], e)
            == Tally([("Mathematics", 0.0)], 1, 0, "Algebra")
  {
    assert ExclusionKey("Physics", "Algebra") == "Physics::Algebra";
  }

  /** Excluding the chapter "Mathematics::Algebra" itself has no effect on Mathematics. */
  lemma ChapterExclusionIgnored()
    ensures ProgressOf(TwoSubjects, map[], map["Mathematics::Algebra" := true], None).totalChapters == 2
  {
    var e := map["Mathematics::Algebra" := true];
    assert TwoSubjects[..1][..0] == [];
    assert ExclusionKey("Mathematics", "None") != "Mathematics::Algebra";
    assert TallyOf(TwoSubjects[..1], map[], e, "None").totalChapters == 1;
    assert ExclusionKey("Physics", "Algebra") != "Mathematics::Algebra";
    assert TwoSubjects[..1] == TwoSubjects[..|TwoSubjects| - 1];
  }
}
