/**
 * Exam-score arithmetic in app.py: `calculate_average_percentage` and the per-type averages and
 * timeline of `statistics_dashboard`.
 */
module Scores {
  import opened Wrappers
  import opened Dicts
  import opened Records
  import opened Rounding
  import opened Sorting
  import opened Text

  /** `float(r.get(key, 0))`: an absent field reads as 0; `None` and non-numeric text raise. */
  function AsFloat(v: Value): Option<real> {
    match v
    case Missing => Some(0.0)
    case Null => None
    case Num(x) => Some(x)
    case Malformed => None
  }

  /** The percentage a result contributes to the average: none when parsing raises or `max_score <= 0`. */
  function ResultPercentage(r: ExamResult): Option<real> {
    var score := AsFloat(r.score);
    var maxScore := AsFloat(r.maxScore);
    if score.None? || maxScore.None? || maxScore.value <= 0.0 then None
    else Some(score.value / maxScore.value * 100.0)
  }

  /** `valid_percentages` after the loop. */
  function ValidPercentages(rs: seq<ExamResult>): (ps: seq<real>)
    ensures |ps| <= |rs|
  {
    if rs == [] then []
    else
      var last := ResultPercentage(rs[|rs| - 1]);
      ValidPercentages(rs[..|rs| - 1]) + (if last.Some? then [last.value] else [])
  }

  function Sum(xs: seq<real>): real {
    if xs == [] then 0.0 else Sum(xs[..|xs| - 1]) + xs[|xs| - 1]
  }

  function AveragePercentage(rs: seq<ExamResult>): real {
    var ps := ValidPercentages(rs);
    if ps == [] then 0.0 else Round1(Sum(ps) / |ps| as real)
  }

  /** `calculate_average_percentage(results)`. */
  method CalculateAveragePercentage(rs: seq<ExamResult>) returns (avg: real)
    ensures avg == AveragePercentage(rs)
  {
    var validPercentages: seq<real> := [];
    for i := 0 to |rs|
      invariant validPercentages == ValidPercentages(rs[..i])
    {
      var score := AsFloat(rs[i].score);
      var maxScore := AsFloat(rs[i].maxScore);
      if score.Some? && maxScore.Some? && maxScore.value > 0.0 {
        validPercentages := validPercentages + [score.value / maxScore.value * 100.0];
      }
      assert rs[..i + 1][..i] == rs[..i];
    }
    assert rs[..|rs|] == rs;
    if validPercentages == [] {
      return 0.0;
    }
    avg := Round1(Sum(validPercentages) / |validPercentages| as real);
  }

  /** The averaged list keeps the results' order: results are processed one after another. */
  lemma {:induction false} ValidPercentagesAppend(a: seq<ExamResult>, b: seq<ExamResult>)
    ensures ValidPercentages(a + b) == ValidPercentages(a) + ValidPercentages(b)
  {
    if b != [] {
      var init := b[..|b| - 1];
      assert (a + b)[..|a + b| - 1] == a + init;
      assert (a + b)[|a + b| - 1] == b[|b| - 1];
      ValidPercentagesAppend(a, init);
    } else {
      assert a + b == a;
    }
  }

  /** A percentage is averaged exactly when some result contributes it. */
  lemma {:induction false} ValidPercentagesMembers(rs: seq<ExamResult>, p: real)
    ensures p in ValidPercentages(rs) <==> exists i :: 0 <= i < |rs| && ResultPercentage(rs[i]) == Some(p)
  {
    if rs != [] {
      var init := rs[..|rs| - 1];
      ValidPercentagesMembers(init, p);
      if exists i :: 0 <= i < |init| && ResultPercentage(init[i]) == Some(p) {
        var i :| 0 <= i < |init| && ResultPercentage(init[i]) == Some(p);
        assert rs[i] == init[i];
      }
      if exists i :: 0 <= i < |rs| && ResultPercentage(rs[i]) == Some(p) {
        var i :| 0 <= i < |rs| && ResultPercentage(rs[i]) == Some(p);
        if i < |init| {
          assert init[i] == rs[i];
        }
      }
    }
  }

  /** A result that does not count (unparseable, or `max_score <= 0`) leaves the average unchanged. */
  lemma SkippedResultIgnored(a: seq<ExamResult>, r: ExamResult, b: seq<ExamResult>)
    requires ResultPercentage(r).None?
    ensures AveragePercentage(a + [r] + b) == AveragePercentage(a + b)
  {
    assert ValidPercentages([r]) == [] by {
      assert [r][..0] == [];
    }
    ValidPercentagesAppend(a + [r], b);
    ValidPercentagesAppend(a, [r]);
    ValidPercentagesAppend(a, b);
    assert ValidPercentages(a + [r] + b) == ValidPercentages(a + b);
  }

  /** When no result counts the average is 0. */
  lemma NoValidResultsGiveZero(rs: seq<ExamResult>)
    requires forall i :: 0 <= i < |rs| ==> ResultPercentage(rs[i]).None?
    ensures AveragePercentage(rs) == 0.0
  {
    if ValidPercentages(rs) != [] {
      ValidPercentagesMembers(rs, ValidPercentages(rs)[0]);
    }
  }

  /** The average is the mean of the counted percentages, rounded to one decimal. */
  lemma AverageIsRoundedMean(rs: seq<ExamResult>)
    requires ValidPercentages(rs) != []
    ensures var ps := ValidPercentages(rs);
            var mean := Sum(ps) / |ps| as real;
            mean - 0.05 < AveragePercentage(rs) <= mean + 0.05
  {
    var ps := ValidPercentages(rs);
    Round1Error(Sum(ps) / |ps| as real);
  }

  lemma {:induction false} SumBounds(xs: seq<real>)
    requires forall i :: 0 <= i < |xs| ==> 0.0 <= xs[i] <= 100.0
    ensures 0.0 <= Sum(xs) <= 100.0 * |xs| as real
  {
    if xs != [] {
      SumBounds(xs[..|xs| - 1]);
    }
  }

  lemma PercentageOfValidScore(score: real, maxScore: real)
    requires 0.0 < maxScore && 0.0 <= score <= maxScore
    ensures 0.0 <= score / maxScore * 100.0 <= 100.0
  {
    var q := score / maxScore;
    assert q * maxScore == score;
    assert q <= 1.0;
  }

  /** Scores within `[0, max_score]` keep the average within [0, 100]. */
  lemma AverageBounds(rs: seq<ExamResult>)
    requires forall i :: 0 <= i < |rs| && rs[i].score.Num? && rs[i].maxScore.Num? ==>
               0.0 <= rs[i].score.x <= rs[i].maxScore.x
    ensures 0.0 <= AveragePercentage(rs) <= 100.0
  {
    var ps := ValidPercentages(rs);
    forall k | 0 <= k < |ps| ensures 0.0 <= ps[k] <= 100.0 {
      ValidPercentagesMembers(rs, ps[k]);
      var i :| 0 <= i < |rs| && ResultPercentage(rs[i]) == Some(ps[k]);
      var m := AsFloat(rs[i].maxScore).value;
      PercentageOfValidScore(AsFloat(rs[i].score).value, m);
    }
    if ps != [] {
      SumBounds(ps);
      var n := |ps| as real;
      var mean := Sum(ps) / n;
      assert mean * n == Sum(ps);
      assert 0.0 <= mean <= 100.0;
      Round1Bounds(mean);
    }
  }

  /** Scores are not clamped: 150 out of 100 averages to 150. */
  lemma ScoreNotClamped()
    ensures AveragePercentage([ExamResult(1, Some("Finals"), None, "Physics", Num(150.0), Num(100.0), None, "")]) == 150.0
  {
    var rs := [ExamResult(1, Some("Finals"), None, "Physics", Num(150.0), Num(100.0), None, "")];
    assert rs[..0] == [];
    assert ValidPercentages(rs) == [150.0];
    assert (1500.0 + 0.5).Floor == 1500;
  }

  // ---------------------------------------------------------------------------------------------
  // statistics_dashboard

  /** Python truthiness of a stored score field (`Malformed` is a non-empty text). */
  predicate IsTruthy(v: Value) {
    match v
    case Missing => false
    case Null => false
    case Num(x) => x != 0.0
    case Malformed => true
  }

  /** The exception `(r['score'] / r['max_score'])` raises on a stored result. */
  datatype StatsError = KeyError | TypeError

  datatype TimelinePoint = TimelinePoint(date: string, percentage: real)

  /** `exam_map` (label -> percentages, in order) and the unsorted `timeline`. */
  datatype Collected = Collected(examMap: Dict<Option<string>, seq<real>>, timeline: seq<TimelinePoint>)

  datatype Statistics = Statistics(examAvg: Dict<Option<string>, real>, timeline: seq<TimelinePoint>, streak: int)

  /** A result with a truthy `max_score` takes part; the others are skipped. */
  predicate TakesPart(r: ExamResult) {
    IsTruthy(r.maxScore)
  }

  /** A taking-part result whose fields cannot be divided makes the page fail. */
  predicate Breaks(r: ExamResult) {
    TakesPart(r) && !(r.score.Num? && r.maxScore.Num?)
  }

  /** One iteration of the loop over results, grouping by `labelOf`. */
  function CollectOne(acc: Collected, r: ExamResult, labelOf: ExamResult -> Option<string>): Result<Collected, StatsError> {
    if !TakesPart(r) then Success(acc)
    else if r.score.Missing? then Failure(KeyError)
    else if !r.score.Num? || !r.maxScore.Num? then Failure(TypeError)
    else
      var pct := r.score.x / r.maxScore.x * 100.0;
      var group := labelOf(r);
      var examMap := Set(acc.examMap, group, GetOr(acc.examMap, group, []) + [pct]);
      var timeline :=
        if r.examDate.Some? && r.examDate.value != "" then acc.timeline + [TimelinePoint(r.examDate.value, Round2(pct))]
        else acc.timeline;
      Success(Collected(examMap, timeline))
  }

  /** The loop over all results; every group it builds holds at least one percentage. */
  function Collect(rs: seq<ExamResult>, labelOf: ExamResult -> Option<string>): (c: Result<Collected, StatsError>)
    ensures c.Success? ==> forall p :: p in c.value.examMap ==> |p.1| > 0
  {
    if rs == [] then Success(Collected([], []))
    else
      match Collect(rs[..|rs| - 1], labelOf)
      case Failure(e) => Failure(e)
      case Success(acc) => CollectOne(acc, rs[|rs| - 1], labelOf)
  }

  /** `{k: round(sum(v) / len(v), 2) for k, v in exam_map.items()}`. */
  function Averages(m: Dict<Option<string>, seq<real>>): (avg: Dict<Option<string>, real>)
    requires forall p :: p in m ==> |p.1| > 0
    ensures Keys(avg) == Keys(m)
  {
    seq(|m|, i requires 0 <= i < |m| => (m[i].0, Round2(Sum(m[i].1) / |m[i].1| as real)))
  }

  function DateOf(p: TimelinePoint): string {
    p.date
  }

  /** The page's figures, or the exception it fails with. */
  function StatisticsOf(rs: seq<ExamResult>, labelOf: ExamResult -> Option<string>, streak: int)
    : Result<Statistics, StatsError>
  {
    match Collect(rs, labelOf)
    case Failure(e) => Failure(e)
    case Success(c) => Success(Statistics(Averages(c.examMap), SortBy(c.timeline, DateOf, false), streak))
  }

  /** The key the page groups by: `r.get('test_type')`. */
  function TestTypeLabel(r: ExamResult): Option<string> {
    r.testType
  }

  /** The key results are stored under: `r.get('test_types')`. */
  function TestTypesLabel(r: ExamResult): Option<string> {
    r.testTypes
  }

  function StatisticsAsWritten(u: UserData): Result<Statistics, StatsError> {
    StatisticsOf(u.examResults, TestTypeLabel, u.loginStreak)
  }

  /** Grouping by the stored test label. */
  function StatisticsCorrected(u: UserData): Result<Statistics, StatsError> {
    StatisticsOf(u.examResults, TestTypesLabel, u.loginStreak)
  }

  lemma CollectSnoc(rs: seq<ExamResult>, labelOf: ExamResult -> Option<string>, i: nat)
    requires i < |rs|
    ensures Collect(rs[..i + 1], labelOf)
            == match Collect(rs[..i], labelOf)
               case Failure(e) => Failure(e)
               case Success(acc) => CollectOne(acc, rs[i], labelOf)
  {
    assert rs[..i + 1][..i] == rs[..i];
  }

  /** Once the loop has raised, the page fails with that exception. */
  lemma {:induction false} FailureSticks(rs: seq<ExamResult>, labelOf: ExamResult -> Option<string>, i: nat)
    requires i <= |rs| && Collect(rs[..i], labelOf).Failure?
    ensures Collect(rs, labelOf) == Collect(rs[..i], labelOf)
    decreases |rs| - i
  {
    if i < |rs| {
      CollectSnoc(rs, labelOf, i);
      FailureSticks(rs, labelOf, i + 1);
    } else {
      assert rs[..i] == rs;
    }
  }

  /** `statistics_dashboard`: the loop over the stored results, then the averages and the sorted timeline. */
  method StatisticsDashboard(u: UserData) returns (r: Result<Statistics, StatsError>)
    ensures r == StatisticsAsWritten(u)
  {
    var results := u.examResults;
    var examMap: Dict<Option<string>, seq<real>> := [];
    var timeline: seq<TimelinePoint> := [];
    for i := 0 to |results|
      invariant Collect(results[..i], TestTypeLabel) == Success(Collected(examMap, timeline))
    {
      var res := results[i];
      CollectSnoc(results, TestTypeLabel, i);
      ghost var acc := Collected(examMap, timeline);
      if IsTruthy(res.maxScore) {
        if res.score.Missing? || !res.score.Num? || !res.maxScore.Num? {
          FailureSticks(results, TestTypeLabel, i + 1);
          return Failure(if res.score.Missing? then KeyError else TypeError);
        }
        var pct := res.score.x / res.maxScore.x * 100.0;
        var et := res.testType;
        examMap := Set(examMap, et, GetOr(examMap, et, []) + [pct]);
        if res.examDate.Some? && res.examDate.value != "" {
          timeline := timeline + [TimelinePoint(res.examDate.value, Round2(pct))];
        }
      }
      assert CollectOne(acc, res, TestTypeLabel) == Success(Collected(examMap, timeline));
    }
    assert results[..|results|] == results;
    r := Success(Statistics(Averages(examMap), SortBy(timeline, DateOf, false), u.loginStreak));
  }

  /** The page fails exactly when some taking-part result has a missing or non-numeric score field. */
  lemma {:induction false} FailsIffBrokenResult(rs: seq<ExamResult>, labelOf: ExamResult -> Option<string>)
    ensures Collect(rs, labelOf).Failure? <==> exists i :: 0 <= i < |rs| && Breaks(rs[i])
  {
    if rs != [] {
      var init := rs[..|rs| - 1];
      FailsIffBrokenResult(init, labelOf);
      if exists i :: 0 <= i < |init| && Breaks(init[i]) {
        var i :| 0 <= i < |init| && Breaks(init[i]);
        assert rs[i] == init[i];
      }
      if exists i :: 0 <= i < |rs| && Breaks(rs[i]) {
        var i :| 0 <= i < |rs| && Breaks(rs[i]);
        if i < |init| {
          assert init[i] == rs[i];
        }
      }
    }
  }

  /** Some result that takes part carries the label `k`. */
  predicate HasLabel(rs: seq<ExamResult>, labelOf: ExamResult -> Option<string>, k: Option<string>) {
    exists i :: 0 <= i < |rs| && TakesPart(rs[i]) && labelOf(rs[i]) == k
  }

  lemma HasLabelSnoc(rs: seq<ExamResult>, labelOf: ExamResult -> Option<string>, k: Option<string>)
    requires rs != []
    ensures HasLabel(rs, labelOf, k)
            <==> HasLabel(rs[..|rs| - 1], labelOf, k) || (TakesPart(rs[|rs| - 1]) && labelOf(rs[|rs| - 1]) == k)
  {
    var init := rs[..|rs| - 1];
    if HasLabel(init, labelOf, k) {
      var i :| 0 <= i < |init| && TakesPart(init[i]) && labelOf(init[i]) == k;
      assert rs[i] == init[i];
    }
    if HasLabel(rs, labelOf, k) {
      var i :| 0 <= i < |rs| && TakesPart(rs[i]) && labelOf(rs[i]) == k;
      if i < |init| {
        assert init[i] == rs[i];
      }
    }
  }

  /** One iteration adds the result's label when it takes part, and nothing else. */
  lemma CollectOneKeys(acc: Collected, r: ExamResult, labelOf: ExamResult -> Option<string>, k: Option<string>)
    requires CollectOne(acc, r, labelOf).Success?
    ensures k in Keys(CollectOne(acc, r, labelOf).value.examMap)
            <==> k in Keys(acc.examMap) || (TakesPart(r) && labelOf(r) == k)
  {
  }

  /** The groups are exactly the labels of the results that take part. */
  lemma {:induction false} GroupsAreLabels(rs: seq<ExamResult>, labelOf: ExamResult -> Option<string>, k: Option<string>)
    requires Collect(rs, labelOf).Success?
    ensures k in Keys(Collect(rs, labelOf).value.examMap) <==> HasLabel(rs, labelOf, k)
  {
    if rs != [] {
      var init := rs[..|rs| - 1];
      assert Collect(init, labelOf).Success?;
      var acc := Collect(init, labelOf).value;
      GroupsAreLabels(init, labelOf, k);
      assert Collect(rs, labelOf) == CollectOne(acc, rs[|rs| - 1], labelOf);
      CollectOneKeys(acc, rs[|rs| - 1], labelOf, k);
      HasLabelSnoc(rs, labelOf, k);
    }
  }

  /** The timeline is in ascending date order and holds every collected point. */
  lemma TimelineInDateOrder(rs: seq<ExamResult>, labelOf: ExamResult -> Option<string>, streak: int)
    requires Collect(rs, labelOf).Success?
    ensures var s := StatisticsOf(rs, labelOf, streak).value;
            && multiset(s.timeline) == multiset(Collect(rs, labelOf).value.timeline)
            && forall i, j :: 0 <= i < j < |s.timeline| ==> !LexLess(s.timeline[j].date, s.timeline[i].date)
  {
    SortBySorted(Collect(rs, labelOf).value.timeline, DateOf, false);
  }

  /**
   * As written, results saved by the app (which never writes `test_type`) all fall into one
   * group labelled `None`.
   */
  lemma AsWrittenSingleGroup(u: UserData, k: Option<string>)
    requires forall i :: 0 <= i < |u.examResults| ==> u.examResults[i].testType.None?
    requires exists i :: 0 <= i < |u.examResults| && TakesPart(u.examResults[i])
    requires StatisticsAsWritten(u).Success?
    ensures k in Keys(StatisticsAsWritten(u).value.examAvg) <==> k == None
  {
    GroupsAreLabels(u.examResults, TestTypeLabel, k);
  }

  /**
   * Grouping by `test_types` gives one group per stored test label, holding the rounded mean of
   * the percentages of the results with that label.
   */
  lemma CorrectedGroupsByTestType(u: UserData, k: Option<string>)
    requires StatisticsCorrected(u).Success?
    ensures k in Keys(StatisticsCorrected(u).value.examAvg)
            <==> exists i :: 0 <= i < |u.examResults| && TakesPart(u.examResults[i]) && u.examResults[i].testTypes == k
    ensures var ps := PercentagesWithLabel(u.examResults, TestTypesLabel, k);
            HasLabel(u.examResults, TestTypesLabel, k) ==>
              ps != [] && Get(StatisticsCorrected(u).value.examAvg, k) == Some(Round2(Sum(ps) / |ps| as real))
  {
    GroupsAreLabels(u.examResults, TestTypesLabel, k);
    StatisticsAverages(u.examResults, TestTypesLabel, u.loginStreak, k);
  }

  // ---------------------------------------------------------------------------------------------
  // What the page's figures hold

  /** The percentage of a result whose score fields are both numbers. */
  predicate Divisible(r: ExamResult) {
    r.score.Num? && r.maxScore.Num?
  }

  /** The percentages of the taking-part results labelled `k`, in stored order. */
  function PercentagesWithLabel(rs: seq<ExamResult>, labelOf: ExamResult -> Option<string>, k: Option<string>)
    : seq<real>
  {
    if rs == [] then []
    else
      var r := rs[|rs| - 1];
      PercentagesWithLabel(rs[..|rs| - 1], labelOf, k) + AddedTo(r, labelOf, k)
  }

  /** The timeline points of the taking-part results with a non-empty `exam_date`, in stored order. */
  function DatedPoints(rs: seq<ExamResult>): seq<TimelinePoint> {
    if rs == [] then []
    else
      var r := rs[|rs| - 1];
      DatedPoints(rs[..|rs| - 1])
      + (if TakesPart(r) && Divisible(r) && r.examDate.Some? && r.examDate.value != ""
         then [TimelinePoint(r.examDate.value, Round2(r.score.x / r.maxScore.x * 100.0))] else [])
  }

  /** The percentage one result adds to group `k`: none unless it takes part with label `k`. */
  function AddedTo(r: ExamResult, labelOf: ExamResult -> Option<string>, k: Option<string>): seq<real> {
    if TakesPart(r) && Divisible(r) && labelOf(r) == k then [r.score.x / r.maxScore.x * 100.0] else []
  }

  /** One iteration appends the result's percentage to its own group and to no other. */
  lemma CollectOneGroup(acc: Collected, r: ExamResult, labelOf: ExamResult -> Option<string>, k: Option<string>)
    requires CollectOne(acc, r, labelOf).Success?
    ensures GetOr(CollectOne(acc, r, labelOf).value.examMap, k, []) == GetOr(acc.examMap, k, []) + AddedTo(r, labelOf, k)
  {
    if TakesPart(r) {
      assert Divisible(r);
      var pct := r.score.x / r.maxScore.x * 100.0;
      var g := labelOf(r);
      var m := Set(acc.examMap, g, GetOr(acc.examMap, g, []) + [pct]);
      assert CollectOne(acc, r, labelOf).value.examMap == m;
      SetGet(acc.examMap, g, GetOr(acc.examMap, g, []) + [pct], k);
      if k == g {
        assert AddedTo(r, labelOf, k) == [pct];
        assert GetOr(m, k, []) == GetOr(acc.examMap, g, []) + [pct];
      } else {
        assert AddedTo(r, labelOf, k) == [];
        assert GetOr(m, k, []) == GetOr(acc.examMap, k, []);
      }
    } else {
      assert AddedTo(r, labelOf, k) == [];
    }
  }

  /** The loop's group for `k` holds exactly the percentages of the results labelled `k`. */
  lemma {:induction false} GroupHoldsPercentages(rs: seq<ExamResult>, labelOf: ExamResult -> Option<string>,
                                                 k: Option<string>)
    requires Collect(rs, labelOf).Success?
    ensures GetOr(Collect(rs, labelOf).value.examMap, k, []) == PercentagesWithLabel(rs, labelOf, k)
  {
    if rs != [] {
      var init := rs[..|rs| - 1];
      var r := rs[|rs| - 1];
      assert Collect(init, labelOf).Success?;
      var acc := Collect(init, labelOf).value;
      GroupHoldsPercentages(init, labelOf, k);
      assert Collect(rs, labelOf) == CollectOne(acc, r, labelOf);
      CollectOneGroup(acc, r, labelOf, k);
      assert PercentagesWithLabel(rs, labelOf, k) == PercentagesWithLabel(init, labelOf, k) + AddedTo(r, labelOf, k);
    }
  }

  /** The loop's timeline holds exactly the dated points, in stored order. */
  lemma {:induction false} TimelineHoldsDatedPoints(rs: seq<ExamResult>, labelOf: ExamResult -> Option<string>)
    requires Collect(rs, labelOf).Success?
    ensures Collect(rs, labelOf).value.timeline == DatedPoints(rs)
  {
    if rs != [] {
      var init := rs[..|rs| - 1];
      assert Collect(init, labelOf).Success?;
      TimelineHoldsDatedPoints(init, labelOf);
      assert Collect(rs, labelOf) == CollectOne(Collect(init, labelOf).value, rs[|rs| - 1], labelOf);
    }
  }

  /** `Averages` holds, under each key, the rounded mean of that key's first group. */
  lemma {:induction false} AveragesGet(m: Dict<Option<string>, seq<real>>, k: Option<string>)
    requires forall p :: p in m ==> |p.1| > 0
    ensures Get(Averages(m), k) == match Get(m, k)
                                   case None => None
                                   case Some(v) => Some(Round2(Sum(v) / |v| as real))
  {
    if m != [] && m[0].0 != k {
      assert Averages(m)[1..] == Averages(m[1..]);
      AveragesGet(m[1..], k);
    }
  }

  /**
   * The page's figures: a label some taking-part result carries has the rounded mean of that
   * label's percentages, any other label has no entry, and the timeline is the dated points of
   * the taking-part results in ascending date order.
   */
  lemma StatisticsAverages(rs: seq<ExamResult>, labelOf: ExamResult -> Option<string>, streak: int, k: Option<string>)
    requires Collect(rs, labelOf).Success?
    ensures var s := StatisticsOf(rs, labelOf, streak).value;
            var ps := PercentagesWithLabel(rs, labelOf, k);
            && (HasLabel(rs, labelOf, k) ==> ps != [] && Get(s.examAvg, k) == Some(Round2(Sum(ps) / |ps| as real)))
            && (!HasLabel(rs, labelOf, k) ==> Get(s.examAvg, k) == None)
            && multiset(s.timeline) == multiset(DatedPoints(rs))
            && s.streak == streak
  {
    var c := Collect(rs, labelOf).value;
    GroupsAreLabels(rs, labelOf, k);
    GroupHoldsPercentages(rs, labelOf, k);
    AveragesGet(c.examMap, k);
    TimelineHoldsDatedPoints(rs, labelOf);
    TimelineInDateOrder(rs, labelOf, streak);
  }
}
