/**
 * The state updates app.py makes on a learner document: the chapter toggles, the login streak,
 * the goal, task and exam-result lists, and the profile lists.
 */
module Learner {
  import opened Wrappers
  import opened Text
  import opened Records
  import opened Progress
  import opened Scores

  /** A form value Python treats as true: present and non-empty. */
  predicate Present(o: Option<string>) {
    o.Some? && o.value != ""
  }

  // ---------------------------------------------------------------------------------------------
  // Chapter toggles

  /** `chapters_completed` after toggling one chapter (an absent flag reads as false). */
  function ToggleCompletion(cc: map<string, map<string, bool>>, subject: string, chapter: string)
    : map<string, map<string, bool>>
  {
    var flags := FlagsOf(cc, subject);
    cc[subject := flags[chapter := !Truthy(flags, chapter)]]
  }

  /** Toggling flips the one flag and leaves every other subject's flags exactly as they were. */
  lemma ToggleCompletionFlipsOne(cc: map<string, map<string, bool>>, subject: string, chapter: string,
                                 s: string, c: string)
    ensures Truthy(FlagsOf(ToggleCompletion(cc, subject, chapter), s), c)
            == if s == subject && c == chapter then !Truthy(FlagsOf(cc, s), c) else Truthy(FlagsOf(cc, s), c)
    ensures s != subject ==> (s in ToggleCompletion(cc, subject, chapter) <==> s in cc)
    ensures s != subject && s in cc ==> ToggleCompletion(cc, subject, chapter)[s] == cc[s]
  {
  }

  /** Two toggles of the same chapter restore every completion flag. */
  lemma ToggleCompletionTwice(cc: map<string, map<string, bool>>, subject: string, chapter: string,
                              s: string, c: string)
    ensures Truthy(FlagsOf(ToggleCompletion(ToggleCompletion(cc, subject, chapter), subject, chapter), s), c)
            == Truthy(FlagsOf(cc, s), c)
  {
    ToggleCompletionFlipsOne(cc, subject, chapter, s, c);
    ToggleCompletionFlipsOne(ToggleCompletion(cc, subject, chapter), subject, chapter, s, c);
  }

  /** `academic_exclusions` after toggling one key: a truthy key is removed, otherwise set to true. */
  function ToggleExclusion(ex: map<string, bool>, key: string): map<string, bool> {
    if Truthy(ex, key) then ex - {key} else ex[key := true]
  }

  /** Toggling flips the one key's truthiness; every other key keeps its presence and value. */
  lemma ToggleExclusionFlipsOne(ex: map<string, bool>, key: string, k: string)
    ensures Truthy(ToggleExclusion(ex, key), k) == if k == key then !Truthy(ex, k) else Truthy(ex, k)
    ensures k != key ==> (k in ToggleExclusion(ex, key) <==> k in ex)
    ensures k != key && k in ex ==> ToggleExclusion(ex, key)[k] == ex[k]
  {
  }

  /** Two toggles of the same chapter restore every exclusion's truthiness. */
  lemma ToggleExclusionTwice(ex: map<string, bool>, key: string, k: string)
    ensures Truthy(ToggleExclusion(ToggleExclusion(ex, key), key), k) == Truthy(ex, k)
  {
    ToggleExclusionFlipsOne(ex, key, k);
    ToggleExclusionFlipsOne(ToggleExclusion(ex, key), key, k);
  }

  // ---------------------------------------------------------------------------------------------
  // Login streak

  /**
   * The streak written on a login on day `today`, or `None` when the stored date cannot be
   * parsed (the login handler then fails before writing anything).
   */
  function NextStreak(last: LoginDate, stored: int, today: int): Option<int> {
    match last
    case NeverLoggedIn => Some(1)
    case Unparseable => None
    case Day(d) => Some(if d == today then stored else if d == today - 1 then stored + 1 else 1)
  }

  /** The learner document after a login on day `today`. */
  function AfterLogin(u: UserData, today: int): UserData {
    match NextStreak(u.lastLoginDate, u.loginStreak, today)
    case None => u
    case Some(streak) => u.(lastLoginDate := Day(today), loginStreak := streak)
  }

  /** The learner document after logins on each of `days`, in order. */
  function AfterLogins(u: UserData, days: seq<int>): UserData {
    if days == [] then u else AfterLogin(AfterLogins(u, days[..|days| - 1]), days[|days| - 1])
  }

  /** `n` logins on consecutive days, starting from no recorded login, give a streak of `n`. */
  lemma {:induction false} ConsecutiveLoginsCount(u: UserData, first: int, n: nat)
    requires u.lastLoginDate == NeverLoggedIn && n > 0
    ensures AfterLogins(u, seq(n, i => first + i)).loginStreak == n
    ensures AfterLogins(u, seq(n, i => first + i)).lastLoginDate == Day(first + n - 1)
  {
    var days := seq(n, i => first + i);
    if n > 1 {
      assert days[..n - 1] == seq(n - 1, i => first + i);
      ConsecutiveLoginsCount(u, first, n - 1);
    }
  }

  /**
   * The three-way date rule: a first login starts at 1, a repeat login on the same day keeps the
   * stored streak, a login the day after extends it by one, any other date restarts it at 1. A
   * login that writes anything writes only the date and the streak.
   */
  lemma LoginStreakRule(u: UserData, today: int)
    ensures u.lastLoginDate == NeverLoggedIn ==> AfterLogin(u, today).loginStreak == 1
    ensures u.lastLoginDate == Day(today) ==> AfterLogin(u, today).loginStreak == u.loginStreak
    ensures u.lastLoginDate == Day(today - 1) ==> AfterLogin(u, today).loginStreak == u.loginStreak + 1
    ensures u.lastLoginDate == Unparseable ==> AfterLogin(u, today) == u
    ensures u.lastLoginDate != Unparseable ==>
              AfterLogin(u, today) == u.(lastLoginDate := Day(today), loginStreak := AfterLogin(u, today).loginStreak)
  {
  }

  /** A second login on the same day changes nothing. */
  lemma SameDayLoginIdempotent(u: UserData, today: int)
    ensures AfterLogin(AfterLogin(u, today), today) == AfterLogin(u, today)
  {
  }

  /** A login after a gap of more than a day (or from a later stored date) restarts the streak at 1. */
  lemma GapRestartsStreak(u: UserData, today: int)
    requires u.lastLoginDate.Day? && u.lastLoginDate.day != today && u.lastLoginDate.day != today - 1
    ensures AfterLogin(u, today).loginStreak == 1
  {
  }

  // ---------------------------------------------------------------------------------------------
  // Goals and tasks

  /** The entry appended by an `add`: its id is the list length before the append. */
  function AppendEntry<D>(es: seq<Entry<D>>, title: string, detail: D, createdAt: string): seq<Entry<D>> {
    es + [Entry(|es|, title, detail, false, createdAt)]
  }

  /** An add keeps every earlier entry and appends one open entry numbered by the old length. */
  lemma AppendEntryAdds<D>(es: seq<Entry<D>>, title: string, detail: D, createdAt: string)
    ensures var r := AppendEntry(es, title, detail, createdAt);
            && |r| == |es| + 1 && r[..|es|] == es
            && r[|es|].id == |es| && !r[|es|].completed
            && r[|es|].title == title && r[|es|].detail == detail
  {
  }

  /** The position of the first entry with id `id`. */
  function FirstIndexOf<D>(es: seq<Entry<D>>, id: int): (r: Option<nat>)
    ensures r.Some? ==> r.value < |es| && es[r.value].id == id && forall j :: 0 <= j < r.value ==> es[j].id != id
    ensures r.None? ==> forall j :: 0 <= j < |es| ==> es[j].id != id
  {
    if es == [] then None
    else if es[0].id == id then Some(0)
    else match FirstIndexOf(es[1..], id)
      case None => None
      case Some(i) => Some(i + 1)
  }

  /** The list after a `toggle`: the first entry with that id flips `completed`. */
  function ToggleFirst<D>(es: seq<Entry<D>>, id: int): seq<Entry<D>> {
    match FirstIndexOf(es, id)
    case None => es
    case Some(i) => es[i := es[i].(completed := !es[i].completed)]
  }

  /** The `toggle` loop: flip the first entry whose id matches, then stop. */
  method ToggleFirstEntry<D>(es: seq<Entry<D>>, id: int) returns (r: seq<Entry<D>>)
    ensures r == ToggleFirst(es, id)
  {
    r := es;
    var i := 0;
    while i < |r|
      invariant 0 <= i <= |r| && r == es
      invariant forall j :: 0 <= j < i ==> es[j].id != id
    {
      if r[i].id == id {
        assert FirstIndexOf(es, id) == Some(i);
        r := r[i := r[i].(completed := !r[i].completed)];
        return;
      }
      i := i + 1;
    }
  }

  /** Only the first entry with the id changes, and only in its `completed` flag. */
  lemma ToggleTouchesFirstMatchOnly<D>(es: seq<Entry<D>>, id: int, j: nat)
    requires j < |es|
    ensures |ToggleFirst(es, id)| == |es|
    ensures (es[j].id != id || exists k :: 0 <= k < j && es[k].id == id) ==> ToggleFirst(es, id)[j] == es[j]
    ensures (es[j].id == id && forall k :: 0 <= k < j ==> es[k].id != id) ==>
              ToggleFirst(es, id)[j] == es[j].(completed := !es[j].completed)
  {
  }

  /** Two toggles of the same id restore the list. */
  lemma ToggleFirstTwice<D>(es: seq<Entry<D>>, id: int)
    ensures ToggleFirst(ToggleFirst(es, id), id) == es
  {
    var once := ToggleFirst(es, id);
    match FirstIndexOf(es, id)
    case None =>
    case Some(i) =>
      assert forall j :: 0 <= j < |once| ==> once[j].id == es[j].id;
      assert FirstIndexOf(once, id) == Some(i);
  }

  /** The list after a `delete`: every entry with that id removed, the others kept in order. */
  function DeleteId<D>(es: seq<Entry<D>>, id: int): seq<Entry<D>> {
    if es == [] then [] else (if es[0].id != id then [es[0]] else []) + DeleteId(es[1..], id)
  }

  /** An entry survives a delete exactly when it was there and has another id. */
  lemma {:induction false} DeleteIdMembers<D>(es: seq<Entry<D>>, id: int, e: Entry<D>)
    ensures e in DeleteId(es, id) <==> e in es && e.id != id
  {
    if es != [] {
      DeleteIdMembers(es[1..], id, e);
      assert es == [es[0]] + es[1..];
    }
  }

  /** Deleting keeps the survivors' order: it distributes over concatenation. */
  lemma {:induction false} DeleteIdAppend<D>(a: seq<Entry<D>>, b: seq<Entry<D>>, id: int)
    ensures DeleteId(a + b, id) == DeleteId(a, id) + DeleteId(b, id)
  {
    if a == [] {
      assert a + b == b;
    } else {
      assert (a + b)[1..] == a[1..] + b;
      DeleteIdAppend(a[1..], b, id);
    }
  }

  /** All ids distinct. */
  predicate UniqueIds<D>(es: seq<Entry<D>>) {
    forall i, j :: 0 <= i < j < |es| ==> es[i].id != es[j].id
  }

  /** Ids can repeat: add A, add B, delete id 0, add C gives two entries with id 1, and deleting C deletes B too. */
  lemma IdsCollideAfterDelete(d: GoalDetail)
    ensures var es := AppendEntry(DeleteId(AppendEntry(AppendEntry([], "A", d, ""), "B", d, ""), 0), "C", d, "");
            && |es| == 2 && es[0].id == 1 && es[1].id == 1
            && DeleteId(es, 1) == []
  {
    var two := AppendEntry(AppendEntry([], "A", d, ""), "B", d, "");
    assert two == [Entry(0, "A", d, false, ""), Entry(1, "B", d, false, "")];
    assert two[1..] == [Entry(1, "B", d, false, "")];
    assert two[1..][1..] == [];
    assert DeleteId(two[1..], 0) == [Entry(1, "B", d, false, "")] + DeleteId(two[1..][1..], 0);
    assert DeleteId(two, 0) == [Entry(1, "B", d, false, "")];
    var es := AppendEntry(DeleteId(two, 0), "C", d, "");
    assert es == [Entry(1, "B", d, false, ""), Entry(1, "C", d, false, "")];
    assert es[1..] == [Entry(1, "C", d, false, "")];
    assert es[1..][1..] == [];
    assert DeleteId(es[1..], 1) == DeleteId(es[1..][1..], 1);
    assert DeleteId(es[1..], 1) == [];
  }

  /** One more than the largest id, or 0 for an empty list. */
  function NextId<D>(es: seq<Entry<D>>): (n: int)
    ensures forall i :: 0 <= i < |es| ==> es[i].id < n
  {
    if es == [] then 0
    else
      var rest := NextId(es[..|es| - 1]);
      var last := es[|es| - 1].id + 1;
      if last > rest then last else rest
  }

  /** An `add` whose id is fresh. */
  function AppendFresh<D>(es: seq<Entry<D>>, title: string, detail: D, createdAt: string): seq<Entry<D>> {
    es + [Entry(NextId(es), title, detail, false, createdAt)]
  }

  /** With fresh ids, adds and deletes keep the ids distinct. */
  lemma FreshIdsStayUnique<D>(es: seq<Entry<D>>, title: string, detail: D, createdAt: string, id: int)
    requires UniqueIds(es)
    ensures UniqueIds(AppendFresh(es, title, detail, createdAt))
    ensures UniqueIds(DeleteId(es, id))
  {
    DeleteIdSublist(es, id);
  }

  /** A delete keeps a sub-list of the entries (an order-preserving choice of them). */
  lemma {:induction false} DeleteIdSublist<D>(es: seq<Entry<D>>, id: int)
    requires UniqueIds(es)
    ensures UniqueIds(DeleteId(es, id))
  {
    if es != [] {
      assert UniqueIds(es[1..]) by {
        forall i, j | 0 <= i < j < |es[1..]| ensures es[1..][i].id != es[1..][j].id {
          assert es[1..][i] == es[i + 1] && es[1..][j] == es[j + 1];
        }
      }
      DeleteIdSublist(es[1..], id);
      var rest := DeleteId(es[1..], id);
      forall e | e in rest ensures e.id != es[0].id {
        DeleteIdMembers(es[1..], id, e);
        var k :| 0 <= k < |es[1..]| && es[1..][k] == e;
        assert es[k + 1] == e;
      }
    }
  }

  /** With distinct ids, a delete removes exactly the chosen entry. */
  lemma {:induction false} DeleteRemovesOnlyChosen<D>(es: seq<Entry<D>>, i: nat)
    requires UniqueIds(es) && i < |es|
    ensures DeleteId(es, es[i].id) == es[..i] + es[i + 1..]
  {
    var id := es[i].id;
    if i == 0 {
      DeleteIdUnused(es[1..], id);
    } else {
      assert UniqueIds(es[1..]) by {
        forall a, b | 0 <= a < b < |es[1..]| ensures es[1..][a].id != es[1..][b].id {
          assert es[1..][a] == es[a + 1] && es[1..][b] == es[b + 1];
        }
      }
      assert es[1..][i - 1] == es[i];
      DeleteRemovesOnlyChosen(es[1..], i - 1);
      assert es[..i] == [es[0]] + es[1..][..i - 1];
      assert es[i + 1..] == es[1..][i..];
    }
  }

  /** Deleting an id no entry has changes nothing. */
  lemma {:induction false} DeleteIdUnused<D>(es: seq<Entry<D>>, id: int)
    requires forall j :: 0 <= j < |es| ==> es[j].id != id
    ensures DeleteId(es, id) == es
  {
    if es != [] {
      DeleteIdUnused(es[1..], id);
      assert [es[0]] + es[1..] == es;
    }
  }

  // ---------------------------------------------------------------------------------------------
  // Exam results

  /** The record an `add` appends (`max_score` defaults to 100). */
  function NewResult(id: int, testTypes: string, subject: string, score: real, maxScore: Option<real>,
                     examDate: Option<string>, createdAt: string): ExamResult
  {
    ExamResult(id, Some(testTypes), None, subject, Num(score), Num(maxScore.GetOr(100.0)), examDate, createdAt)
  }

  /** An added result with a positive maximum contributes `score / max * 100` to the average, last. */
  lemma AddedResultCounts(rs: seq<ExamResult>, id: int, testTypes: string, subject: string, score: real,
                          maxScore: Option<real>, examDate: Option<string>, createdAt: string)
    requires maxScore.GetOr(100.0) > 0.0
    ensures ValidPercentages(rs + [NewResult(id, testTypes, subject, score, maxScore, examDate, createdAt)])
            == ValidPercentages(rs) + [score / maxScore.GetOr(100.0) * 100.0]
  {
    var r := NewResult(id, testTypes, subject, score, maxScore, examDate, createdAt);
    assert (rs + [r])[..|rs|] == rs;
  }

  /** The results kept by a `delete` of the id text `rid`. */
  function DeleteResultText(rs: seq<ExamResult>, rid: string): seq<ExamResult> {
    if rs == [] then [] else (if DecimalText(rs[0].id) != rid then [rs[0]] else []) + DeleteResultText(rs[1..], rid)
  }

  /** Deleting by the text of an id removes exactly the results with that id. */
  lemma {:induction false} DeleteResultById(rs: seq<ExamResult>, id: int, r: ExamResult)
    ensures r in DeleteResultText(rs, DecimalText(id)) <==> r in rs && r.id != id
  {
    if rs != [] {
      DeleteResultById(rs[1..], id, r);
      assert rs == [rs[0]] + rs[1..];
      if DecimalText(rs[0].id) == DecimalText(id) {
        DecimalTextInjective(rs[0].id, id);
      }
    }
  }

  // ---------------------------------------------------------------------------------------------
  // Profile lists

  /** Strip each piece and drop the empty ones. */
  function CleanItems(parts: seq<string>): (items: seq<string>)
    ensures forall i :: 0 <= i < |items| ==> items[i] != "" && IsStripped(items[i])
  {
    if parts == [] then []
    else
      var t := Strip(parts[0]);
      var rest := CleanItems(parts[1..]);
      if t == "" then rest
      else
        assert forall i :: 1 <= i < |rest| + 1 ==> ([t] + rest)[i] == rest[i - 1];
        [t] + rest
  }

  /** `[s.strip() for s in text.split(',') if s.strip()]`. */
  function ParseList(text: string): (items: seq<string>)
    ensures forall i :: 0 <= i < |items| ==> items[i] != "" && IsStripped(items[i])
  {
    CleanItems(Split(text, ','))
  }

  /** `', '.join(items)`, the text the edit form shows. */
  function JoinList(items: seq<string>): string {
    Join(items, ", ")
  }

  /** An item the form can carry through a save unchanged. */
  predicate IsListItem(s: string) {
    s != "" && IsStripped(s) && ',' !in s
  }

  function Pad(padded: bool): string {
    if padded then " " else ""
  }

  /** A stripped item keeps its text when read back from after ", ". */
  lemma StripPadded(head: string, padded: bool)
    requires IsStripped(head)
    ensures Strip(Pad(padded) + head) == head
  {
    if padded {
      assert Pad(padded) + head == [' '] + head;
      StripAfterBlank(head);
    } else {
      assert Pad(padded) + head == head;
      StripStripped(head);
    }
  }

  lemma StripAfterBlank(head: string)
    requires IsStripped(head)
    ensures Strip([' '] + head) == head
  {
    StripLeadingBlank(head);
    StripStripped(head);
  }

  /** A join of two or more items is the first item, a comma, and a blank-led join of the rest. */
  lemma JoinSplitsAtFirstComma(items: seq<string>, padded: bool)
    requires |items| >= 2
    ensures Pad(padded) + JoinList(items) == (Pad(padded) + items[0]) + [','] + (" " + JoinList(items[1..]))
  {
  }

  lemma ParseBlank(padded: bool)
    ensures CleanItems(Split(Pad(padded), ',')) == []
  {
    if padded {
      assert Split(" ", ',') == [" "] by {
        SplitNoSep(" ", ',');
      }
      assert Strip(" ") == "";
      assert CleanItems([" "]) == [];
    } else {
      assert CleanItems([""]) == [];
    }
  }

  lemma ParseSingle(item: string, padded: bool)
    requires IsListItem(item)
    ensures CleanItems(Split(Pad(padded) + item, ',')) == [item]
  {
    assert ',' !in Pad(padded) + item;
    SplitNoSep(Pad(padded) + item, ',');
    StripPadded(item, padded);
  }

  lemma {:induction false} ParseJoinPadded(items: seq<string>, padded: bool)
    requires forall i :: 0 <= i < |items| ==> IsListItem(items[i])
    ensures CleanItems(Split(Pad(padded) + JoinList(items), ',')) == items
  {
    if items == [] {
      ParseBlank(padded);
      assert Pad(padded) + JoinList(items) == Pad(padded);
    } else if |items| == 1 {
      ParseSingle(items[0], padded);
      assert Pad(padded) + JoinList(items) == Pad(padded) + items[0];
      assert [items[0]] == items;
    } else {
      ParseJoinPadded(items[1..], true);
      ParseCons(items, padded);
    }
  }

  /** The step of `ParseJoinPadded`: the first item, then the blank-led rest. */
  lemma ParseCons(items: seq<string>, padded: bool)
    requires |items| >= 2 && IsListItem(items[0])
    requires CleanItems(Split(Pad(true) + JoinList(items[1..]), ',')) == items[1..]
    ensures CleanItems(Split(Pad(padded) + JoinList(items), ',')) == items
  {
    var head := Pad(padded) + items[0];
    var parts := Split(Pad(true) + JoinList(items[1..]), ',');
    SplitJoinCons(items, padded);
    CleanItemsHead(head, parts, items[0], padded);
    assert [items[0]] + items[1..] == items;
  }

  /** A padded list item is kept, stripped, at the front. */
  lemma CleanItemsHead(head: string, parts: seq<string>, item: string, padded: bool)
    requires IsListItem(item) && head == Pad(padded) + item
    ensures CleanItems([head] + parts) == [item] + CleanItems(parts)
  {
    StripPadded(item, padded);
    CleanItemsCons(head, parts);
  }

  lemma SplitJoinCons(items: seq<string>, padded: bool)
    requires |items| >= 2 && ',' !in items[0]
    ensures Split(Pad(padded) + JoinList(items), ',')
         == [Pad(padded) + items[0]] + Split(Pad(true) + JoinList(items[1..]), ',')
  {
    JoinSplitsAtFirstComma(items, padded);
    assert ',' !in Pad(padded) + items[0];
    SplitAtSep(Pad(padded) + items[0], ',', Pad(true) + JoinList(items[1..]));
  }

  lemma CleanItemsCons(p: string, ps: seq<string>)
    ensures CleanItems([p] + ps) == (if Strip(p) != "" then [Strip(p)] + CleanItems(ps) else CleanItems(ps))
  {
    assert ([p] + ps)[1..] == ps;
  }

  /** Saving the edit form unchanged gives back the same list. */
  lemma ParseJoinRoundTrip(items: seq<string>)
    requires forall i :: 0 <= i < |items| ==> IsListItem(items[i])
    ensures ParseList(JoinList(items)) == items
  {
    ParseJoinPadded(items, false);
    assert Pad(false) + JoinList(items) == JoinList(items);
  }

  // ---------------------------------------------------------------------------------------------
  // The learner document

  /** The learner document, updated in place by the request handlers. */
  class LearnerRecord {
    var data: UserData

    constructor (initial: UserData)
      ensures data == initial
    {
      data := initial;
    }

    /** `toggle_chapter_completion`: needs both form fields. */
    method ToggleChapterCompletion(subjectName: Option<string>, chapterName: Option<string>)
      modifies this
      ensures data == if Present(subjectName) && Present(chapterName)
                      then old(data).(chaptersCompleted := ToggleCompletion(old(data.chaptersCompleted), subjectName.value, chapterName.value))
                      else old(data)
    {
      if !Present(subjectName) || !Present(chapterName) {
        return;
      }
      var subject, chapter := subjectName.value, chapterName.value;
      var chaptersCompleted := data.chaptersCompleted;
      if subject !in chaptersCompleted {
        chaptersCompleted := chaptersCompleted[subject := map[]];
      }
      var currentStatus := Truthy(chaptersCompleted[subject], chapter);
      chaptersCompleted := chaptersCompleted[subject := chaptersCompleted[subject][chapter := !currentStatus]];
      data := data.(chaptersCompleted := chaptersCompleted);
    }

    /** `toggle_chapter_exclusion`: needs both form fields. */
    method ToggleChapterExclusion(subjectName: Option<string>, chapterName: Option<string>)
      modifies this
      ensures data == if Present(subjectName) && Present(chapterName)
                      then old(data).(academicExclusions := ToggleExclusion(old(data.academicExclusions),
                                                                              ExclusionKey(subjectName.value, chapterName.value)))
                      else old(data)
    {
      if !Present(subjectName) || !Present(chapterName) {
        return;
      }
      var key := ExclusionKey(subjectName.value, chapterName.value);
      var exclusions := data.academicExclusions;
      if Truthy(exclusions, key) {
        exclusions := exclusions - {key};
      } else {
        exclusions := exclusions[key := true];
      }
      data := data.(academicExclusions := exclusions);
    }

    /** The streak update of `login`, on day `today`. */
    method RecordLogin(today: int)
      modifies this
      ensures data == AfterLogin(old(data), today)
    {
      var streak := data.loginStreak;
      match data.lastLoginDate {
        case Unparseable =>
          return;
        case NeverLoggedIn =>
          streak := 1;
        case Day(lastDate) =>
          if lastDate == today {
          } else if lastDate == today - 1 {
            streak := streak + 1;
          } else {
            streak := 1;
          }
      }
      data := data.(lastLoginDate := Day(today), loginStreak := streak);
    }

    /** `goals_dashboard`, action `add`. */
    method AddGoal(title: Option<string>, description: string, subject: string, targetDate: string, createdAt: string)
      modifies this
      ensures data == if Present(title)
                      then old(data).(goals := AppendEntry(old(data.goals), title.value,
                                                            GoalDetail(description, subject, targetDate), createdAt))
                      else old(data)
    {
      if Present(title) {
        var goals := data.goals;
        goals := goals + [Entry(|goals|, title.value, GoalDetail(description, subject, targetDate), false, createdAt)];
        data := data.(goals := goals);
      }
    }

    /** `goals_dashboard`, action `toggle`. */
    method ToggleGoal(goalId: int)
      modifies this
      ensures data == old(data).(goals := ToggleFirst(old(data.goals), goalId))
    {
      var goals := ToggleFirstEntry(data.goals, goalId);
      data := data.(goals := goals);
    }

    /** `goals_dashboard`, action `delete`. */
    method DeleteGoal(goalId: int)
      modifies this
      ensures data == old(data).(goals := DeleteId(old(data.goals), goalId))
    {
      data := data.(goals := DeleteId(data.goals, goalId));
    }

    /** `tasks_dashboard`, action `add`. */
    method AddTask(title: Option<string>, description: string, goalId: string, dueDate: string, createdAt: string)
      modifies this
      ensures data == if Present(title)
                      then old(data).(tasks := AppendEntry(old(data.tasks), title.value,
                                                            TaskDetail(description, goalId, dueDate), createdAt))
                      else old(data)
    {
      if Present(title) {
        var tasks := data.tasks;
        tasks := tasks + [Entry(|tasks|, title.value, TaskDetail(description, goalId, dueDate), false, createdAt)];
        data := data.(tasks := tasks);
      }
    }

    /** `tasks_dashboard`, action `toggle`. */
    method ToggleTask(taskId: int)
      modifies this
      ensures data == old(data).(tasks := ToggleFirst(old(data.tasks), taskId))
    {
      var tasks := ToggleFirstEntry(data.tasks, taskId);
      data := data.(tasks := tasks);
    }

    /** `tasks_dashboard`, action `delete`. */
    method DeleteTask(taskId: int)
      modifies this
      ensures data == old(data).(tasks := DeleteId(old(data.tasks), taskId))
    {
      data := data.(tasks := DeleteId(data.tasks, taskId));
    }

    /**
     * `results_dashboard`, action `add`: needs a test label and a score. `id` and `createdAt`
     * are the clock readings the handler takes.
     */
    method AddResult(testTypes: Option<string>, subject: string, score: Option<real>, maxScore: Option<real>,
                     examDate: Option<string>, id: int, createdAt: string)
      modifies this
      ensures data == if Present(testTypes) && score.Some?
                      then old(data).(examResults := old(data.examResults)
                                        + [NewResult(id, testTypes.value, subject, score.value, maxScore, examDate, createdAt)])
                      else old(data)
    {
      if Present(testTypes) && score.Some? {
        var maxValue := if maxScore.Some? then maxScore.value else 100.0;
        var result := ExamResult(id, testTypes, None, subject, Num(score.value), Num(maxValue), examDate, createdAt);
        data := data.(examResults := data.examResults + [result]);
      }
    }

    /** `results_dashboard`, action `delete`: ids are compared as text. */
    method DeleteResult(resultId: Option<string>)
      modifies this
      ensures data == if Present(resultId)
                      then old(data).(examResults := DeleteResultText(old(data.examResults), resultId.value))
                      else old(data)
    {
      if Present(resultId) {
        data := data.(examResults := DeleteResultText(data.examResults, resultId.value));
      }
    }

    /** `profile_edit` on POST: the name and about fields as sent, the four lists parsed. */
    method EditProfile(name: Option<string>, about: Option<string>, skills: Option<string>, hobbies: Option<string>,
                       certificates: Option<string>, achievements: Option<string>)
      modifies this
      ensures data == old(data).(name := name, about := about,
                                 skills := ParseList(skills.GetOr("")), hobbies := ParseList(hobbies.GetOr("")),
                                 certificates := ParseList(certificates.GetOr("")),
                                 achievements := ParseList(achievements.GetOr("")))
    {
      data := data.(name := name, about := about,
                    skills := ParseList(skills.GetOr("")), hobbies := ParseList(hobbies.GetOr("")),
                    certificates := ParseList(certificates.GetOr("")),
                    achievements := ParseList(achievements.GetOr("")));
    }
  }
}
