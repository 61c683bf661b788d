/**
 * The deterministic parts of the study assistant (ai_assistant.py): the academic context
 * handed to the prompts, the two conversation exporters, the keyword routing and echo of the
 * offline doubt answer, and the selection of a learner's conversation threads.
 */
module Assistant {
  import opened Wrappers
  import opened Dicts
  import opened Text
  import opened Sorting
  import opened Curriculum
  import opened Records
  import opened Progress

  // ---------------------------------------------------------------------------------------------
  // Academic context

  /** The `academic_progress` entry of the context. */
  datatype ProgressView = ProgressView(overall: real, bySubject: Dict<string, real>, momentum: real,
                                       consistency: real, readiness: real)

  /** The context dict; `examType` and `stream` are `None` where the code does not set those keys. */
  datatype AcademicContext = AcademicContext(
    purpose: Option<string>,
    subjects: seq<string>,
    grade: Option<string>,
    board: Option<string>,
    examType: Option<string>,
    stream: Option<string>,
    academicProgress: ProgressView,
    examHistory: seq<ExamResult>,
    goals: seq<Goal>,
    timeStudied: int)

  /** `exam_results[-5:]`: the last five results, or all of them when there are fewer. */
  function LastFive(rs: seq<ExamResult>): (h: seq<ExamResult>)
    ensures |h| == if |rs| < 5 then |rs| else 5
    ensures h == rs[|rs| - |h|..]
  {
    if |rs| <= 5 then rs else rs[|rs| - 5..]
  }

  /** Subjects shown for a syllabus: its keys, or nothing when it is empty. */
  function SubjectsOf(syl: Syllabus, fallback: seq<string>): seq<string> {
    if syl != [] then Keys(syl) else fallback
  }

  /**
   * `get_academic_context`, with the purpose texts its branches compare against as parameters:
   * `highSchoolTag` for the school branch and `examTag` for the exam branch.
   */
  function ContextFor(u: UserData, t: Table, highSchoolTag: string, examTag: string): (c: AcademicContext)
    ensures c.academicProgress.momentum == 0.0 && c.academicProgress.consistency == 0.0
            && c.academicProgress.readiness == 0.0
    ensures c.academicProgress.overall == AcademicProgress(u, t).overall
    ensures c.academicProgress.bySubject == AcademicProgress(u, t).bySubject
    ensures c.examHistory == LastFive(u.examResults)
    ensures c.purpose == u.purpose && c.goals == u.goals && c.timeStudied == u.timeStudied
  {
    var p := AcademicProgress(u, t);
    var base := AcademicContext(u.purpose, [], None, None, None, None,
                                ProgressView(p.overall, p.bySubject, 0.0, 0.0, 0.0),
                                LastFive(u.examResults), u.goals, u.timeStudied);
    if u.purpose == Some(highSchoolTag) && u.highschool.Some? then
      var hs := u.highschool.value;
      base.(grade := hs.grade, board := hs.board,
            subjects := SubjectsOf(GetSyllabus(t, "highschool", hs.board, hs.grade, None), []))
    else if u.purpose == Some(examTag) && u.exam.Some? then
      var ex := u.exam.value;
      base.(examType := ex.examType, subjects := SubjectsOf(GetSyllabus(t, "exam", ex.examType, None, None), []))
    else if u.purpose == Some("after_tenth") && u.afterTenth.Some? then
      var at := u.afterTenth.value;
      var requested := at.subjects.GetOr([]);
      base.(grade := at.grade, stream := at.stream,
            subjects := SubjectsOf(GetSyllabus(t, "after_tenth", Some(FallbackBoard), at.grade, at.subjects), requested))
    else base
  }

  /** The context as the code builds it: its branches test `'high_school'` and `'exam_prep'`. */
  function AcademicContextAsWritten(u: UserData, t: Table): AcademicContext {
    ContextFor(u, t, "high_school", "exam_prep")
  }

  /** The context with the purpose texts the rest of the application stores. */
  function AcademicContextCorrected(u: UserData, t: Table): AcademicContext {
    ContextFor(u, t, "highschool", "exam")
  }

  /**
   * A school or exam learner, whose profile stores `'highschool'` or `'exam'`, gets no subjects,
   * grade, board or exam type from the context as written, whatever the syllabus holds.
   */
  lemma AsWrittenContextMissesLearner(u: UserData, t: Table)
    requires u.purpose == Some("highschool") || u.purpose == Some("exam")
    ensures AcademicContextAsWritten(u, t).subjects == []
    ensures AcademicContextAsWritten(u, t).grade == None && AcademicContextAsWritten(u, t).board == None
    ensures AcademicContextAsWritten(u, t).examType == None
  {
  }

  /** A school learner whose grade has chapters in the table: the two versions differ. */
  lemma AsWrittenContextDiffers(u: UserData, t: Table)
    requires u.purpose == Some("highschool") && u.highschool.Some?
    requires LearnerSyllabus(u, t) != []
    ensures AcademicContextAsWritten(u, t).subjects == []
    ensures AcademicContextCorrected(u, t).subjects != []
  {
  }

  /** With the corrected tests, the context lists exactly the subjects of the learner's syllabus. */
  lemma CorrectedContextSubjects(u: UserData, t: Table)
    requires u.purpose == Some("highschool") || u.purpose == Some("exam")
    ensures AcademicContextCorrected(u, t).subjects == Keys(LearnerSyllabus(u, t))
  {
  }

  /**
   * For a learner after class ten, the subjects are the keys of the filtered syllabus, or the
   * requested subjects when the filter leaves nothing.
   */
  lemma AfterTenthContextSubjects(u: UserData, t: Table)
    requires u.purpose == Some("after_tenth") && u.afterTenth.Some?
    ensures var syl := LearnerSyllabus(u, t);
            AcademicContextAsWritten(u, t).subjects
            == (if syl != [] then Keys(syl) else u.afterTenth.value.subjects.GetOr([]))
  {
  }

  // ---------------------------------------------------------------------------------------------
  // Conversation export

  datatype Message = Message(role: string, content: string, timestamp: Option<string>)

  /** The thread fields the exporters read; `None` where the key is absent. */
  datatype ThreadInfo = ThreadInfo(title: Option<string>, mode: Option<string>, createdAt: Option<string>)

  /** `msg['timestamp'][:19]` when the timestamp is truthy, else `'Unknown'`. */
  function Stamp(m: Message): (s: string)
    ensures m.timestamp.Some? && m.timestamp.value != [] ==> |s| <= 19 && StartsWith(m.timestamp.value, s)
    ensures (m.timestamp.None? || m.timestamp.value == []) ==> s == "Unknown"
  {
    if m.timestamp.Some? && m.timestamp.value != [] then Take(m.timestamp.value, 19) else "Unknown"
  }

  function Separator(): (s: string)
    ensures |s| == 50 && forall i :: 0 <= i < 50 ==> s[i] == '-'
  {
    Repeat('-', 50)
  }

  function ModeLine(info: ThreadInfo): string {
    "Mode: " + TitleCase(ReplaceChar(info.mode.GetOr("Unknown"), '_', ' '))
  }

  function CreatedLine(info: ThreadInfo): string {
    "Created: " + info.createdAt.GetOr("Unknown")
  }

  /** The speaker of a message in the plain-text export. */
  function RoleLabel(role: string): (who: string)
    ensures who == "AI" <==> role == "assistant"
    ensures who == "AI" || who == "You"
  {
    if role == "assistant" then "AI" else "You"
  }

  /** One message of the plain-text export. */
  function TextLine(m: Message): string {
    "[" + Stamp(m) + "] " + RoleLabel(m.role) + ": " + m.content
  }

  function TextHeader(info: ThreadInfo): seq<string> {
    ["SCLERA AI Conversation: " + info.title.GetOr("Untitled"), ModeLine(info), CreatedLine(info), Separator()]
  }

  /** The lines of the plain-text export. */
  function TextLines(info: ThreadInfo, msgs: seq<Message>): seq<string> {
    TextHeader(info) + seq(|msgs|, i requires 0 <= i < |msgs| => TextLine(msgs[i])) + [Separator()]
  }

  /** The three entries one message contributes to the second export. */
  function MarkdownEntries(m: Message): seq<string> {
    [(if m.role == "assistant" then "SCLERA AI (" else "You (") + Stamp(m) + "):", m.content, ""]
  }

  function MarkdownHeader(info: ThreadInfo): seq<string> {
    [info.title.GetOr("Untitled"), ModeLine(info), CreatedLine(info), Separator()]
  }

  /** The entries of every message in turn. */
  function MarkdownBody(msgs: seq<Message>): (body: seq<string>)
    ensures |body| == 3 * |msgs|
  {
    if msgs == [] then [] else MarkdownBody(msgs[..|msgs| - 1]) + MarkdownEntries(msgs[|msgs| - 1])
  }

  function MarkdownLines(info: ThreadInfo, msgs: seq<Message>): seq<string> {
    MarkdownHeader(info) + MarkdownBody(msgs)
  }

  /** `format_sclera_thread_as_text`. */
  method FormatThreadAsText(info: ThreadInfo, msgs: seq<Message>) returns (text: string)
    ensures text == Join(TextLines(info, msgs), "\n")
  {
    var lines := TextHeader(info);
    var i := 0;
    while i < |msgs|
      invariant 0 <= i <= |msgs|
      invariant lines == TextHeader(info) + seq(i, k requires 0 <= k < i => TextLine(msgs[k]))
    {
      lines := lines + [TextLine(msgs[i])];
      i := i + 1;
    }
    lines := lines + [Separator()];
    text := Join(lines, "\n");
  }

  /** `format_sclera_thread_as_markdown`. */
  method FormatThreadAsMarkdown(info: ThreadInfo, msgs: seq<Message>) returns (text: string)
    ensures text == Join(MarkdownLines(info, msgs), "\n")
  {
    var lines := MarkdownHeader(info);
    var i := 0;
    while i < |msgs|
      invariant 0 <= i <= |msgs|
      invariant lines == MarkdownHeader(info) + MarkdownBody(msgs[..i])
    {
      assert msgs[..i + 1][..i] == msgs[..i];
      lines := lines + MarkdownEntries(msgs[i]);
      i := i + 1;
    }
    assert msgs[..|msgs|] == msgs;
    text := Join(lines, "\n");
  }

  /**
   * The plain-text export: four header lines (title, mode, creation time, separator), one line per message in order, then the closing
   * separator; each message line shows its timestamp prefix and "AI" exactly for the assistant.
   */
  lemma TextExportShape(info: ThreadInfo, msgs: seq<Message>)
    ensures |TextLines(info, msgs)| == 5 + |msgs|
    ensures TextLines(info, msgs)[0] == "SCLERA AI Conversation: " + info.title.GetOr("Untitled")
    ensures TextLines(info, msgs)[1] == ModeLine(info) && TextLines(info, msgs)[2] == CreatedLine(info)
    ensures TextLines(info, msgs)[3] == Separator() && TextLines(info, msgs)[4 + |msgs|] == Separator()
    ensures forall i :: 0 <= i < |msgs| ==>
              TextLines(info, msgs)[4 + i] == "[" + Stamp(msgs[i]) + "] " + RoleLabel(msgs[i].role) + ": " + msgs[i].content
  {
    var body := seq(|msgs|, i requires 0 <= i < |msgs| => TextLine(msgs[i]));
    var lines := TextLines(info, msgs);
    assert lines == TextHeader(info) + body + [Separator()];
    forall i | 0 <= i < |msgs|
      ensures lines[4 + i] == "[" + Stamp(msgs[i]) + "] " + RoleLabel(msgs[i].role) + ": " + msgs[i].content
    {
      assert lines[4 + i] == body[i];
    }
  }

  /** Message `i` occupies entries `4 + 3i` to `4 + 3i + 2` of the second export. */
  lemma {:induction false} MarkdownBodyAt(msgs: seq<Message>, i: nat)
    requires i < |msgs|
    ensures MarkdownBody(msgs)[3 * i..3 * i + 3] == MarkdownEntries(msgs[i])
  {
    var init := msgs[..|msgs| - 1];
    if i < |msgs| - 1 {
      MarkdownBodyAt(init, i);
      assert MarkdownBody(msgs)[..3 * |init|] == MarkdownBody(init);
    }
  }

  /**
   * The second export: four header lines and exactly three entries per message (heading,
   * content, blank line), with no closing separator.
   */
  lemma MarkdownExportShape(info: ThreadInfo, msgs: seq<Message>)
    ensures |MarkdownLines(info, msgs)| == 4 + 3 * |msgs|
    ensures MarkdownLines(info, msgs)[0] == info.title.GetOr("Untitled")
    ensures forall i :: 0 <= i < |msgs| ==>
              MarkdownLines(info, msgs)[4 + 3 * i + 1] == msgs[i].content
              && MarkdownLines(info, msgs)[4 + 3 * i + 2] == ""
  {
    forall i | 0 <= i < |msgs|
      ensures MarkdownLines(info, msgs)[4 + 3 * i + 1] == msgs[i].content
      ensures MarkdownLines(info, msgs)[4 + 3 * i + 2] == ""
    {
      MarkdownBodyAt(msgs, i);
      assert MarkdownLines(info, msgs)[4 + 3 * i + 1] == MarkdownBody(msgs)[3 * i + 1];
      assert MarkdownLines(info, msgs)[4 + 3 * i + 2] == MarkdownBody(msgs)[3 * i + 2];
    }
  }

  // ---------------------------------------------------------------------------------------------
  // Offline doubt answer

  datatype Topic = Math | Science | Language | General

  const MathKeywords: seq<string> := ["math", "algebra", "geometry", "calculus", "equation", "formula"]
  const ScienceKeywords: seq<string> := ["physics", "chemistry", "biology", "science"]
  const LanguageKeywords: seq<string> := ["english", "grammar", "literature", "writing"]

  /** `any(keyword in text for keyword in keywords)`. */
  function AnyIn(text: string, keywords: seq<string>): (b: bool)
    ensures b ==> exists i :: 0 <= i < |keywords| && Contains(text, keywords[i])
  {
    if keywords == [] then false else Contains(text, keywords[0]) || AnyIn(text, keywords[1..])
  }

  /** A keyword found in the text makes the test succeed. */
  lemma {:induction false} AnyInFound(text: string, keywords: seq<string>, i: nat)
    requires i < |keywords| && Contains(text, keywords[i])
    ensures AnyIn(text, keywords)
  {
    if i > 0 {
      AnyInFound(text, keywords[1..], i - 1);
    }
  }

  /** The kind of answer: the lower-cased question is matched against the keyword lists in turn. */
  function Classify(message: string): Topic {
    var q := Lower(message);
    if AnyIn(q, MathKeywords) then Math
    else if AnyIn(q, ScienceKeywords) then Science
    else if AnyIn(q, LanguageKeywords) then Language
    else General
  }

  /** Classification ignores letter case: a lower-cased question is classified the same. */
  lemma ClassifyIgnoresCase(message: string)
    ensures Classify(Lower(message)) == Classify(message)
  {
    LowerIdempotent(message);
  }

  /** A mathematical keyword wins over every other list. */
  lemma MathFirst(message: string, i: nat)
    requires i < |MathKeywords| && Contains(Lower(message), MathKeywords[i])
    ensures Classify(message) == Math
  {
    AnyInFound(Lower(message), MathKeywords, i);
  }

  /** Without a mathematical keyword, a science keyword decides. */
  lemma ScienceSecond(message: string, i: nat)
    requires !AnyIn(Lower(message), MathKeywords)
    requires i < |ScienceKeywords| && Contains(Lower(message), ScienceKeywords[i])
    ensures Classify(message) == Science
  {
    AnyInFound(Lower(message), ScienceKeywords, i);
  }

  /** Without mathematical or science keywords, a language keyword decides. */
  lemma LanguageThird(message: string, i: nat)
    requires !AnyIn(Lower(message), MathKeywords) && !AnyIn(Lower(message), ScienceKeywords)
    requires i < |LanguageKeywords| && Contains(Lower(message), LanguageKeywords[i])
    ensures Classify(message) == Language
  {
    AnyInFound(Lower(message), LanguageKeywords, i);
  }

  /** A general answer means no list had a keyword. */
  lemma GeneralMeansNoKeyword(message: string)
    requires Classify(message) == General
    ensures forall i :: 0 <= i < |MathKeywords| ==> !Contains(Lower(message), MathKeywords[i])
    ensures forall i :: 0 <= i < |ScienceKeywords| ==> !Contains(Lower(message), ScienceKeywords[i])
    ensures forall i :: 0 <= i < |LanguageKeywords| ==> !Contains(Lower(message), LanguageKeywords[i])
  {
    forall i | 0 <= i < |MathKeywords| ensures !Contains(Lower(message), MathKeywords[i]) {
      if Contains(Lower(message), MathKeywords[i]) {
        AnyInFound(Lower(message), MathKeywords, i);
      }
    }
    forall i | 0 <= i < |ScienceKeywords| ensures !Contains(Lower(message), ScienceKeywords[i]) {
      if Contains(Lower(message), ScienceKeywords[i]) {
        AnyInFound(Lower(message), ScienceKeywords, i);
      }
    }
    forall i | 0 <= i < |LanguageKeywords| ensures !Contains(Lower(message), LanguageKeywords[i]) {
      if Contains(Lower(message), LanguageKeywords[i]) {
        AnyInFound(Lower(message), LanguageKeywords, i);
      }
    }
  }

  /** The section appended to the answer: language and general questions share one. */
  datatype Section = MathematicalApproach | ScientificMethod | StudyApproach

  function SectionFor(topic: Topic): (s: Section)
    ensures s == StudyApproach <==> topic == Language || topic == General
  {
    match topic
    case Math => MathematicalApproach
    case Science => ScientificMethod
    case _ => StudyApproach
  }

  /** The question as echoed back: at most 100 characters, then `...` exactly when it was cut. */
  function Echo(message: string): (e: string)
    ensures |message| <= 100 ==> e == message
    ensures |message| > 100 ==> |e| == 103 && e[..100] == message[..100] && e[100..] == "..."
  {
    Take(message, 100) + (if |message| > 100 then "..." else "")
  }

  /** The first three subjects, joined with `, `. */
  function FirstThree(subjects: seq<string>): string {
    Join(if |subjects| <= 3 then subjects else subjects[..3], ", ")
  }

  /** The "Relevant Subjects" text as written: the fallback is appended whenever there are at most three. */
  function RelevantSubjectsAsWritten(subjects: seq<string>): string {
    FirstThree(subjects) + (if |subjects| > 3 then " and others" else "General academic support")
  }

  /** A learner with one subject sees its name run into the fallback text. */
  lemma RelevantSubjectsRunTogether()
    ensures RelevantSubjectsAsWritten(["Mathematics"]) == "MathematicsGeneral academic support"
  {
    assert FirstThree(["Mathematics"]) == "Mathematics";
  }

  /** The "Relevant Subjects" text: the fallback only when there is no subject. */
  function RelevantSubjects(subjects: seq<string>): string {
    if subjects == [] then "General academic support"
    else FirstThree(subjects) + (if |subjects| > 3 then " and others" else "")
  }

  /** The corrected text names the subjects, or the fallback for none, and agrees with the code otherwise. */
  lemma RelevantSubjectsCorrected(subjects: seq<string>)
    ensures subjects == [] ==> RelevantSubjects(subjects) == "General academic support"
    ensures 1 <= |subjects| <= 3 ==> RelevantSubjects(subjects) == Join(subjects, ", ")
    ensures |subjects| > 3 ==> RelevantSubjects(subjects) == Join(subjects[..3], ", ") + " and others"
    ensures subjects == [] || |subjects| > 3 ==> RelevantSubjects(subjects) == RelevantSubjectsAsWritten(subjects)
  {
    if subjects == [] {
      assert FirstThree(subjects) == [];
    }
  }

  /** The planning answer's "Focus Areas" text. */
  function FocusAreas(subjects: seq<string>): (s: string)
    ensures |subjects| <= 3 ==> s == Join(subjects, ", ")
    ensures |subjects| > 3 ==> s == Join(subjects[..3], ", ") + " and more"
  {
    FirstThree(subjects) + (if |subjects| > 3 then " and more" else "")
  }

  // ---------------------------------------------------------------------------------------------
  // Threads

  /** A stored conversation document: its id and the two fields the listing reads. */
  datatype ThreadDoc = ThreadDoc(docId: string, threadId: Option<string>, lastMessageAt: Option<string>)

  /** A listed thread. */
  datatype Thread = Thread(threadId: string, lastMessageAt: Option<string>)

  /** A document is a thread of this assistant: the right prefix, and not one of the two bookkeeping documents. */
  predicate IsThreadDoc(chatbotType: string, docId: string) {
    StartsWith(docId, chatbotType + "_") && !EndsWith(docId, "_active_thread") && !EndsWith(docId, "_threads_list")
  }

  /** A thread document's id always holds an underscore. */
  lemma ThreadDocHasUnderscore(chatbotType: string, docId: string)
    requires IsThreadDoc(chatbotType, docId)
    ensures '_' in docId
  {
    assert docId[|chatbotType|] == (chatbotType + "_")[|chatbotType|];
  }

  /** The listed form of a thread document; a missing `thread_id` is the id after the first `_`. */
  function ThreadOf(chatbotType: string, d: ThreadDoc): (t: Thread)
    requires IsThreadDoc(chatbotType, d.docId)
    ensures d.threadId.None? ==> '_' in d.docId && t.threadId == AfterFirst(d.docId, '_')
    ensures d.threadId.Some? ==> t.threadId == d.threadId.value
    ensures t.lastMessageAt == d.lastMessageAt
  {
    ThreadDocHasUnderscore(chatbotType, d.docId);
    Thread(d.threadId.GetOr(AfterFirst(d.docId, '_')), d.lastMessageAt)
  }

  /** The threads of the kept documents, in document order. */
  function ThreadsOf(chatbotType: string, docs: seq<ThreadDoc>): seq<Thread> {
    if docs == [] then []
    else
      var init := ThreadsOf(chatbotType, docs[..|docs| - 1]);
      var d := docs[|docs| - 1];
      if IsThreadDoc(chatbotType, d.docId) then init + [ThreadOf(chatbotType, d)] else init
  }

  /** `x.get('last_message_at', '')`. */
  function LastMessageKey(t: Thread): string {
    t.lastMessageAt.GetOr("")
  }

  /** The listing: the kept threads, most recent message first. */
  function UserThreads(chatbotType: string, docs: seq<ThreadDoc>): seq<Thread> {
    SortBy(ThreadsOf(chatbotType, docs), LastMessageKey, true)
  }

  /** `get_user_threads` once the documents are read; a missing learner gives no threads. */
  method GetUserThreads(chatbotType: string, learnerFound: bool, docs: seq<ThreadDoc>) returns (threads: seq<Thread>)
    ensures threads == if learnerFound then UserThreads(chatbotType, docs) else []
  {
    if !learnerFound {
      return [];
    }
    threads := [];
    var i := 0;
    while i < |docs|
      invariant 0 <= i <= |docs|
      invariant threads == ThreadsOf(chatbotType, docs[..i])
    {
      assert docs[..i + 1][..i] == docs[..i];
      if IsThreadDoc(chatbotType, docs[i].docId) {
        threads := threads + [ThreadOf(chatbotType, docs[i])];
      }
      i := i + 1;
    }
    assert docs[..|docs|] == docs;
    threads := SortBy(threads, LastMessageKey, true);
  }

  /** Some thread document of this assistant yields `t`. */
  predicate YieldsThread(chatbotType: string, docs: seq<ThreadDoc>, t: Thread) {
    exists i :: 0 <= i < |docs| && IsThreadDoc(chatbotType, docs[i].docId) && ThreadOf(chatbotType, docs[i]) == t
  }

  lemma YieldsThreadSnoc(chatbotType: string, docs: seq<ThreadDoc>, t: Thread)
    requires docs != []
    ensures var d := docs[|docs| - 1];
            YieldsThread(chatbotType, docs, t)
            <==> YieldsThread(chatbotType, docs[..|docs| - 1], t)
                 || (IsThreadDoc(chatbotType, d.docId) && ThreadOf(chatbotType, d) == t)
  {
    var init := docs[..|docs| - 1];
    if YieldsThread(chatbotType, init, t) {
      var i :| 0 <= i < |init| && IsThreadDoc(chatbotType, init[i].docId) && ThreadOf(chatbotType, init[i]) == t;
      assert docs[i] == init[i];
    }
    if YieldsThread(chatbotType, docs, t) {
      var i :| 0 <= i < |docs| && IsThreadDoc(chatbotType, docs[i].docId) && ThreadOf(chatbotType, docs[i]) == t;
      if i < |init| {
        assert init[i] == docs[i];
      }
    }
  }

  /** A thread is kept exactly when some thread document of this assistant yields it. */
  lemma {:induction false} ThreadsOfMembers(chatbotType: string, docs: seq<ThreadDoc>, t: Thread)
    ensures t in ThreadsOf(chatbotType, docs) <==> YieldsThread(chatbotType, docs, t)
  {
    if docs != [] {
      ThreadsOfMembers(chatbotType, docs[..|docs| - 1], t);
      YieldsThreadSnoc(chatbotType, docs, t);
    }
  }

  /** The listing holds each kept thread as often as it is kept, newest message first. */
  lemma UserThreadsSpec(chatbotType: string, docs: seq<ThreadDoc>, t: Thread)
    ensures multiset(UserThreads(chatbotType, docs)) == multiset(ThreadsOf(chatbotType, docs))
    ensures forall i, j :: 0 <= i < j < |UserThreads(chatbotType, docs)| ==>
              !LexLess(LastMessageKey(UserThreads(chatbotType, docs)[i]), LastMessageKey(UserThreads(chatbotType, docs)[j]))
    ensures t in UserThreads(chatbotType, docs) <==> YieldsThread(chatbotType, docs, t)
  {
    SortBySorted(ThreadsOf(chatbotType, docs), LastMessageKey, true);
    ThreadsOfMembers(chatbotType, docs, t);
    assert t in UserThreads(chatbotType, docs) <==> t in multiset(UserThreads(chatbotType, docs));
    assert t in ThreadsOf(chatbotType, docs) <==> t in multiset(ThreadsOf(chatbotType, docs));
  }
}
