/**
 * The static curriculum table and its lookup (templates/academic_data.py).
 *
 * The table's topic prose is not modelled: a chapter keeps only its topic names.
 */
module Curriculum {
  import opened Wrappers
  import opened Dicts

  datatype Chapter = Chapter(topics: seq<string>)

  /** A subject entry: its `chapters` dict, in the table's order. */
  datatype Subject = Subject(chapters: Dict<string, Chapter>)

  /** subject name -> subject entry. */
  type Syllabus = Dict<string, Subject>

  /** `ACADEMIC_SYLLABI`: 'highschool' maps board -> grade -> syllabus, 'exams' maps exam -> syllabus. */
  datatype Table = Table(highschool: Dict<string, Dict<string, Syllabus>>, exams: Dict<string, Syllabus>)

  /** The board used when the requested one has no (or an empty) entry. */
  const FallbackBoard: string := "CBSE"

  /** Every dict of the table, at every level, is a Python dict: its keys are unique. */
  predicate WellFormedSyllabus(s: Syllabus) {
    UniqueKeys(s) && forall i :: 0 <= i < |s| ==> UniqueKeys(s[i].1.chapters)
  }

  predicate WellFormed(t: Table) {
    && UniqueKeys(t.highschool)
    && (forall b :: 0 <= b < |t.highschool| ==> UniqueKeys(t.highschool[b].1))
    && (forall b, g :: 0 <= b < |t.highschool| && 0 <= g < |t.highschool[b].1| ==>
          WellFormedSyllabus(t.highschool[b].1[g].1))
    && UniqueKeys(t.exams)
    && (forall e :: 0 <= e < |t.exams| ==> WellFormedSyllabus(t.exams[e].1))
  }

  /** `str(grade) if grade else None`: an empty grade is no grade. */
  function GradeKey(grade: Option<string>): Option<string> {
    if grade.Some? && grade.value != "" then grade else None
  }

  /** The board's grade table, or CBSE's when the board is missing or empty. */
  function BoardData(t: Table, board: Option<string>): Dict<string, Syllabus> {
    var found := GetOptOr(t.highschool, board, []);
    if found != [] then found else GetOr(t.highschool, FallbackBoard, [])
  }

  /** `board_data.get(grade_str, {})`. */
  function GradeSyllabus(t: Table, board: Option<string>, grade: Option<string>): Syllabus {
    GetOptOr(BoardData(t, board), GradeKey(grade), [])
  }

  /** `{s: g[s] for s in names if s in g}`: the requested subjects that exist, first request first. */
  function FilterSubjects(g: Syllabus, names: seq<string>): Syllabus {
    if names == [] then []
    else
      var acc := FilterSubjects(g, names[..|names| - 1]);
      var s := names[|names| - 1];
      if s in Keys(g) then Set(acc, s, Get(g, s).value) else acc
  }

  /**
   * `get_syllabus(purpose, board_or_exam, grade, subjects)`. `subjects` is `None` when the
   * argument is absent or not a list.
   */
  function GetSyllabus(t: Table, purpose: string, boardOrExam: Option<string>, grade: Option<string>,
                       subjects: Option<seq<string>>): Syllabus
  {
    if purpose == "highschool" || purpose == "after_tenth" then
      var g := GradeSyllabus(t, boardOrExam, grade);
      if purpose == "after_tenth" && subjects.Some? && subjects.value != [] then FilterSubjects(g, subjects.value)
      else g
    else if purpose == "exam" || purpose == "exams" then
      GetOptOr(t.exams, boardOrExam, [])
    else []
  }

  /** `get_available_subjects(purpose, board_or_exam, grade)`. */
  function GetAvailableSubjects(t: Table, purpose: string, boardOrExam: Option<string>, grade: Option<string>): seq<string> {
    var s := GetSyllabus(t, purpose, boardOrExam, grade, None);
    if s == [] then [] else Keys(s)
  }

  /** A board the table lacks (or holds empty) is answered from the CBSE entry. */
  lemma BoardFallback(t: Table, purpose: string, board: Option<string>, grade: Option<string>,
                      subjects: Option<seq<string>>)
    requires purpose == "highschool" || purpose == "after_tenth"
    requires GetOptOr(t.highschool, board, []) == []
    ensures GetSyllabus(t, purpose, board, grade, subjects) == GetSyllabus(t, purpose, Some(FallbackBoard), grade, subjects)
  {
  }

  lemma {:induction false} FilterOfEmpty(names: seq<string>)
    ensures FilterSubjects([], names) == []
  {
    if names != [] {
      FilterOfEmpty(names[..|names| - 1]);
    }
  }

  /** A missing grade, or one absent under the chosen board, yields the empty syllabus. */
  lemma MissingGradeIsEmpty(t: Table, purpose: string, board: Option<string>, grade: Option<string>,
                            subjects: Option<seq<string>>)
    requires purpose == "highschool" || purpose == "after_tenth"
    requires GradeKey(grade).None? || GradeKey(grade).value !in Keys(BoardData(t, board))
    ensures GetSyllabus(t, purpose, board, grade, subjects) == []
  {
    if subjects.Some? {
      FilterOfEmpty(subjects.value);
    }
  }

  /** The filter keeps exactly the requested subjects that exist, each with its table entry. */
  lemma FilterSubjectsSpec(g: Syllabus, names: seq<string>)
    ensures forall s :: s in Keys(FilterSubjects(g, names)) <==> s in names && s in Keys(g)
    ensures SubDict(FilterSubjects(g, names), g)
    ensures UniqueKeys(FilterSubjects(g, names))
  {
    FilterSubjectsKeys(g, names);
    FilterSubjectsSub(g, names);
  }

  lemma {:induction false} FilterSubjectsKeys(g: Syllabus, names: seq<string>)
    ensures forall s :: s in Keys(FilterSubjects(g, names)) <==> s in names && s in Keys(g)
  {
    if names != [] {
      var init := names[..|names| - 1];
      FilterSubjectsKeys(g, init);
      assert names == init + [names[|names| - 1]];
    }
  }

  lemma {:induction false} FilterSubjectsSub(g: Syllabus, names: seq<string>)
    ensures SubDict(FilterSubjects(g, names), g) && UniqueKeys(FilterSubjects(g, names))
  {
    if names != [] {
      var init := names[..|names| - 1];
      var s := names[|names| - 1];
      var acc := FilterSubjects(g, init);
      FilterSubjectsSub(g, init);
      if s in Keys(g) {
        assert FilterSubjects(g, names) == Set(acc, s, Get(g, s).value);
        SetUnique(acc, s, Get(g, s).value);
        SetKeepsSubDict(acc, g, s);
      } else {
        assert FilterSubjects(g, names) == acc;
      }
    }
  }

  /** Copying one more entry of `g` keeps a unique-keyed sub-dict of `g` a sub-dict of `g`. */
  lemma SetKeepsSubDict(acc: Syllabus, g: Syllabus, s: string)
    requires UniqueKeys(acc) && SubDict(acc, g) && s in Keys(g)
    ensures SubDict(Set(acc, s, Get(g, s).value), g)
  {
    var r := Set(acc, s, Get(g, s).value);
    SetUnique(acc, s, Get(g, s).value);
    forall i | 0 <= i < |r| ensures Get(g, r[i].0) == Some(r[i].1) {
      SetGet(acc, s, Get(g, s).value, r[i].0);
      GetAt(r, i);
      if r[i].0 != s {
        assert r[i].0 in Keys(acc);
        var j :| 0 <= j < |acc| && acc[j].0 == r[i].0;
        GetAt(acc, j);
      }
    }
  }

  /**
   * For `after_tenth` with a non-empty subject list the result is exactly the requested subjects
   * present for that grade, possibly none: there is no fallback to the unfiltered grade table.
   */
  lemma StrictSubjectFilter(t: Table, board: Option<string>, grade: Option<string>, names: seq<string>)
    requires names != []
    ensures var r := GetSyllabus(t, "after_tenth", board, grade, Some(names));
            var g := GradeSyllabus(t, board, grade);
            && (forall s :: s in Keys(r) <==> s in names && s in Keys(g))
            && SubDict(r, g)
            && (r != [] ==> exists s :: s in names && s in Keys(g))
  {
    var g := GradeSyllabus(t, board, grade);
    FilterSubjectsSpec(g, names);
    var r := FilterSubjects(g, names);
    if r != [] {
      assert r[0].0 in Keys(r);
    }
  }

  /**
   * `highschool`, or `after_tenth` without a usable subject list, returns the grade table as it is;
   * `exam`/`exams` returns the exam's entry or nothing; any other purpose returns nothing.
   */
  lemma LookupCases(t: Table, purpose: string, board: Option<string>, grade: Option<string>,
                    subjects: Option<seq<string>>)
    ensures purpose == "highschool" || (purpose == "after_tenth" && (subjects.None? || subjects.value == [])) ==>
              GetSyllabus(t, purpose, board, grade, subjects) == GradeSyllabus(t, board, grade)
    ensures purpose == "exam" || purpose == "exams" ==>
              GetSyllabus(t, purpose, board, grade, subjects) == GetOptOr(t.exams, board, [])
    ensures purpose !in {"highschool", "after_tenth", "exam", "exams"} ==>
              GetSyllabus(t, purpose, board, grade, subjects) == []
  {
  }

  /** Looking a key up in a table whose values are all well formed yields a well-formed value. */
  lemma {:induction false} LookupWellFormed(d: Dict<string, Syllabus>, k: Option<string>)
    requires forall i :: 0 <= i < |d| ==> WellFormedSyllabus(d[i].1)
    ensures WellFormedSyllabus(GetOptOr(d, k, []))
  {
    if k.Some? && k.value in Keys(d) {
      var v := Get(d, k.value).value;
      assert (k.value, v) in d;
    }
  }

  lemma {:induction false} SubDictRefl(s: Syllabus)
    requires UniqueKeys(s)
    ensures SubDict(s, s)
  {
    forall i | 0 <= i < |s| ensures Get(s, s[i].0) == Some(s[i].1) {
      GetAt(s, i);
    }
  }

  /**
   * No subject or chapter is invented: every answer is a sub-map of the unfiltered answer, which is
   * itself an entry of the table.
   */
  lemma ResultIsSubMap(t: Table, purpose: string, board: Option<string>, grade: Option<string>,
                       subjects: Option<seq<string>>)
    requires WellFormed(t)
    ensures SubDict(GetSyllabus(t, purpose, board, grade, subjects), GetSyllabus(t, purpose, board, grade, None))
  {
    var r := GetSyllabus(t, purpose, board, grade, subjects);
    var u := GetSyllabus(t, purpose, board, grade, None);
    if purpose == "highschool" || purpose == "after_tenth" {
      var bd := BoardData(t, board);
      assert forall i :: 0 <= i < |bd| ==> WellFormedSyllabus(bd[i].1) by {
        var found := GetOptOr(t.highschool, board, []);
        if found != [] {
          assert (board.value, found) in t.highschool;
        } else if FallbackBoard in Keys(t.highschool) {
          assert (FallbackBoard, Get(t.highschool, FallbackBoard).value) in t.highschool;
        }
      }
      LookupWellFormed(bd, GradeKey(grade));
      if purpose == "after_tenth" && subjects.Some? && subjects.value != [] {
        FilterSubjectsSpec(u, subjects.value);
      } else {
        SubDictRefl(u);
      }
    } else if purpose == "exam" || purpose == "exams" {
      LookupWellFormed(t.exams, board);
      SubDictRefl(u);
    }
  }

  /** `get_available_subjects` lists exactly the keys of the unfiltered lookup, `[]` when it is empty. */
  lemma AvailableSubjectsAreKeys(t: Table, purpose: string, board: Option<string>, grade: Option<string>)
    ensures var s := GetSyllabus(t, purpose, board, grade, None);
            var r := GetAvailableSubjects(t, purpose, board, grade);
            && |r| == |s|
            && (forall i :: 0 <= i < |s| ==> r[i] == s[i].0)
            && (r == [] <==> s == [])
  {
  }

  /** The chapters of grade-10 Chemistry. */
  const Grade10Chemistry: Subject := Subject([
    ("Chemical Reactions and Equations", Chapter(["Types of Reactions"])),
    ("Acids, Bases, and Salts", Chapter(["Types of Reactions"])),
    ("Metals and Non Metals", Chapter(["Types of Reactions"])),
    ("Carbon and Its Compounds", Chapter(["Types of Reactions"]))])

  /** The first subjects of grade 10 as the table literal lists them, with 'Chemistry' twice. */
  const Grade10Literal: seq<(string, Subject)> :=
    [("Mathematics", Subject([])), ("Chemistry", Grade10Chemistry), ("Chemistry", Grade10Chemistry), ("Physics", Subject([]))]

  lemma FirstOccurrencesGrade10()
    ensures FirstOccurrences(["Mathematics", "Chemistry", "Chemistry", "Physics"]) == ["Mathematics", "Chemistry", "Physics"]
  {
    var ks := ["Mathematics", "Chemistry", "Chemistry", "Physics"];
    assert ks[..3][..2][..1][..0] == [];
    assert FirstOccurrences(ks[..1]) == ["Mathematics"];
    assert FirstOccurrences(ks[..2]) == ["Mathematics", "Chemistry"];
    assert ks[..3][..2] == ks[..2] && ks[..3][2] == "Chemistry";
    assert FirstOccurrences(ks[..3]) == ["Mathematics", "Chemistry"];
    assert ks[..3] == ks[..|ks| - 1];
  }

  /**
   * The repeated 'Chemistry' key occurs once, at its first position, holding the last entry.
   * In the table the two 'Chemistry' entries are identical, so for this literal the value does
   * not show which entry won; that the later entry wins in general is `Dicts.FromPairsLastWins`.
   */
  lemma DuplicateChemistryKey()
    ensures Keys(FromPairs(Grade10Literal)) == ["Mathematics", "Chemistry", "Physics"]
    ensures Get(FromPairs(Grade10Literal), "Chemistry") == Some(Grade10Literal[2].1)
  {
    var ps := Grade10Literal;
    FromPairsKeyOrder(ps);
    assert Keys(ps) == ["Mathematics", "Chemistry", "Chemistry", "Physics"];
    FirstOccurrencesGrade10();
    FromPairsLastWins(ps, 2);
  }
}
