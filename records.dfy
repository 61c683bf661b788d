/**
 * The learner document (the `users/<uid>` record) as the core reads it.
 *
 * A Python `dict.get(key)` that may find nothing is an `Option`; a key whose
 * default the code supplies (`get('goals', [])`) holds that default here.
 */
module Records {
  import opened Wrappers

  datatype HighSchool = HighSchool(board: Option<string>, grade: Option<string>)

  datatype ExamSetup = ExamSetup(examType: Option<string>)

  /** `subjects` is `None` when the key is absent or holds something that is not a list. */
  datatype AfterTenth = AfterTenth(stream: Option<string>, grade: Option<string>, subjects: Option<seq<string>>)

  /**
   * A score field of an exam result: absent, `None`, a number, or a value `float()` rejects
   * (a non-numeric, non-empty string).
   */
  datatype Value = Missing | Null | Num(x: real) | Malformed

  /**
   * One exam result. The app writes the test label under `test_types`; `testType` is the
   * `test_type` key, which the statistics page reads and the app never writes.
   */
  datatype ExamResult = ExamResult(
    id: int,
    testTypes: Option<string>,
    testType: Option<string>,
    subject: string,
    score: Value,
    maxScore: Value,
    examDate: Option<string>,
    createdAt: string)

  /** A goal or a task: the fields the list operations touch, plus the kind-specific `detail`. */
  datatype Entry<D> = Entry(id: int, title: string, detail: D, completed: bool, createdAt: string)

  datatype GoalDetail = GoalDetail(description: string, subject: string, targetDate: string)

  datatype TaskDetail = TaskDetail(description: string, goalId: string, dueDate: string)

  type Goal = Entry<GoalDetail>

  type Task = Entry<TaskDetail>

  /** `last_login_date` as a day number; `Unparseable` is a stored text `fromisoformat` rejects. */
  datatype LoginDate = NeverLoggedIn | Day(day: int) | Unparseable

  datatype UserData = UserData(
    name: Option<string>,
    about: Option<string>,
    purpose: Option<string>,
    highschool: Option<HighSchool>,
    exam: Option<ExamSetup>,
    afterTenth: Option<AfterTenth>,
    chaptersCompleted: map<string, map<string, bool>>,
    academicExclusions: map<string, bool>,
    chapterName: Option<string>,
    examResults: seq<ExamResult>,
    goals: seq<Goal>,
    tasks: seq<Task>,
    skills: seq<string>,
    hobbies: seq<string>,
    certificates: seq<string>,
    achievements: seq<string>,
    timeStudied: int,
    lastLoginDate: LoginDate,
    loginStreak: int)
}
