/** The records the exam application keeps in its component state:
    users, categories, questions, answers, results and the screen tag. */
module Domain {
  import opened Wrappers

  /** The screen tags assigned to `appState`. */
  datatype Screen =
    | Login
    | StudentProfileCompletion
    | StudentDashboard
    | StudentResults
    | AdminDashboard
    | AdminUserManagement
    | AdminCategoryManagement
    | AdminQuestionManagement
    | AdminQuestionReview
    | AdminResultsRecap
    | AdminResultDetail
    | AdminBackgroundManagement
    | QuizSection

  /** `role === 'admin'` selects the administrator; every other role is routed as a student. */
  datatype Role = Admin | Student

  /** A user record; the three profile fields are absent until the student fills them in. */
  datatype User = User(
    username: string,
    password: string,
    role: Role,
    fullName: Option<string>,
    studyProgram: Option<string>,
    regNumber: Option<string>)

  datatype Category = Category(id: int, name: string)

  /** One question as it stands in the session's question list. A question is
      multiple-choice exactly when `options` is an array (possibly empty). */
  datatype Question = Question(
    category: string,
    question: string,
    options: Option<seq<string>>,
    correctAnswerIndex: Option<int>,
    qtype: Option<string>)

  /** The value handed to `handleAnswer`: an option index from the option
      buttons or the text of the essay box. */
  datatype AnswerValue = Choice(index: int) | Text(text: string)

  datatype Answer = Answer(questionIndex: int, answer: AnswerValue)

  /** A persisted test result; `date` is the opaque ISO timestamp. */
  datatype TestResult = TestResult(
    username: string,
    date: string,
    scoreMC: int,
    totalMC: int,
    answers: seq<Answer>,
    questions: seq<Question>)

  /** The two entries of the question-type selector ('Pilihan Ganda', 'Esai'). */
  datatype QuestionType = MultipleChoice | Essay

  /** One line of the admin's generation request. */
  datatype ConfigEntry = ConfigEntry(category: string, count: int, qtype: QuestionType)
}
