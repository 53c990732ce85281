/** The `App` component's state and its event handlers (index.tsx:33-256).
    Each React state variable is a field; each handler is a method that
    assigns the fields its setters assign, and is specified by the pure
    transition functions of the other modules. */
module TpaApp {
  import opened Wrappers
  import opened Domain
  import opened Answers
  import opened Quiz
  import opened Records
  import opened Generation
  import opened Summary
  import opened ResultScreen

  const LoginError := "Username atau password salah."
  const DuplicateUserError := "Username sudah ada."
  const GenerationError := "Gagal membuat soal. Silakan coba lagi."

  /** The stored user list when none is stored: the one administrator. */
  const DefaultUsers := [User("admin", "admin123", Admin, None, None, None)]

  const DefaultCategories := [
    Category(1, "Logika Verbal"),
    Category(2, "Matematika Dasar"),
    Category(3, "Penalaran Analitis")]

  class App {
    var appState: Screen
    var currentUser: Option<User>
    var users: seq<User>
    var results: seq<TestResult>
    var error: string
    var questions: seq<Question>
    var currentQuestionIndex: int
    var userAnswers: seq<Answer>
    var timer: int
    var categories: seq<Category>
    var testConfig: seq<ConfigEntry>

    /** The fields a quiz session reads and writes. */
    function Session(): Quiz.Session
      reads this
    {
      Quiz.Session(questions, currentQuestionIndex, userAnswers, timer, results, appState)
    }

    /** The quiz invariant, and a logged-in user whenever the quiz is on screen. */
    ghost predicate Valid()
      reads this
    {
      Quiz.Valid(Session()) && (appState == QuizSection ==> currentUser.Some?)
    }

    /** The username results are recorded under; the handlers that read it
        require a logged-in user, so the empty fallback is never used by them. */
    function Username(): string
      reads this
    {
      if currentUser.Some? then currentUser.value.username else ""
    }

    /** The initial state; each stored list is `None` when the storage slot is
        missing or does not parse, and the default is used instead. */
    constructor(storedUsers: Option<seq<User>>, storedResults: Option<seq<TestResult>>,
                storedCategories: Option<seq<Category>>)
      ensures appState == Login && currentUser.None? && error == ""
      ensures users == storedUsers.GetOr(DefaultUsers)
      ensures results == storedResults.GetOr([])
      ensures categories == storedCategories.GetOr(DefaultCategories)
      ensures questions == [] && currentQuestionIndex == 0 && userAnswers == [] && timer == QuestionSeconds
      ensures testConfig == []
      ensures Valid()
    {
      appState := Login;
      currentUser := None;
      users := storedUsers.GetOr(DefaultUsers);
      results := storedResults.GetOr([]);
      error := "";
      questions := [];
      currentQuestionIndex := 0;
      userAnswers := [];
      timer := QuestionSeconds;
      categories := storedCategories.GetOr(DefaultCategories);
      testConfig := [];
    }

    /** `handleLogin`: a matching user is logged in and routed by role and
        profile; otherwise the error is set and nothing else changes. */
    method HandleLogin(username: string, password: string)
      modifies this`currentUser, this`error, this`appState
      ensures FindUser(users, username, password).Some? ==>
        currentUser == FindUser(users, username, password) && error == "" &&
        appState == LoginRoute(FindUser(users, username, password).value)
      ensures FindUser(users, username, password).None? ==>
        currentUser == old(currentUser) && error == LoginError && appState == old(appState)
      ensures old(Valid()) ==> Valid()
    {
      var user := FindUser(users, username, password);
      if user.Some? {
        currentUser := user;
        error := "";
        appState := LoginRoute(user.value);
      } else {
        error := LoginError;
      }
    }

    method HandleLogout()
      modifies this`currentUser, this`appState
      ensures currentUser.None? && appState == Login
      ensures Valid()
    {
      currentUser := None;
      appState := Login;
    }

    /** `handleProfileUpdate`, sent by the profile form of a logged-in student. */
    method HandleProfileUpdate(fullName: string, studyProgram: string, regNumber: string)
      requires currentUser.Some?
      modifies this`currentUser, this`users, this`appState
      ensures currentUser == Some(UpdateProfile(old(currentUser).value, fullName, studyProgram, regNumber))
      ensures users == ReplaceByUsername(old(users), currentUser.value)
      ensures appState == StudentDashboard
      ensures Valid()
    {
      var updatedUser := UpdateProfile(currentUser.value, fullName, studyProgram, regNumber);
      currentUser := Some(updatedUser);
      users := ReplaceByUsername(users, updatedUser);
      appState := StudentDashboard;
    }

    /** `handleAddUser`. */
    method HandleAddUser(username: string, password: string)
      modifies this`users, this`error
      ensures UsernameTaken(old(users), username) ==> users == old(users) && error == DuplicateUserError
      ensures !UsernameTaken(old(users), username) ==>
        users == old(users) + [NewStudent(username, password)] && error == ""
      ensures UniqueUsernames(old(users)) ==> UniqueUsernames(users)
    {
      if UniqueUsernames(users) {
        AddUserKeepsUsernamesUnique(users, username, password);
      }
      var r := AddUser(users, username, password);
      if r.None? {
        error := DuplicateUserError;
        return;
      }
      users := r.value;
      error := "";
    }

    /** The part of `generateQuestions` after the generator's reply: `reply` is
        the parsed list of sections, `None` when the call or the parsing failed. */
    method HandleGenerated(reply: Option<seq<GeneratedSection>>)
      modifies this`questions, this`appState, this`error
      ensures reply.Some? ==> questions == Flatten(reply.value) && appState == AdminQuestionReview && error == ""
      ensures reply.None? ==> questions == old(questions) && appState == AdminQuestionManagement && error == GenerationError
      ensures Valid()
    {
      error := "";
      if reply.Some? {
        questions := Flatten(reply.value);
        appState := AdminQuestionReview;
      } else {
        error := GenerationError;
        appState := AdminQuestionManagement;
      }
    }

    /** `startTest`, from the student dashboard or the admin's review screen. */
    method StartTest()
      modifies this`userAnswers, this`currentQuestionIndex, this`timer, this`appState
      ensures Session() == Start(old(Session()))
      ensures currentUser.Some? ==> Valid()
    {
      userAnswers := [];
      currentQuestionIndex := 0;
      timer := QuestionSeconds;
      appState := QuizSection;
    }

    /** `handleAnswer`, from the option buttons or the essay box of the question on screen. */
    method HandleAnswer(answer: AnswerValue)
      modifies this`userAnswers
      ensures Session() == RecordAnswer(old(Session()), answer)
      ensures old(Valid()) && (appState == QuizSection ==> currentQuestionIndex < |questions|) ==> Valid()
    {
      if Valid() && (appState == QuizSection ==> currentQuestionIndex < |questions|) {
        AnswerPreservesValid(Session(), answer);
      }
      userAnswers := MergeAnswer(userAnswers, currentQuestionIndex, answer);
    }

    /** `handleNextQuestion`; `date` is the timestamp of a finished test. */
    method HandleNextQuestion(date: string)
      requires currentUser.Some? && InRange(userAnswers, |questions|)
      modifies this`currentQuestionIndex, this`timer, this`results, this`appState
      ensures Session() == Next(old(Session()), Username(), date)
      ensures old(Valid()) ==> Valid()
    {
      if Valid() {
        NextPreservesValid(Session(), Username(), date);
      }
      var nextIndex := currentQuestionIndex + 1;
      if nextIndex < |questions| {
        currentQuestionIndex := nextIndex;
        timer := QuestionSeconds;
      } else {
        var newResult := NewResult(Session(), Username(), date);
        results := results + [newResult];
        appState := StudentResults;
      }
    }

    /** One pulse of the countdown interval and the effect run that follows it. */
    method Tick(date: string)
      requires appState == QuizSection ==> currentUser.Some? && InRange(userAnswers, |questions|)
      modifies this`currentQuestionIndex, this`timer, this`results, this`appState
      ensures Session() == Quiz.Tick(old(Session()), Username(), date)
      ensures old(Valid()) ==> Valid()
    {
      if Valid() {
        TickPreservesValid(Session(), Username(), date);
      }
      if appState == QuizSection {
        if timer > 0 {
          timer := timer - 1;
        }
        if timer <= 0 {
          HandleNextQuestion(date);
        }
      }
    }

    /** The button of the "not available" card. */
    method LeaveUnavailableQuiz()
      requires currentUser.Some?
      modifies this`appState
      ensures appState == if currentUser.value.role == Admin then AdminDashboard else StudentDashboard
    {
      appState := if currentUser.value.role == Admin then AdminDashboard else StudentDashboard;
    }

    /** The student's result screen: the summary of their latest result, or
        `None` for the "no result" card. */
    method StudentResultsSummary() returns (sections: Option<map<string, Tally>>)
      requires currentUser.Some?
      ensures LastResultOf(results, Username()).None? ==> sections.None?
      ensures LastResultOf(results, Username()).Some? ==>
        sections == Some(SummaryOf(LastResultOf(results, Username()).value.questions,
                                   LastResultOf(results, Username()).value.answers))
    {
      var lastResult := LastResultOf(results, Username());
      if lastResult.None? {
        return None;
      }
      var acc := SectionSummary(lastResult.value.questions, lastResult.value.answers);
      return Some(acc);
    }

    /** `handleAddCategory`; `id` is the timestamp the handler reads. */
    method HandleAddCategory(name: string, id: int)
      modifies this`categories
      ensures categories == AddCategory(old(categories), id, name)
      ensures NamesDistinct(old(categories)) ==> NamesDistinct(categories)
    {
      if NamesDistinct(categories) {
        AddCategoryKeepsDistinct(categories, id, name);
      }
      if name != "" && !NameTaken(categories, name) {
        categories := categories + [Category(id, name)];
      }
    }

    method HandleEditCategory(id: int, newName: Option<string>)
      modifies this`categories
      ensures categories == EditCategory(old(categories), id, newName)
    {
      categories := EditCategory(categories, id, newName);
    }

    method HandleDeleteCategory(id: int)
      modifies this`categories
      ensures categories == DeleteCategory(old(categories), id)
      ensures forall c :: c in categories <==> c in old(categories) && c.id != id
    {
      DeleteMembership(categories, id);
      categories := DeleteCategory(categories, id);
    }

    /** The dashboard card that opens the generation form with an empty request. */
    method OpenQuestionManagement()
      modifies this`testConfig, this`appState
      ensures testConfig == [] && appState == AdminQuestionManagement
    {
      testConfig := [];
      appState := AdminQuestionManagement;
    }

    method AddConfigLine()
      modifies this`testConfig
      ensures testConfig == AddConfig(old(testConfig), categories)
    {
      testConfig := AddConfig(testConfig, categories);
    }

    method UpdateConfigLine(index: int, u: ConfigUpdate)
      modifies this`testConfig
      ensures testConfig == UpdateConfig(old(testConfig), index, u)
    {
      testConfig := UpdateConfig(testConfig, index, u);
    }

    /** The count field of line `index`; `parsed` is `parseInt` of the input,
        `None` for `NaN`. */
    method UpdateCountLine(index: int, parsed: Option<int>)
      modifies this`testConfig
      ensures testConfig == UpdateConfig(old(testConfig), index, SetCount(CountFromInput(parsed)))
      ensures 0 <= index < |testConfig| ==> testConfig[index].count != 0
    {
      if 0 <= index < |testConfig| {
        CountUpdateNeverZero(testConfig, index, parsed);
      }
      testConfig := UpdateConfig(testConfig, index, SetCount(CountFromInput(parsed)));
    }

    method RemoveConfigLine(index: int)
      modifies this`testConfig
      ensures testConfig == RemoveConfig(old(testConfig), index)
    {
      testConfig := RemoveConfig(testConfig, index);
    }
  }
}
