# TPA exam application — Dafny model

This project models the `App` component of the TPA (Tes Potensi Akademik)
exam application, a single-page React app. Students log in, complete their
profile and take a timed quiz of generated questions. An administrator
manages users, question categories and the request sent to the question
generator, and reviews the generated questions.

The model covers the logic of the component and leaves out its rendering:

- **The quiz session** (`Quiz`, `Answers`, `Scoring`):
  - `startTest`;
  - `handleAnswer`, with its last-write-wins merge of the answer list;
  - `handleNextQuestion`, with the `scoreMC` fold and the `totalMC` filter;
  - the 30-second countdown of the timer effect;
  - what the quiz screen shows, including the "not available" card over an empty question list.
- **The result screen** (`Summary`, `ResultScreen`):
  - the latest result of the logged-in student;
  - the per-category `{correct, total}` reduce;
  - the filter that hides categories without a multiple-choice question.
- **The question review screen** (`Grouping`, `Review`): the reduce that groups questions into sections by category.
- **The record lists** (`Records`, `Generation`):
  - login and its routing;
  - profile update and adding a user;
  - adding, renaming and deleting categories;
  - adding, updating and removing lines of the generation request;
  - the flattening of the generator's reply into the question list.
- **The component itself** (`TpaApp.App`):
  - a class whose fields are the React state variables;
  - one method per handler;
  - each method specified by the pure functions above;
  - methods that touch the quiz preserve the session invariant `Valid()`.

The pure `Quiz.Session` value and its transition functions are the
specification. The methods of `TpaApp.App` assign the fields that the
handlers' setters assign. Each method's `ensures` ties the new fields to the
transition of the old ones, e.g. `Session() == Next(old(Session()), ...)`.

A pulse of the countdown is `Quiz.Tick`: one firing of the interval plus the
effect run it provokes. When the countdown drops from 1 to 0, the re-run
effect calls `handleNextQuestion` straight away. So within one `Tick` the
countdown goes from 1 to 0 and the session advances, and a quiz on screen
always shows a countdown in 1..30.

Some behaviours of the code differ from what a reader of the screens might
expect; the model follows the code:

- **Empty question list.** One might expect that starting with an empty
  question list never enters the quiz. In the code, `startTest` sets
  `quiz_section` anyway. The screen shows the "not available" card while
  the timer effect keeps counting. After 30 pulses a result of 0 out of 0
  is recorded and the result screen opens (`Quiz.EmptyQuizRecordsEmptyResult`).
- **Multiple-choice questions.** A question is not required to have a
  non-empty options list to count as multiple choice. The code tests `q.options && Array.isArray(q.options)`,
  and an empty array passes that test. `Scoring.IsMultipleChoice` is
  therefore "an options array is present".
- **Renaming a category.** Adding a category rejects a case-insensitive
  duplicate name; renaming does not check, so renaming can create one
  (`Records.EditCategoryCanDuplicateName`).
- **Count field.** `parseInt(value, 10) || 1` keeps a negative number,
  even though the input field says `min="1"` (`Records.CountFromInput`).

The result screen finds each question's answer with
`questions.indexOf(q)`. Every question object in a result is distinct: the
flatMap builds fresh objects, and `JSON.parse` does too. So `indexOf(q)` is
the question's own position, and the model uses that position.

## Model

| member | source | states |
|---|---|---|
| Answers.FindAnswer | index.tsx:558 | none exactly when no entry has the index; a found value is recorded under that index |
| Answers.WithoutIndex | index.tsx:235 | keeps exactly the entries for other indices, never lengthens the list |
| Answers.MergeAnswer | index.tsx:234-239 | after the merge, index `i` has exactly one entry and it holds `v`; every other index keeps its lookup result and its count; entries stay in range |
| Answers.MergeAtIndex | index.tsx:235-238 | the merged list has one entry for `i`, holding `v`, and the same entries elsewhere as the filtered list |
| Answers.MergeElsewhere | index.tsx:235 | for every other index, lookup and count are those of the old list |
| Answers.MergeInRange | index.tsx:235-238 | merging an in-range index keeps every entry in range |
| Answers.CountAppend | index.tsx:235 | the count of an index is additive over concatenation |
| Answers.CountWithout | index.tsx:235 | filtering out `i` zeroes its count and keeps the others |
| Answers.FindAppend | index.tsx:558 | lookup in a concatenation finds the first part's entry first |
| Answers.FindWithout | index.tsx:235 | filtering out `i` leaves lookups of other indices unchanged |
| Answers.WithoutAppend | index.tsx:235 | the filter distributes over concatenation |
| Answers.WithoutIdempotent | index.tsx:235 | filtering twice is filtering once |
| Answers.CountFind | index.tsx:558 | an index has count zero exactly when lookup finds nothing |
| Answers.MergePreservesWellFormed | index.tsx:234-239 | the merge keeps "at most one answer per index, all in range" |
| Answers.MergeTwice | index.tsx:234-239 | answering twice on one question equals answering once with the later value |
| Scoring.ScoreMC | index.tsx:210-217 | the fold over answers; the score never exceeds the number of answers |
| Scoring.MultipleChoiceOnly | index.tsx:219 | keeps exactly the questions with an options array |
| Scoring.TotalIsMultipleChoiceCount | index.tsx:219 | `totalMC` of a prefix is the number of multiple-choice questions in it |
| Scoring.TotalAppend | index.tsx:219 | appending a question raises `totalMC` by one exactly when it is multiple-choice |
| Scoring.CorrectAtMostMultipleChoice | index.tsx:213 | correctly answered questions are at most the multiple-choice ones |
| Scoring.CorrectUpToSnoc | index.tsx:210-217 | answering a new index adds that answer's points to the question-side count |
| Scoring.NothingAnsweredNothingCorrect | index.tsx:210-217 | no answers, no correct question |
| Scoring.ScoreIsQuestionSideCount | index.tsx:210-219 | with one answer per index, the answer-side fold equals the count of correctly answered multiple-choice questions |
| Scoring.ScoreBounded | index.tsx:210-219 | with one answer per index, `0 <= scoreMC <= totalMC` |
| Scoring.ScoreAppend | index.tsx:210-217 | the fold is additive over concatenated answer lists |
| Scoring.ScoreWithoutEssay | index.tsx:213 | dropping the answers of an essay question leaves `scoreMC` unchanged |
| Scoring.EssayAnswerNeutral | index.tsx:210-217 | any answer submitted for an essay question leaves `scoreMC` unchanged |
| Summary.Contribution | index.tsx:615-621 | a question adds one to `total` exactly when it is multiple-choice, and one to `correct` exactly when it is also answered with the key |
| Summary.Categories | index.tsx:611 | item `i`'s key is question `i`'s category |
| Summary.Contributions | index.tsx:615-621 | item `i`'s delta is question `i`'s contribution |
| Summary.AccumulateStep | index.tsx:611-622 | one reduce step replaces the key's entry by the old entry (or zero) plus the delta |
| Summary.AccumulateKeys | index.tsx:611-613 | the accumulator's keys are exactly the keys seen so far |
| Summary.AbsentKeyIsZero | index.tsx:611-613 | a key never seen has zero deltas |
| Summary.AccumulateEntry | index.tsx:610-623 | each entry is the sum of its key's deltas |
| Summary.KeyTallyBounded | index.tsx:615-621 | sums of deltas with `correct <= total` keep `correct <= total` |
| Summary.SumIgnoresOtherKeys | index.tsx:610-623 | changing an unlisted key does not change the sum over the listed keys |
| Summary.SumAddAtKey | index.tsx:616-619 | adding a delta at a listed key adds it to the sum over the keys |
| Summary.SumAfterStep | index.tsx:611-622 | one reduce step adds its delta to the sum over the keys |
| Summary.AccumulateSum | index.tsx:610-623 | summed over its keys, the accumulator equals the sum of all deltas |
| Summary.SummaryStep | index.tsx:611-622 | the callback's entry update is exactly one step of the reduce over the questions |
| Summary.ContributionsSum | index.tsx:615-621 | the deltas add up to the correctly answered and the multiple-choice question counts |
| Summary.AccumulateBounded | index.tsx:610-623 | keys are exactly those that occur; every entry has `correct <= total` |
| Summary.SummaryEntriesBounded | index.tsx:610-623 | every category that occurs has an entry, and each entry has `correct <= total` |
| Summary.SummedTotalsEqualTotalMC | index.tsx:610-623 | the totals summed over the categories equal `totalMC` |
| Summary.SummedCorrectEqualsScore | index.tsx:610-623 | with one answer per index, the correct counts summed over the categories equal `scoreMC` |
| Summary.SummaryMeaning | index.tsx:610-623 | the summary's keys, its bounds, and its agreement with `totalMC` and `scoreMC` |
| Summary.KeyTallyTotalPositive | index.tsx:616 | a key's total is positive exactly when one of its deltas has a positive total |
| Summary.EntryTotalPositive | index.tsx:610-623 | an entry's total is positive exactly when one of its key's deltas is |
| Summary.ContributionAt | index.tsx:611-616 | item `i` has question `i`'s category, and a positive total exactly when it is multiple-choice |
| Summary.CategoryHasMultipleChoice | index.tsx:610-623 | a category's total is positive exactly when the category has a multiple-choice question |
| Grouping.FirstAppearanceFacts | index.tsx:512-513 | the first-appearance order lists every key of the prefix once and nothing else |
| Grouping.FirstAppearanceDistinct | index.tsx:512-513 | the first-appearance order has no repeated key |
| Grouping.FirstAppearanceCovers | index.tsx:512-513 | every key of the prefix is listed |
| Grouping.Keys | index.tsx:512 | the keys of the groups, position by position |
| Grouping.FindGroup | index.tsx:512-515 | `find` returns the first group with the key, or none when no group has it |
| Grouping.AddToFoundGroup | index.tsx:515 | when a group has the key, the step appends the item to the group `find` returns |
| Grouping.AddToPushedGroup | index.tsx:512-515 | when no group has the key, the pushed group is the one `find` returns and receives the item |
| Grouping.AddToGroupAt | index.tsx:511-517 | position by position: the found group gains the item, a new group sits at the end, others are unchanged |
| Grouping.AddToGroupLength | index.tsx:512-514 | a step adds a group exactly when no group has the key |
| Grouping.FindGroupAbsent | index.tsx:512 | `find` fails exactly when the key is not among the group keys |
| Grouping.AbsentKeyCollectsNothing | index.tsx:511-517 | a key that never occurs collects no items |
| Grouping.AddToGroupKeys | index.tsx:512-514 | a step keeps the keys and appends the key when it is new |
| Grouping.GroupOrder | index.tsx:511-517 | the groups appear in the order their keys first appear |
| Grouping.AddToGroupItems | index.tsx:512-515 | with distinct keys, the item joins exactly the group with its key; the other groups are unchanged |
| Grouping.GroupContentsStep | index.tsx:511-517 | one step keeps every group equal to the items with its key |
| Grouping.GroupContents | index.tsx:511-517 | every group holds exactly the items with its key, in their order |
| Review.ReviewStep | index.tsx:511-517 | visiting question `i` is one grouping step under its category |
| Review.ReviewSections | index.tsx:511-517 | the loop computes the grouping of all questions |
| Review.AddQuestion | index.tsx:512-516 | push-if-missing then find-and-append equals one grouping step |
| Review.ReviewMeaning | index.tsx:511-517 | one section per category in first-appearance order (the result screen's order too), each holding exactly its category's questions in order |
| ResultScreen.LastResultOf | index.tsx:601 | none exactly when the user has no result; otherwise the user's last result in the list |
| ResultScreen.SectionSummary | index.tsx:610-623 | the loop computes the per-category summary of the result |
| ResultScreen.VisitQuestion | index.tsx:611-622 | the callback performs one step of the summary reduce |
| ResultScreen.ShownSections | index.tsx:634 | keeps exactly the listed categories whose total is positive |
| ResultScreen.ShownSectionsMeaning | index.tsx:610-634 | the screen lists exactly the categories that have a multiple-choice question |
| Generation.Tag | index.tsx:182 | the question keeps its fields and takes the section's category |
| Generation.TagSection | index.tsx:182 | the section's questions, each tagged, in order |
| Generation.FlattenLength | index.tsx:181-183 | the flat list has as many questions as all sections together |
| Generation.FlattenAt | index.tsx:181-183 | question `j` of section `s` is at position `Offset(s) + j`, tagged with its section's category |
| Generation.OffsetMonotone | index.tsx:181-183 | sections fill consecutive blocks in order |
| Records.FindUser | index.tsx:99 | none exactly when no user has both credentials; otherwise the first user in the list that has them |
| Records.LoginRoute | index.tsx:103-109 | admin dashboard iff admin; profile completion iff a student with a missing or empty profile field; student dashboard iff a student with a complete profile |
| Records.UpdateProfile | index.tsx:121 | the profile fields take the form's values; username, password and role are kept |
| Records.ReplaceByUsername | index.tsx:123 | every record with the updated user's name is replaced, all others kept, length unchanged |
| Records.ReplaceKeepsUsernames | index.tsx:123 | replacing keeps every position's username |
| Records.AddUser | index.tsx:127-134 | rejected exactly when the username is taken; otherwise the list gains one new student at the end |
| Records.AddUserKeepsUsernamesUnique | index.tsx:127-134 | adding users keeps usernames unique |
| Records.LoginAfterProfileUpdate | index.tsx:98-125 | after a student completes the profile, logging in again finds the updated record and leads to the dashboard |
| Records.LowerAscii | index.tsx:242 | lower-cases each ASCII letter, position by position |
| Records.AddCategory | index.tsx:241-246 | an empty or case-insensitively taken name leaves the list unchanged; otherwise one category is appended |
| Records.AddCategoryKeepsDistinct | index.tsx:241-246 | adding keeps names distinct up to case, and ids distinct when the new id is fresh |
| Records.EditCategory | index.tsx:248-252 | a cancelled or empty name changes nothing; otherwise exactly the entries with the id are renamed, ids and length kept |
| Records.EditCategoryCanDuplicateName | index.tsx:248-252 | renaming can make two names equal up to case (no duplicate check) |
| Records.DeleteCategory | index.tsx:254-256 | the result is never longer than the list |
| Records.DeleteMembership | index.tsx:254-256 | exactly the categories with another id remain |
| Records.DeleteAppend | index.tsx:255 | deletion distributes over concatenation, so the kept categories stay in order |
| Records.DeleteAbsent | index.tsx:255 | deleting an unused id changes nothing |
| Records.AddConfig | index.tsx:450-452 | one line is appended: the first category's name (or empty), ten questions, multiple choice |
| Records.CountFromInput | index.tsx:485 | NaN or zero becomes one; any other number is kept; the result is never zero |
| Records.UpdateConfig | index.tsx:455-463 | the length is kept |
| Records.CountUpdateNeverZero | index.tsx:485 | the count field's update sets that line's count to the value read from the input, never zero |
| Records.UpdateConfigOnlyAtIndex | index.tsx:455-463 | only line `index` changes, by the given field; an out-of-range index changes nothing |
| Records.RemoveConfigIsCut | index.tsx:466-468 | filtering out position `index` of a prefix cuts that position out |
| Records.RemoveConfigMeaning | index.tsx:466-468 | removing a line cuts it out; an out-of-range index changes nothing |
| Quiz.NewResult | index.tsx:221-228 | the result records the user, the date and the current answers and questions; `totalMC` is at most the number of questions |
| Quiz.TickN | index.tsx:83-94 | any number of pulses keeps the session valid |
| Quiz.View | index.tsx:544-594 | "not available" exactly over an empty list; otherwise the current question, "position of count" with the position in 1..count, the answer recorded for the current index, and the finish button exactly on the last question |
| Quiz.StartIsClean | index.tsx:196-201 | the start empties the answers, sets index 0, a countdown of 30 and the quiz screen, keeps the questions and results, and is valid |
| Quiz.AnswerLastWriteWins | index.tsx:234-239 | after an answer, the current index has exactly one entry, holding the value; other indices and the rest of the session are unchanged |
| Quiz.AnswerPreservesValid | index.tsx:234-239 | answering the question on screen keeps the session valid |
| Quiz.NextAdvancesOrCompletes | index.tsx:203-231 | either the index goes up by one with a fresh countdown and nothing else changes, or exactly one result with the current snapshots is appended, earlier results kept, and the result screen shown |
| Quiz.ResultScoreBounded | index.tsx:210-228 | with one answer per index, the recorded score is within 0..totalMC, and totalMC counts the multiple-choice questions |
| Quiz.NextPreservesValid | index.tsx:203-231 | advancing keeps the session valid |
| Quiz.TickPreservesValid | index.tsx:83-94 | a pulse keeps the session valid: in the quiz the countdown stays within 1..30 |
| Quiz.TickCountsDown | index.tsx:85-88 | with time left a pulse lowers the countdown by one and changes nothing else |
| Quiz.TickOutsideQuiz | index.tsx:84 | outside the quiz a pulse changes nothing |
| Quiz.TickNBeforeExpiry | index.tsx:83-94 | fewer pulses than the countdown only count it down |
| Quiz.CountdownExpires | index.tsx:83-94 | as many pulses as the countdown shows advance the session as a submission at zero would |
| Quiz.TickNSplit | index.tsx:83-94 | pulses compose |
| Quiz.ExpiryLeavesQuestionUnanswered | index.tsx:83-94 | a question whose countdown runs out unanswered stays unanswered and scores nothing |
| Quiz.EmptyQuizRecordsEmptyResult | index.tsx:545-555 | over an empty list the quiz shows "not available", yet 30 pulses record a 0/0 result and open the result screen |
| Quiz.ScenarioTotal | index.tsx:219 | one choice and one essay question give `totalMC` 1 |
| Quiz.ScenarioScore | index.tsx:210-217 | with an essay answer or none, the score is 1 exactly when the choice answer is the key |
| Quiz.MergeIntoOther | index.tsx:235-238 | answering a new index appends after the existing entry |
| Quiz.ScenarioCorrectThenEssay | index.tsx:196-239 | correct choice, essay text, two advances: 1 of 1 on the result screen |
| Quiz.ScenarioWrongThenBlank | index.tsx:196-239 | wrong choice, blank essay, two advances: 0 of 1 on the result screen |
| TpaApp.App.constructor | index.tsx:35-56 | the login screen, no user, the stored lists or their defaults, an empty session with a countdown of 30; valid |
| TpaApp.App.HandleLogin | index.tsx:98-113 | a matching user is logged in, the error cleared and the role/profile screen shown; otherwise only the error is set |
| TpaApp.App.HandleLogout | index.tsx:115-118 | no user and the login screen |
| TpaApp.App.HandleProfileUpdate | index.tsx:120-125 | the current user and the stored record with that username are the updated user; the dashboard is shown |
| TpaApp.App.HandleAddUser | index.tsx:127-134 | a taken name sets the error and keeps the list; otherwise the new student is appended and the error cleared; usernames stay unique |
| TpaApp.App.HandleGenerated | index.tsx:180-193 | a parsed reply becomes the flattened question list and opens the review; a failure sets the error and returns to the request form |
| TpaApp.App.StartTest | index.tsx:196-201 | the session becomes `Quiz.Start` of the old one; valid for a logged-in user |
| TpaApp.App.HandleAnswer | index.tsx:234-239 | the session becomes `Quiz.RecordAnswer` of the old one; validity kept |
| TpaApp.App.HandleNextQuestion | index.tsx:203-231 | for a logged-in user, the session becomes `Quiz.Next` of the old one; validity kept |
| TpaApp.App.Tick | index.tsx:83-94 | the session becomes `Quiz.Tick` of the old one (a quiz on screen has a logged-in user); validity kept |
| TpaApp.App.LeaveUnavailableQuiz | index.tsx:550 | back to the admin or the student dashboard according to the role |
| TpaApp.App.StudentResultsSummary | index.tsx:600-623 | for the logged-in user: none exactly when the user has no result; otherwise the per-category summary of the latest one |
| TpaApp.App.HandleAddCategory | index.tsx:241-246 | the categories become `AddCategory` of the old ones; distinct names kept |
| TpaApp.App.HandleEditCategory | index.tsx:248-252 | the categories become `EditCategory` of the old ones |
| TpaApp.App.HandleDeleteCategory | index.tsx:254-256 | exactly the categories with another id remain |
| TpaApp.App.OpenQuestionManagement | index.tsx:346-349 | an empty request and the question management screen |
| TpaApp.App.AddConfigLine | index.tsx:450-452 | the request gains the default line |
| TpaApp.App.UpdateConfigLine | index.tsx:455-463 | the request becomes `UpdateConfig` of the old one |
| TpaApp.App.UpdateCountLine | index.tsx:485 | the request becomes `UpdateConfig` with the count read from the input; the line's count is never zero |
| TpaApp.App.RemoveConfigLine | index.tsx:466-468 | the request becomes `RemoveConfig` of the old one |

## Left out

- The question generator: the prompt, the response schema, the network call and `JSON.parse` of the reply. `TpaApp.App.HandleGenerated` takes the parsed reply, or `None` for a failure.
- Browser storage: the reads at start-up become the constructor's `Option` parameters; the persistence effects are not modelled.
- The background-image setting and its DOM effect.
- Rendering: JSX, form event extraction, the `prompt`/`confirm` dialogs, and navigation clicks that only set `appState`. Modelled exceptions: the quiz screen's content (`Quiz.View`), the "not available" card's button, the result screen's filter and the dashboard card that clears the request.
- The admin's detailed view of one result (`viewingResult`), the results recap and the users list. They only display data.
- The `loading` flag.
- Wall-clock timing: `setInterval`/`clearInterval` become the discrete pulse `Quiz.Tick`.
- The countdown's momentary zero: `Quiz.Tick` merges the zero render with the effect run it triggers, so the model's quiz countdown stays in 1..30, where the app briefly shows 0.
- Timestamps: `Date.now()` ids and `toISOString` dates are parameters (`id`, `date`); `toLocaleString` is display only.
- The progress percentage, a floating-point display value.
- Case folding: `toLowerCase` is modelled for ASCII letters only; Unicode case mapping is not.
- Password handling: passwords are compared as plaintext, as in the app.
- Key order on the result screen: `Object.entries` lists integer-like keys (a category named "2", say) before the others, in numeric order. `ResultScreen.ShownSections` is stated over insertion order, and its meaning lemma is about which categories are shown, not their order.
- Records.DeleteCategory: its own contract states only the length bound. What it keeps is in `Records.DeleteMembership` and `Records.DeleteAppend`.
- Records.UpdateConfig: its own contract states only the length. Its effect is in `Records.UpdateConfigOnlyAtIndex`.
- TpaApp.App.HandleProfileUpdate: requires a logged-in user. The profile form is only reachable after login, and the app's spread of a missing user is not modelled.
- TpaApp.App.LeaveUnavailableQuiz: requires a logged-in user, because the button reads `currentUser.role`.
- Scoring.ScoreMC: requires every answer to index a question. The app reads `questions[ans.questionIndex].options` and would throw otherwise. `Quiz.Valid` keeps this true during a quiz.
- TpaApp.App.HandleNextQuestion, TpaApp.App.Tick and TpaApp.App.StudentResultsSummary: require a logged-in user (for `Tick`, whenever the quiz is on screen), because the app reads `currentUser.username` and would throw without one. `TpaApp.App.Valid` keeps a user logged in while the quiz is on screen.
- ResultScreen.VisitQuestion: the app's accumulator is a plain JavaScript object, so `!acc[q.category]` also sees properties inherited from `Object.prototype`. A category named `constructor`, `toString`, `valueOf`, `hasOwnProperty`, `__proto__` or another such name never gets an entry of its own, and its counts are written onto the inherited value. The model treats the accumulator as a map with no inherited keys, so such a category gets an entry like any other.
- ResultScreen.ShownSectionsMeaning, Summary.SummaryStep, Summary.SummaryEntriesBounded and Summary.SummaryMeaning: these hold for the map model of the accumulator. For a category named after an `Object.prototype` property, the app shows no row and keeps no entry, and the model's statements about that category do not describe the app.
