# Quiz app core in Dafny

This project models the domain logic of a small browser quiz application.
Administrators write multiple-choice questions. Signed-in users answer them, and may
change an answer later; each answer keeps a history of the choices made.

What is modelled:
- **The persistence store** (`LocalStorage.Store`). It keeps two collections, questions
  and answers, each whole under one key of local storage. Each key that is absent is
  seeded. The store offers reads, appends and an id-based merge update. Deleting a
  question cascades to its answers. Updating an answer appends to its history.
- **The quiz service** (`QuizContext.QuizProvider`). Each action checks the role,
  calls the store, then patches three in-memory mirrors: the questions, all answers,
  and the current user's answers. Its invariant `Valid()` says three things:
  - the mirrors equal the store;
  - the user mirror is exactly all answers filtered by the user;
  - question ids are distinct, answer ids are distinct, there is at most one answer
    per (user, question), and every history is non-empty and ends with the current
    choice.
- **The authentication session** (`AuthContext.AuthProvider`). It has two
  demonstration accounts, and an empty-field check that runs before the credential
  check.
- **The question form** (`QuestionForm`). It covers the validation rules and the
  clean-up done on submit: blank options are dropped and the correct option is
  re-indexed. It also covers adding, removing and changing an option.
- **The seed data and record types** (`MockData`). The seed is proved to satisfy the
  invariants.
- **The answer-history panel** (`AnswerHistory`). It sorts the history newest first;
  the sort is proved sorted, a permutation and stable. It also covers option-text
  lookup and the correctness mark.

Shared sequence operations live in `Collections`:
- `Filter`, `FindIndex` and `Find` are `Array.prototype.filter`, `findIndex` and `find`.
- `ReplaceWhere` is the `map(x => test(x) ? y : x)` patch.

Timestamps are integers, in milliseconds. The source stores ISO-8601 strings, which
sort in the same order as the times they denote. Fresh ids (`uuidv4()`) and clock
readings (`new Date()`) are parameters of the operations that use them.

Where the source and its written description differ, the model follows the source:
- `addQuestion` and `addAnswer` read the clock once for `createdAt` and again for
  `updatedAt`. `addAnswer` reads it a third time for its history entry's
  `timestamp`, and `updateAnswer` reads it once for `updatedAt` and again for the
  new history entry. The model takes each reading as its own parameter (the
  history entry's is `stamp`) and does not claim any two of them are equal.
- The getters parse the stored text with `JSON.parse`, which throws on corrupt data
  rather than returning an empty collection. Stored data is modelled as already
  parsed, so this path does not exist in the model.

## Model

| member | source | states |
|---|---|---|
| Collections.Filter | src/lib/localStorage.ts:60 | the result holds only elements satisfying the predicate, and every such element of the input is in it |
| Collections.FilterIsSubsequence | src/lib/localStorage.ts:68 | a filter keeps its elements in their original order |
| Collections.FilterCounts | src/components/quiz/QuestionForm.tsx:55 | a filter keeps every accepted element exactly as often as it occurs and drops every rejected one |
| Collections.FilterAppend | src/contexts/QuizContext.tsx:185-186 | filtering distributes over concatenation |
| Collections.FilterKeepsAll | src/lib/localStorage.ts:62 | the filter has the input's length exactly when every element is accepted, and is then the input; this is why the length test decides whether anything was deleted |
| Collections.FilterCommutes | src/contexts/QuizContext.tsx:136-137 | two filters may be applied in either order |
| Collections.FilterKeysDistinct | src/lib/localStorage.ts:60 | filtering cannot introduce a duplicate key |
| Collections.FilterUpdate | src/contexts/QuizContext.tsx:168-173 | replacing the one element with a given id, then filtering, equals filtering, then replacing by id |
| Collections.FilterCons | src/lib/localStorage.ts:82 | filtering a sequence with a new head adds the head exactly when the predicate accepts it |
| Collections.FilterConsShift | src/components/quiz/AnswerHistory.tsx:35-37 | a rejected element may move past an accepted one without changing the filter |
| Collections.FindIndex | src/lib/localStorage.ts:42 | -1 exactly when no element matches; otherwise the index matches and no earlier one does |
| Collections.Find | src/lib/localStorage.ts:92 | nothing exactly when no element matches; otherwise the element at FindIndex |
| Collections.FindAfterUpdate | src/lib/localStorage.ts:129-153 | writing a match over the first match leaves it the first match |
| Collections.FindAfterAppend | src/contexts/QuizContext.tsx:178-185 | appending a match to a sequence without one makes it the first match |
| Collections.ReplaceWhere | src/contexts/QuizContext.tsx:113 | every element the predicate accepts is replaced; every other element is kept; the length is kept |
| Collections.ReplaceWhereSingle | src/contexts/QuizContext.tsx:113 | when one position carries the id, the map-replace is the point update at that position |
| Collections.ReplaceWhereAppend | src/contexts/QuizContext.tsx:171-173 | the map-replace distributes over concatenation |
| Collections.ReplaceWhereUntouched | src/contexts/QuizContext.tsx:171-173 | when nothing matches, the map-replace is the identity |
| Collections.KeyAtOnly | src/lib/localStorage.ts:42 | with distinct keys, a key occurs at one position only |
| Collections.KeysDistinctAppend | src/lib/localStorage.ts:121 | appending an element with a new key keeps keys distinct |
| Collections.KeysDistinctUpdate | src/lib/localStorage.ts:153 | overwriting an element with one of the same key keeps keys distinct |
| Collections.SubsequenceSkip | src/components/quiz/QuestionForm.tsx:55 | a subsequence of the tail is a subsequence of the whole |
| MockData.InitialQuestions | src/lib/mockData.ts:30-71 | four questions, all authored by the administrator, created in the past in increasing order of time |
| MockData.InitialAnswers | src/lib/mockData.ts:74-105 | two answers, both by the regular user, each with a single history entry stamped at its creation |
| MockData.SeedQuestionsWellFormed | src/lib/mockData.ts:30-71 | every seed question has at least two options and a correct option that names one |
| MockData.SeedAnswersGraded | src/lib/mockData.ts:74-105 | every seed answer refers to a seed question, and its `isCorrect` agrees with that question's correct option |
| MockData.SeedConsistent | src/lib/mockData.ts:30-105 | the seed has distinct question ids, distinct answer ids, one answer per (user, question) and consistent histories |
| LocalStorage.SeedIfAbsent | src/lib/localStorage.ts:9-17 | a present key keeps its value; an absent key receives the seed |
| LocalStorage.SeedIfAbsentIdempotent | src/lib/localStorage.ts:9-17 | initialising a second time changes nothing, whatever the second seed |
| LocalStorage.Store.constructor | src/lib/localStorage.ts:5-6 | the store starts with the two keys as the browser holds them |
| LocalStorage.Store.InitializeStorage | src/lib/localStorage.ts:9-17 | each key becomes its seed when it was absent, and otherwise keeps its value |
| LocalStorage.Store.GetQuestions | src/lib/localStorage.ts:20-23 | the stored questions, or empty when the key is absent |
| LocalStorage.Store.GetAnswers | src/lib/localStorage.ts:75-78 | the stored answers, or empty when the key is absent |
| LocalStorage.Store.GetUserAnswers | src/lib/localStorage.ts:80-83 | exactly the stored answers of the user |
| LocalStorage.Store.GetQuestionAnswers | src/lib/localStorage.ts:85-88 | exactly the stored answers to the question |
| LocalStorage.Store.GetUserAnswerForQuestion | src/lib/localStorage.ts:90-93 | nothing exactly when the pair has no stored answer; otherwise a stored answer of the pair |
| LocalStorage.Store.AddQuestion | src/lib/localStorage.ts:25-38 | the new record carries the given fields, the fresh id and both clock readings; the questions become old ++ [record]; the answers are untouched |
| LocalStorage.Merge | src/lib/localStorage.ts:46-50 | each field the update leaves out keeps its value; each field it names, `id`, `createdAt` and `createdBy` included, takes the update's value; `updatedAt` is always the clock reading |
| LocalStorage.MergeIdempotent | src/lib/localStorage.ts:46-50 | applying the same update twice equals applying it once at the later time |
| LocalStorage.Store.UpdateQuestion | src/lib/localStorage.ts:40-56 | null, with no write, exactly when no question has the id; otherwise the first question with the id is replaced by its merge, in place; the answers are untouched |
| LocalStorage.Store.DeleteQuestion | src/lib/localStorage.ts:58-72 | false, with no write, exactly when no question has the id; otherwise both collections are filtered, removing the id and its answers |
| LocalStorage.DeleteKeepsConsistent | src/lib/localStorage.ts:58-72 | deleting a question with its answers keeps the collection invariants |
| LocalStorage.DeleteCascades | src/lib/localStorage.ts:66-69 | no answer to the deleted question survives; every other answer survives, in order |
| LocalStorage.IsCorrectAgainst | src/lib/localStorage.ts:100-102 | true exactly when the first question with the id exists and its correct option is the selected one |
| LocalStorage.IsCorrectAgainstUnique | src/lib/localStorage.ts:135-136 | with distinct ids, correctness is decided by the one question carrying the id |
| LocalStorage.NewAnswer | src/lib/localStorage.ts:104-118 | the new answer has a one-entry history recording its choice, so its history is consistent |
| LocalStorage.Store.AddAnswer | src/lib/localStorage.ts:95-125 | the record is graded against the current questions; the answers become old ++ [record]; the questions are untouched |
| LocalStorage.AddAnswerKeepsConsistent | src/lib/localStorage.ts:120-122 | appending an answer with a new id, for a pair without one, keeps the invariants |
| LocalStorage.Revise | src/lib/localStorage.ts:139-151 | id, question, user and `createdAt` are kept; the choice and grade are replaced; the history grows by one entry at the end and keeps the old prefix |
| LocalStorage.ReviseTwice | src/lib/localStorage.ts:144-150 | two revisions append their two entries in order |
| LocalStorage.ReviseKeepsConsistent | src/lib/localStorage.ts:153 | revising an answer in place keeps the invariants |
| LocalStorage.Store.UpdateAnswer | src/lib/localStorage.ts:127-157 | null, with no write, exactly when the pair has no answer; otherwise the first answer of the pair is revised in place, graded against the current question |
| AuthContext.Authenticate | src/contexts/AutContext.tsx:53-78 | an empty field is refused before any comparison; the admin pair yields `ADMIN_USER` and the user pair yields `NORMAL_USER`, each if and only if the pair matches |
| AuthContext.OnlyDemoPairsLogIn | src/contexts/AutContext.tsx:70-72 | every other non-empty pair is refused as invalid credentials |
| AuthContext.IsAdminUser | src/contexts/AutContext.tsx:88 | computes `user?.role === 'admin'`: a present user with the admin role; its contract adds only that the regular demonstration account never qualifies |
| AuthContext.LoginGrantsRole | src/contexts/AutContext.tsx:62-69 | a successful login makes the session an administrator exactly for the admin pair; any other successful login holds the regular account |
| AuthContext.AuthProvider.constructor | src/contexts/AutContext.tsx:44-50 | a stored session becomes the current user |
| AuthContext.AuthProvider.Login | src/contexts/AutContext.tsx:53-78 | on success the user is set and stored; on failure the error is thrown and neither the user nor the stored session changes |
| AuthContext.AuthProvider.Logout | src/contexts/AutContext.tsx:81-85 | the user and the stored session are both cleared, so a second call has nothing left to change |
| AuthContext.AuthProvider.IsAdmin | src/contexts/AutContext.tsx:88 | a user is present and has the admin role |
| AuthContext.AuthProvider.IsAuthenticated | src/contexts/AutContext.tsx:93 | a user is present; every admin is authenticated |
| QuizContext.UserView | src/contexts/QuizContext.tsx:51-57 | empty without a user; otherwise exactly the answers of that user |
| QuizContext.AppendNewAnswer | src/contexts/QuizContext.tsx:178-186 | a new answer for a pair without one keeps the invariants, becomes the pair's answer, and joins its user's view at the end |
| QuizContext.DeleteKeepsView | src/contexts/QuizContext.tsx:136-137 | filtering the user mirror by question equals the user's view of the filtered answers |
| QuizContext.QuizProvider.constructor | src/contexts/QuizContext.tsx:44-78 | the absent keys are seeded, both collections are loaded, the user mirror is computed, and the invariant holds |
| QuizContext.QuizProvider.UserChanged | src/contexts/QuizContext.tsx:51-57 | the user mirror is recomputed for the new user; the other mirrors are kept |
| QuizContext.QuizProvider.CreateQuestion | src/contexts/QuizContext.tsx:81-99 | a non-admin is refused with no change; otherwise the record, authored by the current user, is appended to the store and the mirror |
| QuizContext.QuizProvider.EditQuestion | src/contexts/QuizContext.tsx:102-123 | a non-admin is refused with no change; otherwise the store's result is returned; null exactly when no question has the id, and then nothing changes; on success the mirror entry with the id is replaced |
| QuizContext.QuizProvider.RemoveQuestion | src/contexts/QuizContext.tsx:126-147 | a non-admin is refused with no change; otherwise true exactly when a question has the id; then the question leaves the mirror and its answers leave both answer mirrors; on false nothing changes |
| QuizContext.QuizProvider.MirrorRevision | src/contexts/QuizContext.tsx:168-173 | patching both answer mirrors by id keeps them equal to the store and the user mirror equal to its filter |
| QuizContext.QuizProvider.ReviseAnswer | src/contexts/QuizContext.tsx:163-173 | nothing exactly when the pair has no answer, and then nothing changes; otherwise the pair's answer is revised in place in the store and both mirrors |
| QuizContext.QuizProvider.RecordNewAnswer | src/contexts/QuizContext.tsx:178-186 | the store's new answer is appended to both answer mirrors and is the pair's answer |
| QuizContext.QuizProvider.SubmitAnswer | src/contexts/QuizContext.tsx:150-197 | throws without a user, with no change; otherwise the returned answer is the pair's only live answer; an existing answer becomes its `Revise` (id and `createdAt` kept, the fresh `updatedAt`, its history one entry longer) in place, and every other answer in the store and both mirrors is kept; otherwise exactly one record, the `NewAnswer` with the fresh id and clock readings, is appended |
| QuizContext.QuizProvider.EditAnswer | src/contexts/QuizContext.tsx:200-224 | throws without a user, with no change; otherwise null exactly when the pair has no answer, and then nothing is created or changed; otherwise the answer becomes its `Revise` in place (id, pair and `createdAt` kept, the fresh `updatedAt`, its history one entry longer), and every other answer in the store and both mirrors is kept |
| QuizContext.QuizProvider.GetAnswerForQuestion | src/contexts/QuizContext.tsx:227-230 | nothing without a user; otherwise nothing exactly when the user has no answer to the question, else that answer |
| QuestionForm.FilledOptionsExact | src/components/quiz/QuestionForm.tsx:31 | the filled options are the non-blank options, in their order, each as often as it occurs |
| QuestionForm.FilledOptions | src/components/quiz/QuestionForm.tsx:31 | holds only non-blank options of the form, and every non-blank option of the form |
| QuestionForm.Validate | src/components/quiz/QuestionForm.tsx:24-43 | each message is present exactly when its rule fails, with that rule's text; the correct-option rule fails when nothing is selected or the selected option is blank |
| QuestionForm.IsValidIff | src/components/quiz/QuestionForm.tsx:42 | the form validates if and only if all four rules hold |
| QuestionForm.SubmissionKeepsCorrectText | src/components/quiz/QuestionForm.tsx:55-69 | after validation, with an in-range selection, the submitted index is in bounds of the filled options and names the same text; at least two options are submitted |
| QuestionForm.AdjustedCorrectOption | src/components/quiz/QuestionForm.tsx:58-62 | an index into the filled options naming the selected option's text; -1 exactly when the selection is out of range or blank |
| QuestionForm.Submission | src/components/quiz/QuestionForm.tsx:45-69 | present exactly when the form validates; then title and content are kept, at least two options are passed on, all non-blank, and the correct option is an index into them or -1 |
| QuestionForm.OutOfRangeCorrectOptionSubmitsMinusOne | src/components/quiz/QuestionForm.tsx:37 | a selection beyond the options passes validation and is submitted as -1 |
| QuestionForm.OutOfRangeExample | src/components/quiz/QuestionForm.tsx:37 | a concrete form that shows this |
| QuestionForm.SpliceOne | src/components/quiz/QuestionForm.tsx:87-88 | an in-range index removes exactly that element; an index past the end removes nothing |
| QuestionForm.AdjustForRemoval | src/components/quiz/QuestionForm.tsx:92-98 | cleared exactly when the removed index was the selection; a selection before the removed index is kept, one after it moves down by one |
| QuestionForm.RemovedOption | src/components/quiz/QuestionForm.tsx:83-99 | with at most two options nothing changes; otherwise the option at the index is cut out and the selection adjusted for the removal |
| QuestionForm.RemoveOptionKeepsSelection | src/components/quiz/QuestionForm.tsx:83-99 | with more than two options, exactly the element at the index is removed; the selection is cleared exactly when it was removed, and otherwise still names the same text |
| QuestionForm.RemoveOptionFloor | src/components/quiz/QuestionForm.tsx:85 | with at most two options, nothing changes |
| QuestionForm.FormState.constructor | src/components/quiz/QuestionForm.tsx:16-21 | the fields of the question being edited, or an empty form with two blank options |
| QuestionForm.FormState.AddOption | src/components/quiz/QuestionForm.tsx:78-80 | one blank option is appended; nothing else changes |
| QuestionForm.FormState.RemoveOption | src/components/quiz/QuestionForm.tsx:83-99 | the options and the selection become those `RemovedOption` gives; nothing else changes |
| QuestionForm.FormState.UpdateOption | src/components/quiz/QuestionForm.tsx:102-106 | only the option at the index changes, to the new text; the length is kept |
| QuestionForm.FormState.HandleSubmit | src/components/quiz/QuestionForm.tsx:45-75 | the errors become the validation result; the form hands on the cleaned-up fields exactly when validation passes |
| AnswerHistory.OptionText | src/components/quiz/AnswerHistory.tsx:26-28 | the option's text when the index names a non-empty option, otherwise "Unknown option"; never empty |
| AnswerHistory.IsCorrect | src/components/quiz/AnswerHistory.tsx:30-32 | computes `question.correctOption === optionIndex`; its contract adds only that nothing is marked correct without a correct option; `BadgesSurviveSort` and `HighlightedIsCurrent` state what the marks mean |
| AnswerHistory.BadgesSurviveSort | src/components/quiz/AnswerHistory.tsx:30-37 | the newest-first copy carries exactly the same "Correct" badges as the history, each as often; none when the question has no correct option |
| AnswerHistory.Insert | src/components/quiz/AnswerHistory.tsx:35-37 | one longer; its head is the new entry or the old head |
| AnswerHistory.InsertPermutes | src/components/quiz/AnswerHistory.tsx:35-37 | insertion adds exactly the one entry |
| AnswerHistory.InsertSorted | src/components/quiz/AnswerHistory.tsx:35-37 | insertion into a newest-first list keeps it newest first |
| AnswerHistory.InsertIntoSorted | src/components/quiz/AnswerHistory.tsx:35-37 | the sort's recursive step yields a sorted permutation |
| AnswerHistory.SortedHistory | src/components/quiz/AnswerHistory.tsx:35-37 | the result is ordered newest first and is a permutation of the history |
| AnswerHistory.FilterInsert | src/components/quiz/AnswerHistory.tsx:35-37 | insertion places the new entry before every entry of the same timestamp |
| AnswerHistory.SortedHistoryStable | src/components/quiz/AnswerHistory.tsx:35-37 | entries with equal timestamps keep their original order |
| AnswerHistory.FirstIsMostRecent | src/components/quiz/AnswerHistory.tsx:47 | the highlighted first entry is a history entry at least as recent as every other |
| AnswerHistory.HighlightedIsCurrent | src/components/quiz/AnswerHistory.tsx:47-66 | when the last entry is strictly the most recent, the highlighted entry is the answer's current choice, and it is marked correct exactly as the answer is graded |

## Left out

- Local storage and JSON: the store holds parsed collections, and a write followed by a read is the identity. `JSON.parse` throwing on corrupt stored text is not modelled.
- MockData.InitialQuestions, MockData.InitialAnswers: every seed timestamp is an offset from one clock reading `now`. The seed reads `Date.now()` afresh for each timestamp, so the real seed times may differ from these by a few milliseconds.
- Fresh ids and clocks are parameters. Each id is required to be unused (`CreateQuestion`, `SubmitAnswer`), which stands for the uniqueness of `uuidv4()`. Clock readings are arbitrary integers and are not assumed to increase.
- React mechanics: hooks, effects and re-rendering. Provider state is a class; the user-sync effect is `UserChanged`. The `isLoading` flag and the `isSubmitting` flag are not modelled.
- toast messages, `console.error`, navigation, and the rethrow in each `catch`: the store operations cannot fail in the model, so the `catch` blocks are unreachable.
- QuizContext.QuizProvider.SubmitAnswer: the 'Failed to update answer' throw is not a branch of the model. The store finds the pair with the same test as the lookup before it, so that throw cannot happen.
- QuizContext.QuizProvider.EditQuestion: requires the update to name none of `id`, `createdAt`, `updatedAt` and `createdBy`. The service's parameter type excludes these fields; the store's own `UpdateQuestion` handles all of them.
- QuizContext.QuizProvider.constructor: requires the stored data, once seeded, to satisfy the collection invariants. Data written by this application does; foreign data in local storage is outside the model.
- Authentication errors are values (`LoginError`) rather than exceptions with message text.
- String.prototype.trim: blank means only ASCII whitespace (space, tab, line feed, carriage return, vertical tab, form feed). Unicode spaces are not modelled.
- QuestionForm.FormState.UpdateOption: requires an in-range index. A JavaScript write past the end grows the array with holes; the form only calls it with indices of rendered options.
- QuestionForm.Validate: errors are keyed by a `Field` datatype rather than by the field-name strings.
- QuestionForm.FormState: editing the title, the content and the selected option are plain field assignments made by input handlers, and are not modelled as methods.
- AnswerHistory: an invalid date makes the comparator return NaN, which leaves the order up to the engine; this case is not modelled. Relative-date formatting (`formatRelative`) is presentation only.
- Rendering and routing files (QuestionCard, AnswerForm, the pages, the layouts, the login form) are not part of this model.
- The 'quizUser' key is a field of `AuthProvider` rather than a third key of `Store`. It is independent of the two quiz keys.
