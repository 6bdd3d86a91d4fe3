/** The record shapes of the quiz domain and the data the store is seeded with
    on first run. Timestamps are milliseconds since the epoch: the source keeps
    ISO-8601 strings, which order the same way as the instants they name. */
module MockData {
  import opened Collections

  type Timestamp = int

  datatype Question = Question(
    id: string,
    title: string,
    content: string,
    options: seq<string>,
    correctOption: Option<int>,
    createdAt: Timestamp,
    updatedAt: Timestamp,
    createdBy: string)

  /** One snapshot in an answer's history. */
  datatype HistoryEntry = HistoryEntry(selectedOption: int, timestamp: Timestamp)

  datatype Answer = Answer(
    id: string,
    questionId: string,
    userId: string,
    selectedOption: int,
    isCorrect: bool,
    createdAt: Timestamp,
    updatedAt: Timestamp,
    history: seq<HistoryEntry>)

  /** What the question form submits: a question without id, timestamps and author. */
  datatype QuestionFields = QuestionFields(
    title: string,
    content: string,
    options: seq<string>,
    correctOption: Option<int>)

  function QuestionIdOf(q: Question): string { q.id }
  function AnswerIdOf(a: Answer): string { a.id }
  /** The (user, question) pair an answer belongs to. */
  function PairOf(a: Answer): (string, string) { (a.userId, a.questionId) }

  /** A question has at least two options and its correct option, when set, names one. */
  predicate WellFormedQuestion(q: Question) {
    |q.options| >= 2 && (q.correctOption.Some? ==> 0 <= q.correctOption.value < |q.options|)
  }

  /** The history is never empty and ends with the answer's current choice. */
  predicate HistoryConsistent(a: Answer) {
    |a.history| > 0 && a.history[|a.history| - 1].selectedOption == a.selectedOption
  }

  /** The answer's correctness flag agrees with the question's correct option. */
  predicate GradedAgainst(a: Answer, q: Question) {
    a.isCorrect == (q.correctOption == Some(a.selectedOption))
  }

  /** The invariants the application keeps over the two collections: distinct
      question ids, distinct answer ids, at most one answer per (user, question)
      pair, and a consistent history on every answer. */
  ghost predicate Consistent(qs: seq<Question>, answers: seq<Answer>) {
    && KeysDistinct(qs, QuestionIdOf)
    && KeysDistinct(answers, AnswerIdOf)
    && KeysDistinct(answers, PairOf)
    && forall i :: 0 <= i < |answers| ==> HistoryConsistent(answers[i])
  }

  const DAY_MS: int := 24 * 60 * 60 * 1000

  const JS_BASICS_PROMPT: string := "Which of the following is NOT a JavaScript data type?"
  const REACT_PROMPT: string := "Which hook would you use to run side effects in a React component?"
  const CSS_PROMPT: string := "Which CSS property is used to create space between elements' content and its border?"
  const TS_PROMPT: string := "Which of the following is NOT a TypeScript type?"

  /** The seeded questions. Every seed timestamp is an offset from `now`, one
      shared clock reading; the seed itself reads the clock afresh for each. */
  function InitialQuestions(now: Timestamp): (r: seq<Question>)
    ensures |r| == 4
    ensures forall i :: 0 <= i < |r| ==> r[i].createdBy == "admin-1" && r[i].createdAt < now
    ensures forall i, j :: 0 <= i < j < |r| ==> r[i].createdAt < r[j].createdAt
  {
    [ Question("1", "JavaScript Basics",
               JS_BASICS_PROMPT,
               ["String", "Boolean", "Float", "Object"], Some(2),
               now - 7 * DAY_MS, now - 7 * DAY_MS, "admin-1"),
      Question("2", "React Fundamentals",
               REACT_PROMPT,
               ["useState", "useEffect", "useContext", "useReducer"], Some(1),
               now - 5 * DAY_MS, now - 5 * DAY_MS, "admin-1"),
      Question("3", "CSS Properties",
               CSS_PROMPT,
               ["margin", "padding", "spacing", "border-spacing"], Some(1),
               now - 3 * DAY_MS, now - 3 * DAY_MS, "admin-1"),
      Question("4", "TypeScript Knowledge",
               TS_PROMPT,
               ["any", "unknown", "string", "float"], Some(3),
               now - 1 * DAY_MS, now - 1 * DAY_MS, "admin-1") ]
  }

  /** The seeded answers of the regular user. */
  function InitialAnswers(now: Timestamp): (r: seq<Answer>)
    ensures |r| == 2
    ensures forall i :: 0 <= i < |r| ==>
      r[i].userId == "user-1" && |r[i].history| == 1 && r[i].history[0].timestamp == r[i].createdAt
  {
    [ Answer("1", "1", "user-1", 0, false, now - 6 * DAY_MS, now - 6 * DAY_MS,
             [HistoryEntry(0, now - 6 * DAY_MS)]),
      Answer("2", "2", "user-1", 1, true, now - 4 * DAY_MS, now - 4 * DAY_MS,
             [HistoryEntry(1, now - 4 * DAY_MS)]) ]
  }

  /** Every seeded question is well formed. */
  lemma SeedQuestionsWellFormed(now: Timestamp)
    ensures forall i :: 0 <= i < |InitialQuestions(now)| ==> WellFormedQuestion(InitialQuestions(now)[i])
  {
  }

  /** Every seeded answer references a seeded question and is graded against it. */
  lemma SeedAnswersGraded(now: Timestamp)
    ensures forall i :: 0 <= i < |InitialAnswers(now)| ==>
      exists j :: 0 <= j < |InitialQuestions(now)| &&
        InitialQuestions(now)[j].id == InitialAnswers(now)[i].questionId &&
        GradedAgainst(InitialAnswers(now)[i], InitialQuestions(now)[j])
  {
    var qs, answers := InitialQuestions(now), InitialAnswers(now);
    assert qs[0].id == answers[0].questionId && GradedAgainst(answers[0], qs[0]);
    assert qs[1].id == answers[1].questionId && GradedAgainst(answers[1], qs[1]);
  }

  /** The seed satisfies the invariants the application keeps. */
  lemma SeedConsistent(now: Timestamp)
    ensures Consistent(InitialQuestions(now), InitialAnswers(now))
  {
    var qs, answers := InitialQuestions(now), InitialAnswers(now);
    assert forall i :: 0 <= i < |qs| ==> qs[i].id == ["1", "2", "3", "4"][i];
    assert answers[0].id != answers[1].id;
    assert PairOf(answers[0]) != PairOf(answers[1]);
  }
}
