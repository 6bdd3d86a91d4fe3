/** The persistence store: two collections, questions and answers, each kept
    whole under one key of the browser's local storage. Each mutator reads the
    collection, changes it in memory and writes the whole of it back. Writing
    and reading back a collection is taken as the identity. */
module LocalStorage {
  import opened Collections
  import opened MockData

  // Predicates the store's filters and finds use.
  function HasId(id: string): Question -> bool { (q: Question) => q.id == id }
  function IdIsNot(id: string): Question -> bool { (q: Question) => q.id != id }
  function OfUser(userId: string): Answer -> bool { (a: Answer) => a.userId == userId }
  function ForQuestion(questionId: string): Answer -> bool { (a: Answer) => a.questionId == questionId }
  function NotForQuestion(questionId: string): Answer -> bool { (a: Answer) => a.questionId != questionId }
  function ForPair(userId: string, questionId: string): Answer -> bool {
    (a: Answer) => a.userId == userId && a.questionId == questionId
  }
  function AnswerHasId(id: string): Answer -> bool { (a: Answer) => a.id == id }

  /** A key is written with the seed only when it is absent. */
  function SeedIfAbsent<T>(item: Option<T>, seed: T): (r: Option<T>)
    ensures r.Some?
    ensures item.Some? ==> r == item
    ensures item.None? ==> r == Some(seed)
  {
    if item.None? then Some(seed) else item
  }

  /** Seeding twice is seeding once, whatever the second seed. */
  lemma SeedIfAbsentIdempotent<T>(item: Option<T>, seed: T, seed': T)
    ensures SeedIfAbsent(SeedIfAbsent(item, seed), seed') == SeedIfAbsent(item, seed)
  {
  }

  /** `Partial<Question>`: a field is None when the update does not name it.
      `correctOption` has a third state, named with the value undefined. */
  datatype QuestionUpdate = QuestionUpdate(
    id: Option<string>,
    title: Option<string>,
    content: Option<string>,
    options: Option<seq<string>>,
    correctOption: Option<Option<int>>,
    createdAt: Option<Timestamp>,
    updatedAt: Option<Timestamp>,
    createdBy: Option<string>)

  function Pick<T>(update: Option<T>, current: T): T {
    if update.Some? then update.value else current
  }

  /** `{...q, ...u, updatedAt: now}`. */
  function Merge(q: Question, u: QuestionUpdate, now: Timestamp): (r: Question)
    ensures u.id.None? ==> r.id == q.id
    ensures u.title.None? ==> r.title == q.title
    ensures u.content.None? ==> r.content == q.content
    ensures u.options.None? ==> r.options == q.options
    ensures u.correctOption.None? ==> r.correctOption == q.correctOption
    ensures u.createdAt.None? ==> r.createdAt == q.createdAt
    ensures u.createdBy.None? ==> r.createdBy == q.createdBy
    ensures u.id.Some? ==> r.id == u.id.value
    ensures u.title.Some? ==> r.title == u.title.value
    ensures u.content.Some? ==> r.content == u.content.value
    ensures u.options.Some? ==> r.options == u.options.value
    ensures u.correctOption.Some? ==> r.correctOption == u.correctOption.value
    ensures u.createdAt.Some? ==> r.createdAt == u.createdAt.value
    ensures u.createdBy.Some? ==> r.createdBy == u.createdBy.value
    ensures r.updatedAt == now
  {
    Question(Pick(u.id, q.id), Pick(u.title, q.title), Pick(u.content, q.content),
             Pick(u.options, q.options), Pick(u.correctOption, q.correctOption),
             Pick(u.createdAt, q.createdAt), now, Pick(u.createdBy, q.createdBy))
  }

  /** Applying the same update twice is applying it once, at the later time. */
  lemma MergeIdempotent(q: Question, u: QuestionUpdate, t1: Timestamp, t2: Timestamp)
    ensures Merge(Merge(q, u, t1), u, t2) == Merge(q, u, t2)
  {
  }

  /** `question?.correctOption === selectedOption` for the first question with
      the id: false when there is none or it has no correct option. */
  function IsCorrectAgainst(qs: seq<Question>, questionId: string, selectedOption: int): (r: bool)
    ensures r <==> exists i :: 0 <= i < |qs| && qs[i].id == questionId
                     && (forall j :: 0 <= j < i ==> qs[j].id != questionId)
                     && qs[i].correctOption == Some(selectedOption)
  {
    var q := Find(qs, HasId(questionId));
    q.Some? && q.value.correctOption == Some(selectedOption)
  }

  /** With distinct question ids, the correctness flag is that of the one
      question carrying the id. */
  lemma IsCorrectAgainstUnique(qs: seq<Question>, k: int, selectedOption: int)
    requires KeysDistinct(qs, QuestionIdOf) && 0 <= k < |qs|
    ensures IsCorrectAgainst(qs, qs[k].id, selectedOption) == (qs[k].correctOption == Some(selectedOption))
  {
    var i := FindIndex(qs, HasId(qs[k].id));
    assert HasId(qs[k].id)(qs[k]);
    assert QuestionIdOf(qs[i]) == QuestionIdOf(qs[k]);
  }

  /** The record addAnswer creates: one history entry, recording the choice. */
  function NewAnswer(id: string, questionId: string, userId: string, selectedOption: int,
                     isCorrect: bool, createdAt: Timestamp, updatedAt: Timestamp,
                     stamp: Timestamp): (r: Answer)
    ensures r.id == id && r.questionId == questionId && r.userId == userId
    ensures r.selectedOption == selectedOption && r.isCorrect == isCorrect
    ensures |r.history| == 1 && r.history[0] == HistoryEntry(selectedOption, stamp)
    ensures HistoryConsistent(r)
  {
    Answer(id, questionId, userId, selectedOption, isCorrect, createdAt, updatedAt,
           [HistoryEntry(selectedOption, stamp)])
  }

  /** The record updateAnswer writes: the same answer with a new choice, its
      history extended by exactly one entry at the end. */
  function Revise(a: Answer, selectedOption: int, isCorrect: bool,
                  updatedAt: Timestamp, stamp: Timestamp): (r: Answer)
    ensures r.id == a.id && r.questionId == a.questionId && r.userId == a.userId
    ensures r.createdAt == a.createdAt
    ensures r.selectedOption == selectedOption && r.isCorrect == isCorrect
    ensures r.updatedAt == updatedAt
    ensures |r.history| == |a.history| + 1 && r.history[..|a.history|] == a.history
    ensures r.history[|a.history|] == HistoryEntry(selectedOption, stamp)
    ensures HistoryConsistent(r)
  {
    a.(selectedOption := selectedOption, isCorrect := isCorrect, updatedAt := updatedAt,
       history := a.history + [HistoryEntry(selectedOption, stamp)])
  }

  /** Revising twice appends two entries, in order, and keeps the earlier prefix. */
  lemma {:induction false} ReviseTwice(a: Answer, s1: int, s2: int, c1: bool, c2: bool,
                                       u1: Timestamp, u2: Timestamp, t1: Timestamp, t2: Timestamp)
    ensures Revise(Revise(a, s1, c1, u1, t1), s2, c2, u2, t2).history
            == a.history + [HistoryEntry(s1, t1), HistoryEntry(s2, t2)]
  {
    var r1 := Revise(a, s1, c1, u1, t1);
    assert r1.history == a.history + [HistoryEntry(s1, t1)];
  }

  class Store {
    /** The contents of the 'quiz_questions' and 'quiz_answers' keys; None while absent. */
    var questionsItem: Option<seq<Question>>
    var answersItem: Option<seq<Answer>>

    /** The store as the browser holds it when the application starts. */
    constructor (questionsItem: Option<seq<Question>>, answersItem: Option<seq<Answer>>)
      ensures this.questionsItem == questionsItem && this.answersItem == answersItem
    {
      this.questionsItem := questionsItem;
      this.answersItem := answersItem;
    }

    /** initializeStorage: each absent key receives the seed; `now` is the
        clock reading the seed's timestamps are computed from. */
    method InitializeStorage(now: Timestamp)
      modifies this
      ensures questionsItem == SeedIfAbsent(old(questionsItem), InitialQuestions(now))
      ensures answersItem == SeedIfAbsent(old(answersItem), InitialAnswers(now))
    {
      var seedQuestions := InitialQuestions(now);
      var seedAnswers := InitialAnswers(now);
      if questionsItem.None? {
        questionsItem := Some(seedQuestions);
      }
      if answersItem.None? {
        answersItem := Some(seedAnswers);
      }
    }

    /** getQuestions: the stored collection, or nothing when the key is absent. */
    function GetQuestions(): (r: seq<Question>)
      reads this
      ensures questionsItem.None? ==> r == []
      ensures questionsItem.Some? ==> r == questionsItem.value
    {
      if questionsItem.Some? then questionsItem.value else []
    }

    /** getAnswers: the stored collection, or nothing when the key is absent. */
    function GetAnswers(): (r: seq<Answer>)
      reads this
      ensures answersItem.None? ==> r == []
      ensures answersItem.Some? ==> r == answersItem.value
    {
      if answersItem.Some? then answersItem.value else []
    }

    /** getUserAnswers: exactly the stored answers of the user, in stored order. */
    function GetUserAnswers(userId: string): (r: seq<Answer>)
      reads this
      ensures forall i :: 0 <= i < |r| ==> r[i] in GetAnswers() && r[i].userId == userId
      ensures forall i :: 0 <= i < |GetAnswers()| && GetAnswers()[i].userId == userId ==> GetAnswers()[i] in r
    {
      Filter(GetAnswers(), OfUser(userId))
    }

    /** getQuestionAnswers: exactly the stored answers to the question, in stored order. */
    function GetQuestionAnswers(questionId: string): (r: seq<Answer>)
      reads this
      ensures forall i :: 0 <= i < |r| ==> r[i] in GetAnswers() && r[i].questionId == questionId
      ensures forall i :: 0 <= i < |GetAnswers()| && GetAnswers()[i].questionId == questionId ==> GetAnswers()[i] in r
    {
      Filter(GetAnswers(), ForQuestion(questionId))
    }

    /** getUserAnswerForQuestion: the first stored answer of the pair, if any. */
    function GetUserAnswerForQuestion(userId: string, questionId: string): (r: Option<Answer>)
      reads this
      ensures r.None? <==> forall i :: 0 <= i < |GetAnswers()| ==>
                             !(GetAnswers()[i].userId == userId && GetAnswers()[i].questionId == questionId)
      ensures r.Some? ==> r.value in GetAnswers() && r.value.userId == userId && r.value.questionId == questionId
    {
      Find(GetAnswers(), ForPair(userId, questionId))
    }

    /** addQuestion: a record with the given fields, a fresh id and two clock
        readings is appended; every earlier record stays as it was. */
    method AddQuestion(fields: QuestionFields, createdBy: string, freshId: string,
                       createdAt: Timestamp, updatedAt: Timestamp) returns (q: Question)
      modifies this
      ensures q == Question(freshId, fields.title, fields.content, fields.options,
                            fields.correctOption, createdAt, updatedAt, createdBy)
      ensures questionsItem == Some(old(GetQuestions()) + [q])
      ensures answersItem == old(answersItem)
    {
      q := Question(freshId, fields.title, fields.content, fields.options,
                    fields.correctOption, createdAt, updatedAt, createdBy);
      var questions := GetQuestions();
      questions := questions + [q];
      questionsItem := Some(questions);
    }

    /** updateQuestion: null and no write when no question has the id;
        otherwise the first question with the id is merged with the update and
        written back in place, and the merged record is returned. */
    method UpdateQuestion(id: string, updates: QuestionUpdate, now: Timestamp) returns (r: Option<Question>)
      modifies this
      ensures r.None? <==> forall i :: 0 <= i < |old(GetQuestions())| ==> old(GetQuestions())[i].id != id
      ensures r.None? ==> questionsItem == old(questionsItem)
      ensures r.Some? ==>
        var qs := old(GetQuestions());
        var i := FindIndex(qs, HasId(id));
        0 <= i < |qs| && qs[i].id == id && (forall j :: 0 <= j < i ==> qs[j].id != id) &&
        r.value == Merge(qs[i], updates, now) && questionsItem == Some(qs[i := r.value])
      ensures answersItem == old(answersItem)
    {
      var questions := GetQuestions();
      var index := FindIndex(questions, HasId(id));
      if index == -1 {
        return None;
      }
      var updated := Merge(questions[index], updates, now);
      questions := questions[index := updated];
      questionsItem := Some(questions);
      r := Some(updated);
    }

    /** deleteQuestion: false and no write when no question has the id;
        otherwise every question with the id and every answer to it is
        removed, the other records kept in order. */
    method DeleteQuestion(id: string) returns (deleted: bool)
      modifies this
      ensures deleted <==> exists i :: 0 <= i < |old(GetQuestions())| && old(GetQuestions())[i].id == id
      ensures !deleted ==> questionsItem == old(questionsItem) && answersItem == old(answersItem)
      ensures deleted ==> questionsItem == Some(Filter(old(GetQuestions()), IdIsNot(id)))
      ensures deleted ==> answersItem == Some(Filter(old(GetAnswers()), NotForQuestion(id)))
    {
      var questions := GetQuestions();
      var filteredQuestions := Filter(questions, IdIsNot(id));
      FilterKeepsAll(questions, IdIsNot(id));
      if |filteredQuestions| == |questions| {
        return false;
      }
      questionsItem := Some(filteredQuestions);
      var answers := GetAnswers();
      var filteredAnswers := Filter(answers, NotForQuestion(id));
      answersItem := Some(filteredAnswers);
      deleted := true;
    }

    /** addAnswer: a new answer with a one-entry history is appended; it is
        correct exactly when the question exists and its correct option is the
        selected one. */
    method AddAnswer(questionId: string, userId: string, selectedOption: int, freshId: string,
                     createdAt: Timestamp, updatedAt: Timestamp, stamp: Timestamp) returns (a: Answer)
      modifies this
      ensures a == NewAnswer(freshId, questionId, userId, selectedOption,
                             IsCorrectAgainst(old(GetQuestions()), questionId, selectedOption),
                             createdAt, updatedAt, stamp)
      ensures answersItem == Some(old(GetAnswers()) + [a])
      ensures questionsItem == old(questionsItem)
    {
      var questions := GetQuestions();
      var isCorrect := IsCorrectAgainst(questions, questionId, selectedOption);
      a := NewAnswer(freshId, questionId, userId, selectedOption, isCorrect, createdAt, updatedAt, stamp);
      var answers := GetAnswers();
      answers := answers + [a];
      answersItem := Some(answers);
    }

    /** updateAnswer: null and no write when the pair has no answer; otherwise
        the first answer of the pair is revised in place, its correctness
        recomputed against the current question. */
    method UpdateAnswer(userId: string, questionId: string, selectedOption: int,
                        updatedAt: Timestamp, stamp: Timestamp) returns (r: Option<Answer>)
      modifies this
      ensures r.None? <==> old(GetUserAnswerForQuestion(userId, questionId)).None?
      ensures r.None? ==> answersItem == old(answersItem)
      ensures r.Some? ==>
        var answers := old(GetAnswers());
        var i := FindIndex(answers, ForPair(userId, questionId));
        0 <= i < |answers| && answers[i] == old(GetUserAnswerForQuestion(userId, questionId)).value &&
        r.value == Revise(answers[i], selectedOption,
                          IsCorrectAgainst(old(GetQuestions()), questionId, selectedOption),
                          updatedAt, stamp) &&
        answersItem == Some(answers[i := r.value])
      ensures questionsItem == old(questionsItem)
    {
      var answers := GetAnswers();
      var index := FindIndex(answers, ForPair(userId, questionId));
      if index == -1 {
        return None;
      }
      var questions := GetQuestions();
      var isCorrect := IsCorrectAgainst(questions, questionId, selectedOption);
      var updated := Revise(answers[index], selectedOption, isCorrect, updatedAt, stamp);
      answers := answers[index := updated];
      answersItem := Some(answers);
      r := Some(updated);
    }
  }

  /** Adding a fresh answer for a pair without one, and revising an answer in
      place, keep the invariants of the two collections. */
  lemma AddAnswerKeepsConsistent(qs: seq<Question>, answers: seq<Answer>, a: Answer)
    requires Consistent(qs, answers) && HistoryConsistent(a)
    requires forall i :: 0 <= i < |answers| ==> answers[i].id != a.id
    requires forall i :: 0 <= i < |answers| ==> PairOf(answers[i]) != PairOf(a)
    ensures Consistent(qs, answers + [a])
  {
    KeysDistinctAppend(answers, a, AnswerIdOf);
    KeysDistinctAppend(answers, a, PairOf);
  }

  lemma ReviseKeepsConsistent(qs: seq<Question>, answers: seq<Answer>, i: int,
                              selectedOption: int, isCorrect: bool, updatedAt: Timestamp, stamp: Timestamp)
    requires Consistent(qs, answers) && 0 <= i < |answers|
    ensures Consistent(qs, answers[i := Revise(answers[i], selectedOption, isCorrect, updatedAt, stamp)])
  {
    var r := Revise(answers[i], selectedOption, isCorrect, updatedAt, stamp);
    KeysDistinctUpdate(answers, i, r, AnswerIdOf);
    KeysDistinctUpdate(answers, i, r, PairOf);
  }

  /** Deleting a question with its answers keeps the invariants. */
  lemma DeleteKeepsConsistent(qs: seq<Question>, answers: seq<Answer>, id: string)
    requires Consistent(qs, answers)
    ensures Consistent(Filter(qs, IdIsNot(id)), Filter(answers, NotForQuestion(id)))
  {
    FilterKeysDistinct(qs, IdIsNot(id), QuestionIdOf);
    FilterKeysDistinct(answers, NotForQuestion(id), AnswerIdOf);
    FilterKeysDistinct(answers, NotForQuestion(id), PairOf);
    var f := Filter(answers, NotForQuestion(id));
    forall k | 0 <= k < |f| ensures HistoryConsistent(f[k]) {
      var j :| 0 <= j < |answers| && answers[j] == f[k];
    }
  }

  /** Deleting removes every answer to the question and keeps every other one. */
  lemma DeleteCascades(answers: seq<Answer>, id: string)
    ensures forall k :: 0 <= k < |Filter(answers, NotForQuestion(id))| ==>
              Filter(answers, NotForQuestion(id))[k].questionId != id
    ensures forall i :: 0 <= i < |answers| && answers[i].questionId != id ==>
              answers[i] in Filter(answers, NotForQuestion(id))
    ensures SubsequenceOf(Filter(answers, NotForQuestion(id)), answers)
  {
    FilterIsSubsequence(answers, NotForQuestion(id));
  }
}
