/** The quiz service: every action checks the current user's role, calls the
    store, then patches three in-memory mirrors of the store (the questions,
    all answers, and the current user's answers) that the pages render from. */
module QuizContext {
  import opened Collections
  import opened MockData
  import opened LocalStorage
  import opened AuthContext

  /** The failures the service throws, as distinct from a null or false
      "not found" result, which it returns. */
  datatype QuizError = Forbidden | Unauthenticated

  datatype Outcome<T> = Returned(value: T) | Threw(error: QuizError)

  /** The user-answer mirror the sync effect computes from all answers. */
  function UserView(all: seq<Answer>, user: Option<User>): (r: seq<Answer>)
    ensures user.None? ==> r == []
    ensures user.Some? ==> forall i :: 0 <= i < |r| ==> r[i] in all && r[i].userId == user.value.id
    ensures user.Some? ==> forall i :: 0 <= i < |all| && all[i].userId == user.value.id ==> all[i] in r
  {
    if user.None? then [] else Filter(all, OfUser(user.value.id))
  }

  /** A new answer for a pair that has none keeps the invariants, becomes the
      pair's answer, and joins its user's view at the end. */
  lemma AppendNewAnswer(qs: seq<Question>, all: seq<Answer>, a: Answer)
    requires Consistent(qs, all) && HistoryConsistent(a)
    requires forall i :: 0 <= i < |all| ==> all[i].id != a.id
    requires Find(all, ForPair(a.userId, a.questionId)).None?
    ensures Consistent(qs, all + [a])
    ensures Find(all + [a], ForPair(a.userId, a.questionId)) == Some(a)
    ensures Filter(all + [a], OfUser(a.userId)) == Filter(all, OfUser(a.userId)) + [a]
  {
    var p := ForPair(a.userId, a.questionId);
    assert forall i :: 0 <= i < |all| ==> PairOf(all[i]) != PairOf(a) by {
      forall i | 0 <= i < |all| ensures PairOf(all[i]) != PairOf(a) {
        assert !p(all[i]);
      }
    }
    AddAnswerKeepsConsistent(qs, all, a);
    FindAfterAppend(all, p, a);
    FilterAppend(all, [a], OfUser(a.userId));
    assert Filter([a], OfUser(a.userId)) == [a];
  }

  /** Dropping a question's answers from all answers drops them from every
      user's view too. */
  lemma DeleteKeepsView(all: seq<Answer>, user: Option<User>, id: string)
    ensures UserView(Filter(all, NotForQuestion(id)), user) == Filter(UserView(all, user), NotForQuestion(id))
  {
    if user.Some? {
      FilterCommutes(all, OfUser(user.value.id), NotForQuestion(id));
    }
  }

  class QuizProvider {
    const store: Store
    /** The user the session provides. */
    var user: Option<User>
    var questions: seq<Question>
    var allAnswers: seq<Answer>
    var userAnswers: seq<Answer>

    /** The mirrors equal the store, the user mirror is the user's share of
        all answers, and the collections keep the domain invariants. */
    ghost predicate Valid()
      reads this, store
    {
      && questions == store.GetQuestions()
      && allAnswers == store.GetAnswers()
      && userAnswers == UserView(allAnswers, user)
      && Consistent(questions, allAnswers)
    }

    /** Everything an action may change: the mirrors and both stored keys. */
    ghost function Snapshot(): (seq<Question>, seq<Answer>, seq<Answer>,
                                Option<seq<Question>>, Option<seq<Answer>>)
      reads this, store
    {
      (questions, allAnswers, userAnswers, store.questionsItem, store.answersItem)
    }

    /** Mount: seed the store where it is empty, then load both collections. */
    constructor (store: Store, user: Option<User>, now: Timestamp)
      requires Consistent(SeedIfAbsent(store.questionsItem, InitialQuestions(now)).value,
                          SeedIfAbsent(store.answersItem, InitialAnswers(now)).value)
      modifies store
      ensures Valid() && this.store == store && this.user == user
      ensures store.questionsItem == SeedIfAbsent(old(store.questionsItem), InitialQuestions(now))
      ensures store.answersItem == SeedIfAbsent(old(store.answersItem), InitialAnswers(now))
    {
      this.store := store;
      this.user := user;
      store.InitializeStorage(now);
      var loadedQuestions := store.GetQuestions();
      var loadedAnswers := store.GetAnswers();
      questions := loadedQuestions;
      allAnswers := loadedAnswers;
      userAnswers := UserView(loadedAnswers, user);
    }

    /** The sync effect that runs when the session's user changes. */
    method UserChanged(newUser: Option<User>)
      requires Valid()
      modifies this
      ensures Valid() && user == newUser
      ensures questions == old(questions) && allAnswers == old(allAnswers)
      ensures userAnswers == UserView(allAnswers, newUser)
    {
      user := newUser;
      userAnswers := UserView(allAnswers, newUser);
    }

    /** createQuestion: administrators only; the record is authored by the
        current user and appended to the store and to the mirror. `freshId`
        stands for the uuid, which is taken to be new. */
    method CreateQuestion(fields: QuestionFields, freshId: string,
                          createdAt: Timestamp, updatedAt: Timestamp) returns (r: Outcome<Question>)
      requires Valid()
      requires forall i :: 0 <= i < |questions| ==> questions[i].id != freshId
      modifies this, store
      ensures Valid() && user == old(user)
      ensures !IsAdminUser(user) ==> r == Threw(Forbidden) && Snapshot() == old(Snapshot())
      ensures IsAdminUser(user) ==>
        && r == Returned(Question(freshId, fields.title, fields.content, fields.options,
                                  fields.correctOption, createdAt, updatedAt, user.value.id))
        && questions == old(questions) + [r.value]
        && allAnswers == old(allAnswers) && userAnswers == old(userAnswers)
    {
      if !IsAdminUser(user) {
        return Threw(Forbidden);
      }
      var q := store.AddQuestion(fields, user.value.id, freshId, createdAt, updatedAt);
      KeysDistinctAppend(questions, q, QuestionIdOf);
      questions := questions + [q];
      r := Returned(q);
    }

    /** editQuestion: administrators only; returns the store's result; on
        success the mirror entry with the id is replaced, on null nothing
        changes. The update names none of id, createdAt, updatedAt, createdBy. */
    method EditQuestion(id: string, updates: QuestionUpdate, now: Timestamp)
      returns (r: Outcome<Option<Question>>)
      requires Valid()
      requires updates.id.None? && updates.createdAt.None? && updates.updatedAt.None? && updates.createdBy.None?
      modifies this, store
      ensures Valid() && user == old(user)
      ensures allAnswers == old(allAnswers) && userAnswers == old(userAnswers)
      ensures !IsAdminUser(user) ==> r == Threw(Forbidden) && Snapshot() == old(Snapshot())
      ensures IsAdminUser(user) ==>
        r.Returned? && (r.value.None? <==> forall i :: 0 <= i < |old(questions)| ==> old(questions)[i].id != id)
      ensures r == Returned(None) ==> Snapshot() == old(Snapshot())
      ensures r.Returned? && r.value.Some? ==>
        && questions == ReplaceWhere(old(questions), HasId(id), r.value.value)
        && exists i :: 0 <= i < |old(questions)| && old(questions)[i].id == id
             && r.value.value == Merge(old(questions)[i], updates, now)
             && questions == old(questions)[i := r.value.value]
    {
      if !IsAdminUser(user) {
        return Threw(Forbidden);
      }
      ghost var i := FindIndex(questions, HasId(id));
      var updated := store.UpdateQuestion(id, updates, now);
      if updated.Some? {
        var q := updated.value;
        KeyAtOnly(questions, i, QuestionIdOf);
        ReplaceWhereSingle(questions, HasId(id), i, q);
        KeysDistinctUpdate(questions, i, q, QuestionIdOf);
        questions := ReplaceWhere(questions, HasId(id), q);
      }
      r := Returned(updated);
    }

    /** removeQuestion: administrators only; on success the question leaves
        the mirror and its answers leave both answer mirrors; on false nothing
        changes. */
    method RemoveQuestion(id: string) returns (r: Outcome<bool>)
      requires Valid()
      modifies this, store
      ensures Valid() && user == old(user)
      ensures !IsAdminUser(user) ==> r == Threw(Forbidden) && Snapshot() == old(Snapshot())
      ensures IsAdminUser(user) ==>
        r.Returned? && (r.value <==> exists i :: 0 <= i < |old(questions)| && old(questions)[i].id == id)
      ensures r == Returned(false) ==> Snapshot() == old(Snapshot())
      ensures r == Returned(true) ==>
        && questions == Filter(old(questions), IdIsNot(id))
        && allAnswers == Filter(old(allAnswers), NotForQuestion(id))
        && userAnswers == Filter(old(userAnswers), NotForQuestion(id))
    {
      if !IsAdminUser(user) {
        return Threw(Forbidden);
      }
      DeleteKeepsConsistent(questions, allAnswers, id);
      DeleteKeepsView(allAnswers, user, id);
      var remainingQuestions := Filter(questions, IdIsNot(id));
      var remainingAnswers := Filter(allAnswers, NotForQuestion(id));
      var remainingUserAnswers := Filter(userAnswers, NotForQuestion(id));
      var success := store.DeleteQuestion(id);
      if success {
        questions, allAnswers, userAnswers := remainingQuestions, remainingAnswers, remainingUserAnswers;
      }
      r := Returned(success);
    }

    /** Patches both answer mirrors after the store revised the answer at
        position `i` in place: `prev.map(a => a.id === answer.id ? answer : a)`. */
    method MirrorRevision(ghost i: int, answer: Answer)
      requires 0 <= i < |allAnswers|
      requires questions == store.GetQuestions() && userAnswers == UserView(allAnswers, user)
      requires Consistent(questions, allAnswers)
      requires answer.id == allAnswers[i].id && PairOf(answer) == PairOf(allAnswers[i])
      requires HistoryConsistent(answer)
      requires store.GetAnswers() == allAnswers[i := answer]
      modifies this
      ensures Valid() && user == old(user) && questions == old(questions)
      ensures allAnswers == old(allAnswers)[i := answer]
      ensures allAnswers == ReplaceWhere(old(allAnswers), AnswerHasId(answer.id), answer)
      ensures userAnswers == ReplaceWhere(old(userAnswers), AnswerHasId(answer.id), answer)
    {
      KeyAtOnly(allAnswers, i, AnswerIdOf);
      ReplaceWhereSingle(allAnswers, AnswerHasId(answer.id), i, answer);
      KeysDistinctUpdate(allAnswers, i, answer, AnswerIdOf);
      KeysDistinctUpdate(allAnswers, i, answer, PairOf);
      if user.Some? {
        FilterUpdate(allAnswers, i, answer, OfUser(user.value.id), AnswerHasId(answer.id));
      }
      allAnswers := ReplaceWhere(allAnswers, AnswerHasId(answer.id), answer);
      userAnswers := ReplaceWhere(userAnswers, AnswerHasId(answer.id), answer);
    }

    /** The revise-in-place step submitAnswer and editAnswer share: the store's
        updateAnswer for the current user, then, when it found the pair, the
        patch of both answer mirrors. */
    method ReviseAnswer(questionId: string, selectedOption: int, updatedAt: Timestamp, stamp: Timestamp)
      returns (updated: Option<Answer>)
      requires Valid() && user.Some?
      modifies this, store
      ensures Valid() && user == old(user) && questions == old(questions)
      ensures updated.None? <==> Find(old(allAnswers), ForPair(user.value.id, questionId)).None?
      ensures updated.None? ==> Snapshot() == old(Snapshot())
      ensures updated.Some? ==>
        var prior := Find(old(allAnswers), ForPair(user.value.id, questionId)).value;
        && |allAnswers| == |old(allAnswers)|
        && updated.value == Revise(prior, selectedOption,
                                   IsCorrectAgainst(questions, questionId, selectedOption), updatedAt, stamp)
        && Find(allAnswers, ForPair(user.value.id, questionId)) == updated
        && allAnswers == ReplaceWhere(old(allAnswers), AnswerHasId(prior.id), updated.value)
        && userAnswers == ReplaceWhere(old(userAnswers), AnswerHasId(prior.id), updated.value)
    {
      var userId := user.value.id;
      ghost var i := FindIndex(allAnswers, ForPair(userId, questionId));
      updated := store.UpdateAnswer(userId, questionId, selectedOption, updatedAt, stamp);
      if updated.Some? {
        FindAfterUpdate(allAnswers, ForPair(userId, questionId), updated.value);
        MirrorRevision(i, updated.value);
      }
    }

    /** The add step of submitAnswer, for a pair that has no answer yet: the
        store's addAnswer, then the new record appended to both answer mirrors. */
    method RecordNewAnswer(questionId: string, selectedOption: int, freshId: string,
                           createdAt: Timestamp, updatedAt: Timestamp, stamp: Timestamp)
      returns (answer: Answer)
      requires Valid() && user.Some?
      requires forall i :: 0 <= i < |allAnswers| ==> allAnswers[i].id != freshId
      requires Find(allAnswers, ForPair(user.value.id, questionId)).None?
      modifies this, store
      ensures Valid() && user == old(user) && questions == old(questions)
      ensures answer == NewAnswer(freshId, questionId, user.value.id, selectedOption,
                                  IsCorrectAgainst(questions, questionId, selectedOption),
                                  createdAt, updatedAt, stamp)
      ensures allAnswers == old(allAnswers) + [answer]
      ensures userAnswers == old(userAnswers) + [answer]
      ensures Find(allAnswers, ForPair(user.value.id, questionId)) == Some(answer)
    {
      var userId := user.value.id;
      answer := store.AddAnswer(questionId, userId, selectedOption, freshId, createdAt, updatedAt, stamp);
      AppendNewAnswer(questions, allAnswers, answer);
      allAnswers := allAnswers + [answer];
      userAnswers := userAnswers + [answer];
    }

    /** submitAnswer: any signed-in user; an existing answer of the pair is
        revised in place, otherwise a new one is added, so the pair keeps at
        most one answer. The returned record is then the pair's live answer. */
    method SubmitAnswer(questionId: string, selectedOption: int, freshId: string,
                        createdAt: Timestamp, updatedAt: Timestamp, stamp: Timestamp)
      returns (r: Outcome<Answer>)
      requires Valid()
      requires forall i :: 0 <= i < |allAnswers| ==> allAnswers[i].id != freshId
      modifies this, store
      ensures Valid() && user == old(user) && questions == old(questions)
      ensures user.None? ==> r == Threw(Unauthenticated) && Snapshot() == old(Snapshot())
      ensures user.Some? ==>
        && r.Returned?
        && PairOf(r.value) == (user.value.id, questionId)
        && r.value.selectedOption == selectedOption
        && r.value.isCorrect == IsCorrectAgainst(questions, questionId, selectedOption)
        && Find(allAnswers, ForPair(user.value.id, questionId)) == Some(r.value)
      ensures user.Some? && Find(old(allAnswers), ForPair(user.value.id, questionId)).Some? ==>
        var prior := Find(old(allAnswers), ForPair(user.value.id, questionId)).value;
        && |allAnswers| == |old(allAnswers)|
        && r.value.id == prior.id && r.value.createdAt == prior.createdAt
        && r.value.history == prior.history + [HistoryEntry(selectedOption, stamp)]
        && r.value == Revise(prior, selectedOption, IsCorrectAgainst(questions, questionId, selectedOption),
                             updatedAt, stamp)
        && allAnswers == ReplaceWhere(old(allAnswers), AnswerHasId(prior.id), r.value)
        && userAnswers == ReplaceWhere(old(userAnswers), AnswerHasId(prior.id), r.value)
      ensures user.Some? && Find(old(allAnswers), ForPair(user.value.id, questionId)).None? ==>
        && allAnswers == old(allAnswers) + [r.value]
        && userAnswers == old(userAnswers) + [r.value]
        && r.value.id == freshId
        && r.value.history == [HistoryEntry(selectedOption, stamp)]
        && r.value == NewAnswer(freshId, questionId, user.value.id, selectedOption,
                                IsCorrectAgainst(questions, questionId, selectedOption),
                                createdAt, updatedAt, stamp)
    {
      if user.None? {
        return Threw(Unauthenticated);
      }
      var userId := user.value.id;
      var existing := store.GetUserAnswerForQuestion(userId, questionId);
      if existing.Some? {
        var updated := ReviseAnswer(questionId, selectedOption, updatedAt, stamp);
        // The store finds the pair by the same test as the lookup above, so
        // its null result (and the throw the source guards it with) cannot occur.
        r := Returned(updated.value);
      } else {
        var answer := RecordNewAnswer(questionId, selectedOption, freshId, createdAt, updatedAt, stamp);
        r := Returned(answer);
      }
    }

    /** editAnswer: any signed-in user; revises the pair's answer in place,
        or returns null, creating nothing, when the pair has none. */
    method EditAnswer(questionId: string, selectedOption: int, updatedAt: Timestamp, stamp: Timestamp)
      returns (r: Outcome<Option<Answer>>)
      requires Valid()
      modifies this, store
      ensures Valid() && user == old(user) && questions == old(questions)
      ensures user.None? ==> r == Threw(Unauthenticated) && Snapshot() == old(Snapshot())
      ensures user.Some? ==>
        r.Returned? && (r.value.None? <==> Find(old(allAnswers), ForPair(user.value.id, questionId)).None?)
      ensures r == Returned(None) ==> Snapshot() == old(Snapshot())
      ensures r.Returned? && r.value.Some? ==>
        var prior := Find(old(allAnswers), ForPair(user.value.id, questionId)).value;
        && |allAnswers| == |old(allAnswers)|
        && r.value.value.id == prior.id && PairOf(r.value.value) == PairOf(prior)
        && r.value.value.createdAt == prior.createdAt
        && r.value.value.selectedOption == selectedOption
        && r.value.value.isCorrect == IsCorrectAgainst(questions, questionId, selectedOption)
        && r.value.value.history == prior.history + [HistoryEntry(selectedOption, stamp)]
        && r.value.value == Revise(prior, selectedOption, IsCorrectAgainst(questions, questionId, selectedOption),
                                   updatedAt, stamp)
        && Find(allAnswers, ForPair(user.value.id, questionId)) == r.value
        && allAnswers == ReplaceWhere(old(allAnswers), AnswerHasId(prior.id), r.value.value)
        && userAnswers == ReplaceWhere(old(userAnswers), AnswerHasId(prior.id), r.value.value)
    {
      if user.None? {
        return Threw(Unauthenticated);
      }
      var updated := ReviseAnswer(questionId, selectedOption, updatedAt, stamp);
      r := Returned(updated);
    }

    /** getAnswerForQuestion: nothing without a user; otherwise the user's
        answer to the question, looked up in the mirror only. */
    function GetAnswerForQuestion(questionId: string): (r: Option<Answer>)
      reads this, store
      ensures user.None? ==> r.None?
      ensures Valid() && user.Some? ==>
        (r.None? <==> forall i :: 0 <= i < |allAnswers| ==>
                        !(allAnswers[i].userId == user.value.id && allAnswers[i].questionId == questionId))
      ensures Valid() && r.Some? ==>
        r.value in allAnswers && PairOf(r.value) == (user.value.id, questionId)
    {
      if user.None? then None else Find(userAnswers, ForQuestion(questionId))
    }
  }
}
