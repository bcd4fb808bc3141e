/** Questions and their answers (QnaService): the two tables, the three
    guarded updates on them and the read-only queries, as functions of the
    tables, with the properties the service keeps. */
module QnaSpec {
  import opened Common

  datatype Question = Question(userId: Id, title: string, content: string, isAnswered: bool, createdAt: nat)

  datatype Answer = Answer(questionId: Id, userId: Id, content: string, createdAt: nat)

  /** The exceptions QnaService throws, one per message. */
  datatype QnaError =
    | UserNotFound      // "사용자를 찾을 수 없습니다."
    | QuestionNotFound  // "질문을 찾을 수 없습니다."
    | NotAuthor         // "본인이 작성한 질문만 삭제할 수 있습니다."
    | AdminOnly         // "관리자만 답변을 작성할 수 있습니다."
    | AlreadyAnswered   // "이미 답변이 등록된 질문입니다."
    | InvalidPage       // thrown by PageRequest.of

  /** The question and answer tables, the next keys their sequences hand
      out and the clock that stamps `createdAt`. */
  datatype Tables = Tables(
    questions: map<Id, Question>,
    answers: map<Id, Answer>,
    nextQuestionId: nat,
    nextAnswerId: nat,
    clock: nat)

  const Empty := Tables(map[], map[], 0, 0, 0)

  /** `answerRepository.existsByQuestionId(q)`. */
  predicate HasAnswer(answers: map<Id, Answer>, q: Id) {
    exists a :: a in answers && answers[a].questionId == q
  }

  /** The answer table without the answers to question `q`. */
  function WithoutAnswersTo(answers: map<Id, Answer>, q: Id): map<Id, Answer> {
    map a | a in answers && answers[a].questionId != q :: answers[a]
  }

  /** What every reachable pair of tables satisfies. */
  ghost predicate Consistent(t: Tables) {
    // keys come from the sequences, timestamps from the clock
    && (forall q :: q in t.questions ==> q < t.nextQuestionId && t.questions[q].createdAt < t.clock)
    && (forall a :: a in t.answers ==> a < t.nextAnswerId)
    // a later key is a later question
    && (forall q1, q2 :: q1 in t.questions && q2 in t.questions && q1 < q2 ==>
          t.questions[q1].createdAt < t.questions[q2].createdAt)
    // every answer belongs to an existing question, and to no other answer's question
    && (forall a :: a in t.answers ==> t.answers[a].questionId in t.questions)
    && (forall a1, a2 ::
          a1 in t.answers && a2 in t.answers && t.answers[a1].questionId == t.answers[a2].questionId
          ==> a1 == a2)
    // the answered flag mirrors the answer table
    && (forall q :: q in t.questions ==> (t.questions[q].isAnswered <==> HasAnswer(t.answers, q)))
  }

  lemma EmptyConsistent()
    ensures Consistent(Empty)
  {
  }

  // ---------------------------------------------------------------------
  // Updates. Each returns the new tables and what the service returns or throws.

  /** `createQuestion(requestDTO, userId)`. */
  function CreateQuestion(t: Tables, users: map<Id, User>, title: string, content: string, userId: Id)
    : (r: (Tables, Result<Id, QnaError>))
  {
    if userId !in users then (t, Err(UserNotFound))
    else
      var id := t.nextQuestionId;
      (t.(questions := t.questions[id := Question(userId, title, content, false, t.clock)],
          nextQuestionId := id + 1,
          clock := t.clock + 1),
       Ok(id))
  }

  /** `deleteQuestion(id, userId)`: the owner's delete also removes the answer. */
  function DeleteQuestion(t: Tables, id: Id, userId: Id): (r: (Tables, Result<(), QnaError>)) {
    if id !in t.questions then (t, Err(QuestionNotFound))
    else if t.questions[id].userId != userId then (t, Err(NotAuthor))
    else (t.(questions := t.questions - {id}, answers := WithoutAnswersTo(t.answers, id)), Ok(()))
  }

  /** `createAnswer(questionId, requestDTO, userId)`: checks, in order, that
      the user exists, is an admin, the question exists and has no answer. */
  function CreateAnswer(t: Tables, users: map<Id, User>, questionId: Id, content: string, userId: Id)
    : (r: (Tables, Result<Id, QnaError>))
  {
    if userId !in users then (t, Err(UserNotFound))
    else if users[userId].role != ADMIN_ROLE then (t, Err(AdminOnly))
    else if questionId !in t.questions then (t, Err(QuestionNotFound))
    else if HasAnswer(t.answers, questionId) then (t, Err(AlreadyAnswered))
    else
      var aid := t.nextAnswerId;
      (t.(answers := t.answers[aid := Answer(questionId, userId, content, t.clock)],
          questions := t.questions[questionId := t.questions[questionId].(isAnswered := true)],
          nextAnswerId := aid + 1,
          clock := t.clock + 1),
       Ok(aid))
  }

  // ---------------------------------------------------------------------
  // Read-only queries.

  /** `getMyQuestions(userId)`: `findByUserIdOrderByCreatedAtDesc`. */
  function MyQuestions(t: Tables, userId: Id): seq<Id> {
    Select(t.questions, (q: Question) => q.userId == userId, t.nextQuestionId)
  }

  /** `findByTitleContainingOrContentContainingOrderByCreatedAtDesc(keyword, keyword)`. */
  function Matching(t: Tables, keyword: string): seq<Id> {
    Select(t.questions, (q: Question) => Contains(q.title, keyword) || Contains(q.content, keyword), t.nextQuestionId)
  }

  /** `searchQuestions(keyword, page, size)`. */
  function SearchQuestions(t: Tables, keyword: string, page: int, size: int): (r: Result<seq<Id>, QnaError>)
    ensures r.Err? <==> page < 0 || size < 1
    ensures r.Ok? ==> forall k :: k in r.value ==>
      k in t.questions && (Contains(t.questions[k].title, keyword) || Contains(t.questions[k].content, keyword))
  {
    match Paged(Matching(t, keyword), page, size)
    case None => Err(InvalidPage)
    case Some(p) => Ok(p)
  }

  /** `getQuestions(page, size)`: `findAllByOrderByCreatedAtDesc`. */
  function Questions(t: Tables, page: int, size: int): (r: Result<seq<Id>, QnaError>)
    ensures r.Err? <==> page < 0 || size < 1
    ensures r.Ok? ==> forall k :: k in r.value ==> k in t.questions
  {
    match Paged(Select(t.questions, (q: Question) => true, t.nextQuestionId), page, size)
    case None => Err(InvalidPage)
    case Some(p) => Ok(p)
  }

  /** `getQuestionById(id)`: the question with its answer, if any. */
  function QuestionById(t: Tables, id: Id): (r: Result<(Question, Option<Answer>), QnaError>)
    ensures r.Err? <==> id !in t.questions
    ensures r.Ok? ==> r.value.0 == t.questions[id]
    ensures r.Ok? && r.value.1.Some? ==> r.value.1.value in t.answers.Values && r.value.1.value.questionId == id
  {
    if id !in t.questions then Err(QuestionNotFound)
    else
      var found := Select(t.answers, (a: Answer) => a.questionId == id, t.nextAnswerId);
      if found == [] then Ok((t.questions[id], None))
      else
        assert found[0] in found;
        Ok((t.questions[id], Some(t.answers[found[0]])))
  }

  // ---------------------------------------------------------------------
  // Properties.

  /** A failed update leaves both tables as they were. */
  lemma FailuresChangeNothing(t: Tables, users: map<Id, User>, id: Id, content: string, title: string, userId: Id)
    ensures CreateQuestion(t, users, title, content, userId).1.Err? ==> CreateQuestion(t, users, title, content, userId).0 == t
    ensures DeleteQuestion(t, id, userId).1.Err? ==> DeleteQuestion(t, id, userId).0 == t
    ensures CreateAnswer(t, users, id, content, userId).1.Err? ==> CreateAnswer(t, users, id, content, userId).0 == t
  {
  }

  /** Creating a question needs a known user; success adds exactly one new,
      unanswered question owned by the caller and touches nothing else. */
  lemma CreateQuestionEffect(t: Tables, users: map<Id, User>, title: string, content: string, userId: Id)
    requires Consistent(t)
    ensures var (t', r) := CreateQuestion(t, users, title, content, userId);
      && (r.Err? <==> userId !in users)
      && (r.Err? ==> r.error == UserNotFound)
      && (r.Ok? ==>
            && r.value !in t.questions
            && t'.questions.Keys == t.questions.Keys + {r.value}
            && t'.questions[r.value].userId == userId
            && !t'.questions[r.value].isAnswered
            && t'.questions[r.value].title == title && t'.questions[r.value].content == content
            && (forall q :: q in t.questions ==> t'.questions[q] == t.questions[q])
            && t'.answers == t.answers)
  {
  }

  /** Only the author deletes a question; the delete removes every answer to
      it and leaves every other question and answer alone. */
  lemma DeleteQuestionEffect(t: Tables, id: Id, userId: Id)
    requires Consistent(t)
    ensures var (t', r) := DeleteQuestion(t, id, userId);
      && (r.Ok? <==> id in t.questions && t.questions[id].userId == userId)
      && (id !in t.questions ==> r == Err(QuestionNotFound))
      && (id in t.questions && t.questions[id].userId != userId ==> r == Err(NotAuthor))
      && (r.Ok? ==>
            && t'.questions.Keys == t.questions.Keys - {id}
            && (forall q :: q in t'.questions ==> t'.questions[q] == t.questions[q])
            && !HasAnswer(t'.answers, id)
            && (forall a :: a in t.answers && t.answers[a].questionId == id ==> a !in t'.answers)
            && (forall a :: a in t.answers && t.answers[a].questionId != id ==>
                  a in t'.answers && t'.answers[a] == t.answers[a])
            && (forall a :: a in t'.answers ==> a in t.answers))
  {
  }

  /** Only an admin answers, whoever owns the question, and only once per
      question; success stores one answer by that admin with the given
      content, keeps every existing answer, and raises the question's
      answered flag without touching its other fields; nothing else changes. */
  lemma CreateAnswerEffect(t: Tables, users: map<Id, User>, questionId: Id, content: string, userId: Id)
    requires Consistent(t)
    ensures var (t', r) := CreateAnswer(t, users, questionId, content, userId);
      && (userId !in users ==> r == Err(UserNotFound))
      && (userId in users && users[userId].role != ADMIN_ROLE ==> r == Err(AdminOnly))
      && (userId in users && users[userId].role == ADMIN_ROLE && questionId !in t.questions ==>
            r == Err(QuestionNotFound))
      && (userId in users && users[userId].role == ADMIN_ROLE && questionId in t.questions &&
          t.questions[questionId].isAnswered
          ==> r == Err(AlreadyAnswered))
      && (r.Ok? <==> userId in users && users[userId].role == ADMIN_ROLE &&
                     questionId in t.questions && !t.questions[questionId].isAnswered)
      && (r.Ok? ==>
            && r.value !in t.answers
            && t'.answers.Keys == t.answers.Keys + {r.value}
            && t'.answers[r.value].questionId == questionId
            && t'.answers[r.value].userId == userId
            && t'.answers[r.value].content == content
            && (forall a :: a in t.answers ==> t'.answers[a] == t.answers[a])
            && t'.questions.Keys == t.questions.Keys
            && t'.questions[questionId] == t.questions[questionId].(isAnswered := true)
            && (forall q :: q in t.questions && q != questionId ==> t'.questions[q] == t.questions[q]))
  {
  }

  /** Reading a question shows an answer exactly when one is stored for it. */
  lemma QuestionByIdShowsAnswer(t: Tables, id: Id)
    requires Consistent(t)
    ensures QuestionById(t, id).Ok? ==> (QuestionById(t, id).value.1.Some? <==> HasAnswer(t.answers, id))
  {
    if id in t.questions && HasAnswer(t.answers, id) {
      var k :| k in t.answers && t.answers[k].questionId == id;
      assert k in Select(t.answers, (a: Answer) => a.questionId == id, t.nextAnswerId);
    }
  }

  /** A second answer to the same question is refused. */
  lemma AnswerOnlyOnce(t: Tables, users: map<Id, User>, questionId: Id, c1: string, c2: string, u1: Id, u2: Id)
    requires Consistent(t)
    requires CreateAnswer(t, users, questionId, c1, u1).1.Ok?
    ensures var t' := CreateAnswer(t, users, questionId, c1, u1).0;
      CreateAnswer(t', users, questionId, c2, u2).1.Err? &&
      (u2 in users && users[u2].role == ADMIN_ROLE ==> CreateAnswer(t', users, questionId, c2, u2).1 == Err(AlreadyAnswered))
  {
    var t' := CreateAnswer(t, users, questionId, c1, u1).0;
    assert t'.answers[t.nextAnswerId].questionId == questionId;
  }

  /** The three updates keep the tables consistent; in particular "the
      question is marked answered exactly when an answer row exists". */
  lemma CreateQuestionConsistent(t: Tables, users: map<Id, User>, title: string, content: string, userId: Id)
    requires Consistent(t)
    ensures Consistent(CreateQuestion(t, users, title, content, userId).0)
  {
    var t' := CreateQuestion(t, users, title, content, userId).0;
    if userId in users {
      forall q | q in t'.questions
        ensures t'.questions[q].isAnswered <==> HasAnswer(t'.answers, q)
      {
        if q == t.nextQuestionId {
          assert !HasAnswer(t.answers, q);
        }
      }
    }
  }

  lemma DeleteQuestionConsistent(t: Tables, id: Id, userId: Id)
    requires Consistent(t)
    ensures Consistent(DeleteQuestion(t, id, userId).0)
  {
    var (t', r) := DeleteQuestion(t, id, userId);
    if r.Ok? {
      forall q | q in t'.questions
        ensures t'.questions[q].isAnswered <==> HasAnswer(t'.answers, q)
      {
        if HasAnswer(t.answers, q) {
          var a :| a in t.answers && t.answers[a].questionId == q;
          assert a in t'.answers;
        }
      }
    }
  }

  lemma CreateAnswerConsistent(t: Tables, users: map<Id, User>, questionId: Id, content: string, userId: Id)
    requires Consistent(t)
    ensures Consistent(CreateAnswer(t, users, questionId, content, userId).0)
  {
    var (t', r) := CreateAnswer(t, users, questionId, content, userId);
    if r.Ok? {
      var aid := t.nextAnswerId;
      assert t'.answers[aid].questionId == questionId;
      forall q | q in t'.questions
        ensures t'.questions[q].isAnswered <==> HasAnswer(t'.answers, q)
      {
        if HasAnswer(t.answers, q) {
          var a :| a in t.answers && t.answers[a].questionId == q;
          assert a in t'.answers && t'.answers[a].questionId == q;
        }
        if q == questionId {
          assert aid in t'.answers;
        } else if HasAnswer(t'.answers, q) {
          var a :| a in t'.answers && t'.answers[a].questionId == q;
          assert a != aid && a in t.answers;
        }
      }
    }
  }

  /** `getMyQuestions` lists exactly the caller's questions, newest first. */
  lemma MyQuestionsSpec(t: Tables, userId: Id)
    requires Consistent(t)
    ensures var r := MyQuestions(t, userId);
      && (forall q :: q in r <==> q in t.questions && t.questions[q].userId == userId)
      && (forall i, j :: 0 <= i < j < |r| ==> t.questions[r[i]].createdAt > t.questions[r[j]].createdAt)
  {
    var r := MyQuestions(t, userId);
    forall i, j | 0 <= i < j < |r|
      ensures t.questions[r[i]].createdAt > t.questions[r[j]].createdAt
    {
      assert r[i] in r && r[j] in r;
    }
  }

  /** The search lists exactly the questions whose title or content contains
      the keyword, newest first. */
  lemma MatchingSpec(t: Tables, keyword: string)
    requires Consistent(t)
    ensures var r := Matching(t, keyword);
      && (forall q :: q in r <==>
            q in t.questions && (Contains(t.questions[q].title, keyword) || Contains(t.questions[q].content, keyword)))
      && (forall i, j :: 0 <= i < j < |r| ==> t.questions[r[i]].createdAt > t.questions[r[j]].createdAt)
  {
    var r := Matching(t, keyword);
    forall i, j | 0 <= i < j < |r|
      ensures t.questions[r[i]].createdAt > t.questions[r[j]].createdAt
    {
      assert r[i] in r && r[j] in r;
    }
  }

  /** The question read back by id after an answer carries that answer. */
  lemma AnsweredQuestionShowsAnswer(t: Tables, users: map<Id, User>, questionId: Id, content: string, userId: Id)
    requires Consistent(t)
    requires CreateAnswer(t, users, questionId, content, userId).1.Ok?
    ensures var t' := CreateAnswer(t, users, questionId, content, userId).0;
      var r := QuestionById(t', questionId);
      r.Ok? && r.value.0.isAnswered && r.value.1 == Some(Answer(questionId, userId, content, t.clock))
  {
    var t' := CreateAnswer(t, users, questionId, content, userId).0;
    CreateAnswerConsistent(t, users, questionId, content, userId);
    var aid := t.nextAnswerId;
    var found := Select(t'.answers, (a: Answer) => a.questionId == questionId, t'.nextAnswerId);
    assert aid in found;
    assert found[0] in found;
  }
}

/** The service object: the tables are its fields, and each update is a
    method that checks and then writes, as QnaService does. */
module QnaService {
  import opened Common
  import opened QnaSpec

  class QnaService {
    var questions: map<Id, Question>
    var answers: map<Id, Answer>
    var nextQuestionId: nat
    var nextAnswerId: nat
    var clock: nat

    function Current(): Tables
      reads this
    {
      Tables(questions, answers, nextQuestionId, nextAnswerId, clock)
    }

    ghost predicate Valid()
      reads this
    {
      Consistent(Current())
    }

    constructor ()
      ensures Valid() && Current() == QnaSpec.Empty
    {
      questions, answers := map[], map[];
      nextQuestionId, nextAnswerId, clock := 0, 0, 0;
    }

    method CreateQuestion(users: map<Id, User>, title: string, content: string, userId: Id)
      returns (r: Result<Id, QnaError>)
      requires Valid()
      modifies this
      ensures Valid()
      ensures (Current(), r) == QnaSpec.CreateQuestion(old(Current()), users, title, content, userId)
    {
      CreateQuestionConsistent(Current(), users, title, content, userId);
      if userId !in users {
        return Err(UserNotFound);
      }
      var question := Question(userId, title, content, false, clock);
      var id := nextQuestionId;
      questions := questions[id := question];
      nextQuestionId, clock := id + 1, clock + 1;
      r := Ok(id);
    }

    method DeleteQuestion(id: Id, userId: Id) returns (r: Result<(), QnaError>)
      requires Valid()
      modifies this
      ensures Valid()
      ensures (Current(), r) == QnaSpec.DeleteQuestion(old(Current()), id, userId)
    {
      DeleteQuestionConsistent(Current(), id, userId);
      if id !in questions {
        return Err(QuestionNotFound);
      }
      if questions[id].userId != userId {
        return Err(NotAuthor);
      }
      answers := WithoutAnswersTo(answers, id);
      questions := questions - {id};
      r := Ok(());
    }

    method CreateAnswer(users: map<Id, User>, questionId: Id, content: string, userId: Id)
      returns (r: Result<Id, QnaError>)
      requires Valid()
      modifies this
      ensures Valid()
      ensures (Current(), r) == QnaSpec.CreateAnswer(old(Current()), users, questionId, content, userId)
    {
      CreateAnswerConsistent(Current(), users, questionId, content, userId);
      if userId !in users {
        return Err(UserNotFound);
      }
      var user := users[userId];
      if user.role != ADMIN_ROLE {
        return Err(AdminOnly);
      }
      if questionId !in questions {
        return Err(QuestionNotFound);
      }
      var question := questions[questionId];
      if HasAnswer(answers, questionId) {
        return Err(AlreadyAnswered);
      }
      var aid := nextAnswerId;
      answers := answers[aid := Answer(questionId, userId, content, clock)];
      nextAnswerId, clock := aid + 1, clock + 1;
      question := question.(isAnswered := true);
      questions := questions[questionId := question];
      r := Ok(aid);
    }
  }
}
