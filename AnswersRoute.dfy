/** The answers route (app/api/answers/route.ts): POST creates an answer for the signed-in user,
    GET lists one question's answers oldest first. The store is a sequence of answers. */
module AnswersRoute {
  import opened Wrappers
  import opened Records
  import Seqs
  import AnswerModel
  import QuestionModel

  type Answer = AnswerModel.Answer

  /** The path this route serves. */
  const CollectionPath := "/api/answers"

  /** The JSON body's two fields. */
  datatype AnswerBody = AnswerBody(content: Option<string>, questionId: Option<Id>)

  /** The route's replies: 401, 400, 201 with the stored answer, 500 (the schema refused it). */
  datatype PostReply = Unauthorized | BadRequest | Created(answer: Answer) | ServerError

  /** POST: the session is checked before the body; the stored answer belongs to the session's
      user and to the question named in the body. `newId` and `now` are what the store assigns. */
  function Post(sessionUser: Option<Id>, body: AnswerBody, newId: Id, now: int): (r: PostReply)
    ensures r == Unauthorized <==> sessionUser == None
    ensures r == BadRequest <==> sessionUser.Some? && !(Present(body.content) && Present(body.questionId))
    ensures r.Created? ==>
      && AnswerModel.Valid(r.answer)
      && r.answer.author == sessionUser && r.answer.question == body.questionId
      && r.answer.content == body.content
      && !r.answer.accepted && r.answer.replies == [] && AnswerModel.VoteCount(r.answer) == 0
      && r.answer.createdAt == now
  {
    if sessionUser == None then Unauthorized
    else if !Present(body.content) || !Present(body.questionId) then BadRequest
    else
      var a := AnswerModel.Create(newId, body.content, sessionUser, body.questionId, now);
      if AnswerModel.Valid(a) then Created(a) else ServerError
  }

  /** The route's own checks are at least as strict as the schema's: a request that passes them
      is always stored. */
  lemma PostNeverRefusedBySchema(sessionUser: Option<Id>, body: AnswerBody, newId: Id, now: int)
    ensures Post(sessionUser, body, newId, now) != ServerError
    ensures Post(sessionUser, body, newId, now).Created?
            <==> sessionUser.Some? && Present(body.content) && Present(body.questionId)
  {
  }

  /** The GET replies: 400 without a `questionId`, 200 with the answers. */
  datatype GetReply = MissingQuestionId | Answers(answers: seq<Answer>)

  /** GET: the answers whose `question` is the requested id, ascending by `createdAt`. */
  function Get(store: seq<Answer>, questionId: Option<Id>): (r: GetReply)
    ensures r == MissingQuestionId <==> !Present(questionId)
    ensures r.Answers? ==>
      && Seqs.SortedBy(r.answers, (a: Answer) => a.createdAt)
      && multiset(r.answers) == multiset(QuestionModel.AnswersOf(questionId.value, store))
  {
    if !Present(questionId) then MissingQuestionId
    else Answers(Seqs.SortBy(QuestionModel.AnswersOf(questionId.value, store), (a: Answer) => a.createdAt))
  }

  /** The listing holds exactly the stored answers of the question, as many as the question's
      `answers` count says. */
  lemma GetListsExactlyTheAnswers(store: seq<Answer>, q: QuestionModel.Question)
    requires q.id != ""
    ensures Get(store, Some(q.id)).Answers?
    ensures var listed := Get(store, Some(q.id)).answers;
      && |listed| == QuestionModel.AnswerCount(q, store)
      && (forall i :: 0 <= i < |listed| ==> listed[i] in store && listed[i].question == Some(q.id))
      && (forall i :: 0 <= i < |store| && store[i].question == Some(q.id) ==> store[i] in listed)
  {
    var listed := Get(store, Some(q.id)).answers;
    var of := QuestionModel.AnswersOf(q.id, store);
    assert multiset(listed) == multiset(of);
    forall i | 0 <= i < |listed| ensures listed[i] in store && listed[i].question == Some(q.id) {
      assert listed[i] in multiset(listed);
      assert listed[i] in multiset(of);
    }
    forall i | 0 <= i < |store| && store[i].question == Some(q.id) ensures store[i] in listed {
      assert store[i] in multiset(of);
    }
  }
}
