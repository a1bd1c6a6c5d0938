/** The answers panel under a question (components/comments-section.tsx, component
    `AnswersSection`): loading the answers, posting one, and folding a vote's reply into the list. */
module AnswersSection {
  import opened Wrappers
  import opened Records
  import Seqs
  import Text
  import AnswerModel
  import AnswersRoute
  import AuthRedirect
  import VoteButtons

  type Answer = AnswerModel.Answer

  /** `answers.map(a => a.id === answerId ? updated : a)`. */
  function ReplaceById(answers: seq<Answer>, answerId: Id, updated: Answer): (r: seq<Answer>)
    ensures |r| == |answers|
    ensures forall k :: 0 <= k < |r| ==> r[k] == if answers[k].id == answerId then updated else answers[k]
  {
    seq(|answers|, k requires 0 <= k < |answers| => if answers[k].id == answerId then updated else answers[k])
  }

  /** An id nobody in the list has leaves the list as it is. */
  lemma ReplaceAbsentId(answers: seq<Answer>, answerId: Id, updated: Answer)
    requires forall k :: 0 <= k < |answers| ==> answers[k].id != answerId
    ensures ReplaceById(answers, answerId, updated) == answers
  {
  }

  /** Folding the same reply in twice is folding it in once. */
  lemma ReplaceIdempotent(answers: seq<Answer>, answerId: Id, updated: Answer)
    ensures var once := ReplaceById(answers, answerId, updated);
            ReplaceById(once, answerId, updated) == once
  {
  }

  /** The answers other than the voted one are the same answers in the same order; and when the
      reply is that same answer, the ids keep their places. */
  lemma ReplaceKeepsOthers(answers: seq<Answer>, answerId: Id, updated: Answer)
    requires updated.id == answerId
    ensures var r := ReplaceById(answers, answerId, updated);
            Seqs.Filter(r, (a: Answer) => a.id != answerId) == Seqs.Filter(answers, (a: Answer) => a.id != answerId)
    ensures var r := ReplaceById(answers, answerId, updated);
            forall k :: 0 <= k < |r| ==> r[k].id == answers[k].id
  {
    var r := ReplaceById(answers, answerId, updated);
    Seqs.FilterAgrees(r, answers, (a: Answer) => a.id != answerId);
  }

  const PostFailed := "Failed to add your answer. Please try again."

  /** A new answer's request: the path posted to and the JSON body. */
  datatype AnswerPost = AnswerPost(path: string, body: AnswersRoute.AnswerBody)

  /** The path `handleAddAnswer` posts to as written: `/api/answers${questionId}`, with no slash
      between the route and the id. */
  function PostPathAsWritten(questionId: Id): string {
    AnswersRoute.CollectionPath + questionId
  }

  /** The path as written is neither the answers route nor any path under it, for every id that
      does not itself start with a slash (a Mongo id does not): the post reaches no answer route.
      (For example the id "q1" gives "/api/answersq1".) */
  lemma PostPathAsWrittenMissesRoutes(questionId: Id)
    requires questionId != "" && questionId[0] != '/'
    ensures PostPathAsWritten(questionId) != AnswersRoute.CollectionPath
    ensures !(AnswersRoute.CollectionPath + "/" <= PostPathAsWritten(questionId))
  {
    var p := PostPathAsWritten(questionId);
    assert |p| > |AnswersRoute.CollectionPath|;
    assert p[|AnswersRoute.CollectionPath|] == questionId[0];
    assert (AnswersRoute.CollectionPath + "/")[|AnswersRoute.CollectionPath|] == '/';
  }

  /** The panel's state for the question `questionId`. */
  class Panel {
    const questionId: Id
    var isOpen: bool
    var newAnswer: string
    var answers: seq<Answer>
    var isSubmitting: bool
    var loadingAnswers: bool

    constructor (questionId: Id)
      ensures this.questionId == questionId
      ensures !isOpen && newAnswer == "" && answers == [] && !isSubmitting && !loadingAnswers
    {
      this.questionId := questionId;
      isOpen, newAnswer, answers, isSubmitting, loadingAnswers := false, "", [], false, false;
    }

    /** The header button: opening the panel starts a fetch of the answers; closing does not. */
    method Toggle() returns (fetch: bool)
      modifies this`isOpen
      ensures isOpen == !old(isOpen) && fetch == isOpen
    {
      isOpen := !isOpen;
      fetch := isOpen;
    }

    /** `fetchAnswers` as one step: the list becomes the reply's answers; a failed request keeps
        the list. Either way the panel stops loading. */
    method FetchAnswers(reply: Option<seq<Answer>>)
      modifies this`answers, this`loadingAnswers
      ensures answers == if reply.Some? then reply.value else old(answers)
      ensures !loadingAnswers
    {
      loadingAnswers := true;
      if reply.Some? {
        answers := reply.value;
      }
      loadingAnswers := false;
    }

    /** `handleAddAnswer` as one step, with the post going to the answers route itself rather
        than to `PostPathAsWritten`: without authentication or with blank text nothing changes and
        nothing is sent; otherwise the typed text is posted, a stored answer is appended at the
        end and the input clears, and a failed post keeps both. The panel is not submitting
        afterwards. */
    method AddAnswer(status: AuthRedirect.Status, session: Option<AuthRedirect.Session>, reply: Option<Answer>)
      returns (request: Option<AnswerPost>)
      modifies this`answers, this`newAnswer, this`isSubmitting
      ensures !AuthRedirect.RequireAuth(status, session) || Text.IsBlank(old(newAnswer)) ==>
        && request == None
        && answers == old(answers) && newAnswer == old(newAnswer) && isSubmitting == old(isSubmitting)
      ensures AuthRedirect.RequireAuth(status, session) && !Text.IsBlank(old(newAnswer)) ==>
        && request == Some(AnswerPost(AnswersRoute.CollectionPath, AnswersRoute.AnswerBody(Some(old(newAnswer)), Some(questionId))))
        && !isSubmitting
        && (reply.Some? ==> answers == old(answers) + [reply.value] && newAnswer == ""
                            && |answers| == |old(answers)| + 1)
        && (reply.None? ==> answers == old(answers) && newAnswer == old(newAnswer))
    {
      if !AuthRedirect.RequireAuth(status, session) {
        return None;
      }
      if Text.IsBlank(newAnswer) {
        return None;
      }
      isSubmitting := true;
      request := Some(AnswerPost(AnswersRoute.CollectionPath, AnswersRoute.AnswerBody(Some(newAnswer), Some(questionId))));
      if reply.Some? {
        answers := answers + [reply.value];
        newAnswer := "";
      }
      isSubmitting := false;
    }

    /** `handleVote` as one step: without authentication nothing is sent; otherwise the vote
        route of `answerId` is posted the clicked direction and the answer it returns replaces the
        one with that id. */
    method Vote(answerId: Id, direction: VoteButtons.Direction, status: AuthRedirect.Status,
                session: Option<AuthRedirect.Session>, reply: Option<Answer>)
      returns (request: Option<VoteButtons.VoteRequest>)
      modifies this`answers
      ensures !AuthRedirect.RequireAuth(status, session) ==> request == None && answers == old(answers)
      ensures AuthRedirect.RequireAuth(status, session) ==>
        && request == Some(VoteButtons.VoteRequest(VoteButtons.Endpoint(VoteButtons.AnswerItem, answerId), direction))
        && answers == (if reply.Some? then ReplaceById(old(answers), answerId, reply.value) else old(answers))
        && |answers| == |old(answers)|
    {
      if !AuthRedirect.RequireAuth(status, session) {
        return None;
      }
      request := Some(VoteButtons.VoteRequest(VoteButtons.Endpoint(VoteButtons.AnswerItem, answerId), direction));
      if reply.Some? {
        answers := ReplaceById(answers, answerId, reply.value);
      }
    }
  }

  /** A non-blank answer the panel posts passes the route's field check, so a signed-in user's
      post is stored under this question. */
  lemma PostedAnswerAccepted(user: Id, text: string, questionId: Id, newId: Id, now: int)
    requires !Text.IsBlank(text) && questionId != ""
    ensures var r := AnswersRoute.Post(Some(user), AnswersRoute.AnswerBody(Some(text), Some(questionId)), newId, now);
            r.Created? && r.answer.question == Some(questionId) && r.answer.content == Some(text)
  {
    assert text != [];
  }
}
