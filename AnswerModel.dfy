/** The Answer schema (models/Answer.ts). */
module AnswerModel {
  import opened Wrappers
  import opened Records
  import Seqs
  import Votes
  import CommentModel

  /** A stored answer. The client's view of an answer (components/comments-section.tsx) is the
      same record as the route returns it. */
  datatype Answer = Answer(
    id: Id,
    content: Option<string>,
    author: Option<Id>,
    replies: seq<Id>,
    question: Option<Id>,
    upvotes: seq<Id>,
    downvotes: seq<Id>,
    accepted: bool,
    createdAt: int)

  /** `content`, `author` and `question` are required. */
  predicate Valid(a: Answer) {
    Present(a.content) && a.author.Some? && a.question.Some?
  }

  /** An answer as the schema's defaults complete it: not accepted, no replies, no votes. */
  function Create(id: Id, content: Option<string>, author: Option<Id>, question: Option<Id>, now: int): (a: Answer)
    ensures !a.accepted && a.replies == [] && a.upvotes == [] && a.downvotes == []
    ensures a.content == content && a.author == author && a.question == question && a.createdAt == now
    ensures Valid(a) <==> Present(content) && author.Some? && question.Some?
  {
    Answer(id, content, author, [], question, [], [], false, now)
  }

  /** The `voteCount` virtual. */
  function VoteCount(a: Answer): (n: int)
    ensures n > 0 <==> |a.upvotes| > |a.downvotes|
    ensures n < 0 <==> |a.upvotes| < |a.downvotes|
    ensures a.upvotes == [] && a.downvotes == [] ==> n == 0
  {
    Votes.Tally(a.upvotes, a.downvotes)
  }

  /** The `comments` virtual: the comments whose `answer` field is this answer's id. */
  function Comments(a: Answer, comments: seq<CommentModel.Comment>): (r: seq<CommentModel.Comment>)
    ensures forall i :: 0 <= i < |r| ==> r[i] in comments && r[i].answer == Some(a.id)
    ensures forall i :: 0 <= i < |comments| && comments[i].answer == Some(a.id) ==> comments[i] in r
  {
    var keep := (c: CommentModel.Comment) => c.answer == Some(a.id);
    Seqs.FilterMembers(comments, keep);
    Seqs.Filter(comments, keep)
  }
}
