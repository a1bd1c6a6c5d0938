/** The Reply schema (models/Reply.ts). */
module ReplyModel {
  import opened Wrappers
  import opened Records
  import Seqs
  import Votes

  /** A stored reply. There is no parent-reply field: a reply refers to its answer only.
      `voteCount` is a stored number, not a getter over the vote lists. */
  datatype Reply = Reply(
    id: Id,
    content: Option<string>,
    author: Option<Id>,
    answer: Option<Id>,
    upvotes: seq<Id>,
    downvotes: seq<Id>,
    voteCount: int,
    createdAt: int)

  /** `content`, `author` and `answer` are required. */
  predicate Valid(r: Reply) {
    Present(r.content) && r.author.Some? && r.answer.Some?
  }

  /** A reply as the schema's defaults complete it: no votes, `voteCount` 0, `createdAt` now. */
  function Create(id: Id, content: Option<string>, author: Option<Id>, answer: Option<Id>, now: int): (r: Reply)
    ensures r.voteCount == 0 && r.upvotes == [] && r.downvotes == [] && r.createdAt == now
    ensures Valid(r) <==> Present(content) && author.Some? && answer.Some?
  {
    Reply(id, content, author, answer, [], [], 0, now)
  }

  /** Nothing ties the stored count to the lists: a valid reply may carry a count that differs
      from `upvotes.length - downvotes.length`. */
  lemma StoredCountIsIndependent()
    ensures exists r: Reply :: Valid(r) && r.voteCount != Votes.Tally(r.upvotes, r.downvotes)
  {
    var r := Reply("r", Some("text"), Some("u"), Some("a"), ["v"], [], 0, 0);
    assert Valid(r) && r.voteCount != Votes.Tally(r.upvotes, r.downvotes);
  }

  /** The replies that hang off answer `answerId`. */
  function Under(answerId: Id, replies: seq<Reply>): (r: seq<Reply>)
    ensures forall i :: 0 <= i < |r| ==> r[i] in replies && r[i].answer == Some(answerId)
    ensures forall i :: 0 <= i < |replies| && replies[i].answer == Some(answerId) ==> replies[i] in r
  {
    var keep := (x: Reply) => x.answer == Some(answerId);
    Seqs.FilterMembers(replies, keep);
    Seqs.Filter(replies, keep)
  }

  /** Every valid reply sits under exactly one answer: its own, and no other. */
  lemma UnderExactlyOneAnswer(r: Reply, replies: seq<Reply>, other: Id)
    requires r in replies && Valid(r)
    ensures r in Under(r.answer.value, replies)
    ensures other != r.answer.value ==> r !in Under(other, replies)
  {
    var i :| 0 <= i < |replies| && replies[i] == r;
    assert replies[i].answer == Some(r.answer.value);
  }
}
