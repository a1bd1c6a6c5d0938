/** The Comment schema (models/Comment.ts). */
module CommentModel {
  import opened Wrappers
  import opened Records
  import Votes

  /** A stored comment; `question` and `answer` are independent optional references. */
  datatype Comment = Comment(
    id: Id,
    content: Option<string>,
    author: Option<Id>,
    question: Option<Id>,
    answer: Option<Id>,
    likes: seq<Id>,
    dislikes: seq<Id>,
    createdAt: int)

  /** The schema's validators: `content` and `author` are required, nothing else is. */
  predicate Valid(c: Comment) {
    Present(c.content) && c.author.Some?
  }

  /** The `likeCount` virtual. */
  function LikeCount(c: Comment): (n: int)
    ensures n > 0 <==> |c.likes| > |c.dislikes|
    ensures n < 0 <==> |c.likes| < |c.dislikes|
    ensures c.likes == [] && c.dislikes == [] ==> n == 0
  {
    Votes.Tally(c.likes, c.dislikes)
  }

  /** The schema neither requires a parent reference nor limits a comment to one, and it
      does not relate the like and dislike lists: validity ignores all four fields. */
  lemma ValidityIgnoresParentsAndReactions(c: Comment, question: Option<Id>, answer: Option<Id>, likes: seq<Id>, dislikes: seq<Id>)
    ensures Valid(c) <==> Valid(c.(question := question, answer := answer, likes := likes, dislikes := dislikes))
  {
  }
}
