/** The Question schema (models/Question.ts). */
module QuestionModel {
  import opened Wrappers
  import opened Records
  import Seqs
  import Votes
  import AnswerModel
  import CommentModel

  const MaxTitleLength := 200

  /** A stored question. */
  datatype Question = Question(
    id: Id,
    title: Option<string>,
    content: Option<string>,
    tags: seq<string>,
    author: Option<Id>,
    upvotes: seq<Id>,
    downvotes: seq<Id>,
    views: int,
    images: seq<string>,
    createdAt: int)

  /** The schema's validators: a title of at most 200 characters, content and author are required,
      and each tag element is a required String. An empty tag list passes. */
  predicate Valid(q: Question) {
    && Present(q.title) && |q.title.value| <= MaxTitleLength
    && Present(q.content)
    && (forall i :: 0 <= i < |q.tags| ==> q.tags[i] != "")
    && q.author.Some?
  }

  /** A question as the schema's defaults complete it: no votes and no views. */
  function Create(id: Id, title: Option<string>, content: Option<string>, tags: seq<string>,
                  author: Option<Id>, images: seq<string>, now: int): (q: Question)
    ensures q.id == id && q.createdAt == now
    ensures q.views == 0 && q.upvotes == [] && q.downvotes == []
    ensures q.title == title && q.content == content && q.tags == tags && q.author == author && q.images == images
    ensures Valid(q) <==> Present(title) && |title.value| <= MaxTitleLength && Present(content)
                          && (forall i :: 0 <= i < |tags| ==> tags[i] != "") && author.Some?
  {
    Question(id, title, content, tags, author, [], [], 0, images, now)
  }

  /** The `voteCount` virtual. */
  function VoteCount(q: Question): (n: int)
    ensures n > 0 <==> |q.upvotes| > |q.downvotes|
    ensures n < 0 <==> |q.upvotes| < |q.downvotes|
    ensures q.upvotes == [] && q.downvotes == [] ==> n == 0
  {
    Votes.Tally(q.upvotes, q.downvotes)
  }

  /** The answers that refer to question `questionId`, in store order. */
  function AnswersOf(questionId: Id, answers: seq<AnswerModel.Answer>): (r: seq<AnswerModel.Answer>)
    ensures forall i :: 0 <= i < |r| ==> r[i] in answers && r[i].question == Some(questionId)
    ensures forall i :: 0 <= i < |answers| && answers[i].question == Some(questionId) ==> answers[i] in r
  {
    var keep := (a: AnswerModel.Answer) => a.question == Some(questionId);
    Seqs.FilterMembers(answers, keep);
    Seqs.Filter(answers, keep)
  }

  /** The `answers` count virtual: zero exactly when no stored answer refers to the question. */
  function AnswerCount(q: Question, answers: seq<AnswerModel.Answer>): (n: nat)
    ensures n <= |answers|
    ensures n == 0 <==> forall i :: 0 <= i < |answers| ==> answers[i].question != Some(q.id)
  {
    var r := AnswersOf(q.id, answers);
    assert r != [] ==> r[0] in answers;
    |r|
  }

  /** Storing one more answer raises the count of its own question by one and leaves every
      other question's count alone. */
  lemma AnswerCountAfterInsert(q: Question, answers: seq<AnswerModel.Answer>, a: AnswerModel.Answer)
    ensures AnswerCount(q, answers + [a]) == AnswerCount(q, answers) + if a.question == Some(q.id) then 1 else 0
  {
    Seqs.FilterAppend(answers, [a], (x: AnswerModel.Answer) => x.question == Some(q.id));
  }

  /** The `comments` virtual. */
  function Comments(q: Question, comments: seq<CommentModel.Comment>): (r: seq<CommentModel.Comment>)
    ensures forall i :: 0 <= i < |r| ==> r[i] in comments && r[i].question == Some(q.id)
    ensures forall i :: 0 <= i < |comments| && comments[i].question == Some(q.id) ==> comments[i] in r
  {
    var keep := (c: CommentModel.Comment) => c.question == Some(q.id);
    Seqs.FilterMembers(comments, keep);
    Seqs.Filter(comments, keep)
  }
}
