/** The derived count shared by the votable schemas: Question and Answer `voteCount`,
    Comment `likeCount`. */
module Votes {
  import opened Records

  /** `upvotes.length - downvotes.length`: its sign says which list is longer. */
  function Tally(up: seq<Id>, down: seq<Id>): (n: int)
    ensures n > 0 <==> |up| > |down|
    ensures n == 0 <==> |up| == |down|
    ensures n < 0 <==> |up| < |down|
  {
    |up| - |down|
  }
}
