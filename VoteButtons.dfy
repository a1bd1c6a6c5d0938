/** The vote widget (components/vote-buttons.tsx): its `votes`, `userVote` and `isVoting` state
    and the `handleVote` transition. The server's vote toggle is outside the model: its reply is an
    input of the transition. */
module VoteButtons {
  import opened Wrappers
  import opened Records
  import AuthRedirect
  import Votes

  datatype ItemType = QuestionItem | AnswerItem
  datatype Direction = Up | Down

  /** The vote route's reply as the widget sees it: `response.ok` with the body's `voteCount`,
      or a failure (a non-ok status or a thrown `fetch`). */
  datatype VoteReply = Counted(voteCount: int) | Failed

  /** The colour class the count gets. */
  datatype Tone = Positive | Negative | Neutral

  /** What a click posts: the item's vote route with the JSON body `{ voteType: direction }`. */
  datatype VoteRequest = VoteRequest(route: string, voteType: Direction)

  /** The vote route the widget posts to. */
  function Endpoint(itemType: ItemType, itemId: Id): (e: string)
    ensures "/api/" <= e && |e| >= 5 + |itemId| + 5
    ensures e[|e| - 5..] == "/vote" && e[|e| - 5 - |itemId|..|e| - 5] == itemId
  {
    match itemType
    case QuestionItem => "/api/questions/" + itemId + "/vote"
    case AnswerItem => "/api/answers/" + itemId + "/vote"
  }

  /** Distinct items post to distinct routes: the route names both the kind of item and its id. */
  lemma EndpointInjective(t1: ItemType, id1: Id, t2: ItemType, id2: Id)
    requires Endpoint(t1, id1) == Endpoint(t2, id2)
    ensures t1 == t2 && id1 == id2
  {
    var e := Endpoint(t1, id1);
    assert e[5] == Endpoint(t2, id2)[5];
    var p := if t1 == QuestionItem then |"/api/questions/"| else |"/api/answers/"|;
    assert id1 == e[p..|e| - 5];
    assert id2 == e[p..|e| - 5];
  }

  /** The user's vote after a successful click in `direction`. */
  function NextUserVote(current: Option<Direction>, direction: Direction): (r: Option<Direction>)
    ensures r == None <==> current == Some(direction)
    ensures r != None ==> r == Some(direction)
  {
    if current == Some(direction) then None else Some(direction)
  }

  function Opposite(d: Direction): Direction {
    if d == Up then Down else Up
  }

  /** Two successful clicks in the same direction restore the user's vote exactly when it was not
      the opposite direction: from the opposite vote, the first click switches and the second clears. */
  lemma ClickTwice(current: Option<Direction>, direction: Direction)
    ensures NextUserVote(NextUserVote(current, direction), direction) == current
            <==> current != Some(Opposite(direction))
    ensures current == Some(Opposite(direction)) ==> NextUserVote(NextUserVote(current, direction), direction) == None
  {
    match current
    case None =>
    case Some(d) =>
      if d != direction {
        assert d == Opposite(direction);
      }
  }

  /** The sign classification of the displayed count. */
  function ToneOf(votes: int): (t: Tone)
    ensures t == Positive <==> votes > 0
    ensures t == Negative <==> votes < 0
  {
    if votes > 0 then Positive else if votes < 0 then Negative else Neutral
  }

  /** Shown on a derived vote count, the tone says which vote list is longer. */
  lemma ToneOfTally(up: seq<Id>, down: seq<Id>)
    ensures ToneOf(Votes.Tally(up, down)) == Positive <==> |up| > |down|
    ensures ToneOf(Votes.Tally(up, down)) == Neutral <==> |up| == |down|
    ensures ToneOf(Votes.Tally(up, down)) == Negative <==> |up| < |down|
  {
  }

  /** One mounted widget. */
  class Widget {
    const itemId: Id
    const itemType: ItemType
    /** Whether the parent passed an `onVote` callback. */
    const hasOnVote: bool
    var votes: int
    var userVote: Option<Direction>
    var isVoting: bool

    constructor (initialVotes: int, itemId: Id, itemType: ItemType, hasOnVote: bool, initialUserVote: Option<Direction>)
      ensures this.itemId == itemId && this.itemType == itemType && this.hasOnVote == hasOnVote
      ensures votes == initialVotes && userVote == initialUserVote && !isVoting
    {
      this.itemId := itemId;
      this.itemType := itemType;
      this.hasOnVote := hasOnVote;
      votes := initialVotes;
      userVote := initialUserVote;
      isVoting := false;
    }

    /** `handleVote(direction)`. `status` and `session` feed the auth guard, `reply` is what the vote
        route answers. `request` is what is posted, `reported` the count passed to `onVote`. */
    method HandleVote(direction: Direction, status: AuthRedirect.Status, session: Option<AuthRedirect.Session>, reply: VoteReply)
      returns (request: Option<VoteRequest>, reported: Option<int>)
      modifies this
      ensures old(isVoting) || !AuthRedirect.RequireAuth(status, session) ==>
        && request == None && reported == None
        && votes == old(votes) && userVote == old(userVote) && isVoting == old(isVoting)
      ensures !old(isVoting) && AuthRedirect.RequireAuth(status, session) ==>
        && request == Some(VoteRequest(Endpoint(itemType, itemId), direction))
        && !isVoting
        && votes == (if reply.Counted? then reply.voteCount else old(votes))
        && userVote == (if reply.Counted? then NextUserVote(old(userVote), direction) else old(userVote))
        && reported == (if reply.Counted? && hasOnVote then Some(reply.voteCount) else None)
    {
      request, reported := None, None;
      if isVoting {
        return;
      }
      if !AuthRedirect.RequireAuth(status, session) {
        return;
      }
      isVoting := true;
      request := Some(VoteRequest(Endpoint(itemType, itemId), direction));
      match reply {
        case Counted(count) =>
          votes := count;
          if userVote == Some(direction) {
            userVote := None;
          } else {
            userVote := Some(direction);
          }
          if hasOnVote {
            reported := Some(count);
          }
        case Failed =>
      }
      isVoting := false;
    }
  }
}
