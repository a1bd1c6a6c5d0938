/** The home page (app/page.tsx): the question feed's pagination, sort and subject state, the
    request it sends, how it folds replies into the list, the relative-time label `formatDate`,
    and the user's initial vote handed to each vote widget. */
module HomeFeed {
  import opened Wrappers
  import opened Records
  import Seqs
  import Text
  import QuestionModel
  import QuestionsRoute
  import VoteButtons

  type Question = QuestionModel.Question

  // ----- the user's vote as the lists show it -----

  /** `initialUserVote`: no vote without a signed-in user id; "up" when the id is among the
      upvotes (checked first); otherwise "down" when it is among the downvotes. */
  function InitialUserVote(sessionUser: Option<Id>, upvotes: seq<Id>, downvotes: seq<Id>): (v: Option<VoteButtons.Direction>)
    ensures !Present(sessionUser) ==> v == None
    ensures v == Some(VoteButtons.Up) <==> Present(sessionUser) && sessionUser.value in upvotes
    ensures v == Some(VoteButtons.Down) <==> Present(sessionUser) && sessionUser.value !in upvotes && sessionUser.value in downvotes
  {
    if !Present(sessionUser) then None
    else if sessionUser.value in upvotes then Some(VoteButtons.Up)
    else if sessionUser.value in downvotes then Some(VoteButtons.Down)
    else None
  }

  /** When the user is in at most one list, the initial vote names the list the user is in. */
  lemma InitialUserVoteOfExclusiveLists(user: Id, upvotes: seq<Id>, downvotes: seq<Id>)
    requires user != ""
    requires !(user in upvotes && user in downvotes)
    ensures InitialUserVote(Some(user), upvotes, downvotes) == Some(VoteButtons.Down) <==> user in downvotes
    ensures InitialUserVote(Some(user), upvotes, downvotes) == None <==> user !in upvotes && user !in downvotes
  {
  }

  // ----- formatDate -----

  const MsPerMinute := 60000
  const MsPerHour := 3600000
  const MsPerDay := 86400000

  datatype Unit = Day | Hour | Minute

  /** The label's content: "Just now" or a count of the largest non-zero unit. */
  datatype Elapsed = JustNow | Ago(count: nat, unit: Unit)

  /** The chain of floor divisions of `formatDate` and its first-non-zero choice. */
  function Elapse(diffMs: int): Elapsed {
    var secs := diffMs / 1000;
    var mins := secs / 60;
    var hours := mins / 60;
    var days := hours / 24;
    if days > 0 then Ago(days, Day)
    else if hours > 0 then Ago(hours, Hour)
    else if mins > 0 then Ago(mins, Minute)
    else JustNow
  }

  /** Flooring twice is flooring once by the product. */
  lemma FloorTwice(a: int, b: int, c: int)
    requires b > 0 && c > 0
    ensures (a / b) / c == a / (b * c)
  {
    var q, r := a / b, a % b;
    var q2, r2 := q / c, q % c;
    var rest := b * r2 + r;
    assert a == (b * c) * q2 + rest by {
      assert a == b * q + r;
      assert q == c * q2 + r2;
      Distribute(b, c * q2, r2);
      assert b * (c * q2) == (b * c) * q2;
    }
    assert 0 <= rest < b * c by {
      MulBelow(b, r2, c);
    }
    DivisionUnique(a, b * c, q2, rest);
  }

  /** Arithmetic for `FloorTwice`: multiplication distributes over addition. */
  lemma Distribute(b: int, x: int, y: int)
    ensures b * (x + y) == b * x + b * y
  {
  }

  /** Arithmetic for `FloorTwice`: `b * r <= b * (c - 1)` for a remainder `r` below `c`, so
      `b * r + (b - 1) < b * c`. */
  lemma MulBelow(b: int, r: int, c: int)
    requires b > 0 && 0 <= r < c
    ensures 0 <= b * r && b * r + b <= b * c
  {
    assert b * r + b == b * (r + 1);
  }

  /** Arithmetic for `FloorTwice`: a quotient and remainder in range are the division's. */
  lemma DivisionUnique(a: int, m: int, x: int, y: int)
    requires m > 0 && a == m * x + y && 0 <= y < m
    ensures a / m == x
  {
    var q, r := a / m, a % m;
    assert m * q + r == m * x + y;
    if q > x {
      assert m * q == m * x + m * (q - x);
      MulAtLeast(m, q - x);
    } else if q < x {
      assert m * x == m * q + m * (x - q);
      MulAtLeast(m, x - q);
    }
  }

  /** Arithmetic for `DivisionUnique`: a positive multiple is at least the factor. */
  lemma MulAtLeast(m: int, d: int)
    requires m > 0 && d >= 1
    ensures m * d >= m
  {
  }

  /** Under a minute (a future date included) reads "Just now"; otherwise the unit is the largest
      whole unit elapsed and its count is the floor of the elapsed time in that unit. */
  lemma ElapseMeaning(diffMs: int)
    ensures Elapse(diffMs) == JustNow <==> diffMs < MsPerMinute
    ensures Elapse(diffMs).Ago? && Elapse(diffMs).unit == Day ==>
      Elapse(diffMs).count == diffMs / MsPerDay >= 1
    ensures Elapse(diffMs).Ago? && Elapse(diffMs).unit == Hour ==>
      Elapse(diffMs).count == diffMs / MsPerHour && 1 <= Elapse(diffMs).count < 24
    ensures Elapse(diffMs).Ago? && Elapse(diffMs).unit == Minute ==>
      Elapse(diffMs).count == diffMs / MsPerMinute && 1 <= Elapse(diffMs).count < 60
  {
    FloorTwice(diffMs, 1000, 60);
    FloorTwice(diffMs, 60000, 60);
    FloorTwice(diffMs, 3600000, 24);
  }

  function UnitName(u: Unit): string {
    match u
    case Day => "day"
    case Hour => "hour"
    case Minute => "minute"
  }

  /** What follows the count: ` unit${n > 1 ? "s" : ""} ago`. */
  function AgoTail(n: nat, u: Unit): string {
    " " + UnitName(u) + (if n > 1 then "s" else "") + " ago"
  }

  /** The label text: the count and its tail, or "Just now". */
  function Render(e: Elapsed): string {
    match e
    case JustNow => "Just now"
    case Ago(n, u) => Text.ShowNat(n) + AgoTail(n, u)
  }

  /** `formatDate`: the label for a date `dateMs` shown at time `nowMs` (both in milliseconds). */
  function FormatDate(dateMs: int, nowMs: int): (text: string)
    ensures text == "Just now" <==> nowMs - dateMs < MsPerMinute
  {
    ElapseMeaning(nowMs - dateMs);
    JustNowOnly(Elapse(nowMs - dateMs));
    Render(Elapse(nowMs - dateMs))
  }

  /** The leading digit run of a text that is digits then a non-digit is exactly those digits. */
  lemma RunOfDigits(d: string, r: string)
    requires forall i :: 0 <= i < |d| ==> Text.IsDigit(d[i])
    requires r != [] && !Text.IsDigit(r[0])
    ensures Text.RunLength(d + r, Text.IsDigit) == |d|
  {
    assert (d + r)[|d|] == r[0];
    assert forall i :: 0 <= i < |d| ==> (d + r)[i] == d[i];
  }

  /** A run of digits followed by a non-digit is determined by the text it starts. */
  lemma DigitsPrefix(d1: string, r1: string, d2: string, r2: string)
    requires forall i :: 0 <= i < |d1| ==> Text.IsDigit(d1[i])
    requires forall i :: 0 <= i < |d2| ==> Text.IsDigit(d2[i])
    requires r1 != [] && !Text.IsDigit(r1[0]) && r2 != [] && !Text.IsDigit(r2[0])
    requires d1 + r1 == d2 + r2
    ensures d1 == d2 && r1 == r2
  {
    var s := d1 + r1;
    RunOfDigits(d1, r1);
    RunOfDigits(d2, r2);
    assert d1 == s[..|d1|];
    assert d2 == s[..|d2|];
    assert r1 == s[|d1|..];
    assert r2 == s[|d2|..];
  }

  /** The text after the count fixes the unit: the unit names differ in length. */
  lemma UnitFromTail(n: nat, u1: Unit, u2: Unit)
    requires AgoTail(n, u1) == AgoTail(n, u2)
    ensures u1 == u2
  {
    var p := if n > 1 then "s" else "";
    assert |AgoTail(n, u1)| == |UnitName(u1)| + |p| + 5;
    assert |AgoTail(n, u2)| == |UnitName(u2)| + |p| + 5;
  }

  /** Two "ago" labels are equal only for the same count and unit. */
  lemma AgoInjective(n1: nat, u1: Unit, n2: nat, u2: Unit)
    requires Render(Ago(n1, u1)) == Render(Ago(n2, u2))
    ensures n1 == n2 && u1 == u2
  {
    DigitsPrefix(Text.ShowNat(n1), AgoTail(n1, u1), Text.ShowNat(n2), AgoTail(n2, u2));
    Text.DecimalValueShowNat(n1);
    Text.DecimalValueShowNat(n2);
    UnitFromTail(n1, u1, u2);
  }

  /** Two labels are equal only when they report the same count of the same unit. */
  lemma RenderInjective(e1: Elapsed, e2: Elapsed)
    requires Render(e1) == Render(e2)
    ensures e1 == e2
  {
    if e1.Ago? && e2.Ago? {
      AgoInjective(e1.count, e1.unit, e2.count, e2.unit);
    }
  }

  /** Only "Just now" renders as "Just now". */
  lemma JustNowOnly(e: Elapsed)
    ensures Render(e) == "Just now" <==> e == JustNow
  {
    if Render(e) == Render(JustNow) {
      RenderInjective(e, JustNow);
    }
  }

  // ----- pagination across requests -----

  const PageSize := 10

  /** The query string the feed sends for its current state: page, size and sort always, subject
      and search only when set. */
  function FetchParams(page: nat, sort: string, subject: string, search: string): (p: map<string, string>)
    ensures "page" in p && p["page"] == Text.ShowNat(page)
    ensures "limit" in p && p["limit"] == Text.ShowNat(PageSize)
    ensures "sort" in p && p["sort"] == sort
    ensures ("subject" in p <==> subject != "") && ("subject" in p ==> p["subject"] == subject)
    ensures ("search" in p <==> search != "") && ("search" in p ==> p["search"] == search)
  {
    assert "subject" != "search" && "page" != "search" && "limit" != "search" && "sort" != "search";
    assert "page" != "subject" && "limit" != "subject" && "sort" != "subject";
    var base := map["page" := Text.ShowNat(page), "limit" := Text.ShowNat(PageSize), "sort" := sort];
    var withSubject := if subject != "" then base["subject" := subject] else base;
    if search != "" then withSubject["search" := search] else withSubject
  }

  /** The route reads back exactly the page, size, subject and search the feed sends; an empty
      sort falls back to "latest". */
  lemma FetchParamsReadBack(page: nat, sort: string, subject: string, search: string)
    ensures QuestionsRoute.ReadQuery(FetchParams(page, sort, subject, search))
            == Some(QuestionsRoute.Query(page, PageSize, if sort == "" then "latest" else sort, subject, search))
  {
    var p := FetchParams(page, sort, subject, search);
    assert QuestionsRoute.Param(p, "page", "1") == Text.ShowNat(page);
    assert QuestionsRoute.Param(p, "limit", "10") == Text.ShowNat(PageSize);
    Text.ParseShowNat(page);
    Text.ParseShowNat(PageSize);
  }

  /** `hasMore` as the feed computes it from a listing is true exactly when the next page of the
      same query holds questions. */
  lemma HasMoreIffNextPageNonEmpty(store: seq<Question>, query: QuestionsRoute.Query, matches: (string, string) -> bool)
    requires query.page >= 1 && query.limit > 0
    ensures var r := QuestionsRoute.List(store, query, matches);
            r.currentPage < r.totalPages
            <==> |QuestionsRoute.List(store, query.(page := query.page + 1), matches).questions| > 0
  {
    QuestionsRoute.PageNonEmptyIff(store, query.(page := query.page + 1), matches);
  }

  /** The list after loading pages 1 to `k` of an unchanged ordered selection: page 1 replaces,
      each later page appends. */
  function Loaded(ordered: seq<Question>, limit: int, k: nat): seq<Question>
    requires limit > 0
  {
    if k == 0 then [] else Loaded(ordered, limit, k - 1) + Seqs.Window(ordered, QuestionsRoute.Skip(k, limit), limit)
  }

  /** Loading pages 1 to `k` shows the first `k * limit` questions, each once and in order. */
  lemma {:induction false} LoadedIsPrefix(ordered: seq<Question>, limit: int, k: nat)
    requires limit > 0
    ensures Loaded(ordered, limit, k) == Seqs.Window(ordered, 0, k * limit)
  {
    if k == 0 {
      assert Seqs.Window(ordered, 0, 0) == [];
    } else {
      LoadedIsPrefix(ordered, limit, k - 1);
      Seqs.WindowsAdjacent(ordered, 0, (k - 1) * limit, limit);
      assert (k - 1) * limit + limit == k * limit;
    }
  }

  const LoadError := "Failed to load questions. Please try again."

  /** The home page's state. */
  class Feed {
    var questions: seq<Question>
    var loading: bool
    var error: Option<string>
    var page: nat
    var hasMore: bool
    var sort: string
    var subject: string
    var searchQuery: string
    var debouncedSearch: string

    ghost predicate Valid()
      reads this
    {
      page >= 1
    }

    constructor ()
      ensures Valid()
      ensures questions == [] && loading && error == None && page == 1 && hasMore
      ensures sort == "latest" && subject == "" && searchQuery == "" && debouncedSearch == ""
    {
      questions, loading, error, page, hasMore := [], true, None, 1, true;
      sort, subject, searchQuery, debouncedSearch := "latest", "", "", "";
    }

    /** `handleLoadMore`: one page further, only when idle and more exist. */
    method LoadMore()
      requires Valid()
      modifies this`page
      ensures Valid()
      ensures page == if !loading && hasMore then old(page) + 1 else old(page)
    {
      if !loading && hasMore {
        page := page + 1;
      }
    }

    /** `handleSortChange`: a different sort restarts at page 1; the same sort changes nothing. */
    method ChangeSort(newSort: string)
      requires Valid()
      modifies this`sort, this`page
      ensures Valid()
      ensures old(sort) != newSort ==> sort == newSort && page == 1
      ensures old(sort) == newSort ==> sort == old(sort) && page == old(page)
    {
      if sort != newSort {
        sort := newSort;
        page := 1;
      }
    }

    /** `handleSubjectChange`: a different subject restarts at page 1; the same subject changes nothing. */
    method ChangeSubject(newSubject: string)
      requires Valid()
      modifies this`subject, this`page
      ensures Valid()
      ensures old(subject) != newSubject ==> subject == newSubject && page == 1
      ensures old(subject) == newSubject ==> subject == old(subject) && page == old(page)
    {
      if subject != newSubject {
        subject := newSubject;
        page := 1;
      }
    }

    /** The debounce timer firing: the search the feed queries catches up with the input. */
    method SettleSearch()
      modifies this`debouncedSearch
      ensures debouncedSearch == searchQuery
    {
      debouncedSearch := searchQuery;
    }

    /** The fetch effect up to the request: loading, error cleared, and the query string sent. */
    method StartFetch() returns (params: map<string, string>)
      requires Valid()
      modifies this`loading, this`error
      ensures Valid() && loading && error == None
      ensures params == FetchParams(page, sort, subject, debouncedSearch)
    {
      loading, error := true, None;
      params := FetchParams(page, sort, subject, debouncedSearch);
    }

    /** The fetch effect after the reply (`None` for a failed request): page 1 replaces the list,
        later pages append; `hasMore` compares the reply's page with its page count. */
    method FinishFetch(reply: Option<QuestionsRoute.Listing>)
      requires Valid()
      modifies this`questions, this`hasMore, this`error, this`loading
      ensures Valid() && !loading
      ensures reply.Some? ==>
        && questions == (if page == 1 then reply.value.questions else old(questions) + reply.value.questions)
        && hasMore == (reply.value.currentPage < reply.value.totalPages)
        && error == old(error)
      ensures reply.None? ==> questions == old(questions) && hasMore == old(hasMore) && error == Some(LoadError)
    {
      match reply {
        case Some(listing) =>
          if page == 1 {
            questions := listing.questions;
          } else {
            questions := questions + listing.questions;
          }
          hasMore := listing.currentPage < listing.totalPages;
        case None =>
          error := Some(LoadError);
      }
      loading := false;
    }
  }
}
