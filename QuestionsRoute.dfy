/** The question collection route (app/api/questions/route.ts): the paginated, filtered, sorted
    listing (GET) and question creation (POST). The store is the sequence of stored questions in
    insertion order; the case-insensitive regular-expression search is the predicate `matches`. */
module QuestionsRoute {
  import opened Wrappers
  import opened Records
  import Seqs
  import Text
  import QuestionModel

  type Question = QuestionModel.Question

  // ----- GET -----

  /** `url.searchParams.get(key) || fallback`: an absent or empty parameter takes the fallback. */
  function Param(params: map<string, string>, key: string, fallback: string): (v: string)
    ensures v == fallback || (key in params && v == params[key])
    ensures key !in params ==> v == fallback
  {
    if key in params && params[key] != "" then params[key] else fallback
  }

  /** The listing request after its parameters are read. */
  datatype Query = Query(page: int, limit: int, sort: string, subject: string, search: string)

  /** Reads the query string with its defaults: page 1, limit 10, sort "latest", no subject and no
      search. `None` stands for a page or limit that `parseInt` turns into `NaN`. */
  function ReadQuery(params: map<string, string>): (r: Option<Query>)
    ensures r.None? <==> Text.ParseInt(Param(params, "page", "1")).None? || Text.ParseInt(Param(params, "limit", "10")).None?
    ensures r.Some? ==> r.value.sort != ""
    ensures r.Some? && "sort" !in params ==> r.value.sort == "latest"
    ensures r.Some? && "subject" !in params ==> r.value.subject == ""
    ensures r.Some? && "search" !in params ==> r.value.search == ""
    ensures r.Some? && "sort" in params && params["sort"] != "" ==> r.value.sort == params["sort"]
    ensures r.Some? && "subject" in params ==> r.value.subject == params["subject"]
    ensures r.Some? && "search" in params ==> r.value.search == params["search"]
  {
    var page := Text.ParseInt(Param(params, "page", "1"));
    var limit := Text.ParseInt(Param(params, "limit", "10"));
    if page.None? || limit.None? then None
    else Some(Query(page.value, limit.value, Param(params, "sort", "latest"),
                    Param(params, "subject", ""), Param(params, "search", "")))
  }

  /** With no parameters at all the listing asks for the first ten questions, newest first. */
  lemma ReadQueryDefaults()
    ensures ReadQuery(map[]) == Some(Query(1, 10, "latest", "", ""))
  {
    Text.ParseShowNat(1);
    Text.ParseShowNat(10);
    assert Text.ShowNat(1) == "1";
    assert Text.ShowNat(10) == "10";
  }

  /** The order `sortOptions` asks for. */
  datatype Order = NewestFirst | MostVotesFirst | StoreOrder

  function OrderFor(sort: string): (o: Order)
    ensures o == NewestFirst <==> sort == "latest"
    ensures o == MostVotesFirst <==> sort == "top"
    ensures o == StoreOrder <==> sort != "latest" && sort != "top"
  {
    if sort == "latest" then NewestFirst else if sort == "top" then MostVotesFirst else StoreOrder
  }

  /** The `query` object: a non-empty subject must be among the tags, a non-empty search must match
      the title or the content (a missing field matches nothing). */
  predicate Selected(q: Question, subject: string, search: string, matches: (string, string) -> bool) {
    && (subject == "" || subject in q.tags)
    && (search == "" || (q.title.Some? && matches(search, q.title.value))
                     || (q.content.Some? && matches(search, q.content.value)))
  }

  /** The questions the query object selects, in store order. */
  function SelectedIn(store: seq<Question>, subject: string, search: string, matches: (string, string) -> bool): (r: seq<Question>)
    ensures forall i :: 0 <= i < |r| ==> r[i] in store && Selected(r[i], subject, search, matches)
    ensures forall i :: 0 <= i < |store| && Selected(store[i], subject, search, matches) ==> store[i] in r
  {
    var keep := (q: Question) => Selected(q, subject, search, matches);
    Seqs.FilterMembers(store, keep);
    Seqs.Filter(store, keep)
  }

  /** `.sort(sortOptions)` as the code intends it: creation time or vote count, descending. */
  function Arrange(qs: seq<Question>, order: Order): (r: seq<Question>)
    ensures multiset(r) == multiset(qs)
    ensures order == NewestFirst ==> forall i, j :: 0 <= i < j < |r| ==> r[i].createdAt >= r[j].createdAt
    ensures order == MostVotesFirst ==> forall i, j :: 0 <= i < j < |r| ==> QuestionModel.VoteCount(r[i]) >= QuestionModel.VoteCount(r[j])
    ensures order == StoreOrder ==> r == qs
  {
    match order
    case NewestFirst => Seqs.SortBy(qs, (q: Question) => -q.createdAt)
    case MostVotesFirst => Seqs.SortBy(qs, (q: Question) => -QuestionModel.VoteCount(q))
    case StoreOrder => qs
  }

  /** `.sort(sortOptions)` as written: `voteCount` is a virtual the database never stores, so
      "top" sorts on a field every document lacks and the store order survives. */
  function ArrangeAsWritten(qs: seq<Question>, order: Order): (r: seq<Question>)
    ensures multiset(r) == multiset(qs)
    ensures order == NewestFirst ==> forall i, j :: 0 <= i < j < |r| ==> r[i].createdAt >= r[j].createdAt
    ensures order != NewestFirst ==> r == qs
  {
    match order
    case NewestFirst => Seqs.SortBy(qs, (q: Question) => -q.createdAt)
    case MostVotesFirst =>
      Seqs.SortByConstant(qs, (q: Question) => 0, 0);
      Seqs.SortBy(qs, (q: Question) => 0)
    case StoreOrder => qs
  }

  /** Two stored questions, the second with one upvote: as written, "top" lists the one without
      votes first. */
  lemma TopOrderAsWrittenIgnoresVotes()
    ensures var a := QuestionModel.Question("a", Some("A"), Some("a"), [], Some("u"), [], [], 0, [], 1);
            var b := QuestionModel.Question("b", Some("B"), Some("b"), [], Some("u"), ["v"], [], 0, [], 2);
            && ArrangeAsWritten([a, b], MostVotesFirst) == [a, b]
            && QuestionModel.VoteCount(a) < QuestionModel.VoteCount(b)
  {
    var a := QuestionModel.Question("a", Some("A"), Some("a"), [], Some("u"), [], [], 0, [], 1);
    var b := QuestionModel.Question("b", Some("B"), Some("b"), [], Some("u"), ["v"], [], 0, [], 2);
    Seqs.SortByConstant([a, b], (q: Question) => 0, 0);
  }

  /** `Math.ceil(total / limit)` */
  function TotalPages(total: nat, limit: int): (n: nat)
    requires limit > 0
    ensures n * limit >= total
    ensures n > 0 ==> (n - 1) * limit < total
  {
    (total + limit - 1) / limit
  }

  /** `skip = (page - 1) * limit` */
  function Skip(page: int, limit: int): (n: nat)
    requires page >= 1 && limit > 0
    ensures n < page * limit && n + limit == page * limit
  {
    NonNegativeProduct(page - 1, limit);
    (page - 1) * limit
  }

  /** Arithmetic for `Skip`: a product of naturals is not negative. */
  lemma NonNegativeProduct(a: nat, b: nat)
    ensures a * b >= 0
  {
  }

  /** The selected questions in the order the query asks for. */
  function Ordered(store: seq<Question>, query: Query, matches: (string, string) -> bool): (r: seq<Question>)
    ensures multiset(r) == multiset(SelectedIn(store, query.subject, query.search, matches))
  {
    Arrange(SelectedIn(store, query.subject, query.search, matches), OrderFor(query.sort))
  }

  /** The reply body of a listing. */
  datatype Listing = Listing(questions: seq<Question>, totalPages: nat, currentPage: int)

  /** GET: select, order, then skip `(page - 1) * limit` and keep `limit`. */
  function List(store: seq<Question>, query: Query, matches: (string, string) -> bool): (r: Listing)
    requires query.page >= 1 && query.limit > 0
    ensures r.currentPage == query.page
    ensures |r.questions| <= query.limit
  {
    var ordered := Ordered(store, query, matches);
    Listing(Seqs.Window(ordered, Skip(query.page, query.limit), query.limit),
            TotalPages(|ordered|, query.limit), query.page)
  }

  /** Every listed question is one the query selects, taken from the store. */
  lemma ListedAreSelected(store: seq<Question>, query: Query, matches: (string, string) -> bool, i: nat)
    requires query.page >= 1 && query.limit > 0
    requires i < |List(store, query, matches).questions|
    ensures var q := List(store, query, matches).questions[i];
            q in store && Selected(q, query.subject, query.search, matches)
  {
    var ordered := Ordered(store, query, matches);
    var q := ordered[Skip(query.page, query.limit) + i];
    assert q in multiset(ordered);
    assert q in SelectedIn(store, query.subject, query.search, matches);
  }

  /** Arithmetic for `PageStartsInside`: multiplying by a non-negative factor keeps the order. */
  lemma MultiplyMonotone(a: int, b: int, c: nat)
    requires a <= b
    ensures a * c <= b * c
  {
  }

  /** Page `page` starts inside the `total` selected questions exactly when it does not exceed
      `Math.ceil(total / limit)`. */
  lemma PageStartsInside(total: nat, limit: int, page: int)
    requires page >= 1 && limit > 0
    ensures Skip(page, limit) < total <==> page <= TotalPages(total, limit)
  {
    var n := TotalPages(total, limit);
    if page <= n {
      MultiplyMonotone(page - 1, n - 1, limit);
    } else {
      MultiplyMonotone(n, page - 1, limit);
    }
  }

  /** A page holds questions exactly when its number does not exceed `totalPages`. */
  lemma PageNonEmptyIff(store: seq<Question>, query: Query, matches: (string, string) -> bool)
    requires query.page >= 1 && query.limit > 0
    ensures var r := List(store, query, matches);
            |r.questions| > 0 <==> query.page <= r.totalPages
  {
    PageStartsInside(|Ordered(store, query, matches)|, query.limit, query.page);
  }

  // ----- POST -----

  /** The JSON body of a new question. */
  datatype QuestionBody = QuestionBody(
    title: Option<string>, content: Option<string>, tags: Option<seq<string>>, images: Option<seq<string>>)

  /** The route's replies: 401, 400, 201 with the stored question, 500 (the schema refused it). */
  datatype PostReply = Unauthorized | BadRequest | Created(question: Question) | ServerError

  /** The fields check: title, content and a non-empty tag list. */
  predicate HasRequiredFields(body: QuestionBody) {
    Present(body.title) && Present(body.content) && body.tags.Some? && |body.tags.value| > 0
  }

  /** POST: the session is checked before the body; the stored question belongs to the session's
      user. `newId` and `now` are the id and time the store assigns. */
  function Post(sessionUser: Option<Id>, body: QuestionBody, newId: Id, now: int): (r: PostReply)
    ensures r == Unauthorized <==> sessionUser == None
    ensures r == BadRequest <==> sessionUser.Some? && !HasRequiredFields(body)
    ensures r.Created? ==>
      && QuestionModel.Valid(r.question)
      && r.question.author == Some(sessionUser.value)
      && r.question.title == body.title && r.question.content == body.content
      && Some(r.question.tags) == body.tags
      && r.question.images == body.images.GetOr([])
      && r.question.views == 0 && QuestionModel.VoteCount(r.question) == 0
  {
    if sessionUser == None then Unauthorized
    else if !HasRequiredFields(body) then BadRequest
    else
      var q := QuestionModel.Create(newId, body.title, body.content, body.tags.value, sessionUser,
                                    body.images.GetOr([]), now);
      if QuestionModel.Valid(q) then Created(q) else ServerError
  }

  /** Once the session and the fields are in order, the only refusal left is the schema's: a title
      over 200 characters or an empty tag string. */
  lemma PostServerErrorIff(user: Id, body: QuestionBody, newId: Id, now: int)
    requires HasRequiredFields(body)
    ensures Post(Some(user), body, newId, now) == ServerError
            <==> |body.title.value| > QuestionModel.MaxTitleLength || "" in body.tags.value
  {
  }
}
