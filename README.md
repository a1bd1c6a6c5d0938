# PeerHelp question-and-answer core, modelled in Dafny

PeerHelp is a Next.js and Mongoose question-and-answer site. Users ask questions with tags and
images, post answers, vote, comment and reply. This project models its rules and proves them:

- the four votable schemas (Question, Answer, Comment, Reply) with their required fields, defaults
  and derived counts;
- the User schema's e-mail pattern, uniqueness and pre-save normalisation;
- the question, answer and registration route handlers;
- the client-side state of the home feed, the vote widget, the ask form and the answers panel;
- the `requireAuth` hook they all consult.

The database is a sequence of records. A handler is one atomic step, and what it receives from
the network is a parameter of that step.

Modules, one per source file plus shared helpers:

| module | source |
|---|---|
| `QuestionModel`, `AnswerModel`, `CommentModel`, `ReplyModel`, `UserModel` | `models/*.ts` |
| `Votes` | the `upvotes.length - downvotes.length` getter shared by the schemas |
| `AuthRedirect` | `hooks/use-auth-redirect.ts` |
| `VoteButtons` (class `Widget`) | `components/vote-buttons.tsx` |
| `HomeFeed` (class `Feed`) | `app/page.tsx` |
| `AskForm` (class `AskPage`) | `app/ask/page.tsx` |
| `AnswersSection` (class `Panel`) | `components/comments-section.tsx` |
| `QuestionsRoute`, `AnswersRoute`, `RegisterRoute` | `app/api/questions/route.ts`, `app/api/answers/route.ts`, `app/api/auth/register/route.ts` |
| `Seqs`, `Text`, `Wrappers`, `Records` | filter, stable sort, skip/limit window; JavaScript `trim`, `toLowerCase`, number rendering and `parseInt`; `Option`; ids and the "required string" test |

A Mongoose `required` string counts as present when it is there and non-empty (`Records.Present`).
The same test stands for JavaScript truthiness of an optional string.

## Model

| member | source | states |
|---|---|---|
| Votes.Tally | models/Question.ts:55-57 | the derived count is positive, zero or negative exactly as the up list is longer than, as long as, or shorter than the down list |
| QuestionModel.Create | models/Question.ts:3-45 | a new question has the given id, `createdAt` now, 0 views and no votes, keeps the given fields, and is valid iff title (at most 200 characters), content and author are present and every tag is non-empty |
| QuestionModel.VoteCount | models/Question.ts:55-57 | `voteCount` is 0 for empty vote lists and positive (negative) exactly when upvotes outnumber (are outnumbered by) downvotes |
| QuestionModel.AnswersOf | models/Question.ts:60-65 | the answers of a question are exactly the stored answers whose `question` is its id |
| QuestionModel.AnswerCount | models/Question.ts:60-65 | the `answers` count is at most the number of stored answers, and 0 exactly when no stored answer refers to the question |
| QuestionModel.AnswerCountAfterInsert | models/Question.ts:60-65 | storing an answer raises its own question's `answers` count by one and leaves every other question's count alone |
| QuestionModel.Comments | models/Question.ts:68-72 | a question's comments are exactly the stored comments whose `question` is its id |
| AnswerModel.Create | models/Answer.ts:3-35 | a new answer is not accepted and has no replies and no votes; it is valid iff content, author and question are present |
| AnswerModel.VoteCount | models/Answer.ts:46-48 | `voteCount` is 0 for empty lists and its sign says which vote list is longer |
| AnswerModel.Comments | models/Answer.ts:51-55 | an answer's comments are exactly the stored comments whose `answer` is its id |
| CommentModel.LikeCount | models/Comment.ts:43-45 | `likeCount` is 0 for empty lists and its sign says which of likes and dislikes is longer |
| CommentModel.ValidityIgnoresParentsAndReactions | models/Comment.ts:5-33 | validity depends on neither the `question`/`answer` references (neither, one or both may be set) nor the like and dislike lists |
| ReplyModel.Create | models/Reply.ts:3-11 | a new reply has `voteCount` 0, no votes and `createdAt` now; it is valid iff content, author and answer are present |
| ReplyModel.StoredCountIsIndependent | models/Reply.ts:7-9 | some valid reply carries a stored `voteCount` different from upvotes minus downvotes |
| ReplyModel.Under | models/Reply.ts:6 | the replies under an answer are exactly the stored replies referring to that answer |
| ReplyModel.UnderExactlyOneAnswer | models/Reply.ts:3-11 | a valid reply is under its own answer and under no other |
| UserModel.EmailShape | models/User.ts:14-17 | an address the pattern accepts has exactly one '@' and ends in '.' and two or three word characters |
| UserModel.EmailFromParts | models/User.ts:15 | a word segment, '@', a word segment and one `.\w{2,3}` group form an accepted address |
| UserModel.AcceptsOrdinaryAddress | models/User.ts:15 | the pattern accepts "jo@mail.com" |
| UserModel.Create | models/User.ts:3-36 | a new user gets empty `bio` and `location`, `joinedAt` now and no image, and keeps the given fields |
| UserModel.PreSaveEmail | models/User.ts:45-50 | the pre-save hook leaves an unmodified e-mail alone and never removes or adds an e-mail |
| UserModel.PreSaveEmailIdempotent | models/User.ts:45-50 | running the hook on its own output changes nothing |
| UserModel.UserDocument.constructor | models/User.ts:3-42 | a new document holds the schema defaults and its e-mail counts as modified when it is set |
| UserModel.UserDocument.PreSave | models/User.ts:45-50 | the hook replaces a modified e-mail by its lower-cased, trimmed form and changes no other field |
| Text.NormalizeEmailIdempotent | models/User.ts:47 | lower-casing and trimming twice gives the same result as once |
| Text.TrimToLower | models/User.ts:47 | trimming and lower-casing commute |
| Text.TrimIdempotent | app/ask/page.tsx:45-48 | a trimmed value is its own trimmed form |
| Text.ParseShowNat | app/api/questions/route.ts:12-13 | `parseInt` reads back every number rendered in decimal |
| AuthRedirect.Decide | hooks/use-auth-redirect.ts:11-25 | while loading: wait; otherwise without a session: redirect to /login; otherwise proceed — each iff its condition |
| AuthRedirect.RequireAuthIffFlags | hooks/use-auth-redirect.ts:11-32 | `requireAuth` is true iff `isAuthenticated` and not `isLoading`; it redirects iff neither flag holds |
| VoteButtons.Endpoint | components/vote-buttons.tsx:42 | the vote route starts with "/api/", ends with "/vote" and carries the item's id just before that suffix |
| VoteButtons.EndpointInjective | components/vote-buttons.tsx:42 | the question route and the answer route of two items coincide only for the same kind and id |
| VoteButtons.NextUserVote | components/vote-buttons.tsx:60-65 | a successful click clears the vote iff it repeats the current direction, and otherwise sets that direction |
| VoteButtons.ClickTwice | components/vote-buttons.tsx:60-65 | two successful clicks in one direction restore the vote iff it was not the opposite one; from the opposite one they end at no vote |
| VoteButtons.ToneOf | components/vote-buttons.tsx:118 | the count is shown positive iff above 0 and negative iff below 0 |
| VoteButtons.ToneOfTally | components/vote-buttons.tsx:118 | on a derived count the tone names the longer vote list |
| VoteButtons.Widget.constructor | components/vote-buttons.tsx:29-31 | the widget starts with the initial count and vote, not voting |
| VoteButtons.Widget.HandleVote | components/vote-buttons.tsx:34-73 | while voting or unauthenticated nothing changes and nothing is sent; otherwise the item's route is posted the body `{ voteType: direction }`, a success sets `votes` to the server's count and toggles `userVote`, a failure keeps both, `isVoting` ends false, and `onVote` gets the count on success |
| HomeFeed.InitialUserVote | app/page.tsx:221-229 | no vote without a signed-in id; "up" iff the id is in upvotes; "down" iff it is in downvotes and not in upvotes |
| HomeFeed.InitialUserVoteOfExclusiveLists | app/page.tsx:221-229 | when the user is in at most one list, the initial vote is "down" iff the user is in downvotes and none iff in neither |
| HomeFeed.FloorTwice | app/page.tsx:127-130 | flooring by one divisor and then another is flooring by their product |
| HomeFeed.ElapseMeaning | app/page.tsx:123-140 | "Just now" iff under a minute has elapsed (a future date included); otherwise the count is the floor of the elapsed days (at least 1), hours (1 to 23) or minutes (1 to 59) |
| HomeFeed.FormatDate | app/page.tsx:123-141 | the label reads "Just now" exactly when under a minute separates the date from now (a future date included) |
| HomeFeed.AgoInjective | app/page.tsx:132-137 | two "N unit(s) ago" labels are equal only for the same count and unit |
| HomeFeed.RenderInjective | app/page.tsx:132-140 | the label text determines what it reports |
| HomeFeed.FetchParams | app/page.tsx:64-71 | the query string always holds the page, a limit of 10 and the sort, and holds the subject and the search exactly when they are non-empty |
| HomeFeed.FetchParamsReadBack | app/page.tsx:64-71 | the listing route reads back from the feed's query string exactly its page, a limit of 10, its sort (or "latest" when empty), its subject and its search |
| HomeFeed.HasMoreIffNextPageNonEmpty | app/page.tsx:87 | `currentPage < totalPages` holds exactly when the next page of the same query holds questions |
| HomeFeed.LoadedIsPrefix | app/page.tsx:81-85 | replacing with page 1 and appending pages 2..k shows the first k·limit selected questions in order |
| HomeFeed.Feed.constructor | app/page.tsx:37-45 | the feed starts on page 1, loading, sorted by "latest", with no subject, search or error |
| HomeFeed.Feed.LoadMore | app/page.tsx:103-107 | the page grows by exactly one iff the feed is idle and has more |
| HomeFeed.Feed.ChangeSort | app/page.tsx:109-114 | a different sort is set and resets the page to 1; the same sort changes nothing |
| HomeFeed.Feed.ChangeSubject | app/page.tsx:116-121 | a different subject is set and resets the page to 1; the same subject changes nothing |
| HomeFeed.Feed.SettleSearch | app/page.tsx:49-55 | when the debounce fires, the queried search becomes the typed one |
| HomeFeed.Feed.StartFetch | app/page.tsx:58-73 | a fetch marks loading, clears the error and sends the query string of the current page, sort, subject and search |
| HomeFeed.Feed.FinishFetch | app/page.tsx:79-97 | page 1 replaces the list, later pages append after it in order, `hasMore` is `currentPage < totalPages`; a failure keeps list and `hasMore` and sets the error; loading ends |
| AskForm.AskPage.constructor | app/ask/page.tsx:26-33 | the form starts empty with a valid (empty) tag list |
| AskForm.AskPage.AddTag | app/ask/page.tsx:44-52 | on Enter the trimmed input is added and the input cleared iff it is non-blank, new and fewer than 5 tags exist; otherwise tags and input are unchanged; the list stays at most 5 distinct trimmed tags |
| AskForm.AskPage.RemoveTag | app/ask/page.tsx:54-56 | the tag leaves the list, every other tag stays, and the tag invariant is kept |
| AskForm.RemoveTagInPlace | app/ask/page.tsx:54-56 | removing a tag of a valid list deletes it at its position and keeps the others in order |
| AskForm.Uploads | app/ask/page.tsx:64-71 | one image per picked file, in order, with its generated id and preview |
| AskForm.AskPage.UploadImages | app/ask/page.tsx:58-82 | an empty selection changes nothing; otherwise the new images, built in a loop, go after the existing ones and uploading ends |
| AskForm.FindImage | app/ask/page.tsx:85-86 | finds the first image with the id, and nothing iff no image has it |
| AskForm.WithoutImage | app/ask/page.tsx:92 | no image with the id remains and every other image does |
| AskForm.AskPage.RemoveImage | app/ask/page.tsx:84-93 | the first matching image's preview is revoked and the list loses every image with that id |
| AskForm.RemoveImageInPlace | app/ask/page.tsx:84-93 | with distinct ids, removal deletes exactly that image in place, keeping the others in order |
| AskForm.RemoveUndoesUpload | app/ask/page.tsx:58-93 | removing a freshly uploaded image restores the list from before the upload |
| AskForm.WithoutTag | app/ask/page.tsx:54-56 | the removed tag is gone and every other tag remains |
| AskForm.SubmittedBody | app/ask/page.tsx:107-121 | the posted body carries the title, content and tags as typed and one preview URL per image |
| AskForm.AskPage.Submit | app/ask/page.tsx:95-125 | a blank title or content or no tags stops the submit with nothing changed; otherwise the page is submitting and posts the body |
| AskForm.AskPage.SubmitSettled | app/ask/page.tsx:136-138 | after the reply the page is not submitting |
| AskForm.SubmittedBodyAccepted | app/ask/page.tsx:98-101 | a body the page lets through passes the route's field check, and a signed-in post is stored iff the title is at most 200 characters |
| AnswersSection.ReplaceById | components/comments-section.tsx:104-107 | the list keeps its length, and exactly the entries with the voted id become the reply |
| AnswersSection.ReplaceAbsentId | components/comments-section.tsx:104-107 | a reply for an id not in the list changes nothing |
| AnswersSection.ReplaceIdempotent | components/comments-section.tsx:104-107 | folding the same reply in twice equals folding it in once |
| AnswersSection.ReplaceKeepsOthers | components/comments-section.tsx:104-107 | the answers with other ids are the same answers in the same order, and every position keeps its id |
| AnswersSection.Panel.constructor | components/comments-section.tsx:32-36 | the panel starts closed with no answers and an empty input |
| AnswersSection.Panel.Toggle | components/comments-section.tsx:40-44 | the header flips the panel and a fetch starts iff it opens |
| AnswersSection.Panel.FetchAnswers | components/comments-section.tsx:46-60 | the list becomes the fetched answers, a failure keeps it, and loading ends |
| AnswersSection.Panel.AddAnswer | components/comments-section.tsx:61-90 | without auth or with blank text nothing changes and nothing is sent; otherwise the text is posted to the answers route, a success appends the answer at the end (the shown count grows by one) and clears the input, a failure keeps both, and submitting ends |
| AnswersSection.Panel.Vote | components/comments-section.tsx:92-112 | without auth nothing is sent; otherwise the answer's vote route is posted the clicked direction as `voteType` and a reply replaces the answer with that id, keeping the shown count |
| AnswersSection.PostPathAsWrittenMissesRoutes | components/comments-section.tsx:69 | the path the panel posts to as written is neither the answers route nor any path under it, for every id not starting with '/' |
| AnswersSection.PostedAnswerAccepted | components/comments-section.tsx:69-76 | a non-blank answer the panel posts for a signed-in user is stored under that question with that text |
| QuestionsRoute.Param | app/api/questions/route.ts:12-16 | a missing or empty parameter reads as its default |
| QuestionsRoute.ReadQuery | app/api/questions/route.ts:12-16 | the request is unreadable exactly when `parseInt` of the page or limit is `NaN`; otherwise sort, subject and search are the given values when present and non-empty and "latest", "" and "" when absent |
| QuestionsRoute.ReadQueryDefaults | app/api/questions/route.ts:12-16 | with no parameters the listing asks for page 1, limit 10, "latest", no subject, no search |
| QuestionsRoute.OrderFor | app/api/questions/route.ts:20-25 | "latest" orders newest first, "top" by votes, every other sort keeps store order — each iff |
| QuestionsRoute.SelectedIn | app/api/questions/route.ts:27-35 | the selection is exactly the stored questions having the subject among their tags (when one is given) and matching the search in title or content (when one is given) |
| QuestionsRoute.Arrange | app/api/questions/route.ts:20-25 | the ordered list is a permutation of the selection, sorted by `createdAt` or by vote count descending, or left as is |
| QuestionsRoute.ArrangeAsWritten | app/api/questions/route.ts:20-25 | as written, the ordered list is a permutation of the selection, newest first for "latest" and the selection unchanged for every other sort, "top" included |
| QuestionsRoute.TopOrderAsWrittenIgnoresVotes | app/api/questions/route.ts:23-24 | as written, "top" lists a question without votes before one with an upvote |
| QuestionsRoute.Skip | app/api/questions/route.ts:18 | page `page` starts `limit` positions before the page after it: `skip + limit = page·limit`, so `skip = (page - 1)·limit` |
| QuestionsRoute.TotalPages | app/api/questions/route.ts:50 | `totalPages` is the least n with n·limit covering the total |
| QuestionsRoute.Ordered | app/api/questions/route.ts:37-38 | the ordered list (in the intended order) is a permutation of the selection |
| QuestionsRoute.List | app/api/questions/route.ts:37-52 | `currentPage` echoes the page and a page holds at most `limit` questions |
| QuestionsRoute.ListedAreSelected | app/api/questions/route.ts:37-40 | every listed question is a stored question the query selects |
| QuestionsRoute.PageStartsInside | app/api/questions/route.ts:18-50 | `skip = (page - 1)·limit` falls inside the total iff page ≤ `totalPages` |
| QuestionsRoute.PageNonEmptyIff | app/api/questions/route.ts:37-51 | a page holds questions iff its number is at most `totalPages` |
| QuestionsRoute.Post | app/api/questions/route.ts:59-89 | 401 iff no session (before the body); 400 iff signed in and title, content or a non-empty tag list is missing; a created question is valid, authored by the session user, with images defaulting to [] and no views or votes |
| QuestionsRoute.PostServerErrorIff | app/api/questions/route.ts:76-82 | past the route's checks, only a title over 200 characters or an empty tag makes the schema refuse |
| AnswersRoute.Post | app/api/answers/route.ts:7-37 | 401 iff no session; 400 iff signed in and content or questionId is missing; a created answer is valid, authored by the session user, under the given question, not accepted and without votes |
| AnswersRoute.PostNeverRefusedBySchema | app/api/answers/route.ts:20-28 | a request past the route's checks is always stored: created iff signed in with content and questionId |
| AnswersRoute.Get | app/api/answers/route.ts:38-56 | 400 iff the `questionId` parameter is missing or empty; otherwise the question's answers, ascending by `createdAt` |
| AnswersRoute.GetListsExactlyTheAnswers | app/api/answers/route.ts:42-56 | the listing holds exactly the stored answers of the question, as many as its `answers` count |
| RegisterRoute.Strip | app/api/auth/register/route.ts:50-52 | the reply body carries every stored field but the password |
| RegisterRoute.StripForgetsPassword | app/api/auth/register/route.ts:50-52 | the reply body does not depend on the password |
| RegisterRoute.NewUser | app/api/auth/register/route.ts:43-47 | the stored user has the trimmed name, the lower-cased and trimmed e-mail (both non-empty), the hash and the schema defaults |
| RegisterRoute.Insert | app/api/auth/register/route.ts:43-58 | creation succeeds iff the schema's validators accept the new user and no stored address equals its e-mail ignoring case; the store grows by exactly that user and the reply omits its password |
| RegisterRoute.NewUserValidIff | app/api/auth/register/route.ts:43-47 | the schema accepts the new user exactly when the normalised e-mail matches the pattern |
| RegisterRoute.RegisterAsWritten | app/api/auth/register/route.ts:13-58 | 400 iff a field is missing or blank; then 400 iff the untrimmed password is under 8; then 409 iff a stored address equals the e-mail as sent, ignoring case; then 500 iff the schema's validators refuse the new user or the unique index finds its normalised address; a registered user has the trimmed name and the normalised e-mail, that address was free in the index, and the store is the old one plus the new user |
| RegisterRoute.Register | app/api/auth/register/route.ts:13-52 | the same chain with the lookup on the trimmed e-mail: 500 only when the schema's validators refuse the new user (by `NewUserValidIff`, an address outside the pattern); a registered user has the trimmed name and the normalised e-mail, that address was free in the index, and the store is the old one plus the new user |
| RegisterRoute.TakenTrimmedIffNormalized | app/api/auth/register/route.ts:28-30 | looking up the trimmed address finds exactly what the unique index finds for the normalised one |
| RegisterRoute.RegisterKeepsEmailsUnique | models/User.ts:12-13 | registration by either handler, as written or corrected, keeps stored e-mails unique ignoring case |
| RegisterRoute.RegisterKeepsEmailsNormalized | app/api/auth/register/route.ts:43-47 | registration by either handler keeps every stored address in normalised form |
| RegisterRoute.ReplyIgnoresHash | app/api/auth/register/route.ts:40-52 | for either handler, whether registration succeeds, and what it answers, do not depend on the password hash |
| RegisterRoute.PaddedDuplicateGetsServerError | app/api/auth/register/route.ts:28-47 | a stored address sent again with a leading space gets 500 as written and 409 with the trimmed lookup |
| Seqs.SortBy | app/api/answers/route.ts:52 | the sort result is ordered by the key and is a permutation of its input |
| Seqs.Window | app/api/questions/route.ts:39-40 | `.skip(s).limit(l)` keeps the elements from position s on, at most l of them |

## Left out

- Network and database I/O (`fetch`, `connect`, `find`, `populate`, `lean`, `countDocuments`) are not modelled. The store is a sequence of records, and a reply is an input of the handler that receives it.
- `.lean()` dropping virtuals, and `populate` returning objects rather than ids, are library behaviour and are left out.
- The server-side vote toggle (`/api/questions/[id]/vote`, `/api/answers/[id]/vote`) is not part of this model. The widget and the panel take its reply as an input.
- Toasts, router navigation, JSX rendering, CSS classes and the `onVote` parent callback's effect are left out. `HandleVote` only reports what it passes to `onVote`.
- The ask page's render-time redirect (`if (!isLoading && !isAuthenticated) requireAuth(...)`) is not modelled. It only decides whether the form is shown.
- The 500 ms debounce timer is not modelled as a timer: `SettleSearch` is the moment it fires. React's re-render ordering is also left out; each handler is one step.
- `Date.now`, `Math.random` ids, `URL.createObjectURL`/`revokeObjectURL` and bcrypt are parameters. Dates are integers in milliseconds; `new Date(dateString)` parsing is not modelled.
- The search regex (`$regex` with option "i") is a `matches` predicate parameter. The registration lookup's pattern `^${email}$` with option "i" is case-insensitive equality; regex metacharacters in the e-mail are not interpreted.
- `toLowerCase` and the collation compare only ASCII letters. `trim` uses the full ECMAScript white-space set, and lengths count code points rather than UTF-16 units.
- `parseInt` is modelled for leading white space, a sign, a `0x` prefix and a digit run. The route's use of a `NaN` page or limit, and `limit` ≤ 0 or `page` < 1, are excluded (`List` requires `page` ≥ 1 and `limit` > 0).
- A non-string JSON field (e.g. a number for `name`), where `.trim()` would throw and the route answer 500, is not modelled: fields are strings or absent.
- A `questionId` that is not a valid ObjectId, which the schema cast would refuse, is not modelled: ids are strings.
- AnswersSection.Panel.FetchAnswers: the panel fetches `/api/answers/${questionId}` (components/comments-section.tsx:49), a path no route serves, while the listing reads a `questionId` query parameter; the fetched list is an input, so the model does not capture that this request fails.
- AnswersSection.Panel.AddAnswer: posts to the answers route itself, the corrected path of the third Findings row; the path as written is `PostPathAsWritten`.
- VoteButtons.Widget.HandleVote: the reply is assumed to carry `voteCount`. The question vote route sends it, but the answer vote route (app/api/answers/[id]/vote/route.ts:71-78) does not, so for an answer the source sets `votes` to `undefined`; that case is not captured.
- AnswersSection.Panel.Vote: the reply is assumed to be a whole answer with its `id`. The answer vote route sends only the vote lists, their counts and `userVote`, so the source swaps in an object without an id; that case is not captured.
- AnswersSection.ReplaceKeepsOthers: requires a reply carrying the voted id, as the client's `Answer` type declares; the answer vote route's actual reply does not meet it (see the line above).
- QuestionsRoute.Ordered and QuestionsRoute.List: order "top" by vote count, the intended order of the second Findings row (`Arrange`), not the selection order the route as written returns (`ArrangeAsWritten`). Their contracts, and those of ListedAreSelected, PageNonEmptyIff, HasMoreIffNextPageNonEmpty and LoadedIsPrefix, use only that the order is a permutation of the selection, which `ArrangeAsWritten` also ensures.
- Mongoose's built-in timestamps (`createdAt`/`updatedAt` on schemas with `timestamps: true`) are reduced to one `createdAt` parameter.
- QuestionsRoute.List: states `currentPage`, the page-size bound, membership and the non-empty-page condition; the exact page contents follow from `Seqs.Window` but are not restated in its contract.

## Findings

| source | as written | input that shows it | evidently intended | confidence | as-written member | corrected member |
|---|---|---|---|---|---|---|
| app/api/auth/register/route.ts:28-47 | the duplicate lookup matches the e-mail exactly as sent (case-insensitive only), but the user is stored with the trimmed, lower-cased e-mail, so a padded duplicate slips past the 409 and the unique index then throws: 500 | stored "a@x.co"; request name "Bob", e-mail " a@x.co", password "password1" | 409 "Email already registered" for every address the unique index would refuse | not executed | RegisterRoute.PaddedDuplicateGetsServerError | RegisterRoute.Register |
| app/api/questions/route.ts:23-24 | sort "top" sorts on `voteCount`, a virtual the database never stores, so every document has the same (missing) key and the store order is returned | question a (no votes) stored before question b (one upvote), sort "top" | b before a: most votes first | not executed | QuestionsRoute.TopOrderAsWrittenIgnoresVotes | QuestionsRoute.Arrange |
| components/comments-section.tsx:69 | the new answer is posted to `/api/answers${questionId}`, with no slash, a path that is neither the answers route nor under it, so every post fails and shows the error toast | question id "q1": the post goes to "/api/answersq1" | post to `/api/answers`, the route that reads `content` and `questionId` from the body and stores the answer | not executed | AnswersSection.PostPathAsWrittenMissesRoutes | AnswersSection.Panel.AddAnswer |
