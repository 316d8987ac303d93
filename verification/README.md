# utterances comment widget: loading, origin gate and bootstrap, in Dafny

This project models the core of the utterances widget (`src/utterances.ts`).
The widget mirrors a web page's comments onto a GitHub issue thread. The model covers three parts:

- **Comment pages** (`renderComments`). Page 1, the last page and, when the last page is nearly empty, the penultimate page are fetched together and rendered in that order. The other pages stay hidden behind a "load more" loader. Each activation of the loader fetches the next hidden page, renders it, and attaches a new loader after it while pages remain hidden.
- **Origin gate** (`assertOrigin`). A comment may be written only when the embedding page's origin is listed in the repository's `utterances.json`.
- **Bootstrap and submit** (`bootstrap` and its `submit` closure). The user, the issue and the theme load together. Any failure among the three leaves the widget unmounted, but the completion flag is still set. A locked issue gets no comment box. A submission passes the gate, creates the issue lazily, posts the comment, and only then clears the comment box.

Every network call is an input to the model, given as a settled outcome (`Wrappers.Settled`: fulfilled with a value, or rejected with a reason). So the proofs are about control flow and page arithmetic only.

Modules:

- `Wrappers` (wrappers.dfy): the `Option` and `Settled` types.
- `GitHub` (github.dfy): the user, issue and comment records.
- `PagePlan` (page_plan.dfy): the page count, the eager page list and the hidden pages.
- `CommentLoader` (comment_loader.dfy): the rendered view and the loader state machine.
- `OriginGate` (origin_gate.dfy): `indexOf` and the gate.
- `Bootstrap` (bootstrap.dfy): the issue lookup dispatch, bootstrap and submit.

Behaviour of the code that the model keeps as written:

- The eager pages are rendered in request order: page 1, then the last page, then the penultimate page. They are not rendered in ascending page order. Where they end up on screen depends on the timeline component, which is not part of this model.
- `await loadToken()` sits outside the `try` block. If the token load rejects, bootstrap is abandoned before `bootstrapRun` is set.
- The source checks the origin once per submission. Creating the issue and posting the comment then both follow that single check.

## Model

| member | source | states |
|---|---|---|
| PagePlan.PageCount | src/utterances.ts:141 | the page count is the integer ceiling of comments / PAGE_SIZE: the pages hold every comment, one page fewer would not, and it is 0 exactly for an empty thread |
| PagePlan.EagerPages | src/utterances.ts:142-152 | the eager list is page 1, then the last page exactly when there are several pages, then the penultimate page exactly when the small-last-page condition holds, in that order; it never repeats a page and lies within 1..pageCount whenever the thread has comments |
| PagePlan.HiddenPageCount | src/utterances.ts:159 | the initial hidden count is non-negative exactly when the thread has comments; for an empty thread it would be -1 |
| PagePlan.HiddenPages | src/utterances.ts:159-172 | the loader fetches as many pages as are hidden, in strictly ascending order, all strictly between page 1 and the last page |
| PagePlan.PagePlanCoversEveryPageOnce | src/utterances.ts:141-172 | the eager and the hidden pages are disjoint and together are exactly pages 1..pageCount, each once |
| PagePlan.LastPageHoldsRemainder | src/utterances.ts:141-150 | the last page holds comments % PAGE_SIZE comments, or a full page when that remainder is 0 |
| PagePlan.PenultimateIffSmallLastPage | src/utterances.ts:148-152 | with more than two pages, the penultimate page is fetched eagerly exactly when the last page is partial and holds fewer than 3 comments |
| PagePlan.FortySevenComments | src/utterances.ts:141-159 | 47 comments in pages of 30: two pages, eager [1, 2], nothing hidden |
| PagePlan.NinetyTwoComments | src/utterances.ts:141-159 | 92 comments in pages of 30: four pages, eager [1, 4, 3], hidden [2] |
| CommentLoader.RenderComments | src/utterances.ts:134-177 | rendering fails exactly when an eager request rejects; otherwise the eager pages' comments are inserted in request order, the hidden count is non-negative, the next hidden page is 2, and a loader is attached after page 1's last comment, labelled hidden * PAGE_SIZE, exactly when pages are hidden |
| CommentLoader.LastComment | src/utterances.ts:174 | the loader's anchor is the last comment of the page, and there is none exactly when the page is empty |
| CommentLoader.RenderLoader | src/utterances.ts:161-176 | no loader is attached exactly when the hidden count is 0; otherwise a fresh (not busy) loader sits after the page's last comment, labelled hidden * PAGE_SIZE |
| CommentLoader.Activate | src/utterances.ts:161-176 | a rejected fetch leaves everything but the busy mark unchanged; a fulfilled one renders that page, takes one off the hidden count, moves to the next page, and attaches a new loader after that page's last comment exactly when pages remain hidden |
| CommentLoader.RenderEstablishesInvariant | src/utterances.ts:154-177 | a successful eager load satisfies the loader invariant (non-negative counters, rendered pages = eager pages then hidden pages so far, loader present exactly while pages remain) |
| CommentLoader.ActivatePreservesInvariant | src/utterances.ts:159-176 | every activation, fulfilled or rejected, preserves the loader invariant; a fulfilled one uses up exactly one hidden page |
| CommentLoader.RevealAll | src/utterances.ts:159-177 | when every page request (eager and hidden) fulfils, activating until no loader remains takes exactly as many activations as pages were hidden; afterwards every page 1..pageCount was rendered exactly once, the hidden ones in ascending order, and no loader is left |
| OriginGate.IndexOf | src/utterances.ts:183 | indexOf returns -1 exactly when the origin is absent, and otherwise the position of its first occurrence |
| OriginGate.AssertOrigin | src/utterances.ts:180-199 | the gate passes exactly when the config loaded and lists the origin; an unlisted origin throws "Origin not permitted." and a failed config load propagates its error |
| Bootstrap.IssueLookup | src/utterances.ts:28-33 | the issue is looked up by number exactly when the page names one, otherwise by the declared term |
| Bootstrap.Bootstrap | src/utterances.ts:35-96 | bootstrapRun is set exactly when the token load succeeds; the timeline is mounted exactly when all three parallel loads also succeed, and otherwise nothing is mounted; comments are rendered exactly when the issue has some; a locked issue gets neither reactions nor the comment box; reactions are enabled exactly for a signed-in user; the comment box starts empty, bound to the looked-up issue |
| Bootstrap.NewIssueFor | src/utterances.ts:80-86 | a new issue is created with the page's term, url, title and label unchanged and its description, or the empty string when it has none |
| Bootstrap.Post | src/utterances.ts:89-91 | the comment is posted to the session's issue; on success it is inserted as new and the box is cleared; on failure the session is unchanged |
| Bootstrap.Submit | src/utterances.ts:77-92 | the gate comes first and a rejection there makes no other call and changes nothing; createIssue is called at most once, exactly when no issue exists and the gate passed, and never after postComment; postComment is called at most once, exactly when the gate passed and an issue is held or was just created, always to the session's issue with the draft; the box is cleared exactly on full success and otherwise keeps the draft; a rejected createIssue or postComment is the error submit rejects with; an existing issue is kept, and a created one is adopted and the timeline rebound to it |
| Bootstrap.NoCreateOnceIssueExists | src/utterances.ts:79-88 | once the session holds an issue, no later submission calls createIssue and the issue never changes |
| Bootstrap.TimelineFollowsIssue | src/utterances.ts:79-88 | over any series of submissions the timeline stays bound to the issue the submit closure holds |
| Bootstrap.FoundIssueIsNeverRecreated | src/utterances.ts:45-92 | when the lookup found an issue and the comment box was attached, no submission ever calls createIssue and the session and timeline keep that issue |
| Bootstrap.CreatedIssueIsReused | src/utterances.ts:77-92 | when the first submission creates the issue, every later submission reuses it and createIssue is called exactly once over the whole series |

## Left out

- DOM construction, the error banners and host-resize measurement (`startMeasuring`, `scheduleMeasure`) are presentation only. So is the banner text of `assertOrigin`.
- The `not-installed` and `not-logged-in` listeners and their 500 ms timer are event and timer driven, so they are not modelled. Only the `bootstrapRun` flag is modelled; the `not-logged-in` listener reads it and the `not-installed` listener does not. As written, the `not-logged-in` listener shows nothing if bootstrap has already run. Otherwise it shows its banner on the first tick without checking the flag again.
- Re-entrant activation of a busy loader is not modelled. `setBusy` is defined in the timeline component, which is not part of this model. Nothing in `src/utterances.ts` checks the busy mark, so each activation is treated as one atomic step.
- The floating-point `Math.ceil(comments / PAGE_SIZE)` is replaced by the integer ceiling. The two agree for non-negative integer counts.
- `PAGE_SIZE` is defined in the GitHub client module, which is not part of this model. It is a parameter known only to be positive.
- `Promise.all` concurrency is modelled as a list of settled outcomes in request order. Which rejection reason wins a race is not modelled: an eager failure carries no reason.
- The `./github`, `./oauth`, `./theme`, `./repo-config` and `./reactions` modules are not part of this model. Their calls are outcome parameters. Only the outcome of `loadTheme` is modelled; its arguments (`page.theme`, `page.origin`) and its styling effect are not, and the page's theme is not a field of the model. `enableReactions` has its argument recorded.
- A rejected `renderComments` call is not awaited by `bootstrap`. The model records it as a failed comment view and does not follow the unhandled rejection.
- Page requests are not tied to the issue number. `loadCommentsPage(issue.number, page)` is modelled as a page source indexed by page alone, and `Bootstrap` takes that source as a parameter without relating it to the looked-up issue. Each page request settles the same way every time it is made, so a retried hidden-page fetch repeats the first outcome.
- The comment-box text is modelled as the session's draft. `submit` posts the draft. The component that passes the text is not part of this model.
- `console.error(error)` on the fail-closed path of bootstrap is logging only and is not modelled.
- Bootstrap.CreatedIssueIsReused: submissions are modelled as running one after another. `submit` awaits between its `if (!issue)` test and the assignment of the created issue, and nothing in `src/utterances.ts` prevents a second submission from starting meanwhile; two overlapping submissions would both call `createIssue`. Whether the comment box allows that is up to the comment-box component, which is not part of this model.
