/** `renderComments` (src/utterances.ts, lines 134-178): the eager fetch of
    the planned pages, and the self-re-attaching loader that reveals the
    hidden pages one at a time. */
module CommentLoader {
  import opened Wrappers
  import opened GitHub
  import opened PagePlan

  /** `loadCommentsPage(issue.number, page)` for the issue being shown, as the
      settled outcome of each page request. */
  type PageSource = nat -> Settled<seq<IssueComment>>

  /** A "load more" placeholder in the timeline: the comment it sits after
      (`None` when that page came back empty and `pop()` yields nothing), the
      number of comments its label promises, and whether it was marked busy. */
  datatype PageLoader = PageLoader(afterComment: Option<IssueComment>, revealCount: int, busy: bool)

  /** What `renderComments` has put into the timeline. */
  datatype CommentsView =
      /** One of the eager requests rejected: `Promise.all` rejects, nothing is
          rendered and no loader is attached. */
    | EagerLoadFailed
      /** The pages rendered so far (in render order), the comments inserted
          (in insertion order), the two loader counters, and the loader. */
    | Shown(loaded: seq<nat>, rendered: seq<IssueComment>,
            hiddenPageCount: int, nextHiddenPage: nat, loader: Option<PageLoader>)

  /** The last comment of a page, the anchor `afterPage.pop()` picks. */
  function LastComment(page: seq<IssueComment>): (r: Option<IssueComment>)
    ensures r.None? <==> page == []
    ensures r.Some? ==> r.value in page && r.value == page[|page| - 1]
  {
    if page == [] then None else Some(page[|page| - 1])
  }

  /** Every listed page request fulfils. */
  predicate AllFulfilled(source: PageSource, pages: seq<nat>)
  {
    forall i :: 0 <= i < |pages| ==> source(pages[i]).Fulfilled?
  }

  /** The comments of the listed pages, page after page, in list order. */
  function Contents(source: PageSource, pages: seq<nat>): seq<IssueComment>
    requires AllFulfilled(source, pages)
  {
    if pages == [] then []
    else
      assert forall i :: 1 <= i < |pages| ==> pages[i] == pages[1..][i - 1];
      source(pages[0]).value + Contents(source, pages[1..])
  }

  /** Contents distributes over appending one more page. */
  lemma {:induction false} ContentsAppend(source: PageSource, pages: seq<nat>, page: nat)
    requires AllFulfilled(source, pages) && source(page).Fulfilled?
    ensures AllFulfilled(source, pages + [page])
    ensures Contents(source, pages + [page]) == Contents(source, pages) + source(page).value
  {
    var extended := pages + [page];
    assert forall i :: 0 <= i < |pages| ==> extended[i] == pages[i];
    assert extended[|pages|] == page;
    if pages == [] {
      assert extended == [page] && extended[1..] == [];
    } else {
      assert extended[0] == pages[0];
      assert extended[1..] == pages[1..] + [page];
      ContentsAppend(source, pages[1..], page);
    }
  }

  /** `renderLoader(afterPage)`: no loader once the hidden count is 0;
      otherwise a loader after the last comment of `afterPage`, labelled with
      `hiddenPageCount * PAGE_SIZE`. */
  function RenderLoader(hiddenPageCount: int, afterPage: seq<IssueComment>, pageSize: PageSize): (r: Option<PageLoader>)
    ensures r.None? <==> hiddenPageCount == 0
    ensures r.Some? ==> r.value == PageLoader(LastComment(afterPage), hiddenPageCount * pageSize, false)
  {
    if hiddenPageCount == 0 then None
    else Some(PageLoader(LastComment(afterPage), hiddenPageCount * pageSize, false))
  }

  /** `renderComments` for an issue with `comments` comments. The caller only
      invokes it when there is at least one comment. All eager requests are
      awaited together and, when they all fulfil, their pages are rendered in
      request order whatever order they completed in; then the first loader
      is attached after the last comment of page 1. */
  function RenderComments(comments: nat, pageSize: PageSize, source: PageSource): (v: CommentsView)
    requires comments > 0
    ensures v.EagerLoadFailed? <==>
      exists i :: 0 <= i < |EagerPages(comments, pageSize)| && source(EagerPages(comments, pageSize)[i]).Rejected?
    ensures v.Shown? ==>
      && v.loaded == EagerPages(comments, pageSize)
      && v.rendered == Contents(source, EagerPages(comments, pageSize))
      && v.hiddenPageCount == PageCount(comments, pageSize) - |EagerPages(comments, pageSize)| >= 0
      && v.nextHiddenPage == 2
      && (v.loader.Some? <==> v.hiddenPageCount > 0)
      && (v.loader.Some? ==>
            && v.loader.value.afterComment == LastComment(source(1).value)
            && v.loader.value.revealCount == v.hiddenPageCount * pageSize
            && !v.loader.value.busy)
  {
    var eager := EagerPages(comments, pageSize);
    if !AllFulfilled(source, eager) then EagerLoadFailed
    else
      assert eager[0] == 1;
      var hiddenPageCount := PageCount(comments, pageSize) - |eager|;
      Shown(eager, Contents(source, eager), hiddenPageCount, 2, RenderLoader(hiddenPageCount, source(1).value, pageSize))
  }

  /** One activation of the attached loader (its `load` callback): it is
      marked busy and page `nextHiddenPage` is requested. If the request
      rejects, the loader stays in place, busy, and nothing else changes. If
      it fulfils, the loader is removed, the page rendered, the hidden count
      decremented and the next page index incremented, and a new loader is
      attached after the page just loaded unless the hidden count reached 0. */
  function Activate(v: CommentsView, pageSize: PageSize, source: PageSource): (w: CommentsView)
    requires v.Shown? && v.loader.Some?
    ensures w.Shown?
    ensures source(v.nextHiddenPage).Rejected? ==>
      w == v.(loader := Some(v.loader.value.(busy := true)))
    ensures source(v.nextHiddenPage).Fulfilled? ==>
      var page := source(v.nextHiddenPage).value;
      && w.loaded == v.loaded + [v.nextHiddenPage]
      && w.rendered == v.rendered + page
      && w.hiddenPageCount == v.hiddenPageCount - 1
      && w.nextHiddenPage == v.nextHiddenPage + 1
      && (w.loader.Some? <==> w.hiddenPageCount != 0)
      && (w.loader.Some? ==>
            && w.loader.value.afterComment == LastComment(page)
            && w.loader.value.revealCount == w.hiddenPageCount * pageSize
            && !w.loader.value.busy)
  {
    match source(v.nextHiddenPage)
    case Rejected(_) => v.(loader := Some(v.loader.value.(busy := true)))
    case Fulfilled(page) =>
      var hiddenPageCount := v.hiddenPageCount - 1;
      Shown(v.loaded + [v.nextHiddenPage], v.rendered + page, hiddenPageCount,
            v.nextHiddenPage + 1, RenderLoader(hiddenPageCount, page, pageSize))
  }

  /** The loader invariant for an issue with `comments` comments: the hidden
      count never goes negative; it plus the next page index is constant; the
      pages rendered are the eager pages followed by the hidden pages loaded
      so far, in order, and their comments are what was inserted; and a
      loader is attached exactly while pages remain hidden, labelled with
      what remains. */
  predicate LoaderInvariant(v: CommentsView, comments: nat, pageSize: PageSize, source: PageSource)
    requires comments > 0
  {
    && v.Shown?
    && 0 <= v.hiddenPageCount
    && 2 <= v.nextHiddenPage
    && v.nextHiddenPage + v.hiddenPageCount == 2 + HiddenPageCount(comments, pageSize)
    && v.loaded == EagerPages(comments, pageSize) + Range(2, v.nextHiddenPage)
    && AllFulfilled(source, v.loaded)
    && v.rendered == Contents(source, v.loaded)
    && (v.loader.Some? <==> v.hiddenPageCount > 0)
    && (v.loader.Some? ==> v.loader.value.revealCount == v.hiddenPageCount * pageSize)
  }

  /** A successful eager load establishes the loader invariant. */
  lemma {:induction false} RenderEstablishesInvariant(comments: nat, pageSize: PageSize, source: PageSource)
    requires comments > 0
    requires RenderComments(comments, pageSize, source).Shown?
    ensures LoaderInvariant(RenderComments(comments, pageSize, source), comments, pageSize, source)
  {
  }

  /** Every activation keeps the loader invariant, whether its request
      fulfils or rejects; a fulfilled one uses up exactly one hidden page. */
  lemma {:induction false} ActivatePreservesInvariant(v: CommentsView, comments: nat, pageSize: PageSize, source: PageSource)
    requires comments > 0
    requires LoaderInvariant(v, comments, pageSize, source) && v.loader.Some?
    ensures LoaderInvariant(Activate(v, pageSize, source), comments, pageSize, source)
    ensures source(v.nextHiddenPage).Fulfilled? ==>
      Activate(v, pageSize, source).hiddenPageCount == v.hiddenPageCount - 1
  {
    var w := Activate(v, pageSize, source);
    if source(v.nextHiddenPage).Fulfilled? {
      var eager := EagerPages(comments, pageSize);
      var next := v.nextHiddenPage;
      assert Range(2, next + 1) == Range(2, next) + [next];
      assert w.loaded == eager + Range(2, next + 1);
      ContentsAppend(source, v.loaded, next);
      assert w.rendered == Contents(source, w.loaded);
    }
  }

  /** Activating the loader until none is left, when every page request
      fulfils: it is activated exactly as many times as pages were hidden,
      the hidden pages arrive in ascending order, and in the end every page
      of the thread has been rendered exactly once and no loader remains. */
  method RevealAll(comments: nat, pageSize: PageSize, source: PageSource) returns (v: CommentsView, activations: nat)
    requires comments > 0
    requires forall p :: 1 <= p <= PageCount(comments, pageSize) ==> source(p).Fulfilled?
    ensures activations == HiddenPageCount(comments, pageSize)
    ensures v.Shown? && v.loader.None? && v.hiddenPageCount == 0
    ensures v.loaded == FetchOrder(comments, pageSize)
    ensures v.rendered == Contents(source, v.loaded)
    ensures Distinct(v.loaded) && |v.loaded| == PageCount(comments, pageSize)
    ensures forall p :: p in v.loaded <==> 1 <= p <= PageCount(comments, pageSize)
  {
    var eager := EagerPages(comments, pageSize);
    v := RenderComments(comments, pageSize, source);
    RenderEstablishesInvariant(comments, pageSize, source);
    activations := 0;
    while v.loader.Some?
      invariant LoaderInvariant(v, comments, pageSize, source)
      invariant v.nextHiddenPage == 2 + activations
      decreases v.hiddenPageCount
    {
      assert v.nextHiddenPage < PageCount(comments, pageSize);
      ActivatePreservesInvariant(v, comments, pageSize, source);
      v := Activate(v, pageSize, source);
      activations := activations + 1;
    }
    PagePlanCoversEveryPageOnce(comments, pageSize);
  }
}
