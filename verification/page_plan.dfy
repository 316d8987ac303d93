/** Which comment pages `renderComments` fetches at once, and which it leaves
    hidden behind the "load more" loader (src/utterances.ts, lines 141-172). */
module PagePlan {

  /** The page size of the comment-listing API. Its value is defined in the
      GitHub client module; all the plan relies on is that it is positive. */
  type PageSize = n: nat | n > 0 witness 30

  /** Pairwise distinct elements. */
  predicate Distinct<T(==)>(s: seq<T>)
  {
    forall i, j :: 0 <= i < j < |s| ==> s[i] != s[j]
  }

  /** Strictly increasing elements. */
  predicate Ascending(s: seq<int>)
  {
    forall i, j :: 0 <= i < j < |s| ==> s[i] < s[j]
  }

  /** The consecutive page indices lo, lo + 1, ..., hi - 1 (empty when hi <= lo). */
  function Range(lo: nat, hi: nat): (r: seq<nat>)
    ensures |r| == if lo <= hi then hi - lo else 0
    ensures forall i :: 0 <= i < |r| ==> r[i] == lo + i
  {
    if hi <= lo then [] else seq(hi - lo, i requires 0 <= i < hi - lo => lo + i)
  }

  /** Number of pages that hold `comments` comments: the source's
      `Math.ceil(comments / PAGE_SIZE)`, computed on integers. */
  function PageCount(comments: nat, pageSize: PageSize): (r: nat)
    ensures comments <= r * pageSize
    ensures comments > 0 ==> (r - 1) * pageSize < comments
    ensures r == 0 <==> comments == 0
  {
    var q := (comments + pageSize - 1) / pageSize;
    assert comments + pageSize - 1 == q * pageSize + (comments + pageSize - 1) % pageSize;
    q
  }

  /** Comments on the last page: what is left after the full pages before it. */
  function LastPageSize(comments: nat, pageSize: PageSize): int
  {
    comments - (PageCount(comments, pageSize) - 1) * pageSize
  }

  /** The source's condition for also fetching the penultimate page eagerly:
      more than two pages, and a remainder of fewer than 3 that is not 0. */
  predicate FetchPenultimate(comments: nat, pageSize: PageSize)
  {
    PageCount(comments, pageSize) > 2 && comments % pageSize < 3 && comments % pageSize != 0
  }

  /** The pages requested at once, in the order the requests are issued:
      page 1, then the last page when there are several, then the
      penultimate page when the last one is nearly empty. The eager pages are
      rendered in this same order. */
  function EagerPages(comments: nat, pageSize: PageSize): (r: seq<nat>)
    ensures 1 <= |r| <= 3 && r[0] == 1
    ensures |r| > 1 <==> PageCount(comments, pageSize) > 1
    ensures |r| > 1 ==> r[1] == PageCount(comments, pageSize)
    ensures |r| == 3 <==> FetchPenultimate(comments, pageSize)
    ensures |r| == 3 ==> r[2] == PageCount(comments, pageSize) - 1
    ensures comments > 0 ==> forall i :: 0 <= i < |r| ==> 1 <= r[i] <= PageCount(comments, pageSize)
    ensures Distinct(r)
  {
    var pageCount := PageCount(comments, pageSize);
    [1]
    + (if pageCount > 1 then [pageCount] else [])
    + (if FetchPenultimate(comments, pageSize) then [pageCount - 1] else [])
  }

  /** The source's initial `hiddenPageCount`: the pages not fetched eagerly.
      It is a valid count exactly when the thread has comments; for an empty
      thread it would be -1, which is why the caller only renders comments
      when there are some. */
  function HiddenPageCount(comments: nat, pageSize: PageSize): (r: int)
    ensures r >= 0 <==> comments > 0
    ensures comments == 0 ==> r == -1
    ensures r <= PageCount(comments, pageSize) - 1
  {
    PageCount(comments, pageSize) - |EagerPages(comments, pageSize)|
  }

  /** The pages the loader fetches one by one: starting at page 2, one per
      activation, as many as are hidden. */
  function HiddenPages(comments: nat, pageSize: PageSize): (r: seq<nat>)
    requires comments > 0
    ensures |r| == HiddenPageCount(comments, pageSize)
    ensures Ascending(r)
    ensures forall i :: 0 <= i < |r| ==> 2 <= r[i] < PageCount(comments, pageSize)
  {
    Range(2, 2 + HiddenPageCount(comments, pageSize))
  }

  /** Every page request of a fully revealed thread, in the order made: the
      eager pages, then the hidden pages as the loader fetches them. */
  function FetchOrder(comments: nat, pageSize: PageSize): seq<nat>
    requires comments > 0
  {
    EagerPages(comments, pageSize) + HiddenPages(comments, pageSize)
  }

  /** The eager pages and the hidden pages together are every page of the
      thread, each exactly once: no page is fetched twice and none is missed. */
  lemma {:induction false} PagePlanCoversEveryPageOnce(comments: nat, pageSize: PageSize)
    requires comments > 0
    ensures Distinct(FetchOrder(comments, pageSize))
    ensures |FetchOrder(comments, pageSize)| == PageCount(comments, pageSize)
    ensures forall p :: p in FetchOrder(comments, pageSize) <==> 1 <= p <= PageCount(comments, pageSize)
    ensures forall p :: p in EagerPages(comments, pageSize) ==> p !in HiddenPages(comments, pageSize)
  {
    var pageCount := PageCount(comments, pageSize);
    var eager := EagerPages(comments, pageSize);
    var hidden := HiddenPages(comments, pageSize);
    var all := FetchOrder(comments, pageSize);
    if pageCount == 1 {
      assert eager == [1] && hidden == [];
    } else if FetchPenultimate(comments, pageSize) {
      assert eager == [1, pageCount, pageCount - 1];
      assert |hidden| == pageCount - 3;
    } else {
      assert eager == [1, pageCount];
      assert |hidden| == pageCount - 2;
    }
    forall p | 1 <= p <= pageCount
      ensures p in all
    {
      if p !in eager {
        assert hidden[p - 2] == p;
      }
    }
  }

  /** Multiplying by a natural number keeps the order of the factors. */
  lemma {:induction false} MultiplyMonotone(a: nat, b: nat, d: nat)
    requires a <= b
    ensures a * d <= b * d
  {
  }

  /** Two quotient-remainder splits of one number cannot have different
      quotients. */
  lemma {:induction false} QuotientsAgree(x: nat, d: PageSize, a: nat, ma: nat, b: nat, mb: nat)
    requires x == a * d + ma && ma < d
    requires x == b * d + mb && mb < d
    ensures a == b
  {
    if a < b {
      assert (a + 1) * d == a * d + d;
      MultiplyMonotone(a + 1, b, d);
    } else if b < a {
      assert (b + 1) * d == b * d + d;
      MultiplyMonotone(b + 1, a, d);
    }
  }

  /** Integer division is determined by any quotient-remainder split. */
  lemma {:induction false} DivisionUnique(x: nat, d: PageSize, q: nat, m: nat)
    requires x == q * d + m && m < d
    ensures x / d == q
  {
    QuotientsAgree(x, d, x / d, x % d, q, m);
  }

  /** On an integer count, the last page holds the remainder, or a full page
      when the remainder is 0. */
  lemma {:induction false} LastPageHoldsRemainder(comments: nat, pageSize: PageSize)
    requires comments > 0
    ensures LastPageSize(comments, pageSize) == if comments % pageSize == 0 then pageSize else comments % pageSize
  {
    var q := comments / pageSize;
    var m := comments % pageSize;
    assert comments == q * pageSize + m;
    if m == 0 {
      DivisionUnique(comments + pageSize - 1, pageSize, q, pageSize - 1);
    } else {
      assert comments + pageSize - 1 == (q + 1) * pageSize + (m - 1);
      DivisionUnique(comments + pageSize - 1, pageSize, q + 1, m - 1);
    }
  }

  /** The penultimate-page rule restated in terms of the last page's size: with more than two
      pages, the penultimate page is fetched eagerly exactly when the last
      page is partial and holds fewer than 3 comments. */
  lemma {:induction false} PenultimateIffSmallLastPage(comments: nat, pageSize: PageSize)
    requires PageCount(comments, pageSize) > 2
    ensures var pageCount := PageCount(comments, pageSize);
      var last := LastPageSize(comments, pageSize);
      pageCount - 1 in EagerPages(comments, pageSize) <==> last < pageSize && last < 3
  {
    LastPageHoldsRemainder(comments, pageSize);
  }

  /** 47 comments in pages of 30: pages 1 and 2 at once, nothing hidden. */
  lemma FortySevenComments()
    ensures PageCount(47, 30) == 2
    ensures EagerPages(47, 30) == [1, 2]
    ensures HiddenPageCount(47, 30) == 0
  {
  }

  /** 92 comments in pages of 30: pages 1, 4 and 3 at once, page 2 hidden. */
  lemma NinetyTwoComments()
    ensures PageCount(92, 30) == 4
    ensures EagerPages(92, 30) == [1, 4, 3]
    ensures HiddenPages(92, 30) == [2]
  {
  }
}
