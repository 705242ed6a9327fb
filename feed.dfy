/**
 * `getFeedQuotes` and its `shuffleArray` helper: the store's quotes put in
 * one of three orders (Fisher–Yates shuffle, trending, top) and cut into
 * one page.
 *
 * `Math.random()` is not modelled as such: the shuffle receives the value
 * each call to it would have returned, one per array position, and turns
 * it into an index exactly as the source does.
 */
module Feed {
  import opened ArrayOps
  import opened StableSort
  import opened QuoteModel
  import opened QuoteQueries

  /** The object `getFeedQuotes` returns. */
  datatype FeedPage = FeedPage(quotes: seq<Quote>, hasMore: bool, total: int)

  /* ---------------- shuffleArray ---------------- */

  /** One value in `[0, 1)` per array position, as `Math.random()` returns them. */
  ghost predicate ValidDraws(draws: seq<real>, n: nat) {
    |draws| == n && forall k :: 0 <= k < |draws| ==> 0.0 <= draws[k] < 1.0
  }

  /** `Math.floor(draw * (i + 1))`: an index between 0 and `i`. */
  function Pick(draw: real, i: nat): (j: nat)
    requires 0.0 <= draw < 1.0
    ensures j <= i
  {
    var x := draw * (i + 1) as real;
    ScaledDrawBelow(draw, (i + 1) as real);
    x.Floor
  }

  lemma ScaledDrawBelow(draw: real, n: real)
    requires 0.0 <= draw < 1.0 && n > 0.0
    ensures 0.0 <= draw * n < n
  {
    assert (1.0 - draw) * n > 0.0;
  }

  /** Every index in `[0, i]` is chosen by some draw, so the shuffle can make any of the source's choices. */
  lemma EveryPickReachable(i: nat, j: nat)
    requires j <= i
    ensures var draw := j as real / (i + 1) as real;
      0.0 <= draw < 1.0 && Pick(draw, i) == j
  {
    var draw := j as real / (i + 1) as real;
    assert draw * (i + 1) as real == j as real;
  }

  /** For each position `i`, an index in `[0, i]` to swap it with. */
  ghost predicate ValidPicks(picks: seq<nat>, n: nat) {
    |picks| == n && forall k :: 0 <= k < n ==> picks[k] <= k
  }

  /** The index the shuffle picks at each position. */
  function Picks(draws: seq<real>): (picks: seq<nat>)
    requires ValidDraws(draws, |draws|)
    ensures ValidPicks(picks, |draws|)
  {
    seq(|draws|, k requires 0 <= k < |draws| => Pick(draws[k], k))
  }

  /** The swaps the shuffle loop performs for positions `i` down to 1, applied to `s`. */
  function ShuffleSteps<T>(s: seq<T>, picks: seq<nat>, i: int): seq<T>
    requires i < |s| && ValidPicks(picks, |s|)
    decreases i
  {
    if i <= 0 then s else ShuffleSteps(Swap(s, i, picks[i]), picks, i - 1)
  }

  /** The Fisher–Yates shuffle of `s` driven by `draws`. */
  function Shuffled<T>(s: seq<T>, draws: seq<real>): seq<T>
    requires ValidDraws(draws, |s|)
  {
    ShuffleSteps(s, Picks(draws), |s| - 1)
  }

  lemma {:induction false} ShuffleStepsPermutation<T>(s: seq<T>, picks: seq<nat>, i: int)
    requires i < |s| && ValidPicks(picks, |s|)
    ensures |ShuffleSteps(s, picks, i)| == |s|
    ensures multiset(ShuffleSteps(s, picks, i)) == multiset(s)
    decreases i
  {
    if i > 0 {
      var swapped := Swap(s, i, picks[i]);
      assert |swapped| == |s|;
      ShuffleStepsPermutation(swapped, picks, i - 1);
      assert ShuffleSteps(s, picks, i) == ShuffleSteps(swapped, picks, i - 1);
      assert multiset(swapped) == multiset(s);
    }
  }

  /** The shuffle rearranges the elements, for any draws: same length, same multiset. */
  lemma ShuffledPermutation<T>(s: seq<T>, draws: seq<real>)
    requires ValidDraws(draws, |s|)
    ensures multiset(Shuffled(s, draws)) == multiset(s) && |Shuffled(s, draws)| == |s|
  {
    ShuffleStepsPermutation(s, Picks(draws), |s| - 1);
  }

  /**
   * One iteration of the shuffle loop: once positions `i` and `picks[i]` of
   * `before` have been exchanged, the steps for `i - 1` are left to do.
   */
  lemma ShuffleStep<T>(before: seq<T>, after: seq<T>, picks: seq<nat>, i: int)
    requires 0 < i < |before| == |after| && ValidPicks(picks, |before|)
    requires after[i] == before[picks[i]] && after[picks[i]] == before[i]
    requires forall k :: 0 <= k < |after| && k != i && k != picks[i] ==> after[k] == before[k]
    ensures ShuffleSteps(before, picks, i) == ShuffleSteps(after, picks, i - 1)
  {
    assert after == Swap(before, i, picks[i]);
  }

  /** `shuffleArray`: copies the array and swaps in place from the last position down to 1. */
  method ShuffleArray<T>(items: seq<T>, draws: seq<real>) returns (r: seq<T>)
    requires ValidDraws(draws, |items|)
    ensures r == Shuffled(items, draws)
  {
    var newArray := new T[|items|](k requires 0 <= k < |items| => items[k]);
    assert newArray[..] == items;
    ghost var picks := Picks(draws);
    ghost var target := Shuffled(items, draws);
    var i := newArray.Length - 1;
    while i > 0
      invariant -1 <= i < newArray.Length == |picks|
      invariant ShuffleSteps(newArray[..], picks, i) == target
    {
      var j := Pick(draws[i], i);
      assert j == picks[i];
      ghost var before := newArray[..];
      var t := newArray[i];
      newArray[i] := newArray[j];
      newArray[j] := t;
      ShuffleStep(before, newArray[..], picks, i);
      i := i - 1;
    }
    r := newArray[..];
  }

  /* ---------------- ordering ---------------- */

  /** The comparator of the `top` feed: popularity first, then upvotes, both descending. */
  function TopRank(q: Quote): Rank {
    Rank(q.popularity as real, q.upvotes)
  }

  /** The order the feed presents: `trending`, `top`, and a shuffle for any other type. */
  function ArrangeFeed(feedType: string, quotes: seq<Quote>, draws: seq<real>): seq<Quote>
    requires ValidDraws(draws, |quotes|)
  {
    if feedType == "trending" then SortDesc(quotes, UpvoteRank)
    else if feedType == "top" then SortDesc(quotes, TopRank)
    else Shuffled(quotes, draws)
  }

  /** Every feed order is a rearrangement of the store's quotes. */
  lemma ArrangeFeedPermutation(feedType: string, quotes: seq<Quote>, draws: seq<real>)
    requires ValidDraws(draws, |quotes|)
    ensures multiset(ArrangeFeed(feedType, quotes, draws)) == multiset(quotes)
    ensures |ArrangeFeed(feedType, quotes, draws)| == |quotes|
  {
    if feedType != "trending" && feedType != "top" {
      ShuffledPermutation(quotes, draws);
    }
  }

  /** `trending` lists quotes by upvotes, most first; `top` by popularity, then upvotes. */
  lemma ArrangeFeedSorted(feedType: string, quotes: seq<Quote>, draws: seq<real>, i: int, j: int)
    requires ValidDraws(draws, |quotes|)
    requires 0 <= i < j < |quotes|
    ensures var r := ArrangeFeed(feedType, quotes, draws);
      && (feedType == "trending" ==> r[i].upvotes >= r[j].upvotes)
      && (feedType == "top" ==>
            (r[i].popularity > r[j].popularity
             || (r[i].popularity == r[j].popularity && r[i].upvotes >= r[j].upvotes)))
  {
  }

  /** Quotes that tie in the `trending` or `top` order keep the store's order. */
  lemma ArrangeFeedStable(feedType: string, quotes: seq<Quote>, draws: seq<real>, k: Rank)
    requires ValidDraws(draws, |quotes|)
    ensures feedType == "trending" ==>
      WithRank(ArrangeFeed(feedType, quotes, draws), UpvoteRank, k) == WithRank(quotes, UpvoteRank, k)
    ensures feedType == "top" ==>
      WithRank(ArrangeFeed(feedType, quotes, draws), TopRank, k) == WithRank(quotes, TopRank, k)
  {
    SortStable(quotes, UpvoteRank, k);
    SortStable(quotes, TopRank, k);
  }

  /* ---------------- pagination ---------------- */

  /** `{quotes: feedQuotes.slice(startIndex, endIndex), hasMore: endIndex < length, total: length}`. */
  function Paginate(ordered: seq<Quote>, page: int, limit: int): FeedPage {
    var startIndex := (page - 1) * limit;
    var endIndex := startIndex + limit;
    FeedPage(Slice(ordered, startIndex, endIndex), endIndex < |ordered|, |ordered|)
  }

  /** `getFeedQuotes(type, page, limit)`. */
  method GetFeedQuotes(quotes: seq<Quote>, feedType: string, page: int, limit: int, draws: seq<real>)
    returns (r: FeedPage)
    requires ValidDraws(draws, |quotes|)
    ensures r == Paginate(ArrangeFeed(feedType, quotes, draws), page, limit)
  {
    var feedQuotes := quotes;
    if feedType == "trending" {
      feedQuotes := SortDesc(feedQuotes, UpvoteRank);
    } else if feedType == "top" {
      feedQuotes := SortDesc(feedQuotes, TopRank);
    } else {
      feedQuotes := ShuffleArray(feedQuotes, draws);
    }
    r := Paginate(feedQuotes, page, limit);
  }

  lemma ProductNonNegative(a: int, b: int)
    requires 0 <= a && 0 <= b
    ensures 0 <= a * b
  {
  }

  /**
   * For `page >= 1` and `limit >= 0`: the page holds the ordered quotes
   * from `(page - 1) * limit` up to `min(page * limit, n)`, at most `limit`
   * of them; `hasMore` says whether quotes remain after it; `total` is
   * the number of quotes.
   */
  lemma PaginateWindow(ordered: seq<Quote>, page: int, limit: int)
    requires 1 <= page && 0 <= limit
    ensures var r, n, start, end := Paginate(ordered, page, limit), |ordered|, (page - 1) * limit, page * limit;
      var hi := if end < n then end else n;
      && r.quotes == (if start < hi then ordered[start..hi] else [])
      && |r.quotes| <= limit
      && (r.hasMore <==> end < n)
      && r.total == n
  {
    ProductNonNegative(page - 1, limit);
    assert (page - 1) * limit + limit == page * limit;
    SliceNonNegative(ordered, (page - 1) * limit, page * limit);
  }

  /** The quotes of pages 1 to `pages` of one fixed ordering, one after the other. */
  function PagesUpTo(ordered: seq<Quote>, pages: nat, limit: int): seq<Quote> {
    if pages == 0 then [] else PagesUpTo(ordered, pages - 1, limit) + Paginate(ordered, pages, limit).quotes
  }

  /**
   * Pages tile the ordered quotes: the first `pages` pages together are
   * the first `min(pages * limit, n)` quotes, without gap or repetition.
   */
  lemma {:induction false} PagesTile(ordered: seq<Quote>, pages: nat, limit: int)
    requires 0 <= limit
    ensures var end := pages * limit;
      PagesUpTo(ordered, pages, limit) == ordered[..if end < |ordered| then end else |ordered|]
  {
    if pages > 0 {
      PagesTile(ordered, pages - 1, limit);
      PaginateWindow(ordered, pages, limit);
      ProductNonNegative(pages - 1, limit);
      var n := |ordered|;
      var start, end := (pages - 1) * limit, pages * limit;
      assert start <= end;
      var lo := if start < n then start else n;
      var hi := if end < n then end else n;
      assert ordered[..lo] + (if start < hi then ordered[start..hi] else []) == ordered[..hi];
    }
  }

  /**
   * For one fixed ordering: once a page reports no more quotes, pages 1
   * up to it hold every quote of that ordering exactly once, in order.
   */
  lemma LastPageCompletesFeed(ordered: seq<Quote>, pages: nat, limit: int)
    requires 1 <= pages && 0 <= limit
    requires !Paginate(ordered, pages, limit).hasMore
    ensures PagesUpTo(ordered, pages, limit) == ordered
  {
    PagesTile(ordered, pages, limit);
    PaginateWindow(ordered, pages, limit);
  }

  /**
   * Every call of the random feed shuffles anew, so pages fetched by
   * separate calls need not come from one ordering: with two quotes and
   * one quote per page, page 1 under one set of draws and page 2 under
   * another both hold `b`, and page 2 reports no more quotes, so `a` is
   * never on either page.
   */
  lemma RandomPagesCanRepeat(a: Quote, b: Quote)
    ensures ValidDraws([0.0, 0.0], 2) && ValidDraws([0.0, 0.9], 2)
    ensures Paginate(ArrangeFeed("random", [a, b], [0.0, 0.0]), 1, 1) == FeedPage([b], true, 2)
    ensures Paginate(ArrangeFeed("random", [a, b], [0.0, 0.9]), 2, 1) == FeedPage([b], false, 2)
  {
    assert Pick(0.0, 1) == 0;
    assert Pick(0.9, 1) == 1 by {
      assert 0.9 * (1 + 1) as real == 1.8;
    }
    assert Picks([0.0, 0.0])[1] == 0;
    assert Picks([0.0, 0.9])[1] == 1;
    var swapped := Swap([a, b], 1, 0);
    assert swapped == [b, a];
    assert Shuffled([a, b], [0.0, 0.0]) == swapped;
    assert Shuffled([a, b], [0.0, 0.9]) == Swap([a, b], 1, 1) == [a, b];
    assert Slice([b, a], 0, 1) == [b];
    assert Slice([a, b], 1, 2) == [b];
  }

  /* ---------------- a worked example ---------------- */

  /** The elements of a five-element sequence with key `k`, one position at a time. */
  lemma WithRankFive<T>(s: seq<T>, key: T -> Rank, k: Rank)
    requires |s| == 5
    ensures WithRank(s, key, k) ==
      (if key(s[0]) == k then [s[0]] else []) + (if key(s[1]) == k then [s[1]] else [])
      + (if key(s[2]) == k then [s[2]] else []) + (if key(s[3]) == k then [s[3]] else [])
      + (if key(s[4]) == k then [s[4]] else [])
  {
    assert s == [s[0]] + [s[1]] + [s[2]] + [s[3]] + [s[4]];
    WithRankAppend([s[0]] + [s[1]] + [s[2]] + [s[3]], [s[4]], key, k);
    WithRankAppend([s[0]] + [s[1]] + [s[2]], [s[3]], key, k);
    WithRankAppend([s[0]] + [s[1]], [s[2]], key, k);
    WithRankAppend([s[0]], [s[1]], key, k);
    WithRankSingle(s[0], key, k);
    WithRankSingle(s[1], key, k);
    WithRankSingle(s[2], key, k);
    WithRankSingle(s[3], key, k);
    WithRankSingle(s[4], key, k);
  }

  /** The five upvote counts of the example: 5, 1, 9, 3, 7. */
  ghost predicate ExampleUpvotes(quotes: seq<Quote>) {
    |quotes| == 5 && quotes[0].upvotes == 5 && quotes[1].upvotes == 1 && quotes[2].upvotes == 9
    && quotes[3].upvotes == 3 && quotes[4].upvotes == 7
  }

  /** The example's quotes in `trending` order. */
  function ExampleTrending(quotes: seq<Quote>): seq<Quote>
    requires |quotes| == 5
  {
    [quotes[2], quotes[4], quotes[0], quotes[3], quotes[1]]
  }

  lemma ExampleTrendingSorted(quotes: seq<Quote>)
    requires ExampleUpvotes(quotes)
    ensures SortedDesc(ExampleTrending(quotes), UpvoteRank)
  {
    var r := ExampleTrending(quotes);
    assert forall i :: 0 <= i < 4 ==> r[i].upvotes > r[i + 1].upvotes;
  }

  lemma ExampleTrendingClasses(quotes: seq<Quote>, k: Rank)
    requires ExampleUpvotes(quotes)
    ensures WithRank(ExampleTrending(quotes), UpvoteRank, k) == WithRank(quotes, UpvoteRank, k)
  {
    var r := ExampleTrending(quotes);
    WithRankFive(r, UpvoteRank, k);
    WithRankFive(quotes, UpvoteRank, k);
    if UpvoteRank(quotes[0]) == k {
      assert WithRank(r, UpvoteRank, k) == [quotes[0]] == WithRank(quotes, UpvoteRank, k);
    } else if UpvoteRank(quotes[1]) == k {
      assert WithRank(r, UpvoteRank, k) == [quotes[1]] == WithRank(quotes, UpvoteRank, k);
    } else if UpvoteRank(quotes[2]) == k {
      assert WithRank(r, UpvoteRank, k) == [quotes[2]] == WithRank(quotes, UpvoteRank, k);
    } else if UpvoteRank(quotes[3]) == k {
      assert WithRank(r, UpvoteRank, k) == [quotes[3]] == WithRank(quotes, UpvoteRank, k);
    } else if UpvoteRank(quotes[4]) == k {
      assert WithRank(r, UpvoteRank, k) == [quotes[4]] == WithRank(quotes, UpvoteRank, k);
    } else {
      assert WithRank(r, UpvoteRank, k) == [] == WithRank(quotes, UpvoteRank, k);
    }
  }

  /** The stable sort by upvotes puts the example's quotes in the order 9, 7, 5, 3, 1. */
  lemma ExampleSortDesc(quotes: seq<Quote>)
    requires ExampleUpvotes(quotes)
    ensures SortDesc(quotes, UpvoteRank) == ExampleTrending(quotes)
  {
    var r := ExampleTrending(quotes);
    ExampleTrendingSorted(quotes);
    forall k ensures WithRank(r, UpvoteRank, k) == WithRank(quotes, UpvoteRank, k) {
      ExampleTrendingClasses(quotes, k);
    }
    StableSortUnique(quotes, r, UpvoteRank);
  }

  /**
   * Five quotes with upvotes 5, 1, 9, 3, 7: the first `trending` page of
   * two holds the quotes with 9 and 7 upvotes and reports more to come;
   * the third page holds the last quote, the one with 1 upvote, and
   * reports the end.
   */
  lemma TrendingExample(quotes: seq<Quote>, draws: seq<real>)
    requires ExampleUpvotes(quotes) && ValidDraws(draws, 5)
    ensures Paginate(ArrangeFeed("trending", quotes, draws), 1, 2) == FeedPage([quotes[2], quotes[4]], true, 5)
    ensures Paginate(ArrangeFeed("trending", quotes, draws), 3, 2) == FeedPage([quotes[1]], false, 5)
  {
    ExampleSortDesc(quotes);
    assert ArrangeFeed("trending", quotes, draws) == ExampleTrending(quotes);
    ExamplePages(quotes);
  }

  lemma ExamplePages(quotes: seq<Quote>)
    requires |quotes| == 5
    ensures Paginate(ExampleTrending(quotes), 1, 2) == FeedPage([quotes[2], quotes[4]], true, 5)
    ensures Paginate(ExampleTrending(quotes), 3, 2) == FeedPage([quotes[1]], false, 5)
  {
    var r := ExampleTrending(quotes);
    assert Slice(r, 0, 2) == r[0..2] == [quotes[2], quotes[4]];
    assert Slice(r, 4, 6) == r[4..5] == [quotes[1]];
  }
}
