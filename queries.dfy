/**
 * The read-only lookups of the quote store: `getQuoteById`,
 * `getQuotesByAuthor` and `searchQuotes`. Each is a function of the
 * store's current `quotes`, so none of them can change the store.
 */
module QuoteQueries {
  import opened Wrappers
  import opened Text
  import opened ArrayOps
  import opened StableSort
  import opened QuoteModel
  import opened QuoteStoreModule

  /* ---------------- getQuoteById ---------------- */

  /** `quotes.find(quote => quote.id === id) || null`. */
  function GetQuoteById(quotes: seq<Quote>, id: string): (r: Option<Quote>)
    ensures r.None? <==> forall k :: 0 <= k < |quotes| ==> quotes[k].id != id
    ensures r.Some? ==> exists i :: IsFirstWithId(quotes, id, i) && r.value == quotes[i]
  {
    if quotes == [] then None
    else if quotes[0].id == id then
      assert IsFirstWithId(quotes, id, 0);
      Some(quotes[0])
    else
      var r := GetQuoteById(quotes[1..], id);
      assert forall k :: 1 <= k < |quotes| ==> quotes[k] == quotes[1..][k - 1];
      assert forall i :: IsFirstWithId(quotes[1..], id, i) ==> IsFirstWithId(quotes, id, i + 1);
      r
  }

  /** The lookup finds the first quote carrying the id. */
  lemma FirstWithIdFound(quotes: seq<Quote>, id: string, i: int)
    requires IsFirstWithId(quotes, id, i)
    ensures GetQuoteById(quotes, id) == Some(quotes[i])
  {
    var r := GetQuoteById(quotes, id);
    assert quotes[i].id == id;
    var j :| IsFirstWithId(quotes, id, j) && r.value == quotes[j];
    assert !(j < i) && !(i < j);
  }

  /** After an upvote, looking the quote up finds the upvoted version of what was there before. */
  lemma UpvoteThenGet(quotes: seq<Quote>, id: string)
    ensures GetQuoteById(Upvoted(quotes, id), id) == match GetQuoteById(quotes, id)
      case None => None
      case Some(q) => Some(Bump(q))
  {
    var after := Upvoted(quotes, id);
    assert forall k :: 0 <= k < |after| ==> after[k].id == quotes[k].id;
    match GetQuoteById(quotes, id)
    case None =>
    case Some(q) =>
      var i :| IsFirstWithId(quotes, id, i) && q == quotes[i];
      assert IsFirstWithId(after, id, i);
      FirstWithIdFound(after, id, i);
  }

  /* ---------------- getQuotesByAuthor ---------------- */

  /** `quote.author.toLowerCase() === authorName.toLowerCase()`. */
  predicate ByAuthor(q: Quote, authorName: string) {
    Lower(q.author) == Lower(authorName)
  }

  /** The comparator `(a, b) => b.upvotes - a.upvotes`: most upvotes first. */
  function UpvoteRank(q: Quote): Rank {
    Rank(q.upvotes as real, 0)
  }

  /** `quotes.filter(byAuthor).sort((a, b) => b.upvotes - a.upvotes)`. */
  function GetQuotesByAuthor(quotes: seq<Quote>, authorName: string): (r: seq<Quote>)
    ensures forall k :: 0 <= k < |r| ==> ByAuthor(r[k], authorName)
    ensures forall i, j :: 0 <= i < j < |r| ==> r[i].upvotes >= r[j].upvotes
  {
    var matches := Filter(quotes, q => ByAuthor(q, authorName));
    var r := SortDesc(matches, UpvoteRank);
    RearrangedByAuthor(matches, r, authorName);
    UpvoteOrder(r);
    r
  }

  lemma RearrangedByAuthor(matches: seq<Quote>, r: seq<Quote>, authorName: string)
    requires forall k :: 0 <= k < |matches| ==> ByAuthor(matches[k], authorName)
    requires multiset(r) == multiset(matches)
    ensures forall k :: 0 <= k < |r| ==> ByAuthor(r[k], authorName)
  {
    forall k | 0 <= k < |r| ensures ByAuthor(r[k], authorName) {
      assert r[k] in multiset(matches);
      var j :| 0 <= j < |matches| && matches[j] == r[k];
    }
  }

  lemma UpvoteOrder(r: seq<Quote>)
    requires SortedDesc(r, UpvoteRank)
    ensures forall i, j :: 0 <= i < j < |r| ==> r[i].upvotes >= r[j].upvotes
  {
    forall i, j | 0 <= i < j < |r| ensures r[i].upvotes >= r[j].upvotes {
      assert !Ahead(UpvoteRank(r[j]), UpvoteRank(r[i]));
    }
  }

  /**
   * The author page lists exactly the store's quotes whose author matches
   * ignoring case, each as often as it occurs, and quotes with the same
   * upvote count appear in the store's order.
   */
  lemma GetQuotesByAuthorExact(quotes: seq<Quote>, authorName: string, x: Quote, upvotes: int)
    ensures multiset(GetQuotesByAuthor(quotes, authorName))[x]
      == if ByAuthor(x, authorName) then multiset(quotes)[x] else 0
    ensures var tie := Rank(upvotes as real, 0);
      WithRank(GetQuotesByAuthor(quotes, authorName), UpvoteRank, tie)
      == WithRank(Filter(quotes, q => ByAuthor(q, authorName)), UpvoteRank, tie)
  {
    var matches := Filter(quotes, q => ByAuthor(q, authorName));
    FilterMultiplicity(quotes, q => ByAuthor(q, authorName), x);
    SortStable(matches, UpvoteRank, Rank(upvotes as real, 0));
  }

  /** Names that differ only in letter case select the same quotes in the same order. */
  lemma GetQuotesByAuthorIgnoresCase(quotes: seq<Quote>, name1: string, name2: string)
    requires Lower(name1) == Lower(name2)
    ensures GetQuotesByAuthor(quotes, name1) == GetQuotesByAuthor(quotes, name2)
  {
    FilterCongruent(quotes, q => ByAuthor(q, name1), q => ByAuthor(q, name2));
  }

  /* ---------------- searchQuotes ---------------- */

  /** The quote's lower-cased text or author includes `needle`. */
  predicate MatchesQuery(q: Quote, needle: string) {
    Contains(Lower(q.quote), needle) || Contains(Lower(q.author), needle)
  }

  /**
   * `searchQuotes`: nothing for an empty query; otherwise the quotes whose
   * lower-cased text or author includes the lower-cased, trimmed query, in
   * store order.
   */
  function SearchQuotes(quotes: seq<Quote>, query: string): (r: seq<Quote>)
    ensures query == "" ==> r == []
    ensures IsSubsequence(r, quotes)
    ensures forall k :: 0 <= k < |r| ==> MatchesQuery(r[k], Trim(Lower(query)))
  {
    if query == "" then [] else Filter(quotes, q => MatchesQuery(q, Trim(Lower(query))))
  }

  /** A non-empty query keeps every matching quote, as often as it occurs. */
  lemma SearchQuotesComplete(quotes: seq<Quote>, query: string, x: Quote)
    requires query != ""
    ensures multiset(SearchQuotes(quotes, query))[x]
      == if MatchesQuery(x, Trim(Lower(query))) then multiset(quotes)[x] else 0
  {
    FilterMultiplicity(quotes, q => MatchesQuery(q, Trim(Lower(query))), x);
  }

  /** A non-empty query made only of white space trims to "" and so matches every quote. */
  lemma {:induction false} SearchBlankQueryReturnsAll(quotes: seq<Quote>, query: string)
    requires query != "" && AllWhiteSpace(query)
    ensures SearchQuotes(quotes, query) == quotes
  {
    var lowered := Lower(query);
    assert AllWhiteSpace(lowered) by {
      forall k | 0 <= k < |lowered| ensures IsWhiteSpace(lowered[k]) {
        assert lowered[k] == LowerChar(query[k]);
      }
    }
    TrimEmptyIffBlank(lowered);
    forall k | 0 <= k < |quotes| ensures MatchesQuery(quotes[k], Trim(lowered)) {
      ContainsEmpty(Lower(quotes[k].quote));
    }
    FilterAll(quotes, q => MatchesQuery(q, Trim(Lower(query))));
  }
}
