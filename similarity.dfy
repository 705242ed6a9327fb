/**
 * `getSimilarQuotes` and `calculateCosineSimilarity`.
 *
 * The loop that accumulates the dot product and the two squared norms is
 * modelled over integer vectors. The final `dot / (sqrt(normA) *
 * sqrt(normB))` is not computed: a non-zero similarity is kept as its
 * three accumulated parts, and quotes are ordered by
 * `sign(dot) * dot^2 / (normA * normB)`, the cosine times its absolute
 * value. That map is strictly increasing, so it orders (and ties) the
 * candidates exactly as the cosine does.
 */
module Similarity {
  import opened Wrappers
  import opened ArrayOps
  import opened StableSort
  import opened QuoteModel
  import opened QuoteQueries

  /** What `calculateCosineSimilarity` returns: 0 from a guard, or the cosine of the accumulated parts. */
  datatype Cosine = Zero | Ratio(dot: int, normA: int, normB: int)

  /** The sum of `a[i] * b[i]` over the common length. */
  function Dot(a: seq<int>, b: seq<int>): int
    requires |a| == |b|
  {
    if a == [] then 0 else Dot(a[..|a| - 1], b[..|b| - 1]) + a[|a| - 1] * b[|b| - 1]
  }

  /** The cosine similarity of two vectors, with the source's guards: different lengths or a zero norm give 0. */
  function CosineSimilarity(a: seq<int>, b: seq<int>): (c: Cosine)
    ensures c.Ratio? ==> |a| == |b| && c.normA > 0 && c.normB > 0
  {
    if |a| != |b| then Zero
    else
      var normA, normB := Dot(a, a), Dot(b, b);
      SquaredNormNonNegative(a);
      SquaredNormNonNegative(b);
      if normA == 0 || normB == 0 then Zero else Ratio(Dot(a, b), normA, normB)
  }

  /** `calculateCosineSimilarity(vecA, vecB)`: the accumulation loop and its guards. */
  method CalculateCosineSimilarity(vecA: seq<int>, vecB: seq<int>) returns (c: Cosine)
    ensures c == CosineSimilarity(vecA, vecB)
  {
    if |vecA| != |vecB| {
      return Zero;
    }
    var dotProduct, normA, normB := 0, 0, 0;
    var i := 0;
    while i < |vecA|
      invariant 0 <= i <= |vecA|
      invariant dotProduct == Dot(vecA[..i], vecB[..i])
      invariant normA == Dot(vecA[..i], vecA[..i])
      invariant normB == Dot(vecB[..i], vecB[..i])
    {
      assert vecA[..i + 1][..i] == vecA[..i] && vecB[..i + 1][..i] == vecB[..i];
      dotProduct := dotProduct + vecA[i] * vecB[i];
      normA := normA + vecA[i] * vecA[i];
      normB := normB + vecB[i] * vecB[i];
      i := i + 1;
    }
    assert vecA[..i] == vecA && vecB[..i] == vecB;
    if normA == 0 || normB == 0 {
      return Zero;
    }
    return Ratio(dotProduct, normA, normB);
  }

  /** The position of a similarity in the order of cosines: `cos * |cos|`. */
  function Score(c: Cosine): real {
    match c
    case Zero => 0.0
    case Ratio(d, na, nb) =>
      if na * nb == 0 then 0.0
      else (if d < 0 then -1.0 else 1.0) * (d * d) as real / (na * nb) as real
  }

  /* ---------------- properties of the cosine ---------------- */

  lemma {:induction false} SquaredNormNonNegative(a: seq<int>)
    ensures Dot(a, a) >= 0
  {
    if a != [] {
      SquaredNormNonNegative(a[..|a| - 1]);
    }
  }

  /** A squared norm is 0 exactly for the all-zero vector. */
  lemma {:induction false} SquaredNormZero(a: seq<int>)
    ensures Dot(a, a) == 0 <==> forall k :: 0 <= k < |a| ==> a[k] == 0
  {
    if a != [] {
      var init := a[..|a| - 1];
      SquaredNormZero(init);
      SquaredNormNonNegative(init);
      var x := a[|a| - 1];
      assert x * x >= 0;
      assert x * x == 0 <==> x == 0;
      assert forall k :: 0 <= k < |init| ==> init[k] == a[k];
    }
  }

  lemma {:induction false} DotSymmetric(a: seq<int>, b: seq<int>)
    requires |a| == |b|
    ensures Dot(a, b) == Dot(b, a)
  {
    if a != [] {
      DotSymmetric(a[..|a| - 1], b[..|b| - 1]);
    }
  }

  /**
   * The similarity is 0 exactly when the source's guards fire: the lengths
   * differ or one of the vectors is all zeros. It is never a division by zero.
   */
  lemma CosineZeroCases(a: seq<int>, b: seq<int>)
    ensures CosineSimilarity(a, b) == Zero <==>
      |a| != |b|
      || (forall k :: 0 <= k < |a| ==> a[k] == 0)
      || (forall k :: 0 <= k < |b| ==> b[k] == 0)
  {
    SquaredNormZero(a);
    SquaredNormZero(b);
  }

  /** Similarity does not depend on the order of its arguments. */
  lemma SimilaritySymmetric(a: seq<int>, b: seq<int>)
    ensures Score(CosineSimilarity(a, b)) == Score(CosineSimilarity(b, a))
  {
    if |a| == |b| {
      DotSymmetric(a, b);
      var na, nb := Dot(a, a), Dot(b, b);
      assert na * nb == nb * na;
    }
  }

  /** A non-zero vector is perfectly similar to itself. */
  lemma SelfSimilarity(a: seq<int>)
    requires exists k :: 0 <= k < |a| && a[k] != 0
    ensures CosineSimilarity(a, a).Ratio? && Score(CosineSimilarity(a, a)) == 1.0
  {
    SquaredNormZero(a);
    SquaredNormNonNegative(a);
    var n := Dot(a, a);
    assert CosineSimilarity(a, a) == Ratio(n, n, n);
    EqualPartsScoreOne(n);
  }

  lemma EqualPartsScoreOne(n: int)
    requires n > 0
    ensures Score(Ratio(n, n, n)) == 1.0
  {
    PositiveSquare(n);
    var x := (n * n) as real;
    assert Score(Ratio(n, n, n)) == 1.0 * x / x;
    SelfQuotient(x);
  }

  lemma SelfQuotient(x: real)
    requires x > 0.0
    ensures 1.0 * x / x == 1.0
  {
  }

  lemma PositiveSquare(n: int)
    requires n > 0
    ensures n * n > 0
  {
  }

  /* ---------------- getSimilarQuotes ---------------- */

  /** How similar `q` is to the source embedding; a quote without embedding compares as `[]`. */
  function SimilarityScore(sourceEmbedding: Embedding, q: Quote): real {
    Score(CosineSimilarity(sourceEmbedding, q.embedding.GetOr([])))
  }

  /** The sort key of `(a, b) => b.similarityScore - a.similarityScore`. */
  function SimilarityRank(sourceEmbedding: Embedding, q: Quote): Rank {
    Rank(SimilarityScore(sourceEmbedding, q), 0)
  }

  /**
   * `quotes.filter(q => q.id !== quoteId).filter(quote => quote.embedding)`:
   * the other quotes of the store that have an embedding.
   */
  function Candidates(quotes: seq<Quote>, quoteId: string): (r: seq<Quote>)
    ensures forall x :: x in r ==> x.id != quoteId && x.embedding.Some? && x in quotes
    ensures forall k :: 0 <= k < |quotes| && quotes[k].id != quoteId && quotes[k].embedding.Some? ==> quotes[k] in r
    ensures IsSubsequence(r, quotes)
  {
    var others := Filter(quotes, (q: Quote) => q.id != quoteId);
    var r := Filter(others, (q: Quote) => q.embedding.Some?);
    assert forall x :: x in r ==> x in others;
    SubsequenceTransitive(r, others, quotes);
    r
  }

  /** Each candidate occurs exactly as often as in the store; every other quote not at all. */
  lemma CandidatesMultiplicity(quotes: seq<Quote>, quoteId: string, x: Quote)
    ensures multiset(Candidates(quotes, quoteId))[x] ==
      if x.id != quoteId && x.embedding.Some? then multiset(quotes)[x] else 0
  {
    var others := Filter(quotes, (q: Quote) => q.id != quoteId);
    FilterMultiplicity(quotes, (q: Quote) => q.id != quoteId, x);
    FilterMultiplicity(others, (q: Quote) => q.embedding.Some?, x);
  }

  /**
   * `.sort((a, b) => b.similarityScore - a.similarityScore).slice(0, limit)`:
   * the candidates ranked most similar first, cut to `limit`.
   */
  function MostSimilar(sourceEmbedding: Embedding, cands: seq<Quote>, limit: int): seq<Quote> {
    Slice(SortDesc(cands, q => SimilarityRank(sourceEmbedding, q)), 0, limit)
  }

  /**
   * `getSimilarQuotes(quoteId, limit)`: nothing when the source quote is
   * missing or has no embedding; otherwise the other quotes with an
   * embedding, most similar first, cut to `limit`.
   */
  function GetSimilarQuotes(quotes: seq<Quote>, quoteId: string, limit: int): (r: seq<Quote>)
  {
    match GetQuoteById(quotes, quoteId)
    case None => []
    case Some(sourceQuote) =>
      if sourceQuote.embedding.None? then []
      else MostSimilar(sourceQuote.embedding.value, Candidates(quotes, quoteId), limit)
  }

  /**
   * With `limit >= 0`: empty when no quote has the id or it has no
   * embedding. Otherwise the `min(limit, n)` most similar of the `n`
   * candidates, most similar first: quotes of the store, none with the
   * source's id, all with an embedding, taken from the candidates without
   * repetition, and no candidate left out is more similar than one
   * returned.
   */
  lemma GetSimilarQuotesSpec(quotes: seq<Quote>, quoteId: string, limit: int)
    requires 0 <= limit
    ensures var source := GetQuoteById(quotes, quoteId);
      source.None? || source.value.embedding.None? ==> GetSimilarQuotes(quotes, quoteId, limit) == []
    ensures var r := GetSimilarQuotes(quotes, quoteId, limit);
      && |r| <= limit
      && (forall k :: 0 <= k < |r| ==> r[k].id != quoteId && r[k].embedding.Some? && r[k] in quotes)
    ensures var source := GetQuoteById(quotes, quoteId);
      var r, cands := GetSimilarQuotes(quotes, quoteId, limit), Candidates(quotes, quoteId);
      source.Some? && source.value.embedding.Some? ==>
        var emb := source.value.embedding.value;
        && |r| == (if limit < |cands| then limit else |cands|)
        && multiset(r) <= multiset(cands)
        && (forall i, j :: 0 <= i < j < |r| ==> SimilarityScore(emb, r[i]) >= SimilarityScore(emb, r[j]))
        && (forall x, k :: x in multiset(cands) - multiset(r) && 0 <= k < |r| ==>
              SimilarityScore(emb, x) <= SimilarityScore(emb, r[k]))
  {
    match GetQuoteById(quotes, quoteId)
    case None =>
    case Some(sourceQuote) =>
      if sourceQuote.embedding.Some? {
        var emb := sourceQuote.embedding.value;
        var cands := Candidates(quotes, quoteId);
        var r := MostSimilar(emb, cands, limit);
        assert GetSimilarQuotes(quotes, quoteId, limit) == r;
        MostSimilarSpec(emb, cands, limit);
        forall k | 0 <= k < |r| ensures r[k].id != quoteId && r[k].embedding.Some? && r[k] in quotes {
          assert r[k] in multiset(cands);
        }
      }
  }

  /**
   * The `min(limit, n)` most similar of the `n` candidates, most similar
   * first, taken from the candidates without repetition; every candidate
   * occurrence left out is no more similar than any kept.
   */
  lemma MostSimilarSpec(emb: Embedding, cands: seq<Quote>, limit: int)
    requires 0 <= limit
    ensures var r := MostSimilar(emb, cands, limit);
      && |r| == (if limit < |cands| then limit else |cands|)
      && multiset(r) <= multiset(cands)
      && (forall i, j :: 0 <= i < j < |r| ==> SimilarityScore(emb, r[i]) >= SimilarityScore(emb, r[j]))
      && (forall x, k :: x in multiset(cands) - multiset(r) && 0 <= k < |r| ==>
            SimilarityScore(emb, x) <= SimilarityScore(emb, r[k]))
  {
    var sorted := SortDesc(cands, q => SimilarityRank(emb, q));
    SlicePrefix(sorted, limit);
    var r := MostSimilar(emb, cands, limit);
    assert r == sorted[..|r|];
    RankedPrefix(emb, cands, sorted, r);
  }

  /**
   * A prefix of the ranking of `cands` is drawn from them, most similar
   * first, and every candidate occurrence it leaves out is no more
   * similar than any it keeps.
   */
  lemma RankedPrefix(emb: Embedding, cands: seq<Quote>, sorted: seq<Quote>, r: seq<Quote>)
    requires sorted == SortDesc(cands, q => SimilarityRank(emb, q))
    requires |r| <= |sorted| && r == sorted[..|r|]
    ensures multiset(r) <= multiset(cands)
    ensures forall i, j :: 0 <= i < j < |r| ==> SimilarityScore(emb, r[i]) >= SimilarityScore(emb, r[j])
    ensures forall x, k :: x in multiset(cands) - multiset(r) && 0 <= k < |r| ==>
      SimilarityScore(emb, x) <= SimilarityScore(emb, r[k])
  {
    RankedPrefixOrder(emb, sorted, r);
    RankedPrefixLeftOut(emb, cands, sorted, r);
  }

  lemma RankedPrefixOrder(emb: Embedding, sorted: seq<Quote>, r: seq<Quote>)
    requires SortedDesc(sorted, q => SimilarityRank(emb, q))
    requires |r| <= |sorted| && r == sorted[..|r|]
    ensures forall i, j :: 0 <= i < j < |r| ==> SimilarityScore(emb, r[i]) >= SimilarityScore(emb, r[j])
  {
    forall i, j | 0 <= i < j < |r| ensures SimilarityScore(emb, r[i]) >= SimilarityScore(emb, r[j]) {
      assert r[i] == sorted[i] && r[j] == sorted[j];
      NotAheadScore(emb, sorted[j], sorted[i]);
    }
  }

  lemma RankedPrefixLeftOut(emb: Embedding, cands: seq<Quote>, sorted: seq<Quote>, r: seq<Quote>)
    requires sorted == SortDesc(cands, q => SimilarityRank(emb, q))
    requires |r| <= |sorted| && r == sorted[..|r|]
    ensures multiset(r) <= multiset(cands)
    ensures forall x, k :: x in multiset(cands) - multiset(r) && 0 <= k < |r| ==>
      SimilarityScore(emb, x) <= SimilarityScore(emb, r[k])
  {
    SortedPrefixTakesTop(cands, sorted, q => SimilarityRank(emb, q), |r|);
    forall x, k | x in multiset(cands) - multiset(r) && 0 <= k < |r|
      ensures SimilarityScore(emb, x) <= SimilarityScore(emb, r[k])
    {
      NotAheadScore(emb, x, r[k]);
    }
  }

  /** Ranking by similarity compares similarity scores. */
  lemma NotAheadScore(emb: Embedding, x: Quote, y: Quote)
    requires !Ahead(SimilarityRank(emb, x), SimilarityRank(emb, y))
    ensures SimilarityScore(emb, x) <= SimilarityScore(emb, y)
  {
  }
}
