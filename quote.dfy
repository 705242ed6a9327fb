/**
 * The one entity of the quote store: a quote as read from a source file
 * (`Record`, whose `id` may be missing) and as held by the store (`Quote`,
 * whose `id` has been assigned and which carries the session-local
 * `hasUpvoted` flag).
 */
module QuoteModel {
  import opened Wrappers

  /** An embedding vector. The source holds floating-point numbers; the model uses integers. */
  type Embedding = seq<int>

  /** One element of a source file's JSON array. */
  datatype Record = Record(
    id: Option<string>,
    quote: string,
    author: string,
    source: Option<string>,
    upvotes: int,
    popularity: int,
    embedding: Option<Embedding>)

  /** A quote held by the store. */
  datatype Quote = Quote(
    id: string,
    quote: string,
    author: string,
    source: Option<string>,
    upvotes: int,
    popularity: int,
    hasUpvoted: bool,
    embedding: Option<Embedding>)

  /** The first quote of `quotes` whose identifier is `id` sits at position `i`. */
  ghost predicate IsFirstWithId(quotes: seq<Quote>, id: string, i: int) {
    0 <= i < |quotes| && quotes[i].id == id
    && forall k :: 0 <= k < i ==> quotes[k].id != id
  }

  /** The identifiers of `quotes` are pairwise distinct. */
  ghost predicate DistinctIds(quotes: seq<Quote>) {
    forall i, j :: 0 <= i < j < |quotes| ==> quotes[i].id != quotes[j].id
  }
}
