# Quote store model

This project models the in-memory quote store of the Echoes quote site, `context/QuotesContext.js`, in Dafny and proves properties of it. Every page of the site reads quotes through this store. It holds three pieces of state:

- `quotes`: the loaded collection;
- `isLoading`: whether a load is in progress;
- `error`: the message shown when the load failed.

The store offers one load, one update and five queries.

- **Load** (`QuoteStoreModule.QuoteStore.LoadQuotes`). The store fetches the configured source files. It concatenates their records in file order. A record without a truthy `id` gets the id `<file name>_<position>`. Any failure keeps the old quotes and sets the error message. Loading ends either way.
- **Upvote** (`QuoteStoreModule.QuoteStore.UpvoteQuote`). Every quote with the given id gains one upvote and is marked as upvoted in this session. Nothing else changes.
- **Queries** are functions of the current `quotes`, so they cannot change the store:
  - `getQuoteById` is `QuoteQueries.GetQuoteById`;
  - `getQuotesByAuthor` is `QuoteQueries.GetQuotesByAuthor`;
  - `searchQuotes` is `QuoteQueries.SearchQuotes`;
  - `getFeedQuotes` is `Feed.GetFeedQuotes`, which shuffles with `Feed.ShuffleArray`;
  - `getSimilarQuotes` is `Similarity.GetSimilarQuotes`, with `Similarity.CalculateCosineSimilarity`.

Modules, one per file:

| file | module | contents |
|---|---|---|
| `wrappers.dfy` | `Wrappers` | `Option` |
| `text.dfy` | `Text` | the string built-ins the store uses: `toLowerCase` (ASCII), `trim`, `includes`, the path-stripping `replace`, decimal rendering of an index |
| `array_ops.dfy` | `ArrayOps` | `filter`, `slice` (negative arguments count from the end), a two-element swap |
| `stable_sort.dfy` | `StableSort` | `Array.prototype.sort` with a descending key comparator. It is specified as a stable insertion sort; `StableSortUnique` shows every stable sort gives the same result |
| `quote.dfy` | `QuoteModel` | the source-file record and the stored quote |
| `quote_store.dfy` | `QuoteStoreModule` | the store class, loading and id assignment, upvoting |
| `queries.dfy` | `QuoteQueries` | lookup by id, by author, text search |
| `feed.dfy` | `Feed` | Fisher–Yates shuffle, the trending and top orders, pagination |
| `similarity.dfy` | `Similarity` | the cosine loop and similar-quote ranking |

In four places the store's intended behaviour differs from what `context/QuotesContext.js` does. The model follows the code in each case:

- **Search.** `searchQuotes` does not score or rank matches. It keeps every quote whose lower-cased text or author contains the lower-cased, trimmed query, in store order (`context/QuotesContext.js:149-162`).
- **Ids.** Ids are not unique in general. Generated ids are pairwise distinct (`MergedIdsDistinct`), but an id a record brings with it is never checked against them (`ExplicitIdCollision`).
- **Random feed pages.** The feed pages request each page with a new `getFeedQuotes('random', page)` call (`pages/index.js:15`), and each call shuffles afresh. Pages of one fixed ordering tile the feed (`PagesTile`), but separately requested random pages can repeat a quote and miss another (`RandomPagesCanRepeat`).
- **After a failed load.** Queries do not report "unavailable". The failed load keeps `quotes` as it was, which after construction is the empty collection, so every query answers from that collection.

## Model

| member | source | states |
|---|---|---|
| QuoteStoreModule.QuoteStore.constructor | context/QuotesContext.js:18-20 | the store starts with no quotes, loading, and no error |
| QuoteStoreModule.QuoteStore.LoadQuotes | context/QuotesContext.js:24-57 | on success the quotes become the merge of the fetched files in file order and the error is cleared; on failure the quotes are kept and the error is the fixed message; either way loading ends false |
| QuoteStoreModule.QuoteStore.UpvoteQuote | context/QuotesContext.js:63-78 | the quotes become the upvoted collection; loading flag and error are untouched |
| QuoteStoreModule.SourceName | context/QuotesContext.js:35 | the path is exactly optional `/` + name + optional `.json`, each present exactly when the path has it (the contract of `Text.StripSourcePath`, which computes it) |
| Text.StripSourcePath | context/QuotesContext.js:35 | the path is exactly optional `/` + name + optional `.json`, each present exactly when the path has it |
| Text.StripFramedName | context/QuotesContext.js:35 | stripping a path of the form `/name.json` gives back exactly `name` |
| QuoteStoreModule.ConfiguredSourceNames | context/QuotesContext.js:8-14 | the two configured files give the names `quotes_BhagavadGita` and `quotes_Confucius`, which differ |
| QuoteStoreModule.ProcessFile | context/QuotesContext.js:38-44 | a file's processed quotes have as many entries as the file has records |
| QuoteStoreModule.ProcessFileAt | context/QuotesContext.js:38-44 | a record with a truthy id keeps it, any other gets `name_idx`; every other field is copied and `hasUpvoted` is false |
| QuoteStoreModule.MergeFiles | context/QuotesContext.js:33-47 | the merged collection's length is the sum of the files' lengths |
| QuoteStoreModule.MergedPosition | context/QuotesContext.js:33-47 | record `i` of file `f` sits at position (records of earlier files) + `i` of the merged collection, with its assigned id |
| Text.Decimal | context/QuotesContext.js:42 | the decimal rendering of an index is non-empty and all digits, reads back (`DigitsValue`) as the index, has no leading zero, and has two or more digits exactly from 10 on |
| Text.DecimalInjective | context/QuotesContext.js:42 | different indices render differently |
| QuoteStoreModule.GeneratedId | context/QuotesContext.js:42 | the template `${sourceFile}_${idx}`; its shape and injectivity are stated by `GeneratedIdShape` and `GeneratedIdInjective` |
| QuoteStoreModule.WithId | context/QuotesContext.js:38-43 | one processed record; its id rule and copied fields are stated by `ProcessFileAt` |
| QuoteStoreModule.GeneratedIdShape | context/QuotesContext.js:42 | a generated id is the source name, `_`, then only digits rendering the index |
| QuoteStoreModule.GeneratedIdInjective | context/QuotesContext.js:42 | a generated id determines both the source name and the index |
| QuoteStoreModule.GeneratedIdsDistinctInFile | context/QuotesContext.js:38-44 | within one file, two records without their own id get different ids |
| QuoteStoreModule.MergedIdOrigin | context/QuotesContext.js:33-47 | without explicit ids, every merged id was generated for one of the files |
| QuoteStoreModule.MergedIdsDistinct | context/QuotesContext.js:33-47 | without explicit ids and with distinct source names, all merged ids are pairwise distinct |
| QuoteStoreModule.ExplicitIdCollision | context/QuotesContext.js:42 | an explicit id equal to a generated one yields two quotes with the same id |
| QuoteStoreModule.Upvoted | context/QuotesContext.js:66-74 | the upvoted collection; what it keeps and changes is stated by `UpvotedAt`, `UpvoteUnknownId` and `UpvoteTotal` |
| QuoteStoreModule.UpvotedAt | context/QuotesContext.js:66-74 | length and order kept; a quote with the id gains exactly one upvote and the flag, with every other field kept; any other quote is unchanged |
| QuoteStoreModule.UpvoteUnknownId | context/QuotesContext.js:66-74 | an id no quote has leaves the collection equal to before |
| QuoteStoreModule.UpvoteTotal | context/QuotesContext.js:66-74 | the total number of upvotes grows by exactly the number of quotes with the id |
| QuoteQueries.GetQuoteById | context/QuotesContext.js:85-87 | the result is absent exactly when no quote has the id, and otherwise is the first quote with it |
| QuoteQueries.FirstWithIdFound | context/QuotesContext.js:86 | when position `i` holds the first quote with the id, the lookup returns that quote |
| QuoteQueries.UpvoteThenGet | context/QuotesContext.js:63-87 | after an upvote, looking up the id finds the upvoted version of what it found before |
| Text.Lower | context/QuotesContext.js:144 | lower-casing keeps the length, maps each character by itself (an ASCII capital to its small letter, anything else unchanged), and leaves no upper-case letter |
| Text.LowerIdempotent | context/QuotesContext.js:144 | lower-casing twice is lower-casing once |
| QuoteQueries.ByAuthor | context/QuotesContext.js:143-144 | the case-insensitive author test; results of `GetQuotesByAuthor` satisfy it, and `GetQuotesByAuthorIgnoresCase` shows it depends only on the lower-cased name |
| QuoteQueries.GetQuotesByAuthor | context/QuotesContext.js:142-146 | every result matches the author ignoring case, and upvotes never increase along the result |
| QuoteQueries.GetQuotesByAuthorExact | context/QuotesContext.js:142-146 | each matching quote appears as often as in the store, no other does, and quotes with equal upvotes keep store order |
| QuoteQueries.GetQuotesByAuthorIgnoresCase | context/QuotesContext.js:144 | names that lower-case alike give identical results |
| ArrayOps.Filter | context/QuotesContext.js:143-145 | the result is a subsequence of the input holding exactly the elements that satisfy the predicate |
| ArrayOps.FilterMultiplicity | context/QuotesContext.js:155-161 | each kept element occurs as often as in the input, each dropped one not at all |
| StableSort.SortDesc | context/QuotesContext.js:145 | the sort result is ordered by descending key and is a permutation of the input |
| StableSort.SortStable | context/QuotesContext.js:173 | elements with equal keys keep their input order |
| StableSort.StableSortUnique | context/QuotesContext.js:176-181 | any ordered rearrangement that keeps each tie class in input order equals the sort |
| StableSort.SortedSameClassesEqual | context/QuotesContext.js:176-181 | two ordered sequences with the same tie classes are equal |
| Text.Trim | context/QuotesContext.js:152 | `String.prototype.trim`; what it returns is stated by `TrimIsInnerSlice` and `TrimEmptyIffBlank` |
| Text.TrimIsInnerSlice | context/QuotesContext.js:152 | `trim` returns a slice of its input whose ends are not white space, having removed only white space |
| Text.TrimEmptyIffBlank | context/QuotesContext.js:152 | `trim` gives the empty string exactly for an all-white-space input |
| Text.Contains | context/QuotesContext.js:159-160 | `includes` holds exactly when the needle occurs at some position |
| Text.ContainsEmpty | context/QuotesContext.js:159-160 | every string includes the empty string |
| QuoteQueries.MatchesQuery | context/QuotesContext.js:155-161 | the search test on lower-cased text and author; `SearchQuotes` and `SearchQuotesComplete` state that exactly the quotes passing it are returned |
| QuoteQueries.SearchQuotes | context/QuotesContext.js:149-162 | an empty query gives nothing; otherwise the result is an order-preserving subsequence of quotes whose lower-cased text or author includes the lower-cased trimmed query |
| QuoteQueries.SearchQuotesComplete | context/QuotesContext.js:155-161 | for a non-empty query, every matching quote is kept as often as it occurs and no other |
| QuoteQueries.SearchBlankQueryReturnsAll | context/QuotesContext.js:150-152 | a non-empty all-white-space query returns the whole collection |
| Feed.Pick | context/QuotesContext.js:198 | the drawn index lies between 0 and `i` |
| Feed.EveryPickReachable | context/QuotesContext.js:198 | every index between 0 and `i` is drawn by some random value in [0, 1) |
| Feed.ShuffleSteps | context/QuotesContext.js:197-200 | the swaps of the loop from position `i` down to 1; `ShuffleArray` is proved to perform them and `ShuffledPermutation` that they keep the multiset |
| Feed.Shuffled | context/QuotesContext.js:195-202 | the Fisher–Yates shuffle for given draws; `ShuffledPermutation` states it is a permutation |
| Feed.ShuffleArray | context/QuotesContext.js:195-202 | the swap loop over the copied array returns the Fisher–Yates shuffle of the input for the given draws |
| Feed.ShuffledPermutation | context/QuotesContext.js:195-202 | the shuffle is a permutation of its input for any draws |
| ArrayOps.Swap | context/QuotesContext.js:199 | the swap exchanges two positions, leaves the rest, and keeps the multiset |
| Feed.ArrangeFeed | context/QuotesContext.js:169-185 | the feed order for a type; its properties are stated by `ArrangeFeedPermutation`, `ArrangeFeedSorted` and `ArrangeFeedStable` |
| Feed.ArrangeFeedPermutation | context/QuotesContext.js:169-185 | every feed order is a permutation of the store's quotes |
| Feed.ArrangeFeedSorted | context/QuotesContext.js:171-181 | `trending` is non-increasing in upvotes; `top` is non-increasing in popularity, then in upvotes |
| Feed.ArrangeFeedStable | context/QuotesContext.js:171-181 | ties under `trending` or `top` keep store order |
| Feed.GetFeedQuotes | context/QuotesContext.js:165-192 | the feed page is the chosen order cut to the page window, with `hasMore` and `total` |
| ArrayOps.Slice | context/QuotesContext.js:188 | `Array.prototype.slice`; its bounds are stated by `RelativeIndex` and `SliceNonNegative` |
| ArrayOps.RelativeIndex | context/QuotesContext.js:188 | a slice bound is clamped to [0, n], counting from the end when negative |
| ArrayOps.SliceNonNegative | context/QuotesContext.js:188 | with non-negative bounds, `slice` returns the elements from the start up to the smaller of the end and the length |
| Feed.Paginate | context/QuotesContext.js:187-191 | one page of an ordering; its window, `hasMore` and `total` are stated by `PaginateWindow`, `PagesTile` and `LastPageCompletesFeed` |
| Feed.PaginateWindow | context/QuotesContext.js:166-191 | for page ≥ 1 and limit ≥ 0, the page holds positions `(page-1)*limit` up to `min(page*limit, n)`, at most `limit` quotes; `hasMore` holds exactly when `page*limit < n`; `total` is `n` |
| Feed.PagesTile | context/QuotesContext.js:187-191 | for one fixed ordering, pages 1 to `p` together are the first `min(p*limit, n)` ordered quotes, without gap or repetition |
| Feed.LastPageCompletesFeed | context/QuotesContext.js:187-191 | for one fixed ordering, once `hasMore` is false, pages 1 up to that page hold every quote of the ordering exactly once, in order |
| Feed.RandomPagesCanRepeat | context/QuotesContext.js:183-202 | the random feed shuffles afresh on every call, so two pages requested separately can show the same quote: for quotes `[a, b]`, page 1 of size 1 under draws `[0.0, 0.0]` is `[b]`, and page 2 under draws `[0.0, 0.9]` is `[b]` with `hasMore` false |
| Feed.ExampleSortDesc | context/QuotesContext.js:173 | upvotes 5, 1, 9, 3, 7 sort to 9, 7, 5, 3, 1 |
| Feed.TrendingExample | context/QuotesContext.js:165-192 | with those upvotes, trending page 1 of size 2 is the 9 and the 7 with more to come; page 3 is the 1 and the last page |
| Similarity.CalculateCosineSimilarity | context/QuotesContext.js:120-139 | the accumulation loop returns the cosine of the whole vectors under the source's guards |
| Similarity.CosineSimilarity | context/QuotesContext.js:120-139 | a non-zero similarity only arises for equal lengths and positive squared norms |
| Similarity.CosineZeroCases | context/QuotesContext.js:121-135 | the similarity is 0 exactly when the lengths differ or a vector is all zeros, so there is no division by zero |
| Similarity.SquaredNormZero | context/QuotesContext.js:130-135 | a squared norm is 0 exactly for the all-zero vector |
| Similarity.DotSymmetric | context/QuotesContext.js:129 | the dot product does not depend on argument order |
| Similarity.SimilaritySymmetric | context/QuotesContext.js:120-139 | the similarity of a and b equals that of b and a |
| Similarity.SelfSimilarity | context/QuotesContext.js:138 | a non-zero vector has similarity 1 with itself |
| Similarity.Candidates | context/QuotesContext.js:95-99 | the candidates are exactly the store quotes without the source id that have an embedding, in store order (a subsequence of the store); `CandidatesMultiplicity` gives their counts |
| Similarity.CandidatesMultiplicity | context/QuotesContext.js:95-99 | each qualifying quote is a candidate exactly as often as it occurs in the store, and any other quote never is |
| ArrayOps.SubsequenceTransitive | context/QuotesContext.js:95-99 | filtering a filtered sequence still deletes elements only, keeping order |
| Similarity.MostSimilar | context/QuotesContext.js:113-116 | the ranking cut to `limit`; its properties are stated by `MostSimilarSpec` |
| Similarity.MostSimilarSpec | context/QuotesContext.js:113-116 | the `min(limit, n)` most similar of the `n` candidates, most similar first, taken from the candidates without repetition; no candidate left out is more similar than one kept |
| Similarity.GetSimilarQuotes | context/QuotesContext.js:90-117 | the whole query; its contract is stated by `GetSimilarQuotesSpec` |
| Similarity.GetSimilarQuotesSpec | context/QuotesContext.js:90-117 | nothing when the source quote is missing or has no embedding; otherwise at most `limit` store quotes, none with the source id, all with an embedding; exactly `min(limit, n)` of the `n` candidates, drawn from them without repetition, in non-increasing similarity, and no candidate left out is more similar than any returned |

## Left out

- React plumbing is not modelled: the context, the state hooks, the effect that starts the load, and the `useQuotes` hook (`context/QuotesContext.js:1-5`, `16-23`, `59-60`, `204-233`). The store is a plain class instead.
- The fetch is not modelled: `axios.get` and `Promise.all` are network I/O. `LoadQuotes` receives their outcome as a parameter, either every file's records or a failure. A file that is not valid JSON is one more failure.
- `console.error` on a failed load is not modelled.
- Values the source reads without checking must be present here: `upvotes`, `popularity`, `author` and `quote`. In JavaScript a missing one gives `undefined` and `NaN` comparisons, and the model does not cover those.
- JavaScript numbers are modelled as unbounded integers: upvotes, popularity, page, limit and embedding entries. Fractional page or limit values are not modelled.
- Ids are modelled as strings. A numeric `id` in a source file is not modelled.
- Record fields the store only copies through, such as `explanation` and `tags`, are not modelled.
- Default arguments are not modelled: `type = 'random'`, `page = 1` and `limit = 10` of `getFeedQuotes`, and `limit = 3` of `getSimilarQuotes`. The model's callers pass every argument; the site's feed pages rely on `limit = 10` (`pages/index.js:15` and `pages/trending.js:17` omit it).
- `Math.random()` is not modelled. The shuffle receives one value in [0, 1) per position and turns each into an index as the source does.
- The files under `components/` and `pages/` are not part of this model.
- Text.Lower: lower-cases ASCII letters only; JavaScript's `toLowerCase` also maps the rest of Unicode.
- Similarity.CosineSimilarity: returns the accumulated dot product and squared norms instead of the floating-point quotient `dot / (sqrt(normA) * sqrt(normB))`. Square roots and floating-point rounding are not modelled.
- Similarity.GetSimilarQuotesSpec: orders candidates by `sign(dot) * dot² / (normA * normB)`, the cosine times its absolute value. Over the reals this is strictly increasing in the cosine, so it sorts and ties exactly as the cosine does; this is argued here, not proved, because the model has no square root. The returned quotes also lack the `similarityScore` field the source attaches.
- Similarity.MostSimilarSpec: compares candidates by the same order-preserving score as `GetSimilarQuotesSpec`, not by the floating-point cosine.
- QuoteStoreModule.MergedIdsDistinct: the lemma assumes no record brings its own id; an explicit id can collide with a generated one (`ExplicitIdCollision`), because the source does not check explicit ids against generated ones.
