/**
 * The quote store of `context/QuotesContext.js`: the state the provider
 * keeps (`quotes`, `isLoading`, `error`), the load that fills it from the
 * configured source files, and the upvote that updates it.
 *
 * The fetch itself is not modelled: `LoadQuotes` receives what
 * `Promise.all` would have produced, either one array of records per source
 * file or a failure.
 */
module QuoteStoreModule {
  import opened Wrappers
  import opened Text
  import opened QuoteModel

  /** The source files the store loads, in declaration order. */
  const QuoteFiles: seq<string> := ["/quotes_BhagavadGita.json", "/quotes_Confucius.json"]

  /** The message the store reports when any source file fails to load. */
  const LoadErrorMessage: string := "Failed to load quotes. Please try again later."

  /* ---------------- identifier assignment ---------------- */

  /** A record's own `id` is kept when it is truthy: present and not the empty string. */
  predicate IsTruthyId(id: Option<string>) {
    id.Some? && id.value != ""
  }

  /**
   * `quoteFiles[index].replace(/^\/|\.json$/g, '')`: the name a source
   * file contributes to generated ids.
   */
  function SourceName(path: string): (name: string)
    ensures path == (if StartsWith(path, "/") then "/" else "") + name
                    + (if EndsWithJson(path) then JsonExtension else "")
  {
    StripSourcePath(path)
  }

  /** `${sourceFile}_${idx}`. */
  function GeneratedId(sourceName: string, idx: nat): string {
    sourceName + "_" + Decimal(idx)
  }

  /** The record at position `idx` of a source file, as the store holds it. */
  function WithId(r: Record, sourceName: string, idx: nat): Quote {
    Quote(if IsTruthyId(r.id) then r.id.value else GeneratedId(sourceName, idx),
          r.quote, r.author, r.source, r.upvotes, r.popularity, false, r.embedding)
  }

  /** `response.data.map((quote, idx) => ({...quote, id: quote.id || `${sourceFile}_${idx}`}))`. */
  function ProcessFile(records: seq<Record>, sourceName: string): (r: seq<Quote>)
    ensures |r| == |records|
  {
    seq(|records|, i requires 0 <= i < |records| => WithId(records[i], sourceName, i))
  }

  /** The sum of the lengths of the per-file arrays. */
  function TotalLength(responses: seq<seq<Record>>): nat {
    if responses == [] then 0 else TotalLength(responses[..|responses| - 1]) + |responses[|responses| - 1]|
  }

  /** The concatenation, in file order, of every file's processed records. */
  function MergeFiles(files: seq<string>, responses: seq<seq<Record>>): (r: seq<Quote>)
    requires |files| == |responses|
    ensures |r| == TotalLength(responses)
  {
    if responses == [] then []
    else
      var n := |responses| - 1;
      MergeFiles(files[..n], responses[..n]) + ProcessFile(responses[n], SourceName(files[n]))
  }

  /* ---------------- upvote ---------------- */

  /** `{...quote, upvotes: quote.upvotes + 1, hasUpvoted: true}`. */
  function Bump(q: Quote): Quote {
    q.(upvotes := q.upvotes + 1, hasUpvoted := true)
  }

  /** `prevQuotes.map(quote => quote.id === quoteId ? {...} : quote)`. */
  function Upvoted(quotes: seq<Quote>, quoteId: string): seq<Quote> {
    seq(|quotes|, i requires 0 <= i < |quotes| => if quotes[i].id == quoteId then Bump(quotes[i]) else quotes[i])
  }

  /* ---------------- the store ---------------- */

  class QuoteStore {
    var quotes: seq<Quote>
    var isLoading: bool
    var error: Option<string>

    /** The provider's initial state: no quotes, loading, no error. */
    constructor ()
      ensures quotes == [] && isLoading && error == None
    {
      quotes := [];
      isLoading := true;
      error := None;
    }

    /**
     * `loadQuotes`: `fetched` is `None` when a request failed, otherwise
     * one array of records per entry of `QuoteFiles`. On success the
     * quotes are replaced by the merged collection and the error cleared;
     * on failure the quotes are kept and the error is set. Either way
     * loading ends.
     */
    method LoadQuotes(fetched: Option<seq<seq<Record>>>)
      requires fetched.Some? ==> |fetched.value| == |QuoteFiles|
      modifies this
      ensures !isLoading
      ensures fetched.Some? ==> quotes == MergeFiles(QuoteFiles, fetched.value) && error == None
      ensures fetched.None? ==> quotes == old(quotes) && error == Some(LoadErrorMessage)
    {
      isLoading := true;
      match fetched {
        case None =>
          error := Some(LoadErrorMessage);
        case Some(responses) =>
          var allQuotes: seq<Quote> := [];
          var index := 0;
          while index < |responses|
            invariant 0 <= index <= |responses|
            invariant allQuotes == MergeFiles(QuoteFiles[..index], responses[..index])
          {
            var sourceFile := SourceName(QuoteFiles[index]);
            var processedQuotes := ProcessFile(responses[index], sourceFile);
            assert QuoteFiles[..index + 1][..index] == QuoteFiles[..index];
            assert responses[..index + 1][..index] == responses[..index];
            allQuotes := allQuotes + processedQuotes;
            index := index + 1;
          }
          assert QuoteFiles[..index] == QuoteFiles && responses[..index] == responses;
          quotes := allQuotes;
          error := None;
      }
      isLoading := false;
    }

    /** `upvoteQuote`: every quote with identifier `quoteId` gains one upvote and is marked upvoted. */
    method UpvoteQuote(quoteId: string)
      modifies this
      ensures quotes == Upvoted(old(quotes), quoteId)
      ensures isLoading == old(isLoading) && error == old(error)
    {
      quotes := Upvoted(quotes, quoteId);
    }
  }

  /* ---------------- properties of the load ---------------- */

  /** A record with a truthy `id` keeps it; any other gets `sourceName_idx`; every other field is copied. */
  lemma ProcessFileAt(records: seq<Record>, sourceName: string, idx: int)
    requires 0 <= idx < |records|
    ensures var q, r := ProcessFile(records, sourceName)[idx], records[idx];
      && q.id == (if IsTruthyId(r.id) then r.id.value else sourceName + "_" + Decimal(idx))
      && q.quote == r.quote && q.author == r.author && q.source == r.source
      && q.upvotes == r.upvotes && q.popularity == r.popularity && q.embedding == r.embedding
      && !q.hasUpvoted
  {
  }

  lemma GeneratedIdShape(sourceName: string, idx: nat)
    ensures var id := GeneratedId(sourceName, idx);
      && id[..|sourceName|] == sourceName && id[|sourceName|] == '_'
      && Decimal(idx) == id[|sourceName| + 1..]
      && forall k :: |sourceName| < k < |id| ==> IsDigit(id[k])
  {
    var id := GeneratedId(sourceName, idx);
    assert id[|sourceName| + 1..] == Decimal(idx);
    forall k | |sourceName| < k < |id| ensures IsDigit(id[k]) {
      assert id[k] == Decimal(idx)[k - |sourceName| - 1];
    }
  }

  /**
   * A generated id determines the source name and the position it was
   * made from: the text after the last `_` is all digits.
   */
  lemma GeneratedIdInjective(name1: string, idx1: nat, name2: string, idx2: nat)
    requires GeneratedId(name1, idx1) == GeneratedId(name2, idx2)
    ensures name1 == name2 && idx1 == idx2
  {
    var id := GeneratedId(name1, idx1);
    GeneratedIdShape(name1, idx1);
    GeneratedIdShape(name2, idx2);
    assert !IsDigit('_');
    assert |name1| == |name2|;
    DecimalInjective(idx1, idx2);
  }

  /** Within one file, two records without a truthy id get different ids. */
  lemma GeneratedIdsDistinctInFile(records: seq<Record>, sourceName: string, i: int, j: int)
    requires 0 <= i < j < |records|
    requires !IsTruthyId(records[i].id) && !IsTruthyId(records[j].id)
    ensures ProcessFile(records, sourceName)[i].id != ProcessFile(records, sourceName)[j].id
  {
    if GeneratedId(sourceName, i) == GeneratedId(sourceName, j) {
      GeneratedIdInjective(sourceName, i, sourceName, j);
    }
  }

  /** No record of any response carries an id of its own. */
  ghost predicate NoExplicitIds(responses: seq<seq<Record>>) {
    forall f, i :: 0 <= f < |responses| && 0 <= i < |responses[f]| ==> !IsTruthyId(responses[f][i].id)
  }

  /** The files' source names are pairwise distinct. */
  ghost predicate DistinctSourceNames(files: seq<string>) {
    forall f, g :: 0 <= f < g < |files| ==> SourceName(files[f]) != SourceName(files[g])
  }

  /** `id` was generated for some position of the file at index `f`. */
  ghost predicate GeneratedForFile(id: string, files: seq<string>, f: int) {
    0 <= f < |files| && exists idx: nat :: id == GeneratedId(SourceName(files[f]), idx)
  }

  lemma NoExplicitIdsPrefix(responses: seq<seq<Record>>, n: int)
    requires NoExplicitIds(responses) && 0 <= n <= |responses|
    ensures NoExplicitIds(responses[..n])
  {
    forall f, i | 0 <= f < n && 0 <= i < |responses[..n][f]|
      ensures !IsTruthyId(responses[..n][f][i].id)
    {
      assert responses[..n][f] == responses[f];
    }
  }

  lemma {:induction false} MergedIdOrigin(files: seq<string>, responses: seq<seq<Record>>, k: int)
    requires |files| == |responses| && NoExplicitIds(responses)
    requires 0 <= k < |MergeFiles(files, responses)|
    ensures exists f :: GeneratedForFile(MergeFiles(files, responses)[k].id, files, f)
  {
    var n := |responses| - 1;
    var prefix := MergeFiles(files[..n], responses[..n]);
    var last := ProcessFile(responses[n], SourceName(files[n]));
    assert MergeFiles(files, responses) == prefix + last;
    if k < |prefix| {
      NoExplicitIdsPrefix(responses, n);
      MergedIdOrigin(files[..n], responses[..n], k);
      var f :| GeneratedForFile(prefix[k].id, files[..n], f);
      assert files[..n][f] == files[f];
      assert MergeFiles(files, responses)[k] == prefix[k];
      assert GeneratedForFile(prefix[k].id, files, f);
    } else {
      var i := k - |prefix|;
      assert MergeFiles(files, responses)[k] == last[i];
      assert last[i].id == GeneratedId(SourceName(files[n]), i);
      assert GeneratedForFile(last[i].id, files, n);
    }
  }

  /** Two collections with distinct ids and no id in common concatenate to one with distinct ids. */
  lemma ConcatDistinctIds(prefix: seq<Quote>, last: seq<Quote>)
    requires DistinctIds(prefix) && DistinctIds(last)
    requires forall i, j :: 0 <= i < |prefix| && 0 <= j < |last| ==> prefix[i].id != last[j].id
    ensures DistinctIds(prefix + last)
  {
    var all := prefix + last;
    forall i, j | 0 <= i < j < |all| ensures all[i].id != all[j].id {
      if j < |prefix| {
        assert all[i] == prefix[i] && all[j] == prefix[j];
      } else if i >= |prefix| {
        assert all[i] == last[i - |prefix|] && all[j] == last[j - |prefix|];
      } else {
        assert all[i] == prefix[i] && all[j] == last[j - |prefix|];
      }
    }
  }

  /** A quote merged from the earlier files never shares its id with a generated one of the last file. */
  lemma EarlierFileIdDiffers(files: seq<string>, responses: seq<seq<Record>>, i: int, j: nat)
    requires |files| == |responses| && 0 < |responses|
    requires NoExplicitIds(responses) && DistinctSourceNames(files)
    requires 0 <= i < |MergeFiles(files[..|files| - 1], responses[..|responses| - 1])|
    ensures MergeFiles(files[..|files| - 1], responses[..|responses| - 1])[i].id
      != GeneratedId(SourceName(files[|files| - 1]), j)
  {
    var n := |responses| - 1;
    var prefix := MergeFiles(files[..n], responses[..n]);
    NoExplicitIdsPrefix(responses, n);
    MergedIdOrigin(files[..n], responses[..n], i);
    var f :| GeneratedForFile(prefix[i].id, files[..n], f);
    var idx: nat :| prefix[i].id == GeneratedId(SourceName(files[..n][f]), idx);
    assert files[..n][f] == files[f];
    if prefix[i].id == GeneratedId(SourceName(files[n]), j) {
      GeneratedIdInjective(SourceName(files[f]), idx, SourceName(files[n]), j);
    }
  }

  /**
   * When no record carries an id of its own and the files have distinct
   * source names, every quote of the merged collection has a distinct id.
   */
  lemma {:induction false} MergedIdsDistinct(files: seq<string>, responses: seq<seq<Record>>)
    requires |files| == |responses|
    requires NoExplicitIds(responses) && DistinctSourceNames(files)
    ensures DistinctIds(MergeFiles(files, responses))
  {
    if responses != [] {
      var n := |responses| - 1;
      var prefix := MergeFiles(files[..n], responses[..n]);
      var name := SourceName(files[n]);
      var last := ProcessFile(responses[n], name);
      NoExplicitIdsPrefix(responses, n);
      assert DistinctSourceNames(files[..n]);
      MergedIdsDistinct(files[..n], responses[..n]);
      forall i, j | 0 <= i < j < |last| ensures last[i].id != last[j].id {
        GeneratedIdsDistinctInFile(responses[n], name, i, j);
      }
      forall i, j | 0 <= i < |prefix| && 0 <= j < |last| ensures prefix[i].id != last[j].id {
        assert last[j].id == GeneratedId(name, j);
        EarlierFileIdDiffers(files, responses, i, j);
      }
      ConcatDistinctIds(prefix, last);
      assert MergeFiles(files, responses) == prefix + last;
    }
  }

  /**
   * The merged collection is the files' records in file order: record `i`
   * of file `f` sits after every record of the earlier files, at position
   * `i` among those of its own file.
   */
  lemma {:induction false} MergedPosition(files: seq<string>, responses: seq<seq<Record>>, f: int, i: int)
    requires |files| == |responses| && 0 <= f < |responses| && 0 <= i < |responses[f]|
    ensures TotalLength(responses[..f]) + i < |MergeFiles(files, responses)|
    ensures MergeFiles(files, responses)[TotalLength(responses[..f]) + i]
      == WithId(responses[f][i], SourceName(files[f]), i)
  {
    var n := |responses| - 1;
    var prefix := MergeFiles(files[..n], responses[..n]);
    var last := ProcessFile(responses[n], SourceName(files[n]));
    assert MergeFiles(files, responses) == prefix + last;
    var name := SourceName(files[f]);
    if f == n {
      assert |prefix| == TotalLength(responses[..f]);
      assert last[i] == WithId(responses[f][i], name, i);
      assert MergeFiles(files, responses)[|prefix| + i] == last[i];
      assert MergeFiles(files, responses)[TotalLength(responses[..f]) + i] == WithId(responses[f][i], SourceName(files[f]), i);
    } else {
      MergedPosition(files[..n], responses[..n], f, i);
      assert responses[..n][..f] == responses[..f];
      var k := TotalLength(responses[..f]) + i;
      assert k == TotalLength(responses[..n][..f]) + i;
      assert files[..n][f] == files[f];
      assert SourceName(files[..n][f]) == name;
      assert responses[..n][f][i] == responses[f][i];
      assert prefix[k] == WithId(responses[..n][f][i], SourceName(files[..n][f]), i);
      assert MergeFiles(files, responses)[k] == prefix[k];
      assert MergeFiles(files, responses)[TotalLength(responses[..f]) + i] == WithId(responses[f][i], SourceName(files[f]), i);
    }
  }

  /**
   * An id a record brings with it is not checked against generated ones:
   * a record of the first file whose own id is `quotes_Confucius_0` shares
   * it with the first record of the second file.
   */
  lemma ExplicitIdCollision(q: string, a: string)
    ensures var explicit := Record(Some("quotes_Confucius_0"), q, a, None, 0, 0, None);
      var generated := Record(None, q, a, None, 0, 0, None);
      var merged := MergeFiles(QuoteFiles, [[explicit], [generated]]);
      |merged| == 2 && merged[0].id == merged[1].id
  {
    var explicit := Record(Some("quotes_Confucius_0"), q, a, None, 0, 0, None);
    var generated := Record(None, q, a, None, 0, 0, None);
    var responses := [[explicit], [generated]];
    ConfiguredSourceNames();
    MergedPosition(QuoteFiles, responses, 0, 0);
    MergedPosition(QuoteFiles, responses, 1, 0);
    assert responses[..1] == [[explicit]];
    assert Decimal(0) == "0";
  }

  /** The two configured files contribute the names `quotes_BhagavadGita` and `quotes_Confucius`. */
  lemma ConfiguredSourceNames()
    ensures SourceName(QuoteFiles[0]) == "quotes_BhagavadGita"
    ensures SourceName(QuoteFiles[1]) == "quotes_Confucius"
    ensures DistinctSourceNames(QuoteFiles)
  {
    assert QuoteFiles[0] == "/" + "quotes_BhagavadGita" + JsonExtension;
    assert QuoteFiles[1] == "/" + "quotes_Confucius" + JsonExtension;
    StripFramedName("quotes_BhagavadGita");
    StripFramedName("quotes_Confucius");
    assert |"quotes_BhagavadGita"| != |"quotes_Confucius"|;
  }

  /* ---------------- properties of the upvote ---------------- */

  /** Length and order are kept; quotes with identifier `quoteId` gain one upvote and the flag, all others are unchanged. */
  lemma UpvotedAt(quotes: seq<Quote>, quoteId: string, i: int)
    requires 0 <= i < |quotes|
    ensures |Upvoted(quotes, quoteId)| == |quotes|
    ensures var q, u := quotes[i], Upvoted(quotes, quoteId)[i];
      if q.id == quoteId then u.upvotes == q.upvotes + 1 && u.hasUpvoted && u == q.(upvotes := u.upvotes, hasUpvoted := true)
      else u == q
  {
  }

  /** An unknown identifier leaves the collection as it was. */
  lemma UpvoteUnknownId(quotes: seq<Quote>, quoteId: string)
    requires forall k :: 0 <= k < |quotes| ==> quotes[k].id != quoteId
    ensures Upvoted(quotes, quoteId) == quotes
  {
  }

  /** The number of quotes whose identifier is `id`. */
  function CountWithId(quotes: seq<Quote>, id: string): nat {
    if quotes == [] then 0
    else CountWithId(quotes[..|quotes| - 1], id) + (if quotes[|quotes| - 1].id == id then 1 else 0)
  }

  /** The total number of upvotes in `quotes`. */
  function TotalUpvotes(quotes: seq<Quote>): int {
    if quotes == [] then 0 else TotalUpvotes(quotes[..|quotes| - 1]) + quotes[|quotes| - 1].upvotes
  }

  /** An upvote adds exactly one to the total for every quote carrying the identifier. */
  lemma {:induction false} UpvoteTotal(quotes: seq<Quote>, quoteId: string)
    ensures TotalUpvotes(Upvoted(quotes, quoteId)) == TotalUpvotes(quotes) + CountWithId(quotes, quoteId)
  {
    if quotes != [] {
      var n := |quotes| - 1;
      assert Upvoted(quotes, quoteId)[..n] == Upvoted(quotes[..n], quoteId);
      UpvoteTotal(quotes[..n], quoteId);
    }
  }
}
