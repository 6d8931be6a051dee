/**
 * The two recommendation methods of the service: their guards on `k`, the
 * exact ranking of the cosine path (`argsort()[-k:][::-1]` over the corpus
 * scores), the one-to-one mapping of the FAISS path, and the bounded LRU
 * cache (`maxsize=100`) in front of each of them. Scores, search results and
 * the text pipeline are inputs; no numerics are modelled.
 */
module Recommendation {
  import opened Outcomes
  import opened SeqFacts
  import opened Ranking
  import opened BookModel
  import opened Books
  import opened Memo

  /** One row of the corpus table, as `df.iloc[idx]` or a FAISS document's metadata. */
  datatype BookRow = BookRow(id: string, title: string, authors: seq<string>, description: string)

  /**
   * What the methods raise: a `ValueError` (the guard's, or `cosine_similarity`'s
   * on a dimension mismatch), `iloc`'s `IndexError` for a row the table lacks,
   * or any other exception a library call raises, which is logged and re-raised.
   */
  datatype ServiceError = ValueError(message: string) | IndexError | Raised(message: string)

  /** The query embedding's scores against the stored embeddings, or what computing them raised. */
  type Similarities = string -> Result<seq<real>, ServiceError>

  /** The FAISS index's search on a cleaned query and `k`, or what it raised. */
  type Search = (string, int) -> Result<seq<(BookRow, real)>, ServiceError>

  const NonPositiveMessage: string := "Number of recommendations must be greater than 0"

  /** `maxsize` of both caches. */
  const MaxSize: nat := 100

  function FromRow(row: BookRow, score: real): RecommendedBook {
    RecommendedBook(row.id, row.title, row.authors, row.description, score)
  }

  /** The row a hit was built from, and its score. */
  function RowOf(b: RecommendedBook): (BookRow, real) {
    (BookRow(b.id, b.title, b.authors, b.description), b.similarity)
  }

  // ---------------------------------------------------------------------------
  // Cosine path
  // ---------------------------------------------------------------------------

  /** The hits for the selected indices, in their order; `IndexError` if one names a row the table lacks. */
  function Hits(df: seq<BookRow>, scores: seq<real>, idxs: seq<nat>): (r: Result<seq<RecommendedBook>, ServiceError>)
    requires InRange(idxs, |scores|)
    ensures r.Ok? <==> forall t :: 0 <= t < |idxs| ==> idxs[t] < |df|
    ensures r.Err? ==> r.error == IndexError
    ensures r.Ok? ==> |r.value| == |idxs|
    ensures r.Ok? ==> forall t :: 0 <= t < |idxs| ==> r.value[t] == FromRow(df[idxs[t]], scores[idxs[t]])
  {
    if idxs == [] then Ok([])
    else if idxs[0] >= |df| then Err(IndexError)
    else match Hits(df, scores, idxs[1..])
      case Err(e) => Err(e)
      case Ok(rest) => Ok([FromRow(df[idxs[0]], scores[idxs[0]])] + rest)
  }

  /**
   * `recommend_books_cosine` for the scores of one query against the corpus,
   * with `order` the ascending argsort numpy returns (its order among equal
   * scores is not fixed, so any valid one is allowed).
   */
  function CosineWith(df: seq<BookRow>, scores: seq<real>, order: seq<nat>, k: int): (r: Result<seq<RecommendedBook>, ServiceError>)
    requires IsArgsort(scores, order)
    ensures k == 0 ==> r == Ok([])
    ensures k < 0 ==> r == Err(ValueError(NonPositiveMessage))
    ensures k > 0 && |df| == |scores| ==> r.Ok? && |r.value| == if k < |scores| then k else |scores|
  {
    if k == 0 then Ok([])
    else if k <= 0 then Err(ValueError(NonPositiveMessage))
    else
      TopKIndices(scores, order, k);
      TopKLength(order, k);
      Hits(df, scores, TopK(order, k))
  }

  /**
   * `recommend_books_cosine`: the guards first, then the scores of the raw
   * description, ranked by `argsort`; an exception from the embedding or the
   * similarity is re-raised unchanged.
   */
  function RecommendCosine(df: seq<BookRow>, similarities: Similarities, argsort: ArgsortFn, description: string, k: int)
    : (r: Result<seq<RecommendedBook>, ServiceError>)
    ensures k == 0 ==> r == Ok([])
    ensures k < 0 ==> r == Err(ValueError(NonPositiveMessage))
    ensures k > 0 && similarities(description).Err? ==> r == Err(similarities(description).error)
    ensures k > 0 && similarities(description).Ok? ==>
      var scores := similarities(description).value;
      r == CosineWith(df, scores, argsort(scores), k)
    ensures k > 0 && r.Err? ==> similarities(description).Err? || r.error == IndexError
    ensures k > 0 && similarities(description).Ok? && |similarities(description).value| == |df| ==>
      r.Ok? && |r.value| == if k < |df| then k else |df|
  {
    if k == 0 then Ok([])
    else if k <= 0 then Err(ValueError(NonPositiveMessage))
    else match similarities(description)
      case Err(e) => Err(e)
      case Ok(scores) => CosineWith(df, scores, argsort(scores), k)
  }

  /**
   * The cosine hits are the top-k rows: in non-increasing score order, each
   * copying its own row and that row's score, distinct, and no row left out
   * scoring above any row returned.
   */
  lemma CosineRanked(df: seq<BookRow>, scores: seq<real>, order: seq<nat>, k: int)
    requires IsArgsort(scores, order) && k > 0 && |df| == |scores|
    ensures CosineWith(df, scores, order, k).Ok?
    ensures var hits := CosineWith(df, scores, order, k).value;
      && |hits| == |TopK(order, k)|
      && (forall t :: 0 <= t < |hits| ==>
            TopK(order, k)[t] < |df| && hits[t] == FromRow(df[TopK(order, k)[t]], scores[TopK(order, k)[t]]))
      && Distinct(TopK(order, k))
      && (forall a, b :: 0 <= a < b < |hits| ==> hits[a].similarity >= hits[b].similarity)
      && (forall j, t :: 0 <= j < |scores| && j !in TopK(order, k) && 0 <= t < |hits| ==>
            scores[j] <= hits[t].similarity)
  {
    TopKIndices(scores, order, k);
    TopKOrdered(scores, order, k);
    TopKDominates(scores, order, k);
  }

  // ---------------------------------------------------------------------------
  // FAISS path
  // ---------------------------------------------------------------------------

  /** The list comprehension over the `(doc, score)` pairs. */
  function FaissHits(results: seq<(BookRow, real)>): (hits: seq<RecommendedBook>)
    ensures |hits| == |results|
    ensures forall i :: 0 <= i < |results| ==> RowOf(hits[i]) == results[i]
  {
    seq(|results|, i requires 0 <= i < |results| => FromRow(results[i].0, results[i].1))
  }

  /**
   * `recommend_books_faiss`: the guards first, then the search on the cleaned
   * description; an exception from the search is re-raised unchanged.
   */
  function RecommendFaiss(search: Search, p: TextPipeline, description: string, k: int)
    : (r: Result<seq<RecommendedBook>, ServiceError>)
    ensures k == 0 ==> r == Ok([])
    ensures k < 0 ==> r == Err(ValueError(NonPositiveMessage))
    ensures k > 0 ==> (r.Ok? <==> search(CleanText(p, description), k).Ok?)
    ensures k > 0 && r.Err? ==> r.error == search(CleanText(p, description), k).error
    ensures k > 0 && r.Ok? ==> |r.value| == |search(CleanText(p, description), k).value|
  {
    if k == 0 then Ok([])
    else if k <= 0 then Err(ValueError(NonPositiveMessage))
    else match search(CleanText(p, description), k)
      case Err(e) => Err(e)
      case Ok(results) => Ok(FaissHits(results))
  }

  /**
   * The FAISS hits are the search results one-to-one and in order: mapping
   * each hit back to its row and score gives the pairs the search returned
   * for the cleaned description.
   */
  lemma FaissOneToOne(search: Search, p: TextPipeline, description: string, k: int)
    requires k > 0 && search(CleanText(p, description), k).Ok?
    ensures RecommendFaiss(search, p, description, k).Ok?
    ensures var hits := RecommendFaiss(search, p, description, k).value;
      var results := search(CleanText(p, description), k).value;
      |hits| == |results| && seq(|hits|, i requires 0 <= i < |hits| => RowOf(hits[i])) == results
  {
  }

  /** For `k <= 0` neither path consults the text cleaning, the search, the embeddings, the argsort or the table. */
  lemma GuardsComeFirst(
    df1: seq<BookRow>, sim1: Similarities, argsort1: ArgsortFn, search1: Search, p1: TextPipeline,
    df2: seq<BookRow>, sim2: Similarities, argsort2: ArgsortFn, search2: Search, p2: TextPipeline,
    description: string, k: int)
    requires k <= 0
    ensures RecommendCosine(df1, sim1, argsort1, description, k) == RecommendCosine(df2, sim2, argsort2, description, k)
    ensures RecommendFaiss(search1, p1, description, k) == RecommendFaiss(search2, p2, description, k)
  {
  }

  /**
   * A request that passed validation never reaches the guard's `ValueError`:
   * whatever either path raises comes from the library calls or the row
   * lookup, and when those succeed it returns hits.
   */
  lemma ValidatedNeverValueError(
    df: seq<BookRow>, similarities: Similarities, argsort: ArgsortFn, search: Search,
    p: TextPipeline, req: BookRecommendationRequest)
    requires ValidRequest(req)
    ensures var k := req.numRecommendations;
      var r := RecommendFaiss(search, p, req.description, k);
      r.Err? ==> k > 0 && r == Err(search(CleanText(p, req.description), k).error)
    ensures var k := req.numRecommendations;
      search(CleanText(p, req.description), k).Ok? ==> RecommendFaiss(search, p, req.description, k).Ok?
    ensures var k := req.numRecommendations;
      var sims := similarities(req.description);
      var r := RecommendCosine(df, similarities, argsort, req.description, k);
      r.Err? ==> k > 0 && (if sims.Err? then r.error == sims.error else r.error == IndexError)
    ensures var sims := similarities(req.description);
      sims.Ok? && |sims.value| == |df| ==>
        RecommendCosine(df, similarities, argsort, req.description, req.numRecommendations).Ok?
  {
  }

  // ---------------------------------------------------------------------------
  // The service and its caches
  // ---------------------------------------------------------------------------

  /** How `k` was passed: the cache key tells the three apart even when the value is the same. */
  datatype KArg = Omitted | Positional(n: int) | Keyword(n: int)

  /** The `k` the body sees: 5 when omitted, the passed value otherwise, however it was passed. */
  function EffectiveK(k: KArg): (n: int)
    ensures k.Omitted? ==> n == DefaultNumRecommendations
    ensures k.Positional? || k.Keyword? ==> n == k.n
  {
    if k.Omitted? then DefaultNumRecommendations else k.n
  }

  /** A cache key: the service object, the description and `k` as passed. */
  datatype CallKey = CallKey(instance: nat, description: string, k: KArg)

  type Cache = LruCache<CallKey, seq<RecommendedBook>>

  /** Every entry stored under an object's keys is what `body` computes for that key. */
  ghost predicate Coherent(entries: map<CallKey, seq<RecommendedBook>>, instance: nat,
                           body: CallKey -> Result<seq<RecommendedBook>, ServiceError>) {
    forall key :: key in entries && key.instance == instance ==> body(key) == Ok(entries[key])
  }

  /** A cached call keeps the table coherent: what it adds is the body's own result, the rest is old entries. */
  lemma CoherenceKept(before: map<CallKey, seq<RecommendedBook>>, after: map<CallKey, seq<RecommendedBook>>,
                      instance: nat, body: CallKey -> Result<seq<RecommendedBook>, ServiceError>,
                      key: CallKey, r: Result<seq<RecommendedBook>, ServiceError>)
    requires Coherent(before, instance, body) && r == body(key)
    requires forall x :: x in after ==>
      (x == key && r.Ok? && after[x] == r.value) || (x in before && after[x] == before[x])
    ensures Coherent(after, instance, body)
  {
    forall x | x in after && x.instance == instance ensures body(x) == Ok(after[x]) {
      if !(x == key && r.Ok? && after[x] == r.value) {
        assert x in before && after[x] == before[x];
      }
    }
  }

  /**
   * One service object. The two caches belong to the class and are shared by
   * every instance; `instance` stands for `self` in their keys.
   */
  class RecommendationService {
    const instance: nat
    const df: seq<BookRow>
    const similarities: Similarities
    const argsort: ArgsortFn
    const search: Search
    const pipeline: TextPipeline
    const faissCache: Cache
    const cosineCache: Cache

    /** The uncached body of `recommend_books_faiss` for a key of this object. */
    function FaissBody(key: CallKey): Result<seq<RecommendedBook>, ServiceError> {
      RecommendFaiss(search, pipeline, key.description, EffectiveK(key.k))
    }

    /** The uncached body of `recommend_books_cosine` for a key of this object. */
    function CosineBody(key: CallKey): Result<seq<RecommendedBook>, ServiceError> {
      RecommendCosine(df, similarities, argsort, key.description, EffectiveK(key.k))
    }

    /**
     * Both caches are well formed and bounded by 100, and every entry stored
     * under this object's keys is what the body computes for that key.
     */
    ghost predicate Valid()
      reads this, faissCache, cosineCache
    {
      && faissCache != cosineCache
      && faissCache.Valid() && faissCache.capacity == MaxSize
      && cosineCache.Valid() && cosineCache.capacity == MaxSize
      && Coherent(faissCache.entries, instance, FaissBody)
      && Coherent(cosineCache.entries, instance, CosineBody)
    }

    /** A new object, whose `self` has no entries in the shared caches yet. */
    constructor (instance: nat, df: seq<BookRow>, similarities: Similarities, argsort: ArgsortFn,
                 search: Search, pipeline: TextPipeline,
                 faissCache: Cache, cosineCache: Cache)
      requires faissCache != cosineCache
      requires faissCache.Valid() && faissCache.capacity == MaxSize
      requires cosineCache.Valid() && cosineCache.capacity == MaxSize
      requires forall key :: key in faissCache.entries ==> key.instance != instance
      requires forall key :: key in cosineCache.entries ==> key.instance != instance
      ensures Valid()
      ensures this.instance == instance && this.df == df && this.similarities == similarities && this.argsort == argsort
      ensures this.search == search && this.pipeline == pipeline
      ensures this.faissCache == faissCache && this.cosineCache == cosineCache
    {
      this.instance := instance;
      this.df := df;
      this.similarities := similarities;
      this.argsort := argsort;
      this.search := search;
      this.pipeline := pipeline;
      this.faissCache := faissCache;
      this.cosineCache := cosineCache;
    }

    /**
     * The cached `recommend_books_faiss`: the result is always what the body
     * computes; a repeated key is answered from the table without running
     * it; the table stays within 100 entries, and entries of other objects
     * are at most evicted, never altered.
     */
    method RecommendBooksFaiss(description: string, k: KArg) returns (r: Result<seq<RecommendedBook>, ServiceError>)
      requires Valid()
      modifies faissCache
      ensures Valid()
      ensures r == RecommendFaiss(search, pipeline, description, EffectiveK(k))
      ensures var key := CallKey(instance, description, k);
        key in old(faissCache.entries) ==>
          && r == Ok(old(faissCache.entries)[key])
          && faissCache.entries == old(faissCache.entries)
          && faissCache.hits == old(faissCache.hits) + 1 && faissCache.misses == old(faissCache.misses)
      ensures var key := CallKey(instance, description, k);
        key !in old(faissCache.entries) ==>
          faissCache.hits == old(faissCache.hits) && faissCache.misses == old(faissCache.misses) + 1
      ensures var key := CallKey(instance, description, k);
        key in old(faissCache.entries) ==> faissCache.order == Touch(old(faissCache.order), key)
      ensures var key := CallKey(instance, description, k);
        key !in old(faissCache.entries) && r.Err? ==>
          faissCache.entries == old(faissCache.entries) && faissCache.order == old(faissCache.order)
      ensures var key := CallKey(instance, description, k);
        key !in old(faissCache.entries) && r.Ok? && |old(faissCache.order)| < MaxSize ==>
          faissCache.entries == old(faissCache.entries)[key := r.value] && faissCache.order == old(faissCache.order) + [key]
      ensures var key := CallKey(instance, description, k);
        key !in old(faissCache.entries) && r.Ok? && |old(faissCache.order)| == MaxSize ==>
          && faissCache.entries == (old(faissCache.entries) - {old(faissCache.order)[0]})[key := r.value]
          && faissCache.order == old(faissCache.order)[1..] + [key]
      ensures var key := CallKey(instance, description, k);
        r.Ok? ==> key in faissCache.entries && faissCache.entries[key] == r.value
      ensures var key := CallKey(instance, description, k);
        key !in old(faissCache.entries) && r.Ok? && |old(faissCache.order)| == MaxSize ==>
          forall x :: x in old(faissCache.entries) ==> old(faissCache.lastUse)[old(faissCache.order)[0]] <= old(faissCache.lastUse)[x]
      ensures |faissCache.entries| <= MaxSize
      ensures forall x :: x in faissCache.entries && x.instance != instance ==>
        x in old(faissCache.entries) && faissCache.entries[x] == old(faissCache.entries)[x]
    {
      var key := CallKey(instance, description, k);
      ghost var before := faissCache.entries;
      if |faissCache.order| == MaxSize {
        OldestFirst(faissCache.order, faissCache.lastUse);
      }
      r := faissCache.Call(key, FaissBody);
      if key in before {
        assert FaissBody(key) == Ok(before[key]);
      }
      CoherenceKept(before, faissCache.entries, instance, FaissBody, key, r);
      var _ := faissCache.CurrentSize();
    }

    /** The cached `recommend_books_cosine`, with the same guarantees as the FAISS one. */
    method RecommendBooksCosine(description: string, k: KArg) returns (r: Result<seq<RecommendedBook>, ServiceError>)
      requires Valid()
      modifies cosineCache
      ensures Valid()
      ensures r == RecommendCosine(df, similarities, argsort, description, EffectiveK(k))
      ensures var key := CallKey(instance, description, k);
        key in old(cosineCache.entries) ==>
          && r == Ok(old(cosineCache.entries)[key])
          && cosineCache.entries == old(cosineCache.entries)
          && cosineCache.hits == old(cosineCache.hits) + 1 && cosineCache.misses == old(cosineCache.misses)
      ensures var key := CallKey(instance, description, k);
        key !in old(cosineCache.entries) ==>
          cosineCache.hits == old(cosineCache.hits) && cosineCache.misses == old(cosineCache.misses) + 1
      ensures var key := CallKey(instance, description, k);
        key in old(cosineCache.entries) ==> cosineCache.order == Touch(old(cosineCache.order), key)
      ensures var key := CallKey(instance, description, k);
        key !in old(cosineCache.entries) && r.Err? ==>
          cosineCache.entries == old(cosineCache.entries) && cosineCache.order == old(cosineCache.order)
      ensures var key := CallKey(instance, description, k);
        key !in old(cosineCache.entries) && r.Ok? && |old(cosineCache.order)| < MaxSize ==>
          cosineCache.entries == old(cosineCache.entries)[key := r.value] && cosineCache.order == old(cosineCache.order) + [key]
      ensures var key := CallKey(instance, description, k);
        key !in old(cosineCache.entries) && r.Ok? && |old(cosineCache.order)| == MaxSize ==>
          && cosineCache.entries == (old(cosineCache.entries) - {old(cosineCache.order)[0]})[key := r.value]
          && cosineCache.order == old(cosineCache.order)[1..] + [key]
      ensures var key := CallKey(instance, description, k);
        r.Ok? ==> key in cosineCache.entries && cosineCache.entries[key] == r.value
      ensures var key := CallKey(instance, description, k);
        key !in old(cosineCache.entries) && r.Ok? && |old(cosineCache.order)| == MaxSize ==>
          forall x :: x in old(cosineCache.entries) ==> old(cosineCache.lastUse)[old(cosineCache.order)[0]] <= old(cosineCache.lastUse)[x]
      ensures |cosineCache.entries| <= MaxSize
      ensures forall x :: x in cosineCache.entries && x.instance != instance ==>
        x in old(cosineCache.entries) && cosineCache.entries[x] == old(cosineCache.entries)[x]
    {
      var key := CallKey(instance, description, k);
      ghost var before := cosineCache.entries;
      if |cosineCache.order| == MaxSize {
        OldestFirst(cosineCache.order, cosineCache.lastUse);
      }
      r := cosineCache.Call(key, CosineBody);
      if key in before {
        assert CosineBody(key) == Ok(before[key]);
      }
      CoherenceKept(before, cosineCache.entries, instance, CosineBody, key, r);
      var _ := cosineCache.CurrentSize();
    }
  }

  /**
   * How `k` is passed changes the cache key but not the result: an omitted
   * `k`, a positional 5 and a keyword 5 are three different keys, and each
   * body gives the same result for all three.
   */
  lemma KeyByHowKPassed(s: RecommendationService, description: string)
    ensures var omitted, positional, keyword :=
        CallKey(s.instance, description, Omitted),
        CallKey(s.instance, description, Positional(DefaultNumRecommendations)),
        CallKey(s.instance, description, Keyword(DefaultNumRecommendations));
      && omitted != positional && positional != keyword && omitted != keyword
      && s.FaissBody(omitted) == s.FaissBody(positional) == s.FaissBody(keyword)
      && s.CosineBody(omitted) == s.CosineBody(positional) == s.CosineBody(keyword)
  {
  }
}
