# Book recommendation core, modelled in Dafny

This project models the self-contained logic of a small book-recommendation
service and proves properties of it. The service does four things:

- It builds a corpus of books from the Google Books API (`collect_books`,
  `clean_data`, `_clean_text`).
- It validates recommendation requests (`BookRecommendationRequest`: a
  non-empty description, at least 0 recommendations, 5 by default).
- It answers a request in one of two ways, each behind a
  `functools.lru_cache(maxsize=100)`:
  - an exact cosine ranking over the whole corpus, `argsort()[-k:][::-1]`;
  - a FAISS similarity search.
- It scores recommendations offline: precision, recall, MRR, diversity,
  serendipity and a hit flag.

The model works on values. Similarity scores, FAISS search results, the
tokenizer, lemmatizer and stop-word list, and the HTTP GET are all inputs.
Nothing numeric is computed: scores are `real` and only their order matters.
Metrics are exact rationals (`real`), not floats.

Modules, one per source component:

| file | module | models |
|---|---|---|
| `outcomes.dfy` | `Outcomes` | `Option` and `Result`, used for every error path |
| `seq_facts.dfy` | `SeqFacts` | distinctness and `set(s)` facts shared by the others |
| `book_model.dfy` | `BookModel` | the pydantic request/response models and their field validation |
| `ranking.dfy` | `Ranking` | argsort, Python's `s[start:]` and `s[::-1]`, the top-k selection |
| `memo.dfy` | `Memo` | the bounded LRU cache as a class with a table, a recency list and counters |
| `recommendation.dfy` | `Recommendation` | both recommendation methods, their guards, and the service object with its two caches |
| `books.dfy` | `Books` | text cleaning, record cleaning, and request paging with item merging |
| `evaluation.dfy` | `Evaluation` | the evaluation metrics, with loops where the script loops |

Decisions worth knowing:

- **Argsort.** numpy's default argsort is not stable, so the order among equal
  scores is left open. `Ranking.IsArgsort` describes every valid argsort
  result, and `Ranking.ArgsortFn` is the type of functions that always return
  one. The service holds such a function (`argsort`) instead of a fixed sort,
  and every ranking lemma holds for any valid order. `Ranking.Argsort`, an
  insertion sort, only shows that such a function exists.
  `Ranking.TiesAreOpen` gives two valid orders of three equal scores that
  select different rows.
- **The [-k:] slice at k = 0.** `[-0:]` is the whole array, so without the
  `k == 0` guard the cosine path would return every row
  (`Ranking.TopKZeroTakesAll`).
- **The `iloc` lookup.** The constructor loads the table and the embeddings
  separately and never compares their lengths. With more embeddings than rows,
  `df.iloc[idx]` raises `IndexError` when a selected index names a row the
  table lacks. The model keeps that error (`Recommendation.Hits`). When the
  scores cover exactly the table's rows, a positive `k` always gives min(k, n)
  hits (`Recommendation.RecommendCosine`).
- **Library errors.** The embedding, `cosine_similarity` and the FAISS search
  may raise. Each method logs the exception and re-raises it. The model's
  `Similarities` and `Search` inputs return a `Result`, and an error is passed
  through unchanged. `lru_cache` never stores it.
- **Cache keys.** `lru_cache` keys a call on `self`, the description, and `k`
  *as passed*. A positional `k`, a keyword `k` and an omitted `k` are three
  different keys even for the same value. The API passes `k` by keyword, and
  the evaluation script passes it positionally. `Recommendation.KArg` records
  how `k` was passed, and `Recommendation.KeyByHowKPassed` proves the three
  keys differ while the results agree.
- **Shared caches.** Each cache belongs to the class, so all service objects
  share it. `instance` stands for `self`. The endpoints build a new service per
  request (`Depends(RecommendationService)`), so in the HTTP path every call
  carries a fresh `self`. The constructor requires that the caches hold no key
  of the new object, so the first call of a fresh object is always a miss.
- **No cached errors.** An exception is never cached. The `[]` returned for
  `k == 0` is cached like any other result.
- **Recency.** `Memo.LruCache` keeps ghost time stamps (`lastUse`, `clock`).
  This lets "the evicted key is the least recently used" be stated against time
  rather than read off a list position.

## Model

| member | source | states |
|---|---|---|
| BookModel.ValidateDescription | app/models/book.py:12 | the description is accepted exactly when it is a present JSON string of length at least 1, and then it is that string |
| BookModel.ValidateNum | app/models/book.py:13 | an omitted count becomes 5; a present count is accepted exactly when it is a JSON integer at least 0; an accepted count is never negative |
| BookModel.ValidateRequest | app/models/book.py:11-13 | a request is built exactly when both fields are accepted, and then it satisfies the model's constraints; a refusal names at least one field |
| BookModel.ValidRoundTrip | app/models/book.py:11-13 | every request that meets the constraints is accepted back unchanged from its own field values |
| BookModel.AcceptedIsInput | app/models/book.py:11-13 | an accepted request holds exactly the body's description, and its count, or 5 when omitted |
| BookModel.ApiCases | tests/test_api.py:10-37 | the API tests' bodies: missing, mistyped, empty, negative and null fields are refused; 0 and well-formed bodies are accepted |
| Ranking.InsertByScore | app/services/recommendation_service.py:88 | inserting an index into a score-sorted list keeps it in range and sorted, adds exactly that index, and keeps it distinct |
| Ranking.SortIndices | app/services/recommendation_service.py:88 | indices 0..m-1 sorted by score: exactly those indices, each once, in non-decreasing score order |
| Ranking.Argsort | app/services/recommendation_service.py:88 | the result is a valid argsort: a permutation of the indices in non-decreasing score order |
| Ranking.SliceFrom | app/services/recommendation_service.py:88 | Python's `s[start:]` is a suffix of `s`, with the clamped length for negative and non-negative starts |
| Ranking.Reverse | app/services/recommendation_service.py:88 | `s[::-1]` holds the elements of `s` back to front: `r[i] == s[len(s)-1-i]` |
| Ranking.TopK | app/services/recommendation_service.py:88 | `order[-k:][::-1]` is the last entries of the argsort, the last first: entry t is `order[n-1-t]`, with min(k, n) entries for k > 0 |
| Ranking.TiesAreOpen | app/services/recommendation_service.py:88 | for three equal scores both `[0, 1, 2]` and `[2, 1, 0]` are valid argsorts, and their top 1 differ (rows 2 and 0) |
| Ranking.TopKLength | app/services/recommendation_service.py:88 | for k > 0, `order[-k:][::-1]` has min(k, n) entries |
| Ranking.TopKZeroTakesAll | app/services/recommendation_service.py:88 | at k = 0 the same expression is the whole reversed argsort, which is why the guard matters |
| Ranking.TopKAt | app/services/recommendation_service.py:88 | position t of the selection is position n-1-t of the argsort |
| Ranking.TopKIndices | app/services/recommendation_service.py:88 | for any valid argsort, the selected indices are distinct rows of the corpus |
| Ranking.TopKOrdered | app/services/recommendation_service.py:88 | for any valid argsort, the selected rows come in non-increasing score order |
| Ranking.TopKDominates | app/services/recommendation_service.py:88 | for any valid argsort, every row left out scores no higher than every row selected |
| Memo.Without | app/services/recommendation_service.py:53 | unlinking a key from the recency list drops exactly that key, keeps the list distinct, and shortens it by one when the key was there |
| Memo.Touch | app/services/recommendation_service.py:53 | after a hit the key is the most recent entry and the set of keys is unchanged apart from it |
| Memo.TouchKeepsKeys | app/services/recommendation_service.py:53 | a hit keeps the same keys, each once, and makes the key the most recent |
| Memo.WithoutIncreasing | app/services/recommendation_service.py:53 | unlinking a key keeps the list ordered by last use |
| Memo.OldestFirst | app/services/recommendation_service.py:53 | the head of the recency list is a key whose last use is no later than any other's |
| Memo.InvTouch | app/services/recommendation_service.py:53 | a hit preserves the table invariant: distinct, bounded by the capacity, keys matching the table, ordered by last use |
| Memo.InvAppend | app/services/recommendation_service.py:53 | storing a new key while there is room preserves the table invariant |
| Memo.InvEvict | app/services/recommendation_service.py:53 | in a full table the evicted head is in the table and least recently used, and evicting it and storing the new key preserves the invariant |
| Memo.LruCache.CurrentSize | app/services/recommendation_service.py:53 | the number of cached entries never exceeds `maxsize` |
| Memo.LruCache.constructor | app/services/recommendation_service.py:53 | a new cache is empty, with 0 hits and 0 misses |
| Memo.LruCache.Lookup | app/services/recommendation_service.py:53 | a hit returns the stored value, moves the key to the most recent end and counts a hit; a miss changes nothing but the miss count |
| Memo.LruCache.Append | app/services/recommendation_service.py:53 | with room left, a new key is stored as the most recent and no other entry changes |
| Memo.LruCache.ReplaceOldest | app/services/recommendation_service.py:53 | in a full table the least recently used key is evicted, the new key is stored as the most recent, and every other entry is kept |
| Memo.LruCache.Store | app/services/recommendation_service.py:53 | storing after a miss: append when there is room, evict the least recently used when full, leave an already-present key alone |
| Memo.LruCache.Call | app/services/recommendation_service.py:53 | a hit returns the stored result without running the body; a miss runs it once and stores an `Ok` result but never an error; all other entries are kept or evicted, never altered |
| Recommendation.Hits | app/services/recommendation_service.py:90-97 | the hits exist exactly when every selected index names a table row, and hit t copies the id, title, authors and description of its row and that row's score; otherwise `IndexError` |
| Recommendation.CosineWith | app/services/recommendation_service.py:79-98 | k == 0 gives `[]`, a negative k gives the `ValueError`, and a positive k gives min(k, n) hits when the scores cover the table |
| Recommendation.RecommendCosine | app/services/recommendation_service.py:79-101 | the guards come first; an exception from the embedding or the similarity is re-raised unchanged; otherwise the scores are ranked by the given argsort; the only other error is `IndexError`; when the scores cover the table, a positive k gives min(k, n) hits |
| Recommendation.CosineRanked | app/services/recommendation_service.py:88-97 | the cosine hits are top-k: each copies its own row and score, the rows are distinct, scores do not increase, and no row left out scores above any row returned |
| Recommendation.FaissHits | app/services/recommendation_service.py:64-72 | the comprehension maps the (doc, score) pairs one-to-one and in order: each hit maps back to its own pair |
| Recommendation.RecommendFaiss | app/services/recommendation_service.py:54-76 | k == 0 gives `[]` and a negative k the `ValueError`; for a positive k the result is hits exactly when the search on the cleaned description succeeds, one per search result, and otherwise the search's own exception |
| Recommendation.FaissOneToOne | app/services/recommendation_service.py:61-72 | when the search succeeds, mapping the FAISS hits back to rows and scores gives exactly its results for the cleaned description |
| Recommendation.GuardsComeFirst | app/services/recommendation_service.py:55-58 | for k <= 0 neither path's result depends on the text cleaning, the table, the scores, the argsort or the search |
| Recommendation.ValidatedNeverValueError | app/services/recommendation_service.py:54-101 | a validated request never gets the guard's `ValueError`: any error is the search's, the embedding's or the similarity's own, or `IndexError`; when the search succeeds, or the scores cover the table, the path returns hits |
| Recommendation.KeyByHowKPassed | app/services/recommendation_service.py:53-54 | an omitted `k`, a positional 5 and a keyword 5 are three different cache keys, yet both bodies give the same result for all three |
| Recommendation.CoherenceKept | app/services/recommendation_service.py:53 | a cached call keeps every entry under the object's keys equal to what the body computes for that key |
| Recommendation.RecommendationService.constructor | app/services/recommendation_service.py:14-20 | a new object over any table, embeddings, argsort, index and shared caches that hold none of its keys starts out valid |
| Recommendation.RecommendationService.RecommendBooksFaiss | app/services/recommendation_service.py:53-76 | the cached method returns exactly what the uncached body returns; a repeated key is a hit served from the table, moved to the most recent end, with a hit counted; a miss that raises leaves the table alone; a successful miss stores its result as the most recent entry, evicting the least recently used one when 100 are held; other objects' entries are at most evicted |
| Recommendation.RecommendationService.RecommendBooksCosine | app/services/recommendation_service.py:78-101 | the same guarantees for the cosine method and its own cache: the result is the cosine body's, a hit moves its key to the most recent end, a raising miss changes nothing, and a successful miss is stored, appended or replacing the oldest entry |
| Books.Filter | app/services/book_service.py:80 | the filter never lengthens the token list |
| Books.Lemmatize | app/services/book_service.py:83 | one lemma per kept token, in order |
| Books.FilterKeepsExactly | app/services/book_service.py:80 | a token survives exactly when it is alphabetic and not a stop word |
| Books.FilterConcat | app/services/book_service.py:80 | the filter keeps the input order: it distributes over concatenation |
| Books.Join | app/services/book_service.py:86 | `' '.join` of no words is empty; otherwise it starts with the first word and its length is the words' lengths plus one space between each neighbouring pair |
| Books.SplitJoin | app/services/book_service.py:86 | joining space-free words with single spaces can be undone by splitting at spaces |
| Books.CleanText | app/services/book_service.py:75-88 | no surviving token gives the empty text, and a single surviving token gives its lemma alone |
| Books.CleanTextWords | app/services/book_service.py:75-88 | the cleaned text, split at spaces, is the kept tokens lemmatized, in order |
| Books.FilterExample | tests/test_book_service.py:52-55 | in the unit-test sentence, only "test" and "punctuation" survive the filter |
| Books.CleanTextExample | tests/test_book_service.py:52-55 | "This is a test, with punctuation!" cleans to "test punctuation" |
| Books.DisplayTitle | app/services/book_service.py:67 | the display title always starts with the title (`""` when missing) and is longer exactly when the subtitle is present and non-empty, as `title - subtitle`; an empty or missing subtitle leaves no trailing " - " |
| Books.CleanBook | app/services/book_service.py:65-71 | the record carries the item's id, the display title, the authors or `[]`, the raw description, and the cleaned text of that description |
| Books.Kept | app/services/book_service.py:63-64 | the kept items all have a description key and are no more than the input |
| Books.KeptExactly | app/services/book_service.py:63-64 | an item is kept exactly when its `volumeInfo` has a description key |
| Books.KeptConcat | app/services/book_service.py:63-64 | keeping distributes over concatenation, so input order is preserved |
| Books.CleanData | app/services/book_service.py:61-73 | the loop returns one cleaned record, built from the item itself, for each kept item, in input order |
| Books.CleanDataExample | tests/test_book_service.py:43-49 | the unit-test item gives one record with id "1" and title "Test Book" |
| Books.SearchTerm | app/services/book_service.py:33 | the `q` sent is never empty: an empty query becomes `*`, any other is sent unchanged |
| Books.RangeShape | app/services/book_service.py:30 | `range(i, stop, 40)` has ceil((stop-i)/40) elements, the j-th being i + 40j |
| Books.PagePlan | app/services/book_service.py:29-50 | at least one request is always planned |
| Books.PagePlanSingle | app/services/book_service.py:44-50 | up to 40 results: a single request for exactly `max_results`, with no start index |
| Books.PagePlanPaged | app/services/book_service.py:29-37 | over 40 results: ceil(max_results/40) requests of 40, the j-th starting at 40j, all below `max_results` and covering it |
| Books.PagePlanDefault | tests/test_book_service.py:14-19 | the default call `collect_books()` is one request for 40 results of `*` |
| Books.PagePlanFortyOne | tests/test_book_service.py:28-33 | 41 results take two pages, at 0 and 40 |
| Books.MergePages | app/services/book_service.py:40-43 | a merge succeeds only when every page does; it keeps the first body's other fields and extends its `items`, failing when there is no `items` to extend |
| Books.MergeFailureFromPage | app/services/book_service.py:38-43 | a request failure during the merge is the error of one of the later pages |
| Books.CollectedFailureFromPage | app/services/book_service.py:27-55 | a request failure of `collect_books` is the error of one of the planned requests |
| Books.Collected | app/services/book_service.py:27-55 | a result means every planned page succeeded, with the first body's other fields, its `items` as a prefix of the result's, or the first body itself for a single page; the missing-items failure needs a first page without `items` and a later page |
| Books.CollectPaged | app/services/book_service.py:29-43 | the paging loop issues a prefix of the plan, all of it on success, and returns the merged body |
| Books.CollectBooks | app/services/book_service.py:27-55 | the requests issued are a prefix of the plan, all of it on success; the result is the first body with later pages' items appended, or the first failure |
| Books.MergeConcatenates | app/services/book_service.py:40-43 | when every page succeeds and the first has `items`, the result's items are all pages' items in page order |
| Books.CollectFortyOne | tests/test_book_service.py:28-33 | pages `["book1"]` and `["book2"]` merge into `["book1", "book2"]` |
| Evaluation.CountHits | scripts/evaluation.py:92-95 | the true-positive count never exceeds the number of predictions |
| Evaluation.CalculatePrecision | scripts/evaluation.py:91-96 | the counting loop returns tp / len(pred), or 0 for no predictions |
| Evaluation.CalculateRecall | scripts/evaluation.py:98-103 | the counting loop returns tp / len(true), or 0 for no true titles |
| Evaluation.CalculateMrr | scripts/evaluation.py:105-109 | the scan with early return gives 1/(i+1) for the first hit i, or 0 |
| Evaluation.CountHitsExtremes | scripts/evaluation.py:92-95 | the count is the full length exactly when every prediction is a hit, and 0 exactly when none is |
| Evaluation.CountHitsDistinct | scripts/evaluation.py:99-103 | without repeated predictions the count is the number of common titles |
| Evaluation.PrecisionBounds | scripts/evaluation.py:91-96 | precision lies in [0, 1]; it is 1 exactly when every prediction hits and 0 exactly when none does |
| Evaluation.RecallBounds | scripts/evaluation.py:98-103 | recall is never negative, is 0 for an empty true list, and is at most 1 when predictions are distinct |
| Evaluation.RecallAboveOne | scripts/evaluation.py:98-103 | repeated predictions are counted again: predicting "a" twice against ["a"] gives recall 2 |
| Evaluation.PrecisionCountsHits | scripts/evaluation.py:91-96 | precision times the number of predictions is the hit count |
| Evaluation.RecallCountsHits | scripts/evaluation.py:98-103 | recall times the number of true titles is the hit count |
| Evaluation.PrecisionRecallLink | scripts/evaluation.py:92-103 | for non-empty lists, precision * len(pred) == recall * len(true) |
| Evaluation.FirstHit | scripts/evaluation.py:106-108 | the first hit position is a hit with no hit before it, and when there is none no prediction hits |
| Evaluation.MrrBounds | scripts/evaluation.py:105-109 | MRR lies in [0, 1], is positive exactly when some prediction hits, and is 1 exactly when the first does |
| Evaluation.DiversityBounds | scripts/evaluation.py:16-18 | diversity fails (division by zero) exactly for an empty list; otherwise it lies in (0, 1] and is 1 exactly when no title repeats |
| Evaluation.SerendipityBounds | scripts/evaluation.py:20-24 | serendipity lies in [0, 1], is 0 with no recommendations, and is 1 exactly when no recommended title is in the history |
| Evaluation.Hit | scripts/evaluation.py:41-42 | the hit flag is true exactly when some recommendation carries the actual title |
| Evaluation.SerendipityOfMiss | scripts/evaluation.py:45-46 | against the row's own title as history, serendipity is 1 exactly when the row is not a hit |
| Evaluation.EvaluateRowFacts | scripts/evaluation.py:39-47 | a row is produced exactly when both lists are non-empty; its hit flags and serendipities agree, and both diversities lie in (0, 1] |

## Left out

- The query embedding is a request to the OpenAI embeddings service on every cache miss, in both paths: the cosine path calls `embed_query` directly, and the FAISS search embeds the cleaned query through the index's embedding function. Cosine similarity is a floating-point library call. Their outcomes are inputs here: a score vector or an error per description, and a list of (row, score) pairs or an error per query.
- Recommendation.RecommendationService.RecommendBooksFaiss / RecommendBooksCosine: the embedding request and the search are modelled as fixed functions of the text. A transient failure therefore fails again on every retry, and a later call can never get a different answer from the remote service. Under that assumption a hit returns exactly what the body computes (`Coherent`). In the source, a hit returns whatever the first successful call returned, even if the service would now answer differently.
- Recommendation.RecommendFaiss: it does not bound the number of hits by k. That count is whatever the index returns.
- The tests' `similarity > 0` claim is not modelled. It depends on the library's scores.
- The LLM query rephrasing, index and embedding creation, and their disk caches are not modelled, because they are library and I/O calls. This covers `processing_chain.py`, `_load_or_create_*`, `load_dataframe`, `create_dataframe` and `load_books`.
- The HTTP request in `collect_books` is the parameter `fetch`: `requests.get`, then `raise_for_status`, then `json()`. Its errors, including `raise_for_status`, are one `RequestFailed` outcome. Decoding the body is assumed to succeed. In the source, a later page is decoded only after `books_data['items']` is looked up, so a first page without `items` raises `KeyError` even when the later body is not JSON. The model gives `MissingItems` there too, but it cannot express a body that fails to decode.
- `scripts/populate_data.py` is not part of this model. It only drives the network and the disk.
- nltk's tokenizer, lemmatizer and stop-word list are uninterpreted parameters of `Books.TextPipeline`.
- `str.lower` and `str.isalpha` are parameters too. There is no Unicode case folding.
- JSON `null` inside a book record is not modelled. A null `title` or `description` is handled as an absent key here, but Python raises `TypeError` or `AttributeError` for it.
- A missing `items` key in `clean_data`'s input is not modelled. The model takes the item list itself.
- Books.CleanData: every item is assumed to have `volumeInfo` and `id`. In Python an item without `volumeInfo` raises `KeyError`, and so does an item with a description but no `id`. `Books.Volume` cannot express either.
- Books.CleanText: exceptions raised inside `_clean_text` (by nltk, for example when its data is missing) are not modelled. The pipeline's functions are total. In the FAISS path such an exception would be logged and re-raised like the search's.
- The logging of each re-raised exception is not modelled.
- BookModel.ValidateNum: pydantic's lax coercion is not modelled. pydantic also accepts a numeric string, a float with an integral value, and a JSON boolean (as 1 or 0) for an integer field. Only JSON integers are accepted here.
- The FastAPI layer is not modelled: the endpoints' mapping of exceptions to status codes, CORS, logging and configuration.
- The loops of `evaluate_recommendations_first` and `evaluate_recommendations_second` over the test set are not modelled, and neither are `np.mean`, `train_test_split` or the printing in `main`. One row of the first evaluation is modelled (`Evaluation.EvaluateRow`), and so are the three metric functions the second one calls (precision, recall and MRR).
- Concurrency is out of scope. `lru_cache` gives no at-most-once guarantee under concurrent callers, and the model is sequential.
- Passing `description` by keyword is not distinguished from passing it positionally in the cache key. Only `k` differs in how it is passed in this code.
