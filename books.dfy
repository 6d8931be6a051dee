/**
 * The corpus side of the book service: cleaning the records the book API
 * returns (`clean_data`, `_clean_text`) and planning the page requests that
 * fetch them (`collect_books`). The network call and the nltk pieces are
 * parameters of the model.
 */
module Books {
  import opened Outcomes

  // ---------------------------------------------------------------------------
  // Text cleaning
  // ---------------------------------------------------------------------------

  /** The library calls `_clean_text` makes, taken as given. */
  datatype TextPipeline = TextPipeline(
    lower: string -> string,
    tokenize: string -> seq<string>,
    isLetter: char -> bool,
    stopWords: set<string>,
    lemmatize: string -> string)

  /** `str.isalpha()`: non-empty and every character a letter. */
  predicate IsAlpha(p: TextPipeline, t: string) {
    |t| > 0 && forall i :: 0 <= i < |t| ==> p.isLetter(t[i])
  }

  /** The filter of `_clean_text`: alphabetic tokens that are not stop words. */
  predicate Keep(p: TextPipeline, t: string) {
    IsAlpha(p, t) && t !in p.stopWords
  }

  function Filter(p: TextPipeline, ts: seq<string>): (r: seq<string>)
    ensures |r| <= |ts|
  {
    if ts == [] then [] else (if Keep(p, ts[0]) then [ts[0]] else []) + Filter(p, ts[1..])
  }

  function Lemmatize(p: TextPipeline, ts: seq<string>): (r: seq<string>)
    ensures |r| == |ts| && forall i :: 0 <= i < |ts| ==> r[i] == p.lemmatize(ts[i])
  {
    if ts == [] then [] else [p.lemmatize(ts[0])] + Lemmatize(p, ts[1..])
  }

  /** The total number of characters in `ws`. */
  function TotalLength(ws: seq<string>): nat {
    if ws == [] then 0 else |ws[0]| + TotalLength(ws[1..])
  }

  /** `' '.join(ws)`: the words in order, one space between neighbours and none elsewhere. */
  function Join(ws: seq<string>): (r: string)
    ensures ws == [] ==> r == ""
    ensures ws != [] ==> |r| == TotalLength(ws) + |ws| - 1 && ws[0] <= r
  {
    if ws == [] then "" else if |ws| == 1 then ws[0] else ws[0] + " " + Join(ws[1..])
  }

  /** `s.split(' ')`: the pieces between single spaces, empty pieces included. */
  function Split(s: string): (r: seq<string>)
    ensures |r| >= 1
  {
    if s == [] then [""] else SplitStep(s[0], Split(s[1..]))
  }

  /** A space starts a new piece; any other character joins the first piece. */
  function SplitStep(c: char, rest: seq<string>): (r: seq<string>)
    requires |rest| >= 1
    ensures |r| >= 1
  {
    if c == ' ' then [""] + rest else [[c] + rest[0]] + rest[1..]
  }

  /** Joining by single spaces can be undone: space-free pieces come back from the split. */
  lemma {:induction false} SplitJoin(ws: seq<string>)
    requires |ws| >= 1
    requires forall i :: 0 <= i < |ws| ==> ' ' !in ws[i]
    ensures Split(Join(ws)) == ws
  {
    if |ws| == 1 {
      SplitWord(ws[0]);
    } else {
      SplitJoin(ws[1..]);
      SplitAtSpace(ws[0], Join(ws[1..]));
      assert [ws[0]] + ws[1..] == ws;
    }
  }

  /**
   * The cleaned text: tokens of the lower-cased text, filtered, lemmatized,
   * joined by single spaces. No surviving token gives the empty text, and a
   * single one gives its lemma alone.
   */
  function CleanText(p: TextPipeline, text: string): (r: string)
    ensures Filter(p, p.tokenize(p.lower(text))) == [] ==> r == ""
    ensures var kept := Filter(p, p.tokenize(p.lower(text)));
      |kept| == 1 ==> r == p.lemmatize(kept[0])
  {
    Join(Lemmatize(p, Filter(p, p.tokenize(p.lower(text)))))
  }

  /** The filter keeps exactly the tokens that are alphabetic and not stop words. */
  lemma {:induction false} FilterKeepsExactly(p: TextPipeline, ts: seq<string>)
    ensures forall t :: t in Filter(p, ts) <==> t in ts && Keep(p, t)
  {
    if ts != [] {
      FilterKeepsExactly(p, ts[1..]);
      assert ts == [ts[0]] + ts[1..];
    }
  }

  /** The filter keeps the input order: it distributes over concatenation. */
  lemma {:induction false} FilterConcat(p: TextPipeline, a: seq<string>, b: seq<string>)
    ensures Filter(p, a + b) == Filter(p, a) + Filter(p, b)
  {
    if a == [] {
      assert a + b == b;
    } else {
      assert (a + b)[0] == a[0];
      assert (a + b)[1..] == a[1..] + b;
      FilterConcat(p, a[1..], b);
      var head := if Keep(p, a[0]) then [a[0]] else [];
      assert Filter(p, a + b) == head + (Filter(p, a[1..]) + Filter(p, b));
      assert head + (Filter(p, a[1..]) + Filter(p, b)) == (head + Filter(p, a[1..])) + Filter(p, b);
    }
  }

  /** A piece without a space splits to itself. */
  lemma {:induction false} SplitWord(w: string)
    ensures ' ' !in w ==> Split(w) == [w]
  {
    if w != [] && ' ' !in w {
      SplitWord(w[1..]);
      assert [w[0]] + w[1..] == w;
    }
  }

  /** Splitting at the first space: the part before it, then the split of the rest. */
  lemma {:induction false} SplitAtSpace(a: string, b: string)
    ensures ' ' !in a ==> Split(a + " " + b) == [a] + Split(b)
  {
    var s := a + " " + b;
    if a == [] {
      assert s[1..] == b;
    } else if ' ' !in a {
      assert s[1..] == a[1..] + " " + b;
      SplitAtSpace(a[1..], b);
      assert [a[0]] + a[1..] == a;
    }
  }

  /**
   * The cleaned text is the kept tokens, lemmatized, separated by single
   * spaces: when some token is kept and no lemma holds a space, splitting it
   * at spaces gives those lemmas back, in order.
   */
  lemma CleanTextWords(p: TextPipeline, text: string)
    requires Filter(p, p.tokenize(p.lower(text))) != []
    requires forall t :: t in Filter(p, p.tokenize(p.lower(text))) ==> ' ' !in p.lemmatize(t)
    ensures Split(CleanText(p, text)) == Lemmatize(p, Filter(p, p.tokenize(p.lower(text))))
  {
    var kept := Filter(p, p.tokenize(p.lower(text)));
    var ws := Lemmatize(p, kept);
    forall i | 0 <= i < |ws| ensures ' ' !in ws[i] {
      assert kept[i] in kept;
    }
    SplitJoin(ws);
  }

  /** The tokens of the unit-test sentence that survive the filter. */
  lemma FilterExample(p: TextPipeline)
    requires forall c :: p.isLetter(c) <==> 'a' <= c <= 'z'
    requires "this" in p.stopWords && "is" in p.stopWords && "a" in p.stopWords && "with" in p.stopWords
    requires "test" !in p.stopWords && "punctuation" !in p.stopWords
    ensures Filter(p, ["this", "is", "a", "test", ",", "with", "punctuation", "!"]) == ["test", "punctuation"]
  {
    var ts := ["this", "is", "a", "test", ",", "with", "punctuation", "!"];
    assert !IsAlpha(p, ts[4]) by { assert !p.isLetter(ts[4][0]); }
    assert !IsAlpha(p, ts[7]) by { assert !p.isLetter(ts[7][0]); }
    assert Keep(p, ts[3]) && Keep(p, ts[6]);
    assert ts[7..][1..] == [];
    assert Filter(p, ts[7..]) == [];
    assert ts[6..][1..] == ts[7..];
    assert Filter(p, ts[6..]) == ["punctuation"];
    assert ts[5..][1..] == ts[6..];
    assert Filter(p, ts[5..]) == ["punctuation"];
    assert ts[4..][1..] == ts[5..];
    assert Filter(p, ts[4..]) == ["punctuation"];
    assert ts[3..][1..] == ts[4..];
    assert Filter(p, ts[3..]) == ["test", "punctuation"];
    assert ts[2..][1..] == ts[3..];
    assert Filter(p, ts[2..]) == ["test", "punctuation"];
    assert ts[1..][1..] == ts[2..];
    assert Filter(p, ts[1..]) == ["test", "punctuation"];
  }

  /** The unit-test sentence: punctuation and stop words go, "test punctuation" stays. */
  lemma CleanTextExample(p: TextPipeline)
    requires p.tokenize(p.lower("This is a test, with punctuation!")) ==
      ["this", "is", "a", "test", ",", "with", "punctuation", "!"]
    requires forall c :: p.isLetter(c) <==> 'a' <= c <= 'z'
    requires "this" in p.stopWords && "is" in p.stopWords && "a" in p.stopWords && "with" in p.stopWords
    requires "test" !in p.stopWords && "punctuation" !in p.stopWords
    requires p.lemmatize("test") == "test" && p.lemmatize("punctuation") == "punctuation"
    ensures CleanText(p, "This is a test, with punctuation!") == "test punctuation"
  {
    var text := "This is a test, with punctuation!";
    ExampleLemmas(p, p.tokenize(p.lower(text)));
    JoinTwo("test", "punctuation");
  }

  /** The lemmas of the unit-test sentence's kept tokens. */
  lemma ExampleLemmas(p: TextPipeline, ts: seq<string>)
    requires ts == ["this", "is", "a", "test", ",", "with", "punctuation", "!"]
    requires forall c :: p.isLetter(c) <==> 'a' <= c <= 'z'
    requires "this" in p.stopWords && "is" in p.stopWords && "a" in p.stopWords && "with" in p.stopWords
    requires "test" !in p.stopWords && "punctuation" !in p.stopWords
    requires p.lemmatize("test") == "test" && p.lemmatize("punctuation") == "punctuation"
    ensures Lemmatize(p, Filter(p, ts)) == ["test", "punctuation"]
  {
    FilterExample(p);
  }

  /** Two words join with one space between them. */
  lemma JoinTwo(a: string, b: string)
    ensures Join([a, b]) == a + " " + b
  {
    assert [a, b][1..] == [b];
  }

  // ---------------------------------------------------------------------------
  // Record cleaning
  // ---------------------------------------------------------------------------

  /** The `volumeInfo` fields the service reads; `None` is a missing key. */
  datatype VolumeInfo = VolumeInfo(
    title: Option<string>,
    subtitle: Option<string>,
    authors: Option<seq<string>>,
    description: Option<string>)

  /** One item of the API's `items` list. */
  datatype Volume = Volume(id: string, volumeInfo: VolumeInfo)

  /** One cleaned corpus record. */
  datatype CleanedBook = CleanedBook(
    id: string,
    title: string,
    authors: seq<string>,
    processedDescription: string,
    description: string)

  predicate HasDescription(v: Volume) {
    v.volumeInfo.description.Some?
  }

  /** The subtitle counts only when present and non-empty (Python truthiness). */
  predicate HasSubtitle(info: VolumeInfo) {
    info.subtitle.Some? && info.subtitle.value != ""
  }

  /** The display title: `title - subtitle` when there is a subtitle, the bare title otherwise, `""` for a missing title. */
  function DisplayTitle(info: VolumeInfo): (t: string)
    ensures var title := if info.title.Some? then info.title.value else "";
      title <= t && (t == title <==> !HasSubtitle(info))
    ensures var title := if info.title.Some? then info.title.value else "";
      t == if HasSubtitle(info) then title + " - " + info.subtitle.value else title
  {
    (if info.title.Some? then info.title.value else "") +
    (if HasSubtitle(info) then " - " + info.subtitle.value else "")
  }

  /** The record built for one item that has a description. */
  function CleanBook(p: TextPipeline, v: Volume): (r: CleanedBook)
    requires HasDescription(v)
    ensures r.id == v.id && r.title == DisplayTitle(v.volumeInfo)
    ensures r.authors == if v.volumeInfo.authors.Some? then v.volumeInfo.authors.value else []
    ensures r.description == v.volumeInfo.description.value
    ensures r.processedDescription == CleanText(p, r.description)
  {
    var info := v.volumeInfo;
    CleanedBook(
      v.id,
      DisplayTitle(info),
      if info.authors.Some? then info.authors.value else [],
      CleanText(p, info.description.value),
      info.description.value)
  }

  /** The items that have a `description` key, in input order. */
  function Kept(items: seq<Volume>): (r: seq<Volume>)
    ensures |r| <= |items|
    ensures forall i :: 0 <= i < |r| ==> HasDescription(r[i])
  {
    if items == [] then []
    else
      var last := items[|items| - 1];
      Kept(items[..|items| - 1]) + if HasDescription(last) then [last] else []
  }

  function CleanAll(p: TextPipeline, items: seq<Volume>): (r: seq<CleanedBook>)
    requires forall i :: 0 <= i < |items| ==> HasDescription(items[i])
  {
    seq(|items|, i requires 0 <= i < |items| => CleanBook(p, items[i]))
  }

  /** `clean_data`: one cleaned record per item that has a description, in input order. */
  method CleanData(p: TextPipeline, items: seq<Volume>) returns (cleaned: seq<CleanedBook>)
    ensures cleaned == CleanAll(p, Kept(items))
  {
    cleaned := [];
    for i := 0 to |items|
      invariant cleaned == CleanAll(p, Kept(items[..i]))
    {
      ghost var before := Kept(items[..i]);
      KeptStep(items, i);
      if HasDescription(items[i]) {
        var record := CleanBook(p, items[i]);
        CleanAllSnoc(p, before, items[i]);
        cleaned := cleaned + [record];
      }
    }
    assert items[..|items|] == items;
  }

  /** Looking at one more item keeps it at the end exactly when it has a description. */
  lemma KeptStep(items: seq<Volume>, i: nat)
    requires i < |items|
    ensures Kept(items[..i + 1]) == Kept(items[..i]) + if HasDescription(items[i]) then [items[i]] else []
  {
    assert items[..i + 1][..i] == items[..i];
  }

  /** Cleaning one more kept item appends its record. */
  lemma CleanAllSnoc(p: TextPipeline, s: seq<Volume>, v: Volume)
    requires forall i :: 0 <= i < |s| ==> HasDescription(s[i])
    requires HasDescription(v)
    ensures CleanAll(p, s + [v]) == CleanAll(p, s) + [CleanBook(p, v)]
  {
    var t := s + [v];
    assert forall i :: 0 <= i < |s| ==> t[i] == s[i];
  }

  /** An item is kept exactly when it has a description, whatever that description is. */
  lemma {:induction false} KeptExactly(items: seq<Volume>)
    ensures forall v :: v in Kept(items) <==> v in items && HasDescription(v)
  {
    if items != [] {
      KeptExactly(items[..|items| - 1]);
      assert items == items[..|items| - 1] + [items[|items| - 1]];
    }
  }

  /** Keeping distributes over concatenation, so the input order is preserved. */
  lemma {:induction false} KeptConcat(a: seq<Volume>, b: seq<Volume>)
    ensures Kept(a + b) == Kept(a) + Kept(b)
  {
    if b == [] {
      assert a + b == a;
    } else {
      var c := a + b;
      assert c[..|c| - 1] == a + b[..|b| - 1];
      assert c[|c| - 1] == b[|b| - 1];
      KeptConcat(a, b[..|b| - 1]);
      var tail := if HasDescription(b[|b| - 1]) then [b[|b| - 1]] else [];
      assert Kept(c) == (Kept(a) + Kept(b[..|b| - 1])) + tail;
      assert Kept(b) == Kept(b[..|b| - 1]) + tail;
    }
  }

  /** The unit-test record: one item with a description gives one record with its id and title. */
  lemma CleanDataExample(p: TextPipeline)
    ensures var v := Volume("1", VolumeInfo(Some("Test Book"), None, None, Some("A test book description.")));
      && |CleanAll(p, Kept([v]))| == 1
      && CleanAll(p, Kept([v]))[0].id == "1"
      && CleanAll(p, Kept([v]))[0].title == "Test Book"
      && CleanAll(p, Kept([v]))[0].authors == []
      && CleanAll(p, Kept([v]))[0].processedDescription == CleanText(p, "A test book description.")
  {
    var v := Volume("1", VolumeInfo(Some("Test Book"), None, None, Some("A test book description.")));
    assert Kept([v]) == [v];
  }

  // ---------------------------------------------------------------------------
  // Page planning
  // ---------------------------------------------------------------------------

  /** The largest page the book API serves. */
  const PageSize: int := 40

  /** One request to the volumes endpoint; `startIndex` is sent only when paging. */
  datatype PageRequest = PageRequest(q: string, maxResults: int, startIndex: Option<int>)

  /** A decoded response body: its `items` list, if any, and everything else. */
  datatype Body<T, X> = Body(items: Option<seq<T>>, rest: X)

  /** Why collecting failed: a request raised, or the first page had no `items` to extend. */
  datatype CollectError<E> = RequestFailed(cause: E) | MissingItems

  /** An empty query is sent as `*`. */
  function SearchTerm(query: string): (q: string)
    ensures q != ""
    ensures query == "" ==> q == "*"
    ensures query != "" ==> q == query
  {
    if query != "" then query else "*"
  }

  /** `range(i, stop, 40)`. */
  function Range(i: int, stop: int): seq<int>
    decreases stop - i
  {
    if i >= stop then [] else [i] + Range(i + PageSize, stop)
  }

  /** `range(i, stop, 40)` has ceil((stop - i) / 40) elements, the j-th being i + 40 j. */
  lemma {:induction false} RangeShape(i: int, stop: int)
    ensures |Range(i, stop)| == if i >= stop then 0 else (stop - i + 39) / 40
    ensures forall j :: 0 <= j < |Range(i, stop)| ==> Range(i, stop)[j] == i + 40 * j
    ensures forall j :: 0 <= j < |Range(i, stop)| ==> Range(i, stop)[j] < stop
    ensures i + 40 * |Range(i, stop)| >= stop
    decreases stop - i
  {
    if i < stop {
      RangeShape(i + PageSize, stop);
    }
  }

  /** The requests `collect_books` issues, in order, when none fails. */
  function PagePlan(query: string, maxResults: int): (plan: seq<PageRequest>)
    ensures |plan| >= 1
  {
    if maxResults > PageSize then
      var starts := Range(0, maxResults);
      RangeShape(0, maxResults);
      seq(|starts|, j requires 0 <= j < |starts| => PageRequest(SearchTerm(query), PageSize, Some(starts[j])))
    else
      [PageRequest(SearchTerm(query), maxResults, None)]
  }

  /** Up to 40 results: one request for exactly `max_results`, without a start index. */
  lemma PagePlanSingle(query: string, maxResults: int)
    requires maxResults <= PageSize
    ensures PagePlan(query, maxResults) == [PageRequest(SearchTerm(query), maxResults, None)]
  {
  }

  /**
   * Over 40 results: ceil(max_results / 40) requests of 40, the j-th starting
   * at 40 j, so the start indices are exactly the multiples of 40 below
   * `max_results`.
   */
  lemma PagePlanPaged(query: string, maxResults: int)
    requires maxResults > PageSize
    ensures |PagePlan(query, maxResults)| == (maxResults + 39) / 40
    ensures forall j :: 0 <= j < |PagePlan(query, maxResults)| ==>
      PagePlan(query, maxResults)[j] == PageRequest(SearchTerm(query), PageSize, Some(40 * j))
    ensures forall j :: 0 <= j < |PagePlan(query, maxResults)| ==> 40 * j < maxResults
    ensures 40 * |PagePlan(query, maxResults)| >= maxResults
  {
    RangeShape(0, maxResults);
    var starts := Range(0, maxResults);
    var term := SearchTerm(query);
    assert PagePlan(query, maxResults) ==
      seq(|starts|, j requires 0 <= j < |starts| => PageRequest(term, PageSize, Some(starts[j])));
  }

  /** The default call `collect_books()`: one request for 40 results of `*`. */
  lemma PagePlanDefault()
    ensures PagePlan("", 40) == [PageRequest("*", 40, None)]
  {
    PagePlanSingle("", 40);
  }

  /** The 41-result case of the tests: two pages, at 0 and 40. */
  lemma PagePlanFortyOne()
    ensures PagePlan("", 41) == [PageRequest("*", 40, Some(0)), PageRequest("*", 40, Some(40))]
  {
    PagePlanPaged("", 41);
  }

  function ItemsOf<T, X>(b: Body<T, X>): seq<T> {
    if b.items.Some? then b.items.value else []
  }

  /** The pages after the first: each one's items extend the first page's `items`. */
  function MergePages<T, X, E>(fetch: PageRequest -> Result<Body<T, X>, E>, reqs: seq<PageRequest>, acc: Body<T, X>)
    : (r: Result<Body<T, X>, CollectError<E>>)
    ensures r.Ok? ==> forall j :: 0 <= j < |reqs| ==> fetch(reqs[j]).Ok?
    ensures r.Ok? ==> r.value.rest == acc.rest
    ensures r.Ok? && reqs == [] ==> r.value == acc
    ensures r.Ok? && reqs != [] ==> acc.items.Some? && r.value.items.Some? && acc.items.value <= r.value.items.value
    ensures acc.items.None? && reqs != [] ==> r.Err?
    ensures r == Err(MissingItems) ==> acc.items.None?
  {
    if reqs == [] then Ok(acc)
    else match fetch(reqs[0])
      case Err(e) => Err(RequestFailed(e))
      case Ok(page) =>
        if acc.items.None? then Err(MissingItems)
        else MergePages(fetch, reqs[1..], acc.(items := Some(acc.items.value + ItemsOf(page))))
  }

  /** What `collect_books` returns: the first page's body, its `items` extended by the later pages'. */
  function Collected<T, X, E>(fetch: PageRequest -> Result<Body<T, X>, E>, query: string, maxResults: int)
    : (r: Result<Body<T, X>, CollectError<E>>)
    ensures var plan := PagePlan(query, maxResults);
      r.Ok? ==> forall j :: 0 <= j < |plan| ==> fetch(plan[j]).Ok?
    ensures var plan := PagePlan(query, maxResults);
      r.Ok? ==> fetch(plan[0]).Ok? && r.value.rest == fetch(plan[0]).value.rest
    ensures var plan := PagePlan(query, maxResults);
      r.Ok? && |plan| == 1 ==> r.value == fetch(plan[0]).value
    ensures var plan := PagePlan(query, maxResults);
      r.Ok? && |plan| > 1 ==>
        fetch(plan[0]).value.items.Some? && r.value.items.Some? && fetch(plan[0]).value.items.value <= r.value.items.value
    ensures var plan := PagePlan(query, maxResults);
      r == Err(MissingItems) ==> |plan| > 1 && fetch(plan[0]).Ok? && fetch(plan[0]).value.items.None?
  {
    var plan := PagePlan(query, maxResults);
    match fetch(plan[0])
    case Err(e) => Err(RequestFailed(e))
    case Ok(first) => MergePages(fetch, plan[1..], first)
  }

  /** One step of the merge: the next page's outcome decides the rest. */
  lemma MergeStep<T, X, E>(fetch: PageRequest -> Result<Body<T, X>, E>, reqs: seq<PageRequest>, j: nat, acc: Body<T, X>)
    requires j < |reqs|
    ensures MergePages(fetch, reqs[j..], acc) ==
      match fetch(reqs[j])
      case Err(e) => Err(RequestFailed(e))
      case Ok(page) =>
        if acc.items.None? then Err(MissingItems)
        else MergePages(fetch, reqs[j + 1..], acc.(items := Some(acc.items.value + ItemsOf(page))))
  {
    assert reqs[j..][0] == reqs[j];
    assert reqs[j..][1..] == reqs[j + 1..];
  }

  /** The loop of `collect_books` over `range(0, max_results, 40)`, one page of 40 per step. */
  method CollectPaged<T, X, E>(fetch: PageRequest -> Result<Body<T, X>, E>, query: string, maxResults: int)
    returns (r: Result<Body<T, X>, CollectError<E>>, issued: seq<PageRequest>)
    requires maxResults > PageSize
    ensures r == Collected(fetch, query, maxResults)
    ensures 1 <= |issued| <= |PagePlan(query, maxResults)|
    ensures issued == PagePlan(query, maxResults)[..|issued|]
    ensures r.Ok? ==> issued == PagePlan(query, maxResults)
  {
    var term := if query != "" then query else "*";
    ghost var plan := PagePlan(query, maxResults);
    ghost var target := Collected(fetch, query, maxResults);
    PagePlanPaged(query, maxResults);
    var data: Option<Body<T, X>> := None;
    issued := [];
    var i := 0;
    while i < maxResults
      invariant i == 40 * |issued| && |issued| <= |plan|
      invariant issued == plan[..|issued|]
      invariant i > 0 <==> data.Some?
      invariant data.Some? ==> target == MergePages(fetch, plan[|issued|..], data.value)
    {
      ghost var j := |issued|;
      assert j < |plan|;
      var req := PageRequest(term, PageSize, Some(i));
      assert req == plan[j];
      assert plan[..j + 1] == plan[..j] + [plan[j]];
      issued := issued + [req];
      var page := fetch(req);
      if j > 0 {
        MergeStep(fetch, plan, j, data.value);
      }
      if page.Err? {
        r := Err(RequestFailed(page.error));
        return;
      }
      if i == 0 {
        data := Some(page.value);
      } else {
        if data.value.items.None? {
          r := Err(MissingItems);
          return;
        }
        data := Some(data.value.(items := Some(data.value.items.value + ItemsOf(page.value))));
      }
      i := i + PageSize;
    }
    assert |issued| == |plan|;
    assert plan[|issued|..] == [];
    assert plan[..|plan|] == plan;
    r := Ok(data.value);
  }

  /** `collect_books`, with the HTTP GET as `fetch`; also returns the requests it issued. */
  method CollectBooks<T, X, E>(fetch: PageRequest -> Result<Body<T, X>, E>, query: string, maxResults: int)
    returns (r: Result<Body<T, X>, CollectError<E>>, issued: seq<PageRequest>)
    ensures r == Collected(fetch, query, maxResults)
    ensures 1 <= |issued| <= |PagePlan(query, maxResults)|
    ensures issued == PagePlan(query, maxResults)[..|issued|]
    ensures r.Ok? ==> issued == PagePlan(query, maxResults)
  {
    if maxResults > PageSize {
      r, issued := CollectPaged(fetch, query, maxResults);
    } else {
      var term := if query != "" then query else "*";
      var req := PageRequest(term, maxResults, None);
      issued := [req];
      var page := fetch(req);
      r := if page.Ok? then Ok(page.value) else Err(RequestFailed(page.error));
    }
  }

  /** The items of a run of pages that all succeed, concatenated in page order. */
  function PagesItems<T, X, E>(fetch: PageRequest -> Result<Body<T, X>, E>, reqs: seq<PageRequest>): seq<T>
    requires forall j :: 0 <= j < |reqs| ==> fetch(reqs[j]).Ok?
  {
    if reqs == [] then [] else ItemsOf(fetch(reqs[0]).value) + PagesItems(fetch, reqs[1..])
  }

  /** When every page succeeds and the first has an `items` list, the result's items are all pages' items in page order. */
  lemma {:induction false} MergeConcatenates<T, X, E>(fetch: PageRequest -> Result<Body<T, X>, E>, reqs: seq<PageRequest>, acc: Body<T, X>)
    requires forall j :: 0 <= j < |reqs| ==> fetch(reqs[j]).Ok?
    requires acc.items.Some?
    ensures MergePages(fetch, reqs, acc) == Ok(acc.(items := Some(acc.items.value + PagesItems(fetch, reqs))))
  {
    if reqs == [] {
      assert acc.items.value + PagesItems(fetch, reqs) == acc.items.value;
    } else {
      assert fetch(reqs[0]).Ok?;
      var next := acc.(items := Some(acc.items.value + ItemsOf(fetch(reqs[0]).value)));
      assert MergePages(fetch, reqs, acc) == MergePages(fetch, reqs[1..], next);
      MergeConcatenates(fetch, reqs[1..], next);
      assert PagesItems(fetch, reqs) == ItemsOf(fetch(reqs[0]).value) + PagesItems(fetch, reqs[1..]);
      assert next.items.value + PagesItems(fetch, reqs[1..]) == acc.items.value + PagesItems(fetch, reqs);
    }
  }

  /** A failed request in the merge is one of the later pages' own errors. */
  lemma {:induction false} MergeFailureFromPage<T, X, E>(
    fetch: PageRequest -> Result<Body<T, X>, E>, reqs: seq<PageRequest>, acc: Body<T, X>, e: E)
    requires MergePages(fetch, reqs, acc) == Err(RequestFailed(e))
    ensures exists j :: 0 <= j < |reqs| && fetch(reqs[j]) == Err(e)
  {
    var first := fetch(reqs[0]);
    if first.Err? {
      assert fetch(reqs[0]) == Err(e);
    } else {
      var next := acc.(items := Some(acc.items.value + ItemsOf(first.value)));
      MergeFailureFromPage(fetch, reqs[1..], next, e);
      var j :| 0 <= j < |reqs[1..]| && fetch(reqs[1..][j]) == Err(e);
      assert fetch(reqs[j + 1]) == Err(e);
    }
  }

  /** A failed request in `collect_books` is the error of one of the planned requests. */
  lemma CollectedFailureFromPage<T, X, E>(
    fetch: PageRequest -> Result<Body<T, X>, E>, query: string, maxResults: int, e: E)
    requires Collected(fetch, query, maxResults) == Err(RequestFailed(e))
    ensures exists j :: 0 <= j < |PagePlan(query, maxResults)| && fetch(PagePlan(query, maxResults)[j]) == Err(e)
  {
    var plan := PagePlan(query, maxResults);
    if fetch(plan[0]).Err? {
      assert fetch(plan[0]) == Err(e);
    } else {
      MergeFailureFromPage(fetch, plan[1..], fetch(plan[0]).value, e);
      var j :| 0 <= j < |plan[1..]| && fetch(plan[1..][j]) == Err(e);
      assert fetch(plan[j + 1]) == Err(e);
    }
  }

  /** The paginated test: pages ["book1"] then ["book2"] give items ["book1", "book2"]. */
  lemma CollectFortyOne<X, E>(fetch: PageRequest -> Result<Body<string, X>, E>, x: X, y: X)
    requires fetch(PageRequest("*", 40, Some(0))) == Ok(Body(Some(["book1"]), x))
    requires fetch(PageRequest("*", 40, Some(40))) == Ok(Body(Some(["book2"]), y))
    ensures Collected(fetch, "", 41) == Ok(Body(Some(["book1", "book2"]), x))
  {
    PagePlanFortyOne();
    var plan := PagePlan("", 41);
    var first := Body(Some(["book1"]), x);
    assert plan[1..] == [PageRequest("*", 40, Some(40))];
    assert plan[1..][1..] == [];
    assert ["book1"] + ["book2"] == ["book1", "book2"];
    assert MergePages(fetch, plan[1..], first) == MergePages(fetch, [], Body(Some(["book1", "book2"]), x));
  }
}
