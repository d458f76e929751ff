/** The client of the Italian Wikipedia API: the request URLs it builds, the loop that
    turns search hits into WikiSearchResults, and the reading of a page into an Article.
    The HTTP exchange together with Jackson's parsing is the parameter `fetch`: it maps a
    request URL to the parsed response tree, or to the exception sending or parsing threw. */
module WikiService {
  import opened JavaLang
  import opened Json
  import opened JavaStrings
  import opened FormEncoding
  import opened Articles

  const API_URL: string := "https://it.wikipedia.org/w/api.php"

  /** The prefix of a search result's article link. */
  const PAGE_URL: string := "https://it.wikipedia.org/wiki/"

  /** The content an article gets when the page has no usable extract. */
  const MISSING_CONTENT: string := "Contenuto non disponibile"

  /** The request for one random page of the main namespace. */
  const RANDOM_URL: string := API_URL + "?action=query&list=random&rnnamespace=0&rnlimit=1&format=json"

  /** The search request as search() concatenates it. */
  function SearchUrl(query: string, limit: int): string {
    SEARCH_PREFIX + FormEncode(query) + SEARCH_SUFFIX + IntToString(limit)
  }

  /** The fixed text before the encoded query in a search request. */
  const SEARCH_PREFIX: string := API_URL + "?action=query&list=search&srsearch="

  /** The fixed text between the encoded query and the limit. */
  const SEARCH_SUFFIX: string := "&" + FORMAT_PARAM + "&" + LIMIT_KEY

  /** The response-format parameter of the search request. */
  const FORMAT_PARAM: string := "format=json"

  /** The key and '=' that introduce the search limit. */
  const LIMIT_KEY: string := "srlimit="

  /** One search hit as a WikiSearchResult: each field is the hit's member as text, ""
      when it is absent, and the link is the page prefix followed by the encoded title. */
  function ToSearchResult(hit: Json): WikiSearchResult {
    var title := AsText(Path(hit, "title"));
    WikiSearchResult(title, AsText(Path(hit, "snippet")), AsText(Path(hit, "pageid")),
                     PAGE_URL + FormEncode(title))
  }

  /** The nodes search() iterates: the children of query.search. */
  function SearchHits(root: Json): seq<Json> {
    Elements(Path(Path(root, "query"), "search"))
  }

  /** The loop of search(): one result per hit, in the order of the hits. */
  method SearchResults(root: Json) returns (results: seq<WikiSearchResult>)
    ensures |results| == |SearchHits(root)|
    ensures forall i :: 0 <= i < |results| ==> results[i] == ToSearchResult(SearchHits(root)[i])
  {
    var hits := SearchHits(root);
    results := [];
    var i := 0;
    while i < |hits|
      invariant 0 <= i <= |hits|
      invariant |results| == i
      invariant forall j :: 0 <= j < i ==> results[j] == ToSearchResult(hits[j])
    {
      results := results + [ToSearchResult(hits[i])];
      i := i + 1;
    }
  }

  /** search(): one request, then the results of the hits it returned; a failed request
      or an unreadable body propagates. */
  method Search(query: string, limit: int, fetch: string -> Result<Json>) returns (r: Result<seq<WikiSearchResult>>)
    ensures fetch(SearchUrl(query, limit)).Failure? ==> r == Failure(fetch(SearchUrl(query, limit)).error)
    ensures fetch(SearchUrl(query, limit)).Success? ==> r.Success?
    ensures fetch(SearchUrl(query, limit)).Success? ==>
      var hits := SearchHits(fetch(SearchUrl(query, limit)).value);
      |r.value| == |hits| && forall i :: 0 <= i < |hits| ==> r.value[i] == ToSearchResult(hits[i])
  {
    var response := fetch(SearchUrl(query, limit));
    if response.Failure? {
      return Failure(response.error);
    }
    var results := SearchResults(response.value);
    r := Success(results);
  }

  /** The nine parameters getArticle() puts in its HashMap. */
  function ArticleParams(title: string): map<string, string> {
    map["action" := "query", "prop" := "extracts|pageimages|info", "inprop" := "url",
        "pithumbsize" := "500", "format" := "json", "explaintext" := "1",
        "exintro" := "0", "exchars" := "20000", "titles" := title]
  }

  /** The title is the value of the "titles" parameter. */
  lemma TitleParam(title: string)
    ensures "titles" in ArticleParams(title) && ArticleParams(title)["titles"] == title
  {
  }

  /** An order in which a HashMap may yield its keys: each key exactly once. */
  ghost predicate IsOrdering(order: seq<string>, keys: set<string>) {
    && (forall i :: 0 <= i < |order| ==> order[i] in keys)
    && (forall k :: k in keys ==> k in order)
    && (forall i, j :: 0 <= i < j < |order| ==> order[i] != order[j])
  }

  /** The entries of params in the given key order. */
  function EntriesIn(order: seq<string>, params: map<string, string>): (r: seq<(string, string)>)
    requires forall i :: 0 <= i < |order| ==> order[i] in params
    ensures |r| == |order|
  {
    seq(|order|, i requires 0 <= i < |order| => (order[i], params[order[i]]))
  }

  /** A URL getArticle() may send for this title: the API URL, '?', and the encoded
      parameters joined by '&' in some iteration order of the map. */
  ghost predicate IsArticleUrl(url: string, title: string) {
    exists order :: IsOrdering(order, ArticleParams(title).Keys) &&
      url == API_URL + "?" + QueryString(EntriesIn(order, ArticleParams(title)))
  }

  /** A query string of at least one pair ends with a character other than '?'. */
  lemma QueryStringEnding(ps: seq<(string, string)>)
    requires |ps| >= 1
    ensures |QueryString(ps)| >= 1 && QueryString(ps)[|QueryString(ps)| - 1] != '?'
  {
    var ts := PairTexts(ps);
    var last := Pair(ps[|ps| - 1]);
    PairShape(ps[|ps| - 1]);
    if |ps| > 1 {
      var init := ts[..|ts| - 1];
      assert ts == init + [last];
      JoinSnoc(init, last, '&');
      LastOfConcat(Join(init, '&') + ['&'], last);
    }
  }

  /** The builder's text once the entries of order have been appended. */
  function Builder(base: string, order: seq<string>, params: map<string, string>): string
    requires forall i :: 0 <= i < |order| ==> order[i] in params
  {
    base + "?" + QueryString(EntriesIn(order, params))
  }

  /** The builder ends with '?' exactly while no entry has been appended. */
  lemma BuilderEnding(base: string, order: seq<string>, params: map<string, string>)
    requires forall i :: 0 <= i < |order| ==> order[i] in params
    ensures var b := Builder(base, order, params); b[|b| - 1] == '?' <==> |order| == 0
  {
    if |order| > 0 {
      var q := QueryString(EntriesIn(order, params));
      QueryStringEnding(EntriesIn(order, params));
      assert Builder(base, order, params)[|Builder(base, order, params)| - 1] == q[|q| - 1];
    }
  }

  /** The first entry is appended right after the '?'. */
  lemma BuilderAppendFirst(base: string, params: map<string, string>, key: string)
    requires key in params
    ensures Builder(base, [key], params) == Builder(base, [], params) + FormEncode(key) + "=" + FormEncode(params[key])
  {
    var p := (key, params[key]);
    assert EntriesIn([key], params) == [p];
    assert PairTexts([p]) == [Pair(p)];
    assert EntriesIn([], params) == [];
    RegroupAfterEmpty(base + "?", FormEncode(key), "=", FormEncode(params[key]));
  }

  /** Every later entry is appended after an '&'. */
  lemma BuilderAppendNext(base: string, order: seq<string>, params: map<string, string>, key: string)
    requires forall i :: 0 <= i < |order| ==> order[i] in params
    requires key in params && |order| > 0
    ensures Builder(base, order + [key], params) ==
      Builder(base, order, params) + "&" + FormEncode(key) + "=" + FormEncode(params[key])
  {
    var before := EntriesIn(order, params);
    var p := (key, params[key]);
    assert EntriesIn(order + [key], params) == before + [p];
    QueryStringSnoc(before, p);
    Regroup(base + "?", QueryString(before), "&", FormEncode(key), "=", FormEncode(params[key]));
  }

  /** A query string with one more pair at the end. */
  lemma QueryStringSnoc(ps: seq<(string, string)>, p: (string, string))
    ensures |ps| == 0 ==> QueryString(ps + [p]) == Pair(p)
    ensures |ps| > 0 ==> QueryString(ps + [p]) == QueryString(ps) + "&" + Pair(p)
  {
    assert PairTexts(ps + [p]) == PairTexts(ps) + [Pair(p)];
    if |ps| > 0 {
      JoinSnoc(PairTexts(ps), Pair(p), '&');
    }
  }

  /** The StringBuilder loop of getArticle(): starting from base + "?", each entry the map
      yields is appended as key=value, preceded by '&' unless the builder still ends with
      '?'. The map's iteration order is not specified, so the loop takes the keys in any order. */
  method BuildUrl(base: string, params: map<string, string>) returns (url: string, ghost order: seq<string>)
    ensures IsOrdering(order, params.Keys)
    ensures url == base + "?" + QueryString(EntriesIn(order, params))
  {
    url := base + "?";
    order := [];
    var remaining := params.Keys;
    while remaining != {}
      invariant remaining <= params.Keys
      invariant forall i :: 0 <= i < |order| ==> order[i] in params && order[i] !in remaining
      invariant forall k :: k in params && k !in remaining ==> k in order
      invariant forall i, j :: 0 <= i < j < |order| ==> order[i] != order[j]
      invariant url == Builder(base, order, params)
      decreases remaining
    {
      if forall k :: k !in remaining {
        assert false;  // remaining is not empty
      }
      var key :| key in remaining;
      BuilderEnding(base, order, params);
      if |order| == 0 {
        BuilderAppendFirst(base, params, key);
      } else {
        BuilderAppendNext(base, order, params, key);
      }
      if url[|url| - 1] != '?' {
        url := url + "&";
      }
      url := url + FormEncode(key) + "=" + FormEncode(params[key]);
      order := order + [key];
      remaining := remaining - {key};
    }
  }

  /** The Article a page node reads as. The title, page id and wiki URL are the page's
      members as text; the content is the extract, or MISSING_CONTENT when the extract is
      absent, JSON null or empty; the image is the thumbnail's source exactly when the page
      has a thumbnail; id, user id and download date stay null. */
  function PageToArticle(page: Json): (a: Article)
    ensures a.content.Some? && |a.content.value| > 0
    ensures a.imageUrl.Some? <==> Has(page, "thumbnail")
    ensures a.id.None? && a.userId.None? && a.dateDownloaded.None?
    ensures a.title.Some? && a.pageId.Some? && a.wikiUrl.Some?
  {
    var extract := AsTextOr(Path(page, "extract"), None);
    var content := if extract.None? || extract.value == [] then MISSING_CONTENT else extract.value;
    var image := if Has(page, "thumbnail") then Some(AsText(Path(Path(page, "thumbnail"), "source"))) else None;
    NEW_ARTICLE.(title := Some(AsText(Path(page, "title"))), content := Some(content),
                 pageId := Some(AsText(Path(page, "pageid"))), wikiUrl := Some(AsText(Path(page, "fullurl"))),
                 imageUrl := image)
  }

  /** What getArticle() makes of the response: the first child of query.pages, or
      NoSuchElementException when there is none. */
  function ArticleFromResponse(response: Result<Json>): (r: Result<Article>)
    ensures response.Failure? ==> r == Failure(response.error)
    ensures response.Success? && Elements(Path(Path(response.value, "query"), "pages")) == [] ==>
      r == Failure(NoSuchElement)
    ensures response.Success? && Elements(Path(Path(response.value, "query"), "pages")) != [] ==>
      r == Success(PageToArticle(Elements(Path(Path(response.value, "query"), "pages"))[0]))
  {
    match response
    case Failure(e) => Failure(e)
    case Success(root) =>
      var pages := Elements(Path(Path(root, "query"), "pages"));
      if pages == [] then Failure(NoSuchElement) else Success(PageToArticle(pages[0]))
  }

  /** getArticle(title): one request built from the nine parameters, read as above. The
      URL sent is returned alongside as a ghost, since it depends on the map's order. */
  method GetArticle(title: string, fetch: string -> Result<Json>) returns (r: Result<Article>, ghost url: string)
    ensures IsArticleUrl(url, title)
    ensures r == ArticleFromResponse(fetch(url))
  {
    var request;
    ghost var order;
    request, order := BuildUrl(API_URL, ArticleParams(title));
    url := request;
    r := ArticleFromResponse(fetch(request));
  }

  /** The title getFeaturedArticle() reads: query.random[0].title as text, or null when
      there is no first random page (calling path on that null throws). */
  function FeaturedTitle(root: Json): (t: Option<string>)
    ensures t.Some? <==> GetIndex(Path(Path(root, "query"), "random"), 0).Some?
  {
    match GetIndex(Path(Path(root, "query"), "random"), 0)
    case None => None
    case Some(item) => Some(AsText(Path(item, "title")))
  }

  /** getFeaturedArticle(): asks for one random page, then fetches that title as getArticle does. */
  method GetFeaturedArticle(fetch: string -> Result<Json>) returns (r: Result<Article>, ghost url: string)
    ensures fetch(RANDOM_URL).Failure? ==> r == Failure(fetch(RANDOM_URL).error)
    ensures fetch(RANDOM_URL).Success? && FeaturedTitle(fetch(RANDOM_URL).value).None? ==>
      r == Failure(NullPointer)
    ensures fetch(RANDOM_URL).Success? && FeaturedTitle(fetch(RANDOM_URL).value).Some? ==>
      IsArticleUrl(url, FeaturedTitle(fetch(RANDOM_URL).value).value) && r == ArticleFromResponse(fetch(url))
  {
    url := RANDOM_URL;
    var response := fetch(RANDOM_URL);
    if response.Failure? {
      return Failure(response.error), url;
    }
    var title := FeaturedTitle(response.value);
    if title.None? {
      return Failure(NullPointer), url;
    }
    r, url := GetArticle(title.value, fetch);
  }

  /** The fixed parts of the search request hold no '&'. */
  lemma FixedParamsPlain()
    ensures '&' !in FORMAT_PARAM && '&' !in LIMIT_KEY
  {
    assert forall i :: 0 <= i < |FORMAT_PARAM| ==> FORMAT_PARAM[i] != '&';
    assert forall i :: 0 <= i < |LIMIT_KEY| ==> LIMIT_KEY[i] != '&';
  }

  /** The search URL splits after the fixed prefix into three '&'-separated pieces: the
      encoded query, the format parameter and the limit parameter, so the query reads back
      from the URL, and the limit appears as its decimal text. */
  lemma SearchUrlCarriesQuery(query: string, limit: int)
    ensures SEARCH_PREFIX <= SearchUrl(query, limit)
    ensures Pieces(SearchUrl(query, limit)[|SEARCH_PREFIX|..], '&') ==
      [FormEncode(query), FORMAT_PARAM, LIMIT_KEY + IntToString(limit)]
    ensures FormDecode(Pieces(SearchUrl(query, limit)[|SEARCH_PREFIX|..], '&')[0]) == Some(query)
  {
    var e := FormEncode(query);
    var n := IntToString(limit);
    AfterPrefix(SEARCH_PREFIX, e, SEARCH_SUFFIX, n);
    EncodedHasNoDelimiter(query);
    IntTextEncodesAsItself(limit);
    EncodedHasNoDelimiter(n);
    FixedParamsPlain();
    PiecesOfThree(e, FORMAT_PARAM, LIMIT_KEY, n, '&');
    FormDecodeEncode(query);
  }

  /** A search result's link is the page prefix followed by text that decodes to the title. */
  lemma SearchResultLinksTitle(hit: Json)
    ensures PAGE_URL <= ToSearchResult(hit).url
    ensures FormDecode(ToSearchResult(hit).url[|PAGE_URL|..]) == Some(ToSearchResult(hit).title)
  {
    var r := ToSearchResult(hit);
    assert r.url[|PAGE_URL|..] == FormEncode(r.title);
    FormDecodeEncode(r.title);
  }

  /** A hit without a title still yields a result, with an empty title and the bare prefix. */
  lemma UntitledHit(hit: Json)
    requires !Has(hit, "title")
    ensures ToSearchResult(hit).title == [] && ToSearchResult(hit).url == PAGE_URL
  {
  }

  /** A query string built from a map in any iteration order reads back as the map's
      entries: each entry read is an entry of the map, every entry of the map is read,
      and no key is read twice. */
  lemma QueryCarriesParams(order: seq<string>, params: map<string, string>)
    requires IsOrdering(order, params.Keys) && |order| >= 1
    ensures forall e :: e in DecodeQuery(QueryString(EntriesIn(order, params))) ==>
      e.Some? && e.value.0 in params && e.value.1 == params[e.value.0]
    ensures forall k :: k in params ==> Some((k, params[k])) in DecodeQuery(QueryString(EntriesIn(order, params)))
    ensures var d := DecodeQuery(QueryString(EntriesIn(order, params)));
      forall i, j :: 0 <= i < j < |d| ==> d[i].Some? && d[j].Some? && d[i].value.0 != d[j].value.0
  {
    var ps := EntriesIn(order, params);
    DecodeQueryString(ps);
    var d := DecodeQuery(QueryString(ps));
    assert |d| == |order|;
    assert forall i :: 0 <= i < |d| ==> d[i] == Some((order[i], params[order[i]]));
    forall k | k in params
      ensures Some((k, params[k])) in d
    {
      var i :| 0 <= i < |order| && order[i] == k;
      assert d[i] == Some((k, params[k]));
    }
  }

  /** A URL getArticle() sends reads back as its nine parameters, each once, with the
      title under "titles", whatever order the map yields them in. */
  lemma ArticleUrlCarriesParams(url: string, title: string)
    requires IsArticleUrl(url, title)
    ensures API_URL + "?" <= url
    ensures forall e :: e in DecodeQuery(url[|API_URL| + 1..]) ==>
      e.Some? && e.value.0 in ArticleParams(title) && e.value.1 == ArticleParams(title)[e.value.0]
    ensures forall k :: k in ArticleParams(title) ==>
      Some((k, ArticleParams(title)[k])) in DecodeQuery(url[|API_URL| + 1..])
    ensures Some(("titles", title)) in DecodeQuery(url[|API_URL| + 1..])
  {
    var params := ArticleParams(title);
    var order :| IsOrdering(order, params.Keys) &&
      url == API_URL + "?" + QueryString(EntriesIn(order, params));
    TitleParam(title);
    assert "titles" in order;
    AfterPrefix(API_URL, "?", QueryString(EntriesIn(order, params)), "");
    assert url == API_URL + "?" + QueryString(EntriesIn(order, params)) + "";
    QueryCarriesParams(order, params);
  }

  /** Every article read from a page has content to show. */
  lemma ArticleHasContent(response: Result<Json>)
    requires ArticleFromResponse(response).Success?
    ensures ArticleFromResponse(response).value.content.Some?
    ensures |ArticleFromResponse(response).value.content.value| > 0
  {
  }

  /** The content is the extract whenever the page has a non-empty one. */
  lemma ContentIsExtract(page: Json, extract: string)
    requires Path(page, "extract") == JString(extract) && extract != []
    ensures PageToArticle(page).content == Some(extract)
  {
  }

  /** A page without a usable extract gets the placeholder content. */
  lemma ContentPlaceholder(page: Json)
    requires Path(page, "extract").JNull? || Path(page, "extract").JMissing? || Path(page, "extract") == JString([])
    ensures PageToArticle(page).content == Some(MISSING_CONTENT)
  {
  }
}
