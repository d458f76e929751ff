/** The HTTP handlers of the article API. Each handler reads its inputs from the request,
    calls the Wikipedia client or the article table, and answers with a status and a JSON
    body; every exception a handler's body throws becomes a 500 whose message starts with
    the handler's own prefix. The user id comes from the session cookie, read without
    checking its signature, and falls back to "4" whenever the cookie is unusable. */
module WikiApi {
  import opened JavaLang
  import opened JavaStrings
  import opened Base64Url
  import opened Json
  import opened Articles
  import opened ArticleStore
  import opened WikiService

  /** The user every request without a usable session cookie acts as. */
  const DEFAULT_USER_ID: string := "4"

  const QUERY_REQUIRED: string := "Query parameter is required"
  const ARTICLE_NOT_FOUND: string := "Article not found"
  const NOT_FOUND_OR_NOT_OWNED: string := "Article not found or not owned by user"

  const SEARCH_FAILED: string := "Search failed: "
  const GET_ARTICLE_FAILED: string := "Failed to get article: "
  const SAVE_FAILED: string := "Failed to save article: "
  const USER_ARTICLES_FAILED: string := "Failed to get user articles: "
  const FEATURED_FAILED: string := "Failed to get featured article: "
  const DELETE_FAILED: string := "Failed to delete article: "
  const UPDATE_FAILED: string := "Failed to update article: "

  /** The search limit when the request gives none. */
  const DEFAULT_LIMIT: int := 10

  /** The JSON a handler answers with. Failed is the `{"error": prefix + message}` of a 500,
      with the exception in place of its message text. */
  datatype Body =
    | NoBody
    | ErrorMessage(message: string)
    | Failed(prefix: string, cause: Exception)
    | SearchResults(results: seq<WikiSearchResult>)
    | ArticleBody(article: Article)
    | ArticleList(articles: seq<Article>)

  datatype Response = Response(status: int, body: Body)

  /** extractUserId: the session cookie is split at '.', its first piece is decoded as
      unpadded-or-padded URL-safe Base 64 and read as JSON, and its user_id member is taken
      as text. A missing cookie, fewer than two pieces, a decoding or parsing failure, or a
      payload without user_id all give DEFAULT_USER_ID. The remaining pieces, the signature
      among them, are never looked at. `readPayload` stands for UTF-8 decoding followed by
      Jackson's readTree, None when that throws. */
  function ExtractUserId(cookie: Option<string>, readPayload: seq<Byte> -> Option<Json>): (uid: string)
    ensures uid != DEFAULT_USER_ID ==> cookie.Some? && |Split(cookie.value, '.')| >= 2
    ensures uid == DEFAULT_USER_ID || UserIdOfPayload(Split(cookie.value, '.')[0], readPayload) == Some(uid)
  {
    if cookie.None? then DEFAULT_USER_ID
    else
      var parts := Split(cookie.value, '.');
      if |parts| < 2 then DEFAULT_USER_ID
      else match Decode(parts[0])
        case None => DEFAULT_USER_ID
        case Some(bytes) =>
          match readPayload(bytes)
          case None => DEFAULT_USER_ID
          case Some(node) =>
            if Has(node, "user_id") then AsText(Get(node, "user_id").value) else DEFAULT_USER_ID
  }

  /** The text of user_id in the JSON a cookie's first piece decodes to, or None when the
      piece does not decode, the payload cannot be read, or it has no user_id. */
  function UserIdOfPayload(piece: string, readPayload: seq<Byte> -> Option<Json>): Option<string> {
    match Decode(piece)
    case None => None
    case Some(bytes) =>
      match readPayload(bytes)
      case None => None
      case Some(node) => if Has(node, "user_id") then Some(AsText(Get(node, "user_id").value)) else None
  }

  /** The value of the camelCase member if present, else of the snake_case one, else null. */
  function ResolveAlias(node: Json, camel: string, snake: string): (r: Option<string>)
    ensures Has(node, camel) ==> r == Some(AsText(Get(node, camel).value))
    ensures !Has(node, camel) && Has(node, snake) ==> r == Some(AsText(Get(node, snake).value))
    ensures r.None? <==> !Has(node, camel) && !Has(node, snake)
  {
    if Has(node, camel) then Some(AsText(Get(node, camel).value))
    else if Has(node, snake) then Some(AsText(Get(node, snake).value))
    else None
  }

  /** The Article saveArticle builds from the request body: title and content are required
      (reading an absent one throws NullPointerException), the three optional fields accept
      either spelling, and the user id and download time are filled in. */
  function ArticleFromBody(node: Json, userId: string, now: DateTime): (r: Result<Article>)
    ensures r.Failure? <==> !Has(node, "title") || !Has(node, "content")
    ensures r.Failure? ==> r.error == NullPointer
    ensures r.Success? ==>
      && r.value.id.None?
      && r.value.title == Some(AsText(Get(node, "title").value))
      && r.value.content == Some(AsText(Get(node, "content").value))
      && r.value.imageUrl == ResolveAlias(node, "imageUrl", "image_url")
      && r.value.pageId == ResolveAlias(node, "pageId", "page_id")
      && r.value.wikiUrl == ResolveAlias(node, "wikiUrl", "wiki_url")
      && r.value.userId == Some(userId)
      && r.value.dateDownloaded == Some(now)
  {
    match (Get(node, "title"), Get(node, "content"))
    case (Some(title), Some(content)) =>
      Success(NEW_ARTICLE.(title := Some(AsText(title)), content := Some(AsText(content)),
                           imageUrl := ResolveAlias(node, "imageUrl", "image_url"),
                           pageId := ResolveAlias(node, "pageId", "page_id"),
                           wikiUrl := ResolveAlias(node, "wikiUrl", "wiki_url"),
                           userId := Some(userId), dateDownloaded := Some(now)))
    case _ => Failure(NullPointer)
  }

  /** A protocol-relative image URL ("//host/...") gets the https scheme; anything else,
      null included, is left as it is. */
  function NormalizeImageUrl(url: Option<string>): (r: Option<string>)
    ensures url.None? ==> r.None?
    ensures url.Some? && StartsWith(url.value, "//") ==> r == Some("https:" + url.value)
    ensures url.Some? && !StartsWith(url.value, "//") ==> r == url
  {
    if url.Some? && StartsWith(url.value, "//") then Some("https:" + url.value) else url
  }

  /** `queryParamAsClass("limit", Integer.class).getOrDefault(10)`: the default when the
      parameter is absent, its integer value when it converts, and a failure otherwise. */
  function SearchLimit(limit: Option<string>): (r: Result<int>)
    ensures limit.None? ==> r == Success(DEFAULT_LIMIT)
    ensures limit.Some? ==> (r.Success? <==> ParseInt(limit).Some?)
    ensures r.Success? && limit.Some? ==> Some(r.value) == ParseInt(limit)
    ensures r.Failure? ==> r.error == Validation("limit")
  {
    if limit.None? then Success(DEFAULT_LIMIT)
    else match ParseInt(limit)
      case Some(n) => Success(n)
      case None => Failure(Validation("limit"))
  }

  /** The controller, holding the article table and the two external collaborators. */
  class WikiController {
    const dao: ArticleDAO
    /** UTF-8 decoding of the session payload followed by readTree. */
    const readPayload: seq<Byte> -> Option<Json>
    /** The HTTP client of the Wikipedia API together with readTree of the response body. */
    const fetch: string -> Result<Json>

    ghost predicate Valid()
      reads this, dao
    {
      dao.Valid()
    }

    constructor (readPayload: seq<Byte> -> Option<Json>, fetch: string -> Result<Json>)
      ensures Valid() && fresh(dao)
      ensures dao.rows == map[] && this.readPayload == readPayload && this.fetch == fetch
    {
      dao := new ArticleDAO();
      this.readPayload := readPayload;
      this.fetch := fetch;
    }

    /** GET /api/wikipedia/search. The limit is converted before the query is checked, so a
        malformed limit is a 500 even when the query is missing. A missing or blank query is
        a 400; otherwise the search results, or a 500 when the request to Wikipedia fails. */
    method Search(query: Option<string>, limit: Option<string>) returns (resp: Response)
      ensures SearchLimit(limit).Failure? ==>
        resp == Response(500, Failed(SEARCH_FAILED, SearchLimit(limit).error))
      ensures SearchLimit(limit).Success? && IsBlank(query) ==>
        resp == Response(400, ErrorMessage(QUERY_REQUIRED))
      ensures SearchLimit(limit).Success? && !IsBlank(query) ==>
        var response := fetch(SearchUrl(query.value, SearchLimit(limit).value));
        && (response.Failure? ==> resp == Response(500, Failed(SEARCH_FAILED, response.error)))
        && (response.Success? ==>
              && resp.status == 200 && resp.body.SearchResults?
              && |resp.body.results| == |SearchHits(response.value)|
              && forall i :: 0 <= i < |resp.body.results| ==>
                   resp.body.results[i] == ToSearchResult(SearchHits(response.value)[i]))
    {
      var n := SearchLimit(limit);
      if n.Failure? {
        return Response(500, Failed(SEARCH_FAILED, n.error));
      }
      if query.None? || Trim(query.value) == [] {
        return Response(400, ErrorMessage(QUERY_REQUIRED));
      }
      var results := WikiService.Search(query.value, n.value, fetch);
      match results
      case Failure(e) => resp := Response(500, Failed(SEARCH_FAILED, e));
      case Success(rs) => resp := Response(200, SearchResults(rs));
    }

    /** GET /api/wikipedia/article/{title}: the article read from Wikipedia, or a 500. */
    method GetArticle(title: string) returns (resp: Response, ghost url: string)
      ensures IsArticleUrl(url, title)
      ensures ArticleFromResponse(fetch(url)).Failure? ==>
        resp == Response(500, Failed(GET_ARTICLE_FAILED, ArticleFromResponse(fetch(url)).error))
      ensures ArticleFromResponse(fetch(url)).Success? ==>
        resp == Response(200, ArticleBody(ArticleFromResponse(fetch(url)).value))
    {
      var article;
      article, url := WikiService.GetArticle(title, fetch);
      match article
      case Failure(e) => resp := Response(500, Failed(GET_ARTICLE_FAILED, e));
      case Success(a) => resp := Response(200, ArticleBody(a));
    }

    /** POST /api/articles. `body` is the parsed request body, None when it is not JSON. The
        article is built from the body, owned by the session's user, stamped with `now`, and
        inserted; the answer is the saved article with its new id, or a 500 when the body
        lacks a title or content or the user id is not a number, with the table untouched. */
    method SaveArticle(body: Option<Json>, cookie: Option<string>, now: DateTime) returns (resp: Response)
      requires Valid()
      modifies dao
      ensures Valid()
      ensures body.None? ==>
        resp == Response(500, Failed(SAVE_FAILED, MalformedBody)) &&
        dao.rows == old(dao.rows) && dao.nextId == old(dao.nextId)
      ensures body.Some? && ArticleFromBody(body.value, ExtractUserId(cookie, readPayload), now).Failure? ==>
        resp == Response(500, Failed(SAVE_FAILED, NullPointer)) &&
        dao.rows == old(dao.rows) && dao.nextId == old(dao.nextId)
      ensures body.Some? && ArticleFromBody(body.value, ExtractUserId(cookie, readPayload), now).Success? ==>
        var uid := ExtractUserId(cookie, readPayload);
        var a := ArticleFromBody(body.value, uid, now).value;
        && (ParseInt(Some(uid)).None? ==>
              resp == Response(500, Failed(SAVE_FAILED, NumberFormat(Some(uid)))) &&
              dao.rows == old(dao.rows) && dao.nextId == old(dao.nextId))
        && (ParseInt(Some(uid)).Some? ==>
              && dao.rows == old(dao.rows)[old(dao.nextId) := InsertedRow(a, ParseInt(Some(uid)).value, now)]
              && dao.nextId == old(dao.nextId) + 1
              && resp == Response(200, ArticleBody(a.(id := Some(IntToString(old(dao.nextId)))))))
    {
      if body.None? {
        return Response(500, Failed(SAVE_FAILED, MalformedBody));
      }
      var uid := ExtractUserId(cookie, readPayload);
      var article := ArticleFromBody(body.value, uid, now);
      if article.Failure? {
        return Response(500, Failed(SAVE_FAILED, article.error));
      }
      var saved := dao.Save(article.value);
      match saved
      case Failure(e) => resp := Response(500, Failed(SAVE_FAILED, e));
      case Success(a) => resp := Response(200, ArticleBody(a));
    }

    /** GET /api/articles: every article of the session's user, or a 500 when the user id
        is not a number. */
    method GetUserArticles(cookie: Option<string>) returns (resp: Response)
      requires Valid()
      ensures var uid := ParseInt(Some(ExtractUserId(cookie, readPayload)));
        && (uid.None? ==>
              resp == Response(500, Failed(USER_ARTICLES_FAILED, NumberFormat(Some(ExtractUserId(cookie, readPayload))))))
        && (uid.Some? ==>
              && resp.status == 200 && resp.body.ArticleList?
              && (set a | a in resp.body.articles) == OwnedArticles(dao.rows, uid.value)
              && forall i, j :: 0 <= i < j < |resp.body.articles| ==>
                   resp.body.articles[i].id != resp.body.articles[j].id)
    {
      var uid := ExtractUserId(cookie, readPayload);
      var articles := dao.FindByUserId(Some(uid));
      match articles
      case Failure(e) => resp := Response(500, Failed(USER_ARTICLES_FAILED, e));
      case Success(list) => resp := Response(200, ArticleList(list));
    }

    /** GET /api/wikipedia/featured: a random page's article with its image URL made absolute. */
    method GetFeaturedArticle() returns (resp: Response, ghost url: string)
      ensures fetch(RANDOM_URL).Failure? ==>
        resp == Response(500, Failed(FEATURED_FAILED, fetch(RANDOM_URL).error))
      ensures fetch(RANDOM_URL).Success? && FeaturedTitle(fetch(RANDOM_URL).value).None? ==>
        resp == Response(500, Failed(FEATURED_FAILED, NullPointer))
      ensures fetch(RANDOM_URL).Success? && FeaturedTitle(fetch(RANDOM_URL).value).Some? ==>
        && IsArticleUrl(url, FeaturedTitle(fetch(RANDOM_URL).value).value)
        && (ArticleFromResponse(fetch(url)).Failure? ==>
              resp == Response(500, Failed(FEATURED_FAILED, ArticleFromResponse(fetch(url)).error)))
        && (ArticleFromResponse(fetch(url)).Success? ==>
              var a := ArticleFromResponse(fetch(url)).value;
              resp == Response(200, ArticleBody(a.(imageUrl := NormalizeImageUrl(a.imageUrl)))))
    {
      var article;
      article, url := WikiService.GetFeaturedArticle(fetch);
      match article
      case Failure(e) => resp := Response(500, Failed(FEATURED_FAILED, e));
      case Success(a) => resp := Response(200, ArticleBody(a.(imageUrl := NormalizeImageUrl(a.imageUrl))));
    }

    /** DELETE /api/articles/{id}: 204 when the session's user owned the article and it is
        gone, 404 when no such article of theirs exists, 500 when either id is not a number. */
    method DeleteArticle(articleId: string, cookie: Option<string>) returns (resp: Response)
      requires Valid()
      modifies dao
      ensures Valid() && dao.nextId == old(dao.nextId)
      ensures var uid := ExtractUserId(cookie, readPayload);
        && (ParseInt(Some(articleId)).None? ==>
              resp == Response(500, Failed(DELETE_FAILED, NumberFormat(Some(articleId)))) && dao.rows == old(dao.rows))
        && (ParseInt(Some(articleId)).Some? && ParseInt(Some(uid)).None? ==>
              resp == Response(500, Failed(DELETE_FAILED, NumberFormat(Some(uid)))) && dao.rows == old(dao.rows))
        && (ParseInt(Some(articleId)).Some? && ParseInt(Some(uid)).Some? ==>
              var id, owner := ParseInt(Some(articleId)).value, ParseInt(Some(uid)).value;
              && dao.rows == DeleteOwned(old(dao.rows), id, owner)
              && (Owns(old(dao.rows), id, owner) ==> resp == Response(204, NoBody))
              && (!Owns(old(dao.rows), id, owner) ==> resp == Response(404, ErrorMessage(ARTICLE_NOT_FOUND))))
    {
      var uid := ExtractUserId(cookie, readPayload);
      var deleted := dao.DeleteArticle(Some(articleId), Some(uid));
      match deleted
      case Failure(e) => resp := Response(500, Failed(DELETE_FAILED, e));
      case Success(true) => resp := Response(204, NoBody);
      case Success(false) => resp := Response(404, ErrorMessage(ARTICLE_NOT_FOUND));
    }

    /** The article updateArticle sends to the table: the body with its id and user id
        replaced by the path's id and the session's user. */
    static function UpdateRequest(body: Article, articleId: string, userId: string): (a: Article)
      ensures a.id == Some(articleId) && a.userId == Some(userId)
      ensures a.(id := body.id, userId := body.userId) == body
    {
      body.(id := Some(articleId), userId := Some(userId))
    }

    /** PUT /api/articles/{id}. `body` is the request body bound to an Article, None when it
        cannot be. Whatever id and user id the body carries, the row updated is the one with
        the path's id owned by the session's user; the answer is the article as sent to the
        table, a 404 when there is no such row, or a 500. */
    method UpdateArticle(articleId: string, body: Option<Article>, cookie: Option<string>) returns (resp: Response)
      requires Valid()
      modifies dao
      ensures Valid() && dao.nextId == old(dao.nextId)
      ensures body.None? ==>
        resp == Response(500, Failed(UPDATE_FAILED, MalformedBody)) && dao.rows == old(dao.rows)
      ensures body.Some? ==>
        var uid := ExtractUserId(cookie, readPayload);
        var a := UpdateRequest(body.value, articleId, uid);
        && (ParseInt(Some(articleId)).None? ==>
              resp == Response(500, Failed(UPDATE_FAILED, NumberFormat(Some(articleId)))) && dao.rows == old(dao.rows))
        && (ParseInt(Some(articleId)).Some? && ParseInt(Some(uid)).None? ==>
              resp == Response(500, Failed(UPDATE_FAILED, NumberFormat(Some(uid)))) && dao.rows == old(dao.rows))
        && (ParseInt(Some(articleId)).Some? && ParseInt(Some(uid)).Some? ==>
              var id, owner := ParseInt(Some(articleId)).value, ParseInt(Some(uid)).value;
              && dao.rows == UpdateOwned(old(dao.rows), id, owner, a)
              && (Owns(old(dao.rows), id, owner) ==> resp == Response(200, ArticleBody(a)))
              && (!Owns(old(dao.rows), id, owner) ==> resp == Response(404, ErrorMessage(NOT_FOUND_OR_NOT_OWNED))))
    {
      if body.None? {
        return Response(500, Failed(UPDATE_FAILED, MalformedBody));
      }
      var uid := ExtractUserId(cookie, readPayload);
      var article := UpdateRequest(body.value, articleId, uid);
      var updated := dao.UpdateArticle(article);
      match updated
      case Failure(e) => resp := Response(500, Failed(UPDATE_FAILED, e));
      case Success(true) => resp := Response(200, ArticleBody(article));
      case Success(false) => resp := Response(404, ErrorMessage(NOT_FOUND_OR_NOT_OWNED));
    }
  }

  /** Without a session cookie every request acts as the default user. */
  lemma NoCookieIsDefaultUser(readPayload: seq<Byte> -> Option<Json>)
    ensures ExtractUserId(None, readPayload) == DEFAULT_USER_ID
  {
  }

  /** A cookie without a second non-empty piece (no '.', or only dots after the payload)
      acts as the default user. */
  lemma CookieWithoutSignatureIsDefault(payload: string, dots: string, readPayload: seq<Byte> -> Option<Json>)
    requires '.' !in payload
    requires forall i :: 0 <= i < |dots| ==> dots[i] == '.'
    ensures ExtractUserId(Some(payload), readPayload) == DEFAULT_USER_ID
    ensures ExtractUserId(Some(payload + ['.'] + dots), readPayload) == DEFAULT_USER_ID
  {
    SplitAtFirstSeparator(payload, dots, '.');
  }

  /** With a signature present, the user is the payload's user_id text, and "4" whenever the
      payload does not decode, cannot be read or has no user_id. */
  lemma PayloadDecidesUser(payload: string, sig: string, readPayload: seq<Byte> -> Option<Json>)
    requires '.' !in payload
    requires exists i :: 0 <= i < |sig| && sig[i] != '.'
    ensures UserIdOfPayload(payload, readPayload).None? ==>
      ExtractUserId(Some(payload + ['.'] + sig), readPayload) == DEFAULT_USER_ID
    ensures UserIdOfPayload(payload, readPayload).Some? ==>
      ExtractUserId(Some(payload + ['.'] + sig), readPayload) == UserIdOfPayload(payload, readPayload).value
  {
    SplitAtFirstSeparator(payload, sig, '.');
  }

  /** A first piece the URL-safe decoder rejects acts as the default user. */
  lemma UndecodablePayloadIsDefault(payload: string, sig: string, readPayload: seq<Byte> -> Option<Json>)
    requires '.' !in payload && Decode(payload).None?
    requires exists i :: 0 <= i < |sig| && sig[i] != '.'
    ensures ExtractUserId(Some(payload + ['.'] + sig), readPayload) == DEFAULT_USER_ID
  {
    PayloadDecidesUser(payload, sig, readPayload);
  }

  /** A payload that decodes but cannot be read as JSON acts as the default user. */
  lemma UnreadablePayloadIsDefault(payload: string, sig: string, readPayload: seq<Byte> -> Option<Json>)
    requires '.' !in payload && Decode(payload).Some? && readPayload(Decode(payload).value).None?
    requires exists i :: 0 <= i < |sig| && sig[i] != '.'
    ensures ExtractUserId(Some(payload + ['.'] + sig), readPayload) == DEFAULT_USER_ID
  {
    PayloadDecidesUser(payload, sig, readPayload);
  }

  /** A payload without a user_id member acts as the default user. */
  lemma PayloadWithoutUserIdIsDefault(payload: string, sig: string, node: Json,
                                      readPayload: seq<Byte> -> Option<Json>)
    requires '.' !in payload && Decode(payload).Some? && readPayload(Decode(payload).value) == Some(node)
    requires !Has(node, "user_id")
    requires exists i :: 0 <= i < |sig| && sig[i] != '.'
    ensures ExtractUserId(Some(payload + ['.'] + sig), readPayload) == DEFAULT_USER_ID
  {
    PayloadDecidesUser(payload, sig, readPayload);
  }

  /** The URL-safe decoder rejects a character of the standard alphabet ('+' or '/'). */
  lemma StandardAlphabetRejected()
    ensures Decode("ab+c").None?
  {
    var s := "ab+c";
    assert s[1..][1..] == s[2..] && !IsAlphabet(s[2]);
    assert AlphabetPrefix(s) == 2;
  }

  /** The URL-safe decoder rejects a final unit of one character. */
  lemma OneCharacterUnitRejected()
    ensures Decode("abcde").None?
  {
    var s := "abcde";
    assert s[1..][1..] == s[2..] && s[2..][1..] == s[3..] && s[3..][1..] == s[4..] && s[4..][1..] == [];
    assert AlphabetPrefix(s) == 5;
  }

  /** The URL-safe decoder rejects padding that does not complete the final unit. */
  lemma IncompletePaddingRejected()
    ensures Decode("ab=").None?
  {
    var s := "ab=";
    assert s[1..][1..] == s[2..] && !IsAlphabet(s[2]);
    assert AlphabetPrefix(s) == 2;
  }

  /** The signature is never checked: two cookies with the same payload piece give the
      same user whatever follows the first '.', as long as something other than dots does. */
  lemma SignatureIgnored(payload: string, sig1: string, sig2: string, readPayload: seq<Byte> -> Option<Json>)
    requires '.' !in payload
    requires exists i :: 0 <= i < |sig1| && sig1[i] != '.'
    requires exists i :: 0 <= i < |sig2| && sig2[i] != '.'
    ensures ExtractUserId(Some(payload + ['.'] + sig1), readPayload) ==
            ExtractUserId(Some(payload + ['.'] + sig2), readPayload)
  {
    SplitAtFirstSeparator(payload, sig1, '.');
    SplitAtFirstSeparator(payload, sig2, '.');
  }

  /** A cookie made of an encoded payload, a '.', and any signature yields the payload's
      user_id as text, so anyone who can write a cookie can act as any user. */
  lemma ForgedCookieChoosesUser(bytes: seq<Byte>, pad: bool, sig: string, node: Json,
                                readPayload: seq<Byte> -> Option<Json>)
    requires readPayload(bytes) == Some(node) && Has(node, "user_id")
    requires exists i :: 0 <= i < |sig| && sig[i] != '.'
    ensures ExtractUserId(Some(Encode(bytes, pad) + ['.'] + sig), readPayload) == AsText(Get(node, "user_id").value)
  {
    EncodeHasNoDot(bytes, pad);
    SplitAtFirstSeparator(Encode(bytes, pad), sig, '.');
    DecodeEncode(bytes, pad);
  }

  /** A user_id that is JSON null is read as the text "null", which no later step accepts
      as a number. */
  lemma NullUserIdIsText(bytes: seq<Byte>, pad: bool, sig: string, node: Json,
                         readPayload: seq<Byte> -> Option<Json>)
    requires readPayload(bytes) == Some(node) && Get(node, "user_id") == Some(JNull)
    requires exists i :: 0 <= i < |sig| && sig[i] != '.'
    ensures ExtractUserId(Some(Encode(bytes, pad) + ['.'] + sig), readPayload) == "null"
    ensures ParseInt(Some("null")).None?
  {
    ForgedCookieChoosesUser(bytes, pad, sig, node, readPayload);
  }

  /** The default user id is a number, so requests without a session still reach the table. */
  lemma DefaultUserIsNumber()
    ensures ParseInt(Some(DEFAULT_USER_ID)) == Some(4)
  {
    ParseIntToString(4);
    assert IntToString(4) == DEFAULT_USER_ID;
  }

  /** Normalising twice is normalising once. */
  lemma NormalizeIdempotent(url: Option<string>)
    ensures NormalizeImageUrl(NormalizeImageUrl(url)) == NormalizeImageUrl(url)
  {
    if url.Some? && StartsWith(url.value, "//") {
      var r := "https:" + url.value;
      assert r[0] == 'h';
    }
  }

  /** A normalised image URL never starts with "//". */
  lemma NormalizedIsNotProtocolRelative(url: Option<string>)
    ensures NormalizeImageUrl(url).Some? ==> !StartsWith(NormalizeImageUrl(url).value, "//")
  {
    if url.Some? && StartsWith(url.value, "//") {
      var r := "https:" + url.value;
      assert r[0] == 'h';
    }
  }

  /** The camelCase spelling wins when a body carries both. */
  lemma CamelCaseWins(node: Json, camel: string, snake: string)
    requires Has(node, camel) && Has(node, snake)
    ensures ResolveAlias(node, camel, snake) == Some(AsText(Get(node, camel).value))
  {
  }

  /** The id and user id a body carries make no difference to the update. */
  lemma UpdateIgnoresBodyIdentity(b1: Article, b2: Article, articleId: string, userId: string)
    requires b1.(id := None, userId := None) == b2.(id := None, userId := None)
    ensures WikiController.UpdateRequest(b1, articleId, userId) == WikiController.UpdateRequest(b2, articleId, userId)
  {
  }
}
