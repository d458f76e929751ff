/** The before-handler that guards the API: public paths pass untouched, a request
    without a usable X-User-ID header is answered 401, and any other request carries
    the header's value on as its user id. */
module AuthMiddleware {
  import opened JavaLang
  import opened JavaStrings

  const UNAUTHORIZED_MESSAGE: string := "Unauthorized: Missing or invalid user ID"
  const AUTH_REQUIRED: string := "AUTH_REQUIRED"

  /** What handle() does with a request. */
  datatype Outcome =
    | Skipped
    | Rejected(status: int, error: string, code: string)
    | Authorized(userId: string)

  /** The endpoints that need no user id; all but one are matched as plain text prefixes. */
  predicate IsPublicPath(path: string) {
    || StartsWith(path, "/api/test")
    || StartsWith(path, "/api/auth")
    || path == "/api/wikipedia/featured"
    || StartsWith(path, "/api/wikipedia/article/")
    || StartsWith(path, "/api/wikipedia/search")
  }

  /** handle(ctx) on a request with this path and X-User-ID header (null when absent). */
  function Handle(path: string, header: Option<string>): (o: Outcome)
    ensures o.Skipped? <==> IsPublicPath(path)
    ensures o.Rejected? <==> !IsPublicPath(path) && IsBlank(header)
    ensures o.Rejected? ==> o == Rejected(401, UNAUTHORIZED_MESSAGE, AUTH_REQUIRED)
    ensures o.Authorized? ==> header == Some(o.userId) && !IsBlank(header)
  {
    if IsPublicPath(path) then Skipped
    else if header.None? || Trim(header.value) == [] then Rejected(401, UNAUTHORIZED_MESSAGE, AUTH_REQUIRED)
    else Authorized(header.value)
  }

  /** A header of nothing but spaces and control characters is as good as none. */
  lemma WhitespaceHeaderRejected(path: string, header: string)
    requires !IsPublicPath(path) && AllSpace(header)
    ensures Handle(path, Some(header)) == Rejected(401, UNAUTHORIZED_MESSAGE, AUTH_REQUIRED)
  {
    TrimEmptyIff(header);
  }

  /** Any other header is accepted and passed on verbatim: it is neither trimmed nor
      checked to be a number. */
  lemma HeaderPassedVerbatim(path: string, header: string)
    requires !IsPublicPath(path) && !AllSpace(header)
    ensures Handle(path, Some(header)) == Authorized(header)
  {
    TrimEmptyIff(header);
  }

  /** The featured endpoint is public only as the exact path: anything below it is guarded. */
  lemma FeaturedSubpathGuarded(suffix: string)
    requires suffix != []
    ensures !IsPublicPath("/api/wikipedia/featured" + suffix)
  {
    var p := "/api/wikipedia/featured" + suffix;
    assert p[5] == 'w' && p[15] == 'f';
    assert |p| > |"/api/wikipedia/featured"|;
    assert !("/api/test" <= p) && !("/api/auth" <= p);
    assert !("/api/wikipedia/article/" <= p) && !("/api/wikipedia/search" <= p);
  }

  /** Paths under /api/articles, where the saved articles live, are never public. */
  lemma ArticlesGuarded(suffix: string)
    ensures !IsPublicPath("/api/articles" + suffix)
  {
    var p := "/api/articles" + suffix;
    assert p[5] == 'a';
    assert p[6] == 'r';
  }

  /** The prefixes are not path segments: whatever follows "/api/test" or "/api/auth",
      "/api/testimonials" and "/api/authors/1" included, the path is public. */
  lemma PrefixIsNotSegment(suffix: string)
    ensures IsPublicPath("/api/test" + suffix)
    ensures IsPublicPath("/api/auth" + suffix)
  {
    assert "/api/test" <= "/api/test" + suffix;
    assert "/api/auth" <= "/api/auth" + suffix;
  }
}
