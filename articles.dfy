/** The records the application passes around: a saved or fetched Article and
    a WikiSearchResult. Both are Lombok @Data beans: every field may be null
    (None), a setter is a field update `a.(title := t)`, and equality is
    structural over all fields, which is what datatype equality is. */
module Articles {
  import opened JavaLang

  /** A java.time.LocalDateTime, as an opaque instant. */
  datatype DateTime = DateTime(instant: int)

  /** The eight columns of saved_articles, in the order the entity declares them. */
  datatype Article = Article(
    id: Option<string>,
    userId: Option<string>,
    title: Option<string>,
    content: Option<string>,
    imageUrl: Option<string>,
    dateDownloaded: Option<DateTime>,
    pageId: Option<string>,
    wikiUrl: Option<string>)

  /** What `new Article()` (the no-args constructor) yields: every field null. */
  const NEW_ARTICLE: Article := Article(None, None, None, None, None, None, None, None)

  /** One search hit: title, snippet, page id and article URL. */
  datatype WikiSearchResult = WikiSearchResult(title: string, excerpt: string, pageId: string, url: string)
}
