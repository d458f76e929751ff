# OpenWiki backend, modelled in Dafny

OpenWiki is a small Java backend that stands between a web front end and two
services: the Italian Wikipedia API and a SQL table of articles that users have
saved. This project models its core and proves properties of that model:

- **The article table** (`ArticleStore`). `ArticleDAO` is a class holding the
  `saved_articles` table as a map from generated id to row, plus the
  auto-increment counter. Each of its five statements is a method with exactly
  the scope of its SQL text. Reading a row back (`mapResultSetToArticle`) is a
  function.
- **The controller** (`WikiApi`). Each handler is a method of `WikiController`
  that answers with a status and a body. `extractUserId` is a total function:
  - split the `session` cookie at `.` the way `String.split` does;
  - decode its first piece as URL-safe Base 64;
  - read `user_id` from the JSON;
  - fall back to `"4"` on every failure.

  The other rules are functions too: the alias rules of `saveArticle`, the
  image-URL normalisation of `getFeaturedArticle`, the search-limit default, and
  the id override of `updateArticle`.
- **The Wikipedia client** (`WikiService`):
  - the search URL as it is concatenated;
  - the `StringBuilder` loop that joins the nine `getArticle` parameters, in
    whatever order the `HashMap` yields them;
  - the loop that maps search hits to `WikiSearchResult`s;
  - the reading of a page into an `Article`;
  - the delegation of `getFeaturedArticle` to `getArticle`.
- **The auth middleware** (`AuthMiddleware`): `handle` as a function from a
  path and an `X-User-ID` header to one of three outcomes.
- **The records** (`Articles`). `Article` and `WikiSearchResult` are
  datatypes. Java `null` is `None`, a Lombok setter is a field update and
  Lombok equality is datatype equality.

The library code the core relies on is modelled from its definitions:

- `Integer.parseInt` and `String.valueOf` (`JavaLang`);
- `trim`, `startsWith` and `split` with a one-character separator
  (`JavaStrings`);
- `Base64.getUrlDecoder()` and `getUrlEncoder()`, per section 5 of RFC 4648
  (`Base64Url`);
- `URLEncoder.encode(s, UTF_8)`, per section 17.13.4.1 of HTML 4.01, with a
  decoder that inverts it (`FormEncoding`);
- Jackson's `JsonNode` lookups (`Json`).

Four things become parameters:

- The HTTP exchange with Wikipedia, together with parsing the response, is `fetch`.
- UTF-8 decoding and parsing the session payload are `readPayload`.
- The request body, already parsed, is an `Option<Json>` or `Option<Article>`.
- The clock is `now`.

An exception is a `Failure` carrying an `Exception` value. A handler turns any
exception into a 500 whose body keeps that value next to the handler's message
prefix.

## Model

| member | source | states |
|---|---|---|
| JavaLang.ParseInt | src/main/java/com/openwiki/dao/ArticleDAO.java:23 | Integer.parseInt: a value only for an optional sign followed by ASCII digits whose value fits an int; null and anything else are NumberFormatException; inverted by ParseIntToString |
| JavaLang.IntToString | src/main/java/com/openwiki/dao/ArticleDAO.java:81-82 | String.valueOf of an int: '-' for negatives, then the digits without leading zeros; read back by IntValueOfIntToString and ParseIntToString |
| JavaLang.NatToString | src/main/java/com/openwiki/dao/ArticleDAO.java:81-82 | the decimal text of a natural number is non-empty and all digits |
| JavaLang.DigitsOfNatToString | src/main/java/com/openwiki/dao/ArticleDAO.java:81-82 | reading the digits of `String.valueOf(n)` gives back n |
| JavaLang.ParseIntToString | src/main/java/com/openwiki/dao/ArticleDAO.java:23 | `Integer.parseInt(String.valueOf(n)) == n` for every 32-bit n |
| JavaLang.IntToStringSign | src/main/java/com/openwiki/dao/ArticleDAO.java:81-82 | the text of n is non-empty and starts with '-' exactly when n is negative |
| JavaLang.IntValueOfIntToString | src/main/java/com/openwiki/dao/ArticleDAO.java:81-82 | the decimal text of any int reads back as that int |
| JavaLang.IntToStringInjective | src/main/java/com/openwiki/dao/ArticleDAO.java:81 | distinct ids are read back as distinct texts |
| JavaStrings.Trim | src/main/java/com/openwiki/middleware/AuthMiddleware.java:32 | String.trim: drops leading and trailing characters at most U+0020; characterised by TrimEmptyIff |
| JavaStrings.IsBlank | src/main/java/com/openwiki/controller/WikiController.java:32 | the `query == null \|\| query.trim().isEmpty()` test, shared with the middleware's header test |
| JavaStrings.Split | src/main/java/com/openwiki/controller/WikiController.java:172 | String.split with a one-character separator: cut at every separator, then drop trailing empty pieces; characterised by PiecesJoin, PiecesArePlain, DropTrailingEmpty and SplitAtFirstSeparator |
| JavaStrings.TrimStartEmpty | src/main/java/com/openwiki/controller/WikiController.java:32 | stripping leading whitespace leaves nothing exactly when the string is all whitespace |
| JavaStrings.TrimEndSpaceOnly | src/main/java/com/openwiki/controller/WikiController.java:32 | if stripping trailing whitespace leaves nothing, the string was all whitespace |
| JavaStrings.TrimStartKeepsSpace | src/main/java/com/openwiki/controller/WikiController.java:32 | if the string is all whitespace after its leading whitespace is stripped, it was all whitespace |
| JavaStrings.TrimEmptyIff | src/main/java/com/openwiki/middleware/AuthMiddleware.java:32 | `s.trim().isEmpty()` holds exactly when every character is whitespace (at most U+0020) |
| JavaStrings.IndexOf | src/main/java/com/openwiki/controller/WikiController.java:172 | the position found holds the separator and no earlier position does |
| JavaStrings.Pieces | src/main/java/com/openwiki/controller/WikiController.java:172 | cutting at every separator yields at least one piece |
| JavaStrings.DropTrailingEmpty | src/main/java/com/openwiki/controller/WikiController.java:172 | the result is a prefix of the pieces, ends in a non-empty piece (or is empty), and only empty pieces were dropped |
| JavaStrings.PiecesArePlain | src/main/java/com/openwiki/controller/WikiController.java:172 | no piece contains the separator |
| JavaStrings.PiecesJoin | src/main/java/com/openwiki/controller/WikiController.java:172 | joining the pieces with the separator gives back the string |
| JavaStrings.PiecesOfJoin | src/main/java/com/openwiki/service/WikiService.java:99-106 | splitting a join of separator-free strings gives back those strings |
| JavaStrings.JoinSnoc | src/main/java/com/openwiki/service/WikiService.java:100-105 | joining one more string appends the separator and that string |
| JavaStrings.PiecesOfSeparators | src/main/java/com/openwiki/controller/WikiController.java:172-173 | a run of separators cuts into empty pieces only |
| JavaStrings.PiecesNonEmpty | src/main/java/com/openwiki/controller/WikiController.java:172-173 | a string with a character other than the separator has a non-empty piece |
| JavaStrings.SplitAtFirstSeparator | src/main/java/com/openwiki/controller/WikiController.java:172-176 | splitting `p + "." + rest` with no '.' in p gives p as first piece; there are two or more pieces exactly when rest has a character other than '.' ("abc." and "abc..." give one) |
| Base64Url.Decode | src/main/java/com/openwiki/controller/WikiController.java:180 | getUrlDecoder().decode: the URL-safe alphabet, optional padding that must complete the unit exactly, no one-character final unit; inverts Encode (DecodeEncode) and rejects the cases of StandardAlphabetRejected, OneCharacterUnitRejected and IncompletePaddingRejected |
| Base64Url.CharOf | src/main/java/com/openwiki/controller/WikiController.java:180 | every sextet has an alphabet character that decodes back to it |
| Base64Url.AlphabetPrefix | src/main/java/com/openwiki/controller/WikiController.java:180 | the decoder's scan stops at the first character outside the alphabet |
| Base64Url.EncodeUnit | src/main/java/com/openwiki/controller/WikiController.java:180 | three bytes encode as four characters |
| Base64Url.EncodeBodyAlphabet | src/main/java/com/openwiki/controller/WikiController.java:180 | encoded text uses only the URL-safe alphabet |
| Base64Url.EncodeBodyLength | src/main/java/com/openwiki/controller/WikiController.java:180 | encoded length is 0, 2 or 3 modulo 4 depending on the bytes left over, never 1 |
| Base64Url.EncodeBodyShape | src/main/java/com/openwiki/controller/WikiController.java:180 | alphabet and length together: what an encoder writes is what the decoder accepts |
| Base64Url.DecodeUnitOfEncoded | src/main/java/com/openwiki/controller/WikiController.java:180 | a full unit of four characters decodes to the three bytes it encodes |
| Base64Url.DecodeBodyOfEncoded | src/main/java/com/openwiki/controller/WikiController.java:180 | decoding the unpadded body gives back the bytes |
| Base64Url.AlphabetPrefixOfPadded | src/main/java/com/openwiki/controller/WikiController.java:180 | the scan of encoded text followed by padding stops where the padding begins |
| Base64Url.DecodeEncode | src/main/java/com/openwiki/controller/WikiController.java:180 | `getUrlDecoder().decode` inverts the encoder with and without padding |
| Base64Url.EncodeHasNoDot | src/main/java/com/openwiki/controller/WikiController.java:172-180 | encoded text has no '.', so it survives the cookie split as one piece |
| FormEncoding.HexDigit | src/main/java/com/openwiki/service/WikiService.java:36 | the hexadecimal digits URLEncoder writes are unreserved characters |
| FormEncoding.Utf8 | src/main/java/com/openwiki/service/WikiService.java:36 | a character is one to four UTF-8 bytes |
| FormEncoding.PercentEncode | src/main/java/com/openwiki/service/WikiService.java:36 | each byte becomes three characters of the encoded alphabet |
| FormEncoding.EncodeChar | src/main/java/com/openwiki/service/WikiService.java:36 | URLEncoder's rule for one character: unreserved ones kept, space as '+', the rest as %XX of their UTF-8 bytes |
| FormEncoding.FormEncode | src/main/java/com/openwiki/service/WikiService.java:36 | URLEncoder.encode(s, UTF_8), character by character; inverted by FormDecode (FormDecodeEncode) |
| FormEncoding.FormEncodeAlphabet | src/main/java/com/openwiki/service/WikiService.java:36 | URLEncoder output holds only unreserved characters, '+' and '%' |
| FormEncoding.PercentBytes | src/main/java/com/openwiki/service/WikiService.java:36 | reading n "%XX" groups yields n bytes and needs at least 3n characters |
| FormEncoding.HexRoundTrip | src/main/java/com/openwiki/service/WikiService.java:36 | a written hexadecimal digit reads back as its value |
| FormEncoding.PercentBytesOfEncoded | src/main/java/com/openwiki/service/WikiService.java:36 | the "%XX" groups written for some bytes read back as those bytes |
| FormEncoding.Utf8RoundTrip | src/main/java/com/openwiki/service/WikiService.java:36 | a character's lead byte announces the length of its UTF-8 sequence and the sequence decodes to the character |
| FormEncoding.DecodeEncodedChar | src/main/java/com/openwiki/service/WikiService.java:36 | decoding the encoding of one character gives that character and continues with the rest |
| FormEncoding.FormDecodeEncode | src/main/java/com/openwiki/service/WikiService.java:36 | decoding inverts URLEncoder.encode on every string |
| FormEncoding.EncodedHasNoDelimiter | src/main/java/com/openwiki/service/WikiService.java:100-105 | encoded text never holds '&', '=' or '?', so a value can never end the builder in '?' |
| FormEncoding.PairShape | src/main/java/com/openwiki/service/WikiService.java:103-105 | a `key=value` pair has no '&' and does not end in '?' |
| FormEncoding.QueryStringPieces | src/main/java/com/openwiki/service/WikiService.java:99-106 | the '&'-separated pieces of the query string are its pairs, in order |
| FormEncoding.PairDecodes | src/main/java/com/openwiki/service/WikiService.java:103-105 | every pair has exactly one '=', and its halves decode to the key and the value |
| FormEncoding.FormEncodeUnreserved | src/main/java/com/openwiki/service/WikiService.java:36 | text of unreserved characters encodes as itself |
| FormEncoding.IntTextEncodesAsItself | src/main/java/com/openwiki/service/WikiService.java:38 | the decimal text of the limit needs no encoding |
| FormEncoding.DecodeQuery | src/main/java/com/openwiki/service/WikiService.java:99-106 | one entry is read back per '&'-separated piece |
| FormEncoding.DecodeQueryString | src/main/java/com/openwiki/service/WikiService.java:99-106 | a query string reads back as exactly the pairs it was built from, in order |
| Json.Get | src/main/java/com/openwiki/controller/WikiController.java:62-71 | JsonNode.get(name): the member's value, or null when the node is not an object or has no such member |
| Json.Has | src/main/java/com/openwiki/controller/WikiController.java:66-71 | JsonNode.has(name): get is non-null |
| Json.AsText | src/main/java/com/openwiki/controller/WikiController.java:186-187 | JsonNode.asText: a string's text, a number's or boolean's decimal or literal text, "null" for JSON null, "" for containers and missing nodes |
| Json.LookupFinds | src/main/java/com/openwiki/controller/WikiController.java:186-187 | the value found belongs to a member of that name; nothing is found exactly when no member has it |
| Json.Path | src/main/java/com/openwiki/service/WikiService.java:51 | `path` gives the member when present and a missing node otherwise |
| Json.AsTextOr | src/main/java/com/openwiki/service/WikiService.java:122 | `asText(null)` is null for JSON null and for a missing node, the text otherwise |
| Json.Elements | src/main/java/com/openwiki/service/WikiService.java:52 | iterating an array yields its items, an object its member values, anything else nothing |
| Json.GetIndex | src/main/java/com/openwiki/service/WikiService.java:81 | `get(0)` is non-null exactly on a non-empty array |
| AuthMiddleware.IsPublicPath | src/main/java/com/openwiki/middleware/AuthMiddleware.java:20-24 | the five public tests: four text prefixes and the exact featured path; characterised by FeaturedSubpathGuarded, ArticlesGuarded and PrefixIsNotSegment |
| AuthMiddleware.Handle | src/main/java/com/openwiki/middleware/AuthMiddleware.java:20-41 | exactly one outcome: skipped exactly on public paths (no status set), 401 AUTH_REQUIRED exactly on other paths with a missing or blank header, otherwise the header as the user id |
| AuthMiddleware.WhitespaceHeaderRejected | src/main/java/com/openwiki/middleware/AuthMiddleware.java:32-38 | a header of spaces and control characters is rejected with 401 |
| AuthMiddleware.HeaderPassedVerbatim | src/main/java/com/openwiki/middleware/AuthMiddleware.java:41 | any other header becomes the user id unchanged: neither trimmed nor checked to be a number |
| AuthMiddleware.FeaturedSubpathGuarded | src/main/java/com/openwiki/middleware/AuthMiddleware.java:22 | "/api/wikipedia/featured" is public only as the exact path |
| AuthMiddleware.ArticlesGuarded | src/main/java/com/openwiki/middleware/AuthMiddleware.java:20-24 | no path under /api/articles is public |
| AuthMiddleware.PrefixIsNotSegment | src/main/java/com/openwiki/middleware/AuthMiddleware.java:20-21 | the prefixes are text, not path segments: "/api/test" or "/api/auth" followed by anything, "/api/testimonials" and "/api/authors/1" included, is public |
| ArticleStore.InsertedRow | src/main/java/com/openwiki/dao/ArticleDAO.java:15-17 | the row INSERT writes: the parsed user id, the four text columns and the timestamp |
| ArticleStore.ReadRow | src/main/java/com/openwiki/dao/ArticleDAO.java:79-90 | mapResultSetToArticle: every column copied, id and user_id as their decimal text; read back by ReadRowIds |
| ArticleStore.OwnedArticles | src/main/java/com/openwiki/dao/ArticleDAO.java:62-77 | what `WHERE user_id = ?` selects: the user's rows, read back; FindByUserId returns exactly this set |
| ArticleStore.DeleteOwned | src/main/java/com/openwiki/dao/ArticleDAO.java:92-113 | the table after `DELETE ... WHERE id = ? AND user_id = ?`; characterised by DeleteRemovesOnlyOwned and DeleteLeavesOthersListing |
| ArticleStore.UpdatedRow | src/main/java/com/openwiki/dao/ArticleDAO.java:116-126 | the five columns `UPDATE ... SET` writes, the rest of the row kept |
| ArticleStore.UpdateOwned | src/main/java/com/openwiki/dao/ArticleDAO.java:115-134 | the table after `UPDATE ... WHERE id = ? AND user_id = ?`; characterised by UpdateKeepsIdentity |
| ArticleStore.ArticleDAO.Save | src/main/java/com/openwiki/dao/ArticleDAO.java:15-44 | a non-numeric user id fails before anything is written; a null date fails; otherwise exactly one row is added, under a fresh id, carrying the seven columns, and the article comes back with that id |
| ArticleStore.ArticleDAO.FindById | src/main/java/com/openwiki/dao/ArticleDAO.java:46-60 | at most one article: the row with that id, whoever owns it, or empty |
| ArticleStore.ArticleDAO.FindByUserId | src/main/java/com/openwiki/dao/ArticleDAO.java:62-77 | the listing holds exactly the user's rows, read back, each once |
| ArticleStore.ArticleDAO.DeleteArticle | src/main/java/com/openwiki/dao/ArticleDAO.java:92-113 | both ids parsed first; returns true exactly when the row with that id belonged to that user, and removes only that row |
| ArticleStore.ArticleDAO.UpdateArticle | src/main/java/com/openwiki/dao/ArticleDAO.java:115-134 | both ids parsed first; returns true exactly when an owned row matched, which alone gets the five new columns |
| ArticleStore.ReadRowIds | src/main/java/com/openwiki/dao/ArticleDAO.java:79-89 | a row read back shows its id and owner as decimal text that parses to the stored integers |
| ArticleStore.SavedArticleIsListed | src/main/java/com/openwiki/dao/ArticleDAO.java:62-77 | after save, the owner's listing contains the saved article under the id save reported |
| ArticleStore.ListedUserIdCanonical | src/main/java/com/openwiki/dao/ArticleDAO.java:23 | the listed user id parses to the number the saved one parsed to, and differs from the saved text whenever that was not the canonical decimal spelling |
| ArticleStore.LeadingZerosNotListed | src/main/java/com/openwiki/dao/ArticleDAO.java:23 | a user id saved as "007" is stored as 7 and listed as "7" |
| ArticleStore.StoredOwnersReadBack | src/main/java/com/openwiki/dao/ArticleDAO.java:79-90 | every row of a valid table reads back with a user id that parses to its owner |
| ArticleStore.DeleteLeavesOthersListing | src/main/java/com/openwiki/dao/ArticleDAO.java:93 | a delete by one user never changes another user's listing |
| ArticleStore.DeleteRemovesOnlyOwned | src/main/java/com/openwiki/dao/ArticleDAO.java:93-108 | only the owned row goes; every other row stays, even one with that id owned by someone else |
| ArticleStore.UpdateKeepsIdentity | src/main/java/com/openwiki/dao/ArticleDAO.java:116-117 | an update keeps every id, owner and download date, changes no other row, and changes nothing without an owned match |
| ArticleStore.ListingOfOwnedRows | src/main/java/com/openwiki/dao/ArticleDAO.java:72-74 | a listing that reads each owned row once holds exactly the owner's articles, with distinct ids |
| WikiService.SearchUrl | src/main/java/com/openwiki/service/WikiService.java:34-38 | the search URL as concatenated; read back by SearchUrlCarriesQuery |
| WikiService.SearchHits | src/main/java/com/openwiki/service/WikiService.java:51 | the nodes iterated from query.search |
| WikiService.ToSearchResult | src/main/java/com/openwiki/service/WikiService.java:53-58 | a hit's title, snippet and pageid as text and its page link; characterised by SearchResultLinksTitle and UntitledHit |
| WikiService.ArticleParams | src/main/java/com/openwiki/service/WikiService.java:87-96 | the nine parameters getArticle puts in its map, the title under "titles" (TitleParam) |
| WikiService.Builder | src/main/java/com/openwiki/service/WikiService.java:98-106 | the StringBuilder's text after the entries of a given order; characterised by BuilderEnding, BuilderAppendFirst and BuilderAppendNext |
| WikiService.SearchResults | src/main/java/com/openwiki/service/WikiService.java:49-62 | one result per hit of query.search, in the hits' order |
| WikiService.Search | src/main/java/com/openwiki/service/WikiService.java:33-63 | a failed request propagates; otherwise one result per hit, not cut down to the limit |
| WikiService.SearchUrlCarriesQuery | src/main/java/com/openwiki/service/WikiService.java:34-38 | after the fixed prefix the URL splits into the encoded query, format=json and srlimit=limit, and the query reads back |
| WikiService.SearchResultLinksTitle | src/main/java/com/openwiki/service/WikiService.java:57-58 | a result's link is the page prefix followed by text that decodes to its title |
| WikiService.UntitledHit | src/main/java/com/openwiki/service/WikiService.java:54-58 | a hit without a title gives an empty title and the bare prefix |
| WikiService.TitleParam | src/main/java/com/openwiki/service/WikiService.java:92 | the "titles" parameter carries the title |
| WikiService.QueryStringEnding | src/main/java/com/openwiki/service/WikiService.java:100-105 | a query string of at least one pair does not end in '?' |
| WikiService.BuilderEnding | src/main/java/com/openwiki/service/WikiService.java:100 | the builder ends in '?' exactly while no pair has been appended |
| WikiService.BuilderAppendFirst | src/main/java/com/openwiki/service/WikiService.java:103-105 | the first pair follows the '?' directly |
| WikiService.BuilderAppendNext | src/main/java/com/openwiki/service/WikiService.java:100-105 | every later pair comes after an '&' |
| WikiService.QueryStringSnoc | src/main/java/com/openwiki/service/WikiService.java:100-105 | a query string with one more pair is the old one, '&' and the pair |
| WikiService.BuildUrl | src/main/java/com/openwiki/service/WikiService.java:98-106 | the builder yields base + "?" + the pairs joined by '&', in an order that takes each key once |
| WikiService.QueryCarriesParams | src/main/java/com/openwiki/service/WikiService.java:87-106 | whatever the map's order, the query string reads back as the map's entries, every entry, each key once |
| WikiService.ArticleUrlCarriesParams | src/main/java/com/openwiki/service/WikiService.java:87-106 | the article URL reads back as the nine parameters, the title under "titles" |
| WikiService.PageToArticle | src/main/java/com/openwiki/service/WikiService.java:119-133 | content is never null or empty; the image is set exactly when the page has a thumbnail; id, user id and date stay null |
| WikiService.ArticleFromResponse | src/main/java/com/openwiki/service/WikiService.java:116-117 | only the first child of query.pages is read; no child is NoSuchElementException |
| WikiService.GetArticle | src/main/java/com/openwiki/service/WikiService.java:86-139 | one request to an article URL of the title, read as above |
| WikiService.FeaturedTitle | src/main/java/com/openwiki/service/WikiService.java:81 | a title exists exactly when query.random has a first element |
| WikiService.GetFeaturedArticle | src/main/java/com/openwiki/service/WikiService.java:65-84 | a failed request or a missing first random page fails; otherwise getArticle of that page's title |
| WikiService.ArticleHasContent | src/main/java/com/openwiki/service/WikiService.java:122-126 | every article read from Wikipedia has non-empty content |
| WikiService.ContentIsExtract | src/main/java/com/openwiki/service/WikiService.java:122-126 | a non-empty extract is the content |
| WikiService.ContentPlaceholder | src/main/java/com/openwiki/service/WikiService.java:122-126 | a missing, null or empty extract gives "Contenuto non disponibile" |
| WikiApi.ExtractUserId | src/main/java/com/openwiki/controller/WikiController.java:163-198 | never fails; the user is "4" or the user_id text of the payload the first piece decodes to, and anything but "4" needs a cookie with at least two pieces |
| WikiApi.UserIdOfPayload | src/main/java/com/openwiki/controller/WikiController.java:179-190 | the user_id text of the payload a piece decodes to, null when it does not decode, cannot be read or has no user_id |
| WikiApi.PayloadDecidesUser | src/main/java/com/openwiki/controller/WikiController.java:179-197 | with a signature present, the user is the payload's user_id text, and "4" whenever that is null |
| WikiApi.UndecodablePayloadIsDefault | src/main/java/com/openwiki/controller/WikiController.java:179-181 | a first piece the decoder rejects gives "4" |
| WikiApi.UnreadablePayloadIsDefault | src/main/java/com/openwiki/controller/WikiController.java:185 | a payload that is not JSON gives "4" |
| WikiApi.PayloadWithoutUserIdIsDefault | src/main/java/com/openwiki/controller/WikiController.java:186-197 | a payload without user_id gives "4" |
| WikiApi.StandardAlphabetRejected | src/main/java/com/openwiki/controller/WikiController.java:180 | a '+' of the standard alphabet makes the first piece undecodable |
| WikiApi.OneCharacterUnitRejected | src/main/java/com/openwiki/controller/WikiController.java:180 | a one-character final unit makes the first piece undecodable |
| WikiApi.IncompletePaddingRejected | src/main/java/com/openwiki/controller/WikiController.java:180 | padding that does not complete the unit makes the first piece undecodable |
| WikiApi.NoCookieIsDefaultUser | src/main/java/com/openwiki/controller/WikiController.java:165-169 | no cookie gives user "4" |
| WikiApi.CookieWithoutSignatureIsDefault | src/main/java/com/openwiki/controller/WikiController.java:172-176 | a cookie with no '.' or only dots after the payload gives user "4" |
| WikiApi.SignatureIgnored | src/main/java/com/openwiki/controller/WikiController.java:179-189 | the signature is never checked: with a payload piece and any two signatures that each hold a character other than '.', the user is the same |
| WikiApi.ForgedCookieChoosesUser | src/main/java/com/openwiki/controller/WikiController.java:179-189 | an encoded payload with any signature yields the payload's user_id as text |
| WikiApi.NullUserIdIsText | src/main/java/com/openwiki/controller/WikiController.java:186-187 | a JSON-null user_id is read as "null", which is not a number |
| WikiApi.DefaultUserIsNumber | src/main/java/com/openwiki/controller/WikiController.java:168 | the default user "4" parses as 4 |
| WikiApi.SearchLimit | src/main/java/com/openwiki/controller/WikiController.java:30 | an absent limit is 10, a numeric one is its value, anything else fails |
| WikiApi.ResolveAlias | src/main/java/com/openwiki/controller/WikiController.java:66-71 | the camelCase member if present, else the snake_case one, and null exactly when neither is present |
| WikiApi.CamelCaseWins | src/main/java/com/openwiki/controller/WikiController.java:66-71 | with both spellings present the camelCase one wins |
| WikiApi.ArticleFromBody | src/main/java/com/openwiki/controller/WikiController.java:61-79 | fails with NullPointerException exactly when title or content is missing; otherwise the article of the body, without id, owned by the user, stamped now |
| WikiApi.NormalizeImageUrl | src/main/java/com/openwiki/controller/WikiController.java:107-109 | a "//" URL gets "https:" in front; anything else, null included, is unchanged |
| WikiApi.NormalizeIdempotent | src/main/java/com/openwiki/controller/WikiController.java:107-109 | normalising twice is normalising once |
| WikiApi.NormalizedIsNotProtocolRelative | src/main/java/com/openwiki/controller/WikiController.java:107-109 | a normalised URL never starts with "//" |
| WikiApi.WikiController.constructor | src/main/java/com/openwiki/controller/WikiController.java:22-25 | a new article store and the two collaborators |
| WikiApi.WikiController.Search | src/main/java/com/openwiki/controller/WikiController.java:27-41 | a bad limit is a 500, a missing or blank query a 400, and otherwise any search failure is a 500 or the results are a 200 |
| WikiApi.WikiController.GetArticle | src/main/java/com/openwiki/controller/WikiController.java:43-52 | the article read from Wikipedia, or a 500 |
| WikiApi.WikiController.SaveArticle | src/main/java/com/openwiki/controller/WikiController.java:54-88 | an unreadable body, a missing title or content, or a non-numeric user is a 500 with the table untouched; otherwise one row is inserted and the saved article with its id is a 200 |
| WikiApi.WikiController.GetUserArticles | src/main/java/com/openwiki/controller/WikiController.java:90-100 | the session user's articles, each once, or a 500 when the user is not a number |
| WikiApi.WikiController.GetFeaturedArticle | src/main/java/com/openwiki/controller/WikiController.java:102-120 | the featured article with its image URL normalised, or a 500 |
| WikiApi.WikiController.DeleteArticle | src/main/java/com/openwiki/controller/WikiController.java:122-139 | 204 and the row gone when the user owned it, 404 "Article not found" otherwise, 500 on a non-numeric id |
| WikiApi.WikiController.UpdateRequest | src/main/java/com/openwiki/controller/WikiController.java:147-148 | the body with the path's id and the session's user; nothing else changed |
| WikiApi.UpdateIgnoresBodyIdentity | src/main/java/com/openwiki/controller/WikiController.java:147-148 | the id and user id a body carries make no difference to the update |
| WikiApi.WikiController.UpdateArticle | src/main/java/com/openwiki/controller/WikiController.java:141-161 | only the path id's row owned by the session user is updated; the answer is that article, a 404 when there is no such row, or a 500 |

## Left out

- HTTP transport is the parameter `fetch`: sending requests, headers, redirects and the status code. AuthService and AuthController are not part of this model.
- Jackson text parsing is not modelled. Response bodies arrive as trees through `fetch`, request bodies as `Option<Json>`/`Option<Article>`, and session payloads through `readPayload`. The UTF-8 decoding of the session payload sits inside `readPayload`.
- JSON numbers are integers. Floating-point values and the text Jackson gives for them are not modelled.
- `Integer.parseInt` is modelled on ASCII digits with an optional sign only. It does not model the non-ASCII digits Java also accepts.
- Java strings are modelled as sequences of Unicode scalar values. A lone surrogate, which `getBytes(UTF_8)` turns into byte 0x3F and URLEncoder therefore writes as "%3F", is not modelled.
- WikiApi.WikiController.constructor: the Java DAO is stateless over one database table that already exists and is shared by every DAO instance; the model gives each controller a store of its own that starts empty, so rows saved before the controller was built, or through another DAO, are not modelled.
- JSON objects with two members of the same name are not modelled: Jackson keeps the last value and iterates the name once, while `Json.Lookup` takes the first and `Json.Elements` yields both.
- The database is a map. Not modelled: connections, the properties file, Timestamp precision, and SQLExceptions from the driver.
- ArticleStore.ArticleDAO.Save: does not model the zero-affected-rows and missing-generated-key branches, because an in-memory insert always adds one row and always has a key.
- ArticleStore.ArticleDAO.Save: returns the updated article as a value. The aliasing of the caller's object, which the Java `setId` mutates, is not modelled; the controller only uses the returned value.
- The INT column width: ids and user ids come from `ParseInt`, which stays in 32-bit range, and the counter is unbounded.
- WikiApi.WikiController.Search: "the service is never called" for a blank query is expressed only as the answer not depending on `fetch`, since `fetch` is a function rather than an effect.
- The 500 bodies keep the exception itself in place of its message text. The message strings of exceptions are not modelled.
- Javalin's validator is modelled in `SearchLimit` as parsing the parameter's text. Its special cases, such as an empty `limit=` value, are not modelled.
- Logging, the clock (the parameter `now`) and Main's route wiring are left out. The middleware is modelled on its own, because Main.java:82 does not register it.
