/** The saved_articles table and the five statements ArticleDAO runs against it.
    The table is a map from the generated integer id to the rest of the row; the
    database's auto-increment counter is nextId. Every statement is scoped exactly
    as its SQL text is: INSERT adds one row, SELECT ... WHERE id = ? reads at most one,
    SELECT ... WHERE user_id = ? reads a user's rows, and DELETE and UPDATE touch only
    the row matching both id and user_id. */
module ArticleStore {
  import opened JavaLang
  import opened Articles

  /** A row of saved_articles apart from its id column. user_id is an INT column. */
  datatype Row = Row(
    userId: int,
    title: Option<string>,
    content: Option<string>,
    imageUrl: Option<string>,
    dateDownloaded: DateTime,
    pageId: Option<string>,
    wikiUrl: Option<string>)

  /** The row INSERT_ARTICLE writes for an article whose user id parsed as uid. */
  function InsertedRow(a: Article, uid: int, when: DateTime): Row {
    Row(uid, a.title, a.content, a.imageUrl, when, a.pageId, a.wikiUrl)
  }

  /** mapResultSetToArticle: every column copied, id and user_id read back as decimal text. */
  function ReadRow(id: int, row: Row): Article {
    Article(Some(IntToString(id)), Some(IntToString(row.userId)), row.title, row.content,
            row.imageUrl, Some(row.dateDownloaded), row.pageId, row.wikiUrl)
  }

  /** The articles `SELECT * FROM saved_articles WHERE user_id = ?` reads for uid. */
  function OwnedArticles(rows: map<int, Row>, uid: int): set<Article> {
    set k | k in rows && rows[k].userId == uid :: ReadRow(k, rows[k])
  }

  /** Does the row with this id belong to uid (the `WHERE id = ? AND user_id = ?` test)? */
  predicate Owns(rows: map<int, Row>, id: int, uid: int) {
    id in rows && rows[id].userId == uid
  }

  /** The table after `DELETE FROM saved_articles WHERE id = ? AND user_id = ?`. */
  function DeleteOwned(rows: map<int, Row>, id: int, uid: int): map<int, Row> {
    if Owns(rows, id, uid) then rows - {id} else rows
  }

  /** The five columns `UPDATE saved_articles SET ...` writes. */
  function UpdatedRow(row: Row, a: Article): Row {
    row.(title := a.title, content := a.content, imageUrl := a.imageUrl,
         wikiUrl := a.wikiUrl, pageId := a.pageId)
  }

  /** The table after `UPDATE ... WHERE id = ? AND user_id = ?`. */
  function UpdateOwned(rows: map<int, Row>, id: int, uid: int, a: Article): map<int, Row> {
    if Owns(rows, id, uid) then rows[id := UpdatedRow(rows[id], a)] else rows
  }

  /** The in-memory saved_articles table behind ArticleDAO. */
  class ArticleDAO {
    var rows: map<int, Row>
    var nextId: int

    /** Every id in use was handed out by the counter, and every user_id is a Java int
        (save stores only what Integer.parseInt returned). */
    ghost predicate Valid()
      reads this
    {
      && nextId >= 1
      && (forall k :: k in rows ==> 1 <= k < nextId)
      && (forall k :: k in rows ==> IsInt32(rows[k].userId))
    }

    /** An empty table whose counter starts at 1. */
    constructor ()
      ensures Valid() && rows == map[] && nextId == 1
    {
      rows := map[];
      nextId := 1;
    }

    /** save: parses the user id (NumberFormatException before anything is written),
        converts dateDownloaded (NullPointerException when it is null), inserts one row
        under a freshly generated id, and returns the article with that id set. */
    method Save(article: Article) returns (r: Result<Article>)
      requires Valid()
      modifies this
      ensures Valid()
      ensures ParseInt(article.userId).None? ==>
        r == Failure(NumberFormat(article.userId)) && rows == old(rows) && nextId == old(nextId)
      ensures ParseInt(article.userId).Some? && article.dateDownloaded.None? ==>
        r == Failure(NullPointer) && rows == old(rows) && nextId == old(nextId)
      ensures ParseInt(article.userId).Some? && article.dateDownloaded.Some? ==>
        && old(nextId) !in old(rows)
        && rows == old(rows)[old(nextId) := InsertedRow(article, ParseInt(article.userId).value, article.dateDownloaded.value)]
        && nextId == old(nextId) + 1
        && r == Success(article.(id := Some(IntToString(old(nextId)))))
    {
      var uid := ParseInt(article.userId);
      if uid.None? {
        return Failure(NumberFormat(article.userId));
      }
      if article.dateDownloaded.None? {
        return Failure(NullPointer);
      }
      var id := nextId;
      rows := rows[id := InsertedRow(article, uid.value, article.dateDownloaded.value)];
      nextId := nextId + 1;
      r := Success(article.(id := Some(IntToString(id))));
    }

    /** findById: the row with that id, whoever owns it, or nothing. */
    method FindById(id: Option<string>) returns (r: Result<Option<Article>>)
      requires Valid()
      ensures ParseInt(id).None? ==> r == Failure(NumberFormat(id))
      ensures ParseInt(id).Some? ==> r.Success?
      ensures ParseInt(id).Some? && ParseInt(id).value !in rows ==> r.value.None?
      ensures ParseInt(id).Some? && ParseInt(id).value in rows ==>
        r.value == Some(ReadRow(ParseInt(id).value, rows[ParseInt(id).value]))
    {
      var key := ParseInt(id);
      if key.None? {
        return Failure(NumberFormat(id));
      }
      if key.value in rows {
        r := Success(Some(ReadRow(key.value, rows[key.value])));
      } else {
        r := Success(None);
      }
    }

    /** findByUserId: every row of that user, each once, in an order the database chooses. */
    method FindByUserId(userId: Option<string>) returns (r: Result<seq<Article>>)
      requires Valid()
      ensures ParseInt(userId).None? ==> r == Failure(NumberFormat(userId))
      ensures ParseInt(userId).Some? ==> r.Success?
      ensures ParseInt(userId).Some? ==>
        (set a | a in r.value) == OwnedArticles(rows, ParseInt(userId).value)
      ensures r.Success? ==> forall i, j :: 0 <= i < j < |r.value| ==> r.value[i].id != r.value[j].id
    {
      var parsed := ParseInt(userId);
      if parsed.None? {
        return Failure(NumberFormat(userId));
      }
      var uid := parsed.value;
      var articles: seq<Article> := [];
      ghost var ids: seq<int> := [];
      var remaining: set<int> := rows.Keys;
      while remaining != {}
        invariant remaining <= rows.Keys
        invariant |articles| == |ids|
        invariant forall i :: 0 <= i < |ids| ==>
          ids[i] in rows && ids[i] !in remaining && rows[ids[i]].userId == uid &&
          articles[i] == ReadRow(ids[i], rows[ids[i]])
        invariant forall i, j :: 0 <= i < j < |ids| ==> ids[i] != ids[j]
        invariant forall k :: k in rows && k !in remaining && rows[k].userId == uid ==> k in ids
        decreases remaining
      {
        if forall k :: k !in remaining {
          assert false;  // remaining is not empty
        }
        var k :| k in remaining;
        if rows[k].userId == uid {
          articles := articles + [ReadRow(k, rows[k])];
          ids := ids + [k];
        }
        remaining := remaining - {k};
      }
      ListingOfOwnedRows(rows, uid, ids, articles);
      r := Success(articles);
    }

    /** deleteArticle: parses both ids, then removes the row only when it has that id and
        belongs to that user; reports whether a row was removed. */
    method DeleteArticle(articleId: Option<string>, userId: Option<string>) returns (r: Result<bool>)
      requires Valid()
      modifies this
      ensures Valid() && nextId == old(nextId)
      ensures ParseInt(articleId).None? ==>
        r == Failure(NumberFormat(articleId)) && rows == old(rows)
      ensures ParseInt(articleId).Some? && ParseInt(userId).None? ==>
        r == Failure(NumberFormat(userId)) && rows == old(rows)
      ensures ParseInt(articleId).Some? && ParseInt(userId).Some? ==>
        && r == Success(Owns(old(rows), ParseInt(articleId).value, ParseInt(userId).value))
        && rows == DeleteOwned(old(rows), ParseInt(articleId).value, ParseInt(userId).value)
    {
      var id := ParseInt(articleId);
      if id.None? {
        return Failure(NumberFormat(articleId));
      }
      var uid := ParseInt(userId);
      if uid.None? {
        return Failure(NumberFormat(userId));
      }
      var owned := id.value in rows && rows[id.value].userId == uid.value;
      if owned {
        rows := rows - {id.value};
      }
      r := Success(owned);
    }

    /** updateArticle: parses the article's id and user id, then rewrites title, content,
        image_url, wiki_url and page_id of the row matching both; reports whether it did. */
    method UpdateArticle(article: Article) returns (r: Result<bool>)
      requires Valid()
      modifies this
      ensures Valid() && nextId == old(nextId)
      ensures ParseInt(article.id).None? ==>
        r == Failure(NumberFormat(article.id)) && rows == old(rows)
      ensures ParseInt(article.id).Some? && ParseInt(article.userId).None? ==>
        r == Failure(NumberFormat(article.userId)) && rows == old(rows)
      ensures ParseInt(article.id).Some? && ParseInt(article.userId).Some? ==>
        && r == Success(Owns(old(rows), ParseInt(article.id).value, ParseInt(article.userId).value))
        && rows == UpdateOwned(old(rows), ParseInt(article.id).value, ParseInt(article.userId).value, article)
    {
      var id := ParseInt(article.id);
      if id.None? {
        return Failure(NumberFormat(article.id));
      }
      var uid := ParseInt(article.userId);
      if uid.None? {
        return Failure(NumberFormat(article.userId));
      }
      var owned := id.value in rows && rows[id.value].userId == uid.value;
      if owned {
        rows := rows[id.value := UpdatedRow(rows[id.value], article)];
      }
      r := Success(owned);
    }
  }

  /** A row read back shows its id and its owner as the decimal text of the stored integers. */
  lemma ReadRowIds(id: int, row: Row)
    requires IsInt32(id) && IsInt32(row.userId)
    ensures ParseInt(ReadRow(id, row).id) == Some(id)
    ensures ParseInt(ReadRow(id, row).userId) == Some(row.userId)
  {
    ParseIntToString(id);
    ParseIntToString(row.userId);
  }

  /** After an insert under a new id, the owner's listing holds the inserted article under
      exactly the id save reported, with every column the article carried. */
  lemma SavedArticleIsListed(rows: map<int, Row>, key: int, a: Article, uid: int, when: DateTime)
    requires key !in rows
    ensures ReadRow(key, InsertedRow(a, uid, when)) in OwnedArticles(rows[key := InsertedRow(a, uid, when)], uid)
    ensures ReadRow(key, InsertedRow(a, uid, when)) ==
      a.(id := Some(IntToString(key)), userId := Some(IntToString(uid)), dateDownloaded := Some(when))
  {
    var rows' := rows[key := InsertedRow(a, uid, when)];
    assert key in rows' && rows'[key].userId == uid;
  }

  /** The listing shows the owner as the canonical decimal text of the number the saved
      user id parsed to: it names the same owner, but any other spelling of that number
      is not what comes back. */
  lemma ListedUserIdCanonical(a: Article, uid: int, key: int, when: DateTime)
    requires ParseInt(a.userId) == Some(uid)
    ensures ParseInt(ReadRow(key, InsertedRow(a, uid, when)).userId) == Some(uid)
    ensures a.userId != Some(IntToString(uid)) ==> ReadRow(key, InsertedRow(a, uid, when)).userId != a.userId
  {
    ParseIntToString(uid);
  }

  /** A user id saved as "007" is stored as 7 and listed as "7". */
  lemma LeadingZerosNotListed(a: Article, key: int, when: DateTime)
    requires a.userId == Some("007")
    ensures ParseInt(a.userId) == Some(7)
    ensures ReadRow(key, InsertedRow(a, 7, when)).userId == Some("7")
    ensures ReadRow(key, InsertedRow(a, 7, when)).userId != a.userId
  {
    var t := "007";
    assert t[..2] == "00" && t[..2][..1] == "0" && t[..2][..1][..0] == [];
    assert DigitsValue(t[..2][..1]) == 0;
    assert DigitsValue(t[..2]) == 0;
    assert DigitsValue(t) == 7;
    assert IntToString(7) == "7";
  }

  /** Every row of a valid table reads back with a user id that parses to its owner. */
  lemma StoredOwnersReadBack(store: ArticleDAO, id: int)
    requires store.Valid() && id in store.rows
    ensures ParseInt(ReadRow(id, store.rows[id]).userId) == Some(store.rows[id].userId)
  {
    ParseIntToString(store.rows[id].userId);
  }

  /** A delete by one user never changes another user's listing. */
  lemma DeleteLeavesOthersListing(rows: map<int, Row>, id: int, uid: int, other: int)
    requires other != uid
    ensures OwnedArticles(DeleteOwned(rows, id, uid), other) == OwnedArticles(rows, other)
  {
    var after := DeleteOwned(rows, id, uid);
    forall a | a in OwnedArticles(rows, other)
      ensures a in OwnedArticles(after, other)
    {
      var k :| k in rows && rows[k].userId == other && a == ReadRow(k, rows[k]);
      assert k in after && after[k] == rows[k];
    }
  }

  /** A delete removes nothing but the one owned row: every other row stays as it was,
      including a row with that id that belongs to someone else. */
  lemma DeleteRemovesOnlyOwned(rows: map<int, Row>, id: int, uid: int)
    ensures DeleteOwned(rows, id, uid).Keys == if Owns(rows, id, uid) then rows.Keys - {id} else rows.Keys
    ensures forall k :: k in DeleteOwned(rows, id, uid) ==> DeleteOwned(rows, id, uid)[k] == rows[k]
  {
  }

  /** An update keeps every row's id, owner and download date, and changes no other row. */
  lemma UpdateKeepsIdentity(rows: map<int, Row>, id: int, uid: int, a: Article)
    ensures UpdateOwned(rows, id, uid, a).Keys == rows.Keys
    ensures forall k :: k in rows ==>
      UpdateOwned(rows, id, uid, a)[k].userId == rows[k].userId &&
      UpdateOwned(rows, id, uid, a)[k].dateDownloaded == rows[k].dateDownloaded
    ensures forall k :: k in rows && k != id ==> UpdateOwned(rows, id, uid, a)[k] == rows[k]
    ensures !Owns(rows, id, uid) ==> UpdateOwned(rows, id, uid, a) == rows
  {
  }

  /** A listing that reads each owned row once, and only owned rows, holds exactly the
      owner's articles, with distinct ids. */
  lemma ListingOfOwnedRows(rows: map<int, Row>, uid: int, ids: seq<int>, articles: seq<Article>)
    requires |articles| == |ids|
    requires forall i :: 0 <= i < |ids| ==>
      ids[i] in rows && rows[ids[i]].userId == uid && articles[i] == ReadRow(ids[i], rows[ids[i]])
    requires forall i, j :: 0 <= i < j < |ids| ==> ids[i] != ids[j]
    requires forall k :: k in rows && rows[k].userId == uid ==> k in ids
    ensures (set a | a in articles) == OwnedArticles(rows, uid)
    ensures forall i, j :: 0 <= i < j < |articles| ==> articles[i].id != articles[j].id
  {
    forall i, j | 0 <= i < j < |articles|
      ensures articles[i].id != articles[j].id
    {
      if articles[i].id == articles[j].id {
        IntToStringInjective(ids[i], ids[j]);
      }
    }
    forall a | a in OwnedArticles(rows, uid)
      ensures a in articles
    {
      var k :| k in rows && rows[k].userId == uid && a == ReadRow(k, rows[k]);
      var i :| 0 <= i < |ids| && ids[i] == k;
      assert articles[i] == a;
    }
  }
}
