/**
 The database session the handlers share: the two tables held in memory,
 with `add`, `delete` and `commit` folded into one step each. Primary keys are
 taken from a counter that never hands out a value twice, so a new key is one
 no stored row holds (SQLite without AUTOINCREMENT instead gives the largest
 stored key plus one, and so can reuse the key of a deleted newest row).
 Deleting an article cascades to its comments, as `cascade="all, delete-orphan"`
 asks.
 */
module Db {
  import opened Models

  class Database {
    var articles: map<int, Article>
    var comments: seq<Comment>
    var nextArticleId: int
    var nextCommentId: int

    /** The tables are consistent and every key in use is below the next one handed out. */
    ghost predicate Valid()
      reads this
    {
      && Consistent(articles, comments)
      && nextArticleId >= 1
      && (forall k :: k in articles ==> 1 <= k < nextArticleId)
      && (forall c :: c in comments ==> c.id < nextCommentId)
    }

    /** Every stored article once, in primary-key order: what a query without
        `ORDER BY` returns. */
    function Rows(): (r: seq<Article>)
      reads this
      requires Valid()
      ensures forall a :: a in r <==> Stored(articles, a)
      ensures forall a :: multiset(r)[a] <= 1
    {
      TableScan(articles, 1, nextArticleId)
    }

    /** The slugs in use. */
    function Slugs(): set<string>
      reads this
    {
      SlugSet(articles)
    }

    /** The schema as `db.create_all()` leaves it: two empty tables. */
    constructor ()
      ensures Valid()
      ensures articles == map[] && comments == []
    {
      articles := map[];
      comments := [];
      nextArticleId := 1;
      nextCommentId := 1;
    }

    /** `db.session.add(article); db.session.commit()`: the row gets a fresh
        primary key; nothing stored before changes. */
    method AddArticle(a: Article) returns (id: int)
      requires Valid()
      requires a.slug !in Slugs() && ArticleRowOk(a)
      modifies this
      ensures Valid()
      ensures id == old(nextArticleId) && id !in old(articles)
      ensures articles == old(articles)[id := a.(id := id)]
      ensures Slugs() == old(Slugs()) + {a.slug}
      ensures comments == old(comments)
    {
      id := nextArticleId;
      InsertKeepsConsistent(articles, comments, a.(id := id));
      articles := articles[id := a.(id := id)];
      nextArticleId := nextArticleId + 1;
    }

    /** Committing an in-place change to the stored article `a.id`. */
    method UpdateArticle(a: Article)
      requires Valid()
      requires a.id in articles && !SlugHeldByOther(articles, a.slug, a.id) && ArticleRowOk(a)
      modifies this
      ensures Valid()
      ensures articles == old(articles)[a.id := a]
      ensures comments == old(comments)
    {
      ReplaceKeepsConsistent(articles, comments, a);
      articles := articles[a.id := a];
    }

    /** `db.session.add(comment); db.session.commit()` for a comment on a stored article. */
    method AddComment(c: Comment) returns (id: int)
      requires Valid()
      requires c.articleId in articles && c.body != []
      modifies this
      ensures Valid()
      ensures forall d :: d in old(comments) ==> d.id != id
      ensures comments == old(comments) + [c.(id := id)]
      ensures articles == old(articles)
    {
      id := nextCommentId;
      AppendCommentKeepsConsistent(articles, comments, c.(id := id));
      comments := comments + [c.(id := id)];
      nextCommentId := nextCommentId + 1;
    }

    /** `db.session.delete(article); db.session.commit()`: the article goes and,
        through the delete-orphan cascade, every comment on it. */
    method DeleteArticle(id: int)
      requires Valid()
      requires id in articles
      modifies this
      ensures Valid()
      ensures articles == old(articles) - {id}
      ensures comments == CommentsNotOf(old(comments), id)
      ensures forall c :: c in comments ==> c.articleId != id
    {
      CascadeKeepsConsistent(articles, comments, id);
      articles := articles - {id};
      comments := CommentsNotOf(comments, id);
    }
  }
}
