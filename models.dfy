/**
 The two tables of the blog, `Article` and `Comment`, with their column
 defaults and the constraints the rows keep: unique slugs, comments that
 point at a stored article, and the non-empty text the handlers insist on.
 */
module Models {

  datatype Option<+T> = None | Some(value: T) {
    /** `x or default` for a nullable column. */
    function GetOr(default: T): T {
      match this
      case Some(v) => v
      case None => default
    }
  }

  /** One row of the `article` table. Nullable columns are `Option`s;
      timestamps are opaque instants supplied by the caller. */
  datatype Article = Article(
    id: int,
    title: string,
    slug: string,
    content: string,
    author: Option<string>,
    category: Option<string>,
    tags: Option<string>,
    imageFilename: Option<string>,
    createdAt: int,
    updatedAt: int,
    likes: Option<int>,
    dislikes: Option<int>)

  /** One row of the `comment` table. */
  datatype Comment = Comment(
    id: int,
    articleId: int,
    authorName: Option<string>,
    body: string,
    createdAt: int)

  const DefaultAuthor: string := "Anonyme"
  const DefaultCategory: string := "Général"
  const DefaultTags: string := ""

  /** The row `Article(...)` builds when the caller sets title, slug, content and,
      optionally, author and image: every other column takes its default, and
      both timestamps are the insertion instant. */
  function NewArticle(id: int, title: string, slug: string, content: string,
                      author: Option<string>, imageFilename: Option<string>, now: int): Article
  {
    Article(id, title, slug, content, Some(author.GetOr(DefaultAuthor)),
            Some(DefaultCategory), Some(DefaultTags), imageFilename, now, now, Some(0), Some(0))
  }

  /** A new row with non-empty title and content meets the row invariant: its
      counters start at 0, the author falls back to "Anonyme" only when none is
      given, and category and tags take their defaults. */
  lemma NewArticleDefaults(id: int, title: string, slug: string, content: string,
                           author: Option<string>, imageFilename: Option<string>, now: int)
    requires title != [] && content != []
    ensures var a := NewArticle(id, title, slug, content, author, imageFilename, now);
      && ArticleRowOk(a)
      && Counter(a.likes) == 0 && Counter(a.dislikes) == 0
      && (author.Some? ==> a.author == author)
      && (author.None? ==> a.author == Some(DefaultAuthor))
      && a.category == Some(DefaultCategory) && a.tags == Some(DefaultTags)
      && a.imageFilename == imageFilename && a.createdAt == a.updatedAt == now
  {
  }

  /** A like or dislike counter as the handlers read it: `count or 0`. */
  function Counter(count: Option<int>): int {
    count.GetOr(0)
  }

  /** The slugs held by the stored articles. */
  function SlugSet(articles: map<int, Article>): set<string> {
    set k | k in articles :: articles[k].slug
  }

  /** `slug` is held by a stored article other than the one keyed `self`. */
  predicate SlugHeldByOther(articles: map<int, Article>, slug: string, self: int) {
    exists k :: k in articles && k != self && articles[k].slug == slug
  }

  /** The `unique=True` constraint on `article.slug`. */
  predicate SlugsUnique(articles: map<int, Article>) {
    forall i, j :: i in articles && j in articles && articles[i].slug == articles[j].slug ==> i == j
  }

  /** Each row is stored under its own primary key. */
  predicate KeyedById(articles: map<int, Article>) {
    forall k :: k in articles ==> articles[k].id == k
  }

  /** What every stored article satisfies: non-empty title and content
      (the handlers reject blank ones) and counters that are not negative. */
  predicate ArticleRowOk(a: Article) {
    a.title != [] && a.content != [] && Counter(a.likes) >= 0 && Counter(a.dislikes) >= 0
  }

  /** The foreign key `comment.article_id` names a stored article. */
  predicate CommentsOwned(articles: map<int, Article>, comments: seq<Comment>) {
    forall c :: c in comments ==> c.articleId in articles
  }

  /** Comment primary keys are distinct. */
  predicate CommentIdsUnique(comments: seq<Comment>) {
    forall i, j :: 0 <= i < j < |comments| ==> comments[i].id != comments[j].id
  }

  /** The whole-table invariant every handler keeps. */
  predicate Consistent(articles: map<int, Article>, comments: seq<Comment>) {
    && KeyedById(articles)
    && SlugsUnique(articles)
    && (forall k :: k in articles ==> ArticleRowOk(articles[k]))
    && CommentsOwned(articles, comments)
    && (forall c :: c in comments ==> c.body != [])
    && CommentIdsUnique(comments)
  }

  /** No article still stored has a lower like or dislike count than before:
      the handlers offer no way to lower a counter. */
  predicate CountersKept(before: map<int, Article>, after: map<int, Article>) {
    forall k :: k in before && k in after ==>
      && Counter(after[k].likes) >= Counter(before[k].likes)
      && Counter(after[k].dislikes) >= Counter(before[k].dislikes)
  }

  /** A row stored under a fresh key lowers no counter of the rows already there. */
  lemma InsertKeepsCounters(before: map<int, Article>, a: Article)
    requires a.id !in before
    ensures CountersKept(before, before[a.id := a])
  {
  }

  /** `a` is a stored row, kept under its own primary key. */
  predicate Stored(articles: map<int, Article>, a: Article) {
    a.id in articles && articles[a.id] == a
  }

  /** The rows stored under keys `lo`, `lo + 1`, ..., `hi - 1`, in key order:
      a scan of the table by primary key. Each row shows up once. */
  function TableScan(articles: map<int, Article>, lo: int, hi: int): (r: seq<Article>)
    requires KeyedById(articles)
    ensures forall a :: a in r <==> lo <= a.id < hi && Stored(articles, a)
    ensures forall a :: multiset(r)[a] <= 1
    decreases hi - lo
  {
    if lo >= hi then []
    else
      var rest := TableScan(articles, lo + 1, hi);
      if lo in articles then
        assert articles[lo] !in rest;
        [articles[lo]] + rest
      else rest
  }

  /** The comments whose `article_id` is `articleId`, in table order. */
  function CommentsOf(comments: seq<Comment>, articleId: int): (r: seq<Comment>)
    ensures forall c :: c in r <==> c in comments && c.articleId == articleId
    ensures |r| <= |comments|
  {
    if comments == [] then []
    else
      var rest := CommentsOf(comments[1..], articleId);
      assert comments == [comments[0]] + comments[1..];
      if comments[0].articleId == articleId then [comments[0]] + rest else rest
  }

  /** The comments that survive deleting article `articleId`: the delete-orphan
      cascade drops exactly those whose `article_id` is `articleId` and keeps the
      others. */
  function CommentsNotOf(comments: seq<Comment>, articleId: int): (r: seq<Comment>)
    ensures forall c :: c in r <==> c in comments && c.articleId != articleId
    ensures |r| <= |comments|
  {
    if comments == [] then []
    else
      var rest := CommentsNotOf(comments[1..], articleId);
      assert comments == [comments[0]] + comments[1..];
      if comments[0].articleId != articleId then [comments[0]] + rest else rest
  }

  /** The comments after the first of a list with distinct keys have distinct
      keys, none of them the first one's. */
  lemma UniqueTail(comments: seq<Comment>)
    requires comments != [] && CommentIdsUnique(comments)
    ensures CommentIdsUnique(comments[1..])
    ensures forall d :: d in comments[1..] ==> d.id != comments[0].id
  {
    var tail := comments[1..];
    forall i, j | 0 <= i < j < |tail| ensures tail[i].id != tail[j].id {
      assert tail[i] == comments[i + 1] && tail[j] == comments[j + 1];
    }
    forall d | d in tail ensures d.id != comments[0].id {
      var k :| 0 <= k < |tail| && tail[k] == d;
      assert comments[k + 1] == d;
    }
  }

  /** A comment whose key none of a list with distinct keys holds can go in front of it. */
  lemma UniqueCons(c: Comment, rest: seq<Comment>)
    requires CommentIdsUnique(rest) && forall d :: d in rest ==> d.id != c.id
    ensures CommentIdsUnique([c] + rest)
  {
    var r := [c] + rest;
    forall i, j | 0 <= i < j < |r| ensures r[i].id != r[j].id {
      assert r[j] == rest[j - 1];
      if i > 0 { assert r[i] == rest[i - 1]; }
    }
  }

  /** The cascade keeps the surviving comments' primary keys distinct. */
  lemma {:induction false} CommentsNotOfKeepsIdsUnique(comments: seq<Comment>, articleId: int)
    requires CommentIdsUnique(comments)
    ensures CommentIdsUnique(CommentsNotOf(comments, articleId))
  {
    if comments != [] {
      UniqueTail(comments);
      CommentsNotOfKeepsIdsUnique(comments[1..], articleId);
      if comments[0].articleId != articleId {
        UniqueCons(comments[0], CommentsNotOf(comments[1..], articleId));
      }
    }
  }

  /** Inserting a fresh, well-formed article whose slug is free keeps the tables consistent. */
  lemma InsertKeepsConsistent(articles: map<int, Article>, comments: seq<Comment>, a: Article)
    requires Consistent(articles, comments)
    requires a.id !in articles && a.slug !in SlugSet(articles) && ArticleRowOk(a)
    ensures Consistent(articles[a.id := a], comments)
    ensures SlugSet(articles[a.id := a]) == SlugSet(articles) + {a.slug}
  {
    var after := articles[a.id := a];
    forall x | x in SlugSet(after) ensures x in SlugSet(articles) + {a.slug} {
      var k :| k in after && after[k].slug == x;
      if k != a.id { assert articles[k].slug == x; }
    }
    forall x | x in SlugSet(articles) + {a.slug} ensures x in SlugSet(after) {
      if x != a.slug {
        var k :| k in articles && articles[k].slug == x;
        assert after[k].slug == x;
      } else {
        assert after[a.id].slug == x;
      }
    }
  }

  /** Rewriting article `a.id` in place, with a slug no other article holds,
      keeps the tables consistent. */
  lemma ReplaceKeepsConsistent(articles: map<int, Article>, comments: seq<Comment>, a: Article)
    requires Consistent(articles, comments)
    requires a.id in articles && !SlugHeldByOther(articles, a.slug, a.id) && ArticleRowOk(a)
    ensures Consistent(articles[a.id := a], comments)
  {
  }

  /** Deleting article `id` together with its comments keeps the tables consistent;
      deleting it alone would leave dangling comments whenever it has any. */
  lemma {:induction false} CascadeKeepsConsistent(articles: map<int, Article>, comments: seq<Comment>, id: int)
    requires Consistent(articles, comments)
    ensures Consistent(articles - {id}, CommentsNotOf(comments, id))
    ensures CommentsOf(comments, id) != [] ==> !CommentsOwned(articles - {id}, comments)
  {
    var kept := CommentsNotOf(comments, id);
    CommentsNotOfKeepsIdsUnique(comments, id);
    forall c | c in kept ensures c.articleId in articles - {id} {
      assert c in comments;
    }
    if CommentsOf(comments, id) != [] {
      var c := CommentsOf(comments, id)[0];
      assert c in comments && c.articleId !in articles - {id};
    }
  }

  /** Appending a comment with a fresh key, a non-empty body and a stored
      article keeps the tables consistent. */
  lemma AppendCommentKeepsConsistent(articles: map<int, Article>, comments: seq<Comment>, c: Comment)
    requires Consistent(articles, comments)
    requires c.articleId in articles && c.body != [] && forall d :: d in comments ==> d.id != c.id
    ensures Consistent(articles, comments + [c])
  {
    var after := comments + [c];
    forall i, j | 0 <= i < j < |after| ensures after[i].id != after[j].id {
      if j == |comments| { assert after[i] in comments; }
    }
  }
}
