/**
 The public handlers: the article listings, the article page, the public
 write form with its slug disambiguation, the like and dislike counters, and
 the comment API. `create_slug` (python-slugify), the name an uploaded image
 is saved under, and the current instant are parameters.
 */
module Routes {
  import opened Text
  import opened Ordering
  import opened Models
  import opened Db
  import opened Slugs
  import opened Web

  const AllowedExtensions: set<string> := {"png", "jpg", "jpeg", "gif", "webp"}

  const MissingFieldsMessage: string := "Le titre et le contenu sont obligatoires."
  const MissingBodyMessage: string := "Comment body is required"
  const AnonymousCommenter: string := "Anonymous"

  /** `allowed_file`: the file name has a '.' and what follows its last '.',
      lower-cased, is an allowed image extension. */
  function AllowedFile(filename: string): bool {
    '.' in filename && ToLower(filename[LastDot(filename) + 1..]) in AllowedExtensions
  }

  /** `allowed_file` accepts exactly the names whose text after their last '.'
      is, once lower-cased, one of png, jpg, jpeg, gif and webp. */
  lemma AllowedFileSpec(filename: string)
    ensures AllowedFile(filename) <==>
      exists i :: IsLastDot(filename, i) && ToLower(filename[i + 1..]) in AllowedExtensions
  {
    if i :| IsLastDot(filename, i) && ToLower(filename[i + 1..]) in AllowedExtensions {
      LastDotUnique(filename, i, LastDot(filename));
    }
    if AllowedFile(filename) {
      assert IsLastDot(filename, LastDot(filename));
    }
  }

  /** `value.strip() or default`. */
  function OrDefault(value: string, default: string): string {
    var t := Strip(value);
    if t == [] then default else t
  }

  /** `(author_name or "Anonymous").strip() or "Anonymous"`: the same as
      stripping the submitted name and falling back to "Anonymous" when nothing
      is left, since "Anonymous" has no surrounding whitespace. */
  function CommentAuthor(raw: string): (name: string)
    ensures name == OrDefault(raw, AnonymousCommenter)
  {
    StripUnpadded(AnonymousCommenter);
    var t := Strip(if raw == [] then AnonymousCommenter else raw);
    if t == [] then AnonymousCommenter else t
  }

  /** Sort key putting the newest article first. */
  function NewestFirst(a: Article): int {
    -a.createdAt
  }

  /** Sort key putting the oldest comment first. */
  function OldestFirst(c: Comment): int {
    c.createdAt
  }

  /** `blog` (and the admin dashboard): every stored article once, newest first. */
  function Blog(db: Database): (r: seq<Article>)
    reads db
    requires db.Valid()
    ensures forall a :: a in r <==> Stored(db.articles, a)
    ensures forall a :: multiset(r)[a] <= 1
    ensures forall i, j :: 0 <= i < j < |r| ==> r[i].createdAt >= r[j].createdAt
  {
    var rows := db.Rows();
    var r := SortBy(rows, NewestFirst);
    forall a ensures a in r <==> a in rows {
      PermutationMembers(r, rows, a);
    }
    assert forall i, j :: 0 <= i < j < |r| ==> NewestFirst(r[i]) <= NewestFirst(r[j]);
    r
  }

  /** `.limit(n)` on a newest-first listing: its first `n` articles, or all of
      them when there are fewer. Nothing is added or repeated, the order is
      kept, and an article left out is no newer than any article kept. */
  function Newest(all: seq<Article>, n: nat): (r: seq<Article>)
    requires forall i, j :: 0 <= i < j < |all| ==> all[i].createdAt >= all[j].createdAt
    ensures |r| <= n
    ensures |r| < n ==> r == all
    ensures forall a :: a in r ==> a in all
    ensures forall a :: multiset(r)[a] <= multiset(all)[a]
    ensures forall i, j :: 0 <= i < j < |r| ==> r[i].createdAt >= r[j].createdAt
    ensures forall a, b :: a in all && a !in r && b in r ==> a.createdAt <= b.createdAt
  {
    if |all| <= n then all
    else
      NewestPrefix(all, n);
      PrefixCount(all, n);
      all[..n]
  }

  /** `index`: the six newest articles, newest first (all of them when there are
      fewer); an article left out is no newer than any article shown. */
  function Index(db: Database): (r: seq<Article>)
    reads db
    requires db.Valid()
    ensures |r| <= 6
    ensures forall a :: a in r ==> Stored(db.articles, a)
    ensures forall a :: multiset(r)[a] <= 1
    ensures forall i, j :: 0 <= i < j < |r| ==> r[i].createdAt >= r[j].createdAt
    ensures |r| < 6 ==> forall a :: Stored(db.articles, a) ==> a in r
    ensures forall a, b :: Stored(db.articles, a) && a !in r && b in r ==> a.createdAt <= b.createdAt
  {
    Newest(Blog(db), 6)
  }

  /** A prefix holds each element at most as often as the whole sequence. */
  lemma PrefixCount<T>(s: seq<T>, n: nat)
    requires n <= |s|
    ensures forall x :: multiset(s[..n])[x] <= multiset(s)[x]
  {
    assert s[..n] + s[n..] == s;
  }

  /** A prefix of a newest-first listing holds the newest articles of the listing. */
  lemma NewestPrefix(all: seq<Article>, n: nat)
    requires n <= |all|
    requires forall i, j :: 0 <= i < j < |all| ==> all[i].createdAt >= all[j].createdAt
    ensures forall a, b :: a in all && a !in all[..n] && b in all[..n] ==> a.createdAt <= b.createdAt
  {
    forall a, b | a in all && a !in all[..n] && b in all[..n] ensures a.createdAt <= b.createdAt {
      var p :| 0 <= p < |all| && all[p] == a;
      var q :| 0 <= q < n && all[..n][q] == b;
      assert all[q] == b;
    }
  }

  /** The first row holding `slug`, as `filter_by(slug=slug).first()` finds it. */
  function FirstWithSlug(rows: seq<Article>, slug: string): (r: Option<Article>)
    ensures r.Some? ==> r.value in rows && r.value.slug == slug
    ensures r.None? ==> forall a :: a in rows ==> a.slug != slug
  {
    if rows == [] then None
    else if rows[0].slug == slug then Some(rows[0])
    else FirstWithSlug(rows[1..], slug)
  }

  /** `article_detail`: not found unless an article holds `slug`; otherwise that
      article and exactly its comments, oldest first. */
  function ArticleDetail(db: Database, slug: string): (r: Response)
    reads db
    requires db.Valid()
    ensures r == NotFound <==> slug !in db.Slugs()
    ensures r != NotFound ==>
      && r.Render? && r.view.ArticleDetailPage?
      && Stored(db.articles, r.view.article) && r.view.article.slug == slug
      && (forall c :: c in r.view.comments <==> c in db.comments && c.articleId == r.view.article.id)
      && multiset(r.view.comments) == multiset(CommentsOf(db.comments, r.view.article.id))
      && |r.view.comments| == |CommentsOf(db.comments, r.view.article.id)|
      && (forall i, j :: 0 <= i < j < |r.view.comments| ==> r.view.comments[i].createdAt <= r.view.comments[j].createdAt)
  {
    match FirstWithSlug(db.Rows(), slug)
    case None => NotFound
    case Some(a) =>
      var mine := CommentsOf(db.comments, a.id);
      var listed := SortBy(mine, OldestFirst);
      forall c ensures c in listed <==> c in mine {
        PermutationMembers(listed, mine, c);
      }
      assert forall i, j :: 0 <= i < j < |listed| ==> OldestFirst(listed[i]) <= OldestFirst(listed[j]);
      Render(ArticleDetailPage(a, listed))
  }

  /** The JSON array of `api_get_comments`, one object per comment, in order. */
  function CommentsJson(cs: seq<Comment>): (r: seq<CommentJson>)
    ensures |r| == |cs|
    ensures forall i :: 0 <= i < |cs| ==> r[i] == ToJson(cs[i])
  {
    if cs == [] then [] else [ToJson(cs[0])] + CommentsJson(cs[1..])
  }

  /** `api_get_comments`: not found for an unknown article; otherwise status 200
      and one JSON object for each comment of the article and for nothing else,
      oldest first. */
  function ApiGetComments(db: Database, articleId: int): (r: Response)
    reads db
    ensures articleId !in db.articles <==> r == NotFound
    ensures articleId in db.articles ==>
      && r.Json? && r.status == 200 && r.body.CommentListBody?
      && |r.body.items| == |CommentsOf(db.comments, articleId)|
      && (forall c :: c in db.comments && c.articleId == articleId ==> ToJson(c) in r.body.items)
      && (forall x :: x in r.body.items ==> exists c :: c in db.comments && c.articleId == articleId && x == ToJson(c))
      && (forall i, j :: 0 <= i < j < |r.body.items| ==> r.body.items[i].createdAt <= r.body.items[j].createdAt)
  {
    if articleId !in db.articles then NotFound
    else
      var mine := CommentsOf(db.comments, articleId);
      var listed := SortBy(mine, OldestFirst);
      var items := CommentsJson(listed);
      ListedCommentsJson(mine, listed, items);
      Json(200, CommentListBody(items))
  }

  /** The facts `ApiGetComments` states of its array, from those of the sort. */
  lemma ListedCommentsJson(mine: seq<Comment>, listed: seq<Comment>, items: seq<CommentJson>)
    requires multiset(listed) == multiset(mine) && SortedBy(listed, OldestFirst)
    requires |items| == |listed| && forall i :: 0 <= i < |listed| ==> items[i] == ToJson(listed[i])
    ensures forall c :: c in mine ==> ToJson(c) in items
    ensures forall x :: x in items ==> exists c :: c in mine && x == ToJson(c)
    ensures forall i, j :: 0 <= i < j < |items| ==> items[i].createdAt <= items[j].createdAt
  {
    forall c | c in mine ensures ToJson(c) in items {
      PermutationMembers(listed, mine, c);
      var i :| 0 <= i < |listed| && listed[i] == c;
      assert items[i] == ToJson(c);
    }
    forall x | x in items ensures exists c :: c in mine && x == ToJson(c) {
      var i :| 0 <= i < |items| && items[i] == x;
      PermutationMembers(listed, mine, listed[i]);
    }
    forall i, j | 0 <= i < j < |items| ensures items[i].createdAt <= items[j].createdAt {
      assert OldestFirst(listed[i]) <= OldestFirst(listed[j]);
    }
  }

  /** The slug loop of `write_article`: try `base`, then `base-1`, `base-2`, ...
      until no stored article holds the candidate. The result is the first free
      candidate, found after at most as many attempts as there are stored slugs. */
  method ResolveSlug(db: Database, base: string) returns (slug: string, k: nat)
    ensures k == FirstFreeIndex(db.Slugs(), base) && slug == Candidate(base, k)
    ensures slug !in db.Slugs() && forall j :: 0 <= j < k ==> Candidate(base, j) in db.Slugs()
    ensures k <= |db.Slugs()|
  {
    var counter := 1;
    slug := base;
    while slug in db.Slugs()
      invariant counter >= 1
      invariant slug == Candidate(base, counter - 1)
      invariant forall j :: 0 <= j < counter - 1 ==> Candidate(base, j) in db.Slugs()
      decreases |db.Slugs()| - (counter - 1)
    {
      CandidatesBounded(base, counter, db.Slugs());
      slug := base + "-" + NatToString(counter);
      counter := counter + 1;
    }
    k := counter - 1;
    FirstFreeBound(db.Slugs(), base, k, FirstFreeIndex(db.Slugs(), base));
  }

  /** `write_article`. A GET shows the form. A POST whose stripped title or
      stripped content is empty shows the form again with an error and stores
      nothing. Otherwise exactly one article is added: stripped title and
      content, the stripped author or "Anonyme", the image name when an allowed
      file was uploaded, and the first free candidate slug for the title; the
      reply redirects to its page. */
  method WriteArticle(db: Database, m: HttpMethod, form: map<string, string>, upload: Option<string>,
                      storedName: string, createSlug: string -> string, now: int) returns (r: Response)
    requires db.Valid()
    modifies db
    ensures db.Valid()
    ensures db.comments == old(db.comments)
    ensures CountersKept(old(db.articles), db.articles)
    ensures m == Get ==> r == Render(WriteArticleForm(None)) && db.articles == old(db.articles)
    ensures m == Post && (Strip(Field(form, "title")) == [] || Strip(Field(form, "content")) == []) ==>
      r == Render(WriteArticleForm(Some(MissingFieldsMessage))) && db.articles == old(db.articles)
    ensures m == Post && Strip(Field(form, "title")) != [] && Strip(Field(form, "content")) != [] ==>
      var title := Strip(Field(form, "title"));
      var slug := Candidate(createSlug(title), FirstFreeIndex(old(db.Slugs()), createSlug(title)));
      var image := if upload.Some? && upload.value != [] && AllowedFile(upload.value) then Some(storedName) else None;
      var id := old(db.nextArticleId);
      && id !in old(db.articles)
      && db.articles == old(db.articles)[id := NewArticle(id, title, slug, Strip(Field(form, "content")),
                                                         Some(OrDefault(Field(form, "author"), DefaultAuthor)), image, now)]
      && db.Slugs() == old(db.Slugs()) + {slug}
      && r == Redirect(ArticlePage(slug))
  {
    if m == Get {
      return Render(WriteArticleForm(None));
    }
    var title := Strip(Field(form, "title"));
    var author := OrDefault(Field(form, "author"), DefaultAuthor);
    var content := Strip(Field(form, "content"));
    if title == [] || content == [] {
      return Render(WriteArticleForm(Some(MissingFieldsMessage)));
    }
    var base := createSlug(title);
    var slug, k := ResolveSlug(db, base);
    var image: Option<string> := None;
    if upload.Some? && upload.value != [] && AllowedFile(upload.value) {
      image := Some(storedName);
    }
    var id := db.AddArticle(NewArticle(0, title, slug, content, Some(author), image, now));
    assert NewArticle(0, title, slug, content, Some(author), image, now).(id := id)
        == NewArticle(id, title, slug, content, Some(author), image, now);
    InsertKeepsCounters(old(db.articles), NewArticle(id, title, slug, content, Some(author), image, now));
    r := Redirect(ArticlePage(slug));
  }

  /** `api_like_article`: not found, and nothing changed, for an unknown id;
      otherwise the like count (a missing count reading as 0) goes up by exactly
      one, the row's update instant is refreshed by the column's `onupdate`, no
      other column or row changes, and the reply carries the new count. */
  method ApiLikeArticle(db: Database, articleId: int, now: int) returns (r: Response)
    requires db.Valid()
    modifies db
    ensures db.Valid()
    ensures db.comments == old(db.comments)
    ensures CountersKept(old(db.articles), db.articles)
    ensures articleId !in old(db.articles) ==> r == NotFound && db.articles == old(db.articles)
    ensures articleId in old(db.articles) ==>
      var a := old(db.articles[articleId]);
      && db.articles == old(db.articles)[articleId := a.(likes := Some(Counter(a.likes) + 1), updatedAt := now)]
      && r == Json(200, LikesBody(Counter(a.likes) + 1))
  {
    if articleId !in db.articles {
      return NotFound;
    }
    var a := db.articles[articleId];
    var likes := Counter(a.likes) + 1;
    db.UpdateArticle(a.(likes := Some(likes), updatedAt := now));
    r := Json(200, LikesBody(likes));
  }

  /** `api_dislike_article`: as `api_like_article`, for the dislike count. */
  method ApiDislikeArticle(db: Database, articleId: int, now: int) returns (r: Response)
    requires db.Valid()
    modifies db
    ensures db.Valid()
    ensures db.comments == old(db.comments)
    ensures CountersKept(old(db.articles), db.articles)
    ensures articleId !in old(db.articles) ==> r == NotFound && db.articles == old(db.articles)
    ensures articleId in old(db.articles) ==>
      var a := old(db.articles[articleId]);
      && db.articles == old(db.articles)[articleId := a.(dislikes := Some(Counter(a.dislikes) + 1), updatedAt := now)]
      && r == Json(200, DislikesBody(Counter(a.dislikes) + 1))
  {
    if articleId !in db.articles {
      return NotFound;
    }
    var a := db.articles[articleId];
    var dislikes := Counter(a.dislikes) + 1;
    db.UpdateArticle(a.(dislikes := Some(dislikes), updatedAt := now));
    r := Json(200, DislikesBody(dislikes));
  }

  /** `api_add_comment`: not found for an unknown article (before the body is
      looked at); status 400 with an error and no new comment when the stripped
      body is empty; otherwise exactly one comment is appended, on that article,
      with the stripped body and the stripped author name or "Anonymous", and
      the reply is status 201 with that comment. */
  method ApiAddComment(db: Database, articleId: int, data: map<string, string>, now: int) returns (r: Response)
    requires db.Valid()
    modifies db
    ensures db.Valid()
    ensures db.articles == old(db.articles)
    ensures articleId !in old(db.articles) ==> r == NotFound && db.comments == old(db.comments)
    ensures articleId in old(db.articles) && Strip(Field(data, "body")) == [] ==>
      r == Json(400, ErrorBody(MissingBodyMessage)) && db.comments == old(db.comments)
    ensures articleId in old(db.articles) && Strip(Field(data, "body")) != [] ==>
      && |db.comments| == |old(db.comments)| + 1
      && db.comments[..|old(db.comments)|] == old(db.comments)
      && var c := db.comments[|old(db.comments)|];
      && c == Comment(c.id, articleId, Some(OrDefault(Field(data, "author_name"), AnonymousCommenter)),
                      Strip(Field(data, "body")), now)
      && (forall d :: d in old(db.comments) ==> d.id != c.id)
      && r == Json(201, CommentBody(ToJson(c)))
  {
    if articleId !in db.articles {
      return NotFound;
    }
    var body := Strip(Field(data, "body"));
    var author := CommentAuthor(Field(data, "author_name"));
    if body == [] {
      return Json(400, ErrorBody(MissingBodyMessage));
    }
    var id := db.AddComment(Comment(0, articleId, Some(author), body, now));
    var c := Comment(id, articleId, Some(author), body, now);
    r := Json(201, CommentBody(ToJson(c)));
  }

  /** Liking an article twice raises its like count by exactly two. */
  method LikeTwice(db: Database, articleId: int, t1: int, t2: int)
    requires db.Valid() && articleId in db.articles
    modifies db
    ensures articleId in db.articles
    ensures Counter(db.articles[articleId].likes) == Counter(old(db.articles[articleId].likes)) + 2
  {
    var _ := ApiLikeArticle(db, articleId, t1);
    var _ := ApiLikeArticle(db, articleId, t2);
  }

  /** Two public submissions with the same title, when no candidate slug for it is
      stored yet: the first article gets the base slug, the second `base-1`. */
  method SubmitSameTitleTwice(db: Database, form: map<string, string>, createSlug: string -> string, t1: int, t2: int)
    returns (first: Response, second: Response)
    requires db.Valid()
    requires Strip(Field(form, "title")) != [] && Strip(Field(form, "content")) != []
    requires forall j :: 0 <= j ==> Candidate(createSlug(Strip(Field(form, "title"))), j) !in db.Slugs()
    modifies db
    ensures var base := createSlug(Strip(Field(form, "title")));
      first == Redirect(ArticlePage(base)) && second == Redirect(ArticlePage(base + "-1"))
  {
    ghost var base := createSlug(Strip(Field(form, "title")));
    ghost var taken := db.Slugs();
    SameTitleTwice(taken, base);
    FirstFreeBound(taken, base, FirstFreeIndex(taken, base), 0);
    FirstFreeBound(taken + {base}, base, FirstFreeIndex(taken + {base}, base), 1);
    first := WriteArticle(db, Post, form, None, "", createSlug, t1);
    second := WriteArticle(db, Post, form, None, "", createSlug, t2);
  }
}
