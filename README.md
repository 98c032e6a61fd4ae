# A verified model of the blog's article and comment store

The blog keeps two tables, `article` and `comment`. Visitors read articles,
like or dislike them, comment on them through a small JSON API, and submit
new articles through a public form. An administrator logs in with
configured credentials and creates, edits and deletes articles.

This project models that store and the rules the request handlers enforce
on it:

- The tables are a class `Db.Database`. It holds a map from primary key to
  `Article` row, a sequence of `Comment` rows and the two key counters.
- `Db.Database.Valid` is the invariant every handler keeps:
  - slugs are unique;
  - every row is stored under its own key;
  - titles, contents and comment bodies are non-empty;
  - counters are not negative;
  - every comment names a stored article;
  - comment keys are distinct.
- Each handler is a method or function over the tables and returns a
  `Web.Response` value: a rendered view, a redirect, a JSON body with a
  status, or not-found.
- The admin session is a class `Admin.Session` with the one flag
  `admin_logged_in`.
- The modules follow the source:
  - `Models` holds the rows, the column defaults and the table invariants (`app/models.py`).
  - `Db` holds the tables and the add, update and delete commits.
  - `Routes` holds the public handlers (`app/routes.py`).
  - `Admin` holds the admin handlers (`app/admin_routes.py`).
  - `Text` holds `str.strip`, `str.lower`, decimal rendering and the last-dot split.
  - `Ordering` holds `ORDER BY` as a sort by an integer key.
  - `Slugs` holds the slug candidates `base`, `base-1`, `base-2`, ….
  - `Web` holds the response values.
- Three inputs are parameters:
  - `create_slug` (python-slugify) is an arbitrary function from string to string. It may return an empty string, which the public path stores as is.
  - The name an uploaded image is saved under.
  - The current instant (`datetime.utcnow()`), an integer.

The defaults and the order of checks are the code's:

- The default article author is "Anonyme" (`app/models.py:11`, `app/routes.py:67`), and the default category is "Général".
- The default comment author is "Anonymous".
- `api_add_comment` answers not-found for an unknown article before it looks at the body.
- A like or dislike also refreshes the row's `updated_at`, because the column has `onupdate=datetime.utcnow` (`app/models.py:16`). No other column changes.

## Model

| member | source | states |
|---|---|---|
| Text.Strip | app/routes.py:66-68 | `s.strip()` (whitespace being Python's `str.isspace` set): the result is empty exactly when `s` is blank, and otherwise starts and ends with a non-space |
| Text.StripSlice | app/routes.py:66-68 | strip removes whitespace only: `s` is blank text, then the result, then blank text |
| Text.StripUnpadded | app/routes.py:169 | text with no surrounding whitespace is left unchanged by strip |
| Text.StripIdempotent | app/routes.py:66-68 | a property of `str.strip` itself: stripping twice gives what stripping once gives (no handler strips a field twice) |
| Text.ToLower | app/routes.py:15 | lower-casing keeps the length and lower-cases each character in place |
| Text.LastDot | app/routes.py:15 | the split point of `rsplit('.', 1)` is a '.' with no '.' after it |
| Text.LastDotUnique | app/routes.py:15 | a string has only one last '.' |
| Text.NatToString | app/routes.py:82 | the counter of a slug suffix is rendered as at least one decimal digit, with no leading zero |
| Text.ParseNatToString | app/routes.py:82 | reading the decimal rendering of `n` back gives `n` |
| Text.NatToStringInjective | app/routes.py:82 | distinct counters give distinct suffixes |
| Ordering.SortBy | app/routes.py:30 | `ORDER BY key`: the result is sorted by the key and is a permutation of the input (same multiset, same length) |
| Ordering.Insert | app/routes.py:30 | inserting into a sorted list keeps it sorted, grows it by one, and brings in no element but the inserted one |
| Ordering.InsertPermutes | app/routes.py:30 | inserting adds exactly that element: every other element is kept as often as before |
| Ordering.PermutationMembers | app/routes.py:30 | a permutation has the same members as the original |
| Routes.AllowedFile | app/routes.py:12-15 | the upload check, as written: a '.' is present and the lower-cased text after the last '.' is an allowed extension |
| Routes.AllowedFileSpec | app/routes.py:12-15 | `allowed_file(f)` holds iff `f` has a last '.' whose following text, lower-cased, is one of png, jpg, jpeg, gif, webp |
| Routes.CommentAuthor | app/routes.py:169 | `(author_name or "Anonymous").strip() or "Anonymous"` is the stripped name, or "Anonymous" when that is empty |
| Routes.Blog | app/routes.py:26-31 | every stored article, each exactly once, nothing else, newest first |
| Routes.Newest | app/routes.py:22 | `.limit(n)` on a newest-first listing: at most `n` articles, the whole listing when fewer, nothing added or repeated, order kept, and an article left out is no newer than any article kept |
| Routes.Index | app/routes.py:18-23 | at most six stored articles, each at most once, newest first; all of them when fewer than six are listed; an article left out is no newer than any article shown |
| Routes.FirstWithSlug | app/routes.py:38 | `filter_by(slug=slug).first()`: a row holding the slug, or none when no row holds it |
| Routes.ArticleDetail | app/routes.py:34-44 | not found iff no stored article holds the slug; otherwise that stored article and exactly its comments, each as often as it is stored (same multiset, same count), oldest first |
| Routes.CommentsJson | app/routes.py:149-157 | one JSON object per comment, in the same order |
| Routes.ApiGetComments | app/routes.py:139-158 | not found iff the article is unknown; otherwise status 200 and exactly the JSON objects of the article's comments, oldest first |
| Routes.ListedCommentsJson | app/routes.py:143-158 | the JSON array of a sorted permutation of the article's comments holds each of them, nothing else, in ascending creation order |
| Routes.ResolveSlug | app/routes.py:77-83 | the loop finds the candidate `FirstFreeIndex` names: the result is held by no article, every earlier candidate `base`, `base-1`, … is held, and the loop runs at most as many times as there are stored slugs |
| Routes.WriteArticle | app/routes.py:61-116 | GET stores nothing. A blank stripped title or content stores nothing and shows the form with the error. Otherwise exactly one article is added under a key no row holds (the model's next article key), with the stripped title and content, the stripped author or "Anonyme", the image only for an allowed non-empty file name, the first free slug candidate (`FirstFreeIndex`) and the column defaults; the other articles are unchanged; it redirects to the new slug; the table invariant holds |
| Routes.ApiLikeArticle | app/routes.py:119-126 | an unknown id gives not-found and changes nothing; otherwise that article's likes (null read as 0) rise by exactly one, only its `updated_at` also changes, and the reply is the new count |
| Routes.ApiDislikeArticle | app/routes.py:129-136 | the same for dislikes |
| Routes.LikeTwice | app/routes.py:119-126 | two likes raise the count by exactly two |
| Routes.ApiAddComment | app/routes.py:161-188 | an unknown article gives not-found and no comment; a blank stripped body gives 400 with the error and no comment; otherwise exactly one comment is appended, on that article, under a fresh key, with the stripped body and the author name or "Anonymous", and the reply is 201 with that comment |
| Routes.SubmitSameTitleTwice | app/routes.py:79-83 | two submissions of one title, when no candidate slug is stored, get `base` and then `base-1` |
| Slugs.CandidateInjective | app/routes.py:82 | distinct attempt numbers give distinct candidate slugs |
| Slugs.CandidatesCount | app/routes.py:79-83 | the first `n` candidates are `n` different strings |
| Slugs.CandidatesBounded | app/routes.py:81-83 | if the first `n` candidates are all taken, at least `n` slugs are stored: the loop terminates |
| Slugs.FirstFreeFrom | app/routes.py:79-83 | searching from attempt `j` when every earlier one is taken gives the first free candidate, at an index no larger than the number of stored slugs: the search ends |
| Slugs.FirstFreeIndex | app/routes.py:79-83 | the first free candidate's index: that candidate is free, every earlier one is taken, and the index is at most the number of stored slugs |
| Slugs.FirstFreeBound | app/routes.py:79-83 | the first free candidate is unique and has index at most the number of stored slugs |
| Slugs.SameTitleTwice | app/routes.py:79-83 | on a store with no candidate taken, `base` is first free; once `base` is stored, `base-1` is |
| Models.NewArticleDefaults | app/models.py:11-18 | a new row with non-empty title and content meets the row invariant; likes and dislikes start at 0; the author is the given one or "Anonyme"; category "Général"; tags ""; the image may be null; both timestamps are the insertion instant |
| Models.TableScan | app/models.py:7 | a scan by primary key lists each row stored in the key range once and nothing else |
| Models.CommentsOf | app/routes.py:144-146 | `filter_by(article_id=...)`: exactly the comments on that article |
| Models.CommentsNotOf | app/models.py:20-25 | what survives the cascade: exactly the comments not on that article |
| Models.UniqueTail | app/models.py:32 | the comments after the first of a list with distinct keys have distinct keys, none of them the first one's |
| Models.UniqueCons | app/models.py:32 | a comment whose key a list with distinct keys lacks can join it and keep the keys distinct |
| Models.CommentsNotOfKeepsIdsUnique | app/models.py:32 | the cascade keeps comment primary keys distinct |
| Models.InsertKeepsConsistent | app/models.py:9 | inserting a well-formed article with a free slug and fresh key keeps the invariant and adds exactly its slug to the slugs in use |
| Models.InsertKeepsCounters | app/models.py:17-18 | a row stored under a fresh key lowers no counter of the rows already there |
| Models.ReplaceKeepsConsistent | app/models.py:9 | rewriting an article with a slug no other article holds keeps the invariant |
| Models.CascadeKeepsConsistent | app/models.py:20-25 | deleting an article together with its comments keeps the invariant; deleting it alone would leave a comment without its article whenever it had one |
| Models.AppendCommentKeepsConsistent | app/models.py:31-36 | a comment with a fresh key, a non-empty body and a stored article keeps the invariant |
| Db.Database.constructor | app/models.py:6-39 | empty tables satisfy the invariant |
| Db.Database.Rows | app/models.py:7 | every stored article exactly once |
| Db.Database.AddArticle | app/routes.py:111-112 | the row is stored under the model's next article key, a key no row holds; the other rows are unchanged, the slug set grows by its slug, and the invariant holds |
| Db.Database.UpdateArticle | app/routes.py:124-125 | only that row changes, and the invariant holds |
| Db.Database.AddComment | app/routes.py:174-176 | the comment is appended under a fresh key, and the invariant holds |
| Db.Database.DeleteArticle | app/admin_routes.py:147-149 | the article goes, exactly its comments go, the rest keep their order, and the invariant holds |
| Admin.Session.constructor | app/admin_routes.py:27 | a session without the flag is not logged in |
| Admin.LoginRequired | app/admin_routes.py:22-31 | the view runs iff the flag is set; otherwise the reply redirects to login with `next` set to the requested address |
| Admin.Login | app/admin_routes.py:34-51 | the flag is set iff it is a POST whose username and password both match the configuration; then it redirects to a non-empty `next`, else to the dashboard; otherwise the flag is unchanged and the form is shown |
| Admin.Logout | app/admin_routes.py:54-61 | when logged in, clears the flag and redirects home; otherwise redirects to login |
| Admin.Dashboard | app/admin_routes.py:64-70 | when logged in, every stored article once, newest first; otherwise the login redirect |
| Admin.LoginThenDashboard | app/admin_routes.py:38-47 | after a login with the right credentials the dashboard is served |
| Admin.CreateArticle | app/admin_routes.py:73-98 | not logged in, GET, a blank stripped title, slug or content, or a slug already held: nothing is stored. Otherwise exactly one article with the stripped values and the column defaults is added under a key no row holds (the model's next article key) and it redirects to the dashboard. Counters never drop and the invariant holds |
| Admin.EditSlugCheck | app/admin_routes.py:121-122 | with unique slugs, the check rejects exactly the slugs in use that are not the edited article's own |
| Admin.EditArticle | app/admin_routes.py:101-139 | not logged in: nothing changes. Unknown id: not-found. GET, blank fields or a slug held by a different article: nothing changes and the form shows the article. Otherwise only that article's title, slug, content and `updated_at` change (likes, dislikes, author and comments are untouched) and the invariant, slug uniqueness included, holds |
| Admin.DeleteArticle | app/admin_routes.py:142-152 | not logged in or an unknown id: nothing changes. Otherwise the article and exactly its comments are removed, everything else stays, and it redirects to the dashboard |

## Left out

- Templates and `flash` messages are left out. A rendered page is a `View` value holding what the template is given, and the message text is dropped. The one exception is the public form's error, which is kept.
- `url_for` is left out. Redirect targets are the `Location` values.
- Framework routing is left out: the 405 for a method a route does not accept, and the `int:` conversion of path arguments.
- The `about` and `contact` pages are left out. They only render a template.
- Saving the uploaded image is left out: `secure_filename`, the `time.time()` prefix, `os.makedirs` and `file.save`. The stored file name is a parameter, used only when an allowed file was sent.
- `create_slug` (python-slugify) is left out. It is a parameter, so every property holds whatever it returns.
- Date arithmetic and the `isoformat()` text of `created_at` are left out. Instants are integers supplied by the caller, and the JSON carries the integer.
- The request body of `api_add_comment` is a map from string to string, and an empty body (JSON `null`, `{}`, `[]`, `""`, `0`, `false`) reads as `{}` through `or {}` (`app/routes.py:166`). The error replies of body parsing are left out: the 415 or 400 that `get_json()` gives for a request without a JSON content type or with malformed JSON, the 500 from `data.get` on a non-empty body that is not an object (`[1]`, `"x"`, `true`, `2`), and bodies whose `body` or `author_name` is not a string.
- Text.ToLower: only ASCII letters are lowered, where Python's `str.lower()` covers all of Unicode. This does not change `allowed_file`, because no other lower-case mapping produces one of the allowed extensions.
- The `String(n)` length limits of the columns are left out. SQLite does not enforce them and no handler checks them.
- Db.Database.AddArticle: keys come from a counter that never hands out a value twice. The columns are `db.Integer, primary_key=True` without AUTOINCREMENT (`app/models.py:7`, `app/models.py:32`), so SQLite assigns the largest stored key plus one and reuses the key of a deleted newest row. The contracts promise a key no stored row holds; the exact key they name is the model's counter value, so after deletions the article ids in the `/api/articles/<article_id>/…` and `/admin/articles/<article_id>/…` addresses can differ from the source's. This applies to the article keys of `Routes.WriteArticle` and `Admin.CreateArticle`, and to the comment keys of `Db.Database.AddComment` and `Routes.ApiAddComment`.
- The read-modify-write race on the counters under concurrent requests, and commit failures, are left out.
- Equal creation instants are left out. For articles with the same `created_at`, `ORDER BY` leaves their order to the database. The model lists them in primary-key order, and its contracts state only the order by `created_at`.
- The browser script, application assembly, configuration lookup and the server launch are left out. The configured credentials are a `Config` value.
