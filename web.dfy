/**
 What a handler hands back to the framework, as values: a rendered page, a
 redirect, a JSON body with its status, or a not-found failure; and the way
 handlers read submitted fields.
 */
module Web {
  import opened Models

  /** Redirect targets. `Url` is a caller-supplied address (the `next` argument of login). */
  datatype Location =
    | ArticlePage(slug: string)
    | HomePage
    | AdminLoginPage(next: string)
    | AdminDashboardPage
    | Url(url: string)

  datatype FormAction = CreateAction | EditAction

  /** Rendered templates with the values they are given. */
  datatype View =
    | IndexPage(articles: seq<Article>)
    | BlogPage(articles: seq<Article>)
    | DashboardPage(articles: seq<Article>)
    | ArticleDetailPage(article: Article, comments: seq<Comment>)
    | WriteArticleForm(error: Option<string>)
    | LoginForm
    | AdminArticleForm(action: FormAction, editing: Option<Article>)

  /** The JSON object a comment is serialised to. */
  datatype CommentJson = CommentJson(id: int, authorName: Option<string>, body: string, createdAt: int)

  datatype JsonBody =
    | LikesBody(likes: int)
    | DislikesBody(dislikes: int)
    | CommentListBody(items: seq<CommentJson>)
    | CommentBody(item: CommentJson)
    | ErrorBody(error: string)

  datatype Response =
    | Render(view: View)
    | Redirect(to: Location)
    | Json(status: int, body: JsonBody)
    | NotFound

  datatype HttpMethod = Get | Post

  /** `form.get(key, "")`, and equally `form.get(key) or ""`: a missing field reads as empty. */
  function Field(form: map<string, string>, key: string): string {
    if key in form then form[key] else ""
  }

  function ToJson(c: Comment): CommentJson {
    CommentJson(c.id, c.authorName, c.body, c.createdAt)
  }
}
