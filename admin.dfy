/**
 The administrator's handlers. The session holds one flag, set by a login
 with the configured credentials and cleared by logout; every handler except
 login runs only when the flag is set and otherwise redirects to the login
 page, carrying the requested address as `next`.
 */
module Admin {
  import opened Text
  import opened Models
  import opened Db
  import opened Web
  import Routes

  /** The signed session cookie's one entry, `admin_logged_in`. */
  class Session {
    var adminLoggedIn: bool

    /** A browser without a session: not logged in. */
    constructor ()
      ensures !adminLoggedIn
    {
      adminLoggedIn := false;
    }
  }

  /** The two configured credentials, `ADMIN_USERNAME` and `ADMIN_PASSWORD`. */
  datatype Config = Config(adminUsername: string, adminPassword: string)

  /** `login_required`: `None` lets the wrapped view run; otherwise the reply is
      the redirect to the login page with `next` set to the requested address. */
  function LoginRequired(loggedIn: bool, url: string): (guard: Option<Response>)
    ensures guard.None? <==> loggedIn
    ensures guard.Some? ==> guard.value.Redirect? && guard.value.to == AdminLoginPage(url)
  {
    if !loggedIn then Some(Redirect(AdminLoginPage(url))) else None
  }

  /** Both submitted credentials equal the configured ones. */
  predicate CredentialsMatch(form: map<string, string>, cfg: Config) {
    Field(form, "username") == cfg.adminUsername && Field(form, "password") == cfg.adminPassword
  }

  /** Where a successful login goes: the `next` argument when it is given and
      non-empty, the dashboard otherwise. */
  function AfterLogin(args: map<string, string>): Location {
    if Field(args, "next") != [] then Url(Field(args, "next")) else AdminDashboardPage
  }

  /** `login`. A GET shows the form. A POST with both credentials right sets the
      flag and redirects; with either wrong, the flag stays as it was and the
      form is shown again. */
  method Login(session: Session, m: HttpMethod, form: map<string, string>, args: map<string, string>, cfg: Config)
    returns (r: Response)
    modifies session
    ensures m == Post && CredentialsMatch(form, cfg) ==> session.adminLoggedIn && r == Redirect(AfterLogin(args))
    ensures !(m == Post && CredentialsMatch(form, cfg)) ==>
      session.adminLoggedIn == old(session.adminLoggedIn) && r == Render(LoginForm)
  {
    if m == Post {
      var username := Field(form, "username");
      var password := Field(form, "password");
      if username == cfg.adminUsername && password == cfg.adminPassword {
        session.adminLoggedIn := true;
        return Redirect(AfterLogin(args));
      }
    }
    r := Render(LoginForm);
  }

  /** `logout` (behind `login_required`): clears the flag and redirects home. */
  method Logout(session: Session, url: string) returns (r: Response)
    modifies session
    ensures !old(session.adminLoggedIn) ==> r == Redirect(AdminLoginPage(url)) && !session.adminLoggedIn
    ensures old(session.adminLoggedIn) ==> r == Redirect(HomePage) && !session.adminLoggedIn
  {
    var guard := LoginRequired(session.adminLoggedIn, url);
    if guard.Some? {
      return guard.value;
    }
    session.adminLoggedIn := false;
    r := Redirect(HomePage);
  }

  /** `dashboard` (behind `login_required`): every stored article once, newest first. */
  function Dashboard(db: Database, loggedIn: bool, url: string): (r: Response)
    reads db
    requires db.Valid()
    ensures !loggedIn ==> r == Redirect(AdminLoginPage(url))
    ensures loggedIn ==>
      && r.Render? && r.view.DashboardPage?
      && (forall a :: a in r.view.articles <==> Stored(db.articles, a))
      && (forall a :: multiset(r.view.articles)[a] <= 1)
      && (forall i, j :: 0 <= i < j < |r.view.articles| ==> r.view.articles[i].createdAt >= r.view.articles[j].createdAt)
  {
    match LoginRequired(loggedIn, url)
    case Some(redirect) => redirect
    case None => Render(DashboardPage(Routes.Blog(db)))
  }

  /** The form fields of the article form, stripped. */
  function FormText(form: map<string, string>, key: string): string {
    Strip(Field(form, key))
  }

  /** One of the stripped title, slug and content is empty. */
  predicate MissingField(form: map<string, string>) {
    FormText(form, "title") == [] || FormText(form, "slug") == [] || FormText(form, "content") == []
  }

  /** `create_article` (behind `login_required`). Nothing is stored when the
      flag is not set, on a GET, when the stripped title, slug or content is
      empty, or when the slug is already held; those show the form (or the
      login redirect). Otherwise exactly one article is added with the stripped
      values and every other column at its default, and the reply redirects to
      the dashboard. */
  method CreateArticle(db: Database, session: Session, url: string, m: HttpMethod,
                       form: map<string, string>, now: int) returns (r: Response)
    requires db.Valid()
    modifies db
    ensures db.Valid()
    ensures db.comments == old(db.comments)
    ensures CountersKept(old(db.articles), db.articles)
    ensures !session.adminLoggedIn ==> r == Redirect(AdminLoginPage(url)) && db.articles == old(db.articles)
    ensures session.adminLoggedIn && (m == Get || MissingField(form) || FormText(form, "slug") in old(db.Slugs())) ==>
      r == Render(AdminArticleForm(CreateAction, None)) && db.articles == old(db.articles)
    ensures session.adminLoggedIn && m == Post && !MissingField(form) && FormText(form, "slug") !in old(db.Slugs()) ==>
      && r == Redirect(AdminDashboardPage)
      && var id := old(db.nextArticleId);
      && id !in old(db.articles)
      && db.articles == old(db.articles)[id := NewArticle(id, FormText(form, "title"), FormText(form, "slug"),
                                                         FormText(form, "content"), None, None, now)]
  {
    var guard := LoginRequired(session.adminLoggedIn, url);
    if guard.Some? {
      return guard.value;
    }
    if m == Get {
      return Render(AdminArticleForm(CreateAction, None));
    }
    var title := FormText(form, "title");
    var slug := FormText(form, "slug");
    var content := FormText(form, "content");
    if title == [] || slug == [] || content == [] {
      return Render(AdminArticleForm(CreateAction, None));
    }
    if slug in db.Slugs() {
      return Render(AdminArticleForm(CreateAction, None));
    }
    var id := db.AddArticle(NewArticle(0, title, slug, content, None, None, now));
    assert NewArticle(0, title, slug, content, None, None, now).(id := id)
        == NewArticle(id, title, slug, content, None, None, now);
    InsertKeepsCounters(old(db.articles), NewArticle(id, title, slug, content, None, None, now));
    r := Redirect(AdminDashboardPage);
  }

  /** The slug check of `edit_article` looks up the article holding the slug and
      rejects only when that is a different article: with unique slugs, this is
      rejecting exactly the slugs that are in use and are not the edited
      article's own. */
  lemma EditSlugCheck(articles: map<int, Article>, id: int, slug: string)
    requires SlugsUnique(articles) && id in articles
    ensures SlugHeldByOther(articles, slug, id) <==> slug in SlugSet(articles) && slug != articles[id].slug
  {
    if slug in SlugSet(articles) && slug != articles[id].slug {
      var k :| k in articles && articles[k].slug == slug;
      assert k != id;
    }
  }

  /** `edit_article` (behind `login_required`). Not found for an unknown id.
      Nothing changes when the flag is not set, on a GET, when the stripped
      title, slug or content is empty, or when a different article holds the
      slug; the article's own slug is accepted. Otherwise only that article's
      title, slug, content and update instant change, and the reply redirects
      to the dashboard. */
  method EditArticle(db: Database, session: Session, url: string, articleId: int, m: HttpMethod,
                     form: map<string, string>, now: int) returns (r: Response)
    requires db.Valid()
    modifies db
    ensures db.Valid()
    ensures db.comments == old(db.comments)
    ensures CountersKept(old(db.articles), db.articles)
    ensures !session.adminLoggedIn ==> r == Redirect(AdminLoginPage(url)) && db.articles == old(db.articles)
    ensures session.adminLoggedIn && articleId !in old(db.articles) ==> r == NotFound && db.articles == old(db.articles)
    ensures session.adminLoggedIn && articleId in old(db.articles) &&
            (m == Get || MissingField(form) || SlugHeldByOther(old(db.articles), FormText(form, "slug"), articleId)) ==>
      r == Render(AdminArticleForm(EditAction, Some(old(db.articles[articleId])))) && db.articles == old(db.articles)
    ensures session.adminLoggedIn && articleId in old(db.articles) && m == Post && !MissingField(form) &&
            !SlugHeldByOther(old(db.articles), FormText(form, "slug"), articleId) ==>
      && r == Redirect(AdminDashboardPage)
      && db.articles == old(db.articles)[articleId := old(db.articles[articleId]).(
           title := FormText(form, "title"), slug := FormText(form, "slug"),
           content := FormText(form, "content"), updatedAt := now)]
  {
    var guard := LoginRequired(session.adminLoggedIn, url);
    if guard.Some? {
      return guard.value;
    }
    if articleId !in db.articles {
      return NotFound;
    }
    var article := db.articles[articleId];
    if m == Get {
      return Render(AdminArticleForm(EditAction, Some(article)));
    }
    var title := FormText(form, "title");
    var slug := FormText(form, "slug");
    var content := FormText(form, "content");
    if title == [] || slug == [] || content == [] {
      return Render(AdminArticleForm(EditAction, Some(article)));
    }
    if SlugHeldByOther(db.articles, slug, articleId) {
      return Render(AdminArticleForm(EditAction, Some(article)));
    }
    db.UpdateArticle(article.(title := title, slug := slug, content := content, updatedAt := now));
    r := Redirect(AdminDashboardPage);
  }

  /** `delete_article` (behind `login_required`). Not found, and nothing
      changed, for an unknown id. Otherwise the article goes and so does every
      comment on it, the other articles and comments stay, and the reply
      redirects to the dashboard. */
  method DeleteArticle(db: Database, session: Session, url: string, articleId: int) returns (r: Response)
    requires db.Valid()
    modifies db
    ensures db.Valid()
    ensures CountersKept(old(db.articles), db.articles)
    ensures !session.adminLoggedIn ==> r == Redirect(AdminLoginPage(url)) && unchanged(db)
    ensures session.adminLoggedIn && articleId !in old(db.articles) ==> r == NotFound && unchanged(db)
    ensures session.adminLoggedIn && articleId in old(db.articles) ==>
      && r == Redirect(AdminDashboardPage)
      && db.articles == old(db.articles) - {articleId}
      && db.comments == CommentsNotOf(old(db.comments), articleId)
      && (forall c :: c in db.comments <==> c in old(db.comments) && c.articleId != articleId)
  {
    var guard := LoginRequired(session.adminLoggedIn, url);
    if guard.Some? {
      return guard.value;
    }
    if articleId !in db.articles {
      return NotFound;
    }
    db.DeleteArticle(articleId);
    r := Redirect(AdminDashboardPage);
  }

  /** After a successful login the dashboard is served instead of the login redirect. */
  method LoginThenDashboard(db: Database, session: Session, form: map<string, string>, cfg: Config, url: string)
    returns (r: Response)
    requires db.Valid() && CredentialsMatch(form, cfg)
    modifies session
    ensures r.Render? && r.view.DashboardPage?
  {
    var _ := Login(session, Post, form, map[], cfg);
    r := Dashboard(db, session.adminLoggedIn, url);
  }
}
