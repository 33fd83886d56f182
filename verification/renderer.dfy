/**
  * The output stage of the article site (src/renderer.rs): the index page is
  * rendered once and written to two paths, then every article is rendered
  * with the article template and written under `dist/blog`. The template
  * engine is a parameter; what is modelled is the sequence of writes and
  * where a failure stops it.
  */
module Renderer {
  import opened Results
  import opened Text
  import opened Slugs
  import opened Files
  import opened Blog

  const SiteTitle: String := "matx.dev"
  const DistIndexPath: Path := "dist/index.html"
  const DistBlogIndexPath: Path := "dist/blog/index.html"
  const ArticleTemplateName: String := "article.html"
  const BlogDir: Path := "dist/blog/"
  const HtmlSuffix: String := ".html"

  /** Where an article's page goes. */
  function ArticlePath(slug: String): Path {
    BlogDir + slug + HtmlSuffix
  }

  /** A value a template can see. */
  datatype Value = StrValue(text: String) | ArticleList(articles: seq<Article>)

  type Context = map<String, Value>

  /** The template engine: its registered templates by name, and rendering
      a template source with a context, which may fail. */
  datatype Engine = Engine(
    templates: map<String, String>,
    render: (String, Context) -> Option<String>)

  datatype RenderError =
    | IndexTemplateUnreadable
    | IndexRenderFailed
    | ArticleTemplateMissing
    | ArticleRenderFailed(position: nat)

  /** The writes performed, in order, and the failure that ended the run
      early, if one did. Writes made before a failure stay on disk. */
  datatype Outcome = Outcome(writes: seq<Write>, failure: Option<RenderError>)

  function IndexContext(articles: seq<Article>): Context {
    map["title" := StrValue(SiteTitle), "articles" := ArticleList(articles)]
  }

  function ArticleContext(a: Article): Context {
    map["title" := StrValue(a.title), "date" := StrValue(a.date), "body" := StrValue(a.body)]
  }

  /** Renders the index template once and writes the same page to the site
      root and to the blog directory. */
  function RenderIndex(engine: Engine, indexSource: Option<String>, articles: seq<Article>): (o: Outcome)
    ensures o.failure == Some(IndexTemplateUnreadable) <==> indexSource.None?
    ensures o.failure == Some(IndexRenderFailed) <==>
              indexSource.Some? && engine.render(indexSource.value, IndexContext(articles)).None?
    ensures o.failure.None? <==> o.writes != []
    ensures o.failure.None? <==>
              indexSource.Some? && engine.render(indexSource.value, IndexContext(articles)).Some?
    ensures o.failure.None? ==>
              var page := engine.render(indexSource.value, IndexContext(articles)).value;
              o.writes == [Write(DistIndexPath, page), Write(DistBlogIndexPath, page)]
  {
    match indexSource
    case None => Outcome([], Some(IndexTemplateUnreadable))
    case Some(source) =>
      match engine.render(source, IndexContext(articles))
      case None => Outcome([], Some(IndexRenderFailed))
      case Some(page) => Outcome([Write(DistIndexPath, page), Write(DistBlogIndexPath, page)], None)
  }

  /** The write for one article, when its page renders. */
  function ArticleWrite(engine: Engine, source: String, a: Article): Option<Write> {
    match engine.render(source, ArticleContext(a))
    case None => None
    case Some(page) => Some(Write(ArticlePath(a.slug), page))
  }

  /** The loop of `render_blog`: one write per article, in order, until the
      first article whose page fails to render. */
  function RenderArticles(engine: Engine, source: String, articles: seq<Article>): (o: Outcome)
    ensures |o.writes| <= |articles|
    ensures forall i :: 0 <= i < |o.writes| ==> ArticleWrite(engine, source, articles[i]) == Some(o.writes[i])
    ensures o.failure.None? <==> |o.writes| == |articles|
    ensures o.failure.Some? ==>
              o.failure == Some(ArticleRenderFailed(|o.writes|)) &&
              ArticleWrite(engine, source, articles[|o.writes|]).None?
  {
    if articles == [] then Outcome([], None)
    else
      match ArticleWrite(engine, source, articles[0])
      case None => Outcome([], Some(ArticleRenderFailed(0)))
      case Some(w) =>
        var rest := RenderArticles(engine, source, articles[1..]);
        var failure := match rest.failure
          case Some(ArticleRenderFailed(k)) => Some(ArticleRenderFailed(k + 1))
          case other => other;
        Outcome([w] + rest.writes, failure)
  }

  /** Looks the article template up, then renders every article. */
  function RenderBlog(engine: Engine, articles: seq<Article>): (o: Outcome)
    ensures o.failure == Some(ArticleTemplateMissing) <==> ArticleTemplateName !in engine.templates
    ensures o.failure == Some(ArticleTemplateMissing) ==> o.writes == []
    ensures ArticleTemplateName in engine.templates ==>
              o == RenderArticles(engine, engine.templates[ArticleTemplateName], articles)
  {
    if ArticleTemplateName !in engine.templates then Outcome([], Some(ArticleTemplateMissing))
    else RenderArticles(engine, engine.templates[ArticleTemplateName], articles)
  }

  /** The index and then the blog, as the generator runs them; a failure in
      the index stops the run before any article. */
  function RenderSite(engine: Engine, indexSource: Option<String>, articles: seq<Article>): (o: Outcome)
    ensures RenderIndex(engine, indexSource, articles).failure.Some? ==>
              o == RenderIndex(engine, indexSource, articles)
    ensures RenderIndex(engine, indexSource, articles).failure.None? ==>
              o.writes == RenderIndex(engine, indexSource, articles).writes + RenderBlog(engine, articles).writes &&
              o.failure == RenderBlog(engine, articles).failure
  {
    var index := RenderIndex(engine, indexSource, articles);
    if index.failure.Some? then index
    else
      var blog := RenderBlog(engine, articles);
      Outcome(index.writes + blog.writes, blog.failure)
  }

  /** The page an article renders to; only meaningful when it renders. */
  function Page(engine: Engine, source: String, a: Article): String
    requires ArticleWrite(engine, source, a).Some?
  {
    ArticleWrite(engine, source, a).value.contents
  }

  lemma ConcatCancel(a: String, s: String, t: String, b: String)
    requires a + s + b == a + t + b
    ensures s == t
  {
    assert |s| == |t|;
    assert s == (a + s + b)[|a|..|a| + |s|];
    assert t == (a + t + b)[|a|..|a| + |t|];
  }

  /** An article page lands on the blog index exactly when its slug is
      `index`, and never on the site index. */
  lemma ArticlePathClash(slug: String)
    ensures ArticlePath(slug) == DistBlogIndexPath <==> slug == "index"
    ensures ArticlePath(slug) != DistIndexPath
  {
    assert DistBlogIndexPath == BlogDir + "index" + HtmlSuffix;
    if ArticlePath(slug) == DistBlogIndexPath {
      ConcatCancel(BlogDir, slug, "index", HtmlSuffix);
    }
    assert ArticlePath(slug)[5] == BlogDir[5] != DistIndexPath[5];
  }

  /** Distinct slugs give distinct paths. */
  lemma ArticlePathInjective(s: String, t: String)
    requires ArticlePath(s) == ArticlePath(t)
    ensures s == t
  {
    ConcatCancel(BlogDir, s, t, HtmlSuffix);
  }

  /** The page of an article is a direct child of `dist/blog`: with a slug
      as `Slug` makes it, the file name holds no `/`. */
  lemma ArticlePathIsChild(title: String)
    ensures ArticlePath(Slug(title)) == BlogDir + Slug(title) + HtmlSuffix
    ensures '/' !in Slug(title) + HtmlSuffix
  {
    var slug := Slug(title);
    assert forall i :: 0 <= i < |slug| ==> IsSlugChar(slug[i]);
    assert '/' !in slug;
    assert '/' !in HtmlSuffix;
  }

  /** An empty slug still produces a page, named only by its extension. */
  lemma EmptySlugPath()
    ensures ArticlePath("") == "dist/blog/.html"
  {
  }

  /** The article context carries title, date and body, and not the slug. */
  lemma ArticleContextIgnoresSlug(a: Article, slug: String)
    ensures ArticleContext(a.(slug := slug)) == ArticleContext(a)
    ensures ArticleContext(a).Keys == {"title", "date", "body"}
  {
  }

  /** The paths a run may write: the two index paths and one page per
      article slug. */
  predicate KnownPath(articles: seq<Article>, p: Path) {
    p == DistIndexPath || p == DistBlogIndexPath ||
    exists i :: 0 <= i < |articles| && p == ArticlePath(articles[i].slug)
  }

  lemma {:induction false} ArticleWritesKnown(engine: Engine, source: String, articles: seq<Article>)
    ensures forall i :: 0 <= i < |RenderArticles(engine, source, articles).writes| ==>
              RenderArticles(engine, source, articles).writes[i].path == ArticlePath(articles[i].slug)
  {
    var o := RenderArticles(engine, source, articles);
    forall i | 0 <= i < |o.writes|
      ensures o.writes[i].path == ArticlePath(articles[i].slug)
    {
      assert ArticleWrite(engine, source, articles[i]) == Some(o.writes[i]);
    }
  }

  /** A run writes nothing but the known paths, so every other file keeps
      its contents. */
  lemma OnlyKnownPathsWritten(engine: Engine, indexSource: Option<String>, articles: seq<Article>, fs: FileMap, p: Path)
    requires !KnownPath(articles, p)
    ensures var after := Apply(fs, RenderSite(engine, indexSource, articles).writes);
            (p in after <==> p in fs) && (p in fs ==> after[p] == fs[p])
  {
    var o := RenderSite(engine, indexSource, articles);
    var index := RenderIndex(engine, indexSource, articles);
    if ArticleTemplateName in engine.templates {
      ArticleWritesKnown(engine, engine.templates[ArticleTemplateName], articles);
    }
    forall i | 0 <= i < |o.writes|
      ensures o.writes[i].path != p
    {
      if i >= |index.writes| {
        assert o.writes[i] == RenderBlog(engine, articles).writes[i - |index.writes|];
      }
    }
    UnwrittenUnchanged(fs, o.writes, p);
  }

  /** When no article is called `index`, both index paths end up holding
      the one rendered index page. */
  lemma MirrorIdentical(engine: Engine, indexSource: Option<String>, articles: seq<Article>, fs: FileMap)
    requires RenderIndex(engine, indexSource, articles).failure.None?
    requires forall i :: 0 <= i < |articles| ==> articles[i].slug != "index"
    ensures var after := Apply(fs, RenderSite(engine, indexSource, articles).writes);
            var page := engine.render(indexSource.value, IndexContext(articles)).value;
            DistIndexPath in after && DistBlogIndexPath in after &&
            after[DistIndexPath] == page && after[DistBlogIndexPath] == page
  {
    var page := engine.render(indexSource.value, IndexContext(articles)).value;
    var blog := RenderBlog(engine, articles).writes;
    BlogAvoidsIndexPaths(engine, articles);
    assert RenderSite(engine, indexSource, articles).writes ==
           [Write(DistIndexPath, page), Write(DistBlogIndexPath, page)] + blog;
    MirrorWrites(fs, page, blog);
  }

  /** No article write goes to an index path unless its slug is `index`. */
  lemma BlogAvoidsIndexPaths(engine: Engine, articles: seq<Article>)
    requires forall i :: 0 <= i < |articles| ==> articles[i].slug != "index"
    ensures var blog := RenderBlog(engine, articles).writes;
            DistIndexPath !in Written(blog) && DistBlogIndexPath !in Written(blog)
  {
    var blog := RenderBlog(engine, articles).writes;
    if ArticleTemplateName in engine.templates {
      ArticleWritesKnown(engine, engine.templates[ArticleTemplateName], articles);
    }
    forall i | 0 <= i < |blog|
      ensures blog[i].path != DistIndexPath && blog[i].path != DistBlogIndexPath
    {
      ArticlePathClash(articles[i].slug);
    }
  }

  /** The two index writes survive writes that avoid both index paths. */
  lemma MirrorWrites(fs: FileMap, page: String, blog: seq<Write>)
    requires DistIndexPath !in Written(blog) && DistBlogIndexPath !in Written(blog)
    ensures var after := Apply(fs, [Write(DistIndexPath, page), Write(DistBlogIndexPath, page)] + blog);
            DistIndexPath in after && DistBlogIndexPath in after &&
            after[DistIndexPath] == page && after[DistBlogIndexPath] == page
  {
    var w0, w1 := Write(DistIndexPath, page), Write(DistBlogIndexPath, page);
    assert [w0, w1] + blog == [w0] + [w1] + blog;
    assert [w0] + [w1] + blog == [] + [w0] + ([w1] + blog);
    assert DistIndexPath != DistBlogIndexPath;
    WrittenAppend([w1], blog);
    WrittenSingle(w1);
    LastWriteWins(fs, [], w0, [w1] + blog);
    LastWriteWins(fs, [w0], w1, blog);
  }

  /** The counterexample to the mirror: once the index has rendered, the
      last article whose slug is `index` replaces the blog index with its own
      page, as soon as that page is written, whatever happens to the
      articles after it. */
  lemma IndexSlugOverwritesBlogIndex(engine: Engine, indexSource: Option<String>, articles: seq<Article>, fs: FileMap, i: nat)
    requires RenderIndex(engine, indexSource, articles).failure.None?
    requires ArticleTemplateName in engine.templates
    requires i < |RenderArticles(engine, engine.templates[ArticleTemplateName], articles).writes|
    requires articles[i].slug == "index"
    requires forall j :: i < j < |articles| ==> articles[j].slug != "index"
    ensures var after := Apply(fs, RenderSite(engine, indexSource, articles).writes);
            var source := engine.templates[ArticleTemplateName];
            ArticleWrite(engine, source, articles[i]).Some? &&
            DistBlogIndexPath in after &&
            after[DistBlogIndexPath] == Page(engine, source, articles[i])
  {
    var source := engine.templates[ArticleTemplateName];
    var index := RenderIndex(engine, indexSource, articles).writes;
    var blog := RenderArticles(engine, source, articles).writes;
    assert RenderSite(engine, indexSource, articles).writes == index + blog;
    ArticleWritesKnown(engine, source, articles);
    ArticlePathClash(articles[i].slug);
    var later := blog[i + 1..];
    forall k | 0 <= k < |later|
      ensures later[k].path != DistBlogIndexPath
    {
      assert later[k] == blog[i + 1 + k];
      ArticlePathClash(articles[i + 1 + k].slug);
    }
    SplitAround(index, blog, i);
    LastWriteWins(fs, index + blog[..i], blog[i], later);
  }

  /** When every page renders, an article's page survives unless a later
      article has the same slug; of several articles sharing a slug, the
      last one's page is the one left. */
  lemma LaterArticleWins(engine: Engine, indexSource: Option<String>, articles: seq<Article>, fs: FileMap, i: nat)
    requires RenderSite(engine, indexSource, articles).failure.None?
    requires i < |articles|
    requires forall j :: i < j < |articles| ==> articles[j].slug != articles[i].slug
    ensures var after := Apply(fs, RenderSite(engine, indexSource, articles).writes);
            var source := engine.templates[ArticleTemplateName];
            ArticleWrite(engine, source, articles[i]).Some? &&
            ArticlePath(articles[i].slug) in after &&
            after[ArticlePath(articles[i].slug)] == Page(engine, source, articles[i])
  {
    var o := RenderSite(engine, indexSource, articles);
    var source := engine.templates[ArticleTemplateName];
    var index := RenderIndex(engine, indexSource, articles).writes;
    assert RenderIndex(engine, indexSource, articles).failure.None?;
    assert RenderBlog(engine, articles).failure.None?;
    var blog := RenderArticles(engine, source, articles).writes;
    assert o.writes == index + blog;
    LaterWritesElsewhere(engine, source, articles, i);
    SplitAround(index, blog, i);
    LastWriteWins(fs, index + blog[..i], blog[i], blog[i + 1..]);
  }

  /** Cuts a write sequence around its `i`th element. */
  lemma SplitAround(index: seq<Write>, blog: seq<Write>, i: nat)
    requires i < |blog|
    ensures index + blog == (index + blog[..i]) + [blog[i]] + blog[i + 1..]
  {
    assert blog == blog[..i] + [blog[i]] + blog[i + 1..];
  }

  /** With distinct slugs after position `i`, no later article write goes
      to the path of the `i`th. */
  lemma LaterWritesElsewhere(engine: Engine, source: String, articles: seq<Article>, i: nat)
    requires |RenderArticles(engine, source, articles).writes| == |articles|
    requires i < |articles|
    requires forall j :: i < j < |articles| ==> articles[j].slug != articles[i].slug
    ensures var blog := RenderArticles(engine, source, articles).writes;
            blog[i].path == ArticlePath(articles[i].slug) &&
            blog[i].path !in Written(blog[i + 1..])
  {
    var blog := RenderArticles(engine, source, articles).writes;
    ArticleWritesKnown(engine, source, articles);
    var later := blog[i + 1..];
    forall k | 0 <= k < |later|
      ensures later[k].path != blog[i].path
    {
      assert later[k] == blog[i + 1 + k];
      ArticlePathDistinct(articles[i + 1 + k].slug, articles[i].slug);
    }
  }

  lemma ArticlePathDistinct(s: String, t: String)
    requires s != t
    ensures ArticlePath(s) != ArticlePath(t)
  {
    if ArticlePath(s) == ArticlePath(t) {
      ArticlePathInjective(s, t);
    }
  }
}
