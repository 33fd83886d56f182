/**
  * The article pipeline of the site generator (src/blog.rs): front matter is
  * cut off an article at its `---` delimiters, the header is read as YAML
  * for a title and a date, the title becomes a slug, and the article
  * directory is loaded in descending file-name order.
  */
module Blog {
  import opened Results
  import opened Text
  import opened Metadata
  import opened Slugs
  import opened Ordering

  const Opening: String := "---\n"
  const Closing: String := "\n---"

  datatype SplitError = MissingOpeningDelimiter | MissingClosingDelimiter {
    /** The panic message the source raises. */
    function Message(): String {
      match this
      case MissingOpeningDelimiter => "Article missing opening --- delimiter"
      case MissingClosingDelimiter => "Article missing closing --- delimiter"
    }
  }

  predicate AllLineBreaks(s: String) {
    forall i :: 0 <= i < |s| ==> IsLineBreak(s[i])
  }

  /** The characters between the closing delimiter and `body`. */
  function Gap(contents: String, header: String, body: String): String
    requires |Opening| + |header| + |Closing| + |body| <= |contents|
  {
    contents[|Opening| + |header| + |Closing|..|contents| - |body|]
  }

  /** `contents` is the opening delimiter, `header`, the closing delimiter, a
      run of line breaks and then `body`, where `body` does not start with a
      line break and `header` holds no closing delimiter (so the cut is at
      the first one). */
  predicate Reassembles(contents: String, header: String, body: String) {
    |Opening| + |header| + |Closing| + |body| <= |contents| &&
    contents == Opening + header + Closing + Gap(contents, header, body) + body &&
    AllLineBreaks(Gap(contents, header, body)) &&
    (body == [] || !IsLineBreak(body[0])) &&
    !Contains(header, Closing)
  }

  /** Cuts an article into its YAML header and its markdown body. */
  function SplitHeaderAndBody(contents: String): (r: Result<(String, String), SplitError>)
    ensures r == Err(MissingOpeningDelimiter) <==> !StartsWith(contents, Opening)
    ensures r == Err(MissingClosingDelimiter) <==>
              StartsWith(contents, Opening) && !Contains(contents[|Opening|..], Closing)
    ensures r.Ok? ==> Reassembles(contents, r.value.0, r.value.1)
  {
    if !StartsWith(contents, Opening) then Err(MissingOpeningDelimiter)
    else
      var inner := contents[|Opening|..];
      match FindFrom(inner, Closing, 0)
      case None => Err(MissingClosingDelimiter)
      case Some(k) =>
        FirstClosingReassembles(contents, k);
        Ok((inner[..k], TrimStartLineBreaks(inner[k + |Closing|..])))
  }

  lemma FirstClosingReassembles(contents: String, k: nat)
    requires StartsWith(contents, Opening)
    requires OccursAt(contents[|Opening|..], Closing, k)
    requires forall j :: 0 <= j < k ==> !OccursAt(contents[|Opening|..], Closing, j)
    ensures Reassembles(contents, contents[|Opening|..][..k],
                        TrimStartLineBreaks(contents[|Opening|..][k + |Closing|..]))
  {
    var inner := contents[|Opening|..];
    var after := inner[k + |Closing|..];
    var header, body := inner[..k], TrimStartLineBreaks(after);
    PrefixBeforeFirst(inner, Closing, k);
    Pieces(contents, Opening, Closing, k, body);
    var c := |Opening| + k + |Closing|;
    assert contents[c..] == after;
    LineBreaksBefore(after, body);
    TrimmedGap(contents, c, after, body);
    assert Gap(contents, header, body) == contents[|Opening| + k + |Closing|..|contents| - |body|];
  }

  /** What lies between the closing delimiter and the trimmed body is line
      breaks only. */
  lemma TrimmedGap(contents: String, c: nat, after: String, body: String)
    requires c <= |contents| && contents[c..] == after
    requires |body| <= |after| && AllLineBreaks(after[..|after| - |body|])
    ensures c + |body| <= |contents|
    ensures AllLineBreaks(contents[c..|contents| - |body|])
  {
    assert |contents| == c + |after|;
    SliceOfSuffix(contents, c, after, |after| - |body|);
  }

  /** The prefix the trim drops is line breaks only. */
  lemma LineBreaksBefore(after: String, body: String)
    requires body == TrimStartLineBreaks(after)
    ensures |body| <= |after| && AllLineBreaks(after[..|after| - |body|])
  {
  }

  lemma SliceOfSuffix(contents: String, c: nat, after: String, n: nat)
    requires c <= |contents| && contents[c..] == after && n <= |after|
    ensures contents[c..c + n] == after[..n]
  {
  }

  /** Nothing before the first occurrence of a pattern holds one. */
  lemma PrefixBeforeFirst(s: String, pattern: String, k: nat)
    requires k <= |s| && pattern != []
    requires forall j :: 0 <= j < k ==> !OccursAt(s, pattern, j)
    ensures !Contains(s[..k], pattern)
  {
    forall i | 0 <= i <= k && OccursAt(s[..k], pattern, i)
      ensures false
    {
      assert s[i..i + |pattern|] == s[..k][i..i + |pattern|];
      assert OccursAt(s, pattern, i);
    }
  }

  /** The split points of the forward direction, for any delimiters. */
  lemma Pieces(contents: String, open: String, close: String, k: nat, body: String)
    requires StartsWith(contents, open)
    requires OccursAt(contents[|open|..], close, k)
    requires |body| <= |contents[|open|..][k + |close|..]|
    requires body == contents[|open|..][k + |close|..][|contents[|open|..][k + |close|..]| - |body|..]
    ensures |open| + k + |close| + |body| <= |contents|
    ensures contents == open + contents[|open|..][..k] + close
                        + contents[|open| + k + |close|..|contents| - |body|] + body
  {
    var inner := contents[|open|..];
    var a, b, c, d := |open|, |open| + k, |open| + k + |close|, |contents| - |body|;
    assert contents[..a] == open;
    assert contents[a..b] == inner[..k];
    assert contents[b..c] == inner[k..k + |close|] == close;
    assert contents[d..] == body;
    Slices(contents, a, b, c, d);
  }

  lemma Slices(s: String, a: nat, b: nat, c: nat, d: nat)
    requires a <= b <= c <= d <= |s|
    ensures s == s[..a] + s[a..b] + s[b..c] + s[c..d] + s[d..]
  {
  }

  /** The reverse direction: reading the pieces back off the contents. */
  lemma Unpieces(contents: String, open: String, header: String, close: String, gap: String, body: String)
    requires contents == open + header + close + gap + body
    ensures StartsWith(contents, open)
    ensures contents[|open|..] == header + close + (gap + body)
  {
    assert contents == open + (header + close + (gap + body));
  }

  /** The split is determined by its contract: any decomposition that
      reassembles the contents is the one the function returns. */
  lemma SplitComplete(contents: String, header: String, body: String)
    requires Reassembles(contents, header, body)
    ensures SplitHeaderAndBody(contents) == Ok((header, body))
  {
    var gap := Gap(contents, header, body);
    var after := gap + body;
    Unpieces(contents, Opening, header, Closing, gap, body);
    var inner := contents[|Opening|..];
    assert Closing[0] == '\n' && Closing[1..] == "---";
    FirstAfter(inner, header, Closing, after);
    TrimStartLineBreaksUnique(after, body);
  }

  /** In `header + close + after`, where `header` holds no `close` and
      `close` is a newline followed by no other newline, the first
      occurrence of `close` is right after `header`. */
  lemma FirstAfter(inner: String, header: String, close: String, after: String)
    requires close != [] && close[0] == '\n' && '\n' !in close[1..]
    requires inner == header + close + after
    requires !Contains(header, close)
    ensures FindFrom(inner, close, 0) == Some(|header|)
    ensures inner[..|header|] == header && inner[|header| + |close|..] == after
  {
    assert inner[|header|..|header| + |close|] == close;
    NoEarlierOccurrence(inner, header, close, after);
    FindFromFirst(inner, close, |header|);
  }

  /** The contract of `FindFrom` pins its answer down. */
  lemma FindFromFirst(s: String, pattern: String, k: nat)
    requires OccursAt(s, pattern, k)
    requires forall j :: 0 <= j < k ==> !OccursAt(s, pattern, j)
    ensures FindFrom(s, pattern, 0) == Some(k)
  {
  }

  lemma NoEarlierOccurrence(inner: String, header: String, close: String, after: String)
    requires close != [] && close[0] == '\n' && '\n' !in close[1..]
    requires inner == header + close + after
    requires !Contains(header, close)
    ensures forall j :: 0 <= j < |header| ==> !OccursAt(inner, close, j)
  {
    forall j | 0 <= j < |header|
      ensures !OccursAt(inner, close, j)
    {
      if j + |close| <= |header| {
        assert !OccursAt(header, close, j);
        assert header[j..j + |close|] == inner[j..j + |close|];
      } else {
        var d := |header| - j;
        assert inner[|header|] == '\n';
        assert close[d] == close[1..][d - 1] != '\n';
        assert j + |close| > |inner| || inner[j..j + |close|][d] == inner[|header|];
      }
    }
  }

  /** A delimiter line directly after the opening one leaves no newline
      before it, so an empty header is reported as a missing closing
      delimiter. */
  lemma EmptyHeaderRejected(contents: String)
    requires contents == "---\n---\n"
    ensures SplitHeaderAndBody(contents) == Err(MissingClosingDelimiter)
  {
    var inner := contents[|Opening|..];
    assert inner == "---\n";
    assert inner[0] == '-' && Closing[0] == '\n';
    assert !OccursAt(inner, Closing, 0);
  }

  datatype Article = Article(title: String, date: String, body: String, slug: String)

  datatype ArticleError =
    | InvalidHeaderFormat
    | EmptyHeaderDocument
    | MissingTitle
    | MissingDate
  {
    /** The panic message the source raises; the empty-document case is an
        index out of bounds, which carries no message of the program's own. */
    function Message(): String {
      match this
      case InvalidHeaderFormat => "Invalid Article header format"
      case EmptyHeaderDocument => ""
      case MissingTitle => "Article missing title header property"
      case MissingDate => "Article missing date header property"
    }
  }

  /** The libraries an article is built with: a YAML loader returning the
      documents of a stream (or nothing when the text is not YAML) and a
      markdown-to-HTML renderer. */
  datatype Libraries = Libraries(
    loadYaml: String -> Option<seq<Document>>,
    markdownToHtml: String -> String)

  /** A title and a date taken from the first YAML document of `header`; the
      body rendered to HTML and the slug made from the title. */
  function NewArticle(libs: Libraries, header: String, body: String): (r: Result<Article, ArticleError>)
    ensures r == Err(InvalidHeaderFormat) <==> libs.loadYaml(header).None?
    ensures r == Err(EmptyHeaderDocument) <==> libs.loadYaml(header) == Some([])
    ensures r == Err(MissingTitle) <==>
              match libs.loadYaml(header)
              case Some(docs) => docs != [] && AsStr(docs[0], "title").None?
              case None => false
    ensures r == Err(MissingDate) <==>
              match libs.loadYaml(header)
              case Some(docs) => docs != [] && AsStr(docs[0], "title").Some? && AsStr(docs[0], "date").None?
              case None => false
    ensures r.Ok? ==>
              libs.loadYaml(header).Some? && libs.loadYaml(header).value != [] &&
              var doc := libs.loadYaml(header).value[0];
              "title" in doc && doc["title"] == Str(r.value.title) &&
              "date" in doc && doc["date"] == Str(r.value.date) &&
              r.value.body == libs.markdownToHtml(body) &&
              r.value.slug == Slug(r.value.title)
  {
    match libs.loadYaml(header)
    case None => Err(InvalidHeaderFormat)
    case Some(docs) =>
      if docs == [] then Err(EmptyHeaderDocument)
      else
        var doc := docs[0];
        match AsStr(doc, "title")
        case None => Err(MissingTitle)
        case Some(title) =>
          match AsStr(doc, "date")
          case None => Err(MissingDate)
          case Some(date) => Ok(Article(title, date, libs.markdownToHtml(body), Slug(title)))
  }

  /** A directory entry: its name, and its text unless reading it fails. */
  datatype ArticleFile = ArticleFile(name: String, contents: Option<String>)

  function Name(f: ArticleFile): String {
    f.name
  }

  datatype LoadError =
    | DirectoryUnreadable
    | ReadFailed(file: String)
    | SplitFailed(file: String, split: SplitError)
    | ArticleFailed(file: String, article: ArticleError)

  /** One iteration of the loop of `get_articles`. */
  function LoadArticle(libs: Libraries, f: ArticleFile): (r: Result<Article, LoadError>)
    ensures r.Err? ==> r.error.ReadFailed? || r.error.SplitFailed? || r.error.ArticleFailed?
    ensures r.Err? ==> r.error.file == f.name
    ensures r == Err(ReadFailed(f.name)) <==> f.contents.None?
    ensures r.Ok? <==>
              f.contents.Some? && SplitHeaderAndBody(f.contents.value).Ok? &&
              NewArticle(libs, SplitHeaderAndBody(f.contents.value).value.0,
                         SplitHeaderAndBody(f.contents.value).value.1).Ok?
    ensures f.contents.Some? && SplitHeaderAndBody(f.contents.value).Err? ==>
              r == Err(SplitFailed(f.name, SplitHeaderAndBody(f.contents.value).error))
    ensures f.contents.Some? && SplitHeaderAndBody(f.contents.value).Ok? ==>
              var article := NewArticle(libs, SplitHeaderAndBody(f.contents.value).value.0,
                                        SplitHeaderAndBody(f.contents.value).value.1);
              match article
              case Ok(a) => r == Ok(a)
              case Err(e) => r == Err(ArticleFailed(f.name, e))
  {
    match f.contents
    case None => Err(ReadFailed(f.name))
    case Some(contents) =>
      match SplitHeaderAndBody(contents)
      case Err(e) => Err(SplitFailed(f.name, e))
      case Ok((header, body)) =>
        match NewArticle(libs, header, body)
        case Err(e) => Err(ArticleFailed(f.name, e))
        case Ok(a) => Ok(a)
  }

  /** `LoadArticle` with the libraries fixed, as the loop applies it. */
  function Loader(libs: Libraries): ArticleFile -> Result<Article, LoadError> {
    f => LoadArticle(libs, f)
  }

  /** Loads the files in the order given, stopping at the first failure. */
  function LoadAll(libs: Libraries, files: seq<ArticleFile>): (r: Result<seq<Article>, LoadError>)
    ensures r.Ok? <==> forall i :: 0 <= i < |files| ==> LoadArticle(libs, files[i]).Ok?
    ensures r.Ok? ==>
              |r.value| == |files| &&
              forall i :: 0 <= i < |files| ==> LoadArticle(libs, files[i]) == Ok(r.value[i])
    ensures r.Err? ==>
              exists k :: FirstFailure(Loader(libs), files, k, r.error)
  {
    Traverse(Loader(libs), files)
  }

  /** The article list: every directory entry, in descending file-name
      order, made into one article. */
  function GetArticles(libs: Libraries, dir: Option<seq<ArticleFile>>): (r: Result<seq<Article>, LoadError>)
    ensures r == Err(DirectoryUnreadable) <==> dir.None?
    ensures r.Ok? ==> dir.Some? && |r.value| == |dir.value|
    ensures r.Ok? ==>
              exists order: seq<ArticleFile> ::
                multiset(order) == multiset(dir.value) && NonIncreasing(order, Name) &&
                |order| == |r.value| &&
                forall i :: 0 <= i < |order| ==> LoadArticle(libs, order[i]) == Ok(r.value[i])
    ensures r.Err? && dir.Some? ==>
              exists order: seq<ArticleFile>, k ::
                multiset(order) == multiset(dir.value) && NonIncreasing(order, Name) &&
                FirstFailure(Loader(libs), order, k, r.error)
  {
    match dir
    case None => Err(DirectoryUnreadable)
    case Some(files) =>
      var order := SortDescending(files, Name);
      assert |order| == |multiset(order)| == |files|;
      LoadAll(libs, order)
  }
}
