/**
  * The unit tests of src/blog.rs, restated as lemmas about the model. Each
  * input is a parameter equal to the test's literal, and the lemma
  * reaches the expected output through the general lemmas of `Blog`.
  */
module BlogExamples {
  import opened Results
  import opened Text
  import opened Metadata
  import opened Slugs
  import opened Blog

  /** A line without a newline holds no closing delimiter. */
  lemma NoClosingInLine(s: String)
    requires '\n' !in s
    ensures !Contains(s, Closing)
  {
    forall i | 0 <= i <= |s|
      ensures !OccursAt(s, Closing, i)
    {
      if i < |s| {
        assert s[i] in s;
        assert i + |Closing| > |s| || s[i..i + |Closing|][0] == s[i];
      }
    }
  }

  /** A newline that is not followed by `-` starts no closing delimiter. */
  lemma NoClosingAcrossNewline(a: String, b: String)
    requires '\n' !in a && !Contains(b, Closing) && (b == [] || b[0] != '-')
    ensures !Contains(a + "\n" + b, Closing)
  {
    var s := a + "\n" + b;
    forall i | 0 <= i <= |s|
      ensures !OccursAt(s, Closing, i)
    {
      if i < |a| {
        assert s[i] == a[i] != '\n';
        assert i + |Closing| > |s| || s[i..i + |Closing|][0] == s[i];
      } else if i == |a| {
        assert i + |Closing| > |s| || s[i..i + |Closing|][1] == b[0];
      } else {
        var k := i - |a| - 1;
        assert !OccursAt(b, Closing, k);
        assert i + |Closing| > |s| || s[i..i + |Closing|] == b[k..k + |Closing|];
      }
    }
  }

  /** The split of a well-formed article, read off its pieces. */
  lemma SplitOfPieces(contents: String, header: String, gap: String, body: String)
    requires contents == Opening + header + Closing + gap + body
    requires AllLineBreaks(gap) && (body == [] || !IsLineBreak(body[0]))
    requires !Contains(header, Closing)
    ensures SplitHeaderAndBody(contents) == Ok((header, body))
  {
    assert Gap(contents, header, body) == gap by {
      var start := |Opening| + |header| + |Closing|;
      assert contents == (Opening + header + Closing) + gap + body;
      assert contents[start..|contents| - |body|] == gap;
    }
    SplitComplete(contents, header, body);
  }

  lemma SplitExampleValid(contents: String)
    requires contents == "---\ntitle: Test\ndate: 2025-01-01\n---\nThis is the body\n"
    ensures SplitHeaderAndBody(contents) == Ok(("title: Test\ndate: 2025-01-01", "This is the body\n"))
  {
    var title, date := "title: Test", "date: 2025-01-01";
    var body := "This is the body\n";
    ValidPieces(contents);
    HeaderPieces();
    NoClosingInLine(date);
    NoClosingAcrossNewline(title, date);
    SplitOfPieces(contents, title + "\n" + date, "\n", body);
  }

  lemma ValidPieces(contents: String)
    requires contents == "---\ntitle: Test\ndate: 2025-01-01\n---\nThis is the body\n"
    ensures contents == "---\n" + ("title: Test" + "\n" + "date: 2025-01-01") + "\n---" + "\n" + "This is the body\n"
  {
    ValidHalves(contents);
    HeaderPieces();
    ValidFront();
    ValidBack();
  }

  lemma ValidFront()
    ensures "---\ntitle: Test\ndate: 2025-01-01" == "---\n" + "title: Test\ndate: 2025-01-01"
  {
  }

  lemma ValidBack()
    ensures "\n---\nThis is the body\n" == "\n---" + "\n" + "This is the body\n"
  {
  }

  lemma ValidHalves(contents: String)
    requires contents == "---\ntitle: Test\ndate: 2025-01-01\n---\nThis is the body\n"
    ensures contents == "---\ntitle: Test\ndate: 2025-01-01" + "\n---\nThis is the body\n"
  {
  }

  lemma HeaderPieces()
    ensures "title: Test" + "\n" + "date: 2025-01-01" == "title: Test\ndate: 2025-01-01"
  {
  }

  lemma SplitExampleEmptyBody(contents: String)
    requires contents == "---\ntitle: Test\n---\n"
    ensures SplitHeaderAndBody(contents) == Ok(("title: Test", ""))
  {
    var title := "title: Test";
    assert contents == Opening + title + Closing + "\n" + "";
    NoClosingInLine(title);
    SplitOfPieces(contents, title, "\n", "");
  }

  /** A `---` line inside the body is kept: only the first closing
      delimiter cuts. */
  lemma SplitExampleDashesInBody(contents: String)
    requires contents == "---\ntitle: Test\n---\nBody content\n---\nMore content\n"
    ensures SplitHeaderAndBody(contents) == Ok(("title: Test", "Body content\n---\nMore content\n"))
  {
    var title := "title: Test";
    var body := "Body content\n---\nMore content\n";
    DashesPieces(contents);
    NoClosingInLine(title);
    SplitOfPieces(contents, title, "\n", body);
  }

  lemma DashesPieces(contents: String)
    requires contents == "---\ntitle: Test\n---\nBody content\n---\nMore content\n"
    ensures contents == "---\n" + "title: Test" + "\n---" + "\n" + "Body content\n---\nMore content\n"
  {
    DashesHalves(contents);
  }

  lemma DashesHalves(contents: String)
    requires contents == "---\ntitle: Test\n---\nBody content\n---\nMore content\n"
    ensures contents == "---\ntitle: Test\n---\n" + "Body content\n---\nMore content\n"
  {
  }

  lemma SplitExampleNoDelimiters(contents: String)
    requires contents == "title: Test\nNo delimiters here"
    ensures SplitHeaderAndBody(contents) == Err(MissingOpeningDelimiter)
  {
    assert contents[0] != Opening[0];
  }

  lemma SplitExampleNoOpening(contents: String)
    requires contents == "title: Test\ndate: 2025-01-01\n---\nBody here\n"
    ensures SplitHeaderAndBody(contents) == Err(MissingOpeningDelimiter)
  {
    assert contents[0] != Opening[0];
  }

  lemma SplitExampleNoClosing(contents: String)
    requires contents == "---\ntitle: Test\ndate: 2025-01-01\n"
    ensures SplitHeaderAndBody(contents) == Err(MissingClosingDelimiter)
  {
    var title, date := "title: Test", "date: 2025-01-01";
    NoClosingPieces(contents);
    assert contents[|Opening|..] == title + "\n" + (date + "\n" + "");
    NoClosingInLine("");
    NoClosingAcrossNewline(date, "");
    NoClosingAcrossNewline(title, date + "\n" + "");
  }

  lemma NoClosingPieces(contents: String)
    requires contents == "---\ntitle: Test\ndate: 2025-01-01\n"
    ensures contents == Opening + ("title: Test" + "\n" + ("date: 2025-01-01" + "\n" + ""))
  {
  }

  /** A pattern occurs where it was put. */
  lemma OccursBetween(a: String, p: String, b: String)
    ensures OccursAt(a + p + b, p, |a|)
  {
    assert (a + p + b)[|a|..|a| + |p|] == p;
  }

  /** The messages of the two header checks name the missing property. */
  lemma MessagesNameProperty()
    ensures Contains(MissingTitle.Message(), "title")
    ensures Contains(MissingDate.Message(), "date")
  {
    TitleMessage();
    OccursBetween("Article missing ", "title", " header property");
    DateMessage();
    OccursBetween("Article missing ", "date", " header property");
  }

  lemma TitleMessage()
    ensures MissingTitle.Message() == "Article missing " + "title" + " header property"
  {
  }

  lemma DateMessage()
    ensures MissingDate.Message() == "Article missing " + "date" + " header property"
  {
  }

  /** The header of the tests, as the YAML loader reads it. */
  function TestDocument(): Document {
    map["title" := Str("Test Article"), "date" := Str("Jan 1, 2025")]
  }

  lemma ArticleExampleValid(libs: Libraries, header: String, body: String)
    requires libs.loadYaml(header) == Some([TestDocument()])
    ensures NewArticle(libs, header, body) ==
            Ok(Article("Test Article", "Jan 1, 2025", libs.markdownToHtml(body), "test-article"))
  {
    var r := NewArticle(libs, header, body);
    var doc := TestDocument();
    assert AsStr(doc, "title").Some? && AsStr(doc, "date").Some?;
    assert r.Ok?;
    assert doc["title"] == Str(r.value.title) && doc["date"] == Str(r.value.date);
    SlugExampleLowercase(r.value.title);
  }

  lemma ArticleExampleMissingTitle(libs: Libraries, header: String, body: String)
    requires libs.loadYaml(header) == Some([map["date" := Str("Jan 1, 2025")]])
    ensures NewArticle(libs, header, body) == Err(MissingTitle)
  {
  }

  lemma ArticleExampleMissingDate(libs: Libraries, header: String, body: String)
    requires libs.loadYaml(header) == Some([map["title" := Str("Test Article")]])
    ensures NewArticle(libs, header, body) == Err(MissingDate)
  {
  }

  /** A date the loader reads as a non-string scalar (an unquoted number,
      say) counts as missing. */
  lemma ArticleNonStringDate(libs: Libraries, header: String, body: String)
    requires libs.loadYaml(header) == Some([map["title" := Str("Test Article"), "date" := NonString]])
    ensures NewArticle(libs, header, body) == Err(MissingDate)
  {
  }

  /** With neither property present, the title is the one reported. */
  lemma ArticleTitleCheckedFirst(libs: Libraries, header: String, body: String)
    requires libs.loadYaml(header) == Some([map[]])
    ensures NewArticle(libs, header, body) == Err(MissingTitle)
  {
  }
}
