/**
  * The older post pipeline (src/posts.rs): front matter is separated from
  * the body by a two-state machine over lines that flips on every line that
  * is exactly `---`, each post needs a title, a description and a date, and
  * its file name is the title with spaces made hyphens.
  */
module Posts {
  import opened Results
  import opened Text
  import opened Metadata
  import opened Files

  const Delimiter: String := "---"

  /** How many delimiter lines `ls` holds. */
  function Delimiters(ls: seq<String>): nat {
    if ls == [] then 0
    else Delimiters(ls[..|ls| - 1]) + (if ls[|ls| - 1] == Delimiter then 1 else 0)
  }

  /** The non-delimiter lines that belong to the header (`toHeader`) or to
      the body: a line belongs to the header exactly when an odd number of
      delimiter lines come before it. Lines keep their order. */
  function Route(ls: seq<String>, toHeader: bool): seq<String> {
    if ls == [] then []
    else
      var init, last := ls[..|ls| - 1], ls[|ls| - 1];
      if last != Delimiter && (Delimiters(init) % 2 == 1) == toHeader
      then Route(init, toHeader) + [last]
      else Route(init, toHeader)
  }

  /** The header and body the splitter produces: each routed line followed
      by a newline. */
  function Split(contents: String): (r: (String, String))
    ensures r.0 == [] || r.0[|r.0| - 1] == '\n'
    ensures r.1 == [] || r.1[|r.1| - 1] == '\n'
  {
    var ls := Lines(contents);
    (Unlines(Route(ls, true)), Unlines(Route(ls, false)))
  }

  /** `split_header_and_body`: splits the text into lines and routes them. */
  method SplitHeaderAndBody(contents: String) returns (header: String, body: String)
    ensures (header, body) == Split(contents)
  {
    header, body := RouteLines(Lines(contents));
  }

  /** The loop of `split_header_and_body`, line by line. */
  method RouteLines(lines: seq<String>) returns (header: String, body: String)
    ensures header == Unlines(Route(lines, true))
    ensures body == Unlines(Route(lines, false))
  {
    header, body := "", "";
    var isHeader := false;
    for i := 0 to |lines|
      invariant isHeader == (Delimiters(lines[..i]) % 2 == 1)
      invariant header == Unlines(Route(lines[..i], true))
      invariant body == Unlines(Route(lines[..i], false))
    {
      var line := lines[i];
      if line == Delimiter {
        DelimiterStep(lines, i);
        isHeader := !isHeader;
      } else if isHeader {
        LineStep(lines, i, true);
        header := header + line + "\n";
      } else {
        LineStep(lines, i, false);
        body := body + line + "\n";
      }
    }
    assert lines[..|lines|] == lines;
  }

  /** A delimiter line flips the state and reaches neither output. */
  lemma DelimiterStep(lines: seq<String>, i: nat)
    requires i < |lines| && lines[i] == Delimiter
    ensures Delimiters(lines[..i + 1]) == Delimiters(lines[..i]) + 1
    ensures Route(lines[..i + 1], true) == Route(lines[..i], true)
    ensures Route(lines[..i + 1], false) == Route(lines[..i], false)
  {
    assert lines[..i + 1][..i] == lines[..i];
  }

  /** Any other line is appended, with its newline, to the output the state
      selects, and leaves the other output alone. */
  lemma LineStep(lines: seq<String>, i: nat, toHeader: bool)
    requires i < |lines| && lines[i] != Delimiter
    requires (Delimiters(lines[..i]) % 2 == 1) == toHeader
    ensures Delimiters(lines[..i + 1]) == Delimiters(lines[..i])
    ensures Unlines(Route(lines[..i + 1], toHeader)) == Unlines(Route(lines[..i], toHeader)) + lines[i] + "\n"
    ensures Route(lines[..i + 1], !toHeader) == Route(lines[..i], !toHeader)
  {
    assert lines[..i + 1][..i] == lines[..i];
    UnlinesSnoc(Route(lines[..i], toHeader), lines[i]);
  }

  /** No delimiter line reaches either output. */
  lemma {:induction false} RouteHasNoDelimiter(ls: seq<String>, toHeader: bool)
    ensures Delimiter !in Route(ls, toHeader)
  {
    if ls != [] {
      RouteHasNoDelimiter(ls[..|ls| - 1], toHeader);
    }
  }

  /** Every line that is not a delimiter goes to exactly one of the
      outputs; together the outputs hold each such line once. */
  lemma RoutePartitions(ls: seq<String>)
    ensures |Route(ls, true)| + |Route(ls, false)| + Delimiters(ls) == |ls|
    ensures multiset(Route(ls, true)) + multiset(Route(ls, false)) == multiset(ls)[Delimiter := 0]
  {
    RouteCount(ls);
    RouteMultiset(ls);
  }

  lemma {:induction false} RouteCount(ls: seq<String>)
    ensures |Route(ls, true)| + |Route(ls, false)| + Delimiters(ls) == |ls|
  {
    if ls != [] {
      RouteCount(ls[..|ls| - 1]);
    }
  }

  lemma {:induction false} RouteMultiset(ls: seq<String>)
    ensures multiset(Route(ls, true)) + multiset(Route(ls, false)) == multiset(ls)[Delimiter := 0]
  {
    if ls != [] {
      var init, last := ls[..|ls| - 1], ls[|ls| - 1];
      RouteMultiset(init);
      assert ls == init + [last];
      EraseSnoc(init, last);
    }
  }

  lemma EraseSnoc(init: seq<String>, last: String)
    ensures multiset(init + [last])[Delimiter := 0] ==
            multiset(init)[Delimiter := 0] + (if last == Delimiter then multiset{} else multiset{last})
  {
    assert multiset(init + [last]) == multiset(init) + multiset{last};
  }

  /** Without delimiter lines, everything is body. */
  lemma {:induction false} RouteWithoutDelimiters(ls: seq<String>)
    requires Delimiter !in ls
    ensures Delimiters(ls) == 0
    ensures Route(ls, true) == [] && Route(ls, false) == ls
  {
    if ls != [] {
      var init := ls[..|ls| - 1];
      assert Delimiter !in init by {
        forall k | 0 <= k < |init| ensures init[k] != Delimiter {
          assert init[k] == ls[k];
        }
      }
      RouteWithoutDelimiters(init);
      assert ls == init + [ls[|ls| - 1]];
    }
  }

  /** A post without delimiter lines and without carriage returns is all
      body, and that body is the text itself with a final newline ensured. */
  lemma SplitWithoutDelimiters(contents: String)
    requires '\r' !in contents
    requires Delimiter !in Lines(contents)
    ensures Split(contents).0 == []
    ensures Split(contents).1 ==
            (if contents == [] || contents[|contents| - 1] == '\n' then contents else contents + "\n")
  {
    RouteWithoutDelimiters(Lines(contents));
    LinesRoundTrip(contents);
  }

  /** A second delimiter returns to the body, a third to the header. */
  lemma RouteExampleToggleBack(ls: seq<String>)
    requires ls == ["---", "t", "---", "b", "---", "m"]
    ensures Route(ls, true) == ["t", "m"]
    ensures Route(ls, false) == ["b"]
  {
    var p1, p2, p3 := ls[..1], ls[..2], ls[..3];
    var p4, p5 := ls[..4], ls[..5];
    assert p5[..4] == p4 && p4[..3] == p3 && p3[..2] == p2 && p2[..1] == p1 && p1[..0] == [];
    assert Delimiters(p1) == 1 && Route(p1, true) == [] && Route(p1, false) == [];
    assert Delimiters(p2) == 1 && Route(p2, true) == ["t"] && Route(p2, false) == [];
    assert Delimiters(p3) == 2 && Route(p3, true) == ["t"] && Route(p3, false) == [];
    assert Delimiters(p4) == 2 && Route(p4, true) == ["t"] && Route(p4, false) == ["b"];
    assert Delimiters(p5) == 3 && Route(p5, true) == ["t"] && Route(p5, false) == ["b"];
    assert ls[..5] == p5;
  }

  /** Only a line that is exactly `---` toggles: `"--- "` and `"----"` are
      ordinary body lines. */
  lemma RouteExampleNearDelimiters(ls: seq<String>)
    requires ls == ["--- ", "----", "x"]
    ensures Route(ls, true) == []
    ensures Route(ls, false) == ls
  {
    assert "--- " != Delimiter && "----" != Delimiter && "x" != Delimiter;
    RouteWithoutDelimiters(ls);
  }

  /** The title with every space replaced by a hyphen. */
  function Filename(title: String): (name: String)
    ensures |name| == |title|
    ensures ' ' !in name
    ensures forall i :: 0 <= i < |title| && title[i] != ' ' ==> name[i] == title[i]
  {
    var name := MapChars(title, c => if c == ' ' then '-' else c);
    MapCharsAt(title, c => if c == ' ' then '-' else c);
    name
  }

  /** A name without spaces is its own file name; so the rule is idempotent. */
  lemma FilenameIdempotent(title: String)
    ensures Filename(Filename(title)) == Filename(title)
  {
    var name := Filename(title);
    MapCharsAt(name, c => if c == ' ' then '-' else c);
  }

  /** Where the spaces were, the hyphens are. */
  lemma FilenameHyphens(title: String, i: nat)
    requires i < |title| && title[i] == ' '
    ensures Filename(title)[i] == '-'
  {
    MapCharsAt(title, c => if c == ' ' then '-' else c);
  }

  datatype Post = Post(title: String, description: String, date: String, body: String, filename: String)

  datatype PostError =
    | DirectoryUnreadable
    | ReadFailed
    | HeaderParseFailed
    | MissingTitle
    | MissingDescription
    | MissingDate
    | RenderFailed(position: nat)

  /** One iteration of the loop of `load_posts`, with `parse` the YAML
      reader: nothing when the header is not YAML, and the mapping it holds
      otherwise (a document that is not a mapping has no keys). */
  function NewPost(parse: String -> Option<Document>, content: String): (r: Result<Post, PostError>)
    ensures r.Err? ==>
              r.error.HeaderParseFailed? || r.error.MissingTitle? ||
              r.error.MissingDescription? || r.error.MissingDate?
    ensures r == Err(HeaderParseFailed) <==> parse(Split(content).0).None?
    ensures r == Err(MissingTitle) <==>
              parse(Split(content).0).Some? && AsStr(parse(Split(content).0).value, "title").None?
    ensures r == Err(MissingDescription) <==>
              parse(Split(content).0).Some? && AsStr(parse(Split(content).0).value, "title").Some? &&
              AsStr(parse(Split(content).0).value, "description").None?
    ensures r == Err(MissingDate) <==>
              parse(Split(content).0).Some? && AsStr(parse(Split(content).0).value, "title").Some? &&
              AsStr(parse(Split(content).0).value, "description").Some? &&
              AsStr(parse(Split(content).0).value, "date").None?
    ensures r.Ok? ==>
              var doc := parse(Split(content).0).value;
              "title" in doc && doc["title"] == Str(r.value.title) &&
              "description" in doc && doc["description"] == Str(r.value.description) &&
              "date" in doc && doc["date"] == Str(r.value.date) &&
              r.value.body == Split(content).1 &&
              r.value.filename == Filename(r.value.title)
  {
    var (header, body) := Split(content);
    match parse(header)
    case None => Err(HeaderParseFailed)
    case Some(doc) =>
      match AsStr(doc, "title")
      case None => Err(MissingTitle)
      case Some(title) =>
        match AsStr(doc, "description")
        case None => Err(MissingDescription)
        case Some(description) =>
          match AsStr(doc, "date")
          case None => Err(MissingDate)
          case Some(date) => Ok(Post(title, description, date, body, Filename(title)))
  }

  /** `NewPost` with the YAML reader fixed, as the loop applies it. */
  function PostOf(parse: String -> Option<Document>): String -> Result<Post, PostError> {
    content => NewPost(parse, content)
  }

  /** `load_posts`: one post per content string, in order, stopping at the
      first that fails. The loop computes the stop-at-first-error traversal. */
  method LoadPosts(parse: String -> Option<Document>, contents: seq<String>) returns (r: Result<seq<Post>, PostError>)
    ensures r.Ok? <==> forall i :: 0 <= i < |contents| ==> NewPost(parse, contents[i]).Ok?
    ensures r.Ok? ==>
              |r.value| == |contents| &&
              forall i :: 0 <= i < |contents| ==> NewPost(parse, contents[i]) == Ok(r.value[i])
    ensures r.Err? ==> exists k :: FirstFailure(PostOf(parse), contents, k, r.error)
    ensures r == Traverse(PostOf(parse), contents)
  {
    var posts: seq<Post> := [];
    for i := 0 to |contents|
      invariant |posts| == i
      invariant forall j :: 0 <= j < i ==> NewPost(parse, contents[j]) == Ok(posts[j])
    {
      var post := NewPost(parse, contents[i]);
      if post.Err? {
        assert FirstFailure(PostOf(parse), contents, i, post.error);
        r := Err(post.error);
        TraverseDetermined(PostOf(parse), contents, r);
        return;
      }
      posts := posts + [post.value];
    }
    r := Ok(posts);
    TraverseDetermined(PostOf(parse), contents, r);
  }

  /** `load_posts` as a whole: every text is read before any is parsed, so
      an unreadable entry anywhere is reported ahead of a malformed post
      earlier in the listing; when every entry reads, the error is that of
      the first post that fails. */
  method LoadPostsFromDirectory(parse: String -> Option<Document>, dir: Option<seq<Option<String>>>)
    returns (r: Result<seq<Post>, PostError>)
    ensures r == Err(DirectoryUnreadable) <==> dir.None?
    ensures r == Err(ReadFailed) <==> dir.Some? && exists i :: 0 <= i < |dir.value| && dir.value[i].None?
    ensures r.Ok? <==>
              dir.Some? &&
              forall i :: 0 <= i < |dir.value| ==> dir.value[i].Some? && NewPost(parse, dir.value[i].value).Ok?
    ensures r.Ok? ==>
              |r.value| == |dir.value| &&
              forall i :: 0 <= i < |dir.value| ==> dir.value[i].Some? && NewPost(parse, dir.value[i].value) == Ok(r.value[i])
    ensures dir.Some? && (forall i :: 0 <= i < |dir.value| ==> dir.value[i].Some?) && r.Err? ==>
              exists k :: 0 <= k < |dir.value| && NewPost(parse, dir.value[k].value) == Err(r.error) &&
                          forall i :: 0 <= i < k ==> NewPost(parse, dir.value[i].value).Ok?
  {
    var texts :- ReadPosts(dir);
    r := LoadPosts(parse, texts);
    if r.Err? {
      var k :| FirstFailure(PostOf(parse), texts, k, r.error);
      assert dir.value[k] == Some(texts[k]);
      assert forall i :: 0 <= i < k ==> dir.value[i] == Some(texts[i]) && NewPost(parse, texts[i]).Ok?;
    }
  }

  /** Reading one directory entry: `None` stands for an entry or a file
      that cannot be read. */
  function ReadEntry(entry: Option<String>): Result<String, PostError> {
    match entry
    case None => Err(ReadFailed)
    case Some(text) => Ok(text)
  }

  /** `read_posts`: the text of every entry of the posts directory, in the
      order the directory lists them, stopping at the first that cannot be
      read. */
  function ReadPosts(dir: Option<seq<Option<String>>>): (r: Result<seq<String>, PostError>)
    ensures r == Err(DirectoryUnreadable) <==> dir.None?
    ensures r == Err(ReadFailed) <==> dir.Some? && exists i :: 0 <= i < |dir.value| && dir.value[i].None?
    ensures r.Ok? <==> dir.Some? && forall i :: 0 <= i < |dir.value| ==> dir.value[i].Some?
    ensures r.Ok? ==> |r.value| == |dir.value| && forall i :: 0 <= i < |r.value| ==> dir.value[i] == Some(r.value[i])
  {
    match dir
    case None => Err(DirectoryUnreadable)
    case Some(entries) =>
      var r := Traverse(ReadEntry, entries);
      assert r.Err? ==> r.error == ReadFailed by {
        if r.Err? {
          var k :| FirstFailure(ReadEntry, entries, k, r.error);
        }
      }
      assert r.Ok? ==> forall i :: 0 <= i < |entries| ==> entries[i] == Some(r.value[i]) by {
        if r.Ok? {
          forall i | 0 <= i < |entries| ensures entries[i] == Some(r.value[i]) {
            assert ReadEntry(entries[i]) == Ok(r.value[i]);
          }
        }
      }
      r
  }

  /** Where a post's page goes. */
  function PostPath(filename: String): Path {
    "./dist/blog/" + filename + ".html"
  }

  /** `render_posts`: one write per post, in order, until the first post
      whose template fails to render. */
  function RenderPosts(render: Post -> Option<String>, posts: seq<Post>): (r: (seq<Write>, Option<PostError>))
    ensures |r.0| <= |posts|
    ensures forall i :: 0 <= i < |r.0| ==>
              render(posts[i]).Some? && r.0[i] == Write(PostPath(posts[i].filename), render(posts[i]).value)
    ensures r.1.None? <==> |r.0| == |posts|
    ensures r.1.Some? ==> r.1 == Some(RenderFailed(|r.0|)) && render(posts[|r.0|]).None?
  {
    if posts == [] then ([], None)
    else
      match render(posts[0])
      case None => ([], Some(RenderFailed(0)))
      case Some(page) =>
        var (rest, failure) := RenderPosts(render, posts[1..]);
        var shifted := match failure
          case Some(RenderFailed(k)) => Some(RenderFailed(k + 1))
          case other => other;
        ([Write(PostPath(posts[0].filename), page)] + rest, shifted)
  }
}
