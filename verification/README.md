# matx.dev site generator — a Dafny model

matx.dev is a small static-site generator written in Rust. It reads markdown
articles with a YAML front-matter header. Each article becomes an HTML page,
and an index page lists them all. This project models the pure logic of that
pipeline in Dafny and proves properties of it. Three pieces are modelled:

- **Articles** (`src/blog.rs`):
  - the front-matter splitter, which needs an opening `---\n`, cuts at the
    first `\n---` and trims leading line breaks from the body;
  - the slug pipeline: lowercase, map every character other than an ASCII
    letter, digit or `-` to a space, split on whitespace, join with `-`;
  - the `title`/`date` checks of `Article::new`;
  - `get_articles`, which sorts directory entries by descending file name
    and turns each into an article.
- **Posts** (`src/posts.rs`), the older pipeline:
  - a line-by-line splitter that flips between body and header on every
    line that is exactly `---`;
  - the file-name rule (spaces become hyphens);
  - the `title`/`description`/`date` checks of `load_posts`;
  - `read_posts` and `render_posts`.
- **Output** (`src/renderer.rs`): `render_index` and `render_blog`, seen as a
  sequence of whole-file writes applied to a file map, last write wins.

The YAML loader, the markdown renderer and the template engine are
function-typed parameters. The model states what it needs of them and
nothing more. Directory listings and file contents are inputs. The output
directory is a `map<Path, String>`. Every `expect`, `unwrap` and `?` of the
source becomes an error value:
- `SplitError`, `ArticleError` and `LoadError` for articles;
- `PostError` for posts;
- `RenderError` for output.

A run that stops early keeps the writes it made before the failure, in
`Renderer.Outcome` and in the first component of `Posts.RenderPosts`.

Modules, in dependency order:
- `Results`: `Option`, `Result` and the stop-at-first-error traversal.
- `Text`: prefix and substring search, `str::lines`, trimming.
- `Metadata`: a YAML document as a map from key to scalar.
- `Slugs`
- `Ordering`: byte-wise name order and the stable descending sort.
- `Blog`
- `BlogExamples`: the unit tests of `src/blog.rs` as lemmas.
- `Files`: the write fold.
- `Renderer`
- `Posts`

Observations the proofs make precise:
- An article whose slug is `index` overwrites `dist/blog/index.html`, the
  copy of the index page (`Renderer.IndexSlugOverwritesBlogIndex`). The
  "both index paths hold the same page" property only holds when no slug is
  `index` (`Renderer.MirrorIdentical`).
- Two articles with the same slug silently collapse to the later one's page
  (`Renderer.LaterArticleWins`).
- An empty header, `---\n---\n`, is reported as a missing closing delimiter.
  The closing delimiter needs a newline before its dashes, and the opening
  delimiter has already consumed that newline (`Blog.EmptyHeaderRejected`).
- A title that holds no ASCII letter, digit or hyphen has the empty slug.
  Its page is `dist/blog/.html` (`Slugs.SlugEmpty`, `Renderer.EmptySlugPath`).
- In `load_posts`, every file is read before any is parsed. So an unreadable
  entry anywhere in the listing is reported ahead of a malformed post that
  comes before it (`Posts.LoadPostsFromDirectory`).

## Model

| member | source | states |
|---|---|---|
| `Text.FindFrom` | src/blog.rs:83 | The result is the first position at or after `from` where the pattern occurs; `None` exactly when it occurs nowhere from there on. |
| `Text.TrimStartLineBreaks` | src/blog.rs:85 | The result is a suffix of the input, every character it drops is `\n` or `\r`, and it does not itself start with either. |
| `Text.LinesCrLf` | src/posts.rs:83 | A `\r\n` line ending ends a line and is dropped whole: the line before it comes out without its carriage return, and the following lines come after it. |
| `Text.LinesRoundTrip` | src/posts.rs:83 | For text without `\r`, the lines, each put back with a newline after it, give the text again, with a final newline added when it had none. |
| `Blog.SplitHeaderAndBody` | src/blog.rs:78-87 | The missing-opening error occurs exactly when the text does not start with `---\n`. The missing-closing error occurs exactly when the rest holds no `\n---`. On success the text is opening + header + `\n---` + a run of line breaks + body, where the header holds no `\n---` and the body does not start with a line break. |
| `Blog.SplitComplete` | src/blog.rs:78-87 | The converse: any header and body that reassemble the text in that way are the ones returned. The contract therefore determines the split. |
| `Blog.EmptyHeaderRejected` | src/blog.rs:79-84 | `---\n---\n` is rejected as missing its closing delimiter. |
| `BlogExamples.SplitExampleValid` | src/blog.rs:94-99 | The valid test input splits into the header `title: Test\ndate: 2025-01-01` and the body `This is the body\n`. |
| `BlogExamples.SplitExampleNoDelimiters` | src/blog.rs:102-106 | Text without any delimiter is rejected for its missing opening delimiter. |
| `BlogExamples.SplitExampleEmptyBody` | src/blog.rs:109-114 | A header followed only by the closing delimiter and a newline gives an empty body. |
| `BlogExamples.SplitExampleDashesInBody` | src/blog.rs:117-122 | A `---` line after the first closing delimiter stays verbatim in the body. |
| `BlogExamples.SplitExampleNoOpening` | src/blog.rs:125-129 | A closing delimiter without an opening one is rejected for the missing opening delimiter. |
| `BlogExamples.SplitExampleNoClosing` | src/blog.rs:132-136 | An opening delimiter with no `\n---` after it is rejected for the missing closing delimiter. |
| `Blog.NewArticle` | src/blog.rs:16-55 | Each error occurs exactly in its case. A header that is not YAML is an invalid header. A stream with no document is the empty-document error. A first document without a string `title` is missing its title. One with a title but no string `date` is missing its date, so the title is checked first. On success, title and date are the document's strings, the body is the markdown rendering of the body text, and the slug is `Slug(title)`. |
| `BlogExamples.MessagesNameProperty` | src/blog.rs:22-26 | The missing-title message contains `title` and the missing-date message contains `date`. |
| `BlogExamples.ArticleExampleValid` | src/blog.rs:139-147 | The valid test header gives the article titled `Test Article` and dated `Jan 1, 2025`, whose body is the markdown renderer's output for the body text. The test's check on the HTML body is left to that renderer. The lemma also gives the slug `test-article`, which is what the slug test at src/blog.rs:166-171 expects. |
| `BlogExamples.ArticleExampleMissingTitle` | src/blog.rs:150-155 | A header with only a date is rejected for its missing title. |
| `BlogExamples.ArticleExampleMissingDate` | src/blog.rs:158-163 | A header with only a title is rejected for its missing date. |
| `BlogExamples.ArticleNonStringDate` | src/blog.rs:24-27 | A date that is not a string counts as missing. |
| `BlogExamples.ArticleTitleCheckedFirst` | src/blog.rs:20-27 | With neither property present, the error is the missing title. |
| `Slugs.Slug` | src/blog.rs:34-47 | Every character of a slug is a lower-case ASCII letter, a digit or a hyphen; in particular a slug holds no whitespace. |
| `Slugs.WordsShape` | src/blog.rs:45 | Splitting on whitespace yields non-empty words, each made of characters of the input and holding no whitespace. Concatenated in order, the words are exactly the non-whitespace characters of the input. |
| `Slugs.SlugKeepsAlphanumerics` | src/blog.rs:34-47 | Removing the hyphens from a slug leaves exactly the title's ASCII letters and digits, lowercased and in order. |
| `Slugs.SlugEmpty` | src/blog.rs:34-47 | The slug is empty exactly when the title holds no ASCII letter, digit or hyphen. |
| `Slugs.SlugFixesSlugStrings` | src/blog.rs:34-47 | A string made only of lower-case letters, digits and hyphens is its own slug. |
| `Slugs.SlugIdempotent` | src/blog.rs:34-47 | Slugging a slug changes nothing. |
| `Slugs.SlugIgnoresCase` | src/blog.rs:34-47 | Lowercasing the title first does not change its slug. |
| `Slugs.SlugOfRuns` | src/blog.rs:34-47 | Write any title as runs of kept characters (ASCII letters, digits, hyphens) separated by dropped text; only the text at either end may be empty. Its slug is then exactly those runs, lowercased, in order, joined by a single hyphen, with no hyphen added at either end. |
| `Slugs.SlugOfTwoWords` | src/blog.rs:34-47 | The two-run instance: dropped text, a run, dropped text, a run, dropped text slugs to the two runs lowercased and joined by one hyphen. |
| `Slugs.SlugOfThreeWords` | src/blog.rs:34-47 | The three-run instance. |
| `Slugs.SlugExampleLowercase` | src/blog.rs:166-171 | `Test Article` slugs to `test-article`. |
| `Slugs.SlugExamplePunctuation` | src/blog.rs:174-179 | `Hello, World!` slugs to `hello-world`. |
| `Slugs.SlugExampleSpaces` | src/blog.rs:182-187 | `  Multiple   Spaces  ` slugs to `multiple-spaces`. |
| `Slugs.SlugExampleHyphens` | src/blog.rs:190-195 | `my-article` slugs to itself. |
| `Slugs.SlugExampleUnicode` | src/blog.rs:198-203 | `café résumé` slugs to `caf-r-sum`: each accented letter becomes a separator. |
| `Ordering.LexLeTotal` | src/blog.rs:63 | Any two file names are comparable. |
| `Ordering.LexLeAntisymmetric` | src/blog.rs:63 | Names that sort at or before each other are equal. |
| `Ordering.LexLeTransitive` | src/blog.rs:63 | The name order is transitive. |
| `Ordering.SortDescending` | src/blog.rs:63 | The sorted entries are a permutation of the input, in non-increasing name order. |
| `Ordering.SortDescendingKeepsSorted` | src/blog.rs:63 | Input already in non-increasing order comes out unchanged. |
| `Ordering.StrictlyDescendingUnique` | src/blog.rs:63 | Two strictly descending arrangements of the same entries are equal. With distinct file names, as a directory has, the sorted order is fully determined. |
| `Ordering.SortExample` | src/blog.rs:63 | `2024-02` is placed before `2024-01`: newer date-prefixed names come first. |
| `Blog.LoadArticle` | src/blog.rs:67-72 | One entry loads exactly when it is readable, splits, and its header yields an article. The article is then the one `Blog.NewArticle` builds from the split's header and body. A read failure is reported exactly when the entry is unreadable. A failed split is reported as a split failure carrying the splitter's error. A failed header is reported as an article failure carrying `Blog.NewArticle`'s error. Every error also records the entry's file; that field is the model's own (see Left out). |
| `Results.Traverse` | src/blog.rs:65-75 | Applying a fallible step to each element in order succeeds exactly when every step does, giving the values pointwise. Otherwise the result is the error of the first failing element. |
| `Results.TraverseDetermined` | src/posts.rs:45-62 | The first failure is unique, so any result with the three properties above is the traversal's result. |
| `Blog.LoadAll` | src/blog.rs:65-75 | The loop succeeds exactly when every entry loads, giving one article per entry, in order. A failure is the error of the first entry that fails, and every entry before it loads. |
| `Blog.GetArticles` | src/blog.rs:58-76 | The directory error occurs exactly when the directory cannot be listed. Otherwise the entries are put in some non-increasing name order that is a permutation of the listing. The result is then one article per entry in that order, or the first failure in that order. |
| `Files.ApplyIsLastWrite` | src/renderer.rs:45 | After a sequence of writes, a written path holds the contents of the last write to it, and an unwritten path holds what it held before. |
| `Files.UnwrittenUnchanged` | src/renderer.rs:27-28 | A path that no write touches keeps its presence and its contents. |
| `Files.LastWriteWins` | src/renderer.rs:45 | A write that no later write touches decides its path's contents. |
| `Renderer.RenderIndex` | src/renderer.rs:17-30 | An unreadable template and a failed render are each reported exactly in their case. The step succeeds exactly when the template reads and renders, and then exactly two writes happen, of the same rendered page: first to `dist/index.html`, then to `dist/blog/index.html`. |
| `Renderer.RenderArticles` | src/renderer.rs:37-46 | The writes are, in order, the rendered pages of a prefix of the articles, each to its slug's path. The run stops exactly at the first article whose page fails to render, reporting its position. |
| `Renderer.RenderBlog` | src/renderer.rs:32-47 | A missing article template is reported exactly when it is not registered, and then nothing is written. Otherwise the articles are rendered as above. |
| `Renderer.RenderSite` | src/lib.rs:21-23 | The index goes first. A failure there stops the run before any article; otherwise the article writes follow the index writes. |
| `Renderer.ArticlePathClash` | src/renderer.rs:44 | An article page lands on `dist/blog/index.html` exactly when its slug is `index`, and never on `dist/index.html`. |
| `Renderer.ArticlePathInjective` | src/renderer.rs:44 | Distinct slugs give distinct page paths. |
| `Renderer.ArticlePathIsChild` | src/renderer.rs:44 | With a slug made by the slug pipeline, the page's file name holds no `/`, so the page is a direct child of `dist/blog`. |
| `Renderer.EmptySlugPath` | src/renderer.rs:44 | An article with the empty slug is still written, to `dist/blog/.html`. |
| `Renderer.ArticleContextIgnoresSlug` | src/renderer.rs:40 | An article's template context is exactly its title, date and body; the slug does not reach it. |
| `Renderer.OnlyKnownPathsWritten` | src/renderer.rs:17-47 | A path that is neither an index path nor some article's page path is left unchanged by a run. |
| `Renderer.MirrorIdentical` | src/renderer.rs:27-28 | When the index renders and no slug is `index`, both index paths end up holding the one rendered index page. |
| `Renderer.IndexSlugOverwritesBlogIndex` | src/renderer.rs:44-45 | Take any article list whose index renders. Suppose the run writes the page of an article with slug `index`, and no later article has that slug. Then that page replaces the blog copy of the index, whether or not later articles render. |
| `Renderer.LaterArticleWins` | src/renderer.rs:37-46 | When the whole run succeeds, an article's page survives at its path unless a later article has the same slug. |
| `Posts.SplitHeaderAndBody` | src/posts.rs:78-96 | The splitter's output equals the reference routing: a non-delimiter line goes to the header exactly when an odd number of `---` lines come before it, and to the body otherwise. Each line is followed by a newline. |
| `Posts.RouteLines` | src/posts.rs:83-93 | The line loop computes exactly the header and body of that reference routing. |
| `Posts.RouteHasNoDelimiter` | src/posts.rs:84-85 | No `---` line reaches either output. |
| `Posts.RoutePartitions` | src/posts.rs:83-93 | Header lines, body lines and delimiter lines add up to all lines. Together, the two outputs hold each non-delimiter line exactly as often as the input does. |
| `Posts.RouteWithoutDelimiters` | src/posts.rs:81-92 | Without `---` lines, the header is empty and the body is all lines. |
| `Posts.SplitWithoutDelimiters` | src/posts.rs:78-96 | A post without delimiter lines (and without carriage returns) has an empty header. Its body is the text itself, with a final newline ensured. |
| `Posts.RouteExampleToggleBack` | src/posts.rs:84-85 | In `---`, `t`, `---`, `b`, `---`, `m` the second delimiter switches back to the body and the third to the header: the header is `t`, `m` and the body is `b`. |
| `Posts.RouteExampleNearDelimiters` | src/posts.rs:84 | `--- ` and `----` do not toggle; they are ordinary body lines. |
| `Posts.Filename` | src/posts.rs:56 | The file name has the title's length, holds no space, and keeps every character of the title that is not a space. |
| `Posts.FilenameHyphens` | src/posts.rs:56 | Where the title had a space, the file name has a hyphen. |
| `Posts.FilenameIdempotent` | src/posts.rs:56 | Applying the rule to a file name changes nothing. |
| `Posts.NewPost` | src/posts.rs:46-57 | Each error occurs exactly in its case, in the order header parse, title, description, date. On success, the three properties are the document's strings, the body is the body the splitter gives, and the file name is the title's. |
| `Posts.LoadPosts` | src/posts.rs:45-62 | Succeeds exactly when every text makes a post, giving one post per text, in order. Otherwise it reports the error of the first text that fails, every text before it having succeeded. The loop's result equals the stop-at-first-error traversal `Results.Traverse`. |
| `Posts.ReadPosts` | src/posts.rs:65-76 | The directory error occurs exactly when the directory cannot be listed. A read error occurs exactly when some entry cannot be read. Reading succeeds exactly when the directory lists and every entry reads, and the result is then every entry's text, in listing order. |
| `Posts.LoadPostsFromDirectory` | src/posts.rs:41-63 | The directory and read errors occur exactly as for reading, whatever the texts hold. Success happens exactly when every entry is readable and makes a post, and gives those posts in listing order. When every entry reads but some post fails, the error is that of the first failing post, all earlier posts being valid. |
| `Posts.RenderPosts` | src/posts.rs:21-39 | The writes are, in order, the rendered pages of a prefix of the posts, each to `./dist/blog/<file name>.html`. The run stops exactly at the first post whose template fails, reporting its position. |

## Left out

- Slugs.Slug: lowercasing is ASCII-only. Rust's `to_lowercase` also maps a few non-ASCII characters onto ASCII, for example U+212A KELVIN SIGN to `k`, and U+0130 to `i` followed by a combining dot. In the model every non-ASCII character becomes a separator, so such titles get a different slug.
- YAML parsing (`yaml_rust2` in `src/blog.rs`, `serde_yaml` in `src/posts.rs`) is a parameter. For articles, it returns the documents of the stream, or nothing when the text is not YAML. For posts, it returns one document, or nothing. A document that is not a mapping is given as an empty map. That matches indexing a non-mapping value, which yields no string. `Metadata.AsStr` stands for `as_str()` on the indexed value.
- Markdown rendering (comrak with syntect) is the parameter `markdownToHtml`. Its output is not modelled.
- Template rendering (minijinja, askama) is a parameter that may fail. The page contents are not modelled.
- Filesystem access is replaced by inputs and a file map:
  - `read_dir` is an optional list of entries;
  - `read_to_string` is an optional text per entry;
  - the output directory is a map from path to contents.

  Directory entries that `get_articles` drops through `.flatten()` are simply absent from its input list. The order `read_dir` yields in `src/posts.rs` is taken as given.
- The `file` field of `Blog.LoadError` is the model's own addition. The source's panics on an unreadable file, a bad split or a bad header (src/blog.rs:17-26, 68, 79-84) carry no file name.
- The body check of the valid-article test (src/blog.rs:146) depends on the markdown renderer. It is not modelled; `BlogExamples.ArticleExampleValid` states the body as `markdownToHtml` of the body text.
- `fs::write` and `create_dir_all` failures are not modelled. Writes always succeed, and directories are implicit in the paths.
- The panic message of an empty YAML stream (an index out of bounds in `Article::new`) is not the program's own text. The model reports that case as `EmptyHeaderDocument`.
- The renderer's caller is not part of this model. `Renderer.RenderSite` takes its index-then-articles order from `src/lib.rs`. That file and `src/template.rs` carry older copies of `render_index`/`render_blog`, and those copies are not modelled. The `src/lib.rs` copy writes only `dist/index.html`; the `src/template.rs` copy reads a `description` field that `Article` does not have.
- `init_dist`, the static-file copy, the HTTP server (`serve/src/main.rs`), `src/main.rs` and the template struct declarations (`src/templates.rs`) hold no logic of the modelled core.
- `str::split_whitespace` is modelled with the Unicode White_Space set. Rust's `to_lowercase` is applied first, so no Unicode case mapping happens in the model (see `Slugs.Slug` above).
- The worked splitter examples of `src/posts.rs` are stated on line sequences (`Posts.RouteExampleToggleBack`, `Posts.RouteExampleNearDelimiters`). The passage from text to lines is covered in general by `Text.LinesRoundTrip`.
