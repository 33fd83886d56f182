/** The slug derivation of `Article::new` (src/blog.rs): lowercase, replace
    every character other than an ASCII letter, digit or `-` by a space,
    split on whitespace and join the words with `-`. */
module Slugs {
  import opened Text

  predicate IsAsciiAlphanumeric(c: char) {
    'a' <= c <= 'z' || 'A' <= c <= 'Z' || '0' <= c <= '9'
  }

  /** The characters a slug may contain. */
  predicate IsSlugChar(c: char) {
    'a' <= c <= 'z' || '0' <= c <= '9' || c == '-'
  }

  predicate IsNotHyphen(c: char) {
    c != '-'
  }

  /** Lowercasing restricted to ASCII: `A`..`Z` become `a`..`z`, everything
      else is unchanged. */
  function AsciiLower(c: char): char {
    if 'A' <= c <= 'Z' then (c as int + 32) as char else c
  }

  function Lower(s: String): String {
    MapChars(s, AsciiLower)
  }

  /** The per-character map of the pipeline: kept characters stay, all others
      become a space. */
  function Sanitize(c: char): char {
    if IsAsciiAlphanumeric(c) || c == '-' then c else ' '
  }

  /** Rust's `char::is_whitespace`, the Unicode White_Space property. */
  predicate IsWhitespace(c: char) {
    || '\t' <= c <= '\r'
    || c == ' '
    || c == '\U{0085}'
    || c == '\U{00A0}'
    || c == '\U{1680}'
    || '\U{2000}' <= c <= '\U{200A}'
    || c == '\U{2028}'
    || c == '\U{2029}'
    || c == '\U{202F}'
    || c == '\U{205F}'
    || c == '\U{3000}'
  }

  predicate IsVisible(c: char) {
    !IsWhitespace(c)
  }

  /** Length of the longest prefix of `s` without whitespace. */
  function WordLength(s: String): (n: nat)
    ensures n <= |s|
    ensures forall i :: 0 <= i < n ==> !IsWhitespace(s[i])
    ensures n < |s| ==> IsWhitespace(s[n])
  {
    if s == [] || IsWhitespace(s[0]) then 0 else 1 + WordLength(s[1..])
  }

  /** Rust's `str::split_whitespace`: the maximal non-empty runs of
      non-whitespace characters, in order. */
  function Words(s: String): seq<String>
    decreases |s|
  {
    if s == [] then []
    else if IsWhitespace(s[0]) then Words(s[1..])
    else
      var n := WordLength(s);
      [s[..n]] + Words(s[n..])
  }

  /** Every word is a non-empty run of characters of `s` without whitespace,
      and together, in order, the words are exactly the non-whitespace
      characters of `s`. */
  lemma {:induction false} WordsShape(s: String)
    ensures forall w :: w in Words(s) ==> w != [] && forall c :: c in w ==> c in s && !IsWhitespace(c)
    ensures Concat(Words(s)) == Filter(s, IsVisible)
  {
    WordsSolid(s);
    WordsConcat(s);
  }

  lemma {:induction false} WordsSolid(s: String)
    ensures forall w :: w in Words(s) ==> w != [] && forall c :: c in w ==> c in s && !IsWhitespace(c)
    decreases |s|
  {
    if s == [] {
    } else if IsWhitespace(s[0]) {
      WordsSolid(s[1..]);
    } else {
      var n := WordLength(s);
      WordsSolid(s[n..]);
      assert Words(s) == [s[..n]] + Words(s[n..]);
      forall w | w in Words(s)
        ensures w != [] && forall c :: c in w ==> c in s && !IsWhitespace(c)
      {
        if w != s[..n] {
          assert w in Words(s[n..]);
          assert forall c :: c in s[n..] ==> c in s;
        } else {
          assert forall c :: c in s[..n] ==> c in s;
        }
      }
    }
  }

  lemma {:induction false} WordsConcat(s: String)
    ensures Concat(Words(s)) == Filter(s, IsVisible)
    decreases |s|
  {
    if s == [] {
    } else if IsWhitespace(s[0]) {
      WordsConcat(s[1..]);
    } else {
      var n := WordLength(s);
      var rest := Words(s[n..]);
      WordsConcat(s[n..]);
      assert Concat([s[..n]] + rest) == s[..n] + Concat(rest) by {
        assert ([s[..n]] + rest)[1..] == rest;
      }
      assert Filter(s, IsVisible) == s[..n] + Filter(s[n..], IsVisible) by {
        assert s == s[..n] + s[n..];
        FilterAppend(s[..n], s[n..], IsVisible);
        FilterKeepsAll(s[..n], IsVisible);
      }
    }
  }

  /** All words concatenated. */
  function Concat(ws: seq<String>): String {
    if ws == [] then [] else ws[0] + Concat(ws[1..])
  }

  /** Rust's `[&str]::join`: the words separated by `sep`. */
  function Join(ws: seq<String>, sep: char): (r: String)
    ensures forall c :: c in r ==> c == sep || exists w :: w in ws && c in w
  {
    if ws == [] then []
    else if |ws| == 1 then ws[0]
    else ws[0] + [sep] + Join(ws[1..], sep)
  }

  /** The first two stages of the pipeline: lowercase, then sanitize. */
  function Normalize(s: String): String {
    MapChars(Lower(s), Sanitize)
  }

  /** The lowercased and sanitized title holds only slug characters and
      spaces. */
  lemma SanitizedChars(title: String)
    ensures forall c :: c in MapChars(Lower(title), Sanitize) ==> c == ' ' || IsSlugChar(c)
  {
    var lower := Lower(title);
    var sanitized := MapChars(lower, Sanitize);
    MapCharsAt(title, AsciiLower);
    MapCharsAt(lower, Sanitize);
    forall c | c in sanitized ensures c == ' ' || IsSlugChar(c) {
      var i :| 0 <= i < |sanitized| && sanitized[i] == c;
      assert c == Sanitize(AsciiLower(title[i]));
    }
  }

  /** The slug of an article title. */
  function Slug(title: String): (slug: String)
    ensures forall i :: 0 <= i < |slug| ==> IsSlugChar(slug[i])
  {
    var sanitized := Normalize(title);
    var words := Words(sanitized);
    var slug := Join(words, '-');
    SanitizedChars(title);
    WordsShape(sanitized);
    assert forall i :: 0 <= i < |slug| ==> IsSlugChar(slug[i]) by {
      forall i | 0 <= i < |slug| ensures IsSlugChar(slug[i]) {
        var c := slug[i];
        assert c in slug;
        if c != '-' {
          var w :| w in words && c in w;
          assert c in sanitized && !IsWhitespace(c);
        }
      }
    }
    slug
  }

  /** A string made only of slug characters is its own slug. */
  lemma SlugFixesSlugStrings(w: String)
    requires forall i :: 0 <= i < |w| ==> IsSlugChar(w[i])
    ensures Slug(w) == w
  {
    var lower := Lower(w);
    MapCharsAt(w, AsciiLower);
    assert lower == w;
    var sanitized := MapChars(lower, Sanitize);
    MapCharsAt(w, Sanitize);
    assert sanitized == w;
    if w != [] {
      WordsTake(w, []);
      assert w + [] == w;
    }
  }

  /** Slugging a slug changes nothing. */
  lemma SlugIdempotent(title: String)
    ensures Slug(Slug(title)) == Slug(title)
  {
    SlugFixesSlugStrings(Slug(title));
  }

  /** The slug ignores ASCII case. */
  lemma SlugIgnoresCase(title: String)
    ensures Slug(Lower(title)) == Slug(title)
  {
    MapCharsAt(title, AsciiLower);
    MapCharsAt(Lower(title), AsciiLower);
    assert Lower(Lower(title)) == Lower(title);
  }

  /** Removing the hyphens from a join removes all separators. */
  lemma {:induction false} JoinWithoutHyphens(ws: seq<String>)
    ensures Filter(Join(ws, '-'), IsNotHyphen) == Filter(Concat(ws), IsNotHyphen)
    decreases |ws|
  {
    if |ws| == 1 {
      assert ws[1..] == [];
      assert Concat(ws) == ws[0];
    } else if |ws| > 1 {
      JoinWithoutHyphens(ws[1..]);
      FilterAppend(ws[0] + ['-'], Join(ws[1..], '-'), IsNotHyphen);
      FilterAppend(ws[0], ['-'], IsNotHyphen);
      FilterAppend(ws[0], Concat(ws[1..]), IsNotHyphen);
    }
  }

  /** Sanitizing, dropping whitespace and dropping hyphens leaves exactly the
      lowercased ASCII letters and digits. */
  lemma {:induction false} SanitizedAlphanumerics(title: String)
    ensures Filter(Filter(MapChars(Lower(title), Sanitize), IsVisible), IsNotHyphen)
         == Lower(Filter(title, IsAsciiAlphanumeric))
    decreases |title|
  {
    if title != [] {
      var head, tail := title[..1], title[1..];
      assert title == head + tail;
      SanitizedAlphanumerics(tail);
      MapCharsAppend(head, tail, AsciiLower);
      MapCharsAppend(Lower(head), Lower(tail), Sanitize);
      var h, t := MapChars(Lower(head), Sanitize), MapChars(Lower(tail), Sanitize);
      FilterAppend(h, t, IsVisible);
      FilterAppend(Filter(h, IsVisible), Filter(t, IsVisible), IsNotHyphen);
      FilterAppend(head, tail, IsAsciiAlphanumeric);
      MapCharsAppend(Filter(head, IsAsciiAlphanumeric), Filter(tail, IsAsciiAlphanumeric), AsciiLower);
      SanitizedAlphanumeric(title[0]);
    }
  }

  /** One character of the above. */
  lemma SanitizedAlphanumeric(c: char)
    ensures Filter(Filter(MapChars(Lower([c]), Sanitize), IsVisible), IsNotHyphen)
         == Lower(Filter([c], IsAsciiAlphanumeric))
  {
    assert Lower([c]) == [AsciiLower(c)];
    assert MapChars([AsciiLower(c)], Sanitize) == [Sanitize(AsciiLower(c))];
    if IsAsciiAlphanumeric(c) {
      assert Filter([c], IsAsciiAlphanumeric) == [c];
    } else {
      assert Filter([c], IsAsciiAlphanumeric) == [];
    }
  }

  /** The slug keeps the title's ASCII letters and digits, lowercased and in
      order: dropping its hyphens gives exactly them. */
  lemma SlugKeepsAlphanumerics(title: String)
    ensures Filter(Slug(title), IsNotHyphen) == Lower(Filter(title, IsAsciiAlphanumeric))
  {
    var sanitized := MapChars(Lower(title), Sanitize);
    WordsShape(sanitized);
    JoinWithoutHyphens(Words(sanitized));
    SanitizedAlphanumerics(title);
  }

  lemma {:induction false} ConcatEmpty(ws: seq<String>)
    requires forall w :: w in ws ==> w != []
    ensures Concat(ws) == [] <==> ws == []
  {
    if ws != [] {
      assert ws[0] in ws;
      assert |Concat(ws)| >= |ws[0]|;
    }
  }

  /** The slug is empty exactly when the title holds no ASCII letter, digit
      or hyphen. */
  lemma SlugEmpty(title: String)
    ensures Slug(title) == [] <==> forall c :: c in title ==> !(IsAsciiAlphanumeric(c) || c == '-')
  {
    var sanitized := MapChars(Lower(title), Sanitize);
    var words := Words(sanitized);
    WordsShape(sanitized);
    ConcatEmpty(words);
    assert Join(words, '-') == [] <==> words == [] by {
      if words != [] {
        assert |Join(words, '-')| >= |words[0]|;
      }
    }
    FilterEmpty(sanitized, IsVisible);
    MapCharsAt(title, AsciiLower);
    MapCharsAt(Lower(title), Sanitize);
    forall d | d in sanitized && IsVisible(d)
      ensures exists c :: c in title && (IsAsciiAlphanumeric(c) || c == '-')
    {
      var i :| 0 <= i < |sanitized| && sanitized[i] == d;
      KeptIffVisible(title[i]);
      assert title[i] in title;
    }
    forall c | c in title && (IsAsciiAlphanumeric(c) || c == '-')
      ensures exists d :: d in sanitized && IsVisible(d)
    {
      var i :| 0 <= i < |title| && title[i] == c;
      KeptIffVisible(c);
      assert sanitized[i] in sanitized;
    }
  }

  /** A title character survives sanitizing as a non-space exactly when it
      is an ASCII letter, digit or hyphen. */
  lemma KeptIffVisible(c: char)
    ensures IsVisible(Sanitize(AsciiLower(c))) <==> IsAsciiAlphanumeric(c) || c == '-'
  {
  }

  /** A run of visible characters ended by whitespace or the end of the text
      is one word. */
  lemma WordsTake(w: String, rest: String)
    requires w != [] && forall i :: 0 <= i < |w| ==> !IsWhitespace(w[i])
    requires rest == [] || IsWhitespace(rest[0])
    ensures Words(w + rest) == [w] + Words(rest)
  {
    var s := w + rest;
    WordLengthAppend(w, rest);
    assert s[..|w|] == w && s[|w|..] == rest;
  }

  lemma {:induction false} WordLengthAppend(w: String, rest: String)
    requires forall i :: 0 <= i < |w| ==> !IsWhitespace(w[i])
    requires rest == [] || IsWhitespace(rest[0])
    ensures WordLength(w + rest) == |w|
    decreases |w|
  {
    if w == [] {
      assert w + rest == rest;
    } else {
      assert (w + rest)[1..] == w[1..] + rest;
      WordLengthAppend(w[1..], rest);
    }
  }

  /** Whitespace alone yields no word. */
  lemma {:induction false} WordsBlank(gap: String)
    requires forall c :: c in gap ==> IsWhitespace(c)
    ensures Words(gap) == []
    decreases |gap|
  {
    if gap != [] {
      WordsBlank(gap[1..]);
    }
  }

  /** Whitespace, then a run of visible characters, then either nothing or
      more whitespace: the run is the first word. */
  lemma {:induction false} WordsCons(gap: String, w: String, rest: String)
    requires forall c :: c in gap ==> IsWhitespace(c)
    requires w != [] && forall i :: 0 <= i < |w| ==> !IsWhitespace(w[i])
    requires rest == [] || IsWhitespace(rest[0])
    ensures Words(gap + w + rest) == [w] + Words(rest)
    decreases |gap|
  {
    if gap == [] {
      assert gap + w + rest == w + rest;
      WordsTake(w, rest);
    } else {
      assert (gap + w + rest)[1..] == gap[1..] + w + rest;
      WordsCons(gap[1..], w, rest);
    }
  }

  predicate IsBlank(gap: String) {
    forall c :: c in gap ==> IsWhitespace(c)
  }

  predicate IsSolid(w: String) {
    w != [] && forall i :: 0 <= i < |w| ==> !IsWhitespace(w[i])
  }

  /** Title text that the slug drops: no ASCII letter, digit or hyphen. */
  predicate IsGap(g: String) {
    forall c :: c in g ==> !(IsAsciiAlphanumeric(c) || c == '-')
  }

  /** Title text that the slug keeps: ASCII letters, digits and hyphens. */
  predicate IsKept(w: String) {
    w != [] && forall c :: c in w ==> IsAsciiAlphanumeric(c) || c == '-'
  }

  lemma NormalizeAppend(a: String, b: String)
    ensures Normalize(a + b) == Normalize(a) + Normalize(b)
  {
    MapCharsAppend(a, b, AsciiLower);
    MapCharsAppend(Lower(a), Lower(b), Sanitize);
  }

  lemma NormalizeGap(g: String)
    requires IsGap(g)
    ensures IsBlank(Normalize(g)) && |Normalize(g)| == |g|
  {
    MapCharsAt(g, AsciiLower);
    MapCharsAt(Lower(g), Sanitize);
    forall c | c in Normalize(g) ensures IsWhitespace(c) {
      var i :| 0 <= i < |Normalize(g)| && Normalize(g)[i] == c;
      assert g[i] in g;
    }
  }

  lemma NormalizeKept(w: String)
    requires IsKept(w)
    ensures Normalize(w) == Lower(w) && IsSolid(Lower(w))
  {
    MapCharsAt(w, AsciiLower);
    MapCharsAt(Lower(w), Sanitize);
    forall i | 0 <= i < |w| ensures Sanitize(Lower(w)[i]) == Lower(w)[i] && !IsWhitespace(Lower(w)[i]) {
      assert w[i] in w;
    }
  }

  /** The text `gaps[0] + runs[0] + gaps[1] + ... + runs[n - 1] + gaps[n]`. */
  function Interleave(gaps: seq<String>, runs: seq<String>): String
    requires |gaps| == |runs| + 1
    decreases |runs|
  {
    if runs == [] then gaps[0] else gaps[0] + runs[0] + Interleave(gaps[1..], runs[1..])
  }

  function LowerEach(runs: seq<String>): seq<String> {
    seq(|runs|, i requires 0 <= i < |runs| => Lower(runs[i]))
  }

  /** Runs of kept characters separated by dropped text: the shape of
      every title. */
  predicate IsRunsAndGaps(gaps: seq<String>, runs: seq<String>) {
    && |gaps| == |runs| + 1
    && (forall i :: 0 <= i < |gaps| ==> IsGap(gaps[i]))
    && (forall i :: 0 < i < |runs| ==> gaps[i] != [])
    && (forall i :: 0 <= i < |runs| ==> IsKept(runs[i]))
  }

  /** The slug of any title: its runs of kept characters, lowercased and
      joined by exactly one hyphen, with no hyphen at either end however
      much dropped text surrounds them. */
  lemma SlugOfRuns(gaps: seq<String>, runs: seq<String>)
    requires IsRunsAndGaps(gaps, runs)
    ensures Slug(Interleave(gaps, runs)) == Join(LowerEach(runs), '-')
  {
    WordsOfRuns(gaps, runs);
  }

  /** After normalizing, the runs are exactly the words. */
  lemma {:induction false} WordsOfRuns(gaps: seq<String>, runs: seq<String>)
    requires IsRunsAndGaps(gaps, runs)
    ensures Words(Normalize(Interleave(gaps, runs))) == LowerEach(runs)
    decreases |runs|
  {
    NormalizeGap(gaps[0]);
    if runs == [] {
      WordsBlank(Normalize(gaps[0]));
    } else {
      var tail := Interleave(gaps[1..], runs[1..]);
      assert IsRunsAndGaps(gaps[1..], runs[1..]) by {
        forall i | 0 < i < |runs[1..]| ensures gaps[1..][i] != [] {
          assert gaps[1..][i] == gaps[i + 1];
        }
      }
      WordsOfRuns(gaps[1..], runs[1..]);
      NormalizeAppend(gaps[0], runs[0]);
      NormalizeAppend(gaps[0] + runs[0], tail);
      NormalizeKept(runs[0]);
      StartsBlank(gaps[1..], runs[1..]);
      WordsCons(Normalize(gaps[0]), Lower(runs[0]), Normalize(tail));
      assert LowerEach(runs) == [Lower(runs[0])] + LowerEach(runs[1..]);
    }
  }

  /** The normalized text starts with whitespace, or is empty, when it
      starts with a gap that is non-empty unless nothing follows it. */
  lemma StartsBlank(gaps: seq<String>, runs: seq<String>)
    requires |gaps| == |runs| + 1 && IsGap(gaps[0])
    requires runs != [] ==> gaps[0] != []
    ensures var n := Normalize(Interleave(gaps, runs)); n == [] || IsWhitespace(n[0])
  {
    NormalizeGap(gaps[0]);
    if runs != [] {
      var rest := runs[0] + Interleave(gaps[1..], runs[1..]);
      assert Interleave(gaps, runs) == gaps[0] + rest;
      NormalizeAppend(gaps[0], rest);
      assert Normalize(gaps[0])[0] in Normalize(gaps[0]);
    }
  }

  /** A title made of two runs of kept characters, separated by dropped
      text, slugs to the two runs lowercased and joined by a hyphen. */
  lemma SlugOfTwoWords(g0: String, w1: String, g1: String, w2: String, g2: String)
    requires IsGap(g0) && IsGap(g1) && IsGap(g2) && g1 != []
    requires IsKept(w1) && IsKept(w2)
    ensures Slug(g0 + w1 + g1 + w2 + g2) == Lower(w1) + "-" + Lower(w2)
  {
    var gaps, runs := [g0, g1, g2], [w1, w2];
    assert IsRunsAndGaps(gaps, runs);
    SlugOfRuns(gaps, runs);
    assert Interleave(gaps, runs) == g0 + w1 + g1 + w2 + g2 by {
      assert gaps[1..] == [g1, g2] && runs[1..] == [w2];
      assert [g1, g2][1..] == [g2] && [w2][1..] == [];
      assert Interleave([g1, g2], [w2]) == g1 + w2 + g2;
      AppendAssociates(g0 + w1, g1 + w2, g2);
      AppendAssociates(g0 + w1, g1, w2);
    }
    var lowered := [Lower(w1), Lower(w2)];
    assert LowerEach(runs) == lowered;
    assert lowered[1..] == [Lower(w2)];
  }

  /** The same for three runs. */
  lemma SlugOfThreeWords(g0: String, w1: String, g1: String, w2: String, g2: String, w3: String, g3: String)
    requires IsGap(g0) && IsGap(g1) && IsGap(g2) && IsGap(g3) && g1 != [] && g2 != []
    requires IsKept(w1) && IsKept(w2) && IsKept(w3)
    ensures Slug(g0 + w1 + g1 + w2 + g2 + w3 + g3) == Lower(w1) + "-" + Lower(w2) + "-" + Lower(w3)
  {
    var gaps, runs := [g0, g1, g2, g3], [w1, w2, w3];
    assert IsRunsAndGaps(gaps, runs);
    SlugOfRuns(gaps, runs);
    assert Interleave(gaps, runs) == g0 + w1 + g1 + w2 + g2 + w3 + g3 by {
      var tail := g1 + w2 + g2 + w3 + g3;
      assert gaps[1..] == [g1, g2, g3] && runs[1..] == [w2, w3];
      assert [g1, g2, g3][1..] == [g2, g3] && [w2, w3][1..] == [w3];
      assert [g2, g3][1..] == [g3] && [w3][1..] == [];
      assert Interleave([g2, g3], [w3]) == g2 + w3 + g3;
      assert Interleave([g1, g2, g3], [w2, w3]) == g1 + w2 + (g2 + w3 + g3);
      Regroup(g1, w2, g2, w3, g3);
      Regroup(g0 + w1, g1, w2, g2 + w3 + g3, []);
      assert Interleave(gaps, runs) == g0 + w1 + tail;
      Regroup(g0, w1, g1, w2, g2 + w3 + g3);
      Regroup(g0 + w1 + g1 + w2, g2, w3, g3, []);
    }
    var lowered := [Lower(w1), Lower(w2), Lower(w3)];
    assert LowerEach(runs) == lowered;
    assert lowered[1..] == [Lower(w2), Lower(w3)];
    assert lowered[1..][1..] == [Lower(w3)];
    assert Join(lowered[1..], '-') == Lower(w2) + "-" + Lower(w3);
    assert Join(lowered, '-') == Lower(w1) + "-" + Lower(w2) + "-" + Lower(w3);
  }

  /** Re-associating a concatenation of four strings onto a prefix. */
  lemma Regroup(x: String, a: String, b: String, c: String, d: String)
    ensures x + (a + b + c + d) == x + a + b + c + d
  {
    AppendAssociates(x, a + b + c, d);
    AppendAssociates(x, a + b, c);
    AppendAssociates(x, a, b);
  }

  /** The worked examples of src/blog.rs's tests (each title is passed as a
      parameter equal to the test's literal). */
  lemma SlugExampleLowercase(title: String)
    requires title == "Test Article"
    ensures Slug(title) == "test-article"
  {
    LowercasePieces(title);
    SlugOfTwoWords("", "Test", " ", "Article", "");
    LowercaseResult();
  }

  lemma LowercasePieces(title: String)
    requires title == "Test Article"
    ensures title == "" + "Test" + " " + "Article" + ""
  {
  }

  lemma LowercaseResult()
    ensures Lower("Test") + "-" + Lower("Article") == "test-article"
  {
    LowerWord("Test", "test");
    LowerWord("Article", "article");
    LowercaseResultJoined();
  }

  lemma LowercaseResultJoined()
    ensures "test" + "-" + "article" == "test-article"
  {
  }

  lemma SlugExamplePunctuation(title: String)
    requires title == "Hello, World!"
    ensures Slug(title) == "hello-world"
  {
    PunctuationPieces(title);
    SlugOfTwoWords("", "Hello", ", ", "World", "!");
    PunctuationResult();
  }

  lemma PunctuationPieces(title: String)
    requires title == "Hello, World!"
    ensures title == "" + "Hello" + ", " + "World" + "!"
  {
  }

  lemma PunctuationResult()
    ensures Lower("Hello") + "-" + Lower("World") == "hello-world"
  {
    LowerWord("Hello", "hello");
    LowerWord("World", "world");
    PunctuationResultJoined();
  }

  lemma PunctuationResultJoined()
    ensures "hello" + "-" + "world" == "hello-world"
  {
  }

  lemma SlugExampleSpaces(title: String)
    requires title == "  Multiple   Spaces  "
    ensures Slug(title) == "multiple-spaces"
  {
    SpacesPieces(title);
    SlugOfTwoWords("  ", "Multiple", "   ", "Spaces", "  ");
    SpacesResult();
  }

  lemma SpacesResult()
    ensures Lower("Multiple") + "-" + Lower("Spaces") == "multiple-spaces"
  {
    LowerWord("Multiple", "multiple");
    LowerWord("Spaces", "spaces");
    SpacesResultJoined();
  }

  lemma SpacesResultJoined()
    ensures "multiple" + "-" + "spaces" == "multiple-spaces"
  {
  }

  lemma SpacesPieces(title: String)
    requires title == "  Multiple   Spaces  "
    ensures title == "  " + "Multiple" + "   " + "Spaces" + "  "
  {
  }

  lemma SlugExampleHyphens(title: String)
    requires title == "my-article"
    ensures Slug(title) == "my-article"
  {
    SlugFixesSlugStrings(title);
  }

  /** Accented letters are not ASCII: each becomes a separator. */
  lemma SlugExampleUnicode(title: String)
    requires title == "caf\U{00E9} r\U{00E9}sum\U{00E9}"
    ensures Slug(title) == "caf-r-sum"
  {
    UnicodePieces(title);
    SlugOfThreeWords("", "caf", "\U{00E9} ", "r", "\U{00E9}", "sum", "\U{00E9}");
    UnicodeResult();
  }

  lemma UnicodePieces(title: String)
    requires title == "caf\U{00E9} r\U{00E9}sum\U{00E9}"
    ensures title == "" + "caf" + "\U{00E9} " + "r" + "\U{00E9}" + "sum" + "\U{00E9}"
  {
  }

  lemma UnicodeResult()
    ensures Lower("caf") + "-" + Lower("r") + "-" + Lower("sum") == "caf-r-sum"
  {
    LowerWord("caf", "caf");
    LowerWord("r", "r");
    LowerWord("sum", "sum");
    UnicodeResultJoined();
  }

  lemma UnicodeResultJoined()
    ensures "caf" + "-" + "r" + "-" + "sum" == "caf-r-sum"
  {
  }

  /** Lowercasing one short word. */
  lemma LowerWord(w: String, lower: String)
    requires |w| == |lower| <= 8
    requires forall i :: 0 <= i < |w| ==> AsciiLower(w[i]) == lower[i]
    ensures Lower(w) == lower
  {
    MapCharsAt(w, AsciiLower);
  }
}
