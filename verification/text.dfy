/** Character strings and the few standard-library string operations the
    generator relies on, written out so that their behaviour is explicit. */
module Text {
  import opened Results

  type String = seq<char>

  predicate StartsWith(s: String, prefix: String) {
    |prefix| <= |s| && s[..|prefix|] == prefix
  }

  /** `pattern` occurs in `s` at index `i`. */
  predicate OccursAt(s: String, pattern: String, i: int) {
    0 <= i && i + |pattern| <= |s| && s[i..i + |pattern|] == pattern
  }

  predicate Contains(s: String, pattern: String) {
    exists i :: 0 <= i <= |s| && OccursAt(s, pattern, i)
  }

  /** The first index at or after `from` where `pattern` occurs; this is the
      search behind Rust's `str::split_once`. */
  function FindFrom(s: String, pattern: String, from: nat): (r: Option<nat>)
    requires from <= |s|
    ensures r.Some? ==> from <= r.value && OccursAt(s, pattern, r.value)
    ensures r.Some? ==> forall j :: from <= j < r.value ==> !OccursAt(s, pattern, j)
    ensures r.None? ==> forall j :: from <= j <= |s| ==> !OccursAt(s, pattern, j)
    decreases |s| - from
  {
    if OccursAt(s, pattern, from) then Some(from)
    else if from == |s| then None
    else FindFrom(s, pattern, from + 1)
  }

  /** `f` applied to every character. */
  function MapChars(s: String, f: char -> char): (r: String)
    ensures |r| == |s|
  {
    if s == [] then [] else [f(s[0])] + MapChars(s[1..], f)
  }

  lemma {:induction false} MapCharsAt(s: String, f: char -> char)
    ensures forall i :: 0 <= i < |s| ==> MapChars(s, f)[i] == f(s[i])
    decreases |s|
  {
    if s != [] {
      MapCharsAt(s[1..], f);
    }
  }

  lemma {:induction false} MapCharsAppend(a: String, b: String, f: char -> char)
    ensures MapChars(a + b, f) == MapChars(a, f) + MapChars(b, f)
    decreases |a|
  {
    if a == [] {
      assert a + b == b;
    } else {
      assert (a + b)[1..] == a[1..] + b;
      MapCharsAppend(a[1..], b, f);
    }
  }

  /** The characters of `s` that satisfy `keep`, in order. */
  function Filter(s: String, keep: char -> bool): (r: String)
    ensures |r| <= |s|
    ensures forall c :: c in r ==> c in s && keep(c)
  {
    if s == [] then [] else (if keep(s[0]) then [s[0]] else []) + Filter(s[1..], keep)
  }

  lemma {:induction false} FilterAppend(a: String, b: String, keep: char -> bool)
    ensures Filter(a + b, keep) == Filter(a, keep) + Filter(b, keep)
    decreases |a|
  {
    if a != [] {
      assert (a + b)[1..] == a[1..] + b;
      FilterAppend(a[1..], b, keep);
    } else {
      assert a + b == b;
    }
  }

  lemma {:induction false} FilterKeepsAll(s: String, keep: char -> bool)
    requires forall c :: c in s ==> keep(c)
    ensures Filter(s, keep) == s
    decreases |s|
  {
    if s != [] {
      FilterKeepsAll(s[1..], keep);
    }
  }

  lemma {:induction false} FilterEmpty(s: String, keep: char -> bool)
    ensures Filter(s, keep) == [] <==> forall c :: c in s ==> !keep(c)
    decreases |s|
  {
    if s != [] {
      FilterEmpty(s[1..], keep);
      assert forall c :: c in s ==> c == s[0] || c in s[1..];
    }
  }

  predicate IsLineBreak(c: char) {
    c == '\n' || c == '\r'
  }

  /** Rust's `trim_start_matches(['\n', '\r'])`: the longest suffix of `s`
      obtained by dropping line-break characters from its front. */
  function TrimStartLineBreaks(s: String): (r: String)
    ensures |r| <= |s| && r == s[|s| - |r|..]
    ensures forall i :: 0 <= i < |s| - |r| ==> IsLineBreak(s[i])
    ensures r == [] || !IsLineBreak(r[0])
  {
    if s != [] && IsLineBreak(s[0]) then TrimStartLineBreaks(s[1..]) else s
  }

  /** Any suffix that drops only line breaks and starts with none is the
      trimmed string: the contract of `TrimStartLineBreaks` determines it. */
  lemma TrimStartLineBreaksUnique(s: String, r: String)
    requires |r| <= |s| && r == s[|s| - |r|..]
    requires forall i :: 0 <= i < |s| - |r| ==> IsLineBreak(s[i])
    requires r == [] || !IsLineBreak(r[0])
    ensures TrimStartLineBreaks(s) == r
  {
  }

  /** Length of the first line of `s`: the index of its first `'\n'`, or
      `|s|` when there is none. */
  function LineLength(s: String): (n: nat)
    ensures n <= |s|
    ensures forall i :: 0 <= i < n ==> s[i] != '\n'
    ensures n < |s| ==> s[n] == '\n'
  {
    if s == [] || s[0] == '\n' then 0 else 1 + LineLength(s[1..])
  }

  /** Drops one `'\r'` from the end of a line, if there is one. */
  function StripCarriageReturn(line: String): String {
    if line != [] && line[|line| - 1] == '\r' then line[..|line| - 1] else line
  }

  /** Rust's `str::lines`: split after every `'\n'`, drop the `'\n'` and a
      `'\r'` right before it; a final line without `'\n'` is kept verbatim and
      no empty line follows a trailing `'\n'`. */
  function Lines(s: String): (ls: seq<String>)
    ensures forall k :: 0 <= k < |ls| ==> '\n' !in ls[k]
    ensures s == [] <==> ls == []
    decreases |s|
  {
    if s == [] then []
    else
      var n := LineLength(s);
      if n == |s| then [s]
      else [StripCarriageReturn(s[..n])] + Lines(s[n + 1..])
  }

  /** Every line followed by `"\n"`, concatenated. */
  function Unlines(ls: seq<String>): (s: String)
    ensures s == [] || s[|s| - 1] == '\n'
  {
    if ls == [] then [] else ls[0] + "\n" + Unlines(ls[1..])
  }

  lemma {:induction false} UnlinesSnoc(ls: seq<String>, line: String)
    ensures Unlines(ls + [line]) == Unlines(ls) + line + "\n"
    decreases |ls|
  {
    if ls == [] {
      assert ls + [line] == [line];
    } else {
      assert (ls + [line])[1..] == ls[1..] + [line];
      UnlinesSnoc(ls[1..], line);
    }
  }

  /** A suffix of text without carriage returns has none either. */
  lemma NoCarriageReturnInSuffix(s: String, k: nat)
    requires '\r' !in s && k <= |s|
    ensures '\r' !in s[k..]
  {
    forall i | 0 <= i < |s| - k ensures s[k..][i] != '\r' {
      assert s[k..][i] == s[k + i];
    }
  }

  /** The line of `a + "\n" + rest` ends at that newline. */
  lemma {:induction false} LineLengthAt(a: String, rest: String)
    requires '\n' !in a
    ensures LineLength(a + "\n" + rest) == |a|
    decreases |a|
  {
    if a == [] {
      assert (a + "\n" + rest)[0] == '\n';
    } else {
      assert a[0] in a;
      assert (a + "\n" + rest)[1..] == a[1..] + "\n" + rest;
      LineLengthAt(a[1..], rest);
    }
  }

  /** A `\r\n` line ending is dropped whole: the line before it comes out
      without its carriage return, and the lines after it follow. */
  lemma LinesCrLf(a: String, b: String)
    requires '\n' !in a
    ensures Lines(a + "\r\n" + b) == [a] + Lines(b)
  {
    var s := a + "\r\n" + b;
    assert s == (a + "\r") + "\n" + b;
    assert '\n' !in a + "\r";
    LineLengthAt(a + "\r", b);
    var n := |a| + 1;
    assert s[..n] == a + "\r";
    assert s[n + 1..] == b;
    assert StripCarriageReturn(a + "\r") == a;
  }

  /** For text without carriage returns, `Lines` loses nothing but the
      final newline's optionality: terminating every line again gives back
      the text, with a `'\n'` appended when it did not end in one. */
  lemma {:induction false} LinesRoundTrip(s: String)
    requires '\r' !in s
    ensures Unlines(Lines(s)) == (if s == [] || s[|s| - 1] == '\n' then s else s + "\n")
    decreases |s|
  {
    if s != [] {
      var n := LineLength(s);
      if n == |s| {
        LastLineRoundTrip(s);
      } else {
        var rest := s[n + 1..];
        NoCarriageReturnInSuffix(s, n + 1);
        LinesRoundTrip(rest);
        FirstLineRoundTrip(s, n);
      }
    }
  }

  lemma LastLineRoundTrip(s: String)
    requires s != [] && LineLength(s) == |s|
    ensures Unlines(Lines(s)) == s + "\n"
    ensures s[|s| - 1] != '\n'
  {
    assert Lines(s) == [s];
    assert [s][..0] == [];
  }

  lemma SplitAround(s: String, n: nat)
    requires n < |s|
    ensures s == s[..n] + [s[n]] + s[n + 1..]
  {
    assert s[n..] == [s[n]] + s[n + 1..];
    assert s == s[..n] + s[n..];
  }

  lemma AppendAssociates(a: String, b: String, c: String)
    ensures a + (b + c) == (a + b) + c
  {
  }

  lemma FirstLineRoundTrip(s: String, n: nat)
    requires '\r' !in s && n == LineLength(s) < |s|
    requires Unlines(Lines(s[n + 1..])) == (if s[n + 1..] == [] || s[|s| - 1] == '\n' then s[n + 1..] else s[n + 1..] + "\n")
    ensures Unlines(Lines(s)) == (if s[|s| - 1] == '\n' then s else s + "\n")
  {
    var line, rest := s[..n], s[n + 1..];
    FirstLine(s, n);
    var u := Unlines(Lines(rest));
    if rest == [] {
      assert s[|s| - 1] == s[n] == '\n';
      assert u == [];
      assert line + "\n" + u == line + "\n";
    } else if s[|s| - 1] == '\n' {
      assert rest[|rest| - 1] == '\n';
      assert u == rest;
    } else {
      assert rest[|rest| - 1] == s[|s| - 1];
      assert u == rest + "\n";
      AppendAssociates(line + "\n", rest, "\n");
    }
  }

  /** The first line of text without carriage returns, and what follows. */
  lemma FirstLine(s: String, n: nat)
    requires '\r' !in s && n == LineLength(s) < |s|
    ensures s == s[..n] + "\n" + s[n + 1..]
    ensures Unlines(Lines(s)) == s[..n] + "\n" + Unlines(Lines(s[n + 1..]))
  {
    var line, rest := s[..n], s[n + 1..];
    assert n == 0 || line[n - 1] != '\r' by {
      if n > 0 {
        assert line[n - 1] == s[n - 1];
      }
    }
    assert Lines(s) == [line] + Lines(rest);
    assert ([line] + Lines(rest))[1..] == Lines(rest);
    SplitAround(s, n);
  }
}
