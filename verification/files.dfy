/**
  * The output directory as a map from path to contents, and the effect of a
  * sequence of whole-file writes on it: each write replaces the file at its
  * path, so the last write to a path decides what the path holds.
  */
module Files {
  import opened Results
  import opened Text

  type Path = String

  type FileMap = map<Path, String>

  datatype Write = Write(path: Path, contents: String)

  /** The paths a sequence of writes touches. */
  function Written(ws: seq<Write>): set<Path> {
    set i | 0 <= i < |ws| :: ws[i].path
  }

  lemma WrittenSingle(w: Write)
    ensures Written([w]) == {w.path}
  {
    assert [w][0].path == w.path;
  }

  lemma WrittenAppend(ws: seq<Write>, vs: seq<Write>)
    ensures Written(ws + vs) == Written(ws) + Written(vs)
  {
    var all := ws + vs;
    forall p | p in Written(all) ensures p in Written(ws) + Written(vs) {
      var k :| 0 <= k < |all| && all[k].path == p;
      if k >= |ws| {
        assert vs[k - |ws|].path == p;
      } else {
        assert ws[k].path == p;
      }
    }
    forall p | p in Written(ws) + Written(vs) ensures p in Written(all) {
      if p in Written(ws) {
        var k :| 0 <= k < |ws| && ws[k].path == p;
        assert all[k].path == p;
      } else {
        var k :| 0 <= k < |vs| && vs[k].path == p;
        assert all[|ws| + k].path == p;
      }
    }
  }

  /** Performs the writes in order, as a run of `fs::write` calls does. */
  function Apply(fs: FileMap, ws: seq<Write>): (r: FileMap)
    ensures r.Keys == fs.Keys + Written(ws)
    decreases |ws|
  {
    if ws == [] then fs
    else
      var r := Apply(fs[ws[0].path := ws[0].contents], ws[1..]);
      assert Written(ws) == {ws[0].path} + Written(ws[1..]) by {
        forall p | p in Written(ws) ensures p in {ws[0].path} + Written(ws[1..]) {
          var i :| 0 <= i < |ws| && ws[i].path == p;
          if i > 0 {
            assert ws[1..][i - 1].path == p;
          }
        }
      }
      r
  }

  /** The contents of the last write to `p`, if any: the reference the fold
      is measured against. */
  function LastWriteTo(ws: seq<Write>, p: Path): Option<String> {
    if ws == [] then None
    else if ws[|ws| - 1].path == p then Some(ws[|ws| - 1].contents)
    else LastWriteTo(ws[..|ws| - 1], p)
  }

  lemma {:induction false} ApplySnoc(fs: FileMap, ws: seq<Write>, w: Write)
    ensures Apply(fs, ws + [w]) == Apply(fs, ws)[w.path := w.contents]
    decreases |ws|
  {
    if ws != [] {
      assert (ws + [w])[1..] == ws[1..] + [w];
      ApplySnoc(fs[ws[0].path := ws[0].contents], ws[1..], w);
    }
  }

  lemma {:induction false} ApplyAppend(fs: FileMap, ws: seq<Write>, vs: seq<Write>)
    ensures Apply(fs, ws + vs) == Apply(Apply(fs, ws), vs)
    decreases |ws|
  {
    if ws == [] {
      assert ws + vs == vs;
    } else {
      assert (ws + vs)[1..] == ws[1..] + vs;
      ApplyAppend(fs[ws[0].path := ws[0].contents], ws[1..], vs);
    }
  }

  /** After the writes, a path holds what was last written to it, and a path
      never written holds what it held before. */
  lemma ApplyIsLastWrite(fs: FileMap, ws: seq<Write>, p: Path)
    ensures LastWriteTo(ws, p).Some? ==> p in Apply(fs, ws) && Apply(fs, ws)[p] == LastWriteTo(ws, p).value
    ensures LastWriteTo(ws, p).None? ==>
              (p in Apply(fs, ws) <==> p in fs) &&
              (p in fs ==> Apply(fs, ws)[p] == fs[p])
  {
    ApplyLookup(fs, ws, p);
  }

  /** The same, with the file map's lookup written as an `Option`. */
  lemma {:induction false} ApplyLookup(fs: FileMap, ws: seq<Write>, p: Path)
    ensures Lookup(Apply(fs, ws), p) ==
            if LastWriteTo(ws, p).Some? then LastWriteTo(ws, p) else Lookup(fs, p)
  {
    if ws != [] {
      var init, w := ws[..|ws| - 1], ws[|ws| - 1];
      assert ws == init + [w];
      ApplySnoc(fs, init, w);
      ApplyLookup(fs, init, p);
    }
  }

  function Lookup(fs: FileMap, p: Path): Option<String> {
    if p in fs then Some(fs[p]) else None
  }

  lemma {:induction false} LastWriteToNone(ws: seq<Write>, p: Path)
    ensures LastWriteTo(ws, p).None? <==> p !in Written(ws)
  {
    if ws != [] {
      var init := ws[..|ws| - 1];
      LastWriteToNone(init, p);
      assert Written(ws) == Written(init) + {ws[|ws| - 1].path} by {
        forall q | q in Written(ws) ensures q in Written(init) + {ws[|ws| - 1].path} {
          var i :| 0 <= i < |ws| && ws[i].path == q;
          if i < |ws| - 1 {
            assert init[i].path == q;
          }
        }
        forall q | q in Written(init) ensures q in Written(ws) {
          var i :| 0 <= i < |init| && init[i].path == q;
          assert ws[i].path == q;
        }
      }
    }
  }

  /** Nothing outside the written paths changes. */
  lemma UnwrittenUnchanged(fs: FileMap, ws: seq<Write>, p: Path)
    requires p !in Written(ws)
    ensures p in Apply(fs, ws) <==> p in fs
    ensures p in fs ==> Apply(fs, ws)[p] == fs[p]
  {
    LastWriteToNone(ws, p);
    ApplyIsLastWrite(fs, ws, p);
  }

  /** A write that no later write touches decides the path's contents. */
  lemma LastWriteWins(fs: FileMap, before: seq<Write>, w: Write, after: seq<Write>)
    requires w.path !in Written(after)
    ensures w.path in Apply(fs, before + [w] + after)
    ensures Apply(fs, before + [w] + after)[w.path] == w.contents
  {
    ApplyAppend(fs, before + [w], after);
    ApplySnoc(fs, before, w);
    UnwrittenUnchanged(Apply(fs, before + [w]), after, w.path);
  }
}
