/**
  * The order `get_articles` puts directory entries in: descending by file
  * name, by a stable sort. On Unix a file name is compared as raw bytes, and
  * for UTF-8 names byte order coincides with code-point order, which is the
  * order `LexLe` defines on `String`.
  */
module Ordering {
  import opened Text

  /** `a` sorts before or equal to `b`: code point by code point, and a proper
      prefix before any extension of it. */
  predicate LexLe(a: String, b: String) {
    if a == [] then true
    else if b == [] then false
    else if a[0] != b[0] then a[0] < b[0]
    else LexLe(a[1..], b[1..])
  }

  lemma {:induction false} LexLeReflexive(a: String)
    ensures LexLe(a, a)
  {
    if a != [] {
      LexLeReflexive(a[1..]);
    }
  }

  lemma {:induction false} LexLeTotal(a: String, b: String)
    ensures LexLe(a, b) || LexLe(b, a)
  {
    if a != [] && b != [] && a[0] == b[0] {
      LexLeTotal(a[1..], b[1..]);
    }
  }

  lemma {:induction false} LexLeAntisymmetric(a: String, b: String)
    requires LexLe(a, b) && LexLe(b, a)
    ensures a == b
  {
    if a != [] && b != [] {
      LexLeAntisymmetric(a[1..], b[1..]);
      assert a == [a[0]] + a[1..];
      assert b == [b[0]] + b[1..];
    }
  }

  lemma {:induction false} LexLeTransitive(a: String, b: String, c: String)
    requires LexLe(a, b) && LexLe(b, c)
    ensures LexLe(a, c)
  {
    if a != [] && b != [] && c != [] && a[0] == b[0] && b[0] == c[0] {
      LexLeTransitive(a[1..], b[1..], c[1..]);
    }
  }

  /** Every later element's key sorts at or before every earlier one's. */
  predicate NonIncreasing<T>(xs: seq<T>, key: T -> String) {
    forall i, j :: 0 <= i < j < |xs| ==> LexLe(key(xs[j]), key(xs[i]))
  }

  /** Puts `x` in front of the first element whose key is not above its own,
      so that it stays ahead of elements with an equal key. */
  function Insert<T>(x: T, xs: seq<T>, key: T -> String): (r: seq<T>)
    ensures multiset(r) == multiset(xs) + multiset{x}
  {
    if xs == [] then [x]
    else if LexLe(key(xs[0]), key(x)) then [x] + xs
    else
      assert xs == [xs[0]] + xs[1..];
      [xs[0]] + Insert(x, xs[1..], key)
  }

  lemma {:induction false} InsertSorted<T>(x: T, xs: seq<T>, key: T -> String)
    requires NonIncreasing(xs, key)
    ensures NonIncreasing(Insert(x, xs, key), key)
  {
    if xs == [] {
    } else if LexLe(key(xs[0]), key(x)) {
      var r := [x] + xs;
      forall i, j | 0 <= i < j < |r|
        ensures LexLe(key(r[j]), key(r[i]))
      {
        if i == 0 {
          if j > 1 {
            LexLeTransitive(key(xs[j - 1]), key(xs[0]), key(x));
          }
        }
      }
    } else {
      LexLeTotal(key(xs[0]), key(x));
      InsertSorted(x, xs[1..], key);
      var rest := Insert(x, xs[1..], key);
      var r := [xs[0]] + rest;
      InsertBelow(x, xs, key);
      forall i, j | 0 <= i < j < |r|
        ensures LexLe(key(r[j]), key(r[i]))
      {
        if i == 0 {
          assert r[j] == rest[j - 1] && rest[j - 1] in rest;
        } else {
          assert r[i] == rest[i - 1] && r[j] == rest[j - 1];
        }
      }
    }
  }

  /** When `x` goes after the head, everything after the head still sorts at
      or before it. */
  lemma InsertBelow<T>(x: T, xs: seq<T>, key: T -> String)
    requires xs != [] && NonIncreasing(xs, key) && LexLe(key(x), key(xs[0]))
    ensures forall y :: y in Insert(x, xs[1..], key) ==> LexLe(key(y), key(xs[0]))
  {
    var rest := Insert(x, xs[1..], key);
    forall y | y in rest
      ensures LexLe(key(y), key(xs[0]))
    {
      assert y in multiset(rest);
      if y != x {
        assert y in multiset(xs[1..]);
        var k :| 0 <= k < |xs[1..]| && xs[1..][k] == y;
        assert xs[k + 1] == y;
      }
    }
  }

  /** A stable sort into descending key order: the order Rust's `sort_by_key`
      with a `Reverse` key produces. */
  function SortDescending<T>(xs: seq<T>, key: T -> String): (r: seq<T>)
    ensures multiset(r) == multiset(xs)
    ensures NonIncreasing(r, key)
  {
    if xs == [] then []
    else
      var rest := SortDescending(xs[1..], key);
      InsertSorted(xs[0], rest, key);
      assert xs == [xs[0]] + xs[1..];
      Insert(xs[0], rest, key)
  }

  /** A non-increasing sequence is unchanged by the sort. */
  lemma {:induction false} SortDescendingKeepsSorted<T>(xs: seq<T>, key: T -> String)
    requires NonIncreasing(xs, key)
    ensures SortDescending(xs, key) == xs
  {
    if xs != [] {
      assert NonIncreasing(xs[1..], key) by {
        forall i, j | 0 <= i < j < |xs[1..]|
          ensures LexLe(key(xs[1..][j]), key(xs[1..][i]))
        {
          assert xs[1..][i] == xs[i + 1] && xs[1..][j] == xs[j + 1];
        }
      }
      SortDescendingKeepsSorted(xs[1..], key);
      if |xs| > 1 {
        assert LexLe(key(xs[1]), key(xs[0]));
      }
      assert xs == [xs[0]] + xs[1..];
    }
  }

  /** Two sequences sorted into strictly descending key order that hold the
      same elements are equal: with distinct names, the sorted order is
      fully determined. */
  predicate StrictlyDescending<T>(xs: seq<T>, key: T -> String) {
    NonIncreasing(xs, key) &&
    forall i, j :: 0 <= i < j < |xs| ==> key(xs[i]) != key(xs[j])
  }

  lemma {:induction false} StrictlyDescendingUnique<T>(a: seq<T>, b: seq<T>, key: T -> String)
    requires multiset(a) == multiset(b)
    requires StrictlyDescending(a, key) && StrictlyDescending(b, key)
    ensures a == b
  {
    SameLength(a, b);
    if a != [] {
      SameHead(a, b, key);
      TailMultiset(a);
      TailMultiset(b);
      TailStrictlyDescending(a, key);
      TailStrictlyDescending(b, key);
      StrictlyDescendingUnique(a[1..], b[1..], key);
      assert a == [a[0]] + a[1..];
      assert b == [b[0]] + b[1..];
    }
  }

  lemma SameLength<T>(a: seq<T>, b: seq<T>)
    requires multiset(a) == multiset(b)
    ensures |a| == |b|
  {
    assert |b| == |multiset(b)| == |multiset(a)| == |a|;
  }

  lemma SameHead<T>(a: seq<T>, b: seq<T>, key: T -> String)
    requires a != [] && b != []
    requires multiset(a) == multiset(b)
    requires StrictlyDescending(a, key) && StrictlyDescending(b, key)
    ensures a[0] == b[0]
  {
    assert a[0] in multiset(b);
    var jb :| 0 <= jb < |b| && b[jb] == a[0];
    assert b[0] in multiset(a);
    var ja :| 0 <= ja < |a| && a[ja] == b[0];
    if jb != 0 && ja != 0 {
      LexLeAntisymmetric(key(a[0]), key(b[0]));
    }
  }

  lemma TailMultiset<T>(a: seq<T>)
    requires a != []
    ensures multiset(a[1..]) == multiset(a) - multiset{a[0]}
  {
    assert a == [a[0]] + a[1..];
  }

  lemma TailStrictlyDescending<T>(a: seq<T>, key: T -> String)
    requires a != [] && StrictlyDescending(a, key)
    ensures StrictlyDescending(a[1..], key)
  {
    forall i, j | 0 <= i < j < |a[1..]|
      ensures LexLe(key(a[1..][j]), key(a[1..][i])) && key(a[1..][i]) != key(a[1..][j])
    {
      assert a[1..][i] == a[i + 1] && a[1..][j] == a[j + 1];
    }
  }

  /** Newer date-prefixed names come first. */
  lemma SortExample(older: String, newer: String)
    requires older == "2024-01" && newer == "2024-02"
    ensures SortDescending([older, newer], s => s) == [newer, older]
  {
    SortExamplePieces(older, newer);
    LexLeCommonPrefix("2024-0", "2", "1");
    assert !LexLe(newer, older);
    assert SortDescending([newer], s => s) == [newer];
    assert [older, newer][1..] == [newer];
  }

  lemma SortExamplePieces(older: String, newer: String)
    requires older == "2024-01" && newer == "2024-02"
    ensures older == "2024-0" + "1" && newer == "2024-0" + "2"
  {
  }

  lemma {:induction false} LexLeCommonPrefix(p: String, a: String, b: String)
    ensures LexLe(p + a, p + b) == LexLe(a, b)
  {
    if p != [] {
      assert (p + a)[0] == p[0] == (p + b)[0];
      assert (p + a)[1..] == p[1..] + a;
      assert (p + b)[1..] == p[1..] + b;
      LexLeCommonPrefix(p[1..], a, b);
    } else {
      assert p + a == a && p + b == b;
    }
  }
}
