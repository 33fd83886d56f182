/** Failure-carrying values used throughout the model: the Rust program's
    `Option`, and its `Result`/panic paths folded into one `Result` type. */
module Results {

  datatype Option<+T> = None | Some(value: T)

  /** `Ok` carries a value, `Err` an error; usable with `:-`. */
  datatype Result<+T, +E> = Ok(value: T) | Err(error: E) {

    predicate IsFailure() {
      Err?
    }

    function PropagateFailure<U>(): Result<U, E>
      requires Err?
    {
      Err(error)
    }

    function Extract(): T
      requires Ok?
    {
      value
    }
  }

  /** `xs[k]` is the first element that `f` maps to an error, and that
      error is `e`: what a loop that stops at the first `?` reports. */
  predicate FirstFailure<A, B, E(==)>(f: A -> Result<B, E>, xs: seq<A>, k: int, e: E) {
    0 <= k < |xs| && f(xs[k]) == Err(e) && forall i :: 0 <= i < k ==> f(xs[i]).Ok?
  }

  /** Applies `f` to each element in order and collects the values, stopping
      at the first error, as `collect::<Result<Vec<_>, _>>()` and a loop of
      `?` do. */
  function Traverse<A, B(==), E(==)>(f: A -> Result<B, E>, xs: seq<A>): (r: Result<seq<B>, E>)
    ensures r.Ok? <==> forall i :: 0 <= i < |xs| ==> f(xs[i]).Ok?
    ensures r.Ok? ==>
              |r.value| == |xs| &&
              forall i :: 0 <= i < |xs| ==> f(xs[i]) == Ok(r.value[i])
    ensures r.Err? ==> exists k :: FirstFailure(f, xs, k, r.error)
  {
    if xs == [] then Ok([])
    else
      match f(xs[0])
      case Err(e) =>
        assert FirstFailure(f, xs, 0, e);
        Err(e)
      case Ok(first) =>
        match Traverse(f, xs[1..])
        case Err(e) =>
          var k :| FirstFailure(f, xs[1..], k, e);
          assert f(xs[k + 1]) == Err(e);
          assert forall i :: 1 <= i < k + 1 ==> f(xs[i]) == f(xs[1..][i - 1]);
          assert FirstFailure(f, xs, k + 1, e);
          Err(e)
        case Ok(rest) =>
          assert forall i :: 1 <= i < |xs| ==> xs[i] == xs[1..][i - 1];
          Ok([first] + rest)
  }

  /** The first failure is unique, so the contract of `Traverse` determines
      its result: any value with the same three properties is the one
      `Traverse` computes. */
  lemma TraverseDetermined<A, B, E>(f: A -> Result<B, E>, xs: seq<A>, r: Result<seq<B>, E>)
    requires r.Ok? <==> forall i :: 0 <= i < |xs| ==> f(xs[i]).Ok?
    requires r.Ok? ==> |r.value| == |xs| && forall i :: 0 <= i < |xs| ==> f(xs[i]) == Ok(r.value[i])
    requires r.Err? ==> exists k :: FirstFailure(f, xs, k, r.error)
    ensures r == Traverse(f, xs)
  {
    var t := Traverse(f, xs);
    if r.Ok? {
      assert r.value == t.value;
    } else {
      var k :| FirstFailure(f, xs, k, r.error);
      var j :| FirstFailure(f, xs, j, t.error);
      assert f(xs[k]) == Err(r.error) && f(xs[j]) == Err(t.error);
    }
  }
}
