/** Failure-compatible wrappers: `None` and `Err` stand for the Python
    exceptions the modelled code raises instead of returning a value. */
module Results {

  datatype Option<+T> = None | Some(value: T) {
    predicate IsFailure() { None? }

    function PropagateFailure<U>(): Option<U>
      requires None?
    {
      None
    }

    function Extract(): T
      requires Some?
    {
      value
    }
  }

  datatype Result<+T, +E> = Ok(value: T) | Err(error: E) {
    predicate IsFailure() { Err? }

    function PropagateFailure<U>(): Result<U, E>
      requires Err?
    {
      Err(error)
    }

    function Extract(): T
      requires Ok?
    {
      value
    }
  }

  /** `xs` mapped element by element through `f`, in order, or the error
      of the first element that fails (a Python loop that appends one
      result per element and lets the first exception escape). */
  function MapAll<T, U, E>(f: T -> Result<U, E>, xs: seq<T>): Result<seq<U>, E> {
    if xs == [] then Ok([])
    else
      var init :- MapAll(f, xs[..|xs| - 1]);
      var last :- f(xs[|xs| - 1]);
      Ok(init + [last])
  }

  /** `MapAll` succeeds exactly when every element succeeds. */
  lemma {:induction false} MapAllSucceeds<T, U, E>(f: T -> Result<U, E>, xs: seq<T>)
    ensures MapAll(f, xs).Ok? <==> forall k :: 0 <= k < |xs| ==> f(xs[k]).Ok?
  {
    if xs != [] {
      var n := |xs| - 1;
      var init := xs[..n];
      MapAllSucceeds(f, init);
      if MapAll(f, init).Err? {
        var k :| 0 <= k < |init| && f(init[k]).Err?;
        assert init[k] == xs[k];
      } else if f(xs[n]).Ok? {
        forall k | 0 <= k < |xs| ensures f(xs[k]).Ok? {
          if k < n {
            assert init[k] == xs[k];
          }
        }
      }
    }
  }

  /** A successful `MapAll` holds, at each position, what `f` gives for
      the element there. */
  lemma {:induction false} MapAllEntries<T, U, E>(f: T -> Result<U, E>, xs: seq<T>)
    requires MapAll(f, xs).Ok?
    ensures |MapAll(f, xs).value| == |xs|
    ensures forall k :: 0 <= k < |xs| ==> f(xs[k]) == Ok(MapAll(f, xs).value[k])
  {
    if xs != [] {
      var n := |xs| - 1;
      var init := xs[..n];
      MapAllEntries(f, init);
      var all := MapAll(f, init).value + [f(xs[n]).value];
      assert MapAll(f, xs) == Ok(all);
      forall k | 0 <= k < |xs| ensures f(xs[k]) == Ok(all[k]) {
        if k < n {
          assert init[k] == xs[k];
        }
      }
    }
  }

  /** Conversely, when every element gives the value at its position,
      `MapAll` gives those values. */
  lemma {:induction false} MapAllOfEntries<T, U, E>(f: T -> Result<U, E>, xs: seq<T>, ys: seq<U>)
    requires |xs| == |ys|
    requires forall k :: 0 <= k < |xs| ==> f(xs[k]) == Ok(ys[k])
    ensures MapAll(f, xs) == Ok(ys)
  {
    if xs != [] {
      var n := |xs| - 1;
      MapAllOfEntries(f, xs[..n], ys[..n]);
      assert ys[..n] + [ys[n]] == ys;
    }
  }

  /** One more step of the loop: the next element's value is appended,
      or its error ends the loop. */
  lemma MapAllStep<T, U, E>(f: T -> Result<U, E>, xs: seq<T>, i: nat, done: seq<U>)
    requires i < |xs| && MapAll(f, xs[..i]) == Ok(done)
    ensures f(xs[i]).Ok? ==> MapAll(f, xs[..i + 1]) == Ok(done + [f(xs[i]).value])
    ensures f(xs[i]).Err? ==> MapAll(f, xs) == Err(f(xs[i]).error)
  {
    assert xs[..i + 1][..i] == xs[..i];
    if f(xs[i]).Err? {
      MapAllStopsAtFailure(f, xs, i + 1);
    }
  }

  /** Once a prefix fails, the whole sequence fails, with the same error. */
  lemma {:induction false} MapAllStopsAtFailure<T, U, E>(f: T -> Result<U, E>, xs: seq<T>, n: nat)
    requires n <= |xs| && MapAll(f, xs[..n]).Err?
    ensures MapAll(f, xs) == MapAll(f, xs[..n])
    decreases |xs| - n
  {
    if n < |xs| {
      assert xs[..n + 1][..n] == xs[..n];
      MapAllStopsAtFailure(f, xs, n + 1);
    } else {
      assert xs[..n] == xs;
    }
  }
}
