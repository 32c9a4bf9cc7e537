/**
 * List comprehensions with a condition, `[f(x) for x in xs if keep(x)]`,
 * and the Go loops that append to a slice under a condition.
 */
module Lists {

  /** The images of the kept elements, in input order. */
  function Select<T, U>(xs: seq<T>, keep: T -> bool, f: T -> U): seq<U>
  {
    if xs == [] then []
    else
      var n := |xs| - 1;
      Select(xs[..n], keep, f) + (if keep(xs[n]) then [f(xs[n])] else [])
  }

  /** At most one entry per element, and every kept element's image is listed. */
  lemma {:induction false} SelectKeeps<T, U>(xs: seq<T>, keep: T -> bool, f: T -> U)
    ensures |Select(xs, keep, f)| <= |xs|
    ensures forall i :: 0 <= i < |xs| && keep(xs[i]) ==> f(xs[i]) in Select(xs, keep, f)
  {
    if xs != [] {
      var n := |xs| - 1;
      SelectKeeps(xs[..n], keep, f);
      assert forall i :: 0 <= i < n ==> xs[..n][i] == xs[i];
    }
  }

  /** Nothing but the image of a kept element is listed. */
  lemma {:induction false} SelectFrom<T, U>(xs: seq<T>, keep: T -> bool, f: T -> U, y: U)
    requires y in Select(xs, keep, f)
    ensures exists i :: 0 <= i < |xs| && keep(xs[i]) && f(xs[i]) == y
  {
    var n := |xs| - 1;
    if y in Select(xs[..n], keep, f) {
      SelectFrom(xs[..n], keep, f, y);
      var i :| 0 <= i < n && keep(xs[..n][i]) && f(xs[..n][i]) == y;
      assert xs[..n][i] == xs[i];
    } else {
      assert keep(xs[n]) && f(xs[n]) == y;
    }
  }

  /** One more element adds its image at the end exactly when it is kept. */
  lemma SelectSnoc<T, U>(xs: seq<T>, x: T, keep: T -> bool, f: T -> U)
    ensures Select(xs + [x], keep, f) == Select(xs, keep, f) + (if keep(x) then [f(x)] else [])
  {
    assert (xs + [x])[..|xs|] == xs;
  }

  /** Selection works list by list, so the input order is kept. */
  lemma {:induction false} SelectAppend<T, U>(a: seq<T>, b: seq<T>, keep: T -> bool, f: T -> U)
    ensures Select(a + b, keep, f) == Select(a, keep, f) + Select(b, keep, f)
    decreases |b|
  {
    if b == [] {
      assert a + b == a;
    } else {
      var n := |b| - 1;
      assert b == b[..n] + [b[n]];
      assert a + b == (a + b[..n]) + [b[n]];
      SelectAppend(a, b[..n], keep, f);
      SelectSnoc(a + b[..n], b[n], keep, f);
      SelectSnoc(b[..n], b[n], keep, f);
    }
  }
}
