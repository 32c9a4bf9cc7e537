/**
 * Python dict comprehensions `{key(x): val(x) for x in xs}` and Go map
 * filling loops: later entries with the same key overwrite earlier ones.
 */
module Dicts {

  /** `xs[i]` is the last element of `xs` whose key is `key(xs[i])`. */
  ghost predicate LastWithKey<T, K>(xs: seq<T>, key: T -> K, i: int)
  {
    0 <= i < |xs| && forall j :: i < j < |xs| ==> key(xs[j]) != key(xs[i])
  }

  /**
   * `r` is what storing the elements of `xs` in order leaves behind: every
   * key of `xs` is present, nothing else is, and each key holds the value of
   * the last element carrying it.
   */
  ghost predicate IsDictOf<T, K, V>(r: map<K, V>, xs: seq<T>, key: T -> K, val: T -> V)
  {
    && (forall i :: 0 <= i < |xs| ==> key(xs[i]) in r)
    && (forall k :: k in r ==>
          exists i :: LastWithKey(xs, key, i) && key(xs[i]) == k && r[k] == val(xs[i]))
  }

  /** The dictionary built from `xs`, later elements overwriting earlier ones. */
  function DictOf<T, K, V>(xs: seq<T>, key: T -> K, val: T -> V): map<K, V>
  {
    if xs == [] then map[]
    else
      var n := |xs| - 1;
      DictOf(xs[..n], key, val)[key(xs[n]) := val(xs[n])]
  }

  /** The dictionary built from `xs` is a dictionary of `xs`. */
  lemma {:induction false} DictOfIsDict<T, K, V>(xs: seq<T>, key: T -> K, val: T -> V)
    ensures IsDictOf(DictOf(xs, key, val), xs, key, val)
  {
    if xs != [] {
      var n := |xs| - 1;
      DictOfIsDict(xs[..n], key, val);
      StoreLast(xs, key, val, DictOf(xs[..n], key, val));
    }
  }

  /** Storing the last element after the others keeps `IsDictOf`. */
  lemma StoreLast<T, K, V>(xs: seq<T>, key: T -> K, val: T -> V, prev: map<K, V>)
    requires |xs| > 0
    requires IsDictOf(prev, xs[..|xs| - 1], key, val)
    ensures IsDictOf(prev[key(xs[|xs| - 1]) := val(xs[|xs| - 1])], xs, key, val)
  {
    var n := |xs| - 1;
    var r := prev[key(xs[n]) := val(xs[n])];
    forall i | 0 <= i < |xs|
      ensures key(xs[i]) in r
    {
      if i < n {
        assert xs[..n][i] == xs[i];
      }
    }
    forall k | k in r
      ensures exists i :: LastWithKey(xs, key, i) && key(xs[i]) == k && r[k] == val(xs[i])
    {
      if k == key(xs[n]) {
        assert LastWithKey(xs, key, n);
      } else {
        var i :| LastWithKey(xs[..n], key, i) && key(xs[..n][i]) == k && prev[k] == val(xs[..n][i]);
        assert xs[..n][i] == xs[i];
        forall j | i < j < |xs|
          ensures key(xs[j]) != key(xs[i])
        {
          if j < n {
            assert xs[..n][j] == xs[j];
          }
        }
        assert LastWithKey(xs, key, i);
      }
    }
  }

  /** Building from `xs + [x]` is building from `xs` and then storing `x`. */
  lemma DictOfSnoc<T, K, V>(xs: seq<T>, x: T, key: T -> K, val: T -> V)
    ensures DictOf(xs + [x], key, val) == DictOf(xs, key, val)[key(x) := val(x)]
  {
    assert (xs + [x])[..|xs|] == xs;
  }
}
