/**
 * `list.remove` over Dafny sequences: deletes the first occurrence of an
 * element. It raises `ValueError` on a missing element; every caller in the
 * bot checks membership first, so it requires it. `IndexOf` is not a list
 * call of the bot: it names the position that `list.remove` deletes.
 */
module PyList {

  /** No element occurs twice. */
  predicate Distinct<T(==)>(xs: seq<T>) {
    forall i, j :: 0 <= i < j < |xs| ==> xs[i] != xs[j]
  }

  /** The position of the first occurrence of `x`: the entry `xs.remove(x)` deletes. */
  function IndexOf<T(==)>(xs: seq<T>, x: T): (i: nat)
    requires x in xs
    ensures i < |xs| && xs[i] == x
    ensures x !in xs[..i]
  {
    if xs[0] == x then 0 else 1 + IndexOf(xs[1..], x)
  }

  /** `xs.remove(x)`: the list without the first occurrence of `x`. */
  function RemoveFirst<T(==)>(xs: seq<T>, x: T): (r: seq<T>)
    requires x in xs
    ensures |r| == |xs| - 1
  {
    if xs[0] == x then xs[1..] else [xs[0]] + RemoveFirst(xs[1..], x)
  }

  /**
   * `xs.remove(x)` cuts out exactly the element at `xs.index(x)`: what comes
   * before it and what comes after it stay, in order.
   */
  lemma {:induction false} RemoveFirstSlices<T>(xs: seq<T>, x: T)
    requires x in xs
    ensures RemoveFirst(xs, x) == xs[..IndexOf(xs, x)] + xs[IndexOf(xs, x) + 1..]
  {
    if xs[0] != x {
      var i := IndexOf(xs[1..], x);
      RemoveFirstSlices(xs[1..], x);
      assert RemoveFirst(xs[1..], x) == xs[1..i + 1] + xs[i + 2..];
      assert [xs[0]] + xs[1..i + 1] == xs[..i + 1];
    }
  }

  /** `xs.remove(x)` takes exactly one `x` out of the bag of elements. */
  lemma RemoveFirstMultiset<T>(xs: seq<T>, x: T)
    requires x in xs
    ensures multiset(RemoveFirst(xs, x)) == multiset(xs) - multiset{x}
  {
    var i := IndexOf(xs, x);
    RemoveFirstSlices(xs, x);
    assert xs == xs[..i] + [x] + xs[i + 1..];
  }

  /** The position in the original list of entry `k` once entry `i` is gone. */
  function Skip(k: nat, i: nat): nat {
    if k < i then k else k + 1
  }

  /** Appending an element the list lacks keeps it free of duplicates. */
  lemma AppendFresh<T>(xs: seq<T>, x: T)
    requires Distinct(xs) && x !in xs
    ensures Distinct(xs + [x])
  {
    var ys := xs + [x];
    forall i, j | 0 <= i < j < |ys|
      ensures ys[i] != ys[j]
    {
      assert ys[i] == xs[i];
      if j < |xs| {
        assert ys[j] == xs[j];
      }
    }
  }

  /** Entry `k` of `xs.remove(x)` is the entry of `xs` at `Skip(k, xs.index(x))`. */
  lemma RemoveFirstAt<T>(xs: seq<T>, x: T, k: nat)
    requires x in xs && k < |xs| - 1
    ensures RemoveFirst(xs, x)[k] == xs[Skip(k, IndexOf(xs, x))]
  {
    var i := IndexOf(xs, x);
    RemoveFirstSlices(xs, x);
    if k < i {
      assert RemoveFirst(xs, x)[k] == xs[..i][k];
    } else {
      assert RemoveFirst(xs, x)[k] == xs[i + 1..][k - i];
    }
  }

  /**
   * In a list without duplicates, removing an element removes it entirely
   * and leaves a list without duplicates.
   */
  lemma RemoveFromDistinct<T>(xs: seq<T>, x: T)
    requires x in xs && Distinct(xs)
    ensures x !in RemoveFirst(xs, x)
    ensures Distinct(RemoveFirst(xs, x))
  {
    var i := IndexOf(xs, x);
    var r := RemoveFirst(xs, x);
    forall k | 0 <= k < |r|
      ensures r[k] != x
    {
      RemoveFirstAt(xs, x, k);
    }
    forall p, q | 0 <= p < q < |r|
      ensures r[p] != r[q]
    {
      RemoveFirstAt(xs, x, p);
      RemoveFirstAt(xs, x, q);
    }
  }
}
