/** "Write once, reference many": the first-occurrence deduplication both emission
    drivers perform. The feature driver keys items by the item itself (object equality);
    the extension driver keys them by name and starts from the names already declared. */
module Dedup {

  predicate NoDuplicates<T(==)>(s: seq<T>) {
    forall i, j :: 0 <= i < j < |s| ==> s[i] != s[j]
  }

  function Identity<T>(x: T): T {
    x
  }

  /** The keys of the elements of `xs`. */
  function Keys<T, K(==)>(key: T -> K, xs: seq<T>): set<K> {
    if xs == [] then {} else Keys(key, xs[..|xs| - 1]) + {key(xs[|xs| - 1])}
  }

  /** A key is in `Keys` exactly when some element of `xs` has it. */
  lemma {:induction false} KeysMembers<T, K>(key: T -> K, xs: seq<T>)
    ensures forall i :: 0 <= i < |xs| ==> key(xs[i]) in Keys(key, xs)
    ensures forall k :: k in Keys(key, xs) ==> exists i :: 0 <= i < |xs| && key(xs[i]) == k
  {
    if xs != [] {
      var init := xs[..|xs| - 1];
      KeysMembers(key, init);
      assert forall i :: 0 <= i < |init| ==> init[i] == xs[i];
    }
  }

  /** The elements of `xs` that a walk declares when it skips every element whose key is
      in `seen` or was met before: the first element with each new key, in order. */
  function DistinctBy<T, K(==)>(key: T -> K, xs: seq<T>, seen: set<K>): seq<T> {
    if xs == [] then []
    else
      var init, x := xs[..|xs| - 1], xs[|xs| - 1];
      DistinctBy(key, init, seen) + (if key(x) in seen || key(x) in Keys(key, init) then [] else [x])
  }

  /** The position of the first element of `xs` whose key is `k`. */
  function FirstIndex<T, K(==)>(key: T -> K, xs: seq<T>, k: K): (i: nat)
    requires k in Keys(key, xs)
    ensures i < |xs| && key(xs[i]) == k
    ensures forall j :: 0 <= j < i ==> key(xs[j]) != k
  {
    var init := xs[..|xs| - 1];
    assert forall j :: 0 <= j < |init| ==> init[j] == xs[j];
    KeysMembers(key, init);
    if k in Keys(key, init) then FirstIndex(key, init, k) else |xs| - 1
  }

  lemma KeysSnoc<T, K>(key: T -> K, xs: seq<T>, x: T)
    ensures Keys(key, xs + [x]) == Keys(key, xs) + {key(x)}
  {
    assert (xs + [x])[..|xs|] == xs;
  }

  lemma DistinctBySnoc<T, K>(key: T -> K, xs: seq<T>, x: T, seen: set<K>)
    ensures key(x) in seen || key(x) in Keys(key, xs) ==> DistinctBy(key, xs + [x], seen) == DistinctBy(key, xs, seen)
    ensures !(key(x) in seen || key(x) in Keys(key, xs)) ==> DistinctBy(key, xs + [x], seen) == DistinctBy(key, xs, seen) + [x]
  {
    assert (xs + [x])[..|xs|] == xs;
  }

  /** One more step of a walk over `xs`: element `j` is declared exactly when its key is
      neither seen nor met among the first `j` elements. */
  lemma DistinctByStep<T, K>(key: T -> K, xs: seq<T>, j: nat, seen: set<K>)
    requires j < |xs|
    ensures Keys(key, xs[..j + 1]) == Keys(key, xs[..j]) + {key(xs[j])}
    ensures key(xs[j]) in seen || key(xs[j]) in Keys(key, xs[..j]) ==>
      DistinctBy(key, xs[..j + 1], seen) == DistinctBy(key, xs[..j], seen)
    ensures !(key(xs[j]) in seen || key(xs[j]) in Keys(key, xs[..j])) ==>
      DistinctBy(key, xs[..j + 1], seen) == DistinctBy(key, xs[..j], seen) + [xs[j]]
  {
    assert xs[..j + 1][..j] == xs[..j];
  }

  /** What is declared is drawn from `xs`, and the declared keys are exactly the keys of
      `xs` that were not already seen: nothing seen is re-declared, nothing new is lost. */
  lemma {:induction false} DistinctByKeys<T, K>(key: T -> K, xs: seq<T>, seen: set<K>)
    ensures forall y :: y in DistinctBy(key, xs, seen) ==> y in xs
    ensures Keys(key, DistinctBy(key, xs, seen)) == Keys(key, xs) - seen
  {
    if xs != [] {
      var init, x := xs[..|xs| - 1], xs[|xs| - 1];
      assert xs == init + [x];
      DistinctByKeys(key, init, seen);
      var d := DistinctBy(key, init, seen);
      var r := DistinctBy(key, xs, seen);
      KeysSnoc(key, init, x);
      if key(x) in seen || key(x) in Keys(key, init) {
        assert r == d;
      } else {
        assert r == d + [x];
        KeysSnoc(key, d, x);
      }
      forall y | y in r
        ensures y in xs
      {
        if y in d {
          assert y in init;
        }
      }
    }
  }

  /** At most one declaration per key. */
  lemma {:induction false} DistinctByUnique<T, K>(key: T -> K, xs: seq<T>, seen: set<K>)
    ensures forall i, j :: 0 <= i < j < |DistinctBy(key, xs, seen)| ==>
      key(DistinctBy(key, xs, seen)[i]) != key(DistinctBy(key, xs, seen)[j])
  {
    if xs != [] {
      var init, x := xs[..|xs| - 1], xs[|xs| - 1];
      DistinctByUnique(key, init, seen);
      DistinctByKeys(key, init, seen);
      var d := DistinctBy(key, init, seen);
      if !(key(x) in seen || key(x) in Keys(key, init)) {
        assert key(x) !in Keys(key, d);
        KeysMembers(key, d);
      }
    }
  }

  /** First writer wins, and declarations come out in first-occurrence order: each
      declared element is the first of `xs` with its key, and positions increase. */
  lemma {:induction false} DistinctByFirstOccurrence<T, K>(key: T -> K, xs: seq<T>, seen: set<K>)
    ensures forall i :: 0 <= i < |DistinctBy(key, xs, seen)| ==>
      key(DistinctBy(key, xs, seen)[i]) in Keys(key, xs) &&
      DistinctBy(key, xs, seen)[i] == xs[FirstIndex(key, xs, key(DistinctBy(key, xs, seen)[i]))]
    ensures forall i, j :: 0 <= i < j < |DistinctBy(key, xs, seen)| ==>
      FirstIndex(key, xs, key(DistinctBy(key, xs, seen)[i]))
        < FirstIndex(key, xs, key(DistinctBy(key, xs, seen)[j]))
  {
    if xs != [] {
      var init, x := xs[..|xs| - 1], xs[|xs| - 1];
      assert forall j :: 0 <= j < |init| ==> init[j] == xs[j];
      DistinctByFirstOccurrence(key, init, seen);
      var d := DistinctBy(key, init, seen);
      var r := DistinctBy(key, xs, seen);
      KeysSnoc(key, init, x);
      assert xs == init + [x];
      forall i | 0 <= i < |d|
        ensures FirstIndex(key, xs, key(d[i])) == FirstIndex(key, init, key(d[i]))
      {
        assert key(d[i]) in Keys(key, init);
      }
      if !(key(x) in seen || key(x) in Keys(key, init)) {
        assert FirstIndex(key, xs, key(x)) == |xs| - 1;
        assert r == d + [x];
        forall i | 0 <= i < |d|
          ensures FirstIndex(key, xs, key(r[i])) < FirstIndex(key, xs, key(x))
        {
          assert r[i] == d[i];
        }
      } else {
        assert r == d;
      }
    }
  }

  /** Walking `xs ++ ys` is walking `xs`, then walking `ys` with the keys of `xs` seen. */
  lemma {:induction false} DistinctByAppend<T, K>(key: T -> K, xs: seq<T>, ys: seq<T>, seen: set<K>)
    ensures DistinctBy(key, xs + ys, seen) == DistinctBy(key, xs, seen) + DistinctBy(key, ys, seen + Keys(key, xs))
  {
    if ys == [] {
      assert xs + ys == xs;
    } else {
      var init, y := ys[..|ys| - 1], ys[|ys| - 1];
      DistinctByAppend(key, xs, init, seen);
      assert xs + ys == (xs + init) + [y];
      DistinctBySnoc(key, xs + init, y, seen);
      DistinctBySnoc(key, init, y, seen + Keys(key, xs));
      KeysOfAppend(key, xs, init);
    }
  }

  lemma {:induction false} KeysOfAppend<T, K>(key: T -> K, xs: seq<T>, ys: seq<T>)
    ensures Keys(key, xs + ys) == Keys(key, xs) + Keys(key, ys)
  {
    if ys == [] {
      assert xs + ys == xs;
    } else {
      var init, y := ys[..|ys| - 1], ys[|ys| - 1];
      KeysOfAppend(key, xs, init);
      assert xs + ys == (xs + init) + [y];
      KeysSnoc(key, xs + init, y);
      KeysSnoc(key, init, y);
      assert ys == init + [y];
    }
  }

  /** With the identity as key: the result has no duplicates and holds exactly the
      elements of `xs` that are not in `seen`. */
  lemma DistinctElements<T>(xs: seq<T>, seen: set<T>)
    ensures NoDuplicates(DistinctBy(Identity, xs, seen))
    ensures forall x :: x in DistinctBy(Identity, xs, seen) <==> x in xs && x !in seen
  {
    var r := DistinctBy(Identity, xs, seen);
    DistinctByUnique(Identity, xs, seen);
    DistinctByKeys(Identity, xs, seen);
    KeysMembers(Identity, xs);
    KeysMembers(Identity, r);
    forall x | x in xs && x !in seen
      ensures x in r
    {
      var i :| 0 <= i < |xs| && xs[i] == x;
      assert Identity(xs[i]) in Keys(Identity, xs);
      assert x in Keys(Identity, r);
    }
    forall x | x in r
      ensures x !in seen
    {
      var i :| 0 <= i < |r| && r[i] == x;
      assert Identity(r[i]) in Keys(Identity, r);
    }
  }
}
