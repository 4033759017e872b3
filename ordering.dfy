/**
 * Order keys shared by both entry collections.
 *
 * Each collection keeps its entries sorted by an integer `order` (the
 * collection's `comparator` returns the entry's `order`), and gives a new
 * entry the next order number: 1 on an empty collection, otherwise the last
 * entry's order plus one. This module states those two rules on the sequence
 * of keys alone, so that each collection only has to project its entries to
 * their keys.
 */
module Ordering {

  /** Keys strictly increase from front to back: sorted by the comparator, and no two alike. */
  predicate Ascending(keys: seq<int>) {
    forall i, j :: 0 <= i < j < |keys| ==> keys[i] < keys[j]
  }

  /** The order number a new entry receives from `nextOrder`. */
  function NextOrder(keys: seq<int>): (r: int)
    ensures keys == [] ==> r == 1
    ensures Ascending(keys) ==> forall k :: k in keys ==> k < r
    ensures keys != [] ==> r - 1 in keys
  {
    if |keys| == 0 then 1 else keys[|keys| - 1] + 1
  }

  /**
   * Where a sorted insert puts a new key `k`: after every key that is not
   * greater than `k` and before every key that is (the place a stable sort by
   * the comparator gives an element appended at the end).
   */
  function InsertionIndex(keys: seq<int>, k: int): (i: nat)
    requires Ascending(keys)
    ensures i <= |keys|
    ensures forall j :: 0 <= j < i ==> keys[j] <= k
    ensures forall j :: i <= j < |keys| ==> k < keys[j]
    decreases |keys|
  {
    if |keys| == 0 || keys[|keys| - 1] <= k then |keys|
    else InsertionIndex(keys[..|keys| - 1], k)
  }

  /** The keys after a sorted insert of `k`. */
  function Insert(keys: seq<int>, k: int): (r: seq<int>)
    requires Ascending(keys)
    ensures multiset(r) == multiset(keys) + multiset{k}
  {
    var i := InsertionIndex(keys, k);
    assert keys == keys[..i] + keys[i..];
    keys[..i] + [k] + keys[i..]
  }

  /** A sorted insert of a key not already present keeps the keys strictly ascending. */
  lemma InsertKeepsAscending(keys: seq<int>, k: int)
    requires Ascending(keys) && k !in keys
    ensures Ascending(Insert(keys, k))
  {
  }

  /** A key greater than every present key goes to the end: the sorted insert of a `NextOrder` key is an append. */
  lemma InsertFreshAppends(keys: seq<int>, k: int)
    requires Ascending(keys)
    requires forall x :: x in keys ==> x < k
    ensures InsertionIndex(keys, k) == |keys|
    ensures Insert(keys, k) == keys + [k]
  {
    forall j | 0 <= j < |keys| ensures keys[j] < k {
      assert keys[j] in keys;
    }
    var i := InsertionIndex(keys, k);
    assert keys[..i] == keys && keys[i..] == [];
  }

  /** The keys of `xs` under `key`, front to back: what the comparator sorts by. */
  function Keys<T>(xs: seq<T>, key: T -> int): (keys: seq<int>)
    ensures |keys| == |xs|
    ensures forall i {:trigger keys[i]} :: 0 <= i < |xs| ==> keys[i] == key(xs[i])
  {
    if xs == [] then [] else [key(xs[0])] + Keys(xs[1..], key)
  }

  /** Sorted by `key`: the elements after the first are sorted too, and all have larger keys. */
  lemma TailAbove<T>(xs: seq<T>, key: T -> int)
    requires xs != [] && Ascending(Keys(xs, key))
    ensures Ascending(Keys(xs[1..], key))
    ensures forall x :: x in xs[1..] ==> key(xs[0]) < key(x)
  {
    var keys, tail := Keys(xs, key), Keys(xs[1..], key);
    forall x | x in xs[1..] ensures key(xs[0]) < key(x) {
      var j :| 0 <= j < |xs[1..]| && xs[1..][j] == x;
      assert keys[0] < keys[j + 1];
    }
    forall a, b | 0 <= a < b < |tail| ensures tail[a] < tail[b] {
      assert keys[a + 1] < keys[b + 1];
    }
  }

  /** An element put in front of elements sorted by `key` that all have larger keys keeps them sorted. */
  lemma ConsKeepsAscending<T>(x: T, rest: seq<T>, key: T -> int)
    requires Ascending(Keys(rest, key))
    requires forall e :: e in rest ==> key(x) < key(e)
    ensures Ascending(Keys([x] + rest, key))
  {
  }

  /** An element numbered by `NextOrder` and put at the end keeps the sequence sorted by `key`. */
  lemma AppendNextKeepsAscending<T>(xs: seq<T>, x: T, key: T -> int)
    requires Ascending(Keys(xs, key))
    requires key(x) == NextOrder(Keys(xs, key))
    ensures Ascending(Keys(xs + [x], key))
  {
    var keys, grown := Keys(xs, key), Keys(xs + [x], key);
    forall a, b | 0 <= a < b < |grown| ensures grown[a] < grown[b] {
      assert (xs + [x])[a] == xs[a] && grown[a] == keys[a];
      if b < |xs| {
        assert (xs + [x])[b] == xs[b] && grown[b] == keys[b];
      } else {
        assert keys[a] in keys;
      }
    }
  }

  /** Appending an element appends its key. */
  lemma KeysAppend<T>(xs: seq<T>, x: T, key: T -> int)
    ensures Keys(xs + [x], key) == Keys(xs, key) + [key(x)]
  {
  }

  /** The keys after `n` entries are created one after another in an empty collection. */
  function Created(n: nat): seq<int> {
    if n == 0 then [] else var before := Created(n - 1); before + [NextOrder(before)]
  }

  /** Repeated creates number the entries 1, 2, 3, ... in creation order. */
  lemma {:induction false} CreatedCountsFromOne(n: nat)
    ensures Created(n) == seq(n, i => i + 1)
    ensures Ascending(Created(n))
  {
    if n > 0 {
      CreatedCountsFromOne(n - 1);
      var before := Created(n - 1);
      assert before == seq(n - 1, i => i + 1);
      assert NextOrder(before) == n by {
        if n - 1 > 0 {
          assert before[n - 2] == n - 1;
        }
      }
    }
  }
}
