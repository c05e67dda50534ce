/**
 * A dictionary of lists built by a sequence of operations, as the graph builders
 * do: `if k not in adj: adj[k] = []` is a Touch, `adj[k].append(x)` (on a plain
 * dict after such a test, or on a defaultdict) is an Add.
 */
module Multimap {
  datatype Op<K, V> = Touch(key: K) | Add(key: K, item: V)

  /** One dictionary update. */
  function Insert<K(==), V>(m: map<K, seq<V>>, op: Op<K, V>): map<K, seq<V>>
  {
    match op
    case Touch(k) => if k in m then m else m[k := []]
    case Add(k, x) => m[k := (if k in m then m[k] else []) + [x]]
  }

  /** The dictionary left by performing ops in order on an empty one. */
  function Collect<K(==), V>(ops: seq<Op<K, V>>): map<K, seq<V>>
  {
    if ops == [] then map[] else Insert(Collect(ops[..|ops| - 1]), ops[|ops| - 1])
  }

  /** The items added under k, in the order they were added. */
  function ItemsFor<K(==), V>(ops: seq<Op<K, V>>, k: K): seq<V>
  {
    if ops == [] then []
    else
      var last := ops[|ops| - 1];
      ItemsFor(ops[..|ops| - 1], k) + (if last.Add? && last.key == k then [last.item] else [])
  }

  predicate Mentions<K(==), V>(ops: seq<Op<K, V>>, k: K)
  {
    exists i :: 0 <= i < |ops| && ops[i].key == k
  }

  /**
   * A key is present exactly when some operation names it, and its list holds
   * the items added under it, in order.
   */
  lemma {:induction false} CollectSpec<K, V>(ops: seq<Op<K, V>>, k: K)
    ensures k in Collect(ops) <==> Mentions(ops, k)
    ensures k in Collect(ops) ==> Collect(ops)[k] == ItemsFor(ops, k)
  {
    if ops != [] {
      var init := ops[..|ops| - 1];
      CollectSpec(init, k);
      assert forall i :: 0 <= i < |init| ==> init[i] == ops[i];
      if Mentions(init, k) {
        assert Mentions(ops, k);
      }
      if Mentions(ops, k) && !Mentions(init, k) {
        assert ops[|ops| - 1].key == k;
        ItemsForNone(init, k);
      }
    }
  }

  /** A stored item was added under that key by some operation. */
  lemma {:induction false} ItemsForAdded<K, V>(ops: seq<Op<K, V>>, k: K, x: V)
    requires x in ItemsFor(ops, k)
    ensures exists i :: 0 <= i < |ops| && ops[i] == Add(k, x)
  {
    var init := ops[..|ops| - 1];
    if x in ItemsFor(init, k) {
      ItemsForAdded(init, k, x);
      var i :| 0 <= i < |init| && init[i] == Add(k, x);
      assert ops[i] == Add(k, x);
    } else {
      assert ops[|ops| - 1] == Add(k, x);
    }
  }

  /** Appending operations extends each key's item list by the items they add. */
  lemma {:induction false} ItemsForAppend<K, V>(ops: seq<Op<K, V>>, more: seq<Op<K, V>>, k: K)
    ensures ItemsFor(ops + more, k) == ItemsFor(ops, k) + ItemsFor(more, k)
    decreases |more|
  {
    if more == [] {
      assert ops + more == ops;
    } else {
      var init := more[..|more| - 1];
      assert (ops + more)[..|ops + more| - 1] == ops + init;
      ItemsForAppend(ops, init, k);
    }
  }

  /** The item list of a key no Add names is empty. */
  lemma {:induction false} ItemsForNone<K, V>(ops: seq<Op<K, V>>, k: K)
    requires forall i :: 0 <= i < |ops| ==> !(ops[i].Add? && ops[i].key == k)
    ensures ItemsFor(ops, k) == []
  {
    if ops != [] {
      ItemsForNone(ops[..|ops| - 1], k);
    }
  }

  lemma CollectSnoc<K, V>(ops: seq<Op<K, V>>, op: Op<K, V>)
    ensures Collect(ops + [op]) == Insert(Collect(ops), op)
  {
    assert (ops + [op])[..|ops|] == ops;
  }

  /** An item added under a key is stored under that key. */
  lemma {:induction false} ItemsForHas<K, V>(ops: seq<Op<K, V>>, i: nat)
    requires i < |ops| && ops[i].Add?
    ensures ops[i].item in ItemsFor(ops, ops[i].key)
  {
    var init := ops[..|ops| - 1];
    if i < |init| {
      ItemsForHas(init, i);
      assert init[i] == ops[i];
    }
  }
}
