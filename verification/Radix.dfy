/**
 The routines of memory/radix.c on a heap of nodes. A key is looked up by its
 digits; `bits` is the number of key bits per level.
 */
module Radix {
  import opened Machine
  import opened Sets
  import opened Digits
  import opened RadixTree

  // ---- enumerating the stored values ----

  /** Keys and values list what the tree stores under keys whose first digit is
      below `limit`, each key once and in ascending order. */
  ghost predicate ListsBelow(m: Nodes, a: nat, depth: nat, limit: nat, keys: seq<seq<nat>>, values: seq<nat>) {
    && depth > 0 && |keys| == |values|
    && (forall i :: 0 <= i < |keys| ==>
          |keys[i]| == depth && keys[i][0] < limit && Lookup(m, a, keys[i]) == values[i] && values[i] != 0)
    && (forall i, j :: 0 <= i < j < |keys| ==> Before(keys[i], keys[j]))
    && (forall es :: |es| == depth && es[0] < limit && Lookup(m, a, es) != 0 ==> es in keys)
  }

  /** All of them. */
  ghost predicate Lists(m: Nodes, a: nat, depth: nat, keys: seq<seq<nat>>, values: seq<nat>) {
    && depth > 0 && |keys| == |values|
    && (forall i :: 0 <= i < |keys| ==> |keys[i]| == depth && Lookup(m, a, keys[i]) == values[i] && values[i] != 0)
    && (forall i, j :: 0 <= i < j < |keys| ==> Before(keys[i], keys[j]))
    && (forall es :: |es| == depth && Lookup(m, a, es) != 0 ==> es in keys)
  }

  ghost predicate InDigitOrder(m: Nodes, a: nat, depth: nat, values: seq<nat>) {
    exists keys :: Lists(m, a, depth, keys, values)
  }

  /** Keys and values list what the tree stores, with the keys as numbers. */
  ghost predicate ListsKeys(m: Nodes, a: nat, depth: nat, bits: nat, keys: seq<nat>, values: seq<nat>) {
    && |keys| == |values|
    && (forall i :: 0 <= i < |keys| ==>
          keys[i] < Pow2(depth * bits) && Lookup(m, a, DigitsOf(keys[i], depth, bits)) == values[i] && values[i] != 0)
    && (forall i, j :: 0 <= i < j < |keys| ==> keys[i] < keys[j])
    && (forall key: nat :: key < Pow2(depth * bits) && Lookup(m, a, DigitsOf(key, depth, bits)) != 0 ==> key in keys)
  }

  /** These are all stored values, once per key and in ascending order of keys. */
  ghost predicate InKeyOrder(m: Nodes, a: nat, depth: nat, bits: nat, values: seq<nat>) {
    exists keys :: ListsKeys(m, a, depth, bits, keys, values)
  }

  /** A stored value's key has digits in range. */
  lemma {:induction false} StoredDigits(m: Nodes, a: nat, depth: nat, bits: nat, es: seq<nat>)
    requires Tree(m, a, depth, Pow2(bits)) && |es| == depth && Lookup(m, a, es) != 0
    ensures AreDigits(es, bits)
    decreases depth
  {
    var slot := m[a][es[0]];
    if depth > 1 {
      LookupNull(m, es[1..]);
      assert SlotTree(m, slot, depth, Pow2(bits));
      StoredDigits(m, slot, depth - 1, bits, es[1..]);
      forall i | 0 <= i < |es|
        ensures es[i] < Pow2(bits)
      {
        if i > 0 {
          assert es[i] == es[1..][i - 1];
        }
      }
    }
  }

  ghost function Numbers(keys: seq<seq<nat>>, bits: nat): (out: seq<nat>)
    ensures |out| == |keys| && forall i :: 0 <= i < |keys| ==> out[i] == KeyOf(keys[i], bits)
  {
    seq(|keys|, i requires 0 <= i < |keys| => KeyOf(keys[i], bits))
  }

  /** Digit order is key order. */
  lemma ListsNumbers(m: Nodes, a: nat, depth: nat, bits: nat, keys: seq<seq<nat>>, values: seq<nat>)
    requires Tree(m, a, depth, Pow2(bits)) && Lists(m, a, depth, keys, values)
    ensures ListsKeys(m, a, depth, bits, Numbers(keys, bits), values)
  {
    var numbers := Numbers(keys, bits);
    forall i | 0 <= i < |keys|
      ensures numbers[i] < Pow2(depth * bits) && DigitsOf(numbers[i], depth, bits) == keys[i]
    {
      StoredDigits(m, a, depth, bits, keys[i]);
      KeyDigits(keys[i], bits);
    }
    forall i, j | 0 <= i < j < |keys|
      ensures numbers[i] < numbers[j]
    {
      OrderOfKeys(numbers[i], numbers[j], depth, bits);
    }
    forall key: nat | key < Pow2(depth * bits) && Lookup(m, a, DigitsOf(key, depth, bits)) != 0
      ensures key in numbers
    {
      var i :| 0 <= i < |keys| && keys[i] == DigitsOf(key, depth, bits);
      DigitsInjective(key, numbers[i], depth, bits);
    }
  }

  predicate IsNode(m: Nodes, a: nat, size: nat) {
    a != 0 && a in m && |m[a]| == size
  }

  ghost function Prefixed(i: nat, keys: seq<seq<nat>>): (out: seq<seq<nat>>)
    ensures |out| == |keys|
  {
    seq(|keys|, k requires 0 <= k < |keys| => [i] + keys[k])
  }

  lemma ListsAll(m: Nodes, a: nat, depth: nat, size: nat, keys: seq<seq<nat>>, values: seq<nat>)
    requires IsNode(m, a, size) && ListsBelow(m, a, depth, size, keys, values)
    ensures Lists(m, a, depth, keys, values)
  {
  }

  lemma PrefixedBefore(i: nat, x: seq<nat>, y: seq<nat>)
    requires Before(x, y)
    ensures Before([i] + x, [i] + y)
  {
    var k :| 0 <= k < |x| && k < |y| && x[..k] == y[..k] && x[k] < y[k];
    var ds, es := [i] + x, [i] + y;
    assert ds[..k + 1] == [i] + x[..k] && es[..k + 1] == [i] + y[..k];
    assert ds[k + 1] < es[k + 1];
  }

  lemma SmallerFirst(x: seq<nat>, y: seq<nat>)
    requires x != [] && y != [] && x[0] < y[0]
    ensures Before(x, y)
  {
    assert x[..0] == y[..0];
  }

  /** One more slot: what its child lists, prefixed by the slot's digit. */
  lemma ListsSlot(m: Nodes, a: nat, depth: nat, size: nat, i: nat, keys: seq<seq<nat>>, values: seq<nat>, sub: seq<seq<nat>>, subValues: seq<nat>)
    requires IsNode(m, a, size) && i < size && depth > 1 && m[a][i] != 0
    requires ListsBelow(m, a, depth, i, keys, values)
    requires Lists(m, m[a][i], depth - 1, sub, subValues)
    ensures ListsBelow(m, a, depth, i + 1, keys + Prefixed(i, sub), values + subValues)
  {
    AllBefore(keys, i, sub);
    SlotValues(m, a, depth, i, keys, values, sub, subValues);
    forall es | |es| == depth && es[0] < i + 1 && Lookup(m, a, es) != 0
      ensures es in keys + Prefixed(i, sub)
    {
      SlotComplete(m, a, depth, i, keys, values, sub, subValues, es);
    }
  }

  lemma SlotValues(m: Nodes, a: nat, depth: nat, i: nat, keys: seq<seq<nat>>, values: seq<nat>, sub: seq<seq<nat>>, subValues: seq<nat>)
    requires a != 0 && a in m && i < |m[a]| && depth > 1
    requires ListsBelow(m, a, depth, i, keys, values)
    requires Lists(m, m[a][i], depth - 1, sub, subValues)
    ensures var all, vs := keys + Prefixed(i, sub), values + subValues;
            |all| == |vs| && forall k :: 0 <= k < |all| ==>
              |all[k]| == depth && all[k][0] < i + 1 && Lookup(m, a, all[k]) == vs[k] && vs[k] != 0
  {
    var all, vs := keys + Prefixed(i, sub), values + subValues;
    forall k | 0 <= k < |all|
      ensures |all[k]| == depth && all[k][0] < i + 1 && Lookup(m, a, all[k]) == vs[k] && vs[k] != 0
    {
      if k >= |keys| {
        assert all[k] == [i] + sub[k - |keys|];
        assert all[k][1..] == sub[k - |keys|];
      }
    }
  }

  lemma SlotComplete(m: Nodes, a: nat, depth: nat, i: nat, keys: seq<seq<nat>>, values: seq<nat>, sub: seq<seq<nat>>, subValues: seq<nat>, es: seq<nat>)
    requires a != 0 && a in m && i < |m[a]| && depth > 1
    requires ListsBelow(m, a, depth, i, keys, values)
    requires Lists(m, m[a][i], depth - 1, sub, subValues)
    requires |es| == depth && es[0] < i + 1 && Lookup(m, a, es) != 0
    ensures es in keys + Prefixed(i, sub)
  {
    if es[0] == i {
      var k :| 0 <= k < |sub| && sub[k] == es[1..];
      HeadTail(es);
      assert Prefixed(i, sub)[k] == es;
      assert es in Prefixed(i, sub);
    } else {
      assert es in keys;
    }
  }

  lemma AllBefore(keys: seq<seq<nat>>, i: nat, sub: seq<seq<nat>>)
    requires forall k :: 0 <= k < |keys| ==> |keys[k]| > 0 && keys[k][0] < i
    requires forall j, k :: 0 <= j < k < |keys| ==> Before(keys[j], keys[k])
    requires forall j, k :: 0 <= j < k < |sub| ==> Before(sub[j], sub[k])
    ensures var all := keys + Prefixed(i, sub);
            forall j, k :: 0 <= j < k < |all| ==> Before(all[j], all[k])
  {
    var all := keys + Prefixed(i, sub);
    forall j, k | 0 <= j < k < |all|
      ensures Before(all[j], all[k])
    {
      if k < |keys| {
      } else if j < |keys| {
        SmallerFirst(all[j], all[k]);
      } else {
        PrefixedBefore(i, sub[j - |keys|], sub[k - |keys|]);
      }
    }
  }

  lemma ListsEmptySlot(m: Nodes, a: nat, depth: nat, size: nat, i: nat, keys: seq<seq<nat>>, values: seq<nat>)
    requires IsNode(m, a, size) && i < size && m[a][i] == 0
    requires ListsBelow(m, a, depth, i, keys, values)
    ensures ListsBelow(m, a, depth, i + 1, keys, values)
  {
    forall es | |es| == depth && es[0] < i + 1 && Lookup(m, a, es) != 0
      ensures es in keys
    {
      LookupNull(m, es[1..]);
    }
  }

  lemma ListsValue(m: Nodes, a: nat, size: nat, i: nat, keys: seq<seq<nat>>, values: seq<nat>)
    requires IsNode(m, a, size) && i < size && m[a][i] != 0
    requires ListsBelow(m, a, 1, i, keys, values)
    ensures ListsBelow(m, a, 1, i + 1, keys + [[i]], values + [m[a][i]])
  {
    var all := keys + [[i]];
    assert [i][1..] == [];
    assert Lookup(m, a, [i]) == m[a][i];
    forall j, k | 0 <= j < k < |all|
      ensures Before(all[j], all[k])
    {
      if k == |keys| {
        SmallerFirst(all[j], all[k]);
      }
    }
    forall es | |es| == 1 && es[0] < i + 1 && Lookup(m, a, es) != 0
      ensures es in all
    {
      if es[0] == i {
        assert es == [i] == all[|keys|];
      } else {
        assert es in keys;
      }
    }
  }

  // ---- freeing a tree ----

  /** Nodes below the slots before `limit`. */
  ghost function BelowSlots(m: Nodes, a: nat, depth: nat, limit: nat): set<nat>
    requires a in m && limit <= |m[a]|
  {
    set i, p | 0 <= i < limit && p in Below(m, m[a][i], depth) :: p
  }

  /** The addresses freed are the nodes below `a`, each once, and the values if
      asked for. */
  ghost predicate FreedOnce(m: Nodes, a: nat, depth: nat, leaves: bool, freed: seq<nat>, values: seq<nat>) {
    multiset(freed) == multiset(NodesOf(m, a, depth) - {a}) + (if leaves then multiset(values) else multiset{})
  }

  ghost predicate FreedListed(m: Nodes, a: nat, depth: nat, leaves: bool, freed: seq<nat>, keys: seq<seq<nat>>, values: seq<nat>) {
    Lists(m, a, depth, keys, values) && FreedOnce(m, a, depth, leaves, freed, values)
  }

  /** What radix_delete frees: every node below `a` exactly once and, if asked for,
      every stored value once per key. */
  ghost predicate AllFreed(m: Nodes, a: nat, depth: nat, leaves: bool, freed: seq<nat>) {
    exists keys, values :: FreedListed(m, a, depth, leaves, freed, keys, values)
  }

  ghost predicate FreedBelow(m: Nodes, a: nat, depth: nat, limit: nat, leaves: bool, freed: seq<nat>, values: seq<nat>) {
    && a in m && limit <= |m[a]|
    && multiset(freed) == multiset(BelowSlots(m, a, depth, limit)) + (if leaves then multiset(values) else multiset{})
  }

  lemma FreedSlot(m: Nodes, a: nat, depth: nat, size: nat, i: nat, leaves: bool, freed: seq<nat>, values: seq<nat>, more: seq<nat>, subValues: seq<nat>)
    requires Tree(m, a, depth, size) && depth > 1 && i < size && m[a][i] != 0
    requires FreedBelow(m, a, depth, i, leaves, freed, values)
    requires FreedOnce(m, m[a][i], depth - 1, leaves, more, subValues)
    ensures FreedBelow(m, a, depth, i + 1, leaves, freed + more + [m[a][i]], values + subValues)
  {
    var c := m[a][i];
    var before, new' := BelowSlots(m, a, depth, i), NodesOf(m, c, depth - 1);
    SlotNodes(m, a, depth, size, i);
    assert c in new';
    DisjointBags(before, new', c);
  }

  lemma DeletedSlot(m: Nodes, a: nat, depth: nat, size: nat, i: nat, leaves: bool, freed: seq<nat>, keys: seq<seq<nat>>, values: seq<nat>, more: seq<nat>, sub: seq<seq<nat>>, subValues: seq<nat>)
    requires Tree(m, a, depth, size) && depth > 1 && i < size && m[a][i] != 0
    requires ListsBelow(m, a, depth, i, keys, values) && FreedBelow(m, a, depth, i, leaves, freed, values)
    requires Lists(m, m[a][i], depth - 1, sub, subValues)
    requires FreedOnce(m, m[a][i], depth - 1, leaves, more, subValues)
    ensures ListsBelow(m, a, depth, i + 1, keys + Prefixed(i, sub), values + subValues)
    ensures FreedBelow(m, a, depth, i + 1, leaves, freed + more + [m[a][i]], values + subValues)
  {
    ListsSlot(m, a, depth, size, i, keys, values, sub, subValues);
    FreedSlot(m, a, depth, size, i, leaves, freed, values, more, subValues);
  }

  lemma SlotNodes(m: Nodes, a: nat, depth: nat, size: nat, i: nat)
    requires Tree(m, a, depth, size) && depth > 1 && i < size && m[a][i] != 0
    ensures BelowSlots(m, a, depth, i + 1) == BelowSlots(m, a, depth, i) + NodesOf(m, m[a][i], depth - 1)
    ensures BelowSlots(m, a, depth, i) !! NodesOf(m, m[a][i], depth - 1)
  {
    assert Below(m, m[a][i], depth) == NodesOf(m, m[a][i], depth - 1);
  }

  lemma DisjointBags(x: set<nat>, y: set<nat>, c: nat)
    requires x !! y && c in y
    ensures multiset(x + y) == multiset(x) + multiset(y - {c}) + multiset{c}
  {
  }

  lemma FreedEmptySlot(m: Nodes, a: nat, depth: nat, size: nat, i: nat, leaves: bool, freed: seq<nat>, values: seq<nat>)
    requires IsNode(m, a, size) && i < size && m[a][i] == 0
    requires FreedBelow(m, a, depth, i, leaves, freed, values)
    ensures FreedBelow(m, a, depth, i + 1, leaves, freed, values)
  {
    assert BelowSlots(m, a, depth, i + 1) == BelowSlots(m, a, depth, i);
  }

  lemma FreedAll(m: Nodes, a: nat, depth: nat, size: nat, leaves: bool, freed: seq<nat>, values: seq<nat>)
    requires Tree(m, a, depth, size) && FreedBelow(m, a, depth, size, leaves, freed, values)
    ensures FreedOnce(m, a, depth, leaves, freed, values)
  {
    assert BelowSlots(m, a, depth, size) == NodesOf(m, a, depth) - {a};
  }

  lemma LastLevelNodes(m: Nodes, a: nat, depth: nat)
    requires depth == 1
    ensures NodesOf(m, a, depth) - {a} == {}
  {
  }

  // ---- growing a tree ----

  /** The tree keeps its nodes, takes only new ones, and leaves the rest of the
      heap alone. */
  ghost predicate Grown(m: Nodes, n: Nodes, a: nat, depth: nat) {
    && NodesOf(m, a, depth) <= NodesOf(n, a, depth)
    && (forall p :: p in NodesOf(n, a, depth) && p in m ==> p in NodesOf(m, a, depth))
    && OutsideKept(m, n, NodesOf(m, a, depth))
    && m.Keys <= n.Keys
  }

  lemma GrownTrans(m: Nodes, n: Nodes, o: Nodes, a: nat, depth: nat)
    requires Grown(m, n, a, depth) && Grown(n, o, a, depth)
    ensures Grown(m, o, a, depth)
  {
  }

  lemma GrownSet(m: Nodes, n: Nodes, a: nat, depth: nat, table: nat)
    requires NodesOf(n, a, depth) == NodesOf(m, a, depth)
    requires table in NodesOf(m, a, depth) && table in m && table in n && n == m[table := n[table]]
    ensures Grown(m, n, a, depth)
  {
  }

  lemma SameLookupsTrans(m: Nodes, n: Nodes, o: Nodes, a: nat, depth: nat)
    requires SameLookups(m, n, a, depth) && SameLookups(n, o, a, depth)
    ensures SameLookups(m, o, a, depth)
  {
  }

  lemma OneChangedTrans(m: Nodes, n: Nodes, o: Nodes, a: nat, depth: nat, key: seq<nat>, v: nat)
    requires SameLookups(m, n, a, depth) && OneChanged(n, o, a, depth, key, v)
    ensures OneChanged(m, o, a, depth, key, v)
  {
  }

  lemma NodeInTree(m: Nodes, a: nat, depth: nat, size: nat, path: seq<nat>, low: nat)
    requires Tree(m, a, depth, size) && 0 < low && depth == low + |path| && Lookup(m, a, path) != 0
    ensures Lookup(m, a, path) in NodesOf(m, a, depth)
  {
    SubTree(m, a, depth, size, path, low);
    assert Lookup(m, a, path) in NodesOf(m, Lookup(m, a, path), low);
  }

  lemma TakeMore(ds: seq<nat>, i: nat)
    requires i < |ds|
    ensures ds[..i] + [ds[i]] == ds[..i + 1]
    ensures i + 1 == |ds| ==> ds[..i] + [ds[i]] == ds
  {
  }

  // ---- the heap ----

  class NodeHeap {
    var nodes: Nodes

    constructor ()
      ensures nodes == map[]
    {
      nodes := map[];
    }

    /** mem_alloc of a node followed by the loop that zeroes it. Nodes of a page
        or more are refused by the allocator. */
    method NewNode(bits: nat) returns (r: Outcome<nat>)
      modifies this
      ensures r.Halt? <==> Pow2(bits) * 8 >= PAGE_SIZE
      ensures r.Halt? ==> nodes == old(nodes)
      ensures r.Done? ==>
                && r.value != 0 && r.value !in old(nodes)
                && r.value in nodes && nodes == old(nodes)[r.value := nodes[r.value]]
                && ZeroRow(nodes[r.value], Pow2(bits))
    {
      var size := Pow2(bits);
      if size * 8 >= PAGE_SIZE {
        return Halt;
      }
      FreshAddress(nodes.Keys);
      var b: nat :| b != 0 && b !in nodes;
      nodes := nodes[b := seq(size, i => 0)];
      r := Done(b);
    }

    /** radix_get */
    method Get(a: nat, key: nat, depth: nat, bits: nat) returns (r: nat)
      requires Tree(nodes, a, depth, Pow2(bits)) && (depth - 1) * bits < 64
      ensures r == Lookup(nodes, a, DigitsOf(key, depth, bits))
    {
      ghost var ds := DigitsOf(key, depth, bits);
      r := a;
      var i := 1;
      assert ds[..0] == [];
      while i < depth + 1
        invariant 1 <= i <= depth + 1
        invariant r == Lookup(nodes, a, ds[..i - 1]) && r != 0
      {
        SubTree(nodes, a, depth, Pow2(bits), ds[..i - 1], depth - (i - 1));
        var position := Digit(key, depth, bits, i - 1);
        NextDigit(nodes, a, ds, i - 1);
        r := nodes[r][position];
        if r == 0 {
          PrefixNull(nodes, a, ds, i);
          return;
        }
        i := i + 1;
      }
      assert ds[..depth] == ds;
    }

    /** radix_insert: sets one key and returns what it held before; every other
        key and every node outside the tree is untouched, and the nodes it adds
        are new. It refuses keys that do not fit the depth. */
    method Insert(a: nat, key: nat, v: nat, depth: nat, bits: nat) returns (r: Outcome<nat>)
      requires Tree(nodes, a, depth, Pow2(bits)) && depth * bits < 64
      modifies this
      ensures key >= Pow2(bits * depth) ==> r.Halt?
      ensures r.Halt? ==> key >= Pow2(bits * depth) || Pow2(bits) * 8 >= PAGE_SIZE
      ensures r.Done? ==>
                && Tree(nodes, a, depth, Pow2(bits))
                && OneChanged(old(nodes), nodes, a, depth, DigitsOf(key, depth, bits), v)
                && r.value == Lookup(old(nodes), a, DigitsOf(key, depth, bits))
                && Grown(old(nodes), nodes, a, depth)
    {
      if key >= Pow2(bits * depth) {
        return Halt;
      }
      ghost var m, ds := nodes, DigitsOf(key, depth, bits);
      var table, i := a, 1;
      assert ds[..0] == [];
      while i < depth
        invariant 1 <= i <= depth
        invariant Tree(nodes, a, depth, Pow2(bits))
        invariant table == Lookup(nodes, a, ds[..i - 1]) && table != 0
        invariant SameLookups(m, nodes, a, depth)
        invariant Grown(m, nodes, a, depth)
      {
        ghost var before := nodes;
        var index := Digit(key, depth, bits, i - 1);
        var step := Descend(a, table, ds[..i - 1], index, depth, depth - (i - 1), bits);
        if step.Halt? {
          return Halt;
        }
        GrownTrans(m, before, nodes, a, depth);
        SameLookupsTrans(m, before, nodes, a, depth);
        TakeMore(ds, i - 1);
        table := step.value;
        i := i + 1;
      }
      LastDigit(key, depth, bits);
      var index := Low(key, bits);
      TakeMore(ds, depth - 1);
      SubTree(nodes, a, depth, Pow2(bits), ds[..depth - 1], 1);
      ghost var before := nodes;
      var held := nodes[table][index];
      nodes := nodes[table := SetSlot(nodes[table], index, v)];
      SetUnder(before, nodes, a, depth, Pow2(bits), ds[..depth - 1], table, index, v);
      OneChangedTrans(m, before, nodes, a, depth, ds, v);
      NodeInTree(before, a, depth, Pow2(bits), ds[..depth - 1], 1);
      GrownSet(before, nodes, a, depth, table);
      GrownTrans(m, before, nodes, a, depth);
      r := Done(held);
    }

    /** radix_remove: clears one key and leaves everything else. What it reports is
        the old value cut to eight bits. */
    method Remove(a: nat, key: nat, depth: nat, bits: nat) returns (r: nat)
      requires Tree(nodes, a, depth, Pow2(bits)) && (depth - 1) * bits < 64
      modifies this
      ensures Tree(nodes, a, depth, Pow2(bits))
      ensures OneChanged(old(nodes), nodes, a, depth, DigitsOf(key, depth, bits), 0)
      ensures NodesOf(nodes, a, depth) == NodesOf(old(nodes), a, depth)
      ensures OutsideKept(old(nodes), nodes, NodesOf(old(nodes), a, depth))
      ensures r == Lookup(old(nodes), a, DigitsOf(key, depth, bits)) % 256
    {
      ghost var ds := DigitsOf(key, depth, bits);
      var table, i := a, 1;
      assert ds[..0] == [];
      while i < depth
        invariant 1 <= i <= depth
        invariant table == Lookup(nodes, a, ds[..i - 1]) && table != 0
        invariant nodes == old(nodes)
      {
        SubTree(nodes, a, depth, Pow2(bits), ds[..i - 1], depth - (i - 1));
        NextDigit(nodes, a, ds, i - 1);
        var index := Digit(key, depth, bits, i - 1);
        if nodes[table][index] == 0 {
          PrefixNull(nodes, a, ds, i);
          return 0;
        }
        table := nodes[table][index];
        i := i + 1;
      }
      LastDigit(key, depth, bits);
      TakeMore(ds, depth - 1);
      SubTree(nodes, a, depth, Pow2(bits), ds[..depth - 1], 1);
      NodeInTree(nodes, a, depth, Pow2(bits), ds[..depth - 1], 1);
      ghost var before := nodes;
      var index := Low(key, bits);
      var held := nodes[table][index];
      nodes := nodes[table := SetSlot(nodes[table], index, 0)];
      SetUnder(before, nodes, a, depth, Pow2(bits), ds[..depth - 1], table, index, 0);
      r := held % 256;
    }

    /** What the eight bits do to a page address: it is removed, and reported as nothing
        removed. */
    method RemovePage(a: nat, key: nat, depth: nat, bits: nat) returns (r: nat)
      requires Tree(nodes, a, depth, Pow2(bits)) && (depth - 1) * bits < 64
      requires Lookup(nodes, a, DigitsOf(key, depth, bits)) != 0
      requires Lookup(nodes, a, DigitsOf(key, depth, bits)) % PAGE_SIZE == 0
      modifies this
      ensures r == 0 && Lookup(nodes, a, DigitsOf(key, depth, bits)) == 0
      ensures OneChanged(old(nodes), nodes, a, depth, DigitsOf(key, depth, bits), 0)
    {
      ghost var held := Lookup(nodes, a, DigitsOf(key, depth, bits));
      r := Remove(a, key, depth, bits);
      PageLowByte(held);
    }

    /** radix_create */
    method Create(bits: nat) returns (r: Outcome<nat>)
      modifies this
      ensures r.Halt? <==> Pow2(bits) * 8 >= PAGE_SIZE
      ensures r.Done? ==>
                && r.value != 0 && r.value !in old(nodes)
                && r.value in nodes && nodes == old(nodes)[r.value := nodes[r.value]]
                && ZeroRow(nodes[r.value], Pow2(bits))
    {
      r := NewNode(bits);
    }

    /** radix_iter: the values the function is called with, in order; they are the
        stored values, once per key and in ascending key order. */
    method Iter(a: nat, depth: nat, bits: nat) returns (calls: seq<nat>)
      requires Tree(nodes, a, depth, Pow2(bits))
      ensures InDigitOrder(nodes, a, depth, calls) && InKeyOrder(nodes, a, depth, bits, calls)
      decreases depth
    {
      var size := Pow2(bits);
      ghost var keys: seq<seq<nat>> := [];
      calls := [];
      var i := 0;
      if depth > 1 {
        while i < size
          invariant 0 <= i <= size
          invariant ListsBelow(nodes, a, depth, i, keys, calls)
        {
          var child := nodes[a][i];
          if child > 0 {
            assert SlotTree(nodes, child, depth, size);
            var more := Iter(child, depth - 1, bits);
            ghost var sub :| Lists(nodes, child, depth - 1, sub, more);
            ListsSlot(nodes, a, depth, size, i, keys, calls, sub, more);
            calls, keys := calls + more, keys + Prefixed(i, sub);
          } else {
            ListsEmptySlot(nodes, a, depth, size, i, keys, calls);
          }
          i := i + 1;
        }
      } else {
        while i < size
          invariant 0 <= i <= size
          invariant ListsBelow(nodes, a, depth, i, keys, calls)
        {
          var child := nodes[a][i];
          if child > 0 {
            ListsValue(nodes, a, size, i, keys, calls);
            calls, keys := calls + [child], keys + [[i]];
          } else {
            ListsEmptySlot(nodes, a, depth, size, i, keys, calls);
          }
          i := i + 1;
        }
      }
      ListsAll(nodes, a, depth, size, keys, calls);
      ListsNumbers(nodes, a, depth, bits, keys, calls);
    }

    /** radix_delete: the addresses passed to mem_free. Every node below the root
        is freed exactly once and, when asked, every stored value once per key. */
    method Delete(a: nat, removeLeaves: bool, depth: nat, bits: nat) returns (freed: seq<nat>)
      requires Tree(nodes, a, depth, Pow2(bits))
      ensures AllFreed(nodes, a, depth, removeLeaves, freed)
      decreases depth, 1
    {
      var size := Pow2(bits);
      ghost var keys: seq<seq<nat>>, values: seq<nat> := [], [];
      freed := [];
      var i := 0;
      if depth > 1 {
        while i < size
          invariant 0 <= i <= size
          invariant ListsBelow(nodes, a, depth, i, keys, values)
          invariant FreedBelow(nodes, a, depth, i, removeLeaves, freed, values)
        {
          freed, keys, values := DeleteSlot(a, i, removeLeaves, depth, bits, freed, keys, values);
          i := i + 1;
        }
        FreedAll(nodes, a, depth, size, removeLeaves, freed, values);
        ListsAll(nodes, a, depth, size, keys, values);
      } else {
        freed, keys, values := DeleteValues(a, removeLeaves, bits);
        LastLevelNodes(nodes, a, depth);
      }
      assert FreedListed(nodes, a, depth, removeLeaves, freed, keys, values);
    }

    /** One slot above the last level: the subtree, then its root. */
    method DeleteSlot(a: nat, i: nat, removeLeaves: bool, depth: nat, bits: nat, done: seq<nat>, ghost listed: seq<seq<nat>>, ghost held: seq<nat>) returns (freed: seq<nat>, ghost keys: seq<seq<nat>>, ghost values: seq<nat>)
      requires Tree(nodes, a, depth, Pow2(bits)) && depth > 1 && i < Pow2(bits)
      requires ListsBelow(nodes, a, depth, i, listed, held)
      requires FreedBelow(nodes, a, depth, i, removeLeaves, done, held)
      ensures ListsBelow(nodes, a, depth, i + 1, keys, values)
      ensures FreedBelow(nodes, a, depth, i + 1, removeLeaves, freed, values)
      decreases depth, 0
    {
      var child := nodes[a][i];
      freed, keys, values := done, listed, held;
      if child > 0 {
        assert SlotTree(nodes, child, depth, Pow2(bits));
        var more := Delete(child, removeLeaves, depth - 1, bits);
        ghost var sub, subValues :| FreedListed(nodes, child, depth - 1, removeLeaves, more, sub, subValues);
        DeletedSlot(nodes, a, depth, Pow2(bits), i, removeLeaves, done, listed, held, more, sub, subValues);
        freed := done + more + [child];
        keys, values := listed + Prefixed(i, sub), held + subValues;
      } else {
        ListsEmptySlot(nodes, a, depth, Pow2(bits), i, keys, values);
        FreedEmptySlot(nodes, a, depth, Pow2(bits), i, removeLeaves, freed, values);
      }
    }

    /** The last level of radix_delete. */
    method DeleteValues(a: nat, removeLeaves: bool, bits: nat) returns (freed: seq<nat>, ghost keys: seq<seq<nat>>, ghost values: seq<nat>)
      requires IsNode(nodes, a, Pow2(bits))
      ensures Lists(nodes, a, 1, keys, values)
      ensures freed == if removeLeaves then values else []
    {
      var size := Pow2(bits);
      freed, keys, values := [], [], [];
      var i := 0;
      while i < size
        invariant 0 <= i <= size
        invariant ListsBelow(nodes, a, 1, i, keys, values)
        invariant freed == if removeLeaves then values else []
      {
        var child := nodes[a][i];
        if child > 0 {
          ListsValue(nodes, a, size, i, keys, values);
          keys, values := keys + [[i]], values + [child];
          if removeLeaves {
            freed := freed + [child];
          }
        } else {
          ListsEmptySlot(nodes, a, 1, size, i, keys, values);
        }
        i := i + 1;
      }
      ListsAll(nodes, a, 1, size, keys, values);
    }

    /** One iteration of radix_insert's descent: the child at `index`, made if it
        is missing. */
    method Descend(ghost a: nat, table: nat, ghost path: seq<nat>, index: nat, ghost depth: nat, ghost low: nat, bits: nat) returns (r: Outcome<nat>)
      requires Tree(nodes, a, depth, Pow2(bits)) && depth == low + |path| && low > 1
      requires table == Lookup(nodes, a, path) && table != 0 && index < Pow2(bits)
      modifies this
      ensures r.Halt? ==> Pow2(bits) * 8 >= PAGE_SIZE
      ensures r.Done? ==>
                && Tree(nodes, a, depth, Pow2(bits))
                && r.value == Lookup(nodes, a, path + [index]) && r.value != 0
                && SameLookups(old(nodes), nodes, a, depth)
                && Grown(old(nodes), nodes, a, depth)
    {
      ghost var m := nodes;
      SubTree(m, a, depth, Pow2(bits), path, low);
      if nodes[table][index] == 0 {
        var made := NewNode(bits);
        if made.Halt? {
          return Halt;
        }
        var b := made.value;
        ghost var row := nodes[b];
        nodes := nodes[table := SetSlot(nodes[table], index, b)];
        AllocUnder(m, nodes, a, depth, Pow2(bits), path, table, low, index, b, row);
      }
      LookupSplit(nodes, a, path, path + [index]);
      assert (path + [index])[|path|..] == [index] && [index][1..] == [];
      r := Done(nodes[table][index]);
    }
  }

  lemma PageLowByte(held: nat)
    requires held % PAGE_SIZE == 0
    ensures held % 256 == 0
  {
    assert held == 256 * (held / PAGE_SIZE * 16);
  }

  lemma NextDigit(m: Nodes, a: nat, ds: seq<nat>, i: nat)
    requires i < |ds|
    ensures var c := Lookup(m, a, ds[..i]);
            c != 0 && c in m && ds[i] < |m[c]| ==> Lookup(m, a, ds[..i + 1]) == m[c][ds[i]]
  {
    LookupSplit(m, a, ds[..i], ds[..i + 1]);
    assert ds[..i + 1][i..] == [ds[i]];
    assert [ds[i]][1..] == [];
  }

  /** Once a path led nowhere, nothing longer leads anywhere. */
  lemma PrefixNull(m: Nodes, a: nat, ds: seq<nat>, i: nat)
    requires i <= |ds| && Lookup(m, a, ds[..i]) == 0
    ensures Lookup(m, a, ds) == 0
  {
    LookupSplit(m, a, ds[..i], ds);
    LookupNull(m, ds[i..]);
  }
}
