/**
 The meaning of a radix tree of memory/radix.c: nodes are rows of slots, a slot
 holds 0 or an address, and a key is a sequence of digits, most significant
 first. The last digit selects a value, the others a child node.
 */
module RadixTree {
  import opened Sets

  type Nodes = map<nat, seq<nat>>

  /** What following the digits from the node at `a` leads to; 0 for nothing. */
  ghost function Lookup(m: Nodes, a: nat, digits: seq<nat>): nat
    decreases |digits|
  {
    if digits == [] then a
    else if a == 0 || a !in m || digits[0] >= |m[a]| then 0
    else Lookup(m, m[a][digits[0]], digits[1..])
  }

  /** Nodes of the tree at `a`, which has `depth` levels. */
  ghost function NodesOf(m: Nodes, a: nat, depth: nat): set<nat>
    decreases depth, 1
  {
    {a} + if a !in m then {} else set i, p | 0 <= i < |m[a]| && p in Below(m, m[a][i], depth) :: p
  }

  /** Nodes below a slot of a node with `depth` levels. */
  ghost function Below(m: Nodes, slot: nat, depth: nat): set<nat>
    decreases depth, 0
  {
    if depth <= 1 || slot == 0 then {} else NodesOf(m, slot, depth - 1)
  }

  /** `a` is the root of an unshared tree with `depth` levels of `size` slots. */
  ghost predicate Tree(m: Nodes, a: nat, depth: nat, size: nat)
    decreases depth, 1
  {
    && depth > 0 && a != 0 && a in m && |m[a]| == size
    && (forall i :: 0 <= i < size ==> SlotTree(m, m[a][i], depth, size) && a !in Below(m, m[a][i], depth))
    && (forall i, j :: 0 <= i < j < size ==> Below(m, m[a][i], depth) !! Below(m, m[a][j], depth))
  }

  ghost predicate SlotTree(m: Nodes, slot: nat, depth: nat, size: nat)
    decreases depth, 0
  {
    depth <= 1 || slot == 0 || Tree(m, slot, depth - 1, size)
  }

  function SetSlot(row: seq<nat>, i: nat, v: nat): seq<nat>
    requires i < |row|
  {
    row[i := v]
  }

  // ---- what a change of memory does to a tree ----

  /** A tree is the same in every memory that agrees on its nodes. */
  lemma {:induction false} Frame(m: Nodes, n: Nodes, a: nat, depth: nat, size: nat)
    requires Tree(m, a, depth, size)
    requires forall p :: p in NodesOf(m, a, depth) ==> p in m && p in n && n[p] == m[p]
    ensures Tree(n, a, depth, size)
    ensures NodesOf(n, a, depth) == NodesOf(m, a, depth)
    ensures forall es :: |es| <= depth ==> Lookup(n, a, es) == Lookup(m, a, es)
    decreases depth, 1
  {
    assert n[a] == m[a];
    forall i | 0 <= i < size
      ensures SlotTree(n, m[a][i], depth, size)
      ensures Below(n, m[a][i], depth) == Below(m, m[a][i], depth)
      ensures forall es :: |es| < depth ==> Lookup(n, m[a][i], es) == Lookup(m, m[a][i], es)
    {
      assert Below(m, m[a][i], depth) <= NodesOf(m, a, depth);
      SlotFrame(m, n, m[a][i], depth, size);
    }
  }

  lemma {:induction false} SlotFrame(m: Nodes, n: Nodes, slot: nat, depth: nat, size: nat)
    requires SlotTree(m, slot, depth, size)
    requires forall p :: p in Below(m, slot, depth) ==> p in m && p in n && n[p] == m[p]
    ensures SlotTree(n, slot, depth, size)
    ensures Below(n, slot, depth) == Below(m, slot, depth)
    ensures forall es :: |es| < depth ==> Lookup(n, slot, es) == Lookup(m, slot, es)
    decreases depth, 0
  {
    if depth > 1 && slot != 0 {
      Frame(m, n, slot, depth - 1, size);
    }
  }

  /** Every node of a tree is present in memory and full width. */
  lemma {:induction false} NodesInMem(m: Nodes, a: nat, depth: nat, size: nat)
    requires Tree(m, a, depth, size)
    ensures forall p :: p in NodesOf(m, a, depth) ==> p in m && |m[p]| == size && p != 0
    decreases depth
  {
    forall p | p in NodesOf(m, a, depth)
      ensures p in m && |m[p]| == size && p != 0
    {
      if p != a {
        var i :| 0 <= i < size && p in Below(m, m[a][i], depth);
        assert SlotTree(m, m[a][i], depth, size);
        NodesInMem(m, m[a][i], depth - 1, size);
      }
    }
  }

  /** `n` differs from `m` in slot `i` of `a` and in what lies below it. */
  ghost predicate Grafted(m: Nodes, n: Nodes, a: nat, depth: nat, size: nat, i: nat, v: nat) {
    && Tree(m, a, depth, size) && i < size
    && a in n && n[a] == m[a][i := v]
    && (forall p :: p in NodesOf(m, a, depth) && p != a && p !in Below(m, m[a][i], depth)
          ==> p in m && p in n && n[p] == m[p])
    && SlotTree(n, v, depth, size) && a !in Below(n, v, depth)
    && (forall p :: p in Below(n, v, depth) && p in NodesOf(m, a, depth) ==> p in Below(m, m[a][i], depth))
  }

  lemma GraftSibling(m: Nodes, n: Nodes, a: nat, depth: nat, size: nat, i: nat, v: nat, j: nat)
    requires Grafted(m, n, a, depth, size, i, v) && j < size && j != i
    ensures SlotTree(n, m[a][j], depth, size)
    ensures Below(n, m[a][j], depth) == Below(m, m[a][j], depth)
    ensures forall es :: |es| < depth ==> Lookup(n, m[a][j], es) == Lookup(m, m[a][j], es)
    ensures Below(m, m[a][j], depth) <= NodesOf(m, a, depth)
    ensures Below(m, m[a][j], depth) !! Below(m, m[a][i], depth)
    ensures Below(m, m[a][j], depth) !! Below(n, v, depth)
    ensures a !in Below(m, m[a][j], depth)
  {
    assert Below(m, m[a][j], depth) <= NodesOf(m, a, depth);
    assert Below(m, m[a][j], depth) !! Below(m, m[a][i], depth) by {
      if j < i {
      } else {
      }
    }
    SlotFrame(m, n, m[a][j], depth, size);
  }

  lemma GraftTree(m: Nodes, n: Nodes, a: nat, depth: nat, size: nat, i: nat, v: nat)
    requires Grafted(m, n, a, depth, size, i, v)
    ensures Tree(n, a, depth, size)
  {
    forall j | 0 <= j < size
      ensures SlotTree(n, n[a][j], depth, size) && a !in Below(n, n[a][j], depth)
    {
      if j != i {
        GraftSibling(m, n, a, depth, size, i, v, j);
      }
    }
    forall j, k | 0 <= j < k < size
      ensures Below(n, n[a][j], depth) !! Below(n, n[a][k], depth)
    {
      if j != i {
        GraftSibling(m, n, a, depth, size, i, v, j);
      }
      if k != i {
        GraftSibling(m, n, a, depth, size, i, v, k);
      }
    }
  }

  lemma GraftNode(m: Nodes, n: Nodes, a: nat, depth: nat, size: nat, i: nat, v: nat, p: nat)
    requires Grafted(m, n, a, depth, size, i, v) && p != a
    ensures p in NodesOf(n, a, depth)
       <==> p in Below(n, v, depth) || (p in NodesOf(m, a, depth) && p !in Below(m, m[a][i], depth))
  {
    if p in NodesOf(n, a, depth) {
      var j :| 0 <= j < size && p in Below(n, n[a][j], depth);
      if j != i {
        GraftSibling(m, n, a, depth, size, i, v, j);
      }
    }
    if p in NodesOf(m, a, depth) && p !in Below(m, m[a][i], depth) {
      var j :| 0 <= j < size && p in Below(m, m[a][j], depth);
      GraftSibling(m, n, a, depth, size, i, v, j);
      assert p in Below(n, n[a][j], depth);
    }
    if p in Below(n, v, depth) {
      assert p in Below(n, n[a][i], depth);
    }
  }

  /** Replacing one slot, together with what lies below it, keeps the tree,
      exchanges exactly the nodes below, and changes the lookup of exactly the
      keys that start with that slot's digit. */
  lemma Graft(m: Nodes, n: Nodes, a: nat, depth: nat, size: nat, i: nat, v: nat)
    requires Grafted(m, n, a, depth, size, i, v)
    ensures Tree(n, a, depth, size)
    ensures NodesOf(n, a, depth) == NodesOf(m, a, depth) - Below(m, m[a][i], depth) + Below(n, v, depth)
    ensures forall es :: 0 < |es| <= depth && es[0] == i ==> Lookup(n, a, es) == Lookup(n, v, es[1..])
    ensures forall es :: |es| <= depth && !(es != [] && es[0] == i) ==> Lookup(n, a, es) == Lookup(m, a, es)
  {
    GraftTree(m, n, a, depth, size, i, v);
    var after := NodesOf(m, a, depth) - Below(m, m[a][i], depth) + Below(n, v, depth);
    assert a in after && a in NodesOf(n, a, depth);
    forall p
      ensures p in NodesOf(n, a, depth) <==> p in after
    {
      if p != a {
        GraftNode(m, n, a, depth, size, i, v, p);
      }
    }
    forall es | |es| <= depth
      ensures Lookup(n, a, es) == if es != [] && es[0] == i then Lookup(n, v, es[1..]) else Lookup(m, a, es)
    {
      if es != [] && es[0] != i && es[0] < size {
        GraftSibling(m, n, a, depth, size, i, v, es[0]);
      }
    }
  }

  // ---- a change at the end of a path ----

  /** The tree at the node `c`, reached from `a` by `path`, was rebuilt; nodes it
      took over were not part of `a`'s tree. */
  ghost predicate Rebuilt(m: Nodes, n: Nodes, a: nat, depth: nat, size: nat, path: seq<nat>, c: nat, low: nat) {
    && Tree(m, a, depth, size) && 0 < low && depth == low + |path|
    && Lookup(m, a, path) == c && c != 0
    && Tree(n, c, low, size)
    && (forall p :: p in NodesOf(m, a, depth) && p !in NodesOf(m, c, low)
          ==> p in m && p in n && n[p] == m[p])
    && (forall p :: p in NodesOf(n, c, low) && p in NodesOf(m, a, depth)
          ==> p in NodesOf(m, c, low))
  }

  /** A node on a path is the root of a part of the tree. */
  lemma {:induction false} SubTree(m: Nodes, a: nat, depth: nat, size: nat, path: seq<nat>, low: nat)
    requires Tree(m, a, depth, size) && 0 < low && depth == low + |path| && Lookup(m, a, path) != 0
    ensures Tree(m, Lookup(m, a, path), low, size)
    ensures NodesOf(m, Lookup(m, a, path), low) <= NodesOf(m, a, depth)
    ensures path != [] ==> a !in NodesOf(m, Lookup(m, a, path), low)
    decreases |path|
  {
    if path != [] {
      var c := m[a][path[0]];
      assert SlotTree(m, c, depth, size) && Below(m, c, depth) <= NodesOf(m, a, depth);
      LookupNull(m, path[1..]);
      SubTree(m, c, depth - 1, size, path[1..], low);
    }
  }

  lemma LookupNull(m: Nodes, digits: seq<nat>)
    ensures digits != [] ==> Lookup(m, 0, digits) == 0
    ensures Lookup(m, 0, digits) == 0
  {
  }

  /** The effect of a rebuilt part on lookups: keys that go through it are looked
      up in it, all others as before. */
  ghost predicate Rerouted(m: Nodes, n: Nodes, a: nat, depth: nat, path: seq<nat>, c: nat) {
    && (forall es :: |es| <= depth && path <= es ==> Lookup(n, a, es) == Lookup(n, c, es[|path|..]))
    && (forall es :: |es| <= depth && !(path <= es) ==> Lookup(n, a, es) == Lookup(m, a, es))
  }

  /** Seen from `a`, rebuilding the tree at the end of `path` keeps the tree,
      exchanges the nodes of that part, and reroutes exactly the keys that go
      through it. */
  lemma {:induction false} RebuildPath(m: Nodes, n: Nodes, a: nat, depth: nat, size: nat, path: seq<nat>, c: nat, low: nat)
    requires Rebuilt(m, n, a, depth, size, path, c, low)
    ensures Tree(n, a, depth, size)
    ensures NodesOf(m, c, low) <= NodesOf(m, a, depth)
    ensures NodesOf(n, a, depth)
         == NodesOf(m, a, depth) - NodesOf(m, c, low) + NodesOf(n, c, low)
    ensures Rerouted(m, n, a, depth, path, c)
    decreases |path|
  {
    if path == [] {
      SwapSame(NodesOf(m, a, depth), NodesOf(m, a, depth));
      RebuildSets(NodesOf(m, a, depth), NodesOf(m, a, depth), NodesOf(m, a, depth), NodesOf(n, a, depth));
      assert forall es: seq<nat> :: es[0..] == es;
    } else {
      var b := m[a][path[0]];
      RebuildChild(m, n, a, depth, size, path, c, low);
      RebuildPath(m, n, b, depth - 1, size, path[1..], c, low);
      RebuildStep(m, n, a, depth, size, path, c, low);
    }
  }

  /** One step down a path, the rebuilt part is still a rebuilt part. */
  lemma RebuildChild(m: Nodes, n: Nodes, a: nat, depth: nat, size: nat, path: seq<nat>, c: nat, low: nat)
    requires Rebuilt(m, n, a, depth, size, path, c, low) && path != []
    ensures path[0] < size && m[a][path[0]] != 0 && depth > 1
    ensures Rebuilt(m, n, m[a][path[0]], depth - 1, size, path[1..], c, low)
    ensures NodesOf(m, m[a][path[0]], depth - 1) <= NodesOf(m, a, depth)
    ensures a !in NodesOf(m, m[a][path[0]], depth - 1) && a !in NodesOf(n, c, low)
    ensures a in n && n[a] == m[a]
  {
    var b := m[a][path[0]];
    LookupNull(m, path[1..]);
    assert SlotTree(m, b, depth, size);
    assert Below(m, b, depth) == NodesOf(m, b, depth - 1) <= NodesOf(m, a, depth);
    SubTree(m, a, depth, size, path, low);
    assert a in NodesOf(m, a, depth);
  }

  /** One step up a path. */
  lemma RebuildStep(m: Nodes, n: Nodes, a: nat, depth: nat, size: nat, path: seq<nat>, c: nat, low: nat)
    requires Rebuilt(m, n, a, depth, size, path, c, low) && path != []
    requires path[0] < size && m[a][path[0]] != 0 && depth > 1
    requires Tree(n, m[a][path[0]], depth - 1, size)
    requires NodesOf(m, c, low) <= NodesOf(m, m[a][path[0]], depth - 1)
    requires NodesOf(n, m[a][path[0]], depth - 1)
          == NodesOf(m, m[a][path[0]], depth - 1) - NodesOf(m, c, low) + NodesOf(n, c, low)
    requires Rerouted(m, n, m[a][path[0]], depth - 1, path[1..], c)
    ensures Tree(n, a, depth, size)
    ensures NodesOf(m, c, low) <= NodesOf(m, a, depth)
    ensures NodesOf(n, a, depth)
         == NodesOf(m, a, depth) - NodesOf(m, c, low) + NodesOf(n, c, low)
    ensures Rerouted(m, n, a, depth, path, c)
  {
    var i := path[0];
    var b := m[a][i];
    RebuildChild(m, n, a, depth, size, path, c, low);
    SameSlot(m[a], i);
    assert Below(n, b, depth) == NodesOf(n, b, depth - 1) && Below(m, b, depth) == NodesOf(m, b, depth - 1);
    Graft(m, n, a, depth, size, i, b);
    RebuildSets(NodesOf(m, a, depth), NodesOf(m, b, depth - 1), NodesOf(m, c, low), NodesOf(n, c, low));
    RerouteStep(m, n, a, depth, i, path[1..], c);
    HeadTail(path);
  }

  lemma SameSlot(row: seq<nat>, i: nat)
    requires i < |row|
    ensures row[i := row[i]] == row
  {
  }

  lemma HeadTail(path: seq<nat>)
    requires path != []
    ensures [path[0]] + path[1..] == path
  {
  }

  lemma RerouteStep(m: Nodes, n: Nodes, a: nat, depth: nat, i: nat, rest: seq<nat>, c: nat)
    requires a != 0 && a in m && i < |m[a]| && depth > 0
    requires Rerouted(m, n, m[a][i], depth - 1, rest, c)
    requires forall es :: 0 < |es| <= depth && es[0] == i ==> Lookup(n, a, es) == Lookup(n, m[a][i], es[1..])
    requires forall es :: |es| <= depth && !(es != [] && es[0] == i) ==> Lookup(n, a, es) == Lookup(m, a, es)
    ensures Rerouted(m, n, a, depth, [i] + rest, c)
  {
    forall es | |es| <= depth && es != [] && es[0] == i
      ensures [i] + rest <= es ==> Lookup(n, a, es) == Lookup(n, c, es[|[i] + rest|..])
      ensures !([i] + rest <= es) ==> Lookup(n, a, es) == Lookup(m, a, es)
    {
      assert es == [i] + es[1..];
      if rest <= es[1..] {
        assert es[1..][|rest|..] == es[|[i] + rest|..];
      }
    }
  }

  lemma RebuildSets(whole: set<nat>, part: set<nat>, before: set<nat>, after: set<nat>)
    requires before <= part <= whole
    ensures whole - part + (part - before + after) == whole - before + after
    ensures whole - whole + after == after
  {
  }

  // ---- the two edits of radix_insert ----

  /** `n` looks up every full key as `m` does, and every shorter one that led
      somewhere. */
  ghost predicate SameLookups(m: Nodes, n: Nodes, a: nat, depth: nat) {
    && (forall es :: |es| == depth ==> Lookup(n, a, es) == Lookup(m, a, es))
    && (forall es :: |es| < depth && Lookup(m, a, es) != 0 ==> Lookup(n, a, es) == Lookup(m, a, es))
  }

  /** `n` looks up `key` to `v` and everything else as `m` does. */
  ghost predicate OneChanged(m: Nodes, n: Nodes, a: nat, depth: nat, key: seq<nat>, v: nat) {
    && (forall es :: |es| == depth && es != key ==> Lookup(n, a, es) == Lookup(m, a, es))
    && Lookup(n, a, key) == v
    && (forall es :: |es| < depth && Lookup(m, a, es) != 0 ==> Lookup(n, a, es) == Lookup(m, a, es))
  }

  ghost predicate ZeroRow(row: seq<nat>, size: nat) {
    |row| == size && forall k :: 0 <= k < size ==> row[k] == 0
  }

  /** Hanging an empty node into an empty slot. */
  lemma AllocAt(m: Nodes, n: Nodes, a: nat, depth: nat, size: nat, i: nat, b: nat, row: seq<nat>)
    requires Tree(m, a, depth, size) && depth > 1 && i < size && m[a][i] == 0
    requires b != 0 && b !in NodesOf(m, a, depth) && ZeroRow(row, size)
    requires n == m[b := row][a := SetSlot(m[a], i, b)]
    ensures Tree(n, a, depth, size)
    ensures NodesOf(n, a, depth) == NodesOf(m, a, depth) + {b}
    ensures SameLookups(m, n, a, depth)
    ensures Lookup(n, a, [i]) == b
  {
    assert a in NodesOf(m, a, depth);
    EmptyNode(n, b, depth - 1, size);
    NodesInMem(m, a, depth, size);
    assert Below(m, m[a][i], depth) == {} && Below(n, b, depth) == {b};
    Graft(m, n, a, depth, size, i, b);
    SwapAdd(NodesOf(m, a, depth), b);
    forall es | 0 < |es| <= depth && es[0] == i
      ensures |es| == depth ==> Lookup(n, a, es) == Lookup(m, a, es)
      ensures Lookup(m, a, es) != 0 ==> Lookup(n, a, es) == Lookup(m, a, es)
    {
      LookupNull(m, es[1..]);
    }
    assert [i][1..] == [];
  }

  lemma SwapAdd(s: set<nat>, b: nat)
    ensures s - {} + {b} == s + {b}
  {
  }

  lemma EmptyNode(m: Nodes, b: nat, depth: nat, size: nat)
    requires depth > 0 && b != 0 && b in m && ZeroRow(m[b], size)
    ensures Tree(m, b, depth, size) && NodesOf(m, b, depth) == {b}
    ensures forall es :: 0 < |es| <= depth ==> Lookup(m, b, es) == 0
  {
    forall es | 0 < |es| <= depth
      ensures Lookup(m, b, es) == 0
    {
      LookupNull(m, es[1..]);
    }
  }

  /** Writing a value slot. */
  lemma SetAt(m: Nodes, n: Nodes, a: nat, depth: nat, size: nat, i: nat, v: nat)
    requires Tree(m, a, depth, size) && depth == 1 && i < size
    requires n == m[a := SetSlot(m[a], i, v)]
    ensures Tree(n, a, depth, size)
    ensures NodesOf(n, a, depth) == NodesOf(m, a, depth)
    ensures OneChanged(m, n, a, depth, [i], v)
  {
    NodesInMem(m, a, depth, size);
    assert Below(m, m[a][i], depth) == {} && Below(n, v, depth) == {};
    Graft(m, n, a, depth, size, i, v);
    SwapSame(NodesOf(m, a, depth), {});
    assert [i][1..] == [];
    forall es | |es| == depth && es != [i]
      ensures Lookup(n, a, es) == Lookup(m, a, es)
    {
      assert es == [es[0]];
    }
  }

  // ---- the same edits at the end of a path ----

  /** Nodes outside a set are the same in both memories. */
  ghost predicate OutsideKept(m: Nodes, n: Nodes, inside: set<nat>) {
    forall p :: p in m && p !in inside ==> p in n && n[p] == m[p]
  }

  lemma AllocUnder(m: Nodes, n: Nodes, root: nat, depth: nat, size: nat, path: seq<nat>, a: nat, low: nat, i: nat, b: nat, row: seq<nat>)
    requires Tree(m, root, depth, size) && low > 1 && depth == low + |path|
    requires Lookup(m, root, path) == a && a != 0 && a in m && i < |m[a]| && m[a][i] == 0
    requires b != 0 && b !in m && ZeroRow(row, size)
    requires n == m[b := row][a := SetSlot(m[a], i, b)]
    ensures Tree(n, root, depth, size)
    ensures NodesOf(n, root, depth) == NodesOf(m, root, depth) + {b}
    ensures SameLookups(m, n, root, depth)
    ensures Lookup(n, root, path + [i]) == b
  {
    SubTree(m, root, depth, size, path, low);
    NodesInMem(m, root, depth, size);
    AllocAt(m, n, a, low, size, i, b, row);
    assert a in NodesOf(m, a, low);
    RebuildPath(m, n, root, depth, size, path, a, low);
    SwapGrown(NodesOf(m, root, depth), NodesOf(m, a, low), {b});
    SameLookupsUnder(m, n, root, depth, path, a, low);
    ReroutedStep(m, n, root, depth, path, a, i);
  }

  lemma ReroutedStep(m: Nodes, n: Nodes, root: nat, depth: nat, path: seq<nat>, a: nat, i: nat)
    requires Rerouted(m, n, root, depth, path, a) && |path| < depth
    ensures Lookup(n, root, path + [i]) == Lookup(n, a, [i])
  {
    assert path <= path + [i];
    assert (path + [i])[|path|..] == [i];
  }

  lemma SameLookupsUnder(m: Nodes, n: Nodes, root: nat, depth: nat, path: seq<nat>, a: nat, low: nat)
    requires depth == low + |path| && Lookup(m, root, path) == a
    requires Rerouted(m, n, root, depth, path, a) && SameLookups(m, n, a, low)
    ensures SameLookups(m, n, root, depth)
  {
    forall es | |es| <= depth && path <= es
      ensures Lookup(m, root, es) == Lookup(m, a, es[|path|..])
    {
      LookupSplit(m, root, path, es);
    }
  }

  /** Looking up a key in two steps. */
  lemma {:induction false} LookupSplit(m: Nodes, a: nat, path: seq<nat>, es: seq<nat>)
    requires path <= es
    ensures Lookup(m, a, es) == Lookup(m, Lookup(m, a, path), es[|path|..])
    decreases |path|
  {
    if path == [] {
      assert es[0..] == es;
    } else if a == 0 || a !in m || es[0] >= |m[a]| {
      LookupNull(m, es[|path|..]);
    } else {
      LookupSplit(m, m[a][es[0]], path[1..], es[1..]);
      assert es[1..][|path[1..]|..] == es[|path|..];
    }
  }

  lemma SetUnder(m: Nodes, n: Nodes, root: nat, depth: nat, size: nat, path: seq<nat>, a: nat, i: nat, v: nat)
    requires Tree(m, root, depth, size) && depth == 1 + |path|
    requires Lookup(m, root, path) == a && a != 0 && a in m && i < size == |m[a]|
    requires n == m[a := SetSlot(m[a], i, v)]
    ensures Tree(n, root, depth, size)
    ensures NodesOf(n, root, depth) == NodesOf(m, root, depth)
    ensures OneChanged(m, n, root, depth, path + [i], v)
    ensures m[a][i] == Lookup(m, root, path + [i])
  {
    SubTree(m, root, depth, size, path, 1);
    NodesInMem(m, root, depth, size);
    SetAt(m, n, a, 1, size, i, v);
    assert a in NodesOf(m, a, 1);
    RebuildPath(m, n, root, depth, size, path, a, 1);
    SwapSame(NodesOf(m, root, depth), NodesOf(m, a, 1));
    OneChangedUnder(m, n, root, depth, path, a, i, v);
  }

  lemma OneChangedUnder(m: Nodes, n: Nodes, root: nat, depth: nat, path: seq<nat>, a: nat, i: nat, v: nat)
    requires depth == 1 + |path| && Lookup(m, root, path) == a
    requires Rerouted(m, n, root, depth, path, a) && OneChanged(m, n, a, 1, [i], v)
    requires a != 0 && a in m && i < |m[a]|
    ensures OneChanged(m, n, root, depth, path + [i], v)
    ensures m[a][i] == Lookup(m, root, path + [i])
  {
    LookupSplit(m, root, path, path + [i]);
    assert (path + [i])[|path|..] == [i] && [i][1..] == [];
    forall es | |es| <= depth && path <= es
      ensures Lookup(m, root, es) == Lookup(m, a, es[|path|..])
      ensures |es| == depth && es != path + [i] ==> es[|path|..] != [i]
    {
      LookupSplit(m, root, path, es);
      assert es == path + es[|path|..];
    }
  }
}
