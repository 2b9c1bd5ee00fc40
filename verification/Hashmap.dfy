/**
 The chained hash map of memory/hashmap.c: a new leaf goes to the front of its
 bucket's chain, and a lookup walks the chain.
 */
module Hashmap {
  import opened Machine
  import opened Sets

  const FNV_PRIME := 0x100_0000_01b3
  const WORD_SEED := 0x3E4C_3161_C5E6_354A

  // ---- keys ----

  datatype Type = Str | Number

  /** x ^ y */
  function Xor(x: nat, y: nat): nat
    decreases x + y
  {
    if x == 0 && y == 0 then 0
    else (if x % 2 != y % 2 then 1 else 0) + 2 * Xor(x / 2, y / 2)
  }

  /** There is a terminator at or after `a`. */
  predicate Terminated(mem: seq<nat>, a: nat)
    decreases |mem| - a
  {
    a < |mem| && (mem[a] == 0 || Terminated(mem, a + 1))
  }

  /** The C string at an address. */
  function StringAt(mem: seq<nat>, a: nat): (s: seq<nat>)
    requires Terminated(mem, a)
    ensures a + |s| < |mem| && mem[a + |s|] == 0 && 0 !in s
    ensures forall i :: 0 <= i < |s| ==> s[i] == mem[a + i]
    decreases |mem| - a
  {
    if mem[a] == 0 then [] else [mem[a]] + StringAt(mem, a + 1)
  }

  /** A string's bytes end at its first zero. */
  lemma StringEnds(mem: seq<nat>, a: nat, i: nat)
    requires Terminated(mem, a) && i <= |StringAt(mem, a)|
    ensures mem[a + i] == 0 <==> i == |StringAt(mem, a)|
  {
    var s := StringAt(mem, a);
    if i < |s| {
      assert s[i] in s;
    }
  }

  /** The hash of a string from a partial hash on. */
  function HashFrom(hash: nat, s: seq<nat>): nat
    decreases |s|
  {
    if s == [] then hash else HashFrom(Xor(hash, s[0]) * FNV_PRIME % TWO_TO_64, s[1..])
  }

  predicate KeyOk(t: Type, mem: seq<nat>, key: nat) {
    t.Str? ==> Terminated(mem, key)
  }

  /** What the equality functions mean: equal numbers, or equal contents. */
  predicate Same(t: Type, mem: seq<nat>, a: nat, b: nat)
    requires KeyOk(t, mem, a) && KeyOk(t, mem, b)
  {
    match t
    case Number => a == b
    case Str => StringAt(mem, a) == StringAt(mem, b)
  }

  function HashOf(t: Type, mem: seq<nat>, key: nat): nat
    requires KeyOk(t, mem, key)
  {
    match t
    case Number => key * FNV_PRIME % TWO_TO_64
    case Str => HashFrom(WORD_SEED, StringAt(mem, key))
  }

  function Index(t: Type, mem: seq<nat>, len: nat, key: nat): (i: nat)
    requires len > 0 && KeyOk(t, mem, key)
    ensures i < len
  {
    HashOf(t, mem, key) % len
  }

  /** builtin_word_hash depends on the contents of the string only. */
  method WordHash(mem: seq<nat>, key: nat) returns (hash: nat)
    requires Terminated(mem, key)
    ensures hash == HashFrom(WORD_SEED, StringAt(mem, key))
  {
    ghost var s := StringAt(mem, key);
    hash := WORD_SEED;
    var i := 0;
    while mem[key + i] != 0
      invariant i <= |s| && HashFrom(hash, s[i..]) == HashFrom(WORD_SEED, s)
      decreases |s| - i
    {
      assert s[i..][0] == mem[key + i] && s[i..][1..] == s[i + 1..];
      hash := Xor(hash, mem[key + i]) * FNV_PRIME % TWO_TO_64;
      i := i + 1;
    }
    StringEnds(mem, key, i);
    assert s[i..] == [];
  }

  /** builtin_word_equal compares contents, and reads neither string past its
      terminator. */
  method WordEqual(mem: seq<nat>, first: nat, second: nat) returns (same: bool)
    requires Terminated(mem, first) && Terminated(mem, second)
    ensures same <==> StringAt(mem, first) == StringAt(mem, second)
  {
    ghost var s, t := StringAt(mem, first), StringAt(mem, second);
    var i := 0;
    while mem[first + i] != 0
      invariant i <= |s| && i <= |t| && forall k :: 0 <= k < i ==> s[k] == t[k]
      decreases |s| - i
    {
      StringEnds(mem, first, i);
      StringEnds(mem, second, i);
      assert s[i] == mem[first + i];
      if mem[first + i] != mem[second + i] {
        return false;
      }
      i := i + 1;
    }
    StringEnds(mem, first, i);
    StringEnds(mem, second, i);
    same := mem[first + i] == mem[second + i];
  }

  // ---- what a map means ----

  datatype Entry = Entry(key: nat, data: nat)

  /** Insertions, newest first. */
  type Log = seq<Entry>

  ghost predicate LogOk(t: Type, mem: seq<nat>, log: Log) {
    forall i :: 0 <= i < |log| ==> KeyOk(t, mem, log[i].key)
  }

  /** The data of the newest entry with an equal key, or 0. */
  ghost function Find(t: Type, mem: seq<nat>, log: Log, key: nat): nat
    requires LogOk(t, mem, log) && KeyOk(t, mem, key)
  {
    if log == [] then 0
    else if Same(t, mem, log[0].key, key) then log[0].data
    else Find(t, mem, log[1..], key)
  }

  /** The entries of one bucket. */
  ghost function Bucket(t: Type, mem: seq<nat>, len: nat, log: Log, b: nat): (out: Log)
    requires len > 0 && LogOk(t, mem, log)
    ensures LogOk(t, mem, out)
  {
    if log == [] then []
    else
      var rest := Bucket(t, mem, len, log[1..], b);
      if Index(t, mem, len, log[0].key) == b then [log[0]] + rest else rest
  }

  /** Equal keys are in the same bucket; so looking in the key's bucket finds what
      looking at all insertions would. */
  lemma {:induction false} BucketFinds(t: Type, mem: seq<nat>, len: nat, log: Log, key: nat)
    requires len > 0 && LogOk(t, mem, log) && KeyOk(t, mem, key)
    ensures Find(t, mem, Bucket(t, mem, len, log, Index(t, mem, len, key)), key) == Find(t, mem, log, key)
  {
    if log != [] {
      BucketFinds(t, mem, len, log[1..], key);
      var b := Index(t, mem, len, key);
      var rest := Bucket(t, mem, len, log[1..], b);
      if Index(t, mem, len, log[0].key) == b {
        assert ([log[0]] + rest)[1..] == rest;
      }
    }
  }

  lemma BucketGrows(t: Type, mem: seq<nat>, len: nat, log: Log, e: Entry, b: nat)
    requires len > 0 && LogOk(t, mem, log) && KeyOk(t, mem, e.key)
    ensures LogOk(t, mem, [e] + log)
    ensures Bucket(t, mem, len, [e] + log, b)
         == if Index(t, mem, len, e.key) == b then [e] + Bucket(t, mem, len, log, b) else Bucket(t, mem, len, log, b)
  {
    assert ([e] + log)[1..] == log;
  }

  // ---- chains ----

  datatype Leaf = Leaf(next: nat, key: nat, data: nat)

  /** The leaves from `head` on hold these entries in order. */
  ghost predicate Chained(leaves: map<nat, Leaf>, head: nat, entries: Log)
    decreases |entries|
  {
    if entries == [] then head == 0
    else
      && head != 0 && head in leaves
      && leaves[head].key == entries[0].key && leaves[head].data == entries[0].data
      && Chained(leaves, leaves[head].next, entries[1..])
  }

  /** A new leaf disturbs no chain. */
  lemma {:induction false} ChainKept(leaves: map<nat, Leaf>, head: nat, entries: Log, a: nat, leaf: Leaf)
    requires Chained(leaves, head, entries) && a !in leaves
    ensures Chained(leaves[a := leaf], head, entries)
    decreases |entries|
  {
    if entries != [] {
      ChainKept(leaves, leaves[head].next, entries[1..], a, leaf);
    }
  }

  class Map {
    const kind: Type
    /** memory that string keys point into */
    const mem: seq<nat>
    var start: seq<nat>
    var leaves: map<nat, Leaf>
    ghost var log: Log

    ghost predicate Valid()
      reads this
    {
      && |start| > 0 && LogOk(kind, mem, log)
      && forall b :: 0 <= b < |start| ==> Chained(leaves, start[b], Bucket(kind, mem, |start|, log, b))
    }

    /** hashmap_create and the zeroed bucket array */
    constructor (kind: Type, mem: seq<nat>, len: nat)
      requires len > 0
      ensures Valid() && log == [] && this.kind == kind && this.mem == mem
    {
      this.kind, this.mem := kind, mem;
      start := seq(len, _ => 0);
      leaves := map[];
      log := [];
    }

    method Hash(key: nat) returns (hash: nat)
      requires KeyOk(kind, mem, key)
      ensures hash == HashOf(kind, mem, key)
    {
      match kind {
        case Number => hash := key * FNV_PRIME % TWO_TO_64;
        case Str => hash := WordHash(mem, key);
      }
    }

    method Equal(a: nat, b: nat) returns (same: bool)
      requires KeyOk(kind, mem, a) && KeyOk(kind, mem, b)
      ensures same <==> Same(kind, mem, a, b)
    {
      match kind {
        case Number => same := a == b;
        case Str => same := WordEqual(mem, a, b);
      }
    }

    /** hashmap_insert: the newest insertion, at the front of its chain; earlier ones
        with the same key stay behind it. Returns 0 always. */
    method Insert(key: nat, data: nat) returns (r: nat)
      requires Valid() && KeyOk(kind, mem, key)
      modifies this
      ensures Valid() && log == [Entry(key, data)] + old(log) && |start| == |old(start)|
      ensures r == 0
    {
      var hash := Hash(key);
      var index := hash % |start|;
      FreshAddress(leaves.Keys);
      var a: nat :| a != 0 && a !in leaves;
      var leaf := Leaf(start[index], key, data);
      ghost var e, n := Entry(key, data), |start|;
      forall b | 0 <= b < n
        ensures Chained(leaves[a := leaf], start[index := a][b], Bucket(kind, mem, n, [e] + log, b))
      {
        BucketGrows(kind, mem, n, log, e, b);
        ChainKept(leaves, start[b], Bucket(kind, mem, n, log, b), a, leaf);
        if b == index {
          assert ([e] + Bucket(kind, mem, n, log, b))[1..] == Bucket(kind, mem, n, log, b);
        }
      }
      BucketGrows(kind, mem, n, log, e, index);
      leaves := leaves[a := leaf];
      start := start[index := a];
      log := [e] + log;
      r := 0;
    }

    /** hashmap_get: the data of the most recent insertion with an equal key, or 0
        if there is none. */
    method Get(key: nat) returns (data: nat)
      requires Valid() && KeyOk(kind, mem, key)
      ensures data == Find(kind, mem, log, key)
    {
      var hash := Hash(key);
      var index := hash % |start|;
      BucketFinds(kind, mem, |start|, log, key);
      var leaf := start[index];
      ghost var left := Bucket(kind, mem, |start|, log, index);
      while leaf != 0
        invariant LogOk(kind, mem, left) && Chained(leaves, leaf, left)
        invariant Find(kind, mem, left, key) == Find(kind, mem, log, key)
        decreases |left|
      {
        var same := Equal(leaves[leaf].key, key);
        if same {
          return leaves[leaf].data;
        }
        leaf := leaves[leaf].next;
        left := left[1..];
      }
      return 0;
    }
  }

  // ---- process ids ----

  ghost predicate KeysBelow(log: Log, top: nat) {
    forall i :: 0 <= i < |log| ==> log[i].key < top
  }

  lemma {:induction false} NothingAbove(mem: seq<nat>, log: Log, key: nat)
    requires LogOk(Number, mem, log) && KeysBelow(log, key)
    ensures Find(Number, mem, log, key) == 0
  {
    if log != [] {
      assert log[0].key < key;
      NothingAbove(mem, log[1..], key);
    }
  }

  /** The search of new_blank_process: the first id from `upto` on that no process
      is registered under. */
  method ChoosePid(processes: Map, upto: nat, ghost top: nat) returns (pid: nat)
    requires processes.Valid() && processes.kind.Number? && KeysBelow(processes.log, top)
    ensures pid >= upto && Find(Number, processes.mem, processes.log, pid) == 0
    ensures forall p :: upto <= p < pid ==> Find(Number, processes.mem, processes.log, p) != 0
  {
    pid := upto;
    while true
      invariant upto <= pid && forall p :: upto <= p < pid ==> Find(Number, processes.mem, processes.log, p) != 0
      decreases top - pid
    {
      var found := processes.Get(pid);
      if found == 0 {
        return;
      }
      if pid >= top {
        NothingAbove(processes.mem, processes.log, pid);
      }
      pid := pid + 1;
    }
  }
}
