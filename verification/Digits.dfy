/**
 Shifts and masks of machine words, and the digits of a radix-tree key that
 memory/radix.c extracts with them.
 */
module Digits {

  function Pow2(n: nat): (p: nat)
    ensures p > 0
  {
    if n == 0 then 1 else 2 * Pow2(n - 1)
  }

  /** x >> n */
  function Shr(x: nat, n: nat): nat
    decreases n
  {
    if n == 0 then x else Shr(x / 2, n - 1)
  }

  /** x & ((1 << n) - 1) */
  function Low(x: nat, n: nat): (l: nat)
    ensures l < Pow2(n)
    decreases n
  {
    if n == 0 then 0 else x % 2 + 2 * Low(x / 2, n - 1)
  }

  lemma {:induction false} ShrAdd(x: nat, a: nat, b: nat)
    ensures Shr(x, a + b) == Shr(Shr(x, a), b)
    decreases a
  {
    if a > 0 {
      ShrAdd(x / 2, a - 1, b);
    }
  }

  /** A shift leaves nothing exactly when the word is that small. */
  lemma {:induction false} ShrZero(x: nat, n: nat)
    ensures Shr(x, n) == 0 <==> x < Pow2(n)
    decreases n
  {
    if n > 0 {
      ShrZero(x / 2, n - 1);
    }
  }

  lemma {:induction false} ShrOfZero(n: nat)
    ensures Shr(0, n) == 0 && Low(0, n) == 0
  {
    if n > 0 {
      ShrOfZero(n - 1);
    }
  }

  /** Order is decided by the high part, then by the low part. */
  lemma {:induction false} SplitOrder(x: nat, y: nat, n: nat)
    ensures x < y <==> Shr(x, n) < Shr(y, n) || (Shr(x, n) == Shr(y, n) && Low(x, n) < Low(y, n))
    ensures x == y <==> Shr(x, n) == Shr(y, n) && Low(x, n) == Low(y, n)
    decreases n
  {
    if n > 0 {
      SplitOrder(x / 2, y / 2, n - 1);
    }
  }

  lemma {:induction false} PowMonotone(a: nat, b: nat)
    requires a <= b
    ensures Pow2(a) <= Pow2(b)
    decreases b
  {
    if a < b {
      PowMonotone(a, b - 1);
    }
  }

  lemma Pow53()
    ensures Pow2(53) == 0x20_0000_0000_0000
  {
    PowStep(40);
    PowStep(27);
    PowStep(14);
    PowStep(1);
  }

  lemma PowStep(n: nat)
    ensures Pow2(n + 13) == 8192 * Pow2(n)
  {
    assert Pow2(n + 13) == 2 * Pow2(n + 12) && Pow2(n + 12) == 2 * Pow2(n + 11) && Pow2(n + 11) == 2 * Pow2(n + 10);
    assert Pow2(n + 10) == 2 * Pow2(n + 9) && Pow2(n + 9) == 2 * Pow2(n + 8) && Pow2(n + 8) == 2 * Pow2(n + 7);
    assert Pow2(n + 7) == 2 * Pow2(n + 6) && Pow2(n + 6) == 2 * Pow2(n + 5) && Pow2(n + 5) == 2 * Pow2(n + 4);
    assert Pow2(n + 4) == 2 * Pow2(n + 3) && Pow2(n + 3) == 2 * Pow2(n + 2) && Pow2(n + 2) == 2 * Pow2(n + 1);
    assert Pow2(n + 1) == 2 * Pow2(n);
  }

  /** 63 - clz(x): the position of the highest one. */
  function HighestOne(x: nat): (k: nat)
    requires x > 0
    ensures Pow2(k) <= x < Pow2(k + 1)
  {
    if x == 1 then 0 else 1 + HighestOne(x / 2)
  }

  /** No other position fits. */
  lemma HighestUnique(x: nat, k: nat)
    requires Pow2(k) <= x < Pow2(k + 1)
    ensures HighestOne(x) == k
  {
    var h := HighestOne(x);
    if h < k {
      PowMonotone(h + 1, k);
    } else if k < h {
      PowMonotone(k + 1, h);
    }
  }

  /** `(key >> ((depth - 1 - i) * bits)) & ((1 << bits) - 1)` */
  function Digit(key: nat, depth: nat, bits: nat, i: nat): nat
    requires i < depth
  {
    Low(Shr(key, (depth - 1 - i) * bits), bits)
  }

  /** All digits of a key, most significant first. */
  function DigitsOf(key: nat, depth: nat, bits: nat): (ds: seq<nat>)
    ensures |ds| == depth
    ensures forall i :: 0 <= i < depth ==> ds[i] == Digit(key, depth, bits, i) < Pow2(bits)
  {
    seq(depth, i requires 0 <= i < depth => Digit(key, depth, bits, i))
  }

  lemma LastDigit(key: nat, depth: nat, bits: nat)
    requires depth > 0
    ensures Digit(key, depth, bits, depth - 1) == Low(key, bits)
  {
    assert (depth - 1 - (depth - 1)) * bits == 0;
  }

  /** The digits without the last are the digits of the shifted key. */
  lemma DigitsSplit(key: nat, depth: nat, bits: nat)
    requires depth > 0
    ensures DigitsOf(key, depth, bits) == DigitsOf(Shr(key, bits), depth - 1, bits) + [Low(key, bits)]
  {
    LastDigit(key, depth, bits);
    var ds, es := DigitsOf(key, depth, bits), DigitsOf(Shr(key, bits), depth - 1, bits);
    forall i | 0 <= i < depth - 1
      ensures ds[i] == es[i]
    {
      DigitShift(key, depth, bits, i);
    }
    assert ds == es + [Low(key, bits)];
  }

  lemma DigitShift(key: nat, depth: nat, bits: nat, i: nat)
    requires i + 1 < depth
    ensures Digit(key, depth, bits, i) == Digit(Shr(key, bits), depth - 1, bits, i)
  {
    ShiftTwice(key, bits, depth - 2 - i);
  }

  lemma ShiftTwice(key: nat, bits: nat, k: nat)
    ensures Shr(key, (k + 1) * bits) == Shr(Shr(key, bits), k * bits)
  {
    MoreDigits(k, bits);
    ShrAdd(key, bits, k * bits);
  }

  lemma MoreDigits(k: nat, bits: nat)
    ensures (k + 1) * bits == bits + k * bits
  {
  }

  lemma ShiftedSmall(key: nat, depth: nat, bits: nat)
    requires depth > 0 && key < Pow2(depth * bits)
    ensures Shr(key, bits) < Pow2((depth - 1) * bits)
  {
    MoreDigits(depth - 1, bits);
    ShrAdd(key, bits, (depth - 1) * bits);
    ShrZero(key, depth * bits);
    ShrZero(Shr(key, bits), (depth - 1) * bits);
  }

  /** Keys in range are told apart by their digits. */
  lemma {:induction false} DigitsInjective(x: nat, y: nat, depth: nat, bits: nat)
    requires x < Pow2(depth * bits) && y < Pow2(depth * bits)
    requires DigitsOf(x, depth, bits) == DigitsOf(y, depth, bits)
    ensures x == y
    decreases depth
  {
    if depth == 0 {
      assert depth * bits == 0;
    } else {
      DigitsSplit(x, depth, bits);
      DigitsSplit(y, depth, bits);
      ShiftedSmall(x, depth, bits);
      ShiftedSmall(y, depth, bits);
      SameEnds(DigitsOf(Shr(x, bits), depth - 1, bits), DigitsOf(Shr(y, bits), depth - 1, bits), Low(x, bits), Low(y, bits));
      DigitsInjective(Shr(x, bits), Shr(y, bits), depth - 1, bits);
      SplitOrder(x, y, bits);
    }
  }

  lemma SameEnds(p: seq<nat>, q: seq<nat>, x: nat, y: nat)
    requires |p| == |q| && p + [x] == q + [y]
    ensures p == q && x == y
  {
    assert (p + [x])[..|p|] == p && (q + [y])[..|p|] == q;
    assert (p + [x])[|p|] == x && (q + [y])[|p|] == y;
  }

  /** A key that needs fewer digits starts with a zero. */
  lemma DigitsPad(key: nat, depth: nat, bits: nat)
    requires key < Pow2(depth * bits)
    ensures DigitsOf(key, depth + 1, bits) == [0] + DigitsOf(key, depth, bits)
  {
    ShrZero(key, depth * bits);
    ShrOfZero(bits);
    forall i | 0 < i < depth + 1
      ensures DigitsOf(key, depth + 1, bits)[i] == ([0] + DigitsOf(key, depth, bits))[i]
    {
      assert depth + 1 - 1 - i == depth - 1 - (i - 1);
    }
  }

  /** Digit sequences in the order of keys: the first difference decides. */
  ghost predicate Before(ds: seq<nat>, es: seq<nat>) {
    exists k :: 0 <= k < |ds| && k < |es| && ds[..k] == es[..k] && ds[k] < es[k]
  }

  lemma BeforeEnd(p: seq<nat>, q: seq<nat>, x: nat, y: nat)
    requires |p| == |q| && (Before(p, q) || (p == q && x < y))
    ensures Before(p + [x], q + [y])
  {
    var ds, es := p + [x], q + [y];
    if p == q && x < y {
      assert ds[..|p|] == p && es[..|p|] == q && ds[|p|] < es[|p|];
    } else {
      var k :| 0 <= k < |p| && k < |q| && p[..k] == q[..k] && p[k] < q[k];
      assert ds[..k] == p[..k] && es[..k] == q[..k] && ds[k] < es[k];
    }
  }

  /** Numeric order is digit order. */
  lemma {:induction false} DigitsOrder(x: nat, y: nat, depth: nat, bits: nat)
    requires x < y < Pow2(depth * bits)
    ensures Before(DigitsOf(x, depth, bits), DigitsOf(y, depth, bits))
    decreases depth
  {
    if depth == 0 {
      assert false;
    } else {
      DigitsSplit(x, depth, bits);
      DigitsSplit(y, depth, bits);
      ShiftedSmall(y, depth, bits);
      SplitOrder(x, y, bits);
      if Shr(x, bits) < Shr(y, bits) {
        DigitsOrder(Shr(x, bits), Shr(y, bits), depth - 1, bits);
      }
      BeforeEnd(DigitsOf(Shr(x, bits), depth - 1, bits), DigitsOf(Shr(y, bits), depth - 1, bits), Low(x, bits), Low(y, bits));
    }
  }

  // ---- from digits back to keys ----

  /** The word with `high` above its lowest `n` bits, which are those of `low`. */
  function Join(high: nat, low: nat, n: nat): nat {
    if n == 0 then high else low % 2 + 2 * Join(high, low / 2, n - 1)
  }

  lemma {:induction false} JoinParts(high: nat, low: nat, n: nat)
    requires low < Pow2(n)
    ensures Shr(Join(high, low, n), n) == high && Low(Join(high, low, n), n) == low
    decreases n
  {
    if n > 0 {
      JoinParts(high, low / 2, n - 1);
      assert Join(high, low, n) / 2 == Join(high, low / 2, n - 1);
    }
  }

  /** The key with these digits. */
  function KeyOf(ds: seq<nat>, bits: nat): nat
    decreases |ds|
  {
    if ds == [] then 0 else Join(KeyOf(ds[..|ds| - 1], bits), ds[|ds| - 1], bits)
  }

  predicate AreDigits(ds: seq<nat>, bits: nat) {
    forall i :: 0 <= i < |ds| ==> ds[i] < Pow2(bits)
  }

  /** Every sequence of digits belongs to one key in range. */
  lemma {:induction false} KeyDigits(ds: seq<nat>, bits: nat)
    requires AreDigits(ds, bits)
    ensures KeyOf(ds, bits) < Pow2(|ds| * bits) && DigitsOf(KeyOf(ds, bits), |ds|, bits) == ds
    decreases |ds|
  {
    var key := KeyOf(ds, bits);
    if ds == [] {
      assert |ds| * bits == 0;
      assert DigitsOf(key, 0, bits) == [];
    } else {
      var init, last := ds[..|ds| - 1], ds[|ds| - 1];
      KeyDigits(init, bits);
      JoinParts(KeyOf(init, bits), last, bits);
      DigitsSplit(key, |ds|, bits);
      assert init + [last] == ds;
      WiderKey(key, |ds|, bits);
    }
  }

  lemma OneMore(depth: nat, bits: nat) returns (rest: nat, total: nat)
    requires depth > 0
    ensures rest == (depth - 1) * bits && total == depth * bits && total == bits + rest
  {
    rest, total := (depth - 1) * bits, depth * bits;
  }

  lemma WiderKey(key: nat, depth: nat, bits: nat)
    requires depth > 0 && Shr(key, bits) < Pow2((depth - 1) * bits)
    ensures key < Pow2(depth * bits)
  {
    var rest, total := OneMore(depth, bits);
    WiderBy(key, bits, rest, total);
  }

  lemma WiderBy(key: nat, bits: nat, rest: nat, total: nat)
    requires Shr(key, bits) < Pow2(rest) && total == bits + rest
    ensures key < Pow2(total)
  {
    ShrAdd(key, bits, rest);
    ShrZero(Shr(key, bits), rest);
    ShrZero(key, total);
  }

  lemma PrefixAt(ds: seq<nat>, es: seq<nat>, j: nat, k: nat)
    requires k < j <= |ds| && j <= |es|
    ensures ds[..j] == es[..j] ==> ds[k] == es[k]
  {
    assert ds[..j][k] == ds[k] && es[..j][k] == es[k];
  }

  lemma BeforeOnce(ds: seq<nat>, es: seq<nat>)
    requires Before(ds, es)
    ensures !Before(es, ds)
  {
    var k :| 0 <= k < |ds| && k < |es| && ds[..k] == es[..k] && ds[k] < es[k];
    forall j | 0 <= j < |es| && j < |ds|
      ensures es[..j] == ds[..j] ==> !(es[j] < ds[j])
    {
      if j < k {
        PrefixAt(ds, es, k, j);
      } else if k < j {
        PrefixAt(ds, es, j, k);
      }
    }
  }

  /** Digit order is numeric order. */
  lemma OrderOfKeys(x: nat, y: nat, depth: nat, bits: nat)
    requires x < Pow2(depth * bits) && y < Pow2(depth * bits)
    ensures x < y <==> Before(DigitsOf(x, depth, bits), DigitsOf(y, depth, bits))
  {
    if x < y {
      DigitsOrder(x, y, depth, bits);
    } else if y < x {
      DigitsOrder(y, x, depth, bits);
      BeforeOnce(DigitsOf(y, depth, bits), DigitsOf(x, depth, bits));
    }
  }
}
