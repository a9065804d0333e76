// Numbers as rows of bits, and the arithmetic of full adders on them.
module BinaryNumbers {
  function Pow2(n: nat): (p: nat)
    ensures p > 0
  {
    if n == 0 then 1 else 2 * Pow2(n - 1)
  }

  /** Bit `k` of `x`. */
  function BitOf(x: nat, k: nat): bool {
    if k == 0 then x % 2 == 1 else BitOf(x / 2, k - 1)
  }

  /** The low `n` bits of `x`. */
  function Low(x: nat, n: nat): nat {
    if n == 0 then 0 else x % 2 + 2 * Low(x / 2, n - 1)
  }

  /** Bitwise exclusive or, and bitwise and, on `n` bits. */
  function Xor(x: nat, y: nat, n: nat): nat {
    if n == 0 then 0 else (if x % 2 != y % 2 then 1 else 0) + 2 * Xor(x / 2, y / 2, n - 1)
  }

  function And(x: nat, y: nat, n: nat): nat {
    if n == 0 then 0 else (if x % 2 == 1 && y % 2 == 1 then 1 else 0) + 2 * And(x / 2, y / 2, n - 1)
  }

  function Weight(bit: bool, weight: nat): nat { if bit then weight else 0 }

  /** The number carried by wires, least significant first; `high` is the set of high wires. */
  ghost function Value(wires: seq<nat>, high: set<nat>): nat {
    if wires == [] then 0 else Weight(wires[0] in high, 1) + 2 * Value(wires[1..], high)
  }

  lemma {:induction false} ValueBound(wires: seq<nat>, high: set<nat>)
    ensures Value(wires, high) < Pow2(|wires|)
  {
    if wires != [] { ValueBound(wires[1..], high); }
  }

  lemma {:induction false} ValueAppend(wires: seq<nat>, w: nat, high: set<nat>)
    ensures Value(wires + [w], high) == Value(wires, high) + Weight(w in high, Pow2(|wires|))
  {
    if wires != [] {
      ValueAppend(wires[1..], w, high);
      assert (wires + [w])[1..] == wires[1..] + [w];
    } else {
      assert wires + [w] == [w] && [w][1..] == [];
    }
  }

  /** Wires that carry the bits of `x` carry the low bits of `x`. */
  lemma {:induction false} ValueOfBits(wires: seq<nat>, high: set<nat>, x: nat)
    requires forall k | 0 <= k < |wires| :: wires[k] in high <==> BitOf(x, k)
    ensures Value(wires, high) == Low(x, |wires|)
  {
    if wires != [] {
      assert wires[0] in high <==> BitOf(x, 0);
      forall k | 0 <= k < |wires| - 1 ensures wires[1..][k] in high <==> BitOf(x / 2, k) {
        assert wires[k + 1] in high <==> BitOf(x, k + 1);
      }
      ValueOfBits(wires[1..], high, x / 2);
    }
  }

  lemma {:induction false} ValueOfXor(a: seq<nat>, b: seq<nat>, r: seq<nat>, high: set<nat>)
    requires |a| == |b| == |r|
    requires forall k | 0 <= k < |r| :: r[k] in high <==> (a[k] in high) != (b[k] in high)
    ensures Value(r, high) == Xor(Value(a, high), Value(b, high), |r|)
  {
    if r != [] {
      var x, y := Value(a, high), Value(b, high);
      assert r[0] in high <==> (a[0] in high) != (b[0] in high);
      assert x / 2 == Value(a[1..], high) && y / 2 == Value(b[1..], high);
      assert x % 2 == Weight(a[0] in high, 1) && y % 2 == Weight(b[0] in high, 1);
      ValueOfXor(a[1..], b[1..], r[1..], high);
    }
  }

  lemma {:induction false} ValueOfAnd(a: seq<nat>, b: seq<nat>, r: seq<nat>, high: set<nat>)
    requires |a| == |b| == |r|
    requires forall k | 0 <= k < |r| :: r[k] in high <==> a[k] in high && b[k] in high
    ensures Value(r, high) == And(Value(a, high), Value(b, high), |r|)
  {
    if r != [] {
      assert r[0] in high <==> a[0] in high && b[0] in high;
      ValueOfAnd(a[1..], b[1..], r[1..], high);
    }
  }

  /** Wires with equal levels carry equal numbers. */
  lemma {:induction false} ValueOfCopy(a: seq<nat>, r: seq<nat>, high: set<nat>)
    requires |a| == |r|
    requires forall k | 0 <= k < |r| :: r[k] in high <==> a[k] in high
    ensures Value(r, high) == Value(a, high)
  {
    if r != [] {
      assert r[0] in high <==> a[0] in high;
      ValueOfCopy(a[1..], r[1..], high);
    }
  }

  /** Equal numbers on equally many wires have equal levels. */
  lemma {:induction false} EqualValuesEqualBits(wires: seq<nat>, high: set<nat>, x: nat)
    requires Value(wires, high) == Low(x, |wires|)
    ensures forall k | 0 <= k < |wires| :: wires[k] in high <==> BitOf(x, k)
  {
    if wires != [] {
      EqualValuesEqualBits(wires[1..], high, x / 2);
      forall k | 0 <= k < |wires| ensures wires[k] in high <==> BitOf(x, k) {
        if k > 0 { assert wires[k] == wires[1..][k - 1]; }
      }
    }
  }

  lemma ProductGap(p: nat, q: nat, r: nat)
    requires q < r
    ensures p * q + p <= p * r
    decreases r
  {
    assert p * r == p * (r - 1) + p;
    if q + 1 < r { ProductGap(p, q, r - 1); }
  }

  lemma DivisionIsUnique(x: nat, p: nat, q: nat, low: nat)
    requires low < p && x == low + p * q
    ensures x % p == low && x / p == q
  {
    assert x == p * (x / p) + x % p;
    if q < x / p { ProductGap(p, q, x / p); }
    if x / p < q { ProductGap(p, x / p, q); }
  }

  lemma RemainderOfDouble(half: nat, bit: nat, p: nat)
    requires p > 0 && bit < 2
    ensures (2 * half + bit) % (2 * p) == bit + 2 * (half % p)
  {
    var q := half / p;
    assert half == p * q + half % p;
    assert 2 * (p * q) == (2 * p) * q;
    DivisionIsUnique(2 * half + bit, 2 * p, q, bit + 2 * (half % p));
  }

  /** `Low` is the remainder modulo a power of two. */
  lemma {:induction false} LowIsRemainder(x: nat, n: nat)
    ensures Low(x, n) == x % Pow2(n)
  {
    if n > 0 {
      LowIsRemainder(x / 2, n - 1);
      RemainderOfDouble(x / 2, x % 2, Pow2(n - 1));
    }
  }

  /** The remainder of a sum with at most one carry. */
  lemma RemainderOfCarry(x: nat, p: nat, low: nat, carry: bool)
    requires low < p && x == low + Weight(carry, p)
    ensures x % p == low && (carry <==> x >= p)
  {
    DivisionIsUnique(x, p, if carry then 1 else 0, low);
  }

  ghost function Shift(x: nat, k: nat): nat {
    if k == 0 then x else 2 * Shift(x, k - 1)
  }

  lemma {:induction false} SplitValue(wires: seq<nat>, high: set<nat>, k: nat)
    requires k <= |wires|
    ensures Value(wires, high) == Value(wires[..k], high) + Shift(Value(wires[k..], high), k)
  {
    if k > 0 {
      SplitValue(wires[1..], high, k - 1);
      assert wires[1..][..k - 1] == wires[..k][1..] && wires[1..][k - 1..] == wires[k..];
    } else {
      assert wires[0..] == wires;
    }
  }
}
