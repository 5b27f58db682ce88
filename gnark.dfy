/** The few gnark `frontend.API` primitives the circuit uses, over naturals.
    A circuit value (`frontend.Variable`) is a `nat`; the reduction modulo the
    BN254 scalar field is not modelled. A primitive that constrains its inputs
    is modelled by the value it returns together with the condition its
    constraints impose; the circuit is satisfied when every such condition
    holds. */
module Gnark {

  /** 2^n. */
  function Pow2(n: nat): (r: nat)
    ensures r >= 1
  {
    if n == 0 then 1 else 2 * Pow2(n - 1)
  }

  /** `api.AssertIsBoolean(v)` holds exactly for 0 and 1. */
  predicate IsBoolean(v: nat) {
    v == 0 || v == 1
  }

  /** Every element of `bits` is 0 or 1. */
  predicate AllBoolean(bits: seq<nat>) {
    forall i :: 0 <= i < |bits| ==> IsBoolean(bits[i])
  }

  /** `api.Select(b, x, y)`: `x` when `b` is 1, `y` when it is 0. A selector
      that is not boolean makes the circuit unsatisfiable (every use here is
      guarded by `AssertIsBoolean`), so its value there is immaterial. */
  function Select(b: nat, x: nat, y: nat): nat {
    if b == 1 then x else y
  }

  /** The constraint that `api.ToBinary(v, n)` imposes: `v` fits in `n` bits. */
  predicate FitsIn(v: nat, n: nat) {
    v < Pow2(n)
  }

  /** The `n` little-endian bits that `api.ToBinary(v, n)` returns (the low
      `n` bits of `v`, least significant first). */
  function ToBinary(v: nat, n: nat): (r: seq<nat>)
    ensures |r| == n && AllBoolean(r)
  {
    if n == 0 then [] else [v % 2] + ToBinary(v / 2, n - 1)
  }

  /** `api.FromBinary(bits...)`: the little-endian value of `bits`. */
  function FromBinary(bits: seq<nat>): nat {
    if bits == [] then 0 else bits[0] + 2 * FromBinary(bits[1..])
  }

  /** Division facts behind splitting a bit decomposition. */
  lemma MulStep(d: nat, x: nat, y: nat)
    requires x < y
    ensures d * x + d <= d * y
  {
    var k := y - x - 1;
    assert y == x + 1 + k;
    assert d * y == d * x + d + d * k;
  }

  lemma DivModUnique(v: nat, d: nat, q: nat, r: nat)
    requires d > 0 && r < d && v == d * q + r
    ensures v / d == q && v % d == r
  {
    var q', r' := v / d, v % d;
    assert v == d * q' + r';
    if q' < q {
      MulStep(d, q', q);
    } else if q' > q {
      MulStep(d, q, q');
    }
  }

  lemma DivDiv2(v: nat, m: nat)
    requires m > 0
    ensures (v / 2) / m == v / (2 * m)
    ensures v % (2 * m) == v % 2 + 2 * ((v / 2) % m)
  {
    var q, s := (v / 2) / m, (v / 2) % m;
    assert v / 2 == m * q + s;
    assert v == (2 * m) * q + (2 * s + v % 2);
    DivModUnique(v, 2 * m, q, 2 * s + v % 2);
  }

  /** `FromBinary` undoes `ToBinary` up to truncation to `n` bits: the value
      read back is `v` modulo 2^n, and `v` itself whenever `v` fits. */
  lemma {:induction false} FromToBinary(v: nat, n: nat)
    ensures FromBinary(ToBinary(v, n)) == v % Pow2(n)
    ensures FitsIn(v, n) ==> FromBinary(ToBinary(v, n)) == v
  {
    if n > 0 {
      FromToBinary(v / 2, n - 1);
      DivDiv2(v, Pow2(n - 1));
      assert ToBinary(v, n)[1..] == ToBinary(v / 2, n - 1);
    }
  }

  /** The value of boolean bits fits in their number. */
  lemma {:induction false} FromBinaryFits(bits: seq<nat>)
    requires AllBoolean(bits)
    ensures FitsIn(FromBinary(bits), |bits|)
  {
    if bits != [] {
      assert AllBoolean(bits[1..]) by {
        forall i | 0 <= i < |bits[1..]| ensures IsBoolean(bits[1..][i]) {
          assert bits[1..][i] == bits[i + 1];
        }
      }
      FromBinaryFits(bits[1..]);
    }
  }

  /** `ToBinary` undoes `FromBinary` on boolean bits. */
  lemma {:induction false} ToFromBinary(bits: seq<nat>)
    requires AllBoolean(bits)
    ensures ToBinary(FromBinary(bits), |bits|) == bits
  {
    if bits != [] {
      var rest := bits[1..];
      assert AllBoolean(rest) by {
        forall i | 0 <= i < |rest| ensures IsBoolean(rest[i]) {
          assert rest[i] == bits[i + 1];
        }
      }
      ToFromBinary(rest);
      var v := FromBinary(bits);
      assert v == bits[0] + 2 * FromBinary(rest);
      assert v % 2 == bits[0] && v / 2 == FromBinary(rest);
      assert ToBinary(v, |bits|) == [bits[0]] + rest;
    }
  }

  /** `v` shifted right by `a` bits. */
  function ShiftRight(v: nat, a: nat): nat {
    if a == 0 then v else ShiftRight(v / 2, a - 1)
  }

  /** Shifting right by `a` bits divides by 2^a. */
  lemma {:induction false} ShiftRightIsDivision(v: nat, a: nat)
    ensures ShiftRight(v, a) == v / Pow2(a)
  {
    if a > 0 {
      ShiftRightIsDivision(v / 2, a - 1);
      DivDiv2(v, Pow2(a - 1));
    }
  }

  /** The first `a` bits of a decomposition into `a + b` bits are the
      decomposition into `a` bits; the remaining `b` bits decompose `v`
      shifted right by `a`. */
  lemma {:induction false} ToBinarySplit(v: nat, a: nat, b: nat)
    ensures ToBinary(v, a + b) == ToBinary(v, a) + ToBinary(ShiftRight(v, a), b)
  {
    if a > 0 {
      var h := v / 2;
      ToBinarySplit(h, a - 1, b);
      var lo, hi := ToBinary(h, a - 1), ToBinary(ShiftRight(v, a), b);
      assert ToBinary(v, a + b) == [v % 2] + (lo + hi);
      assert ToBinary(v, a) == [v % 2] + lo;
    }
  }

  lemma {:induction false} Pow2Add(a: nat, b: nat)
    ensures Pow2(a + b) == Pow2(a) * Pow2(b)
  {
    if a > 0 {
      Pow2Add(a - 1, b);
      assert Pow2(a + b) == 2 * Pow2((a - 1) + b);
    }
  }

  /** The value of a concatenation: the high part is shifted by the length
      of the low part. */
  lemma {:induction false} FromBinaryAppend(low: seq<nat>, high: seq<nat>)
    ensures FromBinary(low + high) == FromBinary(low) + Pow2(|low|) * FromBinary(high)
  {
    if low != [] {
      var rest := low[1..];
      assert (low + high)[1..] == rest + high && (low + high)[0] == low[0];
      FromBinaryAppend(rest, high);
      var h := FromBinary(high);
      var m := Pow2(|rest|);
      DoubleProduct(m, h);
    } else {
      assert low + high == high;
    }
  }

  lemma DoubleProduct(m: nat, h: nat)
    ensures (2 * m) * h == 2 * (m * h)
  {
  }
}
