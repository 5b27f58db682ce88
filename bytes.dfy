/** Big-endian byte encodings of unsigned integers: the fixed-width layout
    of a Solidity `uintN` (and of `binary.Write` with `binary.BigEndian`),
    and the minimal layout of Go's `big.Int.Bytes`. */
module Bytes {
  import Gnark

  type byte = x: int | 0 <= x < 256

  /** 256^n. */
  function Pow256(n: nat): (r: nat)
    ensures r >= 1
  {
    if n == 0 then 1 else 256 * Pow256(n - 1)
  }

  /** The unsigned big-endian value of `b` (`new(big.Int).SetBytes(b)`). */
  function BigEndianValue(b: seq<byte>): nat {
    if b == [] then 0 else BigEndianValue(b[..|b| - 1]) * 256 + b[|b| - 1]
  }

  /** `x` as exactly `width` big-endian bytes: its low `8 * width` bits,
      most significant byte first. */
  function FixedBigEndian(x: nat, width: nat): (r: seq<byte>)
    ensures |r| == width
  {
    if width == 0 then [] else FixedBigEndian(x / 256, width - 1) + [x % 256]
  }

  /** `big.Int.Bytes()` of a non-negative `x`: big-endian with no leading
      zero byte, and empty for zero. */
  function MinimalBigEndian(x: nat): seq<byte> {
    if x == 0 then [] else MinimalBigEndian(x / 256) + [x % 256]
  }

  lemma AppendByte(b: seq<byte>, last: byte)
    ensures BigEndianValue(b + [last]) == BigEndianValue(b) * 256 + last
    ensures (BigEndianValue(b) * 256 + last) / 256 == BigEndianValue(b)
    ensures (BigEndianValue(b) * 256 + last) % 256 == last
  {
    assert (b + [last])[..|b|] == b;
    Gnark.DivModUnique(BigEndianValue(b) * 256 + last, 256, BigEndianValue(b), last);
  }

  /** The value of `n` bytes is below 256^n. */
  lemma {:induction false} BigEndianValueFits(b: seq<byte>)
    ensures BigEndianValue(b) < Pow256(|b|)
  {
    if b != [] {
      BigEndianValueFits(b[..|b| - 1]);
    }
  }

  /** Reading `width` fixed big-endian bytes back gives `x` when it fits. */
  lemma {:induction false} FixedBigEndianRoundTrip(x: nat, width: nat)
    requires x < Pow256(width)
    ensures BigEndianValue(FixedBigEndian(x, width)) == x
  {
    if width > 0 {
      FixedBigEndianRoundTrip(x / 256, width - 1);
      AppendByte(FixedBigEndian(x / 256, width - 1), x % 256);
    }
  }

  /** Byte `k` of the fixed encoding is `x / 256^(width-1-k)` modulo 256. */
  lemma {:induction false} FixedBigEndianAt(x: nat, width: nat, k: nat)
    requires k < width
    ensures FixedBigEndian(x, width)[k] == (x / Pow256(width - 1 - k)) % 256
  {
    if k == width - 1 {
    } else {
      FixedBigEndianAt(x / 256, width - 1, k);
      DivDiv256(x, Pow256(width - 2 - k));
    }
  }

  lemma DivDiv256(v: nat, m: nat)
    requires m > 0
    ensures (v / 256) / m == v / (256 * m)
  {
    var q, s := (v / 256) / m, (v / 256) % m;
    assert v / 256 == m * q + s;
    assert v == (256 * m) * q + (256 * s + v % 256);
    Gnark.DivModUnique(v, 256 * m, q, 256 * s + v % 256);
  }

  /** `big.Int.Bytes()` is read back by `SetBytes` and has no leading zero. */
  lemma {:induction false} MinimalBigEndianRoundTrip(x: nat)
    ensures BigEndianValue(MinimalBigEndian(x)) == x
    ensures MinimalBigEndian(x) == [] <==> x == 0
    ensures MinimalBigEndian(x) != [] ==> MinimalBigEndian(x)[0] != 0
  {
    if x > 0 {
      MinimalBigEndianRoundTrip(x / 256);
      AppendByte(MinimalBigEndian(x / 256), x % 256);
    }
  }

  lemma {:induction false} LeadingNonZeroPositive(b: seq<byte>)
    requires b != [] && b[0] != 0
    ensures BigEndianValue(b) > 0
  {
    if |b| > 1 {
      LeadingNonZeroPositive(b[..|b| - 1]);
    }
  }

  /** The minimal encoding is the only big-endian byte string without a
      leading zero byte that has its value. */
  lemma {:induction false} MinimalBigEndianUnique(b: seq<byte>)
    requires b == [] || b[0] != 0
    ensures MinimalBigEndian(BigEndianValue(b)) == b
  {
    if b != [] {
      var init, last := b[..|b| - 1], b[|b| - 1];
      assert b == init + [last];
      AppendByte(init, last);
      LeadingNonZeroPositive(b);
      if init == [] {
        assert BigEndianValue(init) == 0;
      } else {
        assert init[0] == b[0];
        MinimalBigEndianUnique(init);
      }
    }
  }

  /** The minimal encoding of a value that fits in `width` bytes is the
      fixed encoding with its leading zero bytes removed. */
  lemma {:induction false} FixedIsPaddedMinimal(x: nat, width: nat)
    requires x < Pow256(width)
    ensures |MinimalBigEndian(x)| <= width
    ensures FixedBigEndian(x, width) == seq(width - |MinimalBigEndian(x)|, _ => 0) + MinimalBigEndian(x)
  {
    if width > 0 {
      FixedIsPaddedMinimal(x / 256, width - 1);
      if x == 0 {
        assert x / 256 == 0;
      }
    }
  }

  /** The value of a byte string with one more leading byte. */
  lemma {:induction false} BigEndianPrepend(x: byte, b: seq<byte>)
    ensures BigEndianValue([x] + b) == x * Pow256(|b|) + BigEndianValue(b)
  {
    if b != [] {
      var init := b[..|b| - 1];
      assert ([x] + b)[..|b|] == [x] + init;
      BigEndianPrepend(x, init);
      assert x * Pow256(|b|) == 256 * (x * Pow256(|init|));
    }
  }
}
