/** The byte-order bridge of prover/circuit.go: `SwapBitArrayEndianness`,
    `ToBinaryBigEndian` and `FromBinaryBigEndian`. A bit sequence is read in
    groups of eight ("bytes"); the bridge reverses the order of the groups and
    keeps the order of the bits inside each group. */
module Endianness {
  import opened Wrappers
  import opened Gnark
  import Bytes

  /** `bitPatternLengthError`: a bit pattern whose length is not a whole
      number of bytes, carrying that length. */
  datatype BitPatternLengthError = BitPatternLengthError(actualLength: nat)

  /** Byte `k` of `s`: bits `8k .. 8k+7`. */
  function ByteAt<T>(s: seq<T>, k: nat): seq<T>
    requires 8 * k + 8 <= |s|
  {
    s[8 * k .. 8 * k + 8]
  }

  /** `s` with the order of its bytes reversed. */
  function ByteSwap<T>(s: seq<T>): (r: seq<T>)
    requires |s| % 8 == 0
    ensures |r| == |s|
  {
    if s == [] then [] else ByteSwap(s[8..]) + s[..8]
  }

  /** What `SwapBitArrayEndianness` returns: a length error exactly when the
      length is not a multiple of 8, the byte-swapped pattern otherwise. */
  function SwapEndianness<T>(bits: seq<T>): Result<seq<T>, BitPatternLengthError> {
    if |bits| % 8 != 0 then Failure(BitPatternLengthError(|bits|)) else Success(ByteSwap(bits))
  }

  /** `SwapBitArrayEndianness`: appends the bytes of `bits` to `newBits`
      from the last byte down to the first. */
  method SwapBitArrayEndianness<T>(bits: seq<T>) returns (r: Result<seq<T>, BitPatternLengthError>)
    ensures r.Failure? <==> |bits| % 8 != 0
    ensures r.Failure? ==> r.error == BitPatternLengthError(|bits|)
    ensures r.Success? ==> |r.value| == |bits| && r.value == ByteSwap(bits)
    ensures r == SwapEndianness(bits)
  {
    var bitPatternLength := |bits|;
    if bitPatternLength % 8 != 0 {
      return Failure(BitPatternLengthError(bitPatternLength));
    }
    var newBits: seq<T> := [];
    var i: int := bitPatternLength - 8;
    ghost var remaining: nat := bitPatternLength / 8;
    while i >= 0
      invariant i == 8 * remaining - 8 && remaining <= bitPatternLength / 8
      invariant newBits == ByteSwap(bits[8 * remaining..])
    {
      var currentBytes := bits[i .. i + 8];
      assert bits[i..][8..] == bits[i + 8..] && bits[i..][..8] == currentBytes;
      newBits := newBits + currentBytes;
      i := i - 8;
      remaining := remaining - 1;
    }
    assert bits[0..] == bits;
    var newLength: nat := |newBits|;
    if bitPatternLength != newLength {
      return Failure(BitPatternLengthError(newLength));
    }
    return Success(newBits);
  }

  /** Output byte `k` is input byte `n/8 - 1 - k`, bits inside it untouched. */
  lemma {:induction false} ByteSwapAt<T>(s: seq<T>, k: nat)
    requires |s| % 8 == 0 && k < |s| / 8
    ensures ByteAt(ByteSwap(s), k) == ByteAt(s, |s| / 8 - 1 - k)
  {
    var m := |s| / 8;
    var rest := s[8..];
    assert |s| == 8 * m;
    assert |rest| / 8 == m - 1;
    if k < m - 1 {
      ByteSwapAt(rest, k);
      assert ByteAt(ByteSwap(s), k) == ByteAt(ByteSwap(rest), k);
      ByteAtDrop(s, m - 2 - k);
    } else {
      assert ByteAt(ByteSwap(s), k) == s[..8];
    }
  }

  lemma ByteAtDrop<T>(s: seq<T>, j: nat)
    requires 8 * j + 16 <= |s|
    ensures ByteAt(s[8..], j) == ByteAt(s, j + 1)
  {
  }

  /** Swapping a concatenation of whole bytes swaps the parts and their order. */
  lemma {:induction false} ByteSwapAppend<T>(a: seq<T>, b: seq<T>)
    requires |a| % 8 == 0 && |b| % 8 == 0
    ensures ByteSwap(a + b) == ByteSwap(b) + ByteSwap(a)
  {
    if a != [] {
      assert (a + b)[8..] == a[8..] + b && (a + b)[..8] == a[..8];
      ByteSwapAppend(a[8..], b);
    } else {
      assert a + b == b;
    }
  }

  /** Swapping twice gives back the original pattern. */
  lemma {:induction false} ByteSwapInvolution<T>(s: seq<T>)
    requires |s| % 8 == 0
    ensures ByteSwap(ByteSwap(s)) == s
  {
    if s != [] {
      ByteSwapInvolution(s[8..]);
      ByteSwapAppend(ByteSwap(s[8..]), s[..8]);
      assert ByteSwap(s[..8]) == s[..8] by {
        assert s[..8][8..] == [];
      }
      assert s[..8] + s[8..] == s;
    }
  }

  /** `SwapBitArrayEndianness` undoes itself, and rejects the same lengths. */
  lemma SwapEndiannessInvolution<T>(bits: seq<T>)
    ensures SwapEndianness(bits).Success? ==> SwapEndianness(SwapEndianness(bits).value) == Success(bits)
    ensures SwapEndianness(bits).Failure? ==> SwapEndianness(bits).error.actualLength == |bits| && |bits| % 8 != 0
  {
    if |bits| % 8 == 0 {
      ByteSwapInvolution(bits);
    }
  }

  /** `ToBinaryBigEndian(variable, size)`: the `size`-bit decomposition of
      `variable` with its bytes put into big-endian order. */
  function ToBinaryBigEndian(variable: nat, size: nat): (r: Result<seq<nat>, BitPatternLengthError>)
    ensures r.Failure? <==> size % 8 != 0
    ensures r.Failure? ==> r.error == BitPatternLengthError(size)
    ensures r.Success? ==> |r.value| == size && AllBoolean(r.value)
  {
    var r := SwapEndianness(ToBinary(variable, size));
    assert r.Success? ==> AllBoolean(r.value) by {
      if r.Success? {
        ByteSwapBoolean(ToBinary(variable, size));
      }
    }
    r
  }

  /** `FromBinaryBigEndian(bitsBigEndian)`: the value of a big-endian bit
      pattern, after swapping its bytes back into little-endian order. */
  function FromBinaryBigEndian(bitsBigEndian: seq<nat>): (r: Result<nat, BitPatternLengthError>)
    ensures r.Failure? <==> |bitsBigEndian| % 8 != 0
    ensures r.Failure? ==> r.error == BitPatternLengthError(|bitsBigEndian|)
  {
    var bitsLittleEndian :- SwapEndianness(bitsBigEndian);
    Success(FromBinary(bitsLittleEndian))
  }

  /** On whole bytes `FromBinaryBigEndian` is the little-endian value of
      the byte-swapped pattern. */
  lemma FromBinaryBigEndianValue(bitsBigEndian: seq<nat>)
    requires |bitsBigEndian| % 8 == 0
    ensures FromBinaryBigEndian(bitsBigEndian) == Success(FromBinary(ByteSwap(bitsBigEndian)))
  {
  }

  lemma {:induction false} ByteSwapBoolean(s: seq<nat>)
    requires |s| % 8 == 0 && AllBoolean(s)
    ensures AllBoolean(ByteSwap(s))
  {
    if s != [] {
      var rest := s[8..];
      assert AllBoolean(rest) by {
        forall i | 0 <= i < |rest| ensures IsBoolean(rest[i]) {
          assert rest[i] == s[i + 8];
        }
      }
      ByteSwapBoolean(rest);
      var r := ByteSwap(s);
      assert r == ByteSwap(rest) + s[..8];
      forall i | 0 <= i < |r| ensures IsBoolean(r[i]) {
        if i < |rest| {
          assert r[i] == ByteSwap(rest)[i];
        } else {
          assert r[i] == s[i - |rest|];
        }
      }
    }
  }

  /** `FromBinaryBigEndian` inverts `ToBinaryBigEndian` on every value that
      fits in a whole number of bytes. */
  lemma BigEndianRoundTrip(v: nat, size: nat)
    requires size % 8 == 0 && FitsIn(v, size)
    ensures ToBinaryBigEndian(v, size).Success?
    ensures FromBinaryBigEndian(ToBinaryBigEndian(v, size).value) == Success(v)
  {
    ByteSwapInvolution(ToBinary(v, size));
    FromToBinary(v, size);
  }

  lemma AllBooleanSlice(s: seq<nat>, i: nat, j: nat)
    requires AllBoolean(s) && i <= j <= |s|
    ensures AllBoolean(s[i..j])
  {
    forall k | 0 <= k < j - i ensures IsBoolean(s[i..j][k]) {
      assert s[i..j][k] == s[i + k];
    }
  }

  /** The bytes of a boolean bit pattern, each group of eight read least
      significant bit first (the bit order `ToBinary` produces). */
  function BitsToBytes(bits: seq<nat>): (r: seq<Bytes.byte>)
    requires |bits| % 8 == 0 && AllBoolean(bits)
    ensures |r| == |bits| / 8
  {
    if bits == [] then []
    else
      AllBooleanSlice(bits, 0, 8);
      AllBooleanSlice(bits, 8, |bits|);
      assert bits[8..|bits|] == bits[8..];
      FromBinaryFits(bits[..8]);
      assert Pow2(8) == 256;
      [FromBinary(bits[..8])] + BitsToBytes(bits[8..])
  }

  lemma {:induction false} BitsToBytesAppend(a: seq<nat>, b: seq<nat>)
    requires |a| % 8 == 0 && |b| % 8 == 0 && AllBoolean(a) && AllBoolean(b)
    ensures AllBoolean(a + b)
    ensures BitsToBytes(a + b) == BitsToBytes(a) + BitsToBytes(b)
  {
    AllBooleanAppend(a, b);
    if a != [] {
      ByteStep(|a|);
      var rest := a[8..];
      assert (a + b)[8..] == rest + b && (a + b)[..8] == a[..8];
      AllBooleanSlice(a, 8, |a|);
      assert a[8..|a|] == rest;
      BitsToBytesAppend(rest, b);
    } else {
      assert a + b == b;
    }
  }

  lemma ByteStep(n: nat)
    requires n % 8 == 0 && n > 0
    ensures n >= 8 && (n - 8) % 8 == 0
  {
  }

  lemma AllBooleanAppend(a: seq<nat>, b: seq<nat>)
    requires AllBoolean(a) && AllBoolean(b)
    ensures AllBoolean(a + b)
  {
    forall k | 0 <= k < |a + b| ensures IsBoolean((a + b)[k]) {
      if k < |a| { assert (a + b)[k] == a[k]; } else { assert (a + b)[k] == b[k - |a|]; }
    }
  }

  /** The bytes that `ToBinaryBigEndian(v, 8 * width)` hands to the hash are
      exactly the `width`-byte big-endian encoding of `v` that the on-chain
      side computes: the in-circuit and the external layouts agree. */
  lemma {:induction false} BigEndianBitsAreBigEndianBytes(v: nat, width: nat)
    ensures ToBinaryBigEndian(v, 8 * width).Success?
    ensures var bits := ToBinaryBigEndian(v, 8 * width).value;
      AllBoolean(bits) && BitsToBytes(bits) == Bytes.FixedBigEndian(v, width)
  {
    if width > 0 {
      var low := ToBinary(v, 8);
      var high := ToBinary(ShiftRight(v, 8), 8 * (width - 1));
      ToBinarySplit(v, 8, 8 * (width - 1));
      assert ToBinary(v, 8 * width) == low + high;
      assert ShiftRight(v, 8) == v / 256 by {
        ShiftRightIsDivision(v, 8);
        assert Pow2(8) == 256;
      }
      ByteSwapAppend(low, high);
      ByteSwapBoolean(high);
      assert ByteSwap(low) == low by {
        assert low[8..] == [] && low[..8] == low;
      }
      BitsToBytesAppend(ByteSwap(high), low);
      BigEndianBitsAreBigEndianBytes(v / 256, width - 1);
      FromToBinary(v, 8);
      assert Pow2(8) == 256;
      assert BitsToBytes(low) == [v % 256] by {
        assert low[..8] == low && low[8..] == [];
      }
    }
  }

  lemma {:induction false} Pow2Bytes(k: nat)
    ensures Pow2(8 * k) == Bytes.Pow256(k)
  {
    if k > 0 {
      Pow2Bytes(k - 1);
      Pow2Add(8, 8 * (k - 1));
      assert Pow2(8) == 256;
    }
  }

  /** Reading a byte-swapped boolean pattern little-endian (what
      `FromBinaryBigEndian` does) gives the big-endian value of its bytes
      (what `big.Int.SetBytes` gives for the same bytes off-circuit). */
  lemma {:induction false} FromBinarySwappedIsBigEndianValue(bits: seq<nat>)
    requires |bits| % 8 == 0 && AllBoolean(bits)
    ensures FromBinary(ByteSwap(bits)) == Bytes.BigEndianValue(BitsToBytes(bits))
  {
    if bits != [] {
      var k := |bits| / 8;
      assert |bits| == 8 * k;
      var rest := bits[8..];
      AllBooleanSlice(bits, 8, |bits|);
      assert bits[8..|bits|] == rest;
      FromBinarySwappedIsBigEndianValue(rest);
      SwapValueStep(bits, k);
      BytesValueStep(bits, k);
    }
  }

  lemma SwapValueStep(bits: seq<nat>, k: nat)
    requires |bits| == 8 * k && k > 0
    ensures FromBinary(ByteSwap(bits))
         == FromBinary(ByteSwap(bits[8..])) + Bytes.Pow256(k - 1) * FromBinary(bits[..8])
  {
    var rest := bits[8..];
    assert |rest| == 8 * (k - 1);
    assert ByteSwap(bits) == ByteSwap(rest) + bits[..8];
    FromBinaryAppend(ByteSwap(rest), bits[..8]);
    Pow2Bytes(k - 1);
  }

  lemma BytesValueStep(bits: seq<nat>, k: nat)
    requires |bits| == 8 * k && k > 0 && AllBoolean(bits)
    ensures AllBoolean(bits[8..])
    ensures Bytes.BigEndianValue(BitsToBytes(bits))
         == FromBinary(bits[..8]) * Bytes.Pow256(k - 1) + Bytes.BigEndianValue(BitsToBytes(bits[8..]))
  {
    AllBooleanSlice(bits, 8, |bits|);
    assert bits[8..|bits|] == bits[8..];
    assert |bits[8..]| == 8 * (k - 1);
    var bytes := BitsToBytes(bits[8..]);
    var x := BitsToBytes(bits)[0];
    assert BitsToBytes(bits) == [x] + bytes;
    assert x == FromBinary(bits[..8]);
    assert |bytes| == k - 1;
    Bytes.BigEndianPrepend(x, bytes);
    var p := Bytes.Pow256(k - 1);
    assert Bytes.BigEndianValue(BitsToBytes(bits)) == x * p + Bytes.BigEndianValue(bytes);
  }
}
