/**
 * The bit layout shared by the two codec halves: pixel `i` of an 8-pixel run is bit `i`
 * of its byte, least significant bit first.
 */
module Bits {
  import opened Numbers

  function Pow2(n: nat): (p: nat)
    ensures p >= 1
  {
    if n == 0 then 1 else 2 * Pow2(n - 1)
  }

  /** `b >> i` for a non-negative integer. */
  function Shr(b: nat, i: nat): (r: nat)
    ensures Pow2(i) * r <= b < Pow2(i) * (r + 1)
  {
    if i == 0 then b
    else
      var r := Shr(b / 2, i - 1);
      HalveBounds(b, Pow2(i - 1), r);
      r
  }

  /** If `r` is the floor of `b / 2 / q`, it is the floor of `b / (2 * q)`. */
  lemma HalveBounds(b: nat, q: nat, r: nat)
    requires q * r <= b / 2 < q * (r + 1)
    ensures (2 * q) * r <= b < (2 * q) * (r + 1)
  {
    var h := b / 2;
    assert b == 2 * h + b % 2;
    assert (2 * q) * r == 2 * (q * r);
    assert (2 * q) * (r + 1) == 2 * (q * (r + 1));
  }

  /** `(b >> i) & 1`: the decoder's pixel `i` of byte `b`. */
  function Bit(b: nat, i: nat): (p: Byte)
    ensures p == 0 || p == 1
  {
    Shr(b, i) % 2
  }

  /** All eight pixels of a byte, in the order the decoder stores them. */
  function ByteBits(b: nat): (ps: seq<Byte>)
    ensures |ps| == 8
    ensures forall i :: 0 <= i < 8 ==> ps[i] == Bit(b, i)
  {
    seq(8, i requires 0 <= i < 8 => Bit(b, i))
  }

  predicate IsPixel(p: int) {
    p == 0 || p == 1
  }

  predicate AllPixels(ps: seq<int>) {
    forall i :: 0 <= i < |ps| ==> IsPixel(ps[i])
  }

  /** The encoder's byte for a run of at most eight 0/1 pixels: pixel `i` at bit `i`. The
      source ORs `pixel << i` into an accumulator; the bits never overlap, so the OR is a sum. */
  function PackByte(run: seq<Byte>): nat
    requires AllPixels(run)
  {
    if run == [] then 0 else run[0] + 2 * PackByte(run[1..])
  }

  /** A run of n pixels packs into a value below 2^n, so it fits a byte when n <= 8. */
  lemma {:induction false} PackByteBound(run: seq<Byte>)
    requires AllPixels(run)
    ensures PackByte(run) < Pow2(|run|)
  {
    if run != [] {
      PackByteBound(run[1..]);
    }
  }

  /** Adding the next pixel of a run sets the next bit: the accumulator of the source's inner loop. */
  lemma {:induction false} PackByteSnoc(run: seq<Byte>, p: Byte)
    requires AllPixels(run) && IsPixel(p)
    ensures AllPixels(run + [p])
    ensures PackByte(run + [p]) == PackByte(run) + p * Pow2(|run|)
  {
    if run == [] {
      assert ([] + [p])[1..] == [];
    } else {
      assert (run + [p])[1..] == run[1..] + [p];
      PackByteSnoc(run[1..], p);
      if p == 1 {
        assert Pow2(|run|) == 2 * Pow2(|run| - 1);
      }
    }
  }

  /** Unpacking undoes packing: bit `i` of a packed run is its pixel `i`, and the bits past
      the run are zero. */
  lemma {:induction false} PackByteBits(run: seq<Byte>, i: nat)
    requires AllPixels(run)
    ensures Bit(PackByte(run), i) == if i < |run| then run[i] else 0
  {
    if run == [] {
      ShrZero(i);
    } else {
      var rest := PackByte(run[1..]);
      assert (run[0] + 2 * rest) / 2 == rest;
      if i > 0 {
        PackByteBits(run[1..], i - 1);
      }
    }
  }

  lemma {:induction false} ShrZero(i: nat)
    ensures Shr(0, i) == 0
  {
    if i > 0 {
      ShrZero(i - 1);
    }
  }

  /** The pixels a byte yields are the packed run, followed by zeros up to eight. */
  lemma PackByteUnpacks(run: seq<Byte>)
    requires AllPixels(run) && |run| <= 8
    ensures PackByte(run) < 256
    ensures ByteBits(PackByte(run))[..|run|] == run
  {
    PackByteBound(run);
    Pow2Monotone(|run|, 8);
    assert Pow2(8) == 256;
    forall i | 0 <= i < |run| ensures ByteBits(PackByte(run))[i] == run[i] {
      PackByteBits(run, i);
    }
  }

  lemma {:induction false} Pow2Monotone(m: nat, n: nat)
    requires m <= n
    ensures Pow2(m) <= Pow2(n)
  {
    if m < n {
      Pow2Monotone(m, n - 1);
    }
  }
}
