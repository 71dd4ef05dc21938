/** Allocation bitmaps: byte buffers whose bits are read and written through masks. */
module Bitmap {

  /** The position of bit `i` inside its byte. */
  function BitIndex(i: nat): (k: bv8)
    ensures k < 8
  {
    var k := i % 8;
    k as bv8
  }

  /** The byte with only bit `i` set. */
  function Mask(i: nat): bv8 {
    1 << BitIndex(i)
  }

  predicate ByteBit(b: bv8, i: nat) {
    (b >> BitIndex(i)) & 1 == 1
  }

  predicate Bit(buffer: seq<bv8>, i: nat)
    requires i < 8 * |buffer|
  {
    ByteBit(buffer[i / 8], i)
  }

  /** The first `n` bits of a buffer, as booleans. */
  function Bits(buffer: seq<bv8>, n: nat): (bits: seq<bool>)
    requires n <= 8 * |buffer|
    ensures |bits| == n
    ensures forall i :: 0 <= i < n ==> bits[i] == Bit(buffer, i)
  {
    seq(n, i requires 0 <= i < n => Bit(buffer, i))
  }

  lemma MaskedByte(b: bv8, i: bv8, j: bv8)
    requires i < 8 && j < 8
    ensures ((b | (1 << i)) >> j) & 1 == 1 <==> (i == j || (b >> j) & 1 == 1)
    ensures ((b & !(1 << i)) >> j) & 1 == 1 <==> (i != j && (b >> j) & 1 == 1)
  {
  }

  /** Bit `i` is in byte `i / 8`, and the lowest bit of a byte comes first. */
  lemma BitOrder(buffer: seq<bv8>, i: nat)
    requires i < 8 * |buffer|
    ensures Bit(buffer, i) <==> buffer[i / 8] & [1, 2, 4, 8, 16, 32, 64, 128][i % 8] != 0
  {
    var k, b := i % 8, buffer[i / 8];
    BitIndexValue(i);
    if k == 0 {} else if k == 1 {} else if k == 2 {} else if k == 3 {}
    else if k == 4 {} else if k == 5 {} else if k == 6 {} else {}
  }

  lemma BitIndexInjective(i: nat, j: nat)
    ensures BitIndex(i) == BitIndex(j) <==> i % 8 == j % 8
  {
    BitIndexValue(i);
    BitIndexValue(j);
  }

  lemma BitIndexValue(i: nat)
    ensures BitIndex(i) as int == i % 8
  {
    var k := i % 8;
    if k == 0 {} else if k == 1 {} else if k == 2 {} else if k == 3 {}
    else if k == 4 {} else if k == 5 {} else if k == 6 {} else {}
  }

  method BitmapGet(buffer: array<bv8>, i: nat) returns (bit: bool)
    requires i < 8 * buffer.Length
    ensures bit == Bits(buffer[..], 8 * buffer.Length)[i]
  {
    bit := (buffer[i / 8] >> BitIndex(i)) & 1 == 1;
  }

  /** The byte that holds bit `i` once that bit is set to `v`. */
  function PutByte(b: bv8, i: nat, v: bool): bv8 {
    if v then b | Mask(i) else b & !Mask(i)
  }

  lemma PutByteBit(b: bv8, i: nat, v: bool, j: nat)
    requires i / 8 == j / 8
    ensures ByteBit(PutByte(b, i, v), j) == if j == i then v else ByteBit(b, j)
  {
    MaskedByte(b, BitIndex(i), BitIndex(j));
    BitIndexInjective(i, j);
  }

  lemma PutChangesOneBit(before: seq<bv8>, after: seq<bv8>, i: nat, v: bool)
    requires i < 8 * |before|
    requires after == before[i / 8 := PutByte(before[i / 8], i, v)]
    ensures forall n :: i < n <= 8 * |before| ==> Bits(after, n) == Bits(before, n)[i := v]
  {
    hide BitIndex, PutByte, Bit;
    forall j: nat | j < 8 * |before|
      ensures Bit(after, j) == if j == i then v else Bit(before, j)
    {
      PutOneBit(before, after, i, v, j);
    }
  }

  lemma PutOneBit(before: seq<bv8>, after: seq<bv8>, i: nat, v: bool, j: nat)
    requires i < 8 * |before| && j < 8 * |before|
    requires after == before[i / 8 := PutByte(before[i / 8], i, v)]
    ensures Bit(after, j) == if j == i then v else Bit(before, j)
  {
    hide BitIndex, PutByte, ByteBit;
    if j / 8 == i / 8 {
      PutByteBit(before[i / 8], i, v, j);
    } else {
      assert after[j / 8] == before[j / 8];
    }
  }

  /** Sets or clears one bit and leaves every other bit of the buffer as it was. */
  method BitmapPut(buffer: array<bv8>, i: nat, v: bool)
    requires i < 8 * buffer.Length
    modifies buffer
    ensures forall n :: i < n <= 8 * buffer.Length ==>
              Bits(buffer[..], n) == Bits(old(buffer[..]), n)[i := v]
  {
    ghost var before := buffer[..];
    var mask := Mask(i);
    if v {
      buffer[i / 8] := buffer[i / 8] | mask;
    } else {
      mask := !mask;
      buffer[i / 8] := buffer[i / 8] & mask;
    }
    PutChangesOneBit(before, buffer[..], i, v);
  }

  lemma ZeroedBits(buffer: seq<bv8>, n: nat)
    requires n <= 8 * |buffer| && forall k :: 0 <= k < |buffer| ==> buffer[k] == 0
    ensures forall i :: 0 <= i < n ==> !Bits(buffer, n)[i]
  {
    forall i: nat | i < n ensures !Bit(buffer, i) {
      var k := BitIndex(i);
      assert ((0 as bv8) >> k) & 1 == 0;
    }
  }

  /** The clear bits at or above `from`, lowest first. */
  function FreeFrom(bits: seq<bool>, from: nat): (free: seq<nat>)
    ensures forall k :: 0 <= k < |free| ==> from <= free[k] < |bits| && !bits[free[k]]
    ensures forall b :: from <= b < |bits| && !bits[b] ==> b in free
    decreases |bits| - from
  {
    if from >= |bits| then []
    else if bits[from] then FreeFrom(bits, from + 1)
    else [from] + FreeFrom(bits, from + 1)
  }

  /** The list is in increasing order. */
  lemma {:induction false} FreeIsIncreasing(bits: seq<bool>, from: nat)
    ensures forall i, j :: 0 <= i < j < |FreeFrom(bits, from)| ==> FreeFrom(bits, from)[i] < FreeFrom(bits, from)[j]
    decreases |bits| - from
  {
    if from < |bits| {
      FreeIsIncreasing(bits, from + 1);
    }
  }

  lemma {:induction false} SetBelow(bits: seq<bool>, from: nat, b: nat, v: bool)
    requires b < |bits| && b < from
    ensures FreeFrom(bits[b := v], from) == FreeFrom(bits, from)
    decreases |bits| - from
  {
    if from < |bits| {
      SetBelow(bits, from + 1, b, v);
    }
  }

  /** Setting the lowest clear bit takes the head off the list of clear bits. */
  lemma {:induction false} TakeLowest(bits: seq<bool>, from: nat, b: nat)
    requires from <= b < |bits| && !bits[b]
    requires forall i :: from <= i < b ==> bits[i]
    ensures FreeFrom(bits, from) == [b] + FreeFrom(bits[b := true], from)
    decreases b - from
  {
    var after := bits[b := true];
    assert after[from];
    assert FreeFrom(after, from) == FreeFrom(after, from + 1);
    if from == b {
      SetBelow(bits, from + 1, b, true);
    } else {
      assert FreeFrom(bits, from) == FreeFrom(bits, from + 1);
      TakeLowest(bits, from + 1, b);
    }
  }

  lemma {:induction false} NoneFree(bits: seq<bool>, from: nat)
    requires forall i :: from <= i < |bits| ==> bits[i]
    ensures FreeFrom(bits, from) == []
    decreases |bits| - from
  {
    if from < |bits| {
      NoneFree(bits, from + 1);
    }
  }
}
