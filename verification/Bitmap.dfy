// Bit vectors kept in byte arrays, as the wrap tracker and the kernel's pipe and
// notification-buffer tables are.
module Bitmap {

  // 1 << j
  function Mask(j: nat): bv8
    requires j < 8
  {
    match j
    case 0 => 0x01 case 1 => 0x02 case 2 => 0x04 case 3 => 0x08
    case 4 => 0x10 case 5 => 0x20 case 6 => 0x40 case _ => 0x80
  }

  function Bit(b: bv8, j: nat): bool
    requires j < 8
  {
    b & Mask(j) != 0
  }

  function Test(bits: seq<bv8>, i: nat): bool
    requires i < 8 * |bits|
  {
    Bit(bits[i / 8], i % 8)
  }

  lemma OrMask(b: bv8, j: nat, k: nat)
    requires j < 8 && k < 8
    ensures Bit(b | Mask(j), k) == (Bit(b, k) || j == k)
  {
  }

  lemma AndNotMask(b: bv8, j: nat, k: nat)
    requires j < 8 && k < 8
    ensures Bit(b & !Mask(j), k) == (Bit(b, k) && j != k)
  {
  }

  function WithBit(bits: seq<bv8>, i: nat): (r: seq<bv8>)
    requires i < 8 * |bits|
    ensures |r| == |bits|
  {
    bits[i / 8 := bits[i / 8] | Mask(i % 8)]
  }

  function WithoutBit(bits: seq<bv8>, i: nat): (r: seq<bv8>)
    requires i < 8 * |bits|
    ensures |r| == |bits|
  {
    bits[i / 8 := bits[i / 8] & !Mask(i % 8)]
  }

  lemma OtherByte(bits: seq<bv8>, i: nat, k: nat)
    requires i < 8 * |bits| && k < 8 * |bits| && i / 8 != k / 8
    ensures Test(WithBit(bits, i), k) == Test(bits, k)
    ensures Test(WithoutBit(bits, i), k) == Test(bits, k)
  {
    assert WithBit(bits, i)[k / 8] == bits[k / 8];
    assert WithoutBit(bits, i)[k / 8] == bits[k / 8];
  }

  lemma SameByteSet(bits: seq<bv8>, i: nat, k: nat, j: nat, j': nat)
    requires i < 8 * |bits| && k < 8 * |bits| && i / 8 == k / 8 && j == i % 8 && j' == k % 8
    ensures Test(WithBit(bits, i), k) == (Test(bits, k) || j == j')
  {
    OrMask(bits[i / 8], j, j');
  }

  lemma SameByteClear(bits: seq<bv8>, i: nat, k: nat, j: nat, j': nat)
    requires i < 8 * |bits| && k < 8 * |bits| && i / 8 == k / 8 && j == i % 8 && j' == k % 8
    ensures Test(WithoutBit(bits, i), k) == (Test(bits, k) && j != j')
  {
    AndNotMask(bits[i / 8], j, j');
  }

  // Or-ing a mask of one bit into a byte sets that bit of the vector and no other;
  // and-ing its complement clears that bit and no other.
  lemma UpdateBit(bits: seq<bv8>, i: nat, k: nat)
    requires i < 8 * |bits| && k < 8 * |bits|
    ensures Test(WithBit(bits, i), k) == (Test(bits, k) || k == i)
    ensures Test(WithoutBit(bits, i), k) == (Test(bits, k) && k != i)
  {
    if i / 8 == k / 8 {
      SameByteSet(bits, i, k, i % 8, k % 8);
      SameByteClear(bits, i, k, i % 8, k % 8);
    } else {
      OtherByte(bits, i, k);
    }
  }

  method TestBit(bits: array<bv8>, i: nat) returns (r: bool)
    requires i < 8 * bits.Length
    ensures r == Test(bits[..], i)
  {
    r := bits[i / 8] & Mask(i % 8) != 0;
  }

  method SetBit(bits: array<bv8>, i: nat)
    requires i < 8 * bits.Length
    modifies bits
    ensures bits[..] == WithBit(old(bits[..]), i)
  {
    bits[i / 8] := bits[i / 8] | Mask(i % 8);
  }

  method ClearBit(bits: array<bv8>, i: nat)
    requires i < 8 * bits.Length
    modifies bits
    ensures bits[..] == WithoutBit(old(bits[..]), i)
  {
    bits[i / 8] := bits[i / 8] & !Mask(i % 8);
  }
}
