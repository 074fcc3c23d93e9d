/** The page bitmap: one bit per page, most significant bit first in every byte. */
module Bitmap {

  /** 0x80 shifted right `i` times: only bit `i` set, counted from the most significant bit. */
  function Indexer(i: nat): bv8
    requires i < 8
  {
    if i == 0 then 0x80 else Indexer(i - 1) >> 1
  }

  /** Whether bit `i` of byte `b` is set. */
  predicate ByteBit(b: bv8, i: nat)
    requires i < 8
  {
    b & Indexer(i) != 0
  }

  /** `b` with bit `i` cleared, then set again when `enabled`. */
  function WithBit(b: bv8, i: nat, enabled: bool): bv8
    requires i < 8
  {
    var cleared := b & !Indexer(i);
    if enabled then cleared | Indexer(i) else cleared
  }

  lemma IndexerTable()
    ensures Indexer(0) == 0x80 && Indexer(1) == 0x40 && Indexer(2) == 0x20 && Indexer(3) == 0x10
    ensures Indexer(4) == 0x08 && Indexer(5) == 0x04 && Indexer(6) == 0x02 && Indexer(7) == 0x01
  {
    assert Indexer(3) == 0x10;
    assert Indexer(6) == 0x02;
  }

  lemma WithBitBits(b: bv8, i: nat, enabled: bool, k: nat)
    requires i < 8 && k < 8
    ensures ByteBit(WithBit(b, i, enabled), k) == if i == k then enabled else ByteBit(b, k)
  {
    IndexerTable();
  }

  /** The bits a byte buffer stands for, page 0 first. */
  function Unpack(bytes: seq<bv8>): (bits: seq<bool>)
    ensures |bits| == 8 * |bytes|
  {
    seq(8 * |bytes|, i requires 0 <= i < 8 * |bytes| => ByteBit(bytes[i / 8], i % 8))
  }

  /** Writing one bit of one byte changes exactly that bit of the whole bitmap. */
  lemma {:induction false} UnpackUpdate(bytes: seq<bv8>, index: nat, enabled: bool)
    requires index < 8 * |bytes|
    ensures Unpack(bytes[index / 8 := WithBit(bytes[index / 8], index % 8, enabled)])
         == Unpack(bytes)[index := enabled]
  {
    var after := bytes[index / 8 := WithBit(bytes[index / 8], index % 8, enabled)];
    forall k | 0 <= k < 8 * |bytes|
      ensures Unpack(after)[k] == Unpack(bytes)[index := enabled][k]
    {
      if k / 8 == index / 8 {
        WithBitBits(bytes[index / 8], index % 8, enabled, k % 8);
      }
    }
  }

  class PageBitmap {
    var bitmapSize: nat
    var buffer: array<bv8>
    var lastDeepFragmented: nat

    ghost predicate Valid()
      reads this
    {
      buffer.Length == bitmapSize
    }

    ghost function Bits(): (bits: seq<bool>)
      reads this, buffer
      requires Valid()
      ensures |bits| == 8 * bitmapSize
    {
      Unpack(buffer[..])
    }

    /** A bitmap of `size` bytes, every byte cleared and the search hint at page 0. */
    constructor (size: nat)
      ensures Valid() && fresh(buffer)
      ensures bitmapSize == size && lastDeepFragmented == 0
      ensures Bits() == seq(8 * size, i => false)
    {
      var bytes := new bv8[size];
      for i := 0 to size
        invariant forall k :: 0 <= k < i ==> bytes[k] == 0
      {
        bytes[i] := 0;
      }
      bitmapSize := size;
      buffer := bytes;
      lastDeepFragmented := 0;
    }

    method Get(index: nat) returns (occupied: bool)
      requires Valid()
      requires index < 8 * bitmapSize
      ensures occupied == Bits()[index]
    {
      var byteIndex, bitIndex := index / 8, index % 8;
      occupied := (buffer[byteIndex] & Indexer(bitIndex)) > 0;
    }

    /** The two stores of `Set`: clear the bit, then set it again when `enabled`. */
    method StoreBit(byteIndex: nat, bitIndex: nat, enabled: bool)
      requires Valid() && byteIndex < bitmapSize && bitIndex < 8
      modifies buffer
      ensures buffer[..] == old(buffer[..])[byteIndex := WithBit(old(buffer[byteIndex]), bitIndex, enabled)]
    {
      buffer[byteIndex] := buffer[byteIndex] & !Indexer(bitIndex);
      if enabled {
        buffer[byteIndex] := buffer[byteIndex] | Indexer(bitIndex);
      }
    }

    method Set(index: nat, enabled: bool)
      requires Valid()
      requires index < 8 * bitmapSize
      modifies buffer
      ensures Valid()
      ensures Bits() == old(Bits())[index := enabled]
    {
      UnpackUpdate(buffer[..], index, enabled);
      StoreBit(index / 8, index % 8, enabled);
    }
  }
}
