// Fixed-size byte buffers written at absolute offsets, as the Java side's MemorySegment is, and the
// Java number types that are written to them.
module Segments {
  import opened Support
  import opened ByteCodec

  type JavaInt = i: int | -0x8000_0000 <= i < 0x8000_0000

  /** An f64 by its bit pattern. */
  type JavaDouble = bits: nat | bits < 0x1_0000_0000_0000_0000

  const JAVA_INT_MAX: nat := 0x7FFF_FFFF

  /** The word a two's-complement int is written as. */
  function Unsigned(i: JavaInt): (word: nat)
    ensures word < U32_LIMIT && (word == i || word == i + U32_LIMIT)
  {
    if i < 0 then i + U32_LIMIT else i
  }

  /** `Double.isFinite`: below the bits of infinity, the sign aside. */
  predicate IsFinite(value: JavaDouble) {
    value % 0x8000_0000_0000_0000 < 0x7FF0_0000_0000_0000
  }

  function Overwritten(bytes: seq<Byte>, offset: nat, word: seq<Byte>): (after: seq<Byte>)
    requires offset + |word| <= |bytes|
    ensures |after| == |bytes|
  {
    bytes[..offset] + word + bytes[offset + |word|..]
  }

  /** Writing behind what a range holds extends it; writing past a range leaves it. */
  lemma WriteExtends(bytes: seq<Byte>, from: nat, offset: nat, word: seq<Byte>)
    requires from <= offset && offset + |word| <= |bytes|
    ensures Overwritten(bytes, offset, word)[from..offset + |word|] == bytes[from..offset] + word
    ensures forall to: nat | to <= offset :: Overwritten(bytes, offset, word)[..to] == bytes[..to]
  {
    var after := Overwritten(bytes, offset, word);
    forall to: nat | to <= offset ensures after[..to] == bytes[..to] {
      assert forall k | 0 <= k < to :: after[k] == bytes[k];
    }
  }

  /** `MemorySegment.set` with a little-endian layout. */
  method SetWord(segment: array<Byte>, offset: nat, value: nat, width: nat)
    requires offset + width <= segment.Length
    modifies segment
    ensures segment[..] == Overwritten(old(segment[..]), offset, LittleEndian(value, width))
  {
    var word := LittleEndian(value, width);
    forall k | 0 <= k < width {
      segment[offset + k] := word[k];
    }
    ghost var after := Overwritten(old(segment[..]), offset, word);
    assert forall k | 0 <= k < segment.Length :: segment[k] == after[k];
  }

  /** `MemorySegment.copy` into a new segment. */
  method Regrown(segment: array<Byte>, capacity: nat, used: nat) returns (grown: array<Byte>)
    requires used <= segment.Length && used <= capacity
    ensures fresh(grown) && grown.Length == capacity && grown[..used] == segment[..used]
  {
    grown := new Byte[capacity](_ => 0);
    forall k | 0 <= k < used {
      grown[k] := segment[k];
    }
  }
}
