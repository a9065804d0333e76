// Little-endian words and the byte cursor (hynergy-protocol/src/decoder.rs).
module ByteCodec {
  import opened Support

  type Byte = b: nat | b < 256

  function Power256(width: nat): (power: nat)
    ensures power > 0
  {
    if width == 0 then 1 else 256 * Power256(width - 1)
  }

  lemma WordLimits()
    ensures Power256(1) == 256 && Power256(2) == 0x1_0000 && Power256(4) == U32_LIMIT
    ensures Power256(8) == 0x1_0000_0000_0000_0000
  {
    assert Power256(3) == 0x100_0000;
    assert Power256(6) == 0x1_0000_0000_0000;
  }

  /** `to_le_bytes` of an unsigned word; an f64 travels as the word of its bit pattern. */
  function LittleEndian(value: nat, width: nat): (bytes: seq<Byte>)
    ensures |bytes| == width
  {
    if width == 0 then [] else [value % 256] + LittleEndian(value / 256, width - 1)
  }

  /** `from_le_bytes`. */
  function FromLittleEndian(bytes: seq<Byte>): (value: nat)
    ensures value < Power256(|bytes|)
  {
    if bytes == [] then 0 else bytes[0] + 256 * FromLittleEndian(bytes[1..])
  }

  /** The byte at place `k` counts multiples of 256 to the power of `k`. */
  lemma {:induction false} BytesByPlace(value: nat, width: nat, k: nat) returns (low: nat, high: nat)
    requires k < width
    ensures low < Power256(k)
    ensures value == low + Power256(k) * (LittleEndian(value, width)[k] + 256 * high)
    decreases k
  {
    if k == 0 {
      low, high := 0, value / 256;
    } else {
      var rest;
      rest, high := BytesByPlace(value / 256, width - 1, k - 1);
      low := value % 256 + 256 * rest;
      ScaleUp(Power256(k - 1), LittleEndian(value, width)[k] + 256 * high);
    }
  }

  lemma ScaleUp(power: nat, digits: nat)
    ensures 256 * (power * digits) == (256 * power) * digits
  {
  }

  lemma LowDigit(digit: Byte, rest: nat)
    ensures (digit + 256 * rest) % 256 == digit && (digit + 256 * rest) / 256 == rest
  {
  }

  lemma {:induction false} WordReadsBack(value: nat, width: nat)
    requires value < Power256(width)
    ensures FromLittleEndian(LittleEndian(value, width)) == value
  {
    if width > 0 {
      WordReadsBack(value / 256, width - 1);
      assert LittleEndian(value, width)[1..] == LittleEndian(value / 256, width - 1);
    }
  }

  lemma {:induction false} BytesWriteBack(bytes: seq<Byte>)
    ensures LittleEndian(FromLittleEndian(bytes), |bytes|) == bytes
  {
    if bytes != [] {
      BytesWriteBack(bytes[1..]);
      LowDigit(bytes[0], FromLittleEndian(bytes[1..]));
    }
  }

  /** Two byte strings that begin with a word of the same width agree only if the words do. */
  lemma WordIsPrefixFree(x: nat, y: nat, width: nat, s: seq<Byte>, t: seq<Byte>)
    requires x < Power256(width) && y < Power256(width)
    requires LittleEndian(x, width) + s == LittleEndian(y, width) + t
    ensures x == y && s == t
  {
    var whole := LittleEndian(x, width) + s;
    assert whole[..width] == LittleEndian(x, width) == LittleEndian(y, width);
    assert whole[width..] == s && whole[width..] == t;
    WordReadsBack(x, width);
    WordReadsBack(y, width);
  }

  lemma Regroup(a: seq<Byte>, b: seq<Byte>, c: seq<Byte>)
    ensures a + (b + c) == (a + b) + c
  {
  }

  /** The cursor over one slice of the input; offsets are absolute. Its reads fail only by running out of input. */
  class Decoder {
    const input: seq<Byte>
    const baseOffset: nat
    var position: nat

    constructor (input: seq<Byte>, baseOffset: nat)
      ensures this.input == input && this.baseOffset == baseOffset && position == 0
    {
      this.input := input;
      this.baseOffset := baseOffset;
      position := 0;
    }

    predicate Valid()
      reads this
    {
      position <= |input|
    }

    function Rest(): seq<Byte>
      requires Valid()
      reads this
    {
      input[position..]
    }

    function Offset(): nat
      reads this
    {
      baseOffset + position
    }

    function End(): nat {
      baseOffset + |input|
    }

    predicate IsEmpty()
      requires Valid()
      reads this
    {
      |input| - position == 0
    }

    method ReadBytes(length: nat) returns (read: Result<seq<Byte>, nat>)
      requires Valid()
      modifies this`position
      ensures Valid()
      ensures read.Ok? <==> length <= |old(Rest())|
      ensures read.Ok? ==>
        |read.value| == length && old(Rest()) == read.value + Rest() && position == old(position) + length
      ensures read.Err? ==> read.error == End() && position == old(position)
    {
      var end := position + length;
      if end > |input| {
        return Err(baseOffset + |input|);
      }
      var bytes := input[position..end];
      position := end;
      return Ok(bytes);
    }

    /** `read_u8`, `read_u16`, `read_u32` and the bit pattern of `read_f64`, by width. */
    method ReadWord(width: nat) returns (read: Result<nat, nat>)
      requires Valid()
      modifies this`position
      ensures Valid()
      ensures read.Ok? <==> width <= |old(Rest())|
      ensures read.Ok? ==> read.value < Power256(width) && old(Rest()) == LittleEndian(read.value, width) + Rest()
      ensures read.Ok? ==> position == old(position) + width
      ensures read.Err? ==> read.error == End() && position == old(position)
    {
      var bytes :- ReadBytes(width);
      BytesWriteBack(bytes);
      return Ok(FromLittleEndian(bytes));
    }
  }
}
