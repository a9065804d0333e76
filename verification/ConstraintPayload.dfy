// The payload of a parameter declaration: a flag word and the bounds it announces
// (decode_constraints and decode_bound in hynergy-protocol/src/definition.rs).
module ConstraintPayload {
  import opened Support
  import opened ByteCodec
  import opened Framing
  import opened Parameters

  // An f64 bound travels as its bit pattern.
  type WireBound = Option<Bound<nat>>
  type WireConstraints = ParameterConstraints<nat>

  // The bits of the flag word, least significant first.
  const LOWER := 0
  const LOWER_INCLUSIVE := 1
  const UPPER := 2
  const UPPER_INCLUSIVE := 3
  const NON_ZERO := 4
  const RECIPROCAL_RANGE := 5
  const RECIPROCAL_LOWER := 6
  const RECIPROCAL_LOWER_INCLUSIVE := 7
  const RECIPROCAL_UPPER := 8
  const RECIPROCAL_UPPER_INCLUSIVE := 9
  const FLAG_COUNT: nat := 10

  function Flag(bit: bool): nat {
    if bit then 1 else 0
  }

  /** The exclusive bound of a flag word with this many known bits. */
  function FlagLimit(count: nat): nat {
    if count == 0 then 1 else 2 * FlagLimit(count - 1)
  }

  function FromFlags(flags: seq<bool>): (word: nat)
    ensures word < FlagLimit(|flags|)
  {
    if flags == [] then 0 else Flag(flags[0]) + 2 * FromFlags(flags[1..])
  }

  function Flags(word: nat, count: nat): (flags: seq<bool>)
    ensures |flags| == count
  {
    if count == 0 then [] else [word % 2 == 1] + Flags(word / 2, count - 1)
  }

  lemma {:induction false} FlagsReadBack(flags: seq<bool>)
    ensures Flags(FromFlags(flags), |flags|) == flags
  {
    if flags != [] {
      FlagsReadBack(flags[1..]);
    }
  }

  lemma {:induction false} FlagsWriteBack(word: nat, count: nat)
    requires word < FlagLimit(count)
    ensures FromFlags(Flags(word, count)) == word
  {
    if count > 0 {
      FlagsWriteBack(word / 2, count - 1);
      assert Flags(word, count)[1..] == Flags(word / 2, count - 1);
    }
  }

  lemma FlagWordLimit()
    ensures FlagLimit(FLAG_COUNT) == 1024 < Power256(2)
  {
    assert FlagLimit(3) == 8 && FlagLimit(6) == 64 && FlagLimit(9) == 512;
    WordLimits();
  }

  // ----- Encoding -----

  predicate FitsBound(bound: WireBound) {
    bound.Some? ==> bound.value.value < Power256(8)
  }

  predicate WellFormed(constraints: WireConstraints) {
    && FitsBound(constraints.lower) && FitsBound(constraints.upper)
    && (constraints.reciprocalRange.Some? ==>
          FitsBound(constraints.reciprocalRange.value.0) && FitsBound(constraints.reciprocalRange.value.1))
  }

  predicate Inclusive(bound: WireBound) {
    bound.Some? && bound.value.inclusive
  }

  function ReciprocalLower(constraints: WireConstraints): WireBound {
    if constraints.reciprocalRange.Some? then constraints.reciprocalRange.value.0 else None
  }

  function ReciprocalUpper(constraints: WireConstraints): WireBound {
    if constraints.reciprocalRange.Some? then constraints.reciprocalRange.value.1 else None
  }

  function FlagsOf(c: WireConstraints): (flags: seq<bool>)
    ensures |flags| == FLAG_COUNT && Legal(flags)
  {
    [ c.lower.Some?, Inclusive(c.lower), c.upper.Some?, Inclusive(c.upper), c.nonZero, c.reciprocalRange.Some?,
      ReciprocalLower(c).Some?, Inclusive(ReciprocalLower(c)), ReciprocalUpper(c).Some?, Inclusive(ReciprocalUpper(c)) ]
  }

  function EncodeBound(bound: WireBound): seq<Byte> {
    if bound.Some? then LittleEndian(bound.value.value, 8) else []
  }

  function EncodeBounds(c: WireConstraints): seq<Byte> {
    EncodeBound(c.lower) + (EncodeBound(c.upper) + (EncodeBound(ReciprocalLower(c)) + EncodeBound(ReciprocalUpper(c))))
  }

  function Encode(c: WireConstraints): seq<Byte> {
    LittleEndian(FromFlags(FlagsOf(c)), 2) + EncodeBounds(c)
  }

  /** Inclusive flags need their bound, reciprocal flags the reciprocal range: exactly the flags constraints have. */
  predicate Legal(flags: seq<bool>)
    requires |flags| == FLAG_COUNT
  {
    && (flags[LOWER_INCLUSIVE] ==> flags[LOWER])
    && (flags[UPPER_INCLUSIVE] ==> flags[UPPER])
    && (flags[RECIPROCAL_LOWER_INCLUSIVE] ==> flags[RECIPROCAL_LOWER])
    && (flags[RECIPROCAL_UPPER_INCLUSIVE] ==> flags[RECIPROCAL_UPPER])
    && ((flags[RECIPROCAL_LOWER] || flags[RECIPROCAL_LOWER_INCLUSIVE] || flags[RECIPROCAL_UPPER]
         || flags[RECIPROCAL_UPPER_INCLUSIVE])
        ==> flags[RECIPROCAL_RANGE])
  }

  /** The bytes the bounds announced by the flags take. */
  function BoundBytes(flags: seq<bool>): nat
    requires |flags| == FLAG_COUNT
  {
    8 * (Flag(flags[LOWER]) + Flag(flags[UPPER]) + Flag(flags[RECIPROCAL_LOWER]) + Flag(flags[RECIPROCAL_UPPER]))
  }

  lemma EncodedLength(c: WireConstraints)
    ensures |Encode(c)| == 2 + BoundBytes(FlagsOf(c))
  {
  }

  // ----- Decoding -----

  function FlagWord(rest: seq<Byte>): nat
    requires 2 <= |rest|
  {
    FromLittleEndian(rest[..2])
  }

  /** Why no constraints begin `rest`. */
  ghost predicate Fault<E>(rest: seq<Byte>, offset: nat, index: nat, error: WireError<E>) {
    if |rest| < 2 then error == ErrorAt(TruncatedInput, index, offset + |rest|)
    else if FlagWord(rest) >= FlagLimit(FLAG_COUNT) || !Legal(Flags(FlagWord(rest), FLAG_COUNT)) then
      error == ErrorAt(InvalidFlags, index, offset)
    else
      && |rest| < 2 + BoundBytes(Flags(FlagWord(rest), FLAG_COUNT))
      && error == ErrorAt(TruncatedInput, index, offset + |rest|)
  }

  /** The flag word read back from an encoding. */
  lemma EncodingStart(rest: seq<Byte>, c: WireConstraints, tail: seq<Byte>)
    requires rest == Encode(c) + tail
    ensures 2 <= |rest| && FlagWord(rest) == FromFlags(FlagsOf(c)) < FlagLimit(FLAG_COUNT)
    ensures Flags(FlagWord(rest), FLAG_COUNT) == FlagsOf(c)
    ensures rest[2..] == EncodeBounds(c) + tail
  {
    FlagWordLimit();
    var word := FromFlags(FlagsOf(c));
    FlagsReadBack(FlagsOf(c));
    WordReadsBack(word, 2);
    Regroup(LittleEndian(word, 2), EncodeBounds(c), tail);
    assert rest == rest[0..];
    FieldsInPlace(rest, 0, LittleEndian(word, 2), EncodeBounds(c) + tail);
    assert rest[..2] == rest[0..2];
  }

  lemma EncodingIsNotFaulty<E>(
      rest: seq<Byte>, c: WireConstraints, tail: seq<Byte>, offset: nat, index: nat, error: WireError<E>)
    requires rest == Encode(c) + tail
    ensures !Fault(rest, offset, index, error)
  {
    EncodingStart(rest, c, tail);
    EncodedLength(c);
  }

  lemma BoundIsPrefixFree(a: WireBound, b: WireBound, s: seq<Byte>, t: seq<Byte>)
    requires FitsBound(a) && FitsBound(b) && a.Some? == b.Some? && Inclusive(a) == Inclusive(b)
    requires EncodeBound(a) + s == EncodeBound(b) + t
    ensures a == b && s == t
  {
    if a.Some? {
      WordIsPrefixFree(a.value.value, b.value.value, 8, s, t);
    } else {
      assert [] + s == s && [] + t == t;
    }
  }

  /** Constraints are recovered from the bytes that begin with their encoding. */
  lemma EncodingIsPrefixFree(a: WireConstraints, b: WireConstraints, s: seq<Byte>, t: seq<Byte>)
    requires WellFormed(a) && WellFormed(b) && Encode(a) + s == Encode(b) + t
    ensures a == b && s == t
  {
    EncodingStart(Encode(a) + s, a, s);
    EncodingStart(Encode(b) + t, b, t);
    assert FlagsOf(a) == FlagsOf(b);
    var lastA, lastB := EncodeBound(ReciprocalUpper(a)) + s, EncodeBound(ReciprocalUpper(b)) + t;
    var thirdA, thirdB := EncodeBound(ReciprocalLower(a)) + lastA, EncodeBound(ReciprocalLower(b)) + lastB;
    BoundsNest(a, s);
    BoundsNest(b, t);
    SameFlags(a, b);
    BoundIsPrefixFree(a.lower, b.lower, EncodeBound(a.upper) + thirdA, EncodeBound(b.upper) + thirdB);
    BoundIsPrefixFree(a.upper, b.upper, thirdA, thirdB);
    BoundIsPrefixFree(ReciprocalLower(a), ReciprocalLower(b), lastA, lastB);
    BoundIsPrefixFree(ReciprocalUpper(a), ReciprocalUpper(b), s, t);
  }

  lemma BoundsNest(c: WireConstraints, tail: seq<Byte>)
    ensures EncodeBounds(c) + tail
         == EncodeBound(c.lower)
            + (EncodeBound(c.upper) + (EncodeBound(ReciprocalLower(c)) + (EncodeBound(ReciprocalUpper(c)) + tail)))
  {
    var last := EncodeBound(ReciprocalUpper(c));
    var third := EncodeBound(ReciprocalLower(c));
    var second := EncodeBound(c.upper);
    Regroup(third, last, tail);
    Regroup(second, third + last, tail);
    Regroup(EncodeBound(c.lower), second + (third + last), tail);
  }

  lemma SameFlags(a: WireConstraints, b: WireConstraints)
    requires FlagsOf(a) == FlagsOf(b)
    ensures a.lower.Some? == b.lower.Some? && Inclusive(a.lower) == Inclusive(b.lower)
    ensures a.upper.Some? == b.upper.Some? && Inclusive(a.upper) == Inclusive(b.upper)
    ensures a.nonZero == b.nonZero && a.reciprocalRange.Some? == b.reciprocalRange.Some?
    ensures ReciprocalLower(a).Some? == ReciprocalLower(b).Some?
    ensures Inclusive(ReciprocalLower(a)) == Inclusive(ReciprocalLower(b))
    ensures ReciprocalUpper(a).Some? == ReciprocalUpper(b).Some?
    ensures Inclusive(ReciprocalUpper(a)) == Inclusive(ReciprocalUpper(b))
  {
    assert FlagsOf(a)[0] == FlagsOf(b)[0] && FlagsOf(a)[1] == FlagsOf(b)[1];
    assert FlagsOf(a)[2] == FlagsOf(b)[2] && FlagsOf(a)[3] == FlagsOf(b)[3];
    assert FlagsOf(a)[4] == FlagsOf(b)[4] && FlagsOf(a)[5] == FlagsOf(b)[5];
    assert FlagsOf(a)[6] == FlagsOf(b)[6] && FlagsOf(a)[7] == FlagsOf(b)[7];
    assert FlagsOf(a)[8] == FlagsOf(b)[8] && FlagsOf(a)[9] == FlagsOf(b)[9];
  }

  method DecodeBound(decoder: Decoder, present: bool, inclusive: bool) returns (bound: Result<WireBound, nat>)
    requires decoder.Valid() && (inclusive ==> present)
    modifies decoder`position
    ensures decoder.Valid()
    ensures bound.Ok? <==> 8 * Flag(present) <= |old(decoder.Rest())|
    ensures bound.Ok? ==>
      && FitsBound(bound.value) && bound.value.Some? == present && Inclusive(bound.value) == inclusive
      && old(decoder.Rest()) == EncodeBound(bound.value) + decoder.Rest()
    ensures bound.Err? ==> bound.error == decoder.End()
  {
    if !present {
      assert [] + decoder.Rest() == decoder.Rest();
      return Ok(None);
    }
    var value :- decoder.ReadWord(8);
    return Ok(Some(Bound(value, inclusive)));
  }

  /** A lower and an upper bound, each present and inclusive as its flags say. */
  method DecodeBoundPair(
      decoder: Decoder, lowerPresent: bool, lowerInclusive: bool, upperPresent: bool, upperInclusive: bool)
    returns (pair: Result<(WireBound, WireBound), nat>)
    requires decoder.Valid() && (lowerInclusive ==> lowerPresent) && (upperInclusive ==> upperPresent)
    modifies decoder`position
    ensures decoder.Valid()
    ensures pair.Err? ==>
      pair.error == decoder.End() && |old(decoder.Rest())| < 8 * (Flag(lowerPresent) + Flag(upperPresent))
    ensures pair.Ok? ==>
      && FitsBound(pair.value.0) && pair.value.0.Some? == lowerPresent && Inclusive(pair.value.0) == lowerInclusive
      && FitsBound(pair.value.1) && pair.value.1.Some? == upperPresent && Inclusive(pair.value.1) == upperInclusive
      && old(decoder.Rest()) == EncodeBound(pair.value.0) + (EncodeBound(pair.value.1) + decoder.Rest())
  {
    var lower :- DecodeBound(decoder, lowerPresent, lowerInclusive);
    var upper :- DecodeBound(decoder, upperPresent, upperInclusive);
    return Ok((lower, upper));
  }

  /** The reciprocal pair, present only with its flag; without it the other four flags are clear. */
  method DecodeReciprocal(decoder: Decoder, flags: seq<bool>)
    returns (range: Result<Option<(WireBound, WireBound)>, nat>)
    requires decoder.Valid() && |flags| == FLAG_COUNT && Legal(flags)
    modifies decoder`position
    ensures decoder.Valid()
    ensures range.Err? ==> range.error == decoder.End()
    ensures range.Err? ==> |old(decoder.Rest())| < 8 * (Flag(flags[RECIPROCAL_LOWER]) + Flag(flags[RECIPROCAL_UPPER]))
    ensures range.Ok? ==>
      var c := ParameterConstraints(None, None, false, range.value);
      && WellFormed(c) && ReciprocalFlagsMatch(c, flags)
      && old(decoder.Rest()) == EncodeBound(ReciprocalLower(c)) + (EncodeBound(ReciprocalUpper(c)) + decoder.Rest())
  {
    if !flags[RECIPROCAL_RANGE] {
      assert [] + ([] + decoder.Rest()) == decoder.Rest();
      return Ok(None);
    }
    var pair :- DecodeBoundPair(
      decoder, flags[RECIPROCAL_LOWER], flags[RECIPROCAL_LOWER_INCLUSIVE], flags[RECIPROCAL_UPPER],
      flags[RECIPROCAL_UPPER_INCLUSIVE]);
    return Ok(Some(pair));
  }

  predicate ReciprocalFlagsMatch(c: WireConstraints, flags: seq<bool>)
    requires |flags| == FLAG_COUNT
  {
    && c.reciprocalRange.Some? == flags[RECIPROCAL_RANGE]
    && ReciprocalLower(c).Some? == flags[RECIPROCAL_LOWER]
    && Inclusive(ReciprocalLower(c)) == flags[RECIPROCAL_LOWER_INCLUSIVE]
    && ReciprocalUpper(c).Some? == flags[RECIPROCAL_UPPER]
    && Inclusive(ReciprocalUpper(c)) == flags[RECIPROCAL_UPPER_INCLUSIVE]
  }

  lemma FlagsMatch(c: WireConstraints, flags: seq<bool>)
    requires |flags| == FLAG_COUNT && ReciprocalFlagsMatch(c, flags) && c.nonZero == flags[NON_ZERO]
    requires c.lower.Some? == flags[LOWER] && Inclusive(c.lower) == flags[LOWER_INCLUSIVE]
    requires c.upper.Some? == flags[UPPER] && Inclusive(c.upper) == flags[UPPER_INCLUSIVE]
    ensures FlagsOf(c) == flags
  {
  }

  /** The two halves of the bounds, end to end. */
  lemma BoundsJoin(c: WireConstraints, whole: seq<Byte>, middle: seq<Byte>, tail: seq<Byte>)
    requires whole == EncodeBound(c.lower) + (EncodeBound(c.upper) + middle)
    requires middle == EncodeBound(ReciprocalLower(c)) + (EncodeBound(ReciprocalUpper(c)) + tail)
    ensures whole == EncodeBounds(c) + tail
  {
    BoundsNest(c, tail);
  }

  method DecodeBounds(decoder: Decoder, flags: seq<bool>) returns (constraints: Result<WireConstraints, nat>)
    requires decoder.Valid() && |flags| == FLAG_COUNT && Legal(flags)
    modifies decoder`position
    ensures decoder.Valid()
    ensures constraints.Err? ==> constraints.error == decoder.End() && |old(decoder.Rest())| < BoundBytes(flags)
    ensures constraints.Ok? ==>
      && WellFormed(constraints.value) && FlagsOf(constraints.value) == flags
      && old(decoder.Rest()) == EncodeBounds(constraints.value) + decoder.Rest()
  {
    ghost var whole := decoder.Rest();
    var pair :- DecodeBoundPair(decoder, flags[LOWER], flags[LOWER_INCLUSIVE], flags[UPPER], flags[UPPER_INCLUSIVE]);
    ghost var middle := decoder.Rest();
    var range :- DecodeReciprocal(decoder, flags);
    var c := ParameterConstraints(pair.0, pair.1, flags[NON_ZERO], range);
    FlagsMatch(c, flags);
    BoundsJoin(c, whole, middle, decoder.Rest());
    return Ok(c);
  }

  lemma WordThenBounds(word: nat, c: WireConstraints, tail: seq<Byte>)
    requires word < FlagLimit(FLAG_COUNT) && FlagsOf(c) == Flags(word, FLAG_COUNT)
    ensures LittleEndian(word, 2) + (EncodeBounds(c) + tail) == Encode(c) + tail
  {
    FlagsWriteBack(word, FLAG_COUNT);
    Regroup(LittleEndian(word, 2), EncodeBounds(c), tail);
  }

  /** Ok of the one list of constraints `Rest` begins with, or the fault that rules one out. */
  method DecodeConstraints<E>(decoder: Decoder, index: nat) returns (constraints: Result<WireConstraints, WireError<E>>)
    requires decoder.Valid()
    modifies decoder`position
    ensures decoder.Valid()
    ensures constraints.Ok? ==>
      WellFormed(constraints.value) && old(decoder.Rest()) == Encode(constraints.value) + decoder.Rest()
    ensures constraints.Err? ==> Fault(old(decoder.Rest()), old(decoder.Offset()), index, constraints.error)
  {
    FlagWordLimit();
    ghost var rest := decoder.Rest();
    var flagsOffset := decoder.Offset();
    var word :- DecodeWord(decoder, 2, index);
    ghost var afterFlags := decoder.Rest();
    assert rest[..2] == LittleEndian(word, 2);
    WordReadsBack(word, 2);
    if word >= FlagLimit(FLAG_COUNT) {
      return Err(ErrorAt(InvalidFlags, index, flagsOffset));
    }
    var flags := Flags(word, FLAG_COUNT);
    if (flags[LOWER_INCLUSIVE] && !flags[LOWER])
       || (flags[UPPER_INCLUSIVE] && !flags[UPPER])
       || (flags[RECIPROCAL_LOWER_INCLUSIVE] && !flags[RECIPROCAL_LOWER])
       || (flags[RECIPROCAL_UPPER_INCLUSIVE] && !flags[RECIPROCAL_UPPER])
    {
      return Err(ErrorAt(InvalidFlags, index, flagsOffset));
    }
    if (flags[RECIPROCAL_LOWER] || flags[RECIPROCAL_LOWER_INCLUSIVE] || flags[RECIPROCAL_UPPER]
        || flags[RECIPROCAL_UPPER_INCLUSIVE]) && !flags[RECIPROCAL_RANGE]
    {
      return Err(ErrorAt(InvalidFlags, index, flagsOffset));
    }
    var bounds := DecodeBounds(decoder, flags);
    if bounds.Err? {
      return Err(ErrorAt(TruncatedInput, index, bounds.error));
    }
    WordThenBounds(word, bounds.value, decoder.Rest());
    return Ok(bounds.value);
  }
}
