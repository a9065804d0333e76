// The payload of an element: a definition, counted terminals and counted parameter values
// (decode_element in hynergy-protocol/src/definition.rs).
module ElementPayload {
  import opened Support
  import opened ByteCodec
  import opened Framing

  const VALUE_LITERAL: nat := 0
  const VALUE_PARAMETER: nat := 1

  /** A literal is an f64 bit pattern. */
  datatype ValueRef = Literal(bits: nat) | Parameter(parameter: nat)

  datatype Element = Element(definition: nat, terminals: seq<nat>, parameters: seq<ValueRef>)

  predicate FitsValue(value: ValueRef) {
    ContentOf(value) < Power256(ContentWidth(value))
  }

  predicate AllWords(words: seq<nat>) {
    forall i | 0 <= i < |words| :: words[i] < Power256(4)
  }

  predicate AllFit(values: seq<ValueRef>) {
    forall i | 0 <= i < |values| :: FitsValue(values[i])
  }

  predicate WellFormed(element: Element) {
    && 0 < element.definition < Power256(4)
    && |element.terminals| < Power256(4) && AllWords(element.terminals)
    && |element.parameters| < Power256(4) && AllFit(element.parameters)
  }

  // ----- Encoding -----

  function EncodeWords(words: seq<nat>): (bytes: seq<Byte>)
    ensures |bytes| == 4 * |words|
  {
    if words == [] then [] else LittleEndian(words[0], 4) + EncodeWords(words[1..])
  }

  function KindOf(value: ValueRef): Byte {
    if value.Literal? then VALUE_LITERAL else VALUE_PARAMETER
  }

  function ContentOf(value: ValueRef): nat {
    if value.Literal? then value.bits else value.parameter
  }

  function ContentWidth(value: ValueRef): (width: nat)
    ensures width >= 4
  {
    if value.Literal? then 8 else 4
  }

  function EncodeValue(value: ValueRef): (bytes: seq<Byte>)
    ensures |bytes| == 1 + ContentWidth(value) >= 5
  {
    [KindOf(value)] + LittleEndian(ContentOf(value), ContentWidth(value))
  }

  function EncodeValues(values: seq<ValueRef>): (bytes: seq<Byte>)
    ensures |bytes| >= 5 * |values|
  {
    if values == [] then [] else EncodeValue(values[0]) + EncodeValues(values[1..])
  }

  function EncodeParameters(values: seq<ValueRef>): seq<Byte> {
    LittleEndian(|values|, 4) + EncodeValues(values)
  }

  function EncodeTerminals(element: Element): seq<Byte> {
    LittleEndian(|element.terminals|, 4) + (EncodeWords(element.terminals) + EncodeParameters(element.parameters))
  }

  function Encode(element: Element): seq<Byte> {
    LittleEndian(element.definition, 4) + EncodeTerminals(element)
  }

  lemma {:induction false} EncodeWordsAppend(words: seq<nat>, last: nat)
    ensures EncodeWords(words + [last]) == EncodeWords(words) + LittleEndian(last, 4)
  {
    if words == [] {
      assert EncodeWords([last]) == LittleEndian(last, 4) + EncodeWords([]);
    } else {
      EncodeWordsAppend(words[1..], last);
      assert (words + [last])[1..] == words[1..] + [last];
    }
  }

  lemma {:induction false} EncodeValuesAppend(values: seq<ValueRef>, last: ValueRef)
    ensures EncodeValues(values + [last]) == EncodeValues(values) + EncodeValue(last)
  {
    if values == [] {
      assert EncodeValues([last]) == EncodeValue(last) + EncodeValues([]);
    } else {
      EncodeValuesAppend(values[1..], last);
      assert (values + [last])[1..] == values[1..] + [last];
    }
  }

  // ----- Uniqueness -----

  lemma {:induction false} WordsArePrefixFree(a: seq<nat>, b: seq<nat>, s: seq<Byte>, t: seq<Byte>)
    requires |a| == |b| && EncodeWords(a) + s == EncodeWords(b) + t
    requires AllWords(a) && AllWords(b)
    ensures a == b && s == t
  {
    if a == [] {
      assert EncodeWords(a) + s == s && EncodeWords(b) + t == t;
    } else {
      assert EncodeWords(a) + s == LittleEndian(a[0], 4) + (EncodeWords(a[1..]) + s);
      assert EncodeWords(b) + t == LittleEndian(b[0], 4) + (EncodeWords(b[1..]) + t);
      WordIsPrefixFree(a[0], b[0], 4, EncodeWords(a[1..]) + s, EncodeWords(b[1..]) + t);
      WordsArePrefixFree(a[1..], b[1..], s, t);
      assert a == [a[0]] + a[1..] && b == [b[0]] + b[1..];
    }
  }

  lemma ValueIsPrefixFree(a: ValueRef, b: ValueRef, s: seq<Byte>, t: seq<Byte>)
    requires FitsValue(a) && FitsValue(b) && EncodeValue(a) + s == EncodeValue(b) + t
    ensures a == b && s == t
  {
    ValueParts(a, s);
    ValueParts(b, t);
    assert a.Literal? == b.Literal? && ContentWidth(a) == ContentWidth(b);
    WordIsPrefixFree(ContentOf(a), ContentOf(b), ContentWidth(a), s, t);
  }

  lemma ValueParts(value: ValueRef, tail: seq<Byte>)
    ensures (EncodeValue(value) + tail)[0] == KindOf(value)
    ensures (EncodeValue(value) + tail)[1..] == LittleEndian(ContentOf(value), ContentWidth(value)) + tail
  {
  }

  lemma {:induction false} ValuesArePrefixFree(a: seq<ValueRef>, b: seq<ValueRef>, s: seq<Byte>, t: seq<Byte>)
    requires |a| == |b| && EncodeValues(a) + s == EncodeValues(b) + t
    requires AllFit(a) && AllFit(b)
    ensures a == b && s == t
  {
    if a == [] {
      assert EncodeValues(a) + s == s && EncodeValues(b) + t == t;
    } else {
      assert EncodeValues(a) + s == EncodeValue(a[0]) + (EncodeValues(a[1..]) + s);
      assert EncodeValues(b) + t == EncodeValue(b[0]) + (EncodeValues(b[1..]) + t);
      ValueIsPrefixFree(a[0], b[0], EncodeValues(a[1..]) + s, EncodeValues(b[1..]) + t);
      ValuesArePrefixFree(a[1..], b[1..], s, t);
      assert a == [a[0]] + a[1..] && b == [b[0]] + b[1..];
    }
  }

  lemma ParametersNest(values: seq<ValueRef>, tail: seq<Byte>)
    ensures EncodeParameters(values) + tail == LittleEndian(|values|, 4) + (EncodeValues(values) + tail)
  {
    Regroup(LittleEndian(|values|, 4), EncodeValues(values), tail);
  }

  lemma TerminalsNest(element: Element, tail: seq<Byte>)
    ensures EncodeTerminals(element) + tail
         == LittleEndian(|element.terminals|, 4)
            + (EncodeWords(element.terminals) + (EncodeParameters(element.parameters) + tail))
  {
    var words, parameters := EncodeWords(element.terminals), EncodeParameters(element.parameters);
    Regroup(words, parameters, tail);
    Regroup(LittleEndian(|element.terminals|, 4), words + parameters, tail);
  }

  lemma ElementNests(element: Element, tail: seq<Byte>)
    ensures Encode(element) + tail == LittleEndian(element.definition, 4) + (EncodeTerminals(element) + tail)
  {
    Regroup(LittleEndian(element.definition, 4), EncodeTerminals(element), tail);
  }

  /** Elements are recovered from the bytes that begin with their encoding. */
  lemma EncodingIsPrefixFree(a: Element, b: Element, s: seq<Byte>, t: seq<Byte>)
    requires WellFormed(a) && WellFormed(b) && Encode(a) + s == Encode(b) + t
    ensures a == b && s == t
  {
    ElementNests(a, s);
    ElementNests(b, t);
    WordIsPrefixFree(a.definition, b.definition, 4, EncodeTerminals(a) + s, EncodeTerminals(b) + t);
    TerminalsNest(a, s);
    TerminalsNest(b, t);
    var parametersA, parametersB := EncodeParameters(a.parameters) + s, EncodeParameters(b.parameters) + t;
    WordIsPrefixFree(|a.terminals|, |b.terminals|, 4, EncodeWords(a.terminals) + parametersA,
                     EncodeWords(b.terminals) + parametersB);
    WordsArePrefixFree(a.terminals, b.terminals, parametersA, parametersB);
    ParametersNest(a.parameters, s);
    ParametersNest(b.parameters, t);
    WordIsPrefixFree(|a.parameters|, |b.parameters|, 4, EncodeValues(a.parameters) + s, EncodeValues(b.parameters) + t);
    ValuesArePrefixFree(a.parameters, b.parameters, s, t);
  }

  // ----- Faults -----

  function FirstWord(rest: seq<Byte>): nat
    requires 4 <= |rest|
  {
    FromLittleEndian(rest[..4])
  }

  lemma ReadsFirstWord(rest: seq<Byte>, word: nat, tail: seq<Byte>)
    requires word < Power256(4) && rest == LittleEndian(word, 4) + tail
    ensures 4 <= |rest| && FirstWord(rest) == word && rest[4..] == tail
  {
    WordReadsBack(word, 4);
    assert rest[..4] == LittleEndian(word, 4);
  }

  function ValueSize(kind: Byte): nat {
    if kind == VALUE_LITERAL then 9 else 5
  }

  /** Why `rest` does not begin with `count` values: the first fault, and where it is. */
  ghost predicate ValuesFault<E>(rest: seq<Byte>, count: nat, offset: nat, index: nat, error: WireError<E>) {
    && count > 0
    && if rest == [] then error == ErrorAt(TruncatedInput, index, offset)
       else if rest[0] > VALUE_PARAMETER then error == ErrorAt(UnknownValueKind, index, offset)
       else if |rest| < ValueSize(rest[0]) then error == ErrorAt(TruncatedInput, index, offset + |rest|)
       else ValuesFault(rest[ValueSize(rest[0])..], count - 1, offset + ValueSize(rest[0]), index, error)
  }

  ghost predicate ParametersFault<E>(rest: seq<Byte>, offset: nat, index: nat, error: WireError<E>) {
    if |rest| < 4 then error == ErrorAt(TruncatedInput, index, offset + |rest|)
    else if FirstWord(rest) > (|rest| - 4) / 5 then error == ErrorAt(InvalidCount, index, offset)
    else ValuesFault(rest[4..], FirstWord(rest), offset + 4, index, error)
  }

  ghost predicate TerminalsFault<E>(rest: seq<Byte>, offset: nat, index: nat, error: WireError<E>) {
    if |rest| < 4 then error == ErrorAt(TruncatedInput, index, offset + |rest|)
    else if FirstWord(rest) > (|rest| - 4) / 4 then error == ErrorAt(InvalidCount, index, offset)
    else ParametersFault(rest[4 + 4 * FirstWord(rest)..], offset + 4 + 4 * FirstWord(rest), index, error)
  }

  /** Why no element begins `rest`. */
  ghost predicate Fault<E>(rest: seq<Byte>, offset: nat, index: nat, error: WireError<E>) {
    if |rest| < 4 then error == ErrorAt(TruncatedInput, index, offset + |rest|)
    else if FirstWord(rest) == 0 then error == ErrorAt(InvalidDefinitionId, index, offset)
    else TerminalsFault(rest[4..], offset + 4, index, error)
  }

  lemma ValueStart(value: ValueRef, tail: seq<Byte>)
    requires FitsValue(value)
    ensures
      var rest := EncodeValue(value) + tail;
      && rest != [] && rest[0] == KindOf(value) && |rest| >= ValueSize(rest[0]) && rest[ValueSize(rest[0])..] == tail
  {
    ValueParts(value, tail);
  }

  lemma {:induction false} ValuesAreNotFaulty<E>(
      values: seq<ValueRef>, tail: seq<Byte>, offset: nat, index: nat, error: WireError<E>)
    requires AllFit(values)
    ensures !ValuesFault(EncodeValues(values) + tail, |values|, offset, index, error)
  {
    if values != [] {
      var after := EncodeValues(values[1..]) + tail;
      assert EncodeValues(values) + tail == EncodeValue(values[0]) + after;
      ValueStart(values[0], after);
      ValuesAreNotFaulty(values[1..], tail, offset + |EncodeValue(values[0])|, index, error);
    }
  }

  /** No well-formed element is refused; in particular its counts pass the early checks. */
  lemma EncodingIsNotFaulty<E>(
      rest: seq<Byte>, element: Element, tail: seq<Byte>, offset: nat, index: nat, error: WireError<E>)
    requires WellFormed(element) && rest == Encode(element) + tail
    ensures !Fault(rest, offset, index, error)
  {
    ElementNests(element, tail);
    ReadsFirstWord(rest, element.definition, EncodeTerminals(element) + tail);
    TerminalsAreNotFaulty(element, tail, offset + 4, index, error);
  }

  lemma TerminalsAreNotFaulty<E>(element: Element, tail: seq<Byte>, offset: nat, index: nat, error: WireError<E>)
    requires WellFormed(element)
    ensures !TerminalsFault(EncodeTerminals(element) + tail, offset, index, error)
  {
    var rest := EncodeTerminals(element) + tail;
    var words, parameters := EncodeWords(element.terminals), EncodeParameters(element.parameters) + tail;
    var count := |element.terminals|;
    TerminalsNest(element, tail);
    ReadsFirstWord(rest, count, words + parameters);
    assert rest[4 + 4 * count..] == rest[4..][4 * count..] == parameters;
    ParametersAreNotFaulty(element.parameters, tail, offset + 4 + 4 * count, index, error);
  }

  lemma ParametersAreNotFaulty<E>(
      values: seq<ValueRef>, tail: seq<Byte>, offset: nat, index: nat, error: WireError<E>)
    requires |values| < Power256(4) && AllFit(values)
    ensures !ParametersFault(EncodeParameters(values) + tail, offset, index, error)
  {
    ParametersNest(values, tail);
    ReadsFirstWord(EncodeParameters(values) + tail, |values|, EncodeValues(values) + tail);
    ValuesAreNotFaulty(values, tail, offset + 4, index, error);
  }

  // ----- Decoding -----

  method DecodeWords<E>(decoder: Decoder, count: nat, index: nat) returns (words: Result<seq<nat>, WireError<E>>)
    requires decoder.Valid()
    modifies decoder`position
    ensures decoder.Valid()
    ensures words.Ok? <==> 4 * count <= |old(decoder.Rest())|
    ensures words.Ok? ==>
      && |words.value| == count && AllWords(words.value)
      && decoder.position == old(decoder.position) + 4 * count
      && old(decoder.Rest()) == EncodeWords(words.value) + decoder.Rest()
  {
    ghost var start := decoder.Rest();
    var list: seq<nat> := [];
    assert start == EncodeWords(list) + decoder.Rest();
    for i := 0 to count
      invariant decoder.Valid() && |list| == i && decoder.position == old(decoder.position) + 4 * i
      invariant AllWords(list) && start == EncodeWords(list) + decoder.Rest()
    {
      ghost var before := decoder.Rest();
      var word :- DecodeWord(decoder, 4, index);
      WordsGrow(start, list, before, word, decoder.Rest());
      list := list + [word];
    }
    return Ok(list);
  }

  lemma WordsGrow(start: seq<Byte>, list: seq<nat>, before: seq<Byte>, word: nat, rest: seq<Byte>)
    requires start == EncodeWords(list) + before && before == LittleEndian(word, 4) + rest
    ensures start == EncodeWords(list + [word]) + rest
  {
    EncodeWordsAppend(list, word);
    Regroup(EncodeWords(list), LittleEndian(word, 4), rest);
  }

  method DecodeKind<E>(decoder: Decoder, index: nat) returns (kind: Result<Byte, WireError<E>>)
    requires decoder.Valid()
    modifies decoder`position
    ensures decoder.Valid()
    ensures kind.Ok? ==>
      old(decoder.Rest()) == [kind.value] + decoder.Rest() && decoder.position == old(decoder.position) + 1
    ensures kind.Err? ==>
      old(decoder.Rest()) == [] && kind.error == ErrorAt(TruncatedInput, index, old(decoder.Offset()))
  {
    WordLimits();
    var byte :- DecodeWord(decoder, 1, index);
    assert LittleEndian(byte, 1) == [byte];
    return Ok(byte);
  }

  lemma KindThenContent(value: ValueRef, tail: seq<Byte>)
    ensures [KindOf(value)] + (LittleEndian(ContentOf(value), ContentWidth(value)) + tail) == EncodeValue(value) + tail
  {
    Regroup([KindOf(value)], LittleEndian(ContentOf(value), ContentWidth(value)), tail);
  }

  method DecodeValue<E>(decoder: Decoder, index: nat, ghost left: nat) returns (value: Result<ValueRef, WireError<E>>)
    requires decoder.Valid()
    modifies decoder`position
    ensures decoder.Valid()
    ensures value.Ok? ==>
      && FitsValue(value.value) && old(decoder.Rest()) == EncodeValue(value.value) + decoder.Rest()
      && decoder.position == old(decoder.position) + |EncodeValue(value.value)|
    ensures value.Err? && left > 0 ==>
      ValuesFault(old(decoder.Rest()), left, old(decoder.Offset()), index, value.error)
  {
    ghost var rest := decoder.Rest();
    var kindOffset := decoder.Offset();
    var kind :- DecodeKind(decoder, index);
    assert rest[0] == kind;
    if kind == VALUE_LITERAL {
      var bits :- DecodeWord(decoder, 8, index);
      KindThenContent(Literal(bits), decoder.Rest());
      return Ok(Literal(bits));
    } else if kind == VALUE_PARAMETER {
      var parameter :- DecodeWord(decoder, 4, index);
      KindThenContent(Parameter(parameter), decoder.Rest());
      return Ok(Parameter(parameter));
    } else {
      return Err(ErrorAt(UnknownValueKind, index, kindOffset));
    }
  }

  /** A fault after some values is the fault of the whole list. */
  lemma {:induction false} FaultAfterValues<E>(
      list: seq<ValueRef>, rest: seq<Byte>, left: nat, offset: nat, at: nat, index: nat, error: WireError<E>)
    requires AllFit(list) && at == offset + |EncodeValues(list)| && ValuesFault(rest, left, at, index, error)
    ensures ValuesFault(EncodeValues(list) + rest, |list| + left, offset, index, error)
    decreases |list|
  {
    if list == [] {
      assert EncodeValues(list) + rest == rest;
    } else {
      var first, tail := EncodeValue(list[0]), EncodeValues(list[1..]);
      FaultAfterValues(list[1..], rest, left, offset + |first|, at, index, error);
      Regroup(first, tail, rest);
      FaultAfterValue(list[0], tail + rest, |list| - 1 + left, offset, index, error);
    }
  }

  lemma FaultInList<E>(
      start: seq<Byte>, count: nat, list: seq<ValueRef>, rest: seq<Byte>, offset: nat, at: nat, index: nat,
      error: WireError<E>)
    requires AllFit(list) && |list| <= count && start == EncodeValues(list) + rest
    requires at == offset + |EncodeValues(list)| && ValuesFault(rest, count - |list|, at, index, error)
    ensures ValuesFault(start, count, offset, index, error)
  {
    FaultAfterValues(list, rest, count - |list|, offset, at, index, error);
  }

  lemma FaultAfterValue<E>(value: ValueRef, tail: seq<Byte>, left: nat, offset: nat, index: nat, error: WireError<E>)
    requires FitsValue(value) && ValuesFault(tail, left, offset + |EncodeValue(value)|, index, error)
    ensures ValuesFault(EncodeValue(value) + tail, left + 1, offset, index, error)
  {
    ValueStart(value, tail);
  }

  lemma ValuesGrow(start: seq<Byte>, list: seq<ValueRef>, before: seq<Byte>, value: ValueRef, rest: seq<Byte>)
    requires start == EncodeValues(list) + before && before == EncodeValue(value) + rest
    ensures start == EncodeValues(list + [value]) + rest
    ensures |EncodeValues(list + [value])| == |EncodeValues(list)| + |EncodeValue(value)|
  {
    EncodeValuesAppend(list, value);
    Regroup(EncodeValues(list), EncodeValue(value), rest);
  }

  method DecodeValues<E>(decoder: Decoder, count: nat, index: nat)
    returns (values: Result<seq<ValueRef>, WireError<E>>)
    requires decoder.Valid()
    modifies decoder`position
    ensures decoder.Valid()
    ensures values.Ok? ==>
      && |values.value| == count && AllFit(values.value)
      && old(decoder.Rest()) == EncodeValues(values.value) + decoder.Rest()
    ensures values.Err? ==> ValuesFault(old(decoder.Rest()), count, old(decoder.Offset()), index, values.error)
  {
    ghost var start, startOffset := decoder.Rest(), decoder.Offset();
    var list := [];
    assert start == EncodeValues(list) + decoder.Rest();
    for i := 0 to count
      invariant decoder.Valid() && |list| == i && AllFit(list)
      invariant start == EncodeValues(list) + decoder.Rest()
      invariant decoder.Offset() == startOffset + |EncodeValues(list)|
    {
      ghost var before, decoderOffset := decoder.Rest(), decoder.Offset();
      var value := DecodeValue(decoder, index, count - i);
      if value.Err? {
        FaultInList(start, count, list, before, startOffset, decoderOffset, index, value.error);
        return Err(value.error);
      }
      ValuesGrow(start, list, before, value.value, decoder.Rest());
      list := list + [value.value];
    }
    return Ok(list);
  }

  method DecodeParameters<E>(decoder: Decoder, index: nat) returns (values: Result<seq<ValueRef>, WireError<E>>)
    requires decoder.Valid()
    modifies decoder`position
    ensures decoder.Valid()
    ensures values.Ok? ==>
      && |values.value| < Power256(4) && AllFit(values.value)
      && old(decoder.Rest()) == EncodeParameters(values.value) + decoder.Rest()
    ensures values.Err? ==> ParametersFault(old(decoder.Rest()), old(decoder.Offset()), index, values.error)
  {
    ghost var rest := decoder.Rest();
    var countOffset := decoder.Offset();
    var count :- DecodeWord(decoder, 4, index);
    ReadsFirstWord(rest, count, decoder.Rest());
    if count > |decoder.Rest()| / (1 + 4) {
      return Err(ErrorAt(InvalidCount, index, countOffset));
    }
    values := DecodeValues(decoder, count, index);
    if values.Ok? {
      ParametersNest(values.value, decoder.Rest());
    }
  }

  /** After the count check no terminal is ever cut short. */
  method DecodeTerminals<E>(decoder: Decoder, index: nat) returns (terminals: Result<seq<nat>, WireError<E>>)
    requires decoder.Valid()
    modifies decoder`position
    ensures decoder.Valid()
    ensures terminals.Ok? ==>
      && |terminals.value| < Power256(4) && AllWords(terminals.value)
      && |old(decoder.Rest())| >= 4 && FirstWord(old(decoder.Rest())) == |terminals.value|
      && |terminals.value| <= (|old(decoder.Rest())| - 4) / 4
      && decoder.position == old(decoder.position) + 4 + 4 * |terminals.value|
      && old(decoder.Rest())
         == LittleEndian(|terminals.value|, 4) + (EncodeWords(terminals.value) + decoder.Rest())
    ensures terminals.Err? ==> TerminalsFault(old(decoder.Rest()), old(decoder.Offset()), index, terminals.error)
  {
    ghost var rest := decoder.Rest();
    var countOffset := decoder.Offset();
    var count :- DecodeWord(decoder, 4, index);
    ReadsFirstWord(rest, count, decoder.Rest());
    if count > |decoder.Rest()| / 4 {
      return Err(ErrorAt(InvalidCount, index, countOffset));
    }
    terminals := DecodeWords(decoder, count, index);
    assert terminals.Ok?;
  }

  /** Ok of the one well-formed element `Rest` begins with, or the fault that rules one out. */
  method DecodeElement<E>(decoder: Decoder, index: nat) returns (element: Result<Element, WireError<E>>)
    requires decoder.Valid()
    modifies decoder`position
    ensures decoder.Valid()
    ensures element.Ok? ==> WellFormed(element.value) && old(decoder.Rest()) == Encode(element.value) + decoder.Rest()
    ensures element.Err? ==> Fault(old(decoder.Rest()), old(decoder.Offset()), index, element.error)
  {
    ghost var rest := decoder.Rest();
    var idOffset := decoder.Offset();
    var definition :- DecodeWord(decoder, 4, index);
    ghost var afterId := decoder.Rest();
    ReadsFirstWord(rest, definition, afterId);
    if definition == 0 {
      return Err(ErrorAt(InvalidDefinitionId, index, idOffset));
    }
    var terminals :- DecodeTerminals(decoder, index);
    ghost var afterTerminals := decoder.Rest();
    assert afterId[4 + 4 * |terminals|..] == afterTerminals;
    var parameters :- DecodeParameters(decoder, index);
    var result := Element(definition, terminals, parameters);
    TerminalsNest(result, decoder.Rest());
    ElementNests(result, decoder.Rest());
    return Ok(result);
  }
}
