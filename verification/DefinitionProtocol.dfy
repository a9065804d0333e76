// Definition buffers: the command loop that feeds a definition builder, and the final build
// (decode_definition_buffer in hynergy-protocol/src/definition.rs). The builder is an arbitrary state.
module DefinitionProtocol {
  import opened Support
  import opened ByteCodec
  import opened Framing
  import ConstraintPayload
  import ElementPayload

  // The bytes of "HYDF".
  const MAGIC: seq<Byte> := [0x48, 0x59, 0x44, 0x46]

  const ADD_TERMINAL: nat := 1
  const ADD_NODE: nat := 2
  const ADD_PARAMETER: nat := 3
  const ADD_ELEMENT: nat := 4
  const ADD_VOLTAGE_OBSERVER: nat := 5
  const ADD_CHILD_OBSERVER: nat := 6

  datatype DefinitionCommand =
    | AddTerminal
    | AddNode
    | AddParameter(constraints: ConstraintPayload.WireConstraints)
    | AddElement(element: ElementPayload.Element)
    | AddVoltageObserver(positive: nat, negative: nat)
    | AddChildObserver(child: nat, observer: nat)

  predicate WellFormed(command: DefinitionCommand) {
    match command
    case AddTerminal => true
    case AddNode => true
    case AddParameter(constraints) => ConstraintPayload.WellFormed(constraints)
    case AddElement(element) => ElementPayload.WellFormed(element) && |ElementPayload.Encode(element)| < U32_LIMIT
    case AddVoltageObserver(positive, negative) => positive < Power256(4) && negative < Power256(4)
    case AddChildObserver(child, observer) => child < Power256(4) && observer < Power256(4)
  }

  function Tag(command: DefinitionCommand): nat {
    match command
    case AddTerminal => ADD_TERMINAL
    case AddNode => ADD_NODE
    case AddParameter(_) => ADD_PARAMETER
    case AddElement(_) => ADD_ELEMENT
    case AddVoltageObserver(_, _) => ADD_VOLTAGE_OBSERVER
    case AddChildObserver(_, _) => ADD_CHILD_OBSERVER
  }

  function Pair(first: nat, second: nat): (bytes: seq<Byte>)
    ensures |bytes| == 8
  {
    LittleEndian(first, 4) + LittleEndian(second, 4)
  }

  function Payload(command: DefinitionCommand): seq<Byte> {
    match command
    case AddTerminal => []
    case AddNode => []
    case AddParameter(constraints) => ConstraintPayload.Encode(constraints)
    case AddElement(element) => ElementPayload.Encode(element)
    case AddVoltageObserver(positive, negative) => Pair(positive, negative)
    case AddChildObserver(child, observer) => Pair(child, observer)
  }

  function FrameOf(command: DefinitionCommand): Frame {
    Frame(Tag(command), Payload(command))
  }

  lemma PairIsInjective(a: nat, b: nat, c: nat, d: nat)
    requires a < Power256(4) && b < Power256(4) && c < Power256(4) && d < Power256(4) && Pair(a, b) == Pair(c, d)
    ensures a == c && b == d
  {
    WordIsPrefixFree(a, c, 4, LittleEndian(b, 4), LittleEndian(d, 4));
    WordIsPrefixFree(b, d, 4, [], []);
  }

  lemma PayloadIsInjective(c: DefinitionCommand, d: DefinitionCommand)
    requires WellFormed(c) && WellFormed(d) && Tag(c) == Tag(d) && Payload(c) == Payload(d)
    ensures c == d
  {
    assert Payload(c) + [] == Payload(d) + [];
    match c
    case AddTerminal =>
    case AddNode =>
    case AddParameter(constraints) => ConstraintPayload.EncodingIsPrefixFree(constraints, d.constraints, [], []);
    case AddElement(element) => ElementPayload.EncodingIsPrefixFree(element, d.element, [], []);
    case AddVoltageObserver(a, b) => PairIsInjective(a, b, d.positive, d.negative);
    case AddChildObserver(a, b) => PairIsInjective(a, b, d.child, d.observer);
  }

  lemma CommandsAreFaithful()
    ensures Faithful(FrameOf, WellFormed)
  {
    forall c, d | WellFormed(c) && WellFormed(d) && FrameOf(c) == FrameOf(d) ensures c == d {
      PayloadIsInjective(c, d);
    }
    forall c | WellFormed(c) ensures FrameOf(c).Fits() {
      if c.AddParameter? {
        ConstraintPayload.EncodedLength(c.constraints);
      }
    }
  }

  // ----- Faults -----

  ghost predicate ConstraintsLeaveRest(
      payload: seq<Byte>, constraints: ConstraintPayload.WireConstraints, rest: seq<Byte>) {
    ConstraintPayload.WellFormed(constraints) && rest != [] && payload == ConstraintPayload.Encode(constraints) + rest
  }

  ghost predicate ElementLeavesRest(payload: seq<Byte>, element: ElementPayload.Element, rest: seq<Byte>) {
    ElementPayload.WellFormed(element) && rest != [] && payload == ElementPayload.Encode(element) + rest
  }

  /** Why a payload is no command of this tag: it is malformed, or bytes are left over. */
  ghost predicate PayloadFault<E>(
      tag: nat, payload: seq<Byte>, commandOffset: nat, offset: nat, index: nat, error: WireError<E>) {
    var wrongLength := error == ErrorAt(InvalidCommandLength, index, commandOffset);
    if tag == ADD_TERMINAL || tag == ADD_NODE then payload != [] && wrongLength
    else if tag == ADD_PARAMETER then
      || ConstraintPayload.Fault(payload, offset, index, error)
      || (wrongLength && exists constraints, rest :: ConstraintsLeaveRest(payload, constraints, rest))
    else if tag == ADD_ELEMENT then
      || ElementPayload.Fault(payload, offset, index, error)
      || (wrongLength && exists element, rest :: ElementLeavesRest(payload, element, rest))
    else if tag == ADD_VOLTAGE_OBSERVER || tag == ADD_CHILD_OBSERVER then
      || (|payload| < 8 && error == ErrorAt(TruncatedInput, index, offset + |payload|))
      || (|payload| > 8 && wrongLength)
    else error == ErrorAt(UnknownCommand, index, commandOffset)
  }

  /** Why no well-formed command begins `rest`, which starts at offset `at`. */
  ghost predicate CommandFault<E>(rest: seq<Byte>, at: nat, index: nat, error: WireError<E>) {
    if |rest| < 6 || |rest| < 6 + LengthOf(rest) then error == ErrorAt(TruncatedInput, index, at + |rest|)
    else PayloadFault(TagOf(rest), rest[6..6 + LengthOf(rest)], at, at + 6, index, error)
  }

  lemma PayloadIsNotFaulty<E>(
      command: DefinitionCommand, commandOffset: nat, offset: nat, index: nat, error: WireError<E>)
    requires WellFormed(command)
    ensures !PayloadFault(Tag(command), Payload(command), commandOffset, offset, index, error)
  {
    var payload := Payload(command);
    assert payload + [] == payload;
    if command.AddParameter? {
      ConstraintPayload.EncodingIsNotFaulty(payload, command.constraints, [], offset, index, error);
      forall constraints, rest | ConstraintsLeaveRest(payload, constraints, rest) ensures false {
        ConstraintPayload.EncodingIsPrefixFree(constraints, command.constraints, rest, []);
      }
    } else if command.AddElement? {
      ElementPayload.EncodingIsNotFaulty(payload, command.element, [], offset, index, error);
      forall element, rest | ElementLeavesRest(payload, element, rest) ensures false {
        ElementPayload.EncodingIsPrefixFree(element, command.element, rest, []);
      }
    }
  }

  lemma CommandIsNotFaulty<E>(
      rest: seq<Byte>, at: nat, index: nat, error: WireError<E>, command: DefinitionCommand, tail: seq<Byte>)
    requires WellFormed(command) && rest == FrameOf(command).Encode() + tail
    ensures !CommandFault(rest, at, index, error)
  {
    WordLimits();
    CommandsAreFaithful();
    assert FrameOf(command).Fits();
    var payload := Payload(command);
    FrameAppends(Tag(command), payload, tail);
    FrameStart(rest, Tag(command), |payload|, payload + tail);
    assert rest[6..6 + |payload|] == rest[6..][..|payload|] == payload;
    PayloadIsNotFaulty(command, at, at + 6, index, error);
  }

  lemma CommandFaultExcludes<E(!new)>()
    ensures Excludes<DefinitionCommand, E>(FrameOf, WellFormed, CommandFault)
  {
    forall rest, at, index, error: WireError<E>, command, tail
      | WellFormed(command) && rest == FrameOf(command).Encode() + tail
      ensures !CommandFault(rest, at, index, error)
    {
      CommandIsNotFaulty(rest, at, index, error, command, tail);
    }
  }

  // ----- Decoding -----

  method DecodeParameter<E>(payload: seq<Byte>, index: nat, commandOffset: nat, payloadOffset: nat)
    returns (command: Result<DefinitionCommand, WireError<E>>)
    ensures command.Ok? ==>
      WellFormed(command.value) && Tag(command.value) == ADD_PARAMETER && Payload(command.value) == payload
    ensures command.Err? ==> PayloadFault(ADD_PARAMETER, payload, commandOffset, payloadOffset, index, command.error)
  {
    var decoder := new Decoder(payload, payloadOffset);
    assert decoder.Rest() == payload;
    var constraints :- ConstraintPayload.DecodeConstraints(decoder, index);
    if !decoder.IsEmpty() {
      assert ConstraintsLeaveRest(payload, constraints, decoder.Rest());
      return Err(ErrorAt(InvalidCommandLength, index, commandOffset));
    }
    assert decoder.Rest() == [];
    return Ok(AddParameter(constraints));
  }

  method DecodeElementCommand<E>(payload: seq<Byte>, index: nat, commandOffset: nat, payloadOffset: nat)
    returns (command: Result<DefinitionCommand, WireError<E>>)
    requires |payload| < U32_LIMIT
    ensures command.Ok? ==>
      WellFormed(command.value) && Tag(command.value) == ADD_ELEMENT && Payload(command.value) == payload
    ensures command.Err? ==> PayloadFault(ADD_ELEMENT, payload, commandOffset, payloadOffset, index, command.error)
  {
    var decoder := new Decoder(payload, payloadOffset);
    assert decoder.Rest() == payload;
    var element :- ElementPayload.DecodeElement(decoder, index);
    if !decoder.IsEmpty() {
      assert ElementLeavesRest(payload, element, decoder.Rest());
      return Err(ErrorAt(InvalidCommandLength, index, commandOffset));
    }
    assert decoder.Rest() == [];
    return Ok(AddElement(element));
  }

  method DecodePair<E>(payload: seq<Byte>, index: nat, commandOffset: nat, payloadOffset: nat)
    returns (pair: Result<(nat, nat), WireError<E>>)
    ensures pair.Ok? ==>
      pair.value.0 < Power256(4) && pair.value.1 < Power256(4) && Pair(pair.value.0, pair.value.1) == payload
    ensures pair.Err? ==>
      || (|payload| < 8 && pair.error == ErrorAt(TruncatedInput, index, payloadOffset + |payload|))
      || (|payload| > 8 && pair.error == ErrorAt(InvalidCommandLength, index, commandOffset))
  {
    var decoder := new Decoder(payload, payloadOffset);
    assert decoder.Rest() == payload;
    var first :- DecodeWord(decoder, 4, index);
    var second :- DecodeWord(decoder, 4, index);
    if !decoder.IsEmpty() {
      return Err(ErrorAt(InvalidCommandLength, index, commandOffset));
    }
    assert decoder.Rest() == [];
    return Ok((first, second));
  }

  /** Ok of the one well-formed command the tag and payload spell, or the fault that rules it out. */
  method DecodeCommand<E>(tag: nat, payload: seq<Byte>, index: nat, commandOffset: nat, payloadOffset: nat)
    returns (command: Result<DefinitionCommand, WireError<E>>)
    requires |payload| < U32_LIMIT
    ensures command.Ok? ==> WellFormed(command.value) && Tag(command.value) == tag && Payload(command.value) == payload
    ensures command.Err? ==> PayloadFault(tag, payload, commandOffset, payloadOffset, index, command.error)
  {
    if tag == ADD_TERMINAL || tag == ADD_NODE {
      if payload != [] {
        return Err(ErrorAt(InvalidCommandLength, index, commandOffset));
      }
      return Ok(if tag == ADD_TERMINAL then AddTerminal else AddNode);
    } else if tag == ADD_PARAMETER {
      command := DecodeParameter(payload, index, commandOffset, payloadOffset);
    } else if tag == ADD_ELEMENT {
      command := DecodeElementCommand(payload, index, commandOffset, payloadOffset);
    } else if tag == ADD_VOLTAGE_OBSERVER {
      var pair :- DecodePair(payload, index, commandOffset, payloadOffset);
      return Ok(AddVoltageObserver(pair.0, pair.1));
    } else if tag == ADD_CHILD_OBSERVER {
      var pair :- DecodePair(payload, index, commandOffset, payloadOffset);
      return Ok(AddChildObserver(pair.0, pair.1));
    } else {
      return Err(ErrorAt(UnknownCommand, index, commandOffset));
    }
  }

  /** One turn of the command loop up to the builder call. */
  method NextCommand<E>(decoder: Decoder, index: nat) returns (command: Result<DefinitionCommand, WireError<E>>)
    requires decoder.Valid()
    modifies decoder`position
    ensures decoder.Valid()
    ensures command.Ok? ==> WellFormed(command.value)
    ensures command.Ok? ==> old(decoder.Rest()) == FrameOf(command.value).Encode() + decoder.Rest()
    ensures command.Err? ==> CommandFault(old(decoder.Rest()), old(decoder.Offset()), index, command.error)
  {
    WordLimits();
    ghost var rest := decoder.Rest();
    var commandOffset := decoder.Offset();
    var start :- ReadFrameStart(decoder, index);
    var (tag, length) := start;
    var payloadOffset := decoder.Offset();
    var payload := decoder.ReadBytes(length);
    if payload.Err? {
      return Err(ErrorAt(TruncatedInput, index, payload.error));
    }
    assert rest[6..6 + length] == rest[6..][..length] == payload.value;
    command := DecodeCommand(tag, payload.value, index, commandOffset, payloadOffset);
    if command.Ok? {
      FrameAppends(tag, payload.value, decoder.Rest());
    }
  }

  // ----- Buffers -----

  /** The input encodes a list of well-formed commands that the builder takes and can build from. */
  ghost predicate Defines<S, D, E>(
      input: seq<Byte>, apply: (S, DefinitionCommand) -> (S, Option<E>), initial: S, build: S -> Result<D, E>,
      commands: seq<DefinitionCommand>) {
    && Accepts(MAGIC, FrameOf, WellFormed, input, apply, initial, commands)
    && build(After(apply, initial, commands)).Ok?
  }

  /** Every way a buffer is refused. */
  ghost predicate Refused<S(!new), D, E>(
      input: seq<Byte>, done: seq<DefinitionCommand>, apply: (S, DefinitionCommand) -> (S, Option<E>), initial: S,
      build: S -> Result<D, E>, error: WireError<E>) {
    || HeaderFault(input, MAGIC, error)
    || (exists count: nat, rest: seq<Byte>, builder: S ::
          Stopped(MAGIC, FrameOf, WellFormed, CommandFault, input, count, done, rest, apply, initial, builder, error))
    || (&& Accepts(MAGIC, FrameOf, WellFormed, input, apply, initial, done)
        && build(After(apply, initial, done)).Err?
        && error == ErrorAt(Rejected(build(After(apply, initial, done)).error), |done|, |input|))
  }

  lemma RefusedDefinesNothing<S(!new), D, E(!new)>(
      input: seq<Byte>, done: seq<DefinitionCommand>, apply: (S, DefinitionCommand) -> (S, Option<E>), initial: S,
      build: S -> Result<D, E>, error: WireError<E>, commands: seq<DefinitionCommand>)
    requires Refused(input, done, apply, initial, build, error) && Encodable(WellFormed, done)
    ensures !Defines(input, apply, initial, build, commands)
  {
    CommandsAreFaithful();
    if HeaderFault(input, MAGIC, error) {
      HeaderFaultRejects(input, MAGIC, error, |commands|);
    } else if Accepts(MAGIC, FrameOf, WellFormed, input, apply, initial, done)
              && build(After(apply, initial, done)).Err? {
      if Accepts(MAGIC, FrameOf, WellFormed, input, apply, initial, commands) {
        BufferIsInjective(MAGIC, FrameOf, WellFormed, done, commands);
      }
    } else {
      CommandFaultExcludes<E>();
      var count: nat, rest: seq<Byte>, builder: S :|
        Stopped(MAGIC, FrameOf, WellFormed, CommandFault, input, count, done, rest, apply, initial, builder, error);
      StoppedRejects(
        MAGIC, FrameOf, WellFormed, CommandFault, input, count, done, rest, apply, initial, builder, error, commands);
    }
  }

  /** One turn of the command loop: decode the next command and hand it to the builder. */
  method BuildNext<S, E>(
      decoder: Decoder, commandIndex: nat, apply: (S, DefinitionCommand) -> (S, Option<E>), state: S,
      ghost count: nat, ghost initial: S, ghost done: seq<DefinitionCommand>)
    returns (result: Result<DefinitionCommand, WireError<E>>, builder: S)
    requires decoder.Valid() && decoder.baseOffset == 0 && |done| == commandIndex < count < U32_LIMIT
    requires Decoded(decoder.input, MAGIC, FrameOf, count, done, decoder.Rest())
    requires Runs(apply, initial, done) && state == After(apply, initial, done)
    modifies decoder`position
    ensures decoder.Valid()
    ensures result.Ok? ==>
      && WellFormed(result.value)
      && Decoded(decoder.input, MAGIC, FrameOf, count, done + [result.value], decoder.Rest())
      && Runs(apply, initial, done + [result.value]) && builder == After(apply, initial, done + [result.value])
    ensures result.Err? ==>
      Stopped(MAGIC, FrameOf, WellFormed, CommandFault, decoder.input, count, done, old(decoder.Rest()), apply, initial,
              builder, result.error)
  {
    var commandOffset := decoder.Offset();
    ghost var before := decoder.Rest();
    builder := state;
    result := NextCommand(decoder, commandIndex);
    if result.Err? {
      return;
    }
    var (next, rejection) := apply(builder, result.value);
    builder := next;
    if rejection.Some? {
      StopsAtRejection(MAGIC, FrameOf, WellFormed, CommandFault, decoder.input, count, done, before, apply, initial,
                       rejection.value, result.value, decoder.Rest());
      return Err(ErrorAt(Rejected(rejection.value), commandIndex, commandOffset)), builder;
    }
    DecodedNext(decoder.input, MAGIC, FrameOf, count, done, result.value, before, decoder.Rest());
    RunsNext(apply, initial, done, result.value);
  }

  /** The command loop and the check that nothing follows it. */
  method BuildCommands<S, E>(
      decoder: Decoder, count: nat, apply: (S, DefinitionCommand) -> (S, Option<E>), initial: S)
    returns (result: Result<(), WireError<E>>, builder: S, ghost done: seq<DefinitionCommand>)
    requires decoder.Valid() && decoder.baseOffset == 0 && count < U32_LIMIT
    requires Decoded(decoder.input, MAGIC, FrameOf, count, [], decoder.Rest())
    modifies decoder`position
    ensures decoder.Valid() && Encodable(WellFormed, done) && Runs(apply, initial, done)
    ensures result.Ok? ==>
      && decoder.input == EncodeBuffer(MAGIC, FrameOf, done) && builder == After(apply, initial, done)
      && |done| == count && decoder.position == |decoder.input|
    ensures result.Err? ==> exists rest: seq<Byte> ::
      Stopped(MAGIC, FrameOf, WellFormed, CommandFault, decoder.input, count, done, rest, apply, initial, builder,
              result.error)
  {
    builder, done := initial, [];
    for commandIndex := 0 to count
      invariant decoder.Valid()
      invariant |done| == commandIndex && Encodable(WellFormed, done)
      invariant Runs(apply, initial, done) && builder == After(apply, initial, done)
      invariant Decoded(decoder.input, MAGIC, FrameOf, count, done, decoder.Rest())
    {
      var command: Result<DefinitionCommand, WireError<E>>;
      command, builder := BuildNext(decoder, commandIndex, apply, builder, count, initial, done);
      if command.Err? {
        return Err(command.error), builder, done;
      }
      done := done + [command.value];
    }
    if !decoder.IsEmpty() {
      result := Err(ErrorAt(TrailingBytes, count, decoder.Offset()));
      assert Stopped(MAGIC, FrameOf, WellFormed, CommandFault, decoder.input, count, done, decoder.Rest(), apply,
                     initial, builder, result.error);
      return;
    }
    assert decoder.Rest() == [];
    return Ok(()), builder, done;
  }

  /**
   * Succeeds exactly when the input encodes a list of well-formed commands the builder takes and builds a definition
   * from; a refusal names the failing command, where it is and why.
   */
  method DecodeBuffer<S(!new), D, E(!new)>(
      input: seq<Byte>, apply: (S, DefinitionCommand) -> (S, Option<E>), initial: S, build: S -> Result<D, E>)
    returns (result: Result<D, WireError<E>>, ghost done: seq<DefinitionCommand>)
    ensures result.Ok? <==> exists commands :: Defines(input, apply, initial, build, commands)
    ensures result.Ok? ==>
      Defines(input, apply, initial, build, done) && build(After(apply, initial, done)) == Ok(result.value)
    ensures result.Err? ==> Refused(input, done, apply, initial, build, result.error) && Encodable(WellFormed, done)
    ensures Runs(apply, initial, done)
  {
    done := [];
    var decoder := new Decoder(input, 0);
    var header := ReadHeader(decoder, MAGIC);
    if header.Err? {
      result := Err(header.error);
    } else {
      DecodedStart(input, MAGIC, FrameOf, header.value, decoder.Rest());
      var outcome: Result<(), WireError<E>>;
      var builder: S;
      outcome, builder, done := BuildCommands(decoder, header.value, apply, initial);
      if outcome.Err? {
        result := Err(outcome.error);
      } else {
        var built := build(builder);
        result := if built.Ok? then Ok(built.value)
                  else Err(ErrorAt(Rejected(built.error), header.value, decoder.Offset()));
      }
    }
    if result.Ok? {
      assert Defines(input, apply, initial, build, done);
    } else {
      forall commands: seq<DefinitionCommand> ensures !Defines(input, apply, initial, build, commands) {
        RefusedDefinesNothing(input, done, apply, initial, build, result.error, commands);
      }
    }
  }
}
