// World command buffers: decoding, validation and application one command at a time
// (hynergy-protocol/src/world.rs). The world behind `apply` is an arbitrary state.
module WorldProtocol {
  import opened Support
  import opened ByteCodec
  import opened Framing

  // The bytes of "HYWC".
  const MAGIC: seq<Byte> := [0x48, 0x59, 0x57, 0x43]

  /** Identifiers are non-zero 32-bit words; terminals and parameters are any word; values are f64 bit patterns. */
  datatype WorldCommand =
    | AddWire(wire: nat)
    | RemoveWire(wire: nat)
    | ConnectWires(wireA: nat, wireB: nat)
    | DisconnectWires(wireA: nat, wireB: nat)
    | AddDevice(device: nat, definition: nat)
    | RemoveDevice(device: nat)
    | AttachTerminal(wire: nat, device: nat, terminal: nat)
    | DetachTerminal(wire: nat, device: nat, terminal: nat)
    | SetDeviceParameter(device: nat, parameter: nat, value: nat)

  predicate IsId(id: nat) {
    0 < id < Power256(4)
  }

  predicate IsWord(word: nat) {
    word < Power256(4)
  }

  predicate WellFormed(command: WorldCommand) {
    match command
    case AddWire(wire) => IsId(wire)
    case RemoveWire(wire) => IsId(wire)
    case ConnectWires(a, b) => IsId(a) && IsId(b)
    case DisconnectWires(a, b) => IsId(a) && IsId(b)
    case AddDevice(device, definition) => IsId(device) && IsId(definition)
    case RemoveDevice(device) => IsId(device)
    case AttachTerminal(wire, device, terminal) => IsId(wire) && IsId(device) && IsWord(terminal)
    case DetachTerminal(wire, device, terminal) => IsId(wire) && IsId(device) && IsWord(terminal)
    case SetDeviceParameter(device, parameter, value) =>
      IsId(device) && IsWord(parameter) && value < Power256(8)
  }

  function Tag(command: WorldCommand): nat {
    match command
    case AddWire(_) => 1
    case RemoveWire(_) => 2
    case ConnectWires(_, _) => 3
    case DisconnectWires(_, _) => 4
    case AddDevice(_, _) => 5
    case RemoveDevice(_) => 6
    case AttachTerminal(_, _, _) => 7
    case DetachTerminal(_, _, _) => 8
    case SetDeviceParameter(_, _, _) => 9
  }

  /** One word followed by more bytes. */
  function Word(word: nat, tail: seq<Byte>): (bytes: seq<Byte>)
    ensures |bytes| == 4 + |tail|
  {
    LittleEndian(word, 4) + tail
  }

  function Payload(command: WorldCommand): seq<Byte> {
    match command
    case AddWire(wire) => Word(wire, [])
    case RemoveWire(wire) => Word(wire, [])
    case ConnectWires(a, b) => Word(a, Word(b, []))
    case DisconnectWires(a, b) => Word(a, Word(b, []))
    case AddDevice(device, definition) => Word(device, Word(definition, []))
    case RemoveDevice(device) => Word(device, [])
    case AttachTerminal(wire, device, terminal) => Word(wire, Word(device, Word(terminal, [])))
    case DetachTerminal(wire, device, terminal) => Word(wire, Word(device, Word(terminal, [])))
    case SetDeviceParameter(device, parameter, value) => Word(device, Word(parameter, LittleEndian(value, 8)))
  }

  function FrameOf(command: WorldCommand): Frame {
    Frame(Tag(command), Payload(command))
  }

  function ExpectedLength(tag: nat): Option<nat> {
    if tag == 1 || tag == 2 || tag == 6 then Some(4)
    else if tag == 3 || tag == 4 || tag == 5 then Some(8)
    else if tag == 7 || tag == 8 then Some(12)
    else if tag == 9 then Some(16)
    else None
  }

  /** How many identifiers a command's payload begins with. */
  function IdCount(tag: nat): nat {
    if tag == 1 || tag == 2 || tag == 6 || tag == 9 then 1 else 2
  }

  lemma PayloadLength(command: WorldCommand)
    ensures ExpectedLength(Tag(command)) == Some(|Payload(command)|)
  {
  }

  lemma WordIsInjective(x: nat, y: nat, s: seq<Byte>, t: seq<Byte>)
    requires IsWord(x) && IsWord(y) && Word(x, s) == Word(y, t)
    ensures x == y && s == t
  {
    WordIsPrefixFree(x, y, 4, s, t);
  }

  lemma PayloadIsInjective(c: WorldCommand, d: WorldCommand)
    requires WellFormed(c) && WellFormed(d) && Tag(c) == Tag(d) && Payload(c) == Payload(d)
    ensures c == d
  {
    match c
    case AddWire(w) => WordIsInjective(w, d.wire, [], []);
    case RemoveWire(w) => WordIsInjective(w, d.wire, [], []);
    case RemoveDevice(w) => WordIsInjective(w, d.device, [], []);
    case ConnectWires(a, b) =>
      WordIsInjective(a, d.wireA, Word(b, []), Word(d.wireB, []));
      WordIsInjective(b, d.wireB, [], []);
    case DisconnectWires(a, b) =>
      WordIsInjective(a, d.wireA, Word(b, []), Word(d.wireB, []));
      WordIsInjective(b, d.wireB, [], []);
    case AddDevice(a, b) =>
      WordIsInjective(a, d.device, Word(b, []), Word(d.definition, []));
      WordIsInjective(b, d.definition, [], []);
    case AttachTerminal(a, b, t) =>
      WordIsInjective(a, d.wire, Word(b, Word(t, [])), Word(d.device, Word(d.terminal, [])));
      WordIsInjective(b, d.device, Word(t, []), Word(d.terminal, []));
      WordIsInjective(t, d.terminal, [], []);
    case DetachTerminal(a, b, t) =>
      WordIsInjective(a, d.wire, Word(b, Word(t, [])), Word(d.device, Word(d.terminal, [])));
      WordIsInjective(b, d.device, Word(t, []), Word(d.terminal, []));
      WordIsInjective(t, d.terminal, [], []);
    case SetDeviceParameter(a, p, v) =>
      WordIsInjective(a, d.device, Word(p, LittleEndian(v, 8)), Word(d.parameter, LittleEndian(d.value, 8)));
      WordIsInjective(p, d.parameter, LittleEndian(v, 8), LittleEndian(d.value, 8));
      WordIsPrefixFree(v, d.value, 8, [], []);
  }

  lemma CommandsAreFaithful()
    ensures Faithful(FrameOf, WellFormed)
  {
    forall c, d | WellFormed(c) && WellFormed(d) && FrameOf(c) == FrameOf(d) ensures c == d {
      PayloadIsInjective(c, d);
    }
    forall c | WellFormed(c) ensures FrameOf(c).Fits() {
      PayloadLength(c);
    }
  }

  // ----- Payloads -----

  ghost predicate ZeroWord(payload: seq<Byte>, at: nat) {
    at + 4 <= |payload| && payload[at..at + 4] == LittleEndian(0, 4)
  }

  /**
   * The first thing wrong with a payload that should hold `size` bytes and begin with `ids` identifiers: it is too
   * short, or an identifier is zero; the error names the place.
   */
  ghost predicate FieldFault<E>(
      ids: nat, size: nat, payload: seq<Byte>, offset: nat, index: nat, error: WireError<E>) {
    || (|payload| < size && error == ErrorAt(TruncatedInput, index, offset + |payload|))
    || (ZeroWord(payload, 0) && error == ErrorAt(InvalidId, index, offset))
    || (ids == 2 && !ZeroWord(payload, 0) && ZeroWord(payload, 4) && error == ErrorAt(InvalidId, index, offset + 4))
  }

  /** Why no well-formed command of this tag begins the payload. */
  ghost predicate PayloadFault<E>(
      tag: nat, payload: seq<Byte>, commandOffset: nat, offset: nat, index: nat, error: WireError<E>) {
    match ExpectedLength(tag)
    case None => error == ErrorAt(UnknownCommand, index, commandOffset)
    case Some(length) => FieldFault(IdCount(tag), length, payload, offset, index, error)
  }

  lemma IdIsNotZeroWord(id: nat)
    requires IsId(id)
    ensures LittleEndian(id, 4) != LittleEndian(0, 4)
  {
    WordReadsBack(id, 4);
    WordReadsBack(0, 4);
  }

  /** The identifiers of a well-formed command's payload are not zero. */
  lemma PayloadIds(command: WorldCommand, payload: seq<Byte>)
    requires WellFormed(command) && Payload(command) <= payload
    ensures !ZeroWord(payload, 0)
    ensures IdCount(Tag(command)) == 2 ==> !ZeroWord(payload, 4)
  {
    match command
    case AddWire(w) => FirstIds(payload, w, []);
    case RemoveWire(w) => FirstIds(payload, w, []);
    case RemoveDevice(w) => FirstIds(payload, w, []);
    case SetDeviceParameter(d, p, v) => FirstIds(payload, d, Word(p, LittleEndian(v, 8)));
    case ConnectWires(a, b) => FirstIds(payload, a, Word(b, [])); SecondIds(payload, a, b, []);
    case DisconnectWires(a, b) => FirstIds(payload, a, Word(b, [])); SecondIds(payload, a, b, []);
    case AddDevice(a, b) => FirstIds(payload, a, Word(b, [])); SecondIds(payload, a, b, []);
    case AttachTerminal(a, b, t) => FirstIds(payload, a, Word(b, Word(t, []))); SecondIds(payload, a, b, Word(t, []));
    case DetachTerminal(a, b, t) => FirstIds(payload, a, Word(b, Word(t, []))); SecondIds(payload, a, b, Word(t, []));
  }

  lemma FirstIds(payload: seq<Byte>, id: nat, tail: seq<Byte>)
    requires IsId(id) && Word(id, tail) <= payload
    ensures !ZeroWord(payload, 0)
  {
    IdIsNotZeroWord(id);
    assert payload[0..4] == Word(id, tail)[..4] == LittleEndian(id, 4);
  }

  lemma SecondIds(payload: seq<Byte>, first: nat, id: nat, tail: seq<Byte>)
    requires IsId(id) && Word(first, Word(id, tail)) <= payload
    ensures !ZeroWord(payload, 4)
  {
    IdIsNotZeroWord(id);
    assert payload[4..8] == Word(first, Word(id, tail))[4..8] == LittleEndian(id, 4);
  }

  lemma WordAppends(word: nat, middle: seq<Byte>, tail: seq<Byte>)
    ensures Word(word, middle) + tail == Word(word, middle + tail)
  {
  }

  method DecodeNonZeroId<E>(decoder: Decoder, index: nat) returns (id: Result<nat, WireError<E>>)
    requires decoder.Valid()
    modifies decoder`position
    ensures decoder.Valid()
    ensures id.Ok? ==> IsId(id.value) && old(decoder.Rest()) == Word(id.value, []) + decoder.Rest()
    ensures id.Ok? ==> decoder.position == old(decoder.position) + 4
    ensures id.Err? ==> FieldFault(1, 4, old(decoder.Rest()), old(decoder.Offset()), index, id.error)
  {
    var offset := decoder.Offset();
    ghost var rest := decoder.Rest();
    var word := decoder.ReadWord(4);
    if word.Err? {
      return Err(ErrorAt(TruncatedInput, index, word.error));
    }
    WordAppends(word.value, [], decoder.Rest());
    if word.value == 0 {
      assert rest[0..4] == LittleEndian(0, 4);
      return Err(ErrorAt(InvalidId, index, offset));
    }
    return Ok(word.value);
  }

  /** Two identifiers in a row, as five of the nine commands begin. */
  method DecodeIdPair<E>(decoder: Decoder, index: nat) returns (ids: Result<(nat, nat), WireError<E>>)
    requires decoder.Valid()
    modifies decoder`position
    ensures decoder.Valid()
    ensures ids.Ok? ==> IsId(ids.value.0) && IsId(ids.value.1)
    ensures ids.Ok? ==> old(decoder.Rest()) == Word(ids.value.0, Word(ids.value.1, [])) + decoder.Rest()
    ensures ids.Ok? ==> decoder.position == old(decoder.position) + 8
    ensures ids.Err? ==> FieldFault(2, 8, old(decoder.Rest()), old(decoder.Offset()), index, ids.error)
  {
    ghost var rest := decoder.Rest();
    var first :- DecodeNonZeroId(decoder, index);
    ghost var afterFirst := decoder.Rest();
    FirstIds(rest, first, []);
    assert |afterFirst| >= 4 ==> rest[4..8] == afterFirst[0..4];
    var second :- DecodeNonZeroId(decoder, index);
    WordAppends(first, [], afterFirst);
    WordAppends(first, Word(second, []), decoder.Rest());
    return Ok((first, second));
  }

  method DecodeTerminal<E>(decoder: Decoder, index: nat) returns (parts: Result<(nat, nat, nat), WireError<E>>)
    requires decoder.Valid()
    modifies decoder`position
    ensures decoder.Valid()
    ensures parts.Ok? ==> IsId(parts.value.0) && IsId(parts.value.1) && IsWord(parts.value.2)
    ensures parts.Ok? ==>
      old(decoder.Rest()) == Word(parts.value.0, Word(parts.value.1, Word(parts.value.2, []))) + decoder.Rest()
    ensures parts.Err? ==> FieldFault(2, 12, old(decoder.Rest()), old(decoder.Offset()), index, parts.error)
  {
    var ids :- DecodeIdPair(decoder, index);
    ghost var afterIds := decoder.Rest();
    var terminal :- DecodeWord(decoder, 4, index);
    ghost var tail := decoder.Rest();
    WordAppends(ids.0, Word(ids.1, []), afterIds);
    WordAppends(ids.1, [], afterIds);
    assert [] + afterIds == afterIds && [] + tail == tail;
    WordAppends(terminal, [], tail);
    WordAppends(ids.1, Word(terminal, []), tail);
    WordAppends(ids.0, Word(ids.1, Word(terminal, [])), tail);
    return Ok((ids.0, ids.1, terminal));
  }

  method DecodeSetting<E>(decoder: Decoder, index: nat) returns (parts: Result<(nat, nat, nat), WireError<E>>)
    requires decoder.Valid()
    modifies decoder`position
    ensures decoder.Valid()
    ensures parts.Ok? ==> IsId(parts.value.0) && IsWord(parts.value.1) && parts.value.2 < Power256(8)
    ensures parts.Ok? ==>
      old(decoder.Rest())
      == Word(parts.value.0, Word(parts.value.1, LittleEndian(parts.value.2, 8))) + decoder.Rest()
    ensures parts.Err? ==> FieldFault(1, 16, old(decoder.Rest()), old(decoder.Offset()), index, parts.error)
  {
    var device :- DecodeNonZeroId(decoder, index);
    ghost var afterDevice := decoder.Rest();
    var parameter :- DecodeWord(decoder, 4, index);
    ghost var afterParameter := decoder.Rest();
    var value :- DecodeWord(decoder, 8, index);
    ghost var tail := decoder.Rest();
    WordAppends(device, [], afterDevice);
    assert [] + afterDevice == afterDevice;
    WordAppends(parameter, LittleEndian(value, 8), tail);
    WordAppends(device, Word(parameter, LittleEndian(value, 8)), tail);
    return Ok((device, parameter, value));
  }

  /** Ok of the one well-formed command of this tag the payload begins with, or the fault that rules it out. */
  method DecodeWorldCommand<E>(tag: nat, decoder: Decoder, index: nat, commandOffset: nat)
    returns (command: Result<WorldCommand, WireError<E>>)
    requires decoder.Valid()
    modifies decoder`position
    ensures decoder.Valid()
    ensures command.Ok? ==> WellFormed(command.value) && Tag(command.value) == tag
    ensures command.Ok? ==> old(decoder.Rest()) == Payload(command.value) + decoder.Rest()
    ensures command.Err? ==>
      PayloadFault(tag, old(decoder.Rest()), commandOffset, old(decoder.Offset()), index, command.error)
  {
    match tag {
      case 1 =>
        var wire :- DecodeNonZeroId(decoder, index);
        return Ok(AddWire(wire));
      case 2 =>
        var wire :- DecodeNonZeroId(decoder, index);
        return Ok(RemoveWire(wire));
      case 3 =>
        var wires :- DecodeIdPair(decoder, index);
        return Ok(ConnectWires(wires.0, wires.1));
      case 4 =>
        var wires :- DecodeIdPair(decoder, index);
        return Ok(DisconnectWires(wires.0, wires.1));
      case 5 =>
        var ids :- DecodeIdPair(decoder, index);
        return Ok(AddDevice(ids.0, ids.1));
      case 6 =>
        var device :- DecodeNonZeroId(decoder, index);
        return Ok(RemoveDevice(device));
      case 7 =>
        var parts :- DecodeTerminal(decoder, index);
        return Ok(AttachTerminal(parts.0, parts.1, parts.2));
      case 8 =>
        var parts :- DecodeTerminal(decoder, index);
        return Ok(DetachTerminal(parts.0, parts.1, parts.2));
      case 9 =>
        var parts :- DecodeSetting(decoder, index);
        return Ok(SetDeviceParameter(parts.0, parts.1, parts.2));
      case _ =>
        return Err(ErrorAt(UnknownCommand, index, commandOffset));
    }
  }

  // ----- Framed commands -----

  /** Why no well-formed command begins at `at`, what is left of the input being `rest`. */
  ghost predicate CommandFault<E>(rest: seq<Byte>, at: nat, index: nat, error: WireError<E>) {
    if |rest| < 6 then error == ErrorAt(TruncatedInput, index, at + |rest|)
    else
      match ExpectedLength(TagOf(rest))
      case None => error == ErrorAt(UnknownCommand, index, at)
      case Some(length) =>
        if LengthOf(rest) != length then error == ErrorAt(InvalidCommandLength, index, at)
        else if |rest| < 6 + length then error == ErrorAt(TruncatedInput, index, at + |rest|)
        else PayloadFault(TagOf(rest), rest[6..6 + length], at, at + 6, index, error)
  }

  /** No well-formed command is taken for a faulty one. */
  lemma CommandIsNotFaulty<E>(
      rest: seq<Byte>, at: nat, index: nat, error: WireError<E>, command: WorldCommand, tail: seq<Byte>)
    requires WellFormed(command) && rest == FrameOf(command).Encode() + tail
    ensures !CommandFault(rest, at, index, error)
  {
    WordLimits();
    var payload := Payload(command);
    PayloadLength(command);
    FrameAppends(Tag(command), payload, tail);
    FrameStart(rest, Tag(command), |payload|, payload + tail);
    assert rest[6..6 + |payload|] == rest[6..][..|payload|] == payload;
    PayloadIds(command, payload);
  }

  /** One turn of the command loop up to `apply`. */
  method NextCommand<E>(decoder: Decoder, index: nat) returns (command: Result<WorldCommand, WireError<E>>)
    requires decoder.Valid()
    modifies decoder`position
    ensures decoder.Valid()
    ensures command.Ok? ==> WellFormed(command.value)
    ensures command.Ok? ==> old(decoder.Rest()) == FrameOf(command.value).Encode() + decoder.Rest()
    ensures command.Err? ==> CommandFault(old(decoder.Rest()), old(decoder.Offset()), index, command.error)
  {
    ghost var rest := decoder.Rest();
    var commandOffset := decoder.Offset();
    var start :- ReadFrameStart(decoder, index);
    var (tag, length) := start;
    var expected := ExpectedLength(tag);
    if expected.None? {
      return Err(ErrorAt(UnknownCommand, index, commandOffset));
    }
    if length != expected.value {
      return Err(ErrorAt(InvalidCommandLength, index, commandOffset));
    }

    var payloadOffset := decoder.Offset();
    var payload := decoder.ReadBytes(length);
    if payload.Err? {
      return Err(ErrorAt(TruncatedInput, index, payload.error));
    }
    assert rest[6..6 + length] == rest[6..][..length] == payload.value;
    command := DecodePayload(tag, payload.value, index, commandOffset, payloadOffset);
    if command.Ok? {
      FrameAppends(tag, payload.value, decoder.Rest());
    }
  }

  /** A payload of the expected length holds one command and nothing more, so its emptiness check never fails. */
  method DecodePayload<E>(tag: nat, payload: seq<Byte>, index: nat, commandOffset: nat, payloadOffset: nat)
    returns (command: Result<WorldCommand, WireError<E>>)
    requires ExpectedLength(tag) == Some(|payload|)
    ensures command.Ok? ==> WellFormed(command.value) && Tag(command.value) == tag && Payload(command.value) == payload
    ensures command.Err? ==> PayloadFault(tag, payload, commandOffset, payloadOffset, index, command.error)
  {
    var payloadDecoder := new Decoder(payload, payloadOffset);
    assert payloadDecoder.Rest() == payload;
    command := DecodeWorldCommand(tag, payloadDecoder, index, commandOffset);
    if command.Ok? {
      PayloadLength(command.value);
      if !payloadDecoder.IsEmpty() {
        assert false;
      }
      assert payloadDecoder.Rest() == [];
    }
  }

  // ----- Buffers -----

  lemma CommandFaultExcludes<E(!new)>()
    ensures Excludes<WorldCommand, E>(FrameOf, WellFormed, CommandFault)
  {
    forall rest, at, index, error: WireError<E>, command, tail
      | WellFormed(command) && rest == FrameOf(command).Encode() + tail
      ensures !CommandFault(rest, at, index, error)
    {
      CommandIsNotFaulty(rest, at, index, error, command, tail);
    }
  }

  /** Every way a buffer is refused, with the world it leaves behind. */
  ghost predicate Refused<S, E>(
      input: seq<Byte>, worldExists: bool, done: seq<WorldCommand>,
      apply: (S, WorldCommand) -> (S, Option<E>), initial: S, world: S, error: WireError<E>) {
    || (done == [] && world == initial && HeaderFault(input, MAGIC, error))
    || (done == [] && world == initial && !worldExists && error == WireError(UnknownWorld, NO_COMMAND, NO_COMMAND))
    || (worldExists && exists count: nat, rest: seq<Byte> ::
          Stopped(MAGIC, FrameOf, WellFormed, CommandFault, input, count, done, rest, apply, initial, world, error))
  }

  lemma RefusedIsNotAccepted<S, E(!new)>(
      input: seq<Byte>, worldExists: bool, done: seq<WorldCommand>,
      apply: (S, WorldCommand) -> (S, Option<E>), initial: S, world: S, error: WireError<E>,
      commands: seq<WorldCommand>)
    requires Refused(input, worldExists, done, apply, initial, world, error) && Encodable(WellFormed, done)
    ensures !worldExists || !Accepts(MAGIC, FrameOf, WellFormed, input, apply, initial, commands)
  {
    if HeaderFault(input, MAGIC, error) {
      HeaderFaultRejects(input, MAGIC, error, |commands|);
    } else if worldExists {
      CommandsAreFaithful();
      CommandFaultExcludes<E>();
      var count: nat, rest: seq<Byte> :|
        Stopped(MAGIC, FrameOf, WellFormed, CommandFault, input, count, done, rest, apply, initial, world, error);
      StoppedRejects(
        MAGIC, FrameOf, WellFormed, CommandFault, input, count, done, rest, apply, initial, world, error, commands);
    }
  }

  /** One turn of the command loop: decode the next command and apply it. */
  method ApplyNext<S, E>(
      decoder: Decoder, commandIndex: nat, apply: (S, WorldCommand) -> (S, Option<E>), state: S,
      ghost count: nat, ghost initial: S, ghost done: seq<WorldCommand>)
    returns (result: Result<WorldCommand, WireError<E>>, world: S)
    requires decoder.Valid() && decoder.baseOffset == 0 && |done| == commandIndex < count < U32_LIMIT
    requires Decoded(decoder.input, MAGIC, FrameOf, count, done, decoder.Rest())
    requires Runs(apply, initial, done) && state == After(apply, initial, done)
    modifies decoder`position
    ensures decoder.Valid()
    ensures result.Ok? ==>
      && WellFormed(result.value)
      && Decoded(decoder.input, MAGIC, FrameOf, count, done + [result.value], decoder.Rest())
      && Runs(apply, initial, done + [result.value]) && world == After(apply, initial, done + [result.value])
    ensures result.Err? ==>
      Stopped(MAGIC, FrameOf, WellFormed, CommandFault, decoder.input, count, done, old(decoder.Rest()), apply, initial,
              world, result.error)
  {
    var commandOffset := decoder.Offset();
    ghost var before := decoder.Rest();
    world := state;
    result := NextCommand(decoder, commandIndex);
    if result.Err? {
      return;
    }
    var (next, rejection) := apply(world, result.value);
    world := next;
    if rejection.Some? {
      StopsAtRejection(MAGIC, FrameOf, WellFormed, CommandFault, decoder.input, count, done, before, apply, initial,
                       rejection.value, result.value, decoder.Rest());
      return Err(ErrorAt(Rejected(rejection.value), commandIndex, commandOffset)), world;
    }
    DecodedNext(decoder.input, MAGIC, FrameOf, count, done, result.value, before, decoder.Rest());
    RunsNext(apply, initial, done, result.value);
  }

  /** The command loop and the check that nothing follows it. */
  method ApplyCommands<S, E>(
      decoder: Decoder, count: nat, apply: (S, WorldCommand) -> (S, Option<E>), initial: S)
    returns (result: Result<(), WireError<E>>, world: S, ghost done: seq<WorldCommand>)
    requires decoder.Valid() && decoder.baseOffset == 0 && count < U32_LIMIT
    requires Decoded(decoder.input, MAGIC, FrameOf, count, [], decoder.Rest())
    modifies decoder`position
    ensures Encodable(WellFormed, done) && Runs(apply, initial, done)
    ensures result.Ok? ==>
      decoder.input == EncodeBuffer(MAGIC, FrameOf, done) && world == After(apply, initial, done)
    ensures result.Err? ==> exists rest: seq<Byte> ::
      Stopped(MAGIC, FrameOf, WellFormed, CommandFault, decoder.input, count, done, rest, apply, initial, world,
              result.error)
  {
    world, done := initial, [];
    for commandIndex := 0 to count
      invariant decoder.Valid()
      invariant |done| == commandIndex && Encodable(WellFormed, done)
      invariant Runs(apply, initial, done) && world == After(apply, initial, done)
      invariant Decoded(decoder.input, MAGIC, FrameOf, count, done, decoder.Rest())
    {
      var command: Result<WorldCommand, WireError<E>>;
      command, world := ApplyNext(decoder, commandIndex, apply, world, count, initial, done);
      if command.Err? {
        return Err(command.error), world, done;
      }
      done := done + [command.value];
    }
    if !decoder.IsEmpty() {
      result := Err(ErrorAt(TrailingBytes, count, decoder.Offset()));
      assert Stopped(MAGIC, FrameOf, WellFormed, CommandFault, decoder.input, count, done, decoder.Rest(), apply,
                     initial, world, result.error);
      return;
    }
    assert decoder.Rest() == [];
    return Ok(()), world, done;
  }

  /**
   * Succeeds exactly when the world exists and the input encodes a list of well-formed commands all of which apply;
   * `done` lists the commands applied, and a refusal says which one failed, where and why. If rejected commands change
   * nothing, the world is then that after exactly the commands of `done`.
   */
  method ApplyBuffer<S(!new), E(!new)>(
      input: seq<Byte>, worldExists: bool, apply: (S, WorldCommand) -> (S, Option<E>), initial: S)
    returns (result: Result<(), WireError<E>>, world: S, ghost done: seq<WorldCommand>)
    ensures result.Ok? <==>
      worldExists && exists commands :: Accepts(MAGIC, FrameOf, WellFormed, input, apply, initial, commands)
    ensures result.Ok? ==>
      Accepts(MAGIC, FrameOf, WellFormed, input, apply, initial, done) && world == After(apply, initial, done)
    ensures Encodable(WellFormed, done) && Runs(apply, initial, done)
    ensures result.Err? ==> Refused(input, worldExists, done, apply, initial, world, result.error)
    ensures Atomic(apply) ==> world == After(apply, initial, done)
  {
    var decoder := new Decoder(input, 0);
    var header := ReadHeader(decoder, MAGIC);
    if header.Err? {
      result, world, done := Err(header.error), initial, [];
    } else if !worldExists {
      result, world, done := Err(WireError(UnknownWorld, NO_COMMAND, NO_COMMAND)), initial, [];
    } else {
      DecodedStart(input, MAGIC, FrameOf, header.value, decoder.Rest());
      result, world, done := ApplyCommands(decoder, header.value, apply, initial);
    }
    if result.Ok? {
      assert Accepts(MAGIC, FrameOf, WellFormed, input, apply, initial, done);
    } else {
      forall commands: seq<WorldCommand>
        ensures !worldExists || !Accepts(MAGIC, FrameOf, WellFormed, input, apply, initial, commands)
      {
        RefusedIsNotAccepted(input, worldExists, done, apply, initial, world, result.error, commands);
      }
    }
  }
}
