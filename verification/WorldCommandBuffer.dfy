// The Java end of the world command protocol (WorldCommandBuffer and ElectricalWorld.applyCommands):
// commands are checked and written at numeric offsets into a growing segment. Whatever is written is
// proved to be read back by the native end as the commands that were meant.
module WorldCommandBuffer {
  import opened Support
  import opened ByteCodec
  import opened Framing
  import opened WorldProtocol
  import opened Segments

  const HEADER_SIZE: nat := 16
  const COMMAND_HEADER_SIZE: nat := 6
  const COMMAND_COUNT_OFFSET: nat := 12
  const MAX_CAPACITY: nat := JAVA_INT_MAX

  /** The exceptions, in words. */
  datatype BufferError = NotPositive | Zero | Negative | NotFinite | Closed | ExceedsMaximumCapacity

  ghost function Frames(commands: seq<WorldCommand>): seq<Byte> {
    EncodeFrames(FramesOf(FrameOf, commands))
  }

  lemma OneMoreFrame(commands: seq<WorldCommand>, next: WorldCommand)
    ensures Frames(commands + [next]) == Frames(commands) + FrameOf(next).Encode()
  {
    assert FramesOf(FrameOf, commands + [next]) == FramesOf(FrameOf, commands) + [FrameOf(next)];
    EncodeFramesAppend(FramesOf(FrameOf, commands), FrameOf(next));
  }

  // The frames in the order their bytes are written.

  lemma SpelledOne(tag: nat, a: nat)
    ensures Frame(tag, Word(a, [])).Encode() == LittleEndian(tag, 2) + LittleEndian(4, 4) + LittleEndian(a, 4)
  {
    assert Word(a, []) == LittleEndian(a, 4);
    Regroup(LittleEndian(tag, 2), LittleEndian(4, 4), LittleEndian(a, 4));
  }

  lemma SpelledTwo(tag: nat, a: nat, b: nat)
    ensures Frame(tag, Word(a, Word(b, []))).Encode() ==
      LittleEndian(tag, 2) + LittleEndian(8, 4) + LittleEndian(a, 4) + LittleEndian(b, 4)
  {
    var body := LittleEndian(a, 4) + LittleEndian(b, 4);
    assert Word(a, Word(b, [])) == body;
    Regroup(LittleEndian(tag, 2), LittleEndian(8, 4), body);
    Regroup(LittleEndian(tag, 2) + LittleEndian(8, 4), LittleEndian(a, 4), LittleEndian(b, 4));
  }

  lemma TerminalIsSpelled(wireId: JavaInt, deviceId: JavaInt, terminalId: JavaInt)
    requires 0 < wireId && 0 < deviceId && 0 <= terminalId
    ensures WellFormed(AttachTerminal(Unsigned(wireId), Unsigned(deviceId), Unsigned(terminalId)))
    ensures WellFormed(DetachTerminal(Unsigned(wireId), Unsigned(deviceId), Unsigned(terminalId)))
    ensures FrameOf(AttachTerminal(Unsigned(wireId), Unsigned(deviceId), Unsigned(terminalId))).Encode() ==
      LittleEndian(7, 2) + LittleEndian(12, 4) + LittleEndian(Unsigned(wireId), 4) + LittleEndian(Unsigned(deviceId), 4)
        + LittleEndian(Unsigned(terminalId), 4)
    ensures FrameOf(DetachTerminal(Unsigned(wireId), Unsigned(deviceId), Unsigned(terminalId))).Encode() ==
      LittleEndian(8, 2) + LittleEndian(12, 4) + LittleEndian(Unsigned(wireId), 4) + LittleEndian(Unsigned(deviceId), 4)
        + LittleEndian(Unsigned(terminalId), 4)
  {
    var last := Word(Unsigned(terminalId), []);
    assert last == LittleEndian(Unsigned(terminalId), 4);
    WordLimits();
    SpelledBefore(7, Unsigned(wireId), Unsigned(deviceId), last, 12);
    SpelledBefore(8, Unsigned(wireId), Unsigned(deviceId), last, 12);
  }

  lemma SettingIsSpelled(deviceId: JavaInt, parameterId: JavaInt, value: JavaDouble)
    requires 0 < deviceId && 0 <= parameterId
    ensures var command := SetDeviceParameter(Unsigned(deviceId), Unsigned(parameterId), value);
            && WellFormed(command)
            && FrameOf(command).Encode() ==
               LittleEndian(9, 2) + LittleEndian(16, 4) + LittleEndian(Unsigned(deviceId), 4)
                 + LittleEndian(Unsigned(parameterId), 4) + LittleEndian(value, 8)
  {
    WordLimits();
    SpelledBefore(9, Unsigned(deviceId), Unsigned(parameterId), LittleEndian(value, 8), 16);
  }

  lemma SpelledBefore(tag: nat, a: nat, b: nat, last: seq<Byte>, size: nat)
    requires size == 8 + |last|
    ensures Frame(tag, Word(a, Word(b, last))).Encode() ==
      LittleEndian(tag, 2) + LittleEndian(size, 4) + LittleEndian(a, 4) + LittleEndian(b, 4) + last
  {
    var start := LittleEndian(tag, 2) + LittleEndian(size, 4);
    Regroup(LittleEndian(tag, 2), LittleEndian(size, 4), Word(a, Word(b, last)));
    Regroup(start, LittleEndian(a, 4), Word(b, last));
    Regroup(start + LittleEndian(a, 4), LittleEndian(b, 4), last);
  }

  /** What has been written: a header whose count is still open, and the commands. */
  ghost predicate Holds(written: seq<Byte>, commands: seq<WorldCommand>) {
    && HEADER_SIZE + 10 * |commands| <= |written| && (forall c | c in commands :: WellFormed(c))
    && written[..12] == HeaderStart(MAGIC) && written[HEADER_SIZE..] == Frames(commands)
  }

  lemma HoldsNext(written: seq<Byte>, commands: seq<WorldCommand>, next: WorldCommand)
    requires Holds(written, commands) && WellFormed(next)
    ensures Holds(written + FrameOf(next).Encode(), commands + [next])
  {
    PayloadLength(next);
    OneMoreFrame(commands, next);
    AppendBehind(written, FrameOf(next).Encode());
  }

  lemma AppendBehind(written: seq<Byte>, tail: seq<Byte>)
    requires HEADER_SIZE <= |written|
    ensures (written + tail)[..12] == written[..12]
    ensures (written + tail)[HEADER_SIZE..] == written[HEADER_SIZE..] + tail
  {
  }

  class WorldCommandBuffer {
    var open: bool
    var segment: array<Byte>
    var position: nat
    var commandCount: nat
    /** The commands written since the buffer was last cleared. */
    ghost var commands: seq<WorldCommand>
    /** While a command is being written: the bytes before it, and its own so far. */
    ghost var start: seq<Byte>
    ghost var pending: seq<Byte>

    ghost predicate Valid()
      reads this, segment
    {
      if open then
        && position <= segment.Length <= MAX_CAPACITY && commandCount == |commands|
        && Holds(segment[..position], commands)
      else commandCount == 0 && commands == []
    }

    ghost predicate Writing()
      reads this, segment
    {
      && open && position == |start| && position + |pending| <= segment.Length <= MAX_CAPACITY
      && segment[..position + |pending|] == start + pending
    }

    constructor (initialCapacity: nat)
      requires HEADER_SIZE <= initialCapacity <= MAX_CAPACITY
      ensures Valid() && open && commands == [] && fresh(segment) && segment.Length == initialCapacity
    {
      open := true;
      segment := new Byte[initialCapacity](_ => 0);
      position, commandCount, commands, start, pending := HEADER_SIZE, 0, [], [], [];
      new;
      InitializeHeader();
    }

    method InitializeHeader()
      requires open && HEADER_SIZE == position <= segment.Length <= MAX_CAPACITY && commandCount == 0 && commands == []
      modifies segment
      ensures Valid()
    {
      segment[0], segment[1], segment[2], segment[3] := 0x48, 0x59, 0x57, 0x43;
      assert segment[..4] == MAGIC;
      Set(4, 1, 2);
      Set(6, 0, 2);
      Set(8, 0, 4);
      assert segment[..12] == HeaderStart(MAGIC);
      Set(12, 0, 4);
      assert segment[..position][..12] == segment[..12];
    }

    method Set(offset: nat, value: nat, width: nat)
      requires offset + width <= segment.Length
      modifies segment
      ensures segment[..offset + width] == old(segment[..offset]) + LittleEndian(value, width)
      ensures position <= offset ==> segment[..position] == old(segment[..position])
    {
      ghost var before := segment[..];
      SetWord(segment, offset, value, width);
      WriteExtends(before, 0, offset, LittleEndian(value, width));
      assert segment[..offset + width] == segment[..][0..offset + width] && segment[..offset] == segment[..][..offset];
      assert position <= offset ==> segment[..position] == segment[..][..position];
    }

    /** `ensureCapacity`: double until it fits, up to the largest capacity. */
    method EnsureCapacity(additionalBytes: nat) returns (result: Result<(), BufferError>)
      requires open && Valid()
      modifies this`segment
      ensures Valid() && (segment == old(segment) || fresh(segment))
      ensures result ==
        if position + additionalBytes <= MAX_CAPACITY then Ok(()) else Err(ExceedsMaximumCapacity)
      ensures result.Ok? ==> position + additionalBytes <= segment.Length
      ensures segment == old(segment) || old(segment.Length) < position + additionalBytes
      ensures segment == old(segment) || segment.Length < 2 * (position + additionalBytes)
    {
      var required := position + additionalBytes;
      if required <= segment.Length {
        return Ok(());
      }
      if required > MAX_CAPACITY {
        return Err(ExceedsMaximumCapacity);
      }
      var newCapacity := segment.Length;
      while newCapacity < required
        invariant HEADER_SIZE <= newCapacity <= MAX_CAPACITY && newCapacity < 2 * required
        decreases required - newCapacity
      {
        if newCapacity > MAX_CAPACITY / 2 {
          newCapacity := required;
          break;
        }
        newCapacity := newCapacity * 2;
      }
      segment := Regrown(segment, newCapacity, position);
      return Ok(());
    }

    /** `beginCommand`: tag and payload size. */
    method BeginCommand(tag: nat, payloadSize: nat) returns (payload: Result<nat, BufferError>)
      requires Valid()
      modifies this`segment, this`start, this`pending, segment
      ensures segment == old(segment) || fresh(segment)
      ensures payload.Err? ==> Valid()
      ensures payload ==
        if !open then Err(Closed)
        else if position + COMMAND_HEADER_SIZE + payloadSize > MAX_CAPACITY then Err(ExceedsMaximumCapacity)
        else Ok(position + COMMAND_HEADER_SIZE)
      ensures payload.Ok? ==> Writing() && payload.value + payloadSize <= segment.Length && Holds(start, commands)
      ensures payload.Ok? ==> pending == LittleEndian(tag, 2) + LittleEndian(payloadSize, 4)
    {
      if !open {
        return Err(Closed);
      }
      var commandSize := COMMAND_HEADER_SIZE + payloadSize;
      var room := EnsureCapacity(commandSize);
      if room.Err? {
        return Err(room.error);
      }
      var commandOffset := position;
      start, pending := segment[..position], [];
      assert segment[..position] == start + pending;
      WriteTagAndSize(commandOffset, tag, payloadSize);
      return Ok(commandOffset + COMMAND_HEADER_SIZE);
    }

    method WriteTagAndSize(commandOffset: nat, tag: nat, payloadSize: nat)
      requires Writing() && commandOffset == position && pending == []
      requires position + COMMAND_HEADER_SIZE <= segment.Length
      modifies segment, this`pending
      ensures Writing() && pending == LittleEndian(tag, 2) + LittleEndian(payloadSize, 4)
    {
      Write(commandOffset, tag, 2);
      Write(commandOffset + 2, payloadSize, 4);
    }

    /** Set the next word of the command. */
    method Write(offset: nat, value: nat, width: nat)
      requires Writing() && offset == position + |pending| && offset + width <= segment.Length
      modifies segment, this`pending
      ensures Writing() && pending == old(pending) + LittleEndian(value, width)
    {
      ghost var done, word := pending, LittleEndian(value, width);
      Set(offset, value, width);
      assert segment[..offset + width] == (start + done) + word;
      Regroup(start, done, word);
      pending := done + word;
    }

    /** `writeU32`. */
    method WriteU32(offset: nat, value: JavaInt)
      requires Writing() && offset == position + |pending| && offset + 4 <= segment.Length
      modifies segment, this`pending
      ensures Writing() && pending == old(pending) + LittleEndian(Unsigned(value), 4)
    {
      Write(offset, Unsigned(value), 4);
    }

    /** `finishCommand`, once the payload is written. */
    method FinishCommand(payloadSize: nat, ghost command: WorldCommand)
      requires Writing() && Holds(start, commands) && commandCount == |commands|
      requires WellFormed(command) && pending == FrameOf(command).Encode()
      requires |pending| == COMMAND_HEADER_SIZE + payloadSize && 4 <= payloadSize
      modifies this`position, this`commandCount, this`commands
      ensures Valid() && commands == old(commands) + [command]
    {
      HoldsNext(start, commands, command);
      position := position + COMMAND_HEADER_SIZE + payloadSize;
      commandCount := commandCount + 1;
      commands := commands + [command];
    }

    /** What becomes of a command with this payload size, its arguments having been checked. */
    ghost function Verdict(fault: Option<BufferError>, payloadSize: nat): Result<(), BufferError>
      reads this
    {
      match fault
      case Some(error) => Err(error)
      case None =>
        if !open then Err(Closed)
        else if position + COMMAND_HEADER_SIZE + payloadSize > MAX_CAPACITY then Err(ExceedsMaximumCapacity)
        else Ok(())
    }

    /** `addWire`. */
    method AddWire(wireId: JavaInt) returns (result: Result<(), BufferError>)
      requires Valid()
      modifies this, segment
      ensures Valid() && open == old(open) && (segment == old(segment) || fresh(segment))
      ensures result == old(Verdict(
        if wireId <= 0 then Some(NotPositive)
        else None, 4))
      ensures commands ==
        if result.Ok? then old(commands) + [WorldCommand.AddWire(Unsigned(wireId))]
        else old(commands)
    {
      if wireId <= 0 {
        return Err(NotPositive);
      }
      var payload :- BeginCommand(1, 4);
      WriteU32(payload, wireId);
      SpelledOne(1, Unsigned(wireId));
      FinishCommand(4, WorldCommand.AddWire(Unsigned(wireId)));
      return Ok(());
    }

    /** `removeWire`. */
    method RemoveWire(wireId: JavaInt) returns (result: Result<(), BufferError>)
      requires Valid()
      modifies this, segment
      ensures Valid() && open == old(open) && (segment == old(segment) || fresh(segment))
      ensures result == old(Verdict(
        if wireId <= 0 then Some(NotPositive)
        else None, 4))
      ensures commands ==
        if result.Ok? then old(commands) + [WorldCommand.RemoveWire(Unsigned(wireId))]
        else old(commands)
    {
      if wireId <= 0 {
        return Err(NotPositive);
      }
      var payload :- BeginCommand(2, 4);
      WriteU32(payload, wireId);
      SpelledOne(2, Unsigned(wireId));
      FinishCommand(4, WorldCommand.RemoveWire(Unsigned(wireId)));
      return Ok(());
    }

    /** `connectWires`. */
    method ConnectWires(wireAId: JavaInt, wireBId: JavaInt)
      returns (result: Result<(), BufferError>)
      requires Valid()
      modifies this, segment
      ensures Valid() && open == old(open) && (segment == old(segment) || fresh(segment))
      ensures result == old(Verdict(
        if wireAId <= 0 then Some(NotPositive)
        else if wireBId <= 0 then Some(NotPositive)
        else None, 8))
      ensures commands ==
        if result.Ok? then old(commands) + [WorldCommand.ConnectWires(Unsigned(wireAId), Unsigned(wireBId))]
        else old(commands)
    {
      if wireAId <= 0 {
        return Err(NotPositive);
      }
      if wireBId <= 0 {
        return Err(NotPositive);
      }
      var payload :- BeginCommand(3, 8);
      WriteU32(payload, wireAId);
      WriteU32(payload + 4, wireBId);
      SpelledTwo(3, Unsigned(wireAId), Unsigned(wireBId));
      FinishCommand(8, WorldCommand.ConnectWires(Unsigned(wireAId), Unsigned(wireBId)));
      return Ok(());
    }

    /** `disconnectWires`. */
    method DisconnectWires(wireAId: JavaInt, wireBId: JavaInt)
      returns (result: Result<(), BufferError>)
      requires Valid()
      modifies this, segment
      ensures Valid() && open == old(open) && (segment == old(segment) || fresh(segment))
      ensures result == old(Verdict(
        if wireAId <= 0 then Some(NotPositive)
        else if wireBId <= 0 then Some(NotPositive)
        else None, 8))
      ensures commands ==
        if result.Ok? then old(commands) + [WorldCommand.DisconnectWires(Unsigned(wireAId), Unsigned(wireBId))]
        else old(commands)
    {
      if wireAId <= 0 {
        return Err(NotPositive);
      }
      if wireBId <= 0 {
        return Err(NotPositive);
      }
      var payload :- BeginCommand(4, 8);
      WriteU32(payload, wireAId);
      WriteU32(payload + 4, wireBId);
      SpelledTwo(4, Unsigned(wireAId), Unsigned(wireBId));
      FinishCommand(8, WorldCommand.DisconnectWires(Unsigned(wireAId), Unsigned(wireBId)));
      return Ok(());
    }

    /** `addDevice`. */
    method AddDevice(deviceId: JavaInt, definitionId: JavaInt) returns (result: Result<(), BufferError>)
      requires Valid()
      modifies this, segment
      ensures Valid() && open == old(open) && (segment == old(segment) || fresh(segment))
      ensures result == old(Verdict(
        if deviceId <= 0 then Some(NotPositive)
        else if definitionId == 0 then Some(Zero)
        else None, 8))
      ensures commands ==
        if result.Ok? then old(commands) + [WorldCommand.AddDevice(Unsigned(deviceId), Unsigned(definitionId))]
        else old(commands)
    {
      if deviceId <= 0 {
        return Err(NotPositive);
      }
      if definitionId == 0 {
        return Err(Zero);
      }
      var payload :- BeginCommand(5, 8);
      WriteU32(payload, deviceId);
      WriteU32(payload + 4, definitionId);
      SpelledTwo(5, Unsigned(deviceId), Unsigned(definitionId));
      FinishCommand(8, WorldCommand.AddDevice(Unsigned(deviceId), Unsigned(definitionId)));
      return Ok(());
    }

    /** `removeDevice`. */
    method RemoveDevice(deviceId: JavaInt) returns (result: Result<(), BufferError>)
      requires Valid()
      modifies this, segment
      ensures Valid() && open == old(open) && (segment == old(segment) || fresh(segment))
      ensures result == old(Verdict(
        if deviceId <= 0 then Some(NotPositive)
        else None, 4))
      ensures commands ==
        if result.Ok? then old(commands) + [WorldCommand.RemoveDevice(Unsigned(deviceId))]
        else old(commands)
    {
      if deviceId <= 0 {
        return Err(NotPositive);
      }
      var payload :- BeginCommand(6, 4);
      WriteU32(payload, deviceId);
      SpelledOne(6, Unsigned(deviceId));
      FinishCommand(4, WorldCommand.RemoveDevice(Unsigned(deviceId)));
      return Ok(());
    }

    /** `attachTerminal`. */
    method AttachTerminal(wireId: JavaInt, deviceId: JavaInt, terminalId: JavaInt)
      returns (result: Result<(), BufferError>)
      requires Valid()
      modifies this, segment
      ensures Valid() && open == old(open) && (segment == old(segment) || fresh(segment))
      ensures result == old(Verdict(
        if wireId <= 0 then Some(NotPositive)
        else if deviceId <= 0 then Some(NotPositive)
        else if terminalId < 0 then Some(Negative)
        else None, 12))
      ensures commands ==
        if result.Ok? then
          old(commands) + [WorldCommand.AttachTerminal(Unsigned(wireId), Unsigned(deviceId), Unsigned(terminalId))]
        else old(commands)
    {
      if wireId <= 0 {
        return Err(NotPositive);
      }
      if deviceId <= 0 {
        return Err(NotPositive);
      }
      if terminalId < 0 {
        return Err(Negative);
      }
      var payload :- BeginCommand(7, 12);
      WriteU32(payload, wireId);
      WriteU32(payload + 4, deviceId);
      WriteU32(payload + 8, terminalId);
      TerminalIsSpelled(wireId, deviceId, terminalId);
      FinishCommand(12, WorldCommand.AttachTerminal(Unsigned(wireId), Unsigned(deviceId), Unsigned(terminalId)));
      return Ok(());
    }

    /** `detachTerminal`. */
    method DetachTerminal(wireId: JavaInt, deviceId: JavaInt, terminalId: JavaInt)
      returns (result: Result<(), BufferError>)
      requires Valid()
      modifies this, segment
      ensures Valid() && open == old(open) && (segment == old(segment) || fresh(segment))
      ensures result == old(Verdict(
        if wireId <= 0 then Some(NotPositive)
        else if deviceId <= 0 then Some(NotPositive)
        else if terminalId < 0 then Some(Negative)
        else None, 12))
      ensures commands ==
        if result.Ok? then
          old(commands) + [WorldCommand.DetachTerminal(Unsigned(wireId), Unsigned(deviceId), Unsigned(terminalId))]
        else old(commands)
    {
      if wireId <= 0 {
        return Err(NotPositive);
      }
      if deviceId <= 0 {
        return Err(NotPositive);
      }
      if terminalId < 0 {
        return Err(Negative);
      }
      var payload :- BeginCommand(8, 12);
      WriteU32(payload, wireId);
      WriteU32(payload + 4, deviceId);
      WriteU32(payload + 8, terminalId);
      TerminalIsSpelled(wireId, deviceId, terminalId);
      FinishCommand(12, WorldCommand.DetachTerminal(Unsigned(wireId), Unsigned(deviceId), Unsigned(terminalId)));
      return Ok(());
    }

    /** `setDeviceParameter`. */
    method SetDeviceParameter(deviceId: JavaInt, parameterId: JavaInt, value: JavaDouble)
      returns (result: Result<(), BufferError>)
      requires Valid()
      modifies this, segment
      ensures Valid() && open == old(open) && (segment == old(segment) || fresh(segment))
      ensures result == old(Verdict(
        if deviceId <= 0 then Some(NotPositive)
        else if parameterId < 0 then Some(Negative)
        else if !IsFinite(value) then Some(NotFinite)
        else None, 16))
      ensures commands ==
        if result.Ok? then
          old(commands) + [WorldCommand.SetDeviceParameter(Unsigned(deviceId), Unsigned(parameterId), value)]
        else old(commands)
    {
      if deviceId <= 0 {
        return Err(NotPositive);
      }
      if parameterId < 0 {
        return Err(Negative);
      }
      if !IsFinite(value) {
        return Err(NotFinite);
      }
      var payload :- BeginCommand(9, 16);
      WriteU32(payload, deviceId);
      WriteU32(payload + 4, parameterId);
      Write(payload + 8, value, 8);
      SettingIsSpelled(deviceId, parameterId, value);
      FinishCommand(16, WorldCommand.SetDeviceParameter(Unsigned(deviceId), Unsigned(parameterId), value));
      return Ok(());
    }

    method IsEmpty() returns (result: Result<bool, BufferError>)
      requires Valid()
      ensures result == if open then Ok(commands == []) else Err(Closed)
    {
      if !open {
        return Err(Closed);
      }
      return Ok(commandCount == 0);
    }

    method Clear() returns (result: Result<(), BufferError>)
      requires Valid()
      modifies this
      ensures Valid() && segment == old(segment) && open == old(open)
      ensures if open then result == Ok(()) && commands == [] else result == Err(Closed) && commands == old(commands)
    {
      if !open {
        return Err(Closed);
      }
      HoldsNothing(segment[..position], commands);
      assert segment[..position][..HEADER_SIZE] == segment[..HEADER_SIZE];
      position, commandCount, commands := HEADER_SIZE, 0, [];
      return Ok(());
    }

    /** `encodedSegment`, whose first `position` bytes are the buffer. */
    method EncodedSegment() returns (result: Result<array<Byte>, BufferError>)
      requires Valid()
      modifies segment
      ensures Valid() && result == if open then Ok(segment) else Err(Closed)
      ensures open ==> position <= segment.Length && segment[..position] == EncodeBuffer(MAGIC, FrameOf, commands)
    {
      if !open {
        return Err(Closed);
      }
      ghost var before, count := segment[..], LittleEndian(commandCount, 4);
      SetWord(segment, COMMAND_COUNT_OFFSET, commandCount, 4);
      CountCompletes(before[..position], commands);
      assert segment[..position] == before[..12] + count + before[HEADER_SIZE..position];
      assert before[..position][HEADER_SIZE..] == before[HEADER_SIZE..position];
      assert before[..position][..12] == before[..12];
      return Ok(segment);
    }

    method Close()
      requires Valid()
      modifies this
      ensures Valid() && !open
    {
      open, segment, position, commandCount, commands := false, new Byte[0], 0, 0, [];
    }
  }

  /** The native end refuses what was written only for a command that does not apply. */
  lemma WrittenIsRefusedByWorld<S, E(!new)>(
      commands: seq<WorldCommand>, done: seq<WorldCommand>, apply: (S, WorldCommand) -> (S, Option<E>), initial: S,
      world: S, error: WireError<E>)
    requires Encodable(WellFormed, commands) && Encodable(WellFormed, done) && Runs(apply, initial, done)
    requires Refused(EncodeBuffer(MAGIC, FrameOf, commands), true, done, apply, initial, world, error)
    ensures FirstRejection(FrameOf, apply, initial, commands, done, world, error)
  {
    var input := EncodeBuffer(MAGIC, FrameOf, commands);
    assert !HeaderFault(input, MAGIC, error) by {
      if HeaderFault(input, MAGIC, error) { HeaderFaultRejects(input, MAGIC, error, |commands|); }
    }
    var count: nat, rest: seq<Byte> :|
      Stopped(MAGIC, FrameOf, WellFormed, CommandFault, input, count, done, rest, apply, initial, world, error);
    CommandsAreFaithful();
    CommandFaultExcludes<E>();
    StoppedInEncoding(
      MAGIC, FrameOf, WellFormed, CommandFault, input, count, done, rest, apply, initial, world, error, commands);
  }

  /** `applyCommands`: hand the buffer to the native end and clear it. Both ends together behave as if
      the commands were applied one by one: no command is lost, altered or refused as malformed. */
  method ApplyCommands<S(!new), E(!new)>(
      buffer: WorldCommandBuffer, apply: (S, WorldCommand) -> (S, Option<E>), initial: S)
    returns (failure: Option<WireError<E>>, world: S)
    requires buffer.Valid() && buffer.open
    modifies buffer, buffer.segment
    ensures buffer.Valid() && buffer.open && buffer.commands == []
    ensures failure.None? <==> Runs(apply, initial, old(buffer.commands))
    ensures failure.None? ==> world == After(apply, initial, old(buffer.commands))
    ensures failure.Some? ==> exists done ::
              FirstRejection(FrameOf, apply, initial, old(buffer.commands), done, world, failure.value)
  {
    ghost var commands := buffer.commands;
    var empty := buffer.IsEmpty();
    if empty.value {
      return None, initial;
    }
    var input := buffer.EncodedSegment();
    assert Encodable(WellFormed, commands);
    var result, after, done := ApplyBuffer(input.value[..buffer.position], true, apply, initial);
    world := after;
    if result.Ok? {
      BuffersAgree(commands, done);
      failure := None;
    } else {
      WrittenIsRefusedByWorld(commands, done, apply, initial, world, result.error);
      RejectionStopsRun(apply, initial, commands, |done|);
      failure := Some(result.error);
    }
    var _ := buffer.Clear();
  }

  lemma BuffersAgree(a: seq<WorldCommand>, b: seq<WorldCommand>)
    requires Encodable(WellFormed, a) && Encodable(WellFormed, b)
    requires EncodeBuffer(MAGIC, FrameOf, a) == EncodeBuffer(MAGIC, FrameOf, b)
    ensures a == b
  {
    CommandsAreFaithful();
    BufferIsInjective(MAGIC, FrameOf, WellFormed, a, b);
  }

  lemma HoldsNothing(written: seq<Byte>, commands: seq<WorldCommand>)
    requires Holds(written, commands)
    ensures Holds(written[..HEADER_SIZE], [])
  {
    assert written[..HEADER_SIZE][..12] == written[..12];
    assert FramesOf(FrameOf, []) == [];
  }

  /** Once the count is filled in the written bytes are the encoding of the commands. */
  lemma CountCompletes(written: seq<Byte>, commands: seq<WorldCommand>)
    requires Holds(written, commands)
    ensures Holds(written[..12] + LittleEndian(|commands|, 4) + written[HEADER_SIZE..], commands)
    ensures written[..12] + LittleEndian(|commands|, 4) + written[HEADER_SIZE..] == EncodeBuffer(MAGIC, FrameOf, commands)
  {
    var after := written[..12] + LittleEndian(|commands|, 4) + written[HEADER_SIZE..];
    assert after[..12] == written[..12] && after[HEADER_SIZE..] == written[HEADER_SIZE..];
  }
}
