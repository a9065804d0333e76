// The Java end of the definition protocol (DeviceDefinitionBuilder and ElectricalEngine): commands are
// written as they are declared, an element piece by piece, its counts and its length filled in once
// they are known. What the native end decodes is proved to be what was declared, and every identifier
// in it to refer to something declared before.
module DeviceDefinitionBuilder {
  import opened Support
  import opened ByteCodec
  import opened Framing
  import opened Segments
  import opened DefinitionProtocol
  import opened Parameters
  import ConstraintPayload
  import ElementPayload

  const HEADER_SIZE: nat := 16
  const COMMAND_HEADER_SIZE: nat := 6
  const COMMAND_COUNT_OFFSET: nat := 12
  const UINT32_MAX: nat := 0xFFFF_FFFF

  /** The exceptions, in words. */
  datatype BuilderError =
    | Closed
    | ElementUnfinished
    | NoElement
    | ZeroDefinition
    | UnknownId(id: nat)
    | LiteralNotFinite
    | ParametersStarted
    | CommandsExhausted
    | PayloadTooLong
    | ExceedsInputLength

  /** The element that is being written. */
  datatype Draft = Draft(definition: nat, terminals: seq<nat>, parameters: seq<ElementPayload.ValueRef>, started: bool)

  // ----- What the bytes are -----

  ghost function Encoded(commands: seq<DefinitionCommand>): seq<Byte> {
    EncodeBuffer(MAGIC, FrameOf, commands)
  }

  /** Writing over the middle of three parts. */
  lemma PatchMiddle(a: seq<Byte>, b: seq<Byte>, c: seq<Byte>, word: seq<Byte>)
    requires |word| == |b|
    ensures Overwritten(a + b + c, |a|, word) == a + word + c
  {
    var whole := a + b + c;
    assert whole[..|a|] == a && whole[|a| + |b|..] == c;
  }

  /** Behind a further command, and with the count raised, the buffer is that of one more command. */
  lemma CountRaised(commands: seq<DefinitionCommand>, next: DefinitionCommand)
    ensures COMMAND_COUNT_OFFSET + 4 <= |Encoded(commands) + FrameOf(next).Encode()|
    ensures Overwritten(Encoded(commands) + FrameOf(next).Encode(), COMMAND_COUNT_OFFSET,
              LittleEndian(|commands| + 1, 4))
         == Encoded(commands + [next])
  {
    var start, count := HeaderStart(MAGIC), LittleEndian(|commands|, 4);
    var frames, last := EncodeFrames(FramesOf(FrameOf, commands)), FrameOf(next).Encode();
    assert FramesOf(FrameOf, commands + [next]) == FramesOf(FrameOf, commands) + [FrameOf(next)];
    EncodeFramesAppend(FramesOf(FrameOf, commands), FrameOf(next));
    Regroup(start + count, frames, last);
    PatchMiddle(start, count, frames + last, LittleEndian(|commands| + 1, 4));
  }

  /** An element before its counts are known. */
  ghost function DraftBytes(draft: Draft): seq<Byte> {
    DraftStart(draft) + ElementPayload.EncodeWords(draft.terminals) + DraftEnd(draft)
  }

  ghost function DraftStart(draft: Draft): (start: seq<Byte>)
    ensures |start| == 14
  {
    LittleEndian(4, 2) + LittleEndian(0, 4) + LittleEndian(draft.definition, 4)
      + LittleEndian(if draft.started then |draft.terminals| else 0, 4)
  }

  ghost function DraftEnd(draft: Draft): seq<Byte> {
    if draft.started then LittleEndian(0, 4) + ElementPayload.EncodeValues(draft.parameters) else []
  }

  /** The number of bytes before the parameter count. */
  ghost function CountPlace(draft: Draft): nat {
    14 + 4 * |draft.terminals|
  }

  lemma PatchBehind(written: seq<Byte>, bytes: seq<Byte>, k: nat, word: seq<Byte>)
    requires k + |word| <= |bytes|
    ensures Overwritten(written + bytes, |written| + k, word) == written + Overwritten(bytes, k, word)
  {
    var after := Overwritten(bytes, k, word);
    assert (written + bytes)[..|written| + k] == written + bytes[..k];
    assert (written + bytes)[|written| + k + |word|..] == bytes[k + |word|..];
  }

  lemma TerminalAppends(draft: Draft, terminal: nat)
    requires !draft.started
    ensures DraftBytes(draft) + LittleEndian(terminal, 4) ==
            DraftBytes(draft.(terminals := draft.terminals + [terminal]))
  {
    ElementPayload.EncodeWordsAppend(draft.terminals, terminal);
    var next := draft.(terminals := draft.terminals + [terminal]);
    var words, word := ElementPayload.EncodeWords(draft.terminals), LittleEndian(terminal, 4);
    AppendThrough(DraftStart(draft), words, word);
  }

  lemma AppendThrough(a: seq<Byte>, b: seq<Byte>, word: seq<Byte>)
    ensures a + b + [] + word == a + (b + word) + []
  {
  }

  lemma ValueAppends(draft: Draft, value: ElementPayload.ValueRef)
    requires draft.started
    ensures DraftBytes(draft) + ElementPayload.EncodeValue(value) ==
            DraftBytes(draft.(parameters := draft.parameters + [value]))
  {
    ElementPayload.EncodeValuesAppend(draft.parameters, value);
    var start, count := DraftStart(draft) + ElementPayload.EncodeWords(draft.terminals), LittleEndian(0, 4);
    var values, last := ElementPayload.EncodeValues(draft.parameters), ElementPayload.EncodeValue(value);
    Regroup(count, values, last);
    Regroup(start, count + values, last);
  }

  /** `beginElementParameters`: the terminal count is filled in and room is made for the other one. */
  lemma StartAppends(draft: Draft)
    requires !draft.started && draft.parameters == []
    ensures Overwritten(DraftBytes(draft), 10, LittleEndian(|draft.terminals|, 4)) + LittleEndian(0, 4) ==
            DraftBytes(draft.(started := true))
  {
    var front := LittleEndian(4, 2) + LittleEndian(0, 4) + LittleEndian(draft.definition, 4);
    var zero, count, words :=
      LittleEndian(0, 4), LittleEndian(|draft.terminals|, 4), ElementPayload.EncodeWords(draft.terminals);
    assert DraftEnd(draft) == [];
    assert DraftBytes(draft) == front + zero + words;
    PatchMiddle(front, zero, words, count);
    var next := draft.(started := true);
    assert DraftStart(next) == front + count;
    assert DraftEnd(next) == zero + [] == zero;
  }

  ghost function ElementOf(draft: Draft): ElementPayload.Element {
    ElementPayload.Element(draft.definition, draft.terminals, draft.parameters)
  }

  /** `endElement`: with the parameter count and the length filled in, the draft is the element's frame. */
  lemma EndCompletes(draft: Draft, length: nat)
    requires draft.started && length == |DraftBytes(draft)| - COMMAND_HEADER_SIZE
    ensures CountPlace(draft) + 4 <= |DraftBytes(draft)|
    ensures Overwritten(WithCount(draft), 2, LittleEndian(length, 4)) == FrameOf(AddElement(ElementOf(draft))).Encode()
  {
    var tag, size, rest := LittleEndian(4, 2), LittleEndian(length, 4), ElementPayload.Encode(ElementOf(draft));
    CountedSplits(draft);
    PatchMiddle(tag, LittleEndian(0, 4), rest, size);
    Regroup(tag, size, rest);
  }

  /** The draft with its parameter count filled in. */
  ghost function WithCount(draft: Draft): (counted: seq<Byte>)
    requires draft.started
    ensures |counted| == |DraftBytes(draft)|
  {
    Overwritten(DraftBytes(draft), CountPlace(draft), LittleEndian(|draft.parameters|, 4))
  }

  lemma CountedSplits(draft: Draft)
    requires draft.started
    ensures WithCount(draft) == LittleEndian(4, 2) + LittleEndian(0, 4) + ElementPayload.Encode(ElementOf(draft))
  {
    var words, values := ElementPayload.EncodeWords(draft.terminals), ElementPayload.EncodeValues(draft.parameters);
    var zero, count := LittleEndian(0, 4), LittleEndian(|draft.parameters|, 4);
    Regroup(DraftStart(draft) + words, zero, values);
    PatchMiddle(DraftStart(draft) + words, zero, values, count);
    DraftSplits(LittleEndian(4, 2), zero, LittleEndian(draft.definition, 4), LittleEndian(|draft.terminals|, 4), words,
                count, values);
  }

  lemma DraftSplits(
      tag: seq<Byte>, zero: seq<Byte>, definition: seq<Byte>, terminals: seq<Byte>, words: seq<Byte>,
      count: seq<Byte>, values: seq<Byte>)
    ensures (tag + zero + definition + terminals + words) + count + values ==
            tag + zero + (definition + (terminals + (words + (count + values))))
  {
  }

  // ----- What the commands declare and refer to -----

  ghost function DeclaredNodes(commands: seq<DefinitionCommand>): nat {
    if commands == [] then 0
    else
      var last := commands[|commands| - 1];
      DeclaredNodes(commands[..|commands| - 1]) + if last.AddTerminal? || last.AddNode? then 1 else 0
  }

  ghost function DeclaredParameters(commands: seq<DefinitionCommand>): nat {
    if commands == [] then 0
    else DeclaredParameters(commands[..|commands| - 1]) + if commands[|commands| - 1].AddParameter? then 1 else 0
  }

  ghost function DeclaredElements(commands: seq<DefinitionCommand>): nat {
    if commands == [] then 0
    else DeclaredElements(commands[..|commands| - 1]) + if commands[|commands| - 1].AddElement? then 1 else 0
  }

  ghost function DeclaredObservers(commands: seq<DefinitionCommand>): nat {
    if commands == [] then 0
    else
      var last := commands[|commands| - 1];
      DeclaredObservers(commands[..|commands| - 1]) + if last.AddVoltageObserver? || last.AddChildObserver? then 1 else 0
  }

  /** Every identifier in the command is that of something declared by the earlier ones. */
  ghost predicate Refers(command: DefinitionCommand, earlier: seq<DefinitionCommand>) {
    match command
    case AddElement(element) =>
      && (forall t | t in element.terminals :: t < DeclaredNodes(earlier))
      && (forall v | v in element.parameters && v.Parameter? :: v.parameter < DeclaredParameters(earlier))
    case AddVoltageObserver(positive, negative) => positive < DeclaredNodes(earlier) && negative < DeclaredNodes(earlier)
    case AddChildObserver(child, _) => child < DeclaredElements(earlier)
    case _ => true
  }

  ghost predicate Sound(commands: seq<DefinitionCommand>) {
    forall k | 0 <= k < |commands| :: RefersBack(commands, k)
  }

  ghost predicate RefersBack(commands: seq<DefinitionCommand>, k: nat)
    requires k < |commands|
  {
    Refers(commands[k], commands[..k])
  }

  /** The counters of the builder. */
  datatype Counters = Counters(nodes: nat, parameters: nat, elements: nat, observers: nat)

  ghost function Tally(commands: seq<DefinitionCommand>): Counters {
    Counters(DeclaredNodes(commands), DeclaredParameters(commands), DeclaredElements(commands), DeclaredObservers(commands))
  }

  ghost function Raised(c: Counters, command: DefinitionCommand): Counters {
    match command
    case AddTerminal => c.(nodes := c.nodes + 1)
    case AddNode => c.(nodes := c.nodes + 1)
    case AddParameter(_) => c.(parameters := c.parameters + 1)
    case AddElement(_) => c.(elements := c.elements + 1)
    case AddVoltageObserver(_, _) => c.(observers := c.observers + 1)
    case AddChildObserver(_, _) => c.(observers := c.observers + 1)
  }

  lemma TallyNext(commands: seq<DefinitionCommand>, next: DefinitionCommand)
    ensures Tally(commands + [next]) == Raised(Tally(commands), next)
  {
    assert (commands + [next])[..|commands|] == commands;
  }

  lemma SoundNext(commands: seq<DefinitionCommand>, next: DefinitionCommand)
    requires Sound(commands) && Refers(next, commands)
    ensures Sound(commands + [next])
  {
    var after := commands + [next];
    forall k | 0 <= k < |after| ensures RefersBack(after, k) {
      assert after[..k] == commands[..k];
      assert k < |commands| ==> RefersBack(commands, k);
    }
  }

  /** The commands written so far are such that the native end can take them. */
  ghost predicate IsProgram(commands: seq<DefinitionCommand>) {
    |commands| <= UINT32_MAX && (forall c | c in commands :: WellFormed(c)) && Sound(commands)
  }

  ghost predicate IsDraft(commands: seq<DefinitionCommand>, draft: Draft) {
    && |commands| < UINT32_MAX && 0 < draft.definition < U32_LIMIT
    && (!draft.started ==> draft.parameters == [])
    && ElementPayload.AllWords(draft.terminals) && ElementPayload.AllFit(draft.parameters)
    && Refers(AddElement(ElementOf(draft)), commands)
  }

  // ----- The builder -----

  /** `elementOpen` and the other fields of an element: what is written of it, and where. */
  datatype OpenElement = OpenElement(
    open: bool, parametersStarted: bool, commandOffset: nat, terminalCountOffset: nat, parameterCountOffset: nat,
    terminalCount: nat, parameterCount: nat)

  const NO_ELEMENT := OpenElement(false, false, 0, 0, 0, 0, 0)

  /** The counters and offsets of the draft that starts at `start`. */
  ghost predicate IsPlaced(element: OpenElement, draft: Draft, start: nat) {
    && element.commandOffset == start && element.terminalCountOffset == start + 10
    && (draft.started ==> element.parameterCountOffset == start + CountPlace(draft))
    && element.parametersStarted == draft.started
    && element.terminalCount == |draft.terminals| && element.parameterCount == |draft.parameters|
  }

  /** Closed, between commands, inside an element, or amid an operation. */
  datatype Phase = Shut | TopLevel | InElement | Broken

  class DeviceDefinitionBuilder {
    var open: bool
    var buffer: array<Byte>
    var position: nat
    var commandCount: nat
    var counters: Counters
    var element: OpenElement
    /** The commands that are complete, and the element that is not. */
    ghost var commands: seq<DefinitionCommand>
    ghost var draft: Draft
    /** The bytes set so far. */
    ghost var written: seq<Byte>

    ghost predicate Stored()
      reads this`buffer, this`written, buffer
    {
      HEADER_SIZE <= |written| <= buffer.Length <= UINT32_MAX && buffer[..|written|] == written
    }

    ghost predicate Core()
      reads this`buffer, this`written, this`position, this`commandCount, this`commands, buffer
    {
      Stored() && position == |written| && commandCount == |commands| && IsProgram(commands)
    }

    ghost predicate Counted()
      reads this`commands, this`counters
    {
      counters == Tally(commands)
    }

    ghost predicate Drafting()
      reads this`commands, this`draft, this`written, this`element
    {
      && IsDraft(commands, draft) && written == Encoded(commands) + DraftBytes(draft)
      && IsPlaced(element, draft, |Encoded(commands)|)
    }

    /** No element is unfinished. */
    ghost predicate Complete()
      reads this`buffer, this`written, this`position, this`commandCount, this`commands, buffer
    {
      Core() && written == Encoded(commands)
    }

    ghost function Phase(): Phase
      reads this, buffer
    {
      if !open then Shut
      else if element.open then if Core() && Counted() && Drafting() then InElement else Broken
      else if Complete() && Counted() then TopLevel else Broken
    }

    ghost predicate Valid()
      reads this, buffer
    {
      Phase() != Broken
    }

    constructor (initialCapacity: nat)
      requires HEADER_SIZE <= initialCapacity <= JAVA_INT_MAX
      ensures Valid() && open && !element.open && commands == [] && fresh(buffer)
    {
      open := true;
      buffer := new Byte[initialCapacity](_ => 0);
      new;
      ResetState();
    }

    /** `resetState`. */
    method ResetState()
      requires open && HEADER_SIZE <= buffer.Length <= UINT32_MAX
      modifies this, buffer
      ensures Valid() && open && !element.open && commands == [] && buffer == old(buffer)
    {
      position, commandCount := HEADER_SIZE, 0;
      counters, element := Counters(0, 0, 0, 0), NO_ELEMENT;
      commands := [];
      WriteHeader();
      assert Core() && Counted();
    }

    method WriteHeader()
      requires HEADER_SIZE <= buffer.Length <= UINT32_MAX
      modifies this`written, buffer
      ensures Stored() && written == Encoded([]) && |written| == HEADER_SIZE
      ensures IsProgram([]) && Tally([]) == Counters(0, 0, 0, 0)
    {
      buffer[0], buffer[1], buffer[2], buffer[3] := 0x48, 0x59, 0x44, 0x46;
      written := buffer[..4];
      assert written == MAGIC;
      Set(4, 1, 2);
      Set(6, 0, 2);
      Set(8, 0, 4);
      assert written == HeaderStart(MAGIC);
      Set(12, 0, 4);
      EmptyIsEncoded();
    }

    /** Set the word behind what is written. */
    method Set(offset: nat, value: nat, width: nat)
      requires offset == |written| && offset + width <= buffer.Length && buffer[..|written|] == written
      modifies buffer, this`written
      ensures written == old(written) + LittleEndian(value, width) && buffer[..|written|] == written
    {
      ghost var before, word := buffer[..], LittleEndian(value, width);
      SetWord(buffer, offset, value, width);
      WriteExtends(before, 0, offset, word);
      assert buffer[..offset + width] == buffer[..][0..offset + width] && before[0..offset] == written;
      written := written + word;
    }

    /** Set a word over what is written. */
    method Patch(offset: nat, value: nat, width: nat)
      requires offset + width <= |written| <= buffer.Length && buffer[..|written|] == written
      modifies buffer, this`written
      ensures written == Overwritten(old(written), offset, LittleEndian(value, width))
      ensures buffer[..|written|] == written
    {
      ghost var before, word := buffer[..], LittleEndian(value, width);
      SetWord(buffer, offset, value, width);
      PatchPrefix(before, |written|, offset, word);
      written := Overwritten(written, offset, word);
      assert buffer[..|written|] == buffer[..][..|written|];
    }

    /** `requireTopLevel`. */
    function RequireTopLevel(): Result<(), BuilderError>
      reads this
    {
      if !open then Err(Closed) else if element.open then Err(ElementUnfinished) else Ok(())
    }

    /** `ensureWritable` and `ensureCapacity`: grow by half, up to what the native end can take. */
    method EnsureWritable(additionalBytes: nat) returns (result: Result<(), BuilderError>)
      requires Stored() && position == |written|
      modifies this`buffer
      ensures Stored() && (buffer == old(buffer) || fresh(buffer))
      ensures result == if position + additionalBytes <= UINT32_MAX then Ok(()) else Err(ExceedsInputLength)
      ensures result.Ok? ==> position + additionalBytes <= buffer.Length
    {
      var required := position + additionalBytes;
      if required > UINT32_MAX {
        return Err(ExceedsInputLength);
      }
      if required <= buffer.Length {
        return Ok(());
      }
      var grown := buffer.Length + buffer.Length / 2;
      var newCapacity := if grown < required then required else if grown > UINT32_MAX then UINT32_MAX else grown;
      buffer := Regrown(buffer, newCapacity, position);
      return Ok(());
    }

    /** What keeps a command with this payload length from being written at the top level, `fault`
        being what its arguments have against it. */
    ghost function Verdict(fault: Option<BuilderError>, payloadLength: nat): Option<BuilderError>
      reads this
    {
      if !open then Some(Closed)
      else if element.open then Some(ElementUnfinished)
      else if fault.Some? then fault
      else if commandCount >= UINT32_MAX then Some(CommandsExhausted)
      else if position + COMMAND_HEADER_SIZE + payloadLength > UINT32_MAX then Some(ExceedsInputLength)
      else None
    }

    /** The checks before a command, in order, `fault` being what its arguments have against it. */
    method RequireRoom(fault: Option<BuilderError>, payloadLength: nat) returns (room: Result<(), BuilderError>)
      requires Valid()
      modifies this`buffer
      ensures Valid() && (buffer == old(buffer) || fresh(buffer))
      ensures room == Outcome(old(Verdict(fault, payloadLength)), ())
      ensures room.Ok? ==> open && !element.open && Counted() && Complete() && commandCount < UINT32_MAX
      ensures room.Ok? ==> position + COMMAND_HEADER_SIZE + payloadLength <= buffer.Length
    {
      var _ :- RequireTopLevel();
      if fault.Some? {
        return Err(fault.value);
      }
      if commandCount >= UINT32_MAX {
        return Err(CommandsExhausted);
      }
      room := EnsureWritable(COMMAND_HEADER_SIZE + payloadLength);
    }

    /** `prepareCommand`: tag and payload length. */
    method PrepareCommand(fault: Option<BuilderError>, tag: nat, payloadLength: nat)
      returns (payload: Result<nat, BuilderError>)
      requires Valid() && payloadLength <= UINT32_MAX
      modifies this`buffer, this`written, buffer
      ensures buffer == old(buffer) || fresh(buffer)
      ensures payload.Err? ==> Valid()
      ensures payload == Outcome(old(Verdict(fault, payloadLength)), position + COMMAND_HEADER_SIZE)
      ensures payload.Ok? ==> Stored() && payload.value + payloadLength <= buffer.Length
      ensures payload.Ok? ==> commandCount == |commands| < UINT32_MAX && IsProgram(commands)
      ensures payload.Ok? ==> open && !element.open && Counted()
      ensures payload.Ok? ==>
                written == Encoded(commands) + (LittleEndian(tag, 2) + LittleEndian(payloadLength, 4))
    {
      var room := RequireRoom(fault, payloadLength);
      if room.Err? {
        return Err(room.error);
      }
      Set(position, tag, 2);
      Set(position + 2, payloadLength, 4);
      Regroup(Encoded(commands), LittleEndian(tag, 2), LittleEndian(payloadLength, 4));
      return Ok(position + COMMAND_HEADER_SIZE);
    }

    /** `commitCommand`: raise the count, and take the bytes in. */
    method CommitCommand(end: nat, ghost command: DefinitionCommand)
      requires Stored() && end == |written| && written == Encoded(commands) + FrameOf(command).Encode()
      requires commandCount == |commands| < UINT32_MAX && IsProgram(commands)
      requires WellFormed(command) && Refers(command, commands)
      modifies buffer, this`written, this`position, this`commandCount, this`commands
      ensures Complete() && commands == old(commands) + [command]
      ensures Tally(commands) == Raised(Tally(old(commands)), command)
    {
      TallyNext(commands, command);
      SoundNext(commands, command);
      CountRaised(commands, command);
      Patch(COMMAND_COUNT_OFFSET, commandCount + 1, 4);
      commands := commands + [command];
      assert written == Encoded(commands) && IsProgram(commands);
      position := end;
      commandCount := commandCount + 1;
    }

    /** A command without payload, up to the counters. */
    method WriteBare(tag: nat, ghost command: DefinitionCommand) returns (result: Result<(), BuilderError>)
      requires Valid() && WellFormed(command) && Refers(command, commands)
      requires FrameOf(command).Encode() == LittleEndian(tag, 2) + LittleEndian(0, 4)
      modifies this`buffer, this`written, this`position, this`commandCount, this`commands, buffer
      ensures buffer == old(buffer) || fresh(buffer)
      ensures result == Outcome(old(Verdict(None, 0)), ())
      ensures result.Err? ==> Valid() && commands == old(commands)
      ensures result.Ok? ==> open && !element.open && Complete() && commands == old(commands) + [command]
      ensures result.Ok? ==> old(Counted()) && Tally(commands) == Raised(Tally(old(commands)), command)
    {
      var payload := PrepareCommand(None, tag, 0);
      if payload.Err? {
        return Err(payload.error);
      }
      CommitCommand(payload.value, command);
      return Ok(());
    }

    /** `addTerminal`. */
    method AddTerminal() returns (result: Result<nat, BuilderError>)
      requires Valid()
      modifies this, buffer
      ensures Valid() && open == old(open) && element.open == old(element.open) && draft == old(draft)
      ensures buffer == old(buffer) || fresh(buffer)
      ensures result == Outcome(old(Verdict(None, 0)), DeclaredNodes(old(commands)))
      ensures commands == if result.Ok? then old(commands) + [DefinitionCommand.AddTerminal] else old(commands)
    {
      var nodeId := counters.nodes;
      SpelledEmpty(1);
      var _ :- WriteBare(1, DefinitionCommand.AddTerminal);
      counters := counters.(nodes := counters.nodes + 1);
      return Ok(nodeId);
    }

    /** `addNode`. */
    method AddNode() returns (result: Result<nat, BuilderError>)
      requires Valid()
      modifies this, buffer
      ensures Valid() && open == old(open) && element.open == old(element.open) && draft == old(draft)
      ensures buffer == old(buffer) || fresh(buffer)
      ensures result == Outcome(old(Verdict(None, 0)), DeclaredNodes(old(commands)))
      ensures commands == if result.Ok? then old(commands) + [DefinitionCommand.AddNode] else old(commands)
    {
      var nodeId := counters.nodes;
      SpelledEmpty(2);
      var _ :- WriteBare(2, DefinitionCommand.AddNode);
      counters := counters.(nodes := counters.nodes + 1);
      return Ok(nodeId);
    }

    method SetPair(offset: nat, first: JavaInt, second: JavaInt)
      requires Stored() && offset == |written| && offset + 8 <= buffer.Length
      modifies this`written, buffer
      ensures Stored() && written == old(written) + Pair(Unsigned(first), Unsigned(second))
    {
      Regroup(written, LittleEndian(Unsigned(first), 4), LittleEndian(Unsigned(second), 4));
      Set(offset, Unsigned(first), 4);
      Set(offset + 4, Unsigned(second), 4);
    }

    /** A command of two words, up to the counters. */
    method WritePair(
        fault: Option<BuilderError>, tag: nat, first: JavaInt, second: JavaInt, ghost command: DefinitionCommand)
      returns (result: Result<(), BuilderError>)
      requires Valid() && WellFormed(command) && (open && fault.None? ==> Refers(command, commands))
      requires FrameOf(command).Encode() == LittleEndian(tag, 2) + LittleEndian(8, 4) + Pair(Unsigned(first), Unsigned(second))
      modifies this`buffer, this`written, this`position, this`commandCount, this`commands, buffer
      ensures buffer == old(buffer) || fresh(buffer)
      ensures result == Outcome(old(Verdict(fault, 8)), ())
      ensures result.Err? ==> Valid() && commands == old(commands)
      ensures result.Ok? ==> open && !element.open && Complete() && commands == old(commands) + [command]
      ensures result.Ok? ==> old(Counted()) && Tally(commands) == Raised(Tally(old(commands)), command)
    {
      var payload := PrepareCommand(fault, tag, 8);
      if payload.Err? {
        return Err(payload.error);
      }
      SetPair(payload.value, first, second);
      Regroup(Encoded(commands), LittleEndian(tag, 2) + LittleEndian(8, 4), Pair(Unsigned(first), Unsigned(second)));
      CommitCommand(payload.value + 8, command);
      return Ok(());
    }

    /** `addVoltageObserver`. */
    method AddVoltageObserver(positiveNode: JavaInt, negativeNode: JavaInt) returns (result: Result<nat, BuilderError>)
      requires Valid()
      modifies this, buffer
      ensures Valid() && open == old(open) && element.open == old(element.open) && draft == old(draft)
      ensures buffer == old(buffer) || fresh(buffer)
      ensures result == Outcome(
        old(Verdict(PairFault(positiveNode, DeclaredNodes(commands), negativeNode, DeclaredNodes(commands)), 8)),
        DeclaredObservers(old(commands)))
      ensures commands ==
        if result.Ok? then
          old(commands) + [DefinitionCommand.AddVoltageObserver(Unsigned(positiveNode), Unsigned(negativeNode))]
        else old(commands)
    {
      var observerId := counters.observers;
      ghost var command := DefinitionCommand.AddVoltageObserver(Unsigned(positiveNode), Unsigned(negativeNode));
      SpelledPair(5, Unsigned(positiveNode), Unsigned(negativeNode));
      var _ :- WritePair(
        PairFault(positiveNode, counters.nodes, negativeNode, counters.nodes), 5, positiveNode, negativeNode, command);
      counters := counters.(observers := counters.observers + 1);
      return Ok(observerId);
    }

    /** `addChildObserver`. The child's observer cannot be checked here. */
    method AddChildObserver(elementId: JavaInt, observerId: JavaInt) returns (result: Result<nat, BuilderError>)
      requires Valid()
      modifies this, buffer
      ensures Valid() && open == old(open) && element.open == old(element.open) && draft == old(draft)
      ensures buffer == old(buffer) || fresh(buffer)
      ensures result == Outcome(
        old(Verdict(Existing(elementId, DeclaredElements(commands)), 8)), DeclaredObservers(old(commands)))
      ensures commands ==
        if result.Ok? then
          old(commands) + [DefinitionCommand.AddChildObserver(Unsigned(elementId), Unsigned(observerId))]
        else old(commands)
    {
      var newObserverId := counters.observers;
      ghost var command := DefinitionCommand.AddChildObserver(Unsigned(elementId), Unsigned(observerId));
      SpelledPair(6, Unsigned(elementId), Unsigned(observerId));
      var _ :- WritePair(Existing(elementId, counters.elements), 6, elementId, observerId, command);
      counters := counters.(observers := counters.observers + 1);
      return Ok(newObserverId);
    }

    /** `writeBound`. */
    method WriteBound(cursor: nat, bound: ConstraintPayload.WireBound) returns (end: nat)
      requires Stored() && cursor == |written| && cursor + 8 * CountBound(bound) <= buffer.Length
      modifies this`written, buffer
      ensures Stored() && end == |written| && written == old(written) + ConstraintPayload.EncodeBound(bound)
    {
      if bound.None? {
        return cursor;
      }
      Set(cursor, bound.value.value, 8);
      return cursor + 8;
    }

    method SetConstraints(
        payload: nat, flags: nat, constraints: ConstraintPayload.WireConstraints, ghost bytes: seq<Byte>)
      returns (cursor: nat)
      requires Stored() && payload == |written| && bytes == ConstraintPayload.Encode(constraints)
      requires flags == ConstraintPayload.FromFlags(ConstraintPayload.FlagsOf(constraints))
      requires payload + |bytes| <= buffer.Length
      modifies this`written, buffer
      ensures Stored() && cursor == |written| && written == old(written) + bytes
    {
      EncodedCount(constraints);
      BoundsBehind(written, constraints);
      Set(payload, flags, 2);
      cursor := WriteBound(payload + 2, constraints.lower);
      cursor := WriteBound(cursor, constraints.upper);
      if constraints.reciprocalRange.Some? {
        cursor := WriteBound(cursor, constraints.reciprocalRange.value.0);
        cursor := WriteBound(cursor, constraints.reciprocalRange.value.1);
      }
    }

    method FlagsFor(constraints: ConstraintPayload.WireConstraints) returns (flags: nat)
      ensures flags == ConstraintPayload.FromFlags(ConstraintPayload.FlagsOf(constraints))
    {
      FlagsAreBits(constraints);
      flags := BoundFlags(constraints.lower, 1, 2) + BoundFlags(constraints.upper, 4, 8);
      if constraints.nonZero {
        flags := flags + 16;
      }
      if constraints.reciprocalRange.Some? {
        var (lower, upper) := constraints.reciprocalRange.value;
        flags := flags + 32 + BoundFlags(lower, 64, 128) + BoundFlags(upper, 256, 512);
      }
    }

    /** The general `addParameter`. */
    method AddParameter(constraints: ConstraintPayload.WireConstraints) returns (result: Result<nat, BuilderError>)
      requires Valid() && ConstraintPayload.WellFormed(constraints)
      modifies this, buffer
      ensures Valid() && open == old(open) && element.open == old(element.open) && draft == old(draft)
      ensures buffer == old(buffer) || fresh(buffer)
      ensures result ==
        Outcome(old(Verdict(None, 2 + 8 * CountBounds(constraints))), DeclaredParameters(old(commands)))
      ensures commands ==
        if result.Ok? then old(commands) + [DefinitionCommand.AddParameter(constraints)] else old(commands)
    {
      var parameterId := counters.parameters;
      var done := WriteConstraints(constraints);
      if done.Err? {
        return Err(done.error);
      }
      CountParameter();
      return Ok(parameterId);
    }

    method WriteConstraints(constraints: ConstraintPayload.WireConstraints) returns (result: Result<(), BuilderError>)
      requires Valid() && ConstraintPayload.WellFormed(constraints)
      modifies this`buffer, this`written, this`position, this`commandCount, this`commands, buffer
      ensures buffer == old(buffer) || fresh(buffer)
      ensures result == Outcome(old(Verdict(None, 2 + 8 * CountBounds(constraints))), ())
      ensures result.Err? ==> Valid() && commands == old(commands)
      ensures result.Ok? ==>
        open && !element.open && Complete() && commands == old(commands) + [DefinitionCommand.AddParameter(constraints)]
      ensures result.Ok? ==>
        old(Counted())
        && Tally(commands) == Raised(Tally(old(commands)), DefinitionCommand.AddParameter(constraints))
    {
      var flags := FlagsFor(constraints);
      var payloadLength := 2 + 8 * CountBounds(constraints);
      EncodedCount(constraints);
      ParameterSpelled(constraints, payloadLength);
      result := WriteParameter(
        payloadLength, flags, constraints, ConstraintPayload.Encode(constraints),
        DefinitionCommand.AddParameter(constraints));
    }

    method WriteParameter(
        length: nat, flags: nat, constraints: ConstraintPayload.WireConstraints, ghost bytes: seq<Byte>,
        ghost command: DefinitionCommand)
      returns (result: Result<(), BuilderError>)
      requires Valid() && WellFormed(command) && command.AddParameter?
      requires flags == ConstraintPayload.FromFlags(ConstraintPayload.FlagsOf(constraints))
      requires bytes == ConstraintPayload.Encode(constraints) && length == |bytes| <= 34
      requires FrameOf(command).Encode() == LittleEndian(3, 2) + LittleEndian(length, 4) + bytes
      modifies this`buffer, this`written, this`position, this`commandCount, this`commands, buffer
      ensures buffer == old(buffer) || fresh(buffer)
      ensures result == Outcome(old(Verdict(None, length)), ())
      ensures result.Err? ==> Valid() && commands == old(commands)
      ensures result.Ok? ==> open && !element.open && Complete() && commands == old(commands) + [command]
      ensures result.Ok? ==> old(Counted()) && Tally(commands) == Raised(Tally(old(commands)), command)
    {
      var payload := PrepareCommand(None, 3, length);
      if payload.Err? {
        return Err(payload.error);
      }
      var cursor := FillParameter(payload.value, length, flags, constraints, bytes, command);
      CommitCommand(cursor, command);
      return Ok(());
    }

    method FillParameter(
        payload: nat, length: nat, flags: nat, constraints: ConstraintPayload.WireConstraints, ghost bytes: seq<Byte>,
        ghost command: DefinitionCommand)
      returns (cursor: nat)
      requires flags == ConstraintPayload.FromFlags(ConstraintPayload.FlagsOf(constraints))
      requires bytes == ConstraintPayload.Encode(constraints)
      requires Stored() && payload == |written| && payload + |bytes| <= buffer.Length
      requires written == Encoded(commands) + (LittleEndian(3, 2) + LittleEndian(length, 4))
      requires FrameOf(command).Encode() == LittleEndian(3, 2) + LittleEndian(length, 4) + bytes
      modifies this`written, buffer
      ensures Stored() && cursor == |written| && written == Encoded(commands) + FrameOf(command).Encode()
    {
      Regroup(Encoded(commands), LittleEndian(3, 2) + LittleEndian(length, 4), bytes);
      cursor := SetConstraints(payload, flags, constraints, bytes);
    }

    method CountParameter()
      requires open && !element.open && Complete()
      requires Counters(counters.nodes, counters.parameters + 1, counters.elements, counters.observers) == Tally(commands)
      modifies this`counters
      ensures Valid()
    {
      counters := counters.(parameters := counters.parameters + 1);
    }

    // An element, piece by piece.

    /** `beginElement`. */
    method BeginElement(definitionId: JavaInt) returns (result: Result<(), BuilderError>)
      requires Valid()
      modifies this, buffer
      ensures Valid() && (buffer == old(buffer) || fresh(buffer)) && open == old(open) && commands == old(commands)
      ensures result ==
        Outcome(old(Verdict(if definitionId == 0 then Some(ZeroDefinition) else None, 8)), ())
      ensures result.Ok? ==> element.open && draft == Draft(Unsigned(definitionId), [], [], false)
      ensures result.Err? ==> element.open == old(element.open) && draft == old(draft)
    {
      var room := RequireRoom(if definitionId == 0 then Some(ZeroDefinition) else None, 8);
      if room.Err? {
        return room;
      }
      SetElementStart(definitionId);
      FreshIsDraft(commands, Unsigned(definitionId));
      EnterElement(Draft(Unsigned(definitionId), [], [], false));
      return Ok(());
    }

    method EnterElement(ghost next: Draft)
      requires open && !element.open && Stored() && Counted() && IsProgram(commands)
      requires commandCount == |commands| && position == |Encoded(commands)|
      requires next.terminals == [] && next.parameters == [] && !next.started && IsDraft(commands, next)
      requires |written| == position + 14 && written == Encoded(commands) + DraftBytes(next)
      modifies this`position, this`draft, this`element
      ensures Phase() == InElement && element.open && draft == next
    {
      element := OpenElement(true, false, position, position + 10, 0, 0, 0);
      position := position + 14;
      draft := next;
      InsideElement();
    }

    lemma InsideElement()
      requires open && element.open && Core() && Counted() && Drafting()
      ensures Phase() == InElement
    {
    }

    method SetElementStart(definitionId: JavaInt)
      requires Stored() && position == |written| && position + 14 <= buffer.Length
      modifies this`written, buffer
      ensures Stored() && written == old(written) + DraftBytes(Draft(Unsigned(definitionId), [], [], false))
    {
      ghost var start, id := written, LittleEndian(Unsigned(definitionId), 4);
      DraftBegins(Unsigned(definitionId));
      FourParts(start, LittleEndian(4, 2), LittleEndian(0, 4), id, LittleEndian(0, 4));
      Set(position, 4, 2);
      Set(position + 2, 0, 4);
      Set(position + 6, Unsigned(definitionId), 4);
      Set(position + 10, 0, 4);
    }

    /** What keeps a further piece from being added to the element, `fault` being what its arguments
        have against it and `bytes` what it takes. */
    ghost function ElementVerdict(fault: Option<BuilderError>, bytes: nat): Option<BuilderError>
      reads this
    {
      if !open then Some(Closed)
      else if !element.open then Some(NoElement)
      else if fault.Some? then fault
      else if position + bytes > UINT32_MAX then Some(ExceedsInputLength)
      else None
    }

    /** `requireElementOpen`, the check of the arguments, and `ensureWritable`. */
    method RequireElementRoom(fault: Option<BuilderError>, bytes: nat) returns (room: Result<(), BuilderError>)
      requires Valid()
      modifies this`buffer
      ensures Valid() && (buffer == old(buffer) || fresh(buffer))
      ensures room == Outcome(old(ElementVerdict(fault, bytes)), ())
      ensures room.Ok? ==> Phase() == InElement && position + bytes <= buffer.Length
    {
      if !open {
        return Err(Closed);
      }
      if !element.open {
        return Err(NoElement);
      }
      if fault.Some? {
        return Err(fault.value);
      }
      room := EnsureWritable(bytes);
    }

    /** `elementTerminal`. */
    method ElementTerminal(nodeId: JavaInt) returns (result: Result<(), BuilderError>)
      requires Valid()
      modifies this, buffer
      ensures Valid() && (buffer == old(buffer) || fresh(buffer)) && open == old(open) && commands == old(commands)
      ensures result == Outcome(
        old(ElementVerdict(
          if draft.started then Some(ParametersStarted) else Existing(nodeId, DeclaredNodes(commands)), 4)), ())
      ensures element.open == old(element.open)
      ensures draft ==
        if result.Ok? then old(draft).(terminals := old(draft).terminals + [Unsigned(nodeId)]) else old(draft)
    {
      var room := RequireElementRoom(
        if element.parametersStarted then Some(ParametersStarted) else Existing(nodeId, counters.nodes), 4);
      if room.Err? {
        return room;
      }
      TakeTerminal(nodeId);
      return Ok(());
    }

    method TakeTerminal(nodeId: JavaInt)
      requires Phase() == InElement && position + 4 <= buffer.Length
      requires !draft.started && Unsigned(nodeId) < DeclaredNodes(commands)
      modifies this`position, this`element, this`draft, this`written, buffer
      ensures Phase() == InElement
      ensures element.open && draft == old(draft).(terminals := old(draft).terminals + [Unsigned(nodeId)])
    {
      TerminalAppends(draft, Unsigned(nodeId));
      TerminalIsDraft(commands, draft, Unsigned(nodeId));
      Regroup(Encoded(commands), DraftBytes(draft), LittleEndian(Unsigned(nodeId), 4));
      Set(position, Unsigned(nodeId), 4);
      TakeIn(
        position + 4,
        element.(terminalCount := element.terminalCount + 1),
        draft.(terminals := draft.terminals + [Unsigned(nodeId)]));
    }

    /** Take in the bytes set behind the element. */
    method TakeIn(end: nat, next: OpenElement, ghost nextDraft: Draft)
      requires open && next.open && Stored() && Counted() && IsProgram(commands) && commandCount == |commands|
      requires end == |written| && written == Encoded(commands) + DraftBytes(nextDraft)
      requires IsDraft(commands, nextDraft) && IsPlaced(next, nextDraft, |Encoded(commands)|)
      modifies this`position, this`element, this`draft
      ensures Phase() == InElement && element == next && draft == nextDraft && position == end
    {
      position, element, draft := end, next, nextDraft;
      InsideElement();
    }

    /** `beginElementParameters`: fill in the terminal count, and leave room for the parameter count. */
    method BeginParameters() returns (room: Result<(), BuilderError>)
      requires Phase() == InElement
      modifies this`buffer, this`position, this`element, this`draft, this`written, buffer
      ensures Phase() == InElement && element.open && (buffer == old(buffer) || fresh(buffer))
      ensures room ==
        if old(draft).started || old(position) + 4 <= UINT32_MAX then Ok(()) else Err(ExceedsInputLength)
      ensures draft == if room.Ok? then old(draft).(started := true) else old(draft)
      ensures position == old(position) + if room.Ok? && !old(draft).started then 4 else 0
    {
      if element.parametersStarted {
        return Ok(());
      }
      room := EnsureWritable(4);
      if room.Ok? {
        StartParameters();
      }
    }

    method StartParameters()
      requires Phase() == InElement && !draft.started && position + 4 <= buffer.Length
      modifies this`position, this`element, this`draft, this`written, buffer
      ensures Phase() == InElement && element.open
      ensures draft == old(draft).(started := true) && position == old(position) + 4
    {
      StartBehind(Encoded(commands), draft);
      StartIsDraft(commands, draft);
      Patch(element.terminalCountOffset, element.terminalCount, 4);
      Set(position, 0, 4);
      TakeIn(
        position + 4,
        element.(parameterCountOffset := position, parametersStarted := true),
        draft.(started := true));
    }

    /** `requireElementOpen`, and what the arguments have against them. */
    function RequireElement(fault: Option<BuilderError>): Result<(), BuilderError>
      reads this
    {
      if !open then Err(Closed)
      else if !element.open then Err(NoElement)
      else if fault.Some? then Err(fault.value)
      else Ok(())
    }

    /** What keeps a parameter value of this size from being added. */
    ghost function ValueVerdict(fault: Option<BuilderError>, bytes: nat): Option<BuilderError>
      reads this
    {
      ElementVerdict(fault, bytes + if draft.started then 0 else 4)
    }

    /** Room for a parameter value. When only the value does not fit, the terminals are closed all the same. */
    method RequireValueRoom(fault: Option<BuilderError>, bytes: nat) returns (room: Result<(), BuilderError>)
      requires Valid()
      modifies this`buffer, this`position, this`element, this`draft, this`written, buffer
      ensures Valid() && (buffer == old(buffer) || fresh(buffer)) && element.open == old(element.open)
      ensures room == Outcome(old(ValueVerdict(fault, bytes)), ())
      ensures draft == if old(ValueVerdict(fault, 0)).None? then old(draft).(started := true) else old(draft)
      ensures room.Ok? ==> Phase() == InElement && position + bytes <= buffer.Length
    {
      var _ :- RequireElement(fault);
      var _ :- BeginParameters();
      room := EnsureWritable(bytes);
    }

    /** `elementLiteral`. */
    method ElementLiteral(value: JavaDouble) returns (result: Result<(), BuilderError>)
      requires Valid()
      modifies this, buffer
      ensures Valid() && (buffer == old(buffer) || fresh(buffer)) && open == old(open) && commands == old(commands)
      ensures element.open == old(element.open)
      ensures result == Outcome(old(ValueVerdict(if IsFinite(value) then None else Some(LiteralNotFinite), 9)), ())
      ensures result.Ok? ==> draft == WithParameter(old(draft), ElementPayload.Literal(value))
      ensures result.Err? ==> draft == old(draft) || draft == old(draft).(started := true)
    {
      var room := RequireValueRoom(if IsFinite(value) then None else Some(LiteralNotFinite), 9);
      if room.Err? {
        return room;
      }
      LiteralIsSpelled(value);
      TakeValue(0, value, 8, ElementPayload.Literal(value));
      return Ok(());
    }

    /** `elementParameter`. */
    method ElementParameter(parameterId: JavaInt) returns (result: Result<(), BuilderError>)
      requires Valid()
      modifies this, buffer
      ensures Valid() && (buffer == old(buffer) || fresh(buffer)) && open == old(open) && commands == old(commands)
      ensures element.open == old(element.open)
      ensures result == Outcome(old(ValueVerdict(Existing(parameterId, DeclaredParameters(commands)), 5)), ())
      ensures result.Ok? ==> draft == WithParameter(old(draft), ElementPayload.Parameter(Unsigned(parameterId)))
      ensures result.Err? ==> draft == old(draft) || draft == old(draft).(started := true)
    {
      var room := RequireValueRoom(Existing(parameterId, counters.parameters), 5);
      if room.Err? {
        return room;
      }
      ParameterIsSpelled(Unsigned(parameterId));
      TakeValue(1, Unsigned(parameterId), 4, ElementPayload.Parameter(Unsigned(parameterId)));
      return Ok(());
    }

    method TakeValue(kind: nat, content: nat, width: nat, ghost value: ElementPayload.ValueRef)
      requires Phase() == InElement && draft.started && position + 1 + width <= buffer.Length
      requires ElementPayload.FitsValue(value) && (value.Parameter? ==> value.parameter < DeclaredParameters(commands))
      requires LittleEndian(kind, 1) + LittleEndian(content, width) == ElementPayload.EncodeValue(value)
      modifies this`position, this`element, this`draft, this`written, buffer
      ensures Phase() == InElement && element.open && draft == WithParameter(old(draft), value)
    {
      ghost var next := WithParameter(draft, value);
      ValueBehind(Encoded(commands), draft, value, LittleEndian(kind, 1), LittleEndian(content, width));
      ValueIsDraft(commands, draft, value);
      Set(position, kind, 1);
      Set(position + 1, content, width);
      assert written == Encoded(commands) + DraftBytes(next);
      TakeIn(position + 1 + width, element.(parameterCount := element.parameterCount + 1), next);
    }

    /** `endElement`: the parameter count, the payload length and the command count are filled in. */
    method EndElement() returns (result: Result<nat, BuilderError>)
      requires Valid()
      modifies this, buffer
      ensures Valid() && (buffer == old(buffer) || fresh(buffer)) && open == old(open)
      ensures result == Outcome(old(ValueVerdict(None, 0)), DeclaredElements(old(commands)))
      ensures result.Ok? ==> !element.open && commands == old(commands) + [AddElement(ElementOf(old(draft)))]
      ensures result.Err? ==> element.open == old(element.open) && commands == old(commands) && draft == old(draft)
    {
      var room := RequireValueRoom(None, 0);
      if room.Err? {
        return Err(room.error);
      }
      var elementId := counters.elements;
      FinishElement();
      return Ok(elementId);
    }

    method FinishElement()
      requires Phase() == InElement && draft.started
      modifies this`position, this`commandCount, this`counters, this`commands, this`element, this`written, buffer
      ensures Phase() == TopLevel && !element.open
      ensures commands == old(commands) + [AddElement(ElementOf(draft))]
    {
      var payloadLength := position - (element.commandOffset + COMMAND_HEADER_SIZE);
      ghost var command := AddElement(ElementOf(draft));
      DraftIsElement(commands, draft, payloadLength);
      PatchElement(payloadLength);
      Conclude(command);
    }

    method Conclude(ghost command: DefinitionCommand)
      requires open && Stored() && Counted() && IsProgram(commands) && commandCount == |commands| < UINT32_MAX
      requires position == |written| && written == Encoded(commands) + FrameOf(command).Encode()
      requires command.AddElement? && WellFormed(command) && Refers(command, commands)
      modifies this`position, this`commandCount, this`counters, this`commands, this`element, this`written, buffer
      ensures Phase() == TopLevel && !element.open && commands == old(commands) + [command]
    {
      element := NO_ELEMENT;
      CommitCommand(position, command);
      counters := counters.(elements := counters.elements + 1);
      OutsideElement();
    }

    lemma OutsideElement()
      requires open && !element.open && Complete() && Counted()
      ensures Phase() == TopLevel
    {
    }

    method PatchElement(payloadLength: nat)
      requires Stored() && Drafting() && draft.started
      requires payloadLength == |DraftBytes(draft)| - COMMAND_HEADER_SIZE
      modifies this`written, buffer
      ensures Stored() && |written| == |old(written)|
      ensures written == Encoded(commands) + FrameOf(AddElement(ElementOf(draft))).Encode()
    {
      ghost var start := Encoded(commands);
      CountFits(draft, element.parameterCount);
      EndCompletes(draft, payloadLength);
      PatchPart(
        element.parameterCountOffset, element.parameterCount, 4, start, DraftBytes(draft), CountPlace(draft));
      PatchPart(element.commandOffset + 2, payloadLength, 4, start, WithCount(draft), 2);
    }

    /** Set a word over the second of two parts. */
    method PatchPart(
        offset: nat, value: nat, width: nat, ghost start: seq<Byte>, ghost bytes: seq<Byte>, ghost place: nat)
      requires Stored() && written == start + bytes
      requires place + width <= |bytes| && offset == |start| + place
      modifies this`written, buffer
      ensures Stored() && written == start + Overwritten(bytes, place, LittleEndian(value, width))
    {
      PatchBehind(start, bytes, place, LittleEndian(value, width));
      Patch(offset, value, width);
    }

    /** `encodedSegment`. */
    method EncodedSegment() returns (result: Result<seq<Byte>, BuilderError>)
      requires Valid()
      ensures result == if !open then Err(Closed) else if element.open then Err(ElementUnfinished)
        else Ok(Encoded(commands))
    {
      var _ :- RequireTopLevel();
      return Ok(buffer[..position]);
    }

    /** `reset`. */
    method Reset() returns (result: Result<(), BuilderError>)
      requires Valid()
      modifies this, buffer
      ensures Valid() && open == old(open) && buffer == old(buffer)
      ensures result == if open then Ok(()) else Err(Closed)
      ensures open ==> commands == [] && !element.open
    {
      if !open {
        return Err(Closed);
      }
      ResetState();
      return Ok(());
    }

    method Close()
      requires Valid()
      modifies this
      ensures Valid() && !open
    {
      open, buffer, position, element := false, new Byte[0], 0, NO_ELEMENT;
    }
  }

  ghost function WithParameter(draft: Draft, value: ElementPayload.ValueRef): Draft {
    draft.(started := true, parameters := draft.parameters + [value])
  }

  lemma LiteralIsSpelled(bits: JavaDouble)
    ensures LittleEndian(0, 1) + LittleEndian(bits, 8) == ElementPayload.EncodeValue(ElementPayload.Literal(bits))
    ensures ElementPayload.FitsValue(ElementPayload.Literal(bits))
  {
    WordLimits();
  }

  lemma ParameterIsSpelled(parameter: nat)
    requires parameter < U32_LIMIT
    ensures LittleEndian(1, 1) + LittleEndian(parameter, 4)
         == ElementPayload.EncodeValue(ElementPayload.Parameter(parameter))
    ensures ElementPayload.FitsValue(ElementPayload.Parameter(parameter))
  {
    WordLimits();
  }

  lemma ValueIsDraft(commands: seq<DefinitionCommand>, draft: Draft, value: ElementPayload.ValueRef)
    requires IsDraft(commands, draft) && draft.started && ElementPayload.FitsValue(value)
    requires value.Parameter? ==> value.parameter < DeclaredParameters(commands)
    ensures IsDraft(commands, WithParameter(draft, value))
  {
  }

  lemma ValueBehind(
      start: seq<Byte>, draft: Draft, value: ElementPayload.ValueRef, kind: seq<Byte>, content: seq<Byte>)
    requires draft.started && kind + content == ElementPayload.EncodeValue(value)
    ensures start + DraftBytes(draft) + kind + content == start + DraftBytes(WithParameter(draft, value))
  {
    ValueAppends(draft, value);
    Regroup(start + DraftBytes(draft), kind, content);
    Regroup(start, DraftBytes(draft), kind + content);
  }

  lemma CountFits(draft: Draft, count: nat)
    requires draft.started && count == |draft.parameters|
    ensures CountPlace(draft) + 4 <= |DraftBytes(draft)|
    ensures WithCount(draft) == Overwritten(DraftBytes(draft), CountPlace(draft), LittleEndian(count, 4))
  {
  }

  /** What fits the buffer fits the words of its counts. */
  lemma DraftIsElement(commands: seq<DefinitionCommand>, draft: Draft, length: nat)
    requires IsDraft(commands, draft) && draft.started
    requires length == |DraftBytes(draft)| - COMMAND_HEADER_SIZE && length <= UINT32_MAX
    ensures WellFormed(AddElement(ElementOf(draft))) && Refers(AddElement(ElementOf(draft)), commands)
  {
    WordLimits();
    CountedSplits(draft);
  }

  lemma StartIsDraft(commands: seq<DefinitionCommand>, draft: Draft)
    requires IsDraft(commands, draft)
    ensures IsDraft(commands, draft.(started := true))
  {
    assert ElementOf(draft.(started := true)) == ElementOf(draft);
  }

  lemma StartBehind(start: seq<Byte>, draft: Draft)
    requires !draft.started && draft.parameters == []
    ensures |DraftBytes(draft)| == CountPlace(draft)
    ensures Overwritten(start + DraftBytes(draft), |start| + 10, LittleEndian(|draft.terminals|, 4)) + LittleEndian(0, 4)
         == start + DraftBytes(draft.(started := true))
  {
    var count := LittleEndian(|draft.terminals|, 4);
    PatchBehind(start, DraftBytes(draft), 10, count);
    StartAppends(draft);
    Regroup(start, Overwritten(DraftBytes(draft), 10, count), LittleEndian(0, 4));
  }

  lemma TerminalIsDraft(commands: seq<DefinitionCommand>, draft: Draft, terminal: nat)
    requires IsDraft(commands, draft) && !draft.started && terminal < DeclaredNodes(commands) && terminal < U32_LIMIT
    ensures IsDraft(commands, draft.(terminals := draft.terminals + [terminal]))
  {
    WordLimits();
  }

  lemma FreshIsDraft(commands: seq<DefinitionCommand>, definition: nat)
    requires |commands| < UINT32_MAX && 0 < definition < U32_LIMIT
    ensures IsDraft(commands, Draft(definition, [], [], false))
    ensures |DraftBytes(Draft(definition, [], [], false))| == 14
  {
    DraftBegins(definition);
  }

  lemma DraftBegins(definition: nat)
    ensures DraftBytes(Draft(definition, [], [], false)) ==
            LittleEndian(4, 2) + LittleEndian(0, 4) + LittleEndian(definition, 4) + LittleEndian(0, 4)
  {
  }

  lemma FourParts(start: seq<Byte>, a: seq<Byte>, b: seq<Byte>, c: seq<Byte>, d: seq<Byte>)
    ensures start + a + b + c + d == start + (a + b + c + d)
  {
  }

  /** `requireExistingId`. */
  function Existing(id: JavaInt, count: nat): Option<BuilderError> {
    if Unsigned(id) >= count then Some(UnknownId(Unsigned(id))) else None
  }

  function PairFault(first: JavaInt, firstCount: nat, second: JavaInt, secondCount: nat): Option<BuilderError> {
    if Existing(first, firstCount).Some? then Existing(first, firstCount) else Existing(second, secondCount)
  }

  function BoundFlags(bound: ConstraintPayload.WireBound, presentFlag: nat, inclusiveFlag: nat): nat {
    if bound.None? then 0 else presentFlag + if bound.value.inclusive then inclusiveFlag else 0
  }

  function CountBound(bound: ConstraintPayload.WireBound): nat {
    if bound.None? then 0 else 1
  }

  function CountBounds(c: ConstraintPayload.WireConstraints): nat {
    CountBound(c.lower) + CountBound(c.upper)
      + CountBound(ConstraintPayload.ReciprocalLower(c)) + CountBound(ConstraintPayload.ReciprocalUpper(c))
  }

  /** The flag constants are distinct bits, in the order the native end reads them. */
  lemma FlagsAreBits(c: ConstraintPayload.WireConstraints)
    ensures ConstraintPayload.FromFlags(ConstraintPayload.FlagsOf(c))
         == BoundFlags(c.lower, 1, 2) + BoundFlags(c.upper, 4, 8) + (if c.nonZero then 16 else 0)
              + (if c.reciprocalRange.Some? then 32 else 0)
              + BoundFlags(ConstraintPayload.ReciprocalLower(c), 64, 128)
              + BoundFlags(ConstraintPayload.ReciprocalUpper(c), 256, 512)
  {
    var f := ConstraintPayload.FlagsOf(c);
    TenFlags(f);
    FlagsListed(c);
    BoundFlagsAre(c.lower, 1, 2);
    BoundFlagsAre(c.upper, 4, 8);
    BoundFlagsAre(ConstraintPayload.ReciprocalLower(c), 64, 128);
    BoundFlagsAre(ConstraintPayload.ReciprocalUpper(c), 256, 512);
  }

  lemma FlagsListed(c: ConstraintPayload.WireConstraints)
    ensures var f := ConstraintPayload.FlagsOf(c);
            && f[0] == c.lower.Some? && f[1] == ConstraintPayload.Inclusive(c.lower)
            && f[2] == c.upper.Some? && f[3] == ConstraintPayload.Inclusive(c.upper)
            && f[4] == c.nonZero && f[5] == c.reciprocalRange.Some?
            && f[6] == ConstraintPayload.ReciprocalLower(c).Some?
            && f[7] == ConstraintPayload.Inclusive(ConstraintPayload.ReciprocalLower(c))
            && f[8] == ConstraintPayload.ReciprocalUpper(c).Some?
            && f[9] == ConstraintPayload.Inclusive(ConstraintPayload.ReciprocalUpper(c))
  {
  }

  lemma BoundFlagsAre(bound: ConstraintPayload.WireBound, presentFlag: nat, inclusiveFlag: nat)
    ensures BoundFlags(bound, presentFlag, inclusiveFlag) ==
            presentFlag * ConstraintPayload.Flag(bound.Some?)
              + inclusiveFlag * ConstraintPayload.Flag(ConstraintPayload.Inclusive(bound))
  {
  }

  lemma EncodedCount(c: ConstraintPayload.WireConstraints)
    ensures |ConstraintPayload.Encode(c)| == 2 + 8 * CountBounds(c)
  {
    ConstraintPayload.EncodedLength(c);
  }

  lemma TenFlags(f: seq<bool>)
    requires |f| == 10
    ensures ConstraintPayload.FromFlags(f) ==
      ConstraintPayload.Flag(f[0]) + 2 * ConstraintPayload.Flag(f[1]) + 4 * ConstraintPayload.Flag(f[2])
      + 8 * ConstraintPayload.Flag(f[3]) + 16 * ConstraintPayload.Flag(f[4]) + 32 * ConstraintPayload.Flag(f[5])
      + 64 * ConstraintPayload.Flag(f[6]) + 128 * ConstraintPayload.Flag(f[7]) + 256 * ConstraintPayload.Flag(f[8])
      + 512 * ConstraintPayload.Flag(f[9])
  {
    assert f == f[0..] && f[10..] == [];
    FlagsFrom(f, 0); FlagsFrom(f, 1); FlagsFrom(f, 2); FlagsFrom(f, 3); FlagsFrom(f, 4);
    FlagsFrom(f, 5); FlagsFrom(f, 6); FlagsFrom(f, 7); FlagsFrom(f, 8); FlagsFrom(f, 9);
  }

  lemma FlagsFrom(f: seq<bool>, k: nat)
    requires k < |f|
    ensures ConstraintPayload.FromFlags(f[k..]) ==
            ConstraintPayload.Flag(f[k]) + 2 * ConstraintPayload.FromFlags(f[k + 1..])
  {
    assert f[k..][1..] == f[k + 1..];
  }

  /** The bounds in the order they are written. */
  lemma BoundsBehind(start: seq<Byte>, c: ConstraintPayload.WireConstraints)
    ensures start + LittleEndian(ConstraintPayload.FromFlags(ConstraintPayload.FlagsOf(c)), 2)
              + ConstraintPayload.EncodeBound(c.lower) + ConstraintPayload.EncodeBound(c.upper)
              + ConstraintPayload.EncodeBound(ConstraintPayload.ReciprocalLower(c))
              + ConstraintPayload.EncodeBound(ConstraintPayload.ReciprocalUpper(c))
         == start + ConstraintPayload.Encode(c)
  {
    FiveParts(start, LittleEndian(ConstraintPayload.FromFlags(ConstraintPayload.FlagsOf(c)), 2),
              ConstraintPayload.EncodeBound(c.lower), ConstraintPayload.EncodeBound(c.upper),
              ConstraintPayload.EncodeBound(ConstraintPayload.ReciprocalLower(c)),
              ConstraintPayload.EncodeBound(ConstraintPayload.ReciprocalUpper(c)));
  }

  lemma FiveParts(start: seq<Byte>, f: seq<Byte>, a: seq<Byte>, b: seq<Byte>, c: seq<Byte>, d: seq<Byte>)
    ensures start + f + a + b + c + d == start + (f + (a + (b + (c + d))))
  {
  }

  lemma ParameterSpelled(constraints: ConstraintPayload.WireConstraints, length: nat)
    requires |ConstraintPayload.Encode(constraints)| == length
    ensures FrameOf(DefinitionCommand.AddParameter(constraints)).Encode() ==
            LittleEndian(3, 2) + LittleEndian(length, 4) + ConstraintPayload.Encode(constraints)
  {
    Regroup(LittleEndian(3, 2), LittleEndian(length, 4), ConstraintPayload.Encode(constraints));
  }

  lemma SpelledPair(tag: nat, a: nat, b: nat)
    ensures Frame(tag, Pair(a, b)).Encode() == LittleEndian(tag, 2) + LittleEndian(8, 4) + Pair(a, b)
  {
    Regroup(LittleEndian(tag, 2), LittleEndian(8, 4), Pair(a, b));
  }

  function Outcome<T>(verdict: Option<BuilderError>, id: T): Result<T, BuilderError> {
    match verdict
    case Some(error) => Err(error)
    case None => Ok(id)
  }

  lemma SpelledEmpty(tag: nat)
    ensures Frame(tag, []).Encode() == LittleEndian(tag, 2) + LittleEndian(0, 4)
  {
    assert LittleEndian(0, 4) + [] == LittleEndian(0, 4);
  }

  lemma PatchPrefix(bytes: seq<Byte>, to: nat, offset: nat, word: seq<Byte>)
    requires offset + |word| <= to <= |bytes|
    ensures Overwritten(bytes, offset, word)[..to] == Overwritten(bytes[..to], offset, word)
  {
  }

  lemma EmptyIsEncoded()
    ensures HeaderStart(MAGIC) + LittleEndian(0, 4) == Encoded([])
    ensures IsProgram([]) && Tally([]) == Counters(0, 0, 0, 0)
  {
    assert FramesOf(FrameOf, []) == [];
    assert HeaderStart(MAGIC) + LittleEndian(0, 4) + [] == HeaderStart(MAGIC) + LittleEndian(0, 4);
  }

  // ----- Both ends -----

  /** Why the native end refuses a definition: a command does not apply, or nothing can be built. */
  ghost predicate IsRefusal<S(!new), D, E>(
      commands: seq<DefinitionCommand>, apply: (S, DefinitionCommand) -> (S, Option<E>), initial: S,
      build: S -> Result<D, E>, error: WireError<E>)
  {
    || (exists done, after :: FirstRejection(FrameOf, apply, initial, commands, done, after, error))
    || (&& Runs(apply, initial, commands) && build(After(apply, initial, commands)).Err?
        && error ==
           ErrorAt(Rejected(build(After(apply, initial, commands)).error), |commands|, |Encoded(commands)|))
  }

  lemma WrittenIsRefusedByBuilder<S(!new), D, E(!new)>(
      commands: seq<DefinitionCommand>, done: seq<DefinitionCommand>,
      apply: (S, DefinitionCommand) -> (S, Option<E>), initial: S, build: S -> Result<D, E>, error: WireError<E>)
    requires Encodable(WellFormed, commands) && Encodable(WellFormed, done) && Runs(apply, initial, done)
    requires Refused(Encoded(commands), done, apply, initial, build, error)
    ensures IsRefusal(commands, apply, initial, build, error)
  {
    var input := Encoded(commands);
    CommandsAreFaithful();
    assert !HeaderFault(input, MAGIC, error) by {
      if HeaderFault(input, MAGIC, error) { HeaderFaultRejects(input, MAGIC, error, |commands|); }
    }
    if count: nat, rest: seq<Byte>, after: S :|
      Stopped(MAGIC, FrameOf, WellFormed, CommandFault, input, count, done, rest, apply, initial, after, error)
    {
      CommandFaultExcludes<E>();
      StoppedInEncoding(
        MAGIC, FrameOf, WellFormed, CommandFault, input, count, done, rest, apply, initial, after, error, commands);
    } else {
      BufferIsInjective(MAGIC, FrameOf, WellFormed, done, commands);
    }
  }

  /** `register`: hand the finished bytes to the native end. Both ends together behave as if the
      declarations were made to the native builder one by one, each of them referring to earlier ones. */
  method Register<S(!new), D, E(!new)>(
      builder: DeviceDefinitionBuilder, apply: (S, DefinitionCommand) -> (S, Option<E>), initial: S,
      build: S -> Result<D, E>)
    returns (result: Result<Result<D, WireError<E>>, BuilderError>)
    requires builder.Valid()
    ensures result.Ok? <==> builder.open && !builder.element.open
    ensures result.Ok? ==>
      var commands := builder.commands;
      && Sound(commands)
      && (result.value.Ok? <==> Runs(apply, initial, commands) && build(After(apply, initial, commands)).Ok?)
      && (result.value.Ok? ==> build(After(apply, initial, commands)) == Ok(result.value.value))
      && (result.value.Err? ==> IsRefusal(commands, apply, initial, build, result.value.error))
  {
    var input := builder.EncodedSegment();
    if input.Err? {
      return Err(input.error);
    }
    ghost var commands := builder.commands;
    assert builder.Phase() == TopLevel && IsProgram(commands);
    var decoded, done := DecodeBuffer(input.value, apply, initial, build);
    if decoded.Ok? {
      BuffersAgree(commands, done);
    } else {
      WrittenIsRefusedByBuilder(commands, done, apply, initial, build, decoded.error);
      assert !Defines(input.value, apply, initial, build, commands);
    }
    return Ok(decoded);
  }

  lemma BuffersAgree(a: seq<DefinitionCommand>, b: seq<DefinitionCommand>)
    requires Encodable(WellFormed, a) && Encodable(WellFormed, b) && Encoded(a) == Encoded(b)
    ensures a == b
  {
    CommandsAreFaithful();
    BufferIsInjective(MAGIC, FrameOf, WellFormed, a, b);
  }
}
