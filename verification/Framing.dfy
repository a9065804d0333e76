// The frame both binary protocols share: a sixteen-byte header, then tagged, length-prefixed commands that are
// decoded and applied one at a time (hynergy-protocol/src/world.rs and definition.rs).
module Framing {
  import opened Support
  import opened ByteCodec

  const VERSION: nat := 1
  const HEADER_LENGTH: nat := 16
  // The command index an error reports when no command is to blame.
  const NO_COMMAND: nat := 0xFFFF_FFFF

  datatype ErrorKind<+E> =
    | InvalidMagic
    | UnsupportedVersion
    | InvalidFlags
    | InvalidReserved
    | TruncatedInput
    | UnknownCommand
    | InvalidCommandLength
    | InvalidId
    | InvalidCount
    | InvalidDefinitionId
    | UnknownValueKind
    | TrailingBytes
    | UnknownWorld
    | Rejected(error: E)

  datatype WireError<+E> = WireError(kind: ErrorKind<E>, commandIndex: nat, byteOffset: nat)

  /** Offsets are stored in 32 bits. */
  function ErrorAt<E>(kind: ErrorKind<E>, commandIndex: nat, offset: nat): WireError<E> {
    WireError(kind, commandIndex, offset % U32_LIMIT)
  }

  // ----- Header -----

  function HeaderStart(magic: seq<Byte>): (start: seq<Byte>)
    requires |magic| == 4
    ensures |start| == 12
  {
    magic + LittleEndian(VERSION, 2) + LittleEndian(0, 2) + LittleEndian(0, 4)
  }

  function Header(magic: seq<Byte>, count: nat): (header: seq<Byte>)
    requires |magic| == 4
    ensures |header| == HEADER_LENGTH
  {
    HeaderStart(magic) + LittleEndian(count, 4)
  }

  ghost predicate StartsRight(input: seq<Byte>, magic: seq<Byte>, length: nat)
    requires |magic| == 4 && length <= 12
  {
    length <= |input| && input[..length] == HeaderStart(magic)[..length]
  }

  /** `error` is the first fault of the header: every field before it is right. */
  ghost predicate HeaderFault<E>(input: seq<Byte>, magic: seq<Byte>, error: WireError<E>)
    requires |magic| == 4
  {
    && error.commandIndex == NO_COMMAND
    && match error.kind
       case InvalidMagic => 4 <= |input| && !StartsRight(input, magic, 4) && error.byteOffset == 0
       case UnsupportedVersion =>
         6 <= |input| && StartsRight(input, magic, 4) && !StartsRight(input, magic, 6) && error.byteOffset == 4
       case InvalidFlags =>
         8 <= |input| && StartsRight(input, magic, 6) && !StartsRight(input, magic, 8) && error.byteOffset == 6
       case InvalidReserved =>
         12 <= |input| && StartsRight(input, magic, 8) && !StartsRight(input, magic, 12) && error.byteOffset == 8
       case TruncatedInput =>
         && |input| < HEADER_LENGTH && error.byteOffset == |input|
         && (4 <= |input| ==> StartsRight(input, magic, 4)) && (6 <= |input| ==> StartsRight(input, magic, 6))
         && (8 <= |input| ==> StartsRight(input, magic, 8)) && (12 <= |input| ==> StartsRight(input, magic, 12))
       case _ => false
  }

  lemma HeaderStartsRight(input: seq<Byte>, magic: seq<Byte>, count: nat)
    requires |magic| == 4
    ensures Header(magic, count) <= input ==>
      && HEADER_LENGTH <= |input| && StartsRight(input, magic, 4) && StartsRight(input, magic, 6)
      && StartsRight(input, magic, 8) && StartsRight(input, magic, 12)
  {
    if Header(magic, count) <= input {
      assert input[..12] == HeaderStart(magic);
      assert input[..8] == input[..12][..8] && input[..6] == input[..12][..6] && input[..4] == input[..12][..4];
    }
  }

  /** A faulty header begins no encoding. */
  lemma HeaderFaultRejects<E>(input: seq<Byte>, magic: seq<Byte>, error: WireError<E>, count: nat)
    requires |magic| == 4 && HeaderFault(input, magic, error)
    ensures !(Header(magic, count) <= input)
  {
    HeaderStartsRight(input, magic, count);
  }

  lemma HeaderIsPrefixFree(magic: seq<Byte>, m: nat, n: nat, s: seq<Byte>, t: seq<Byte>)
    requires |magic| == 4 && m < U32_LIMIT && n < U32_LIMIT
    requires Header(magic, m) + s == Header(magic, n) + t
    ensures m == n && s == t
  {
    WordLimits();
    var whole := Header(magic, m) + s;
    assert whole[12..] == LittleEndian(m, 4) + s;
    assert whole[12..] == LittleEndian(n, 4) + t;
    WordIsPrefixFree(m, n, 4, s, t);
  }

  lemma FieldsInPlace(input: seq<Byte>, before: nat, field: seq<Byte>, rest: seq<Byte>)
    requires before <= |input| && input[before..] == field + rest
    ensures before + |field| <= |input| && input[before..before + |field|] == field
    ensures input[before + |field|..] == rest
  {
    assert input[before..][..|field|] == field && input[before..][|field|..] == rest;
  }

  /** Two different words leave the header's prefixes different. */
  lemma WrongWord(input: seq<Byte>, magic: seq<Byte>, before: nat, width: nat, word: nat, wanted: nat)
    requires |magic| == 4 && before + width <= 12 && before + width <= |input|
    requires word < Power256(width) && wanted < Power256(width)
    requires input[before..before + width] == LittleEndian(word, width)
    requires HeaderStart(magic)[before..before + width] == LittleEndian(wanted, width)
    requires StartsRight(input, magic, before)
    ensures StartsRight(input, magic, before + width) <==> word == wanted
  {
    WordReadsBack(word, width);
    WordReadsBack(wanted, width);
    var end := before + width;
    assert input[..end] == input[..before] + input[before..end];
    assert HeaderStart(magic)[..end] == HeaderStart(magic)[..before] + HeaderStart(magic)[before..end];
    if StartsRight(input, magic, end) {
      assert input[..end][before..] == input[before..end];
      assert HeaderStart(magic)[..end][before..] == HeaderStart(magic)[before..end];
    }
  }

  lemma HeaderLayout(magic: seq<Byte>)
    requires |magic| == 4
    ensures HeaderStart(magic)[..4] == magic
    ensures HeaderStart(magic)[4..6] == LittleEndian(VERSION, 2)
    ensures HeaderStart(magic)[6..8] == LittleEndian(0, 2)
    ensures HeaderStart(magic)[8..12] == LittleEndian(0, 4)
  {
  }

  /** Reads one header word and says whether it is the wanted one. */
  method ReadExpected(decoder: Decoder, magic: seq<Byte>, width: nat, wanted: nat) returns (read: Result<bool, nat>)
    requires |magic| == 4 && decoder.Valid() && decoder.position + width <= 12 && wanted < Power256(width)
    requires StartsRight(decoder.input, magic, decoder.position)
    requires HeaderStart(magic)[decoder.position..decoder.position + width] == LittleEndian(wanted, width)
    modifies decoder`position
    ensures decoder.Valid()
    ensures read.Ok? ==> decoder.position == old(decoder.position) + width
    ensures read.Ok? ==> (read.value <==> StartsRight(decoder.input, magic, decoder.position))
    ensures read.Err? ==> |decoder.input| < old(decoder.position) + width && read.error == decoder.End()
  {
    ghost var before := decoder.position;
    var word :- decoder.ReadWord(width);
    FieldsInPlace(decoder.input, before, LittleEndian(word, width), decoder.Rest());
    WrongWord(decoder.input, magic, before, width, word, wanted);
    return Ok(word == wanted);
  }

  method ReadMagic(decoder: Decoder, magic: seq<Byte>) returns (read: Result<bool, nat>)
    requires |magic| == 4 && decoder.Valid() && decoder.position == 0
    modifies decoder`position
    ensures decoder.Valid()
    ensures read.Ok? ==> decoder.position == 4 && (read.value <==> StartsRight(decoder.input, magic, 4))
    ensures read.Err? ==> |decoder.input| < 4 && read.error == decoder.End()
  {
    HeaderLayout(magic);
    var found :- decoder.ReadBytes(4);
    FieldsInPlace(decoder.input, 0, found, decoder.Rest());
    return Ok(found == magic);
  }

  /** The count follows a right start. */
  lemma HeaderEnds(input: seq<Byte>, magic: seq<Byte>, count: nat, rest: seq<Byte>)
    requires |magic| == 4 && StartsRight(input, magic, 12) && input[12..] == LittleEndian(count, 4) + rest
    ensures input == Header(magic, count) + rest
  {
    assert input == input[..12] + input[12..];
  }

  method ReadHeader<E>(decoder: Decoder, magic: seq<Byte>) returns (count: Result<nat, WireError<E>>)
    requires |magic| == 4 && decoder.Valid() && decoder.position == 0 && decoder.baseOffset == 0
    modifies decoder`position
    ensures decoder.Valid()
    ensures count.Ok? ==> count.value < U32_LIMIT && decoder.position == HEADER_LENGTH
    ensures count.Ok? ==> decoder.input == Header(magic, count.value) + decoder.Rest()
    ensures count.Err? ==> HeaderFault(decoder.input, magic, count.error)
  {
    WordLimits();
    HeaderLayout(magic);
    var start := decoder.Offset();
    var expected := ReadMagic(decoder, magic);
    if expected.Err? {
      return Err(ErrorAt(TruncatedInput, NO_COMMAND, expected.error));
    }
    if !expected.value {
      return Err(ErrorAt(InvalidMagic, NO_COMMAND, start));
    }

    var version := decoder.Offset();
    expected := ReadExpected(decoder, magic, 2, VERSION);
    if expected.Err? {
      return Err(ErrorAt(TruncatedInput, NO_COMMAND, expected.error));
    }
    if !expected.value {
      return Err(ErrorAt(UnsupportedVersion, NO_COMMAND, version));
    }

    var flags := decoder.Offset();
    expected := ReadExpected(decoder, magic, 2, 0);
    if expected.Err? {
      return Err(ErrorAt(TruncatedInput, NO_COMMAND, expected.error));
    }
    if !expected.value {
      return Err(ErrorAt(InvalidFlags, NO_COMMAND, flags));
    }

    var reserved := decoder.Offset();
    expected := ReadExpected(decoder, magic, 4, 0);
    if expected.Err? {
      return Err(ErrorAt(TruncatedInput, NO_COMMAND, expected.error));
    }
    if !expected.value {
      return Err(ErrorAt(InvalidReserved, NO_COMMAND, reserved));
    }

    var number := decoder.ReadWord(4);
    if number.Err? {
      return Err(ErrorAt(TruncatedInput, NO_COMMAND, number.error));
    }
    HeaderEnds(decoder.input, magic, number.value, decoder.Rest());
    return Ok(number.value);
  }

  // ----- Frames -----

  datatype Frame = Frame(tag: nat, payload: seq<Byte>) {
    predicate Fits() {
      tag < 0x1_0000 && |payload| < U32_LIMIT
    }

    function Encode(): seq<Byte> {
      LittleEndian(tag, 2) + (LittleEndian(|payload|, 4) + payload)
    }
  }

  lemma FrameIsPrefixFree(a: Frame, b: Frame, s: seq<Byte>, t: seq<Byte>)
    requires a.Fits() && b.Fits() && a.Encode() + s == b.Encode() + t
    ensures a == b && s == t
  {
    WordLimits();
    var sizeA, sizeB := LittleEndian(|a.payload|, 4), LittleEndian(|b.payload|, 4);
    assert a.Encode() + s == LittleEndian(a.tag, 2) + (sizeA + (a.payload + s));
    assert b.Encode() + t == LittleEndian(b.tag, 2) + (sizeB + (b.payload + t));
    WordIsPrefixFree(a.tag, b.tag, 2, sizeA + (a.payload + s), sizeB + (b.payload + t));
    WordIsPrefixFree(|a.payload|, |b.payload|, 4, a.payload + s, b.payload + t);
    assert (a.payload + s)[..|a.payload|] == a.payload;
    assert (a.payload + s)[|a.payload|..] == s && (b.payload + t)[|a.payload|..] == t;
  }

  function EncodeFrames(frames: seq<Frame>): seq<Byte> {
    if frames == [] then [] else frames[0].Encode() + EncodeFrames(frames[1..])
  }

  lemma {:induction false} EncodeFramesAppend(frames: seq<Frame>, last: Frame)
    ensures EncodeFrames(frames + [last]) == EncodeFrames(frames) + last.Encode()
  {
    if frames == [] {
      assert EncodeFrames([last]) == last.Encode() + EncodeFrames([]);
    } else {
      EncodeFramesAppend(frames[1..], last);
      assert (frames + [last])[1..] == frames[1..] + [last];
    }
  }

  lemma {:induction false} FramesArePrefixFree(done: seq<Frame>, rest: seq<Byte>, all: seq<Frame>)
    requires forall f | f in done :: f.Fits()
    requires forall f | f in all :: f.Fits()
    requires |done| <= |all| && EncodeFrames(done) + rest == EncodeFrames(all)
    ensures done == all[..|done|] && rest == EncodeFrames(all[|done|..])
  {
    if done == [] {
      assert EncodeFrames(done) + rest == rest;
      assert all[|done|..] == all;
    } else {
      assert EncodeFrames(done) + rest == done[0].Encode() + (EncodeFrames(done[1..]) + rest);
      FrameIsPrefixFree(done[0], all[0], EncodeFrames(done[1..]) + rest, EncodeFrames(all[1..]));
      FramesArePrefixFree(done[1..], rest, all[1..]);
      assert done == [done[0]] + done[1..] && all[..|done|] == [all[0]] + all[1..][..|done| - 1];
      assert all[1..][|done| - 1..] == all[|done|..];
    }
  }

  lemma FrameAppends(tag: nat, payload: seq<Byte>, tail: seq<Byte>)
    ensures LittleEndian(tag, 2) + (LittleEndian(|payload|, 4) + (payload + tail)) ==
      Frame(tag, payload).Encode() + tail
  {
    var size := LittleEndian(|payload|, 4);
    Regroup(size, payload, tail);
    Regroup(LittleEndian(tag, 2), size + payload, tail);
  }

  function TagOf(rest: seq<Byte>): nat
    requires 6 <= |rest|
  {
    FromLittleEndian(rest[..2])
  }

  function LengthOf(rest: seq<Byte>): nat
    requires 6 <= |rest|
  {
    FromLittleEndian(rest[2..6])
  }

  lemma FrameStart(rest: seq<Byte>, tag: nat, length: nat, body: seq<Byte>)
    requires tag < Power256(2) && length < Power256(4)
    requires rest == LittleEndian(tag, 2) + (LittleEndian(length, 4) + body)
    ensures 6 <= |rest| && TagOf(rest) == tag && LengthOf(rest) == length && rest[6..] == body
  {
    WordReadsBack(tag, 2);
    WordReadsBack(length, 4);
    assert rest == rest[0..];
    FieldsInPlace(rest, 0, LittleEndian(tag, 2), LittleEndian(length, 4) + body);
    FieldsInPlace(rest, 2, LittleEndian(length, 4), body);
    assert rest[..2] == rest[0..2];
  }

  method DecodeWord<E>(decoder: Decoder, width: nat, index: nat) returns (word: Result<nat, WireError<E>>)
    requires decoder.Valid()
    modifies decoder`position
    ensures decoder.Valid()
    ensures word.Ok? ==> word.value < Power256(width)
    ensures word.Ok? ==> old(decoder.Rest()) == LittleEndian(word.value, width) + decoder.Rest()
    ensures word.Err? ==> |old(decoder.Rest())| < width && word.error == ErrorAt(TruncatedInput, index, decoder.End())
  {
    var read := decoder.ReadWord(width);
    if read.Err? {
      return Err(ErrorAt(TruncatedInput, index, read.error));
    }
    return Ok(read.value);
  }

  /** The tag and payload length every command begins with. */
  method ReadFrameStart<E>(decoder: Decoder, index: nat) returns (start: Result<(nat, nat), WireError<E>>)
    requires decoder.Valid()
    modifies decoder`position
    ensures decoder.Valid()
    ensures start.Ok? ==>
      && 6 <= |old(decoder.Rest())| && decoder.position == old(decoder.position) + 6
      && start.value.0 < Power256(2) && start.value.1 < Power256(4)
      && TagOf(old(decoder.Rest())) == start.value.0 && LengthOf(old(decoder.Rest())) == start.value.1
      && old(decoder.Rest())[6..] == decoder.Rest()
      && old(decoder.Rest()) == LittleEndian(start.value.0, 2) + (LittleEndian(start.value.1, 4) + decoder.Rest())
    ensures start.Err? ==>
      |old(decoder.Rest())| < 6 && start.error == ErrorAt(TruncatedInput, index, decoder.End())
  {
    ghost var rest := decoder.Rest();
    var tag :- DecodeWord(decoder, 2, index);
    var length :- DecodeWord(decoder, 4, index);
    FrameStart(rest, tag, length, decoder.Rest());
    return Ok((tag, length));
  }

  // ----- Buffers -----

  function FramesOf<C>(frame: C -> Frame, commands: seq<C>): (frames: seq<Frame>)
    ensures |frames| == |commands|
  {
    seq(|commands|, i requires 0 <= i < |commands| => frame(commands[i]))
  }

  function EncodeBuffer<C>(magic: seq<Byte>, frame: C -> Frame, commands: seq<C>): seq<Byte>
    requires |magic| == 4
  {
    Header(magic, |commands|) + EncodeFrames(FramesOf(frame, commands))
  }

  /** The command encoding is injective on valid commands and every valid command fits its frame. */
  ghost predicate Faithful<C(!new)>(frame: C -> Frame, valid: C -> bool) {
    && (forall c | valid(c) :: frame(c).Fits())
    && (forall c, d | valid(c) && valid(d) && frame(c) == frame(d) :: c == d)
  }

  ghost predicate Encodable<C>(valid: C -> bool, commands: seq<C>) {
    |commands| < U32_LIMIT && forall c | c in commands :: valid(c)
  }

  /** What the loop knows of a buffer after decoding `done`: its header and those commands came first. */
  ghost predicate Decoded<C>(
      input: seq<Byte>, magic: seq<Byte>, frame: C -> Frame, count: nat, done: seq<C>, rest: seq<Byte>)
    requires |magic| == 4
  {
    input == Header(magic, count) + (EncodeFrames(FramesOf(frame, done)) + rest)
  }

  lemma DecodedStart<C>(input: seq<Byte>, magic: seq<Byte>, frame: C -> Frame, count: nat, rest: seq<Byte>)
    requires |magic| == 4 && input == Header(magic, count) + rest
    ensures Decoded(input, magic, frame, count, [], rest)
  {
    assert FramesOf(frame, []) == [];
    assert EncodeFrames([]) + rest == rest;
  }

  lemma DecodedNext<C>(
      input: seq<Byte>, magic: seq<Byte>, frame: C -> Frame, count: nat, done: seq<C>, next: C, before: seq<Byte>,
      rest: seq<Byte>)
    requires |magic| == 4 && Decoded(input, magic, frame, count, done, before)
    requires before == frame(next).Encode() + rest
    ensures Decoded(input, magic, frame, count, done + [next], rest)
  {
    assert FramesOf(frame, done + [next]) == FramesOf(frame, done) + [frame(next)];
    EncodeFramesAppend(FramesOf(frame, done), frame(next));
    var prefix := EncodeFrames(FramesOf(frame, done));
    Regroup(prefix, frame(next).Encode(), rest);
  }

  /** If the buffer is an encoding at all, what was decoded is exactly the beginning of what was encoded. */
  lemma DecodedIsPrefix<C(!new)>(
      input: seq<Byte>, magic: seq<Byte>, frame: C -> Frame, valid: C -> bool, count: nat, done: seq<C>,
      rest: seq<Byte>, commands: seq<C>)
    requires |magic| == 4 && Faithful(frame, valid) && count < U32_LIMIT
    requires |done| <= count && Encodable(valid, done) && Encodable(valid, commands)
    requires Decoded(input, magic, frame, count, done, rest) && input == EncodeBuffer(magic, frame, commands)
    ensures |commands| == count && done == commands[..|done|]
    ensures rest == EncodeFrames(FramesOf(frame, commands[|done|..]))
  {
    var front, all := FramesOf(frame, done), FramesOf(frame, commands);
    HeaderIsPrefixFree(magic, count, |commands|, EncodeFrames(front) + rest, EncodeFrames(all));
    forall f | f in front ensures f.Fits() {
      var i :| 0 <= i < |front| && front[i] == f;
      assert done[i] in done;
    }
    forall f | f in all ensures f.Fits() {
      var i :| 0 <= i < |all| && all[i] == f;
      assert commands[i] in commands;
    }
    FramesArePrefixFree(front, rest, all);
    forall i | 0 <= i < |done| ensures done[i] == commands[i] {
      assert done[i] in done && commands[i] in commands;
      assert front[i] == all[..|done|][i];
    }
    assert all[|done|..] == FramesOf(frame, commands[|done|..]);
  }

  /** Command lists are recovered from their buffers. */
  lemma BufferIsInjective<C(!new)>(
      magic: seq<Byte>, frame: C -> Frame, valid: C -> bool, a: seq<C>, b: seq<C>)
    requires |magic| == 4 && Faithful(frame, valid) && Encodable(valid, a) && Encodable(valid, b)
    requires EncodeBuffer(magic, frame, a) == EncodeBuffer(magic, frame, b)
    ensures a == b
  {
    var frames := EncodeFrames(FramesOf(frame, a));
    assert frames + [] == frames;
    DecodedIsPrefix(EncodeBuffer(magic, frame, a), magic, frame, valid, |a|, a, [], b);
  }

  /** The next command of an encoding begins what is left of it. */
  lemma NextFrame<C>(frame: C -> Frame, commands: seq<C>, i: nat)
    requires i < |commands|
    ensures EncodeFrames(FramesOf(frame, commands[i..]))
         == frame(commands[i]).Encode() + EncodeFrames(FramesOf(frame, commands[i + 1..]))
  {
    assert FramesOf(frame, commands[i..])[1..] == FramesOf(frame, commands[i + 1..]);
  }

  // ----- Application -----

  /** The state after applying the commands in order; a rejected command leaves the state its `apply` returns. */
  function After<S, C, E>(apply: (S, C) -> (S, Option<E>), state: S, commands: seq<C>): S {
    if commands == [] then state
    else apply(After(apply, state, commands[..|commands| - 1]), commands[|commands| - 1]).0
  }

  /** No command of the list is rejected. */
  ghost predicate Runs<S, C, E>(apply: (S, C) -> (S, Option<E>), state: S, commands: seq<C>) {
    commands == [] ||
    var init, last := commands[..|commands| - 1], commands[|commands| - 1];
    Runs(apply, state, init) && apply(After(apply, state, init), last).1.None?
  }

  lemma RunsNext<S, C, E>(apply: (S, C) -> (S, Option<E>), state: S, commands: seq<C>, next: C)
    ensures Runs(apply, state, commands + [next])
         == (Runs(apply, state, commands) && apply(After(apply, state, commands), next).1.None?)
    ensures After(apply, state, commands + [next]) == apply(After(apply, state, commands), next).0
  {
    assert (commands + [next])[..|commands|] == commands;
  }

  lemma {:induction false} RunsPrefix<S, C, E>(apply: (S, C) -> (S, Option<E>), state: S, commands: seq<C>, length: nat)
    requires length <= |commands| && Runs(apply, state, commands)
    ensures Runs(apply, state, commands[..length])
    decreases |commands|
  {
    if length == |commands| {
      assert commands[..length] == commands;
    } else {
      RunsPrefix(apply, state, commands[..|commands| - 1], length);
      assert commands[..|commands| - 1][..length] == commands[..length];
    }
  }

  lemma RejectionStopsRun<S, C, E>(apply: (S, C) -> (S, Option<E>), state: S, commands: seq<C>, i: nat)
    requires i < |commands| && apply(After(apply, state, commands[..i]), commands[i]).1.Some?
    ensures !Runs(apply, state, commands)
  {
    RunsNext(apply, state, commands[..i], commands[i]);
    assert commands[..i + 1] == commands[..i] + [commands[i]];
    if Runs(apply, state, commands) {
      RunsPrefix(apply, state, commands, i + 1);
    }
  }

  /** The input is the encoding of a list of valid commands every one of which applies. */
  ghost predicate Accepts<S, C, E>(
      magic: seq<Byte>, frame: C -> Frame, valid: C -> bool, input: seq<Byte>, apply: (S, C) -> (S, Option<E>),
      initial: S, commands: seq<C>)
    requires |magic| == 4
  {
    && Encodable(valid, commands) && input == EncodeBuffer(magic, frame, commands)
    && Runs(apply, initial, commands)
  }

  /** A rejected command leaves the state `apply` returns; an atomic `apply` returns the state it was given. */
  ghost predicate Atomic<S(!new), C(!new), E>(apply: (S, C) -> (S, Option<E>)) {
    forall state, command :: apply(state, command).1.Some? ==> apply(state, command).0 == state
  }

  // ----- Stopping early -----

  /** The command at the head of `rest` is valid and rejected. */
  ghost predicate RejectedNext<S, C, E>(
      frame: C -> Frame, valid: C -> bool, rest: seq<Byte>, at: nat, apply: (S, C) -> (S, Option<E>), state: S,
      after: S, index: nat, error: WireError<E>, command: C, tail: seq<Byte>) {
    && valid(command) && rest == frame(command).Encode() + tail
    && apply(state, command).1.Some? && after == apply(state, command).0
    && error == ErrorAt(Rejected(apply(state, command).1.value), index, at)
  }

  /** What a decoder reports as the fault of `rest` never describes bytes that begin with a valid command. */
  ghost predicate Excludes<C(!new), E(!new)>(
      frame: C -> Frame, valid: C -> bool, fault: (seq<Byte>, nat, nat, WireError<E>) -> bool) {
    forall rest, at, index, error, command, tail ::
      valid(command) && rest == frame(command).Encode() + tail ==> !fault(rest, at, index, error)
  }

  /** The command at the head of `rest` cannot be decoded, or is rejected. */
  ghost predicate FailsNext<S, C(!new), E>(
      frame: C -> Frame, valid: C -> bool, fault: (seq<Byte>, nat, nat, WireError<E>) -> bool,
      rest: seq<Byte>, at: nat, apply: (S, C) -> (S, Option<E>), state: S, after: S, index: nat,
      error: WireError<E>) {
    || (fault(rest, at, index, error) && after == state)
    || exists command, tail :: RejectedNext(frame, valid, rest, at, apply, state, after, index, error, command, tail)
  }

  /** Why the loop stops after applying `done`, with `rest` left of the input at offset `at`. */
  ghost predicate StopReason<S, C(!new), E>(
      frame: C -> Frame, valid: C -> bool, fault: (seq<Byte>, nat, nat, WireError<E>) -> bool,
      rest: seq<Byte>, at: nat, count: nat, done: seq<C>,
      apply: (S, C) -> (S, Option<E>), initial: S, after: S, error: WireError<E>) {
    var state := After(apply, initial, done);
    || (|done| < count && FailsNext(frame, valid, fault, rest, at, apply, state, after, |done|, error))
    || (|done| == count && rest != [] && error == ErrorAt(TrailingBytes, count, at) && after == state)
  }

  /** How the loop stops early: `done` was applied, and what is left of the input is at fault as `error` says. */
  ghost predicate Stopped<S, C(!new), E>(
      magic: seq<Byte>, frame: C -> Frame, valid: C -> bool, fault: (seq<Byte>, nat, nat, WireError<E>) -> bool,
      input: seq<Byte>, count: nat, done: seq<C>, rest: seq<Byte>,
      apply: (S, C) -> (S, Option<E>), initial: S, after: S, error: WireError<E>)
    requires |magic| == 4
  {
    && count < U32_LIMIT && |done| <= count && |rest| <= |input|
    && Decoded(input, magic, frame, count, done, rest)
    && StopReason(frame, valid, fault, rest, |input| - |rest|, count, done, apply, initial, after, error)
  }

  lemma StopsAtRejection<S, C(!new), E>(
      magic: seq<Byte>, frame: C -> Frame, valid: C -> bool, fault: (seq<Byte>, nat, nat, WireError<E>) -> bool,
      input: seq<Byte>, count: nat, done: seq<C>, rest: seq<Byte>,
      apply: (S, C) -> (S, Option<E>), initial: S, error: E, command: C, tail: seq<Byte>)
    requires |magic| == 4 && |done| < count < U32_LIMIT && |rest| <= |input|
    requires Decoded(input, magic, frame, count, done, rest)
    requires valid(command) && rest == frame(command).Encode() + tail
    requires apply(After(apply, initial, done), command).1 == Some(error)
    ensures Stopped(magic, frame, valid, fault, input, count, done, rest, apply, initial,
                    apply(After(apply, initial, done), command).0,
                    ErrorAt(Rejected(error), |done|, |input| - |rest|))
  {
    var state := After(apply, initial, done);
    assert RejectedNext(frame, valid, rest, |input| - |rest|, apply, state, apply(state, command).0, |done|,
                        ErrorAt(Rejected(error), |done|, |input| - |rest|), command, tail);
  }

  /** A buffer the loop stops in encodes no list of commands that all apply. */
  lemma StoppedRejects<S, C(!new), E(!new)>(
      magic: seq<Byte>, frame: C -> Frame, valid: C -> bool, fault: (seq<Byte>, nat, nat, WireError<E>) -> bool,
      input: seq<Byte>, count: nat, done: seq<C>, rest: seq<Byte>,
      apply: (S, C) -> (S, Option<E>), initial: S, after: S, error: WireError<E>, commands: seq<C>)
    requires |magic| == 4 && Faithful(frame, valid) && Excludes(frame, valid, fault)
    requires Stopped(magic, frame, valid, fault, input, count, done, rest, apply, initial, after, error)
    requires Encodable(valid, done)
    ensures !Accepts(magic, frame, valid, input, apply, initial, commands)
  {
    if Accepts(magic, frame, valid, input, apply, initial, commands) {
      DecodedIsPrefix(input, magic, frame, valid, count, done, rest, commands);
      StopReasonRejects(frame, valid, fault, rest, |input| - |rest|, done, apply, initial, after, error, commands);
    }
  }

  lemma StopReasonRejects<S, C(!new), E(!new)>(
      frame: C -> Frame, valid: C -> bool, fault: (seq<Byte>, nat, nat, WireError<E>) -> bool,
      rest: seq<Byte>, at: nat, done: seq<C>,
      apply: (S, C) -> (S, Option<E>), initial: S, after: S, error: WireError<E>, commands: seq<C>)
    requires Faithful(frame, valid) && Excludes(frame, valid, fault)
    requires |done| <= |commands| && done == commands[..|done|] && Encodable(valid, commands)
    requires rest == EncodeFrames(FramesOf(frame, commands[|done|..]))
    requires StopReason(frame, valid, fault, rest, at, |commands|, done, apply, initial, after, error)
    ensures !Runs(apply, initial, commands)
  {
    if |done| < |commands| {
      var next, tail := commands[|done|], EncodeFrames(FramesOf(frame, commands[|done| + 1..]));
      assert next in commands;
      NextFrame(frame, commands, |done|);
      StoppedIsRejected(
        frame, valid, fault, rest, at, apply, After(apply, initial, done), after, |done|, error, next, tail);
      RejectionStopsRun(apply, initial, commands, |done|);
    } else {
      NothingLeft(frame, commands);
    }
  }

  lemma NothingLeft<C>(frame: C -> Frame, commands: seq<C>)
    ensures EncodeFrames(FramesOf(frame, commands[|commands|..])) == []
  {
    assert FramesOf(frame, commands[|commands|..]) == [];
  }

  /** The command after `done` is the first that is rejected; the error names it, its place and why. */
  ghost predicate FirstRejection<S, C, E>(
      frame: C -> Frame, apply: (S, C) -> (S, Option<E>), initial: S, commands: seq<C>, done: seq<C>, after: S,
      error: WireError<E>)
  {
    && |done| < |commands| && done == commands[..|done|] && Runs(apply, initial, done)
    && var verdict := apply(After(apply, initial, done), commands[|done|]);
       verdict.1.Some? && after == verdict.0
       && error == ErrorAt(Rejected(verdict.1.value), |done|, HEADER_LENGTH + |EncodeFrames(FramesOf(frame, done))|)
  }

  lemma DecodedLength<C>(
      input: seq<Byte>, magic: seq<Byte>, frame: C -> Frame, count: nat, done: seq<C>, rest: seq<Byte>)
    requires |magic| == 4 && Decoded(input, magic, frame, count, done, rest)
    ensures |input| - |rest| == HEADER_LENGTH + |EncodeFrames(FramesOf(frame, done))|
  {
  }

  /** In an encoding the loop stops only at a command that is rejected, and the error says which, where
      and why. */
  lemma StoppedInEncoding<S, C(!new), E(!new)>(
      magic: seq<Byte>, frame: C -> Frame, valid: C -> bool, fault: (seq<Byte>, nat, nat, WireError<E>) -> bool,
      input: seq<Byte>, count: nat, done: seq<C>, rest: seq<Byte>,
      apply: (S, C) -> (S, Option<E>), initial: S, after: S, error: WireError<E>, commands: seq<C>)
    requires |magic| == 4 && Faithful(frame, valid) && Excludes(frame, valid, fault)
    requires Stopped(magic, frame, valid, fault, input, count, done, rest, apply, initial, after, error)
    requires Encodable(valid, done) && Runs(apply, initial, done)
    requires Encodable(valid, commands) && input == EncodeBuffer(magic, frame, commands)
    ensures FirstRejection(frame, apply, initial, commands, done, after, error)
  {
    DecodedIsPrefix(input, magic, frame, valid, count, done, rest, commands);
    DecodedLength(input, magic, frame, count, done, rest);
    if |done| == |commands| {
      NothingLeft(frame, commands);
    }
    if |done| < |commands| {
      var next, tail := commands[|done|], EncodeFrames(FramesOf(frame, commands[|done| + 1..]));
      assert next in commands;
      NextFrame(frame, commands, |done|);
      StoppedAtCommand(frame, valid, fault, rest, |input| - |rest|, apply, After(apply, initial, done), after, |done|,
                       error, next, tail);
    }
  }

  /** A stop at a valid command is a rejection of that command. */
  lemma StoppedIsRejected<S, C(!new), E(!new)>(
      frame: C -> Frame, valid: C -> bool, fault: (seq<Byte>, nat, nat, WireError<E>) -> bool,
      rest: seq<Byte>, at: nat, apply: (S, C) -> (S, Option<E>), state: S, after: S, index: nat,
      error: WireError<E>, next: C, nextTail: seq<Byte>)
    requires Faithful(frame, valid) && Excludes(frame, valid, fault)
    requires FailsNext(frame, valid, fault, rest, at, apply, state, after, index, error)
    requires valid(next) && rest == frame(next).Encode() + nextTail
    ensures apply(state, next).1.Some?
  {
    StoppedAtCommand(frame, valid, fault, rest, at, apply, state, after, index, error, next, nextTail);
  }

  lemma StoppedAtCommand<S, C(!new), E(!new)>(
      frame: C -> Frame, valid: C -> bool, fault: (seq<Byte>, nat, nat, WireError<E>) -> bool,
      rest: seq<Byte>, at: nat, apply: (S, C) -> (S, Option<E>), state: S, after: S, index: nat,
      error: WireError<E>, next: C, nextTail: seq<Byte>)
    requires Faithful(frame, valid) && Excludes(frame, valid, fault)
    requires FailsNext(frame, valid, fault, rest, at, apply, state, after, index, error)
    requires valid(next) && rest == frame(next).Encode() + nextTail
    ensures apply(state, next).1.Some? && after == apply(state, next).0
    ensures error == ErrorAt(Rejected(apply(state, next).1.value), index, at)
  {
    assert !fault(rest, at, index, error);
    var command, tail :|
      RejectedNext(frame, valid, rest, at, apply, state, after, index, error, command, tail);
    FrameIsPrefixFree(frame(command), frame(next), tail, nextTail);
    assert command == next;
  }
}
