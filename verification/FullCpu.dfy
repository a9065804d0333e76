// The gate-level CPU (hynergy-benchmarks/src/fixtures/digital.rs): the netlist built for any register
// width, and the proof that it executes the instruction set, one fetch and one execute tick per
// instruction.
module FullCpu {
  import opened Support
  import opened BinaryNumbers
  import opened Netlist
  import opened CpuIsa

  function Inputs(bits: seq<RegisterBit>): (wires: seq<nat>)
    ensures |wires| == |bits| && forall i | 0 <= i < |bits| :: wires[i] == bits[i].input
  {
    seq(|bits|, i requires 0 <= i < |bits| => bits[i].input)
  }

  function Outs(bits: seq<RegisterBit>): (wires: seq<nat>)
    ensures |wires| == |bits| && forall i | 0 <= i < |bits| :: wires[i] == bits[i].output
  {
    seq(|bits|, i requires 0 <= i < |bits| => bits[i].output)
  }

  ghost predicate AllIn(wires: seq<nat>, s: set<nat>) {
    forall w | w in wires :: w in s
  }

  /** Allocate `n` register bits; their wires alternate input, output. */
  method NewRegister(h: DigitalHarness, n: nat) returns (bits: seq<RegisterBit>)
    requires h.Valid()
    modifies h
    ensures h.Valid() && h.gates == old(h.gates) && h.delays == old(h.delays) + bits
    ensures h.wireCount == old(h.wireCount) + 2 * n && |bits| == n
    ensures forall i | 0 <= i < n ::
              bits[i] == RegisterBit(old(h.wireCount) + 2 * i, old(h.wireCount) + 2 * i + 1)
    ensures h.driven == old(h.driven) + SetOf(Outs(bits))
  {
    bits := [];
    for k := 0 to n
      invariant h.Valid() && h.gates == old(h.gates) && h.delays == old(h.delays) + bits
      invariant h.wireCount == old(h.wireCount) + 2 * k && |bits| == k
      invariant forall i | 0 <= i < k ::
                  bits[i] == RegisterBit(old(h.wireCount) + 2 * i, old(h.wireCount) + 2 * i + 1)
      invariant h.driven == old(h.driven) + SetOf(Outs(bits))
    {
      var bit := h.NewRegisterBit();
      assert Outs(bits + [bit]) == Outs(bits) + [bit.output];
      bits := bits + [bit];
    }
  }

  // ----- ROM and decoders -----

  /** A decoder line: high exactly when `wires` carry `number`. */
  method DecoderLine(h: DigitalHarness, wires: seq<nat>, inverted: seq<nat>, number: nat) returns (line: nat)
    requires h.Valid() && |wires| == |inverted| > 0 && AllIn(wires, h.driven) && AllIn(inverted, h.driven)
    requires forall high | Settled(h.gates, high) :: Inverted(wires, inverted, high)
    modifies h
    ensures h.Valid() && h.Grown({}) && line in h.driven
    ensures forall high | Settled(h.gates, high) ::
              line in high <==> Value(wires, high) == Low(number, |wires|)
  {
    var terms := seq(|wires|, k requires 0 <= k < |wires| => if BitOf(number, k) then wires[k] else inverted[k]);
    forall w | w in terms ensures w in h.driven {
      var k :| 0 <= k < |terms| && terms[k] == w;
      assert wires[k] in wires && inverted[k] in inverted;
    }
    ghost var gates := h.gates;
    line := h.AndReduce(terms);
    forall high | Settled(h.gates, high)
      ensures line in high <==> Value(wires, high) == Low(number, |wires|)
    {
      assert Settled(gates, high) && Inverted(wires, inverted, high);
      TermsMeanEqual(wires, inverted, terms, number, high);
    }
  }

  lemma TermsMeanEqual(wires: seq<nat>, inverted: seq<nat>, terms: seq<nat>, number: nat, high: set<nat>)
    requires |wires| == |inverted| == |terms| && Inverted(wires, inverted, high)
    requires forall k | 0 <= k < |wires| :: terms[k] == if BitOf(number, k) then wires[k] else inverted[k]
    ensures (forall w | w in terms :: w in high) <==> Value(wires, high) == Low(number, |wires|)
  {
    if forall w | w in terms :: w in high {
      forall k | 0 <= k < |wires| ensures wires[k] in high <==> BitOf(number, k) {
        assert terms[k] in terms;
      }
      ValueOfBits(wires, high, number);
    }
    if Value(wires, high) == Low(number, |wires|) {
      EqualValuesEqualBits(wires, high, number);
    }
  }

  ghost predicate Inverted(wires: seq<nat>, inverted: seq<nat>, high: set<nat>) {
    |inverted| <= |wires| && forall k | 0 <= k < |inverted| :: inverted[k] in high <==> wires[k] !in high
  }

  method InvertNext(h: DigitalHarness, wires: seq<nat>, inverted: seq<nat>) returns (more: seq<nat>)
    requires h.Valid() && AllIn(wires, h.driven) && |inverted| < |wires| && AllIn(inverted, h.driven)
    requires forall high | Settled(h.gates, high) :: Inverted(wires, inverted, high)
    modifies h
    ensures h.Valid() && h.Grown({}) && |more| == |inverted| + 1 && AllIn(more, h.driven)
    ensures forall high | Settled(h.gates, high) :: Inverted(wires, more, high)
  {
    var i := |inverted|;
    assert wires[i] in wires;
    var w := h.NewGate(Not, wires[i], wires[i]);
    more := inverted + [w];
    forall high | Settled(h.gates, high) ensures Inverted(wires, more, high) {
      assert Settled(old(h.gates), high) && Inverted(wires, inverted, high);
    }
  }

  method InvertAll(h: DigitalHarness, wires: seq<nat>) returns (inverted: seq<nat>)
    requires h.Valid() && AllIn(wires, h.driven)
    modifies h
    ensures h.Valid() && h.Grown({}) && |inverted| == |wires| && AllIn(inverted, h.driven)
    ensures forall high | Settled(h.gates, high) :: Inverted(wires, inverted, high)
  {
    inverted := [];
    for i := 0 to |wires|
      invariant h.Valid() && h.Grown({}) && |inverted| == i && AllIn(inverted, h.driven)
      invariant forall high | Settled(h.gates, high) :: Inverted(wires, inverted, high)
    {
      inverted := InvertNext(h, wires, inverted);
    }
  }

  /** Every line is high exactly when `wires` carry its number. */
  ghost predicate Numbers(lines: seq<nat>, wires: seq<nat>, high: set<nat>) {
    forall v | 0 <= v < |lines| :: lines[v] in high <==> Value(wires, high) == Low(v, |wires|)
  }

  method DecodeNext(h: DigitalHarness, wires: seq<nat>, inverted: seq<nat>, lines: seq<nat>) returns (more: seq<nat>)
    requires h.Valid() && |wires| == |inverted| > 0 && AllIn(wires, h.driven) && AllIn(inverted, h.driven)
    requires AllIn(lines, h.driven)
    requires forall high | Settled(h.gates, high) :: Inverted(wires, inverted, high) && Numbers(lines, wires, high)
    modifies h
    ensures h.Valid() && h.Grown({}) && |more| == |lines| + 1 && AllIn(more, h.driven)
    ensures forall high | Settled(h.gates, high) :: Inverted(wires, inverted, high) && Numbers(more, wires, high)
  {
    var line := DecoderLine(h, wires, inverted, |lines|);
    more := lines + [line];
    forall high | Settled(h.gates, high) ensures Inverted(wires, inverted, high) && Numbers(more, wires, high) {
      assert Settled(old(h.gates), high) && Inverted(wires, inverted, high) && Numbers(lines, wires, high);
    }
  }

  /** All `count` decoder lines of `wires`. */
  method Decoder(h: DigitalHarness, wires: seq<nat>, count: nat) returns (lines: seq<nat>)
    requires h.Valid() && |wires| > 0 && AllIn(wires, h.driven)
    modifies h
    ensures h.Valid() && h.Grown({}) && |lines| == count && AllIn(lines, h.driven)
    ensures forall high | Settled(h.gates, high) :: Numbers(lines, wires, high)
  {
    var inverted := InvertAll(h, wires);
    lines := [];
    for i := 0 to count
      invariant h.Valid() && h.Grown({}) && |lines| == i && AllIn(lines, h.driven) && AllIn(inverted, h.driven)
      invariant forall high | Settled(h.gates, high) :: Inverted(wires, inverted, high) && Numbers(lines, wires, high)
    {
      lines := DecodeNext(h, wires, inverted, lines);
    }
  }

  lemma {:induction false} LowOfSmall(x: nat, n: nat)
    requires x < Pow2(n)
    ensures Low(x, n) == x
  {
    if n > 0 { LowOfSmall(x / 2, n - 1); }
  }

  lemma SixteenIsPow2()
    ensures Pow2(3) == 8 && Pow2(4) == 16
  {
    assert Pow2(1) == 2 && Pow2(2) == 4 && Pow2(3) == 8;
  }

  /** The address lines whose word has the given bit. */
  method SelectedLines(lines: seq<nat>, program: seq<nat>, bit: nat) returns (selected: seq<nat>)
    requires |lines| == |program|
    ensures forall w :: w in selected <==> exists k | 0 <= k < |lines| :: lines[k] == w && BitOf(program[k], bit)
  {
    selected := [];
    for address := 0 to |lines|
      invariant forall w :: w in selected <==> exists k | 0 <= k < address :: lines[k] == w && BitOf(program[k], bit)
    {
      if BitOf(program[address], bit) {
        selected := selected + [lines[address]];
      }
    }
  }

  lemma RomBitIsProgramBit(
      lines: seq<nat>, program: seq<nat>, bit: nat, selected: seq<nat>, address: nat, high: set<nat>)
    requires |lines| == |program| && address < |lines|
    requires forall w :: w in selected <==> exists k | 0 <= k < |lines| :: lines[k] == w && BitOf(program[k], bit)
    requires forall v | 0 <= v < |lines| :: lines[v] in high <==> address == v
    ensures (exists w :: w in selected && w in high) <==> BitOf(program[address], bit)
  {
    if BitOf(program[address], bit) {
      assert lines[address] in selected && lines[address] in high;
    }
    if w :| w in selected && w in high {
      var k :| 0 <= k < |lines| && lines[k] == w && BitOf(program[k], bit);
      assert k == address;
    }
  }

  /** The 16-word ROM: its output wires carry the addressed word. */
  method BuildRom(h: DigitalHarness, pc: seq<nat>, program: seq<nat>, n: nat) returns (rom: seq<nat>)
    requires h.Valid() && |pc| == 4 && |program| == 16 && AllIn(pc, h.driven)
    modifies h
    ensures h.Valid() && h.Grown({}) && |rom| == n && AllIn(rom, h.driven)
    ensures forall high | Settled(h.gates, high) ::
              Value(pc, high) < 16 && Value(rom, high) == Low(program[Value(pc, high)], n)
  {
    var lines := Decoder(h, pc, 16);
    ghost var decoded := h.gates;
    rom := [];
    forall high | Settled(h.gates, high) ensures RomCarries(rom, pc, program, high) {
      SixteenIsPow2();
      AddressLine(lines, pc, high);
    }
    for bit := 0 to n
      invariant h.Valid() && h.Grown({}) && |rom| == bit && AllIn(rom, h.driven) && AllIn(lines, h.driven)
      invariant forall high | Settled(h.gates, high) :: Settled(decoded, high)
      invariant forall high | Settled(h.gates, high) :: RomCarries(rom, pc, program, high)
    {
      var selected := SelectedLines(lines, program, bit);
      ghost var before := h.gates;
      var w := h.OrReduce(selected);
      forall high | Settled(h.gates, high) ensures RomCarries(rom + [w], pc, program, high) {
        assert Settled(before, high) && Settled(decoded, high) && RomCarries(rom, pc, program, high);
        assert Numbers(lines, pc, high);
        SixteenIsPow2();
        AddressLine(lines, pc, high);
        RomBitIsProgramBit(lines, program, bit, selected, Value(pc, high), high);
      }
      rom := rom + [w];
    }
    forall high | Settled(h.gates, high)
      ensures Value(pc, high) < 16 && Value(rom, high) == Low(program[Value(pc, high)], n)
    {
      assert RomCarries(rom, pc, program, high);
      ValueOfBits(rom, high, program[Value(pc, high)]);
    }
  }

  ghost predicate RomCarries(rom: seq<nat>, pc: seq<nat>, program: seq<nat>, high: set<nat>)
    requires |program| == 16
  {
    && Value(pc, high) < 16
    && forall k | 0 <= k < |rom| :: rom[k] in high <==> BitOf(program[Value(pc, high)], k)
  }

  lemma AddressLine(lines: seq<nat>, wires: seq<nat>, high: set<nat>)
    requires |lines| <= Pow2(|wires|) && Numbers(lines, wires, high)
    ensures forall v | 0 <= v < |lines| :: lines[v] in high <==> Value(wires, high) == v
    ensures Value(wires, high) < Pow2(|wires|)
  {
    ValueBound(wires, high);
    forall v | 0 <= v < |lines| ensures Low(v, |wires|) == v { LowOfSmall(v, |wires|); }
  }

  // ----- Data path -----

  lemma RippleStep(a: seq<nat>, b: seq<nat>, sum: seq<nat>, i: nat, s: nat, carry: nat, carryOut: nat, high: set<nat>)
    requires |sum| == i < |a| == |b|
    requires Value(sum, high) + Weight(carry in high, Pow2(i)) == Value(a[..i], high) + Value(b[..i], high)
    requires Weight(s in high, 1) + Weight(carryOut in high, 2)
             == Weight(a[i] in high, 1) + Weight(b[i] in high, 1) + Weight(carry in high, 1)
    ensures Value(sum + [s], high) + Weight(carryOut in high, Pow2(i + 1))
            == Value(a[..i + 1], high) + Value(b[..i + 1], high)
  {
    ValueAppend(sum, s, high);
    ValueAppend(a[..i], a[i], high);
    ValueAppend(b[..i], b[i], high);
    assert a[..i + 1] == a[..i] + [a[i]] && b[..i + 1] == b[..i] + [b[i]];
  }

  /** The ripple-carry adder. */
  method RippleAdd(h: DigitalHarness, a: seq<nat>, b: seq<nat>) returns (sum: seq<nat>, carry: nat)
    requires h.Valid() && |a| == |b| && AllIn(a, h.driven) && AllIn(b, h.driven)
    modifies h
    ensures h.Valid() && h.Grown({}) && |sum| == |a| && AllIn(sum, h.driven) && carry in h.driven
    ensures forall high | Settled(h.gates, high) ::
              Value(sum, high) + Weight(carry in high, Pow2(|a|)) == Value(a, high) + Value(b, high)
  {
    sum, carry := [], GROUND;
    for i := 0 to |a|
      invariant h.Valid() && h.Grown({}) && |sum| == i && AllIn(sum, h.driven) && carry in h.driven
      invariant forall high | Settled(h.gates, high) ::
                  Value(sum, high) + Weight(carry in high, Pow2(i)) == Value(a[..i], high) + Value(b[..i], high)
    {
      assert a[i] in a && b[i] in b;
      ghost var before := h.gates;
      var s, carryOut := h.FullAdder(a[i], b[i], carry);
      forall high | Settled(h.gates, high)
        ensures Value(sum + [s], high) + Weight(carryOut in high, Pow2(i + 1))
                == Value(a[..i + 1], high) + Value(b[..i + 1], high)
      {
        assert Settled(before, high);
        RippleStep(a, b, sum, i, s, carry, carryOut, high);
      }
      sum, carry := sum + [s], carryOut;
    }
    assert a[..|a|] == a && b[..|b|] == b;
  }

  ghost predicate XorSoFar(a: seq<nat>, b: seq<nat>, r: seq<nat>, high: set<nat>) {
    |r| <= |a| && |r| <= |b| && forall k | 0 <= k < |r| :: r[k] in high <==> (a[k] in high) != (b[k] in high)
  }

  method XorNext(h: DigitalHarness, a: seq<nat>, b: seq<nat>, r: seq<nat>) returns (more: seq<nat>)
    requires h.Valid() && |r| < |a| == |b| && AllIn(a, h.driven) && AllIn(b, h.driven) && AllIn(r, h.driven)
    requires forall high | Settled(h.gates, high) :: XorSoFar(a, b, r, high)
    modifies h
    ensures h.Valid() && h.Grown({}) && |more| == |r| + 1 && AllIn(more, h.driven)
    ensures forall high | Settled(h.gates, high) :: XorSoFar(a, b, more, high)
  {
    var i := |r|;
    assert a[i] in a && b[i] in b;
    var w, _ := h.XorFromNands(a[i], b[i]);
    more := r + [w];
    forall high | Settled(h.gates, high) ensures XorSoFar(a, b, more, high) {
      assert Settled(old(h.gates), high) && XorSoFar(a, b, r, high);
    }
  }

  method XorWord(h: DigitalHarness, a: seq<nat>, b: seq<nat>) returns (r: seq<nat>)
    requires h.Valid() && |a| == |b| && AllIn(a, h.driven) && AllIn(b, h.driven)
    modifies h
    ensures h.Valid() && h.Grown({}) && |r| == |a| && AllIn(r, h.driven)
    ensures forall high | Settled(h.gates, high) :: Value(r, high) == Xor(Value(a, high), Value(b, high), |a|)
  {
    r := [];
    for i := 0 to |a|
      invariant h.Valid() && h.Grown({}) && |r| == i && AllIn(r, h.driven)
      invariant forall high | Settled(h.gates, high) :: XorSoFar(a, b, r, high)
    {
      r := XorNext(h, a, b, r);
    }
    forall high | Settled(h.gates, high) ensures Value(r, high) == Xor(Value(a, high), Value(b, high), |a|) {
      assert XorSoFar(a, b, r, high);
      ValueOfXor(a, b, r, high);
    }
  }

  ghost predicate AndSoFar(a: seq<nat>, b: seq<nat>, r: seq<nat>, high: set<nat>) {
    |r| <= |a| && |r| <= |b| && forall k | 0 <= k < |r| :: r[k] in high <==> a[k] in high && b[k] in high
  }

  method AndNext(h: DigitalHarness, a: seq<nat>, b: seq<nat>, r: seq<nat>) returns (more: seq<nat>)
    requires h.Valid() && |r| < |a| == |b| && AllIn(a, h.driven) && AllIn(b, h.driven) && AllIn(r, h.driven)
    requires forall high | Settled(h.gates, high) :: AndSoFar(a, b, r, high)
    modifies h
    ensures h.Valid() && h.Grown({}) && |more| == |r| + 1 && AllIn(more, h.driven)
    ensures forall high | Settled(h.gates, high) :: AndSoFar(a, b, more, high)
  {
    var i := |r|;
    assert a[i] in a && b[i] in b;
    var w := h.NewGate(GateKind.And, a[i], b[i]);
    more := r + [w];
    forall high | Settled(h.gates, high) ensures AndSoFar(a, b, more, high) {
      assert Settled(old(h.gates), high) && AndSoFar(a, b, r, high);
    }
  }

  method AndWord(h: DigitalHarness, a: seq<nat>, b: seq<nat>) returns (r: seq<nat>)
    requires h.Valid() && |a| == |b| && AllIn(a, h.driven) && AllIn(b, h.driven)
    modifies h
    ensures h.Valid() && h.Grown({}) && |r| == |a| && AllIn(r, h.driven)
    ensures forall high | Settled(h.gates, high) ::
              Value(r, high) == BinaryNumbers.And(Value(a, high), Value(b, high), |a|)
  {
    r := [];
    for i := 0 to |a|
      invariant h.Valid() && h.Grown({}) && |r| == i && AllIn(r, h.driven)
      invariant forall high | Settled(h.gates, high) :: AndSoFar(a, b, r, high)
    {
      r := AndNext(h, a, b, r);
    }
    forall high | Settled(h.gates, high)
      ensures Value(r, high) == BinaryNumbers.And(Value(a, high), Value(b, high), |a|)
    {
      assert AndSoFar(a, b, r, high);
      ValueOfAnd(a, b, r, high);
    }
  }

  /** The wires `r` show the first bits of `x`, or of `y` while `select` is high. */
  ghost predicate MuxSoFar(x: seq<nat>, y: seq<nat>, select: nat, r: seq<nat>, high: set<nat>) {
    && |r| <= |x| && |r| <= |y|
    && forall k | 0 <= k < |r| :: r[k] in high <==> (if select in high then y[k] else x[k]) in high
  }

  lemma MuxCarries(x: seq<nat>, y: seq<nat>, select: nat, r: seq<nat>, high: set<nat>)
    requires |r| == |x| == |y| && MuxSoFar(x, y, select, r, high)
    ensures Value(r, high) == Value(if select in high then y else x, high)
  {
    ValueOfCopy(if select in high then y else x, r, high);
  }

  lemma NextTarget(targets: seq<nat>, i: nat)
    requires i < |targets| && forall j, k | 0 <= j < k < |targets| :: targets[j] != targets[k]
    ensures SetOf(targets[..i + 1]) == SetOf(targets[..i]) + {targets[i]} && targets[i] !in SetOf(targets[..i])
  {
    assert targets[..i + 1] == targets[..i] + [targets[i]];
  }

  /** Drive the wires `targets` with the word `x`, or with `y` while `select` is high. */
  method MuxWordInto(h: DigitalHarness, targets: seq<nat>, x: seq<nat>, y: seq<nat>, select: nat)
    requires h.Valid() && |targets| == |x| == |y|
    requires AllIn(x, h.driven) && AllIn(y, h.driven) && select in h.driven
    requires forall k | 0 <= k < |targets| :: targets[k] < h.wireCount && targets[k] !in h.driven
    requires forall j, k | 0 <= j < k < |targets| :: targets[j] != targets[k]
    modifies h
    ensures h.Valid() && h.Grown(SetOf(targets))
    ensures forall high | Settled(h.gates, high) ::
              Value(targets, high) == Value(if select in high then y else x, high)
  {
    for i := 0 to |targets|
      invariant h.Valid() && h.Grown(SetOf(targets[..i]))
      invariant forall high | Settled(h.gates, high) :: MuxSoFar(x, y, select, targets[..i], high)
    {
      NextTarget(targets, i);
      MuxBitInto(h, targets, x, y, select, i);
    }
    assert targets[..|targets|] == targets;
    forall high | Settled(h.gates, high)
      ensures Value(targets, high) == Value(if select in high then y else x, high)
    {
      MuxCarries(x, y, select, targets, high);
    }
  }

  lemma MuxExtends(x: seq<nat>, y: seq<nat>, select: nat, r: seq<nat>, i: nat, high: set<nat>)
    requires i < |r| && i < |x| && i < |y| && MuxSoFar(x, y, select, r[..i], high)
    requires r[i] in high <==> (if select in high then y[i] else x[i]) in high
    ensures MuxSoFar(x, y, select, r[..i + 1], high)
  {
    assert forall k | 0 <= k < i :: r[..i + 1][k] == r[..i][k];
  }

  method MuxBitInto(h: DigitalHarness, targets: seq<nat>, x: seq<nat>, y: seq<nat>, select: nat, i: nat)
    requires h.Valid() && i < |targets| == |x| == |y|
    requires x[i] in h.driven && y[i] in h.driven && select in h.driven
    requires targets[i] < h.wireCount && targets[i] !in h.driven
    requires forall high | Settled(h.gates, high) :: MuxSoFar(x, y, select, targets[..i], high)
    modifies h
    ensures h.Valid() && h.Grown({targets[i]})
    ensures forall high | Settled(h.gates, high) :: MuxSoFar(x, y, select, targets[..i + 1], high)
  {
    h.MuxInto(targets[i], x[i], y[i], select);
    forall high | Settled(h.gates, high) ensures MuxSoFar(x, y, select, targets[..i + 1], high) {
      assert Settled(old(h.gates), high);
      MuxExtends(x, y, select, targets, i, high);
    }
  }

  method MuxNext(h: DigitalHarness, x: seq<nat>, y: seq<nat>, select: nat, r: seq<nat>) returns (more: seq<nat>)
    requires h.Valid() && |r| < |x| == |y| && AllIn(x, h.driven) && AllIn(y, h.driven) && AllIn(r, h.driven)
    requires select in h.driven && forall high | Settled(h.gates, high) :: MuxSoFar(x, y, select, r, high)
    modifies h
    ensures h.Valid() && h.Grown({}) && |more| == |r| + 1 && AllIn(more, h.driven)
    ensures forall high | Settled(h.gates, high) :: MuxSoFar(x, y, select, more, high)
  {
    var i := |r|;
    assert x[i] in x && y[i] in y;
    var w := h.Mux(x[i], y[i], select);
    more := r + [w];
    forall high | Settled(h.gates, high) ensures MuxSoFar(x, y, select, more, high) {
      assert Settled(old(h.gates), high) && MuxSoFar(x, y, select, r, high);
    }
  }

  method MuxWord(h: DigitalHarness, x: seq<nat>, y: seq<nat>, select: nat) returns (r: seq<nat>)
    requires h.Valid() && |x| == |y|
    requires AllIn(x, h.driven) && AllIn(y, h.driven) && select in h.driven
    modifies h
    ensures h.Valid() && h.Grown({}) && |r| == |x| && AllIn(r, h.driven)
    ensures forall high | Settled(h.gates, high) :: Value(r, high) == Value(if select in high then y else x, high)
  {
    r := [];
    for i := 0 to |x|
      invariant h.Valid() && h.Grown({}) && |r| == i && AllIn(r, h.driven)
      invariant forall high | Settled(h.gates, high) :: MuxSoFar(x, y, select, r, high)
    {
      r := MuxNext(h, x, y, select, r);
    }
    forall high | Settled(h.gates, high) ensures Value(r, high) == Value(if select in high then y else x, high) {
      MuxCarries(x, y, select, r, high);
    }
  }

  lemma {:induction false} ZeroMeansAllLow(wires: seq<nat>, high: set<nat>)
    ensures Value(wires, high) == 0 <==> forall w | w in wires :: w !in high
  {
    if wires != [] {
      ZeroMeansAllLow(wires[1..], high);
      assert forall w :: w in wires <==> w == wires[0] || w in wires[1..];
    }
  }

  method ZeroDetector(h: DigitalHarness, wires: seq<nat>) returns (zero: nat)
    requires h.Valid() && AllIn(wires, h.driven)
    modifies h
    ensures h.Valid() && h.Grown({}) && zero in h.driven
    ensures forall high | Settled(h.gates, high) :: zero in high <==> Value(wires, high) == 0
  {
    var any := h.OrReduce(wires);
    zero := h.NewGate(Not, any, any);
    forall high | Settled(h.gates, high) ensures zero in high <==> Value(wires, high) == 0 {
      ZeroMeansAllLow(wires, high);
    }
  }

  // ----- The whole machine -----

  datatype Cpu = Cpu(
    pc: seq<RegisterBit>, a: seq<RegisterBit>, b: seq<RegisterBit>,
    carry: RegisterBit, instruction: seq<RegisterBit>, phase: RegisterBit)
  {
    function Bits(): seq<RegisterBit> { pc + a + b + [carry] + instruction + [phase] }

    ghost predicate Shaped(width: nat) {
      |pc| == 4 && |a| == width && |b| == width && |instruction| == width + 3
    }
  }

  /** What the registers hold: architectural state, instruction register and execute phase. */
  datatype CpuState = CpuState(arch: IsaState, instruction: nat, execute: bool)

  /** What the register outputs show under `high`. */
  ghost function Shown(cpu: Cpu, high: set<nat>): CpuState {
    CpuState(
      IsaState(Value(Outs(cpu.pc), high), Value(Outs(cpu.a), high), Value(Outs(cpu.b), high), cpu.carry.output in high),
      Value(Outs(cpu.instruction), high), cpu.phase.output in high)
  }

  /** What the register inputs receive under `high`. */
  ghost function Received(cpu: Cpu, high: set<nat>): CpuState {
    CpuState(
      IsaState(Value(Inputs(cpu.pc), high), Value(Inputs(cpu.a), high), Value(Inputs(cpu.b), high),
        cpu.carry.input in high),
      Value(Inputs(cpu.instruction), high), cpu.phase.input in high)
  }

  /** One tick: fetch into the instruction register, or execute what it holds. */
  ghost function NextState(width: nat, program: seq<nat>, s: CpuState): CpuState
    requires |program| == 16 && s.arch.pc < 16
  {
    if s.execute then CpuState(Execute(width, s.instruction, s.arch), s.instruction, false)
    else CpuState(s.arch, program[s.arch.pc] % Pow2(width + 3), true)
  }

  /** The netlist computes `NextState` on every settled level assignment. */
  ghost predicate Implements(gates: seq<Gate>, cpu: Cpu, width: nat, program: seq<nat>) {
    && |program| == 16
    && forall high | Settled(gates, high) ::
         Shown(cpu, high).arch.pc < 16 && Received(cpu, high) == NextState(width, program, Shown(cpu, high))
  }

  /** Distinct allocated wires that nothing drives yet. */
  ghost predicate Undriven(wires: seq<nat>, wireCount: nat, driven: set<nat>) {
    && (forall k | 0 <= k < |wires| :: wires[k] < wireCount && wires[k] !in driven)
    && (forall j, k | 0 <= j < k < |wires| :: wires[j] != wires[k])
  }

  /** Wires stay undriven while only other wires and new wires become driven. */
  lemma StaysUndriven(
      wires: seq<nat>, wireCount: nat, driven: set<nat>, wireCount': nat, driven': set<nat>, target: set<nat>)
    requires Undriven(wires, wireCount, driven) && wireCount <= wireCount'
    requires forall w | w in driven' && w !in driven + target :: wireCount <= w
    requires forall k | 0 <= k < |wires| :: wires[k] !in target
    ensures Undriven(wires, wireCount', driven')
  {
  }

  lemma ShiftByConstant(x: nat)
    ensures Shift(x, 3) == 8 * x && Shift(x, 4) == 16 * x
  {
    assert Shift(x, 1) == 2 * Shift(x, 0);
    assert Shift(x, 2) == 2 * Shift(x, 1);
  }

  lemma EightSplits(x: nat, low: nat)
    requires low < 8
    ensures (low + 8 * x) % 8 == low && (low + 8 * x) / 8 == x
  {
  }

  lemma InstructionSplits(wires: seq<nat>, high: set<nat>)
    requires |wires| >= 3
    ensures Value(wires, high) % 8 == Value(wires[..3], high)
    ensures Value(wires, high) / 8 == Value(wires[3..], high)
  {
    SplitValue(wires, high, 3);
    ValueBound(wires[..3], high);
    SixteenIsPow2();
    ShiftByConstant(Value(wires[3..], high));
    EightSplits(Value(wires[3..], high), Value(wires[..3], high));
  }

  lemma SixteenSplits(x: nat, low: nat)
    requires low < 16
    ensures (low + 16 * x) % 16 == low
  {
  }

  lemma TargetIsLowNibble(wires: seq<nat>, high: set<nat>)
    requires |wires| >= 4
    ensures Value(wires[..4], high) == Value(wires, high) % 16
  {
    SplitValue(wires, high, 4);
    ValueBound(wires[..4], high);
    SixteenIsPow2();
    ShiftByConstant(Value(wires[4..], high));
    SixteenSplits(Value(wires[4..], high), Value(wires[..4], high));
  }

  ghost predicate FetchWorks(pc: seq<nat>, phase: nat, instruction: seq<nat>, phaseIn: nat, instructionIn: seq<nat>,
                             program: seq<nat>, high: set<nat>)
    requires |program| == 16
  {
    && Value(pc, high) < 16
    && (phaseIn in high <==> phase !in high)
    && Value(instructionIn, high)
       == if phase in high then Value(instruction, high) else Low(program[Value(pc, high)], |instruction|)
  }

  /** The phase toggle, the ROM and the instruction register. */
  method BuildFetch(h: DigitalHarness, pc: seq<nat>, phase: nat, instruction: seq<nat>,
                    phaseIn: nat, instructionIn: seq<nat>, program: seq<nat>)
    requires h.Valid() && |pc| == 4 && |program| == 16 && |instruction| == |instructionIn|
    requires AllIn(pc, h.driven) && AllIn(instruction, h.driven) && phase in h.driven
    requires Undriven(instructionIn + [phaseIn], h.wireCount, h.driven)
    modifies h
    ensures h.Valid() && h.Grown(SetOf(instructionIn) + {phaseIn})
    ensures forall high | Settled(h.gates, high) ::
              FetchWorks(pc, phase, instruction, phaseIn, instructionIn, program, high)
  {
    ghost var all := instructionIn + [phaseIn];
    assert all[|instructionIn|] == phaseIn && forall k | 0 <= k < |instructionIn| :: all[k] == instructionIn[k];
    assert Undriven(instructionIn, h.wireCount, h.driven);
    h.GateInto(Not, phaseIn, phase, phase);
    StaysUndriven(instructionIn, old(h.wireCount), old(h.driven), h.wireCount, h.driven, {phaseIn});
    ghost var toggled, wireCount, driven := h.gates, h.wireCount, h.driven;
    var rom := BuildRom(h, pc, program, |instruction|);
    StaysUndriven(instructionIn, wireCount, driven, h.wireCount, h.driven, {});
    ghost var fetched := h.gates;
    MuxWordInto(h, instructionIn, rom, instruction, phase);
    forall high | Settled(h.gates, high)
      ensures FetchWorks(pc, phase, instruction, phaseIn, instructionIn, program, high)
    {
      assert Settled(fetched, high) && Settled(toggled, high);
    }
  }

  ghost predicate Gated(phase: nat, lines: seq<nat>, enabled: seq<nat>, high: set<nat>) {
    |enabled| <= |lines| && forall k | 0 <= k < |enabled| :: enabled[k] in high <==> phase in high && lines[k] in high
  }

  method GateNext(h: DigitalHarness, phase: nat, lines: seq<nat>, enabled: seq<nat>) returns (more: seq<nat>)
    requires h.Valid() && phase in h.driven && AllIn(lines, h.driven) && AllIn(enabled, h.driven) && |enabled| < |lines|
    requires forall high | Settled(h.gates, high) :: Gated(phase, lines, enabled, high)
    modifies h
    ensures h.Valid() && h.Grown({}) && |more| == |enabled| + 1 && AllIn(more, h.driven)
    ensures forall high | Settled(h.gates, high) :: Gated(phase, lines, more, high)
  {
    var i := |enabled|;
    assert lines[i] in lines;
    var w := h.NewGate(GateKind.And, phase, lines[i]);
    more := enabled + [w];
    forall high | Settled(h.gates, high) ensures Gated(phase, lines, more, high) {
      assert Settled(old(h.gates), high) && Gated(phase, lines, enabled, high);
    }
  }

  /** `lines`, each gated by `phase`: the register write enables. */
  method GateAll(h: DigitalHarness, phase: nat, lines: seq<nat>) returns (enabled: seq<nat>)
    requires h.Valid() && phase in h.driven && AllIn(lines, h.driven)
    modifies h
    ensures h.Valid() && h.Grown({}) && |enabled| == |lines| && AllIn(enabled, h.driven)
    ensures forall high | Settled(h.gates, high) :: Gated(phase, lines, enabled, high)
  {
    enabled := [];
    for i := 0 to |lines|
      invariant h.Valid() && h.Grown({}) && |enabled| == i && AllIn(enabled, h.driven)
      invariant forall high | Settled(h.gates, high) :: Gated(phase, lines, enabled, high)
    {
      enabled := GateNext(h, phase, lines, enabled);
    }
  }

  ghost predicate AluWorks(
      a: seq<nat>, b: seq<nat>, sum: seq<nat>, carry: nat, xor: seq<nat>, and: seq<nat>, high: set<nat>)
  {
    var x, y := Value(a, high), Value(b, high);
    && Value(sum, high) == (x + y) % Pow2(|a|) && (carry in high <==> x + y >= Pow2(|a|))
    && Value(xor, high) == Xor(x, y, |a|)
    && Value(and, high) == BinaryNumbers.And(x, y, |a|)
  }

  method BuildAlu(
      h: DigitalHarness, a: seq<nat>, b: seq<nat>) returns (sum: seq<nat>, carry: nat, xor: seq<nat>, and: seq<nat>)
    requires h.Valid() && |a| == |b| && AllIn(a, h.driven) && AllIn(b, h.driven)
    modifies h
    ensures h.Valid() && h.Grown({}) && |sum| == |xor| == |and| == |a|
    ensures AllIn(sum, h.driven) && AllIn(xor, h.driven) && AllIn(and, h.driven) && carry in h.driven
    ensures forall high | Settled(h.gates, high) :: AluWorks(a, b, sum, carry, xor, and, high)
  {
    sum, carry := RippleAdd(h, a, b);
    ghost var added := h.gates;
    xor := XorWord(h, a, b);
    ghost var xored := h.gates;
    and := AndWord(h, a, b);
    forall high | Settled(h.gates, high) ensures AluWorks(a, b, sum, carry, xor, and, high) {
      assert Settled(xored, high) && Settled(added, high);
      ValueBound(sum, high);
      RemainderOfCarry(Value(a, high) + Value(b, high), Pow2(|a|), Value(sum, high), carry in high);
    }
  }

  /** Four multiplexer stages: the last enabled source wins, and with none the register holds. */
  method WriteAccumulator(
      h: DigitalHarness, target: seq<nat>, hold: seq<nat>, sources: seq<seq<nat>>, enables: seq<nat>)
    requires h.Valid() && |sources| == 4 && |enables| >= 4 && Undriven(target, h.wireCount, h.driven)
    requires |hold| == |target| && forall k | 0 <= k < 4 :: |sources[k]| == |target|
    requires AllIn(hold, h.driven) && AllIn(enables, h.driven)
    requires forall k | 0 <= k < 4 :: AllIn(sources[k], h.driven)
    modifies h
    ensures h.Valid() && h.Grown(SetOf(target))
    ensures forall high | Settled(h.gates, high) ::
              Value(target, high) == Value(if enables[3] in high then sources[3]
                                           else if enables[2] in high then sources[2]
                                           else if enables[1] in high then sources[1]
                                           else if enables[0] in high then sources[0] else hold, high)
  {
    assert forall k | 0 <= k < 4 :: enables[k] in enables;
    var first := MuxWord(h, hold, sources[0], enables[0]);
    ghost var g0 := h.gates;
    var second := MuxWord(h, first, sources[1], enables[1]);
    ghost var g1 := h.gates;
    var third := MuxWord(h, second, sources[2], enables[2]);
    ghost var g2 := h.gates;
    StaysUndriven(target, old(h.wireCount), old(h.driven), h.wireCount, h.driven, {});
    MuxWordInto(h, target, third, sources[3], enables[3]);
    forall high | Settled(h.gates, high)
      ensures Value(target, high) == Value(if enables[3] in high then sources[3]
                                           else if enables[2] in high then sources[2]
                                           else if enables[1] in high then sources[1]
                                           else if enables[0] in high then sources[0] else hold, high)
    {
      assert Settled(g2, high) && Settled(g1, high) && Settled(g0, high);
    }
  }

  /** The wires of the data path, and the opcode lines and immediate it is controlled by. */
  datatype DataPath = DataPath(
    a: seq<nat>, b: seq<nat>, carry: nat, phase: nat, decoded: seq<nat>, immediate: seq<nat>,
    aIn: seq<nat>, bIn: seq<nat>, carryIn: nat)
  {
    ghost predicate Shaped() {
      |a| == |b| == |immediate| == |aIn| == |bIn| && |decoded| == 8
    }

    ghost predicate Connected(driven: set<nat>) {
      && AllIn(a, driven) && AllIn(b, driven) && AllIn(decoded, driven) && AllIn(immediate, driven)
      && carry in driven && phase in driven
    }

    /** Each register receives what the decoded instruction says, or holds outside the execute phase. */
    ghost predicate Works(high: set<nat>)
      requires Shaped()
    {
      var x, y, run := Value(a, high), Value(b, high), phase in high;
      && Value(aIn, high) == (if run && decoded[OP_AND] in high then BinaryNumbers.And(x, y, |a|)
                              else if run && decoded[OP_XOR] in high then Xor(x, y, |a|)
                              else if run && decoded[OP_ADD] in high then (x + y) % Pow2(|a|)
                              else if run && decoded[OP_LDA] in high then Value(immediate, high)
                              else x)
      && Value(bIn, high) == (if run && decoded[OP_LDB] in high then Value(immediate, high) else y)
      && (carryIn in high <==> if run && decoded[OP_ADD] in high then x + y >= Pow2(|a|) else carry in high)
    }
  }

  /** The enables of LDA, ADD, XOR, AND and LDB, in the order their sources are multiplexed. */
  ghost predicate EnablesWork(d: DataPath, enables: seq<nat>, high: set<nat>)
    requires d.Shaped() && |enables| == 5
  {
    var run := d.phase in high;
    && (enables[0] in high <==> run && d.decoded[OP_LDA] in high)
    && (enables[1] in high <==> run && d.decoded[OP_ADD] in high)
    && (enables[2] in high <==> run && d.decoded[OP_XOR] in high)
    && (enables[3] in high <==> run && d.decoded[OP_AND] in high)
    && (enables[4] in high <==> run && d.decoded[OP_LDB] in high)
  }

  method BuildEnables(h: DigitalHarness, d: DataPath) returns (enables: seq<nat>)
    requires h.Valid() && d.Shaped() && d.Connected(h.driven)
    modifies h
    ensures h.Valid() && h.Grown({}) && |enables| == 5 && AllIn(enables, h.driven)
    ensures forall high | Settled(h.gates, high) :: EnablesWork(d, enables, high)
  {
    var lines := [d.decoded[OP_LDA], d.decoded[OP_ADD], d.decoded[OP_XOR], d.decoded[OP_AND], d.decoded[OP_LDB]];
    assert forall w | w in lines :: w in d.decoded;
    enables := GateAll(h, d.phase, lines);
    forall high | Settled(h.gates, high) ensures EnablesWork(d, enables, high) {
      assert Gated(d.phase, lines, enables, high);
    }
  }

  lemma DataPathWorks(
      d: DataPath, sum: seq<nat>, addCarry: nat, xor: seq<nat>, and: seq<nat>, enables: seq<nat>, high: set<nat>)
    requires d.Shaped() && |enables| == 5
    requires AluWorks(d.a, d.b, sum, addCarry, xor, and, high)
    requires EnablesWork(d, enables, high)
    requires RegistersReceive(d, [d.immediate, sum, xor, and], addCarry, enables, high)
    ensures d.Works(high)
  {
  }

  /** The arithmetic results and the write enables, on new wires. */
  method BuildOperands(h: DigitalHarness, d: DataPath)
    returns (sum: seq<nat>, addCarry: nat, xor: seq<nat>, and: seq<nat>, enables: seq<nat>)
    requires h.Valid() && d.Shaped() && d.Connected(h.driven)
    modifies h
    ensures h.Valid() && h.Grown({}) && |sum| == |xor| == |and| == |d.a| && |enables| == 5
    ensures AllIn(sum, h.driven) && AllIn(xor, h.driven) && AllIn(and, h.driven) && addCarry in h.driven
    ensures AllIn(enables, h.driven)
    ensures forall high | Settled(h.gates, high) ::
              AluWorks(d.a, d.b, sum, addCarry, xor, and, high) && EnablesWork(d, enables, high)
  {
    sum, addCarry, xor, and := BuildAlu(h, d.a, d.b);
    ghost var alu := h.gates;
    enables := BuildEnables(h, d);
    assert forall high | Settled(h.gates, high) :: Settled(alu, high);
  }

  lemma FourSources(w0: seq<nat>, w1: seq<nat>, w2: seq<nat>, w3: seq<nat>, width: nat, driven: set<nat>)
    requires |w0| == |w1| == |w2| == |w3| == width
    requires AllIn(w0, driven) && AllIn(w1, driven) && AllIn(w2, driven) && AllIn(w3, driven)
    ensures var s := [w0, w1, w2, w3]; forall k | 0 <= k < 4 :: |s[k]| == width && AllIn(s[k], driven)
  {
  }

  method BuildDataPath(h: DigitalHarness, d: DataPath)
    requires h.Valid() && d.Shaped() && d.Connected(h.driven)
    requires Undriven(d.aIn + d.bIn + [d.carryIn], h.wireCount, h.driven)
    modifies h
    ensures h.Valid() && h.Grown(SetOf(d.aIn) + SetOf(d.bIn) + {d.carryIn})
    ensures forall high | Settled(h.gates, high) :: d.Works(high)
  {
    var sum, addCarry, xor, and, enables := BuildOperands(h, d);
    ghost var operands := h.gates;
    StaysUndriven(d.aIn + d.bIn + [d.carryIn], old(h.wireCount), old(h.driven), h.wireCount, h.driven, {});
    var sources := [d.immediate, sum, xor, and];
    FourSources(d.immediate, sum, xor, and, |d.a|, h.driven);
    WriteRegisters(h, d, sources, addCarry, enables);
    forall high | Settled(h.gates, high) ensures d.Works(high) {
      assert Settled(operands, high);
      DataPathWorks(d, sum, addCarry, xor, and, enables, high);
    }
  }

  lemma SplitUndriven(x: seq<nat>, y: seq<nat>, z: nat, wireCount: nat, driven: set<nat>)
    requires Undriven(x + y + [z], wireCount, driven)
    ensures Undriven(x, wireCount, driven) && Undriven(y, wireCount, driven) && Undriven([z], wireCount, driven)
    ensures SetOf(x) !! SetOf(y) && z !in x && z !in y
  {
    var all := x + y + [z];
    assert forall k | 0 <= k < |x| :: all[k] == x[k];
    assert forall k | 0 <= k < |y| :: all[|x| + k] == y[k];
    assert all[|x| + |y|] == z;
  }

  ghost predicate RegistersReceive(
      d: DataPath, sources: seq<seq<nat>>, addCarry: nat, enables: seq<nat>, high: set<nat>)
    requires |sources| == 4 && |enables| == 5
  {
    && Value(d.aIn, high) == Value(if enables[3] in high then sources[3]
                                   else if enables[2] in high then sources[2]
                                   else if enables[1] in high then sources[1]
                                   else if enables[0] in high then sources[0] else d.a, high)
    && Value(d.bIn, high) == Value(if enables[4] in high then d.immediate else d.b, high)
    && (d.carryIn in high <==> if enables[1] in high then addCarry in high else d.carry in high)
  }

  method WriteOperandAndCarry(h: DigitalHarness, d: DataPath, addCarry: nat, enables: seq<nat>)
    requires h.Valid() && d.Shaped() && d.Connected(h.driven) && |enables| == 5
    requires AllIn(enables, h.driven) && addCarry in h.driven
    requires Undriven(d.bIn, h.wireCount, h.driven) && Undriven([d.carryIn], h.wireCount, h.driven)
      && d.carryIn !in d.bIn
    modifies h
    ensures h.Valid() && h.Grown(SetOf(d.bIn) + {d.carryIn})
    ensures forall high | Settled(h.gates, high) ::
              && Value(d.bIn, high) == Value(if enables[4] in high then d.immediate else d.b, high)
              && (d.carryIn in high <==> if enables[1] in high then addCarry in high else d.carry in high)
  {
    assert enables[1] in enables && enables[4] in enables;
    MuxWordInto(h, d.bIn, d.b, d.immediate, enables[4]);
    ghost var written := h.gates;
    StaysUndriven([d.carryIn], old(h.wireCount), old(h.driven), h.wireCount, h.driven, SetOf(d.bIn));
    assert [d.carryIn][0] == d.carryIn;
    h.MuxInto(d.carryIn, d.carry, addCarry, enables[1]);
    assert forall high | Settled(h.gates, high) :: Settled(written, high);
  }

  /** The register input multiplexers of A, B and carry. */
  method WriteRegisters(h: DigitalHarness, d: DataPath, sources: seq<seq<nat>>, addCarry: nat, enables: seq<nat>)
    requires h.Valid() && d.Shaped() && d.Connected(h.driven) && |sources| == 4 && |enables| == 5
    requires forall k | 0 <= k < 4 :: |sources[k]| == |d.a| && AllIn(sources[k], h.driven)
    requires AllIn(enables, h.driven) && addCarry in h.driven
    requires Undriven(d.aIn + d.bIn + [d.carryIn], h.wireCount, h.driven)
    modifies h
    ensures h.Valid() && h.Grown(SetOf(d.aIn) + SetOf(d.bIn) + {d.carryIn})
    ensures forall high | Settled(h.gates, high) :: RegistersReceive(d, sources, addCarry, enables, high)
  {
    SplitUndriven(d.aIn, d.bIn, d.carryIn, h.wireCount, h.driven);
    WriteAccumulator(h, d.aIn, d.a, sources, enables);
    ghost var written, wireCount, driven := h.gates, h.wireCount, h.driven;
    StaysUndriven(d.bIn, old(h.wireCount), old(h.driven), wireCount, driven, SetOf(d.aIn));
    StaysUndriven([d.carryIn], old(h.wireCount), old(h.driven), wireCount, driven, SetOf(d.aIn));
    WriteOperandAndCarry(h, d, addCarry, enables);
    forall high | Settled(h.gates, high) ensures RegistersReceive(d, sources, addCarry, enables, high) {
      assert Settled(written, high);
    }
  }

  ghost predicate Taken(a: seq<nat>, decoded: seq<nat>, high: set<nat>)
    requires |decoded| == 8
  {
    (decoded[OP_JZ] in high && Value(a, high) == 0) || decoded[OP_JMP] in high
  }

  ghost predicate BranchWorks(
      pc: seq<nat>, a: seq<nat>, decoded: seq<nat>, target: seq<nat>, phase: nat, pcIn: seq<nat>, high: set<nat>)
    requires |decoded| == 8
  {
    Value(pcIn, high) == if phase !in high then Value(pc, high)
                         else if Taken(a, decoded, high) then Value(target, high) else (Value(pc, high) + 1) % 16
  }

  method BuildTaken(h: DigitalHarness, a: seq<nat>, decoded: seq<nat>) returns (branch: nat)
    requires h.Valid() && |decoded| == 8 && AllIn(a, h.driven) && AllIn(decoded, h.driven)
    modifies h
    ensures h.Valid() && h.Grown({}) && branch in h.driven
    ensures forall high | Settled(h.gates, high) :: branch in high <==> Taken(a, decoded, high)
  {
    assert decoded[OP_JZ] in decoded && decoded[OP_JMP] in decoded;
    var zero := ZeroDetector(h, a);
    ghost var g0 := h.gates;
    var jzTaken := h.NewGate(GateKind.And, decoded[OP_JZ], zero);
    ghost var g1 := h.gates;
    branch := h.NewGate(Or, jzTaken, decoded[OP_JMP]);
    forall high | Settled(h.gates, high) ensures branch in high <==> Taken(a, decoded, high) {
      assert Settled(g1, high) && Settled(g0, high);
    }
  }

  /** The next program counter while executing. */
  method BuildCandidate(
      h: DigitalHarness, pc: seq<nat>, a: seq<nat>, decoded: seq<nat>, target: seq<nat>) returns (candidate: seq<nat>)
    requires h.Valid() && |pc| == |target| == 4 && |decoded| == 8
    requires AllIn(pc, h.driven) && AllIn(a, h.driven) && AllIn(decoded, h.driven) && AllIn(target, h.driven)
    modifies h
    ensures h.Valid() && h.Grown({}) && |candidate| == 4 && AllIn(candidate, h.driven)
    ensures forall high | Settled(h.gates, high) ::
              Value(candidate, high) == if Taken(a, decoded, high) then Value(target, high)
                else (Value(pc, high) + 1) % 16
  {
    var incremented := Increment(h, pc);
    ghost var g0 := h.gates;
    var branch := BuildTaken(h, a, decoded);
    ghost var g1 := h.gates;
    candidate := MuxWord(h, incremented, target, branch);
    assert forall high | Settled(h.gates, high) :: Settled(g1, high) && Settled(g0, high);
  }

  /** The program counter: increment, branch condition and hold. */
  method BuildBranch(
      h: DigitalHarness, pc: seq<nat>, a: seq<nat>, decoded: seq<nat>, target: seq<nat>, phase: nat, pcIn: seq<nat>)
    requires h.Valid() && |pc| == |target| == |pcIn| == 4 && |decoded| == 8
    requires AllIn(pc, h.driven) && AllIn(a, h.driven) && AllIn(decoded, h.driven) && AllIn(target, h.driven)
      && phase in h.driven
    requires Undriven(pcIn, h.wireCount, h.driven)
    modifies h
    ensures h.Valid() && h.Grown(SetOf(pcIn))
    ensures forall high | Settled(h.gates, high) :: BranchWorks(pc, a, decoded, target, phase, pcIn, high)
  {
    var candidate := BuildCandidate(h, pc, a, decoded, target);
    ghost var chosen := h.gates;
    StaysUndriven(pcIn, old(h.wireCount), old(h.driven), h.wireCount, h.driven, {});
    MuxWordInto(h, pcIn, pc, candidate, phase);
    forall high | Settled(h.gates, high)
      ensures BranchWorks(pc, a, decoded, target, phase, pcIn, high)
    {
      assert Settled(chosen, high);
    }
  }

  lemma AddendIsOne(high: set<nat>)
    requires GROUND !in high && SUPPLY in high
    ensures Value([SUPPLY, GROUND, GROUND, GROUND], high) == 1
  {
    var w1, w2, w3, w4 := [GROUND], [GROUND, GROUND], [GROUND, GROUND, GROUND], [SUPPLY, GROUND, GROUND, GROUND];
    assert w1[1..] == [] && w2[1..] == w1 && w3[1..] == w2 && w4[1..] == w3;
    assert Value(w1, high) == 0;
    assert Value(w2, high) == 0;
    assert Value(w3, high) == 0;
  }

  /** The four-bit incrementer: a ripple adder whose addend is the supply, then ground. */
  method Increment(h: DigitalHarness, pc: seq<nat>) returns (r: seq<nat>)
    requires h.Valid() && |pc| == 4 && AllIn(pc, h.driven)
    modifies h
    ensures h.Valid() && h.Grown({}) && |r| == 4 && AllIn(r, h.driven)
    ensures forall high | Settled(h.gates, high) :: Value(r, high) == (Value(pc, high) + 1) % 16
  {
    var carry;
    var addend := [SUPPLY, GROUND, GROUND, GROUND];
    assert Netlist.Sources(h.delays) <= h.driven;
    r, carry := RippleAdd(h, pc, addend);
    forall high | Settled(h.gates, high) ensures Value(r, high) == (Value(pc, high) + 1) % 16 {
      AddendIsOne(high);
      ValueBound(r, high);
      SixteenIsPow2();
      RemainderOfCarry(Value(pc, high) + 1, 16, Value(r, high), carry in high);
    }
  }

  lemma UndrivenSlices(wires: seq<nat>, cut: nat, wireCount: nat, driven: set<nat>)
    requires Undriven(wires, wireCount, driven) && cut <= |wires|
    ensures Undriven(wires[..cut], wireCount, driven) && Undriven(wires[cut..], wireCount, driven)
    ensures forall k | 0 <= k < cut :: wires[..cut][k] !in SetOf(wires[cut..])
  {
  }

  /** The opcode lines show the opcode of the word in the instruction register. */
  ghost predicate Decodes(decoded: seq<nat>, word: nat, high: set<nat>) {
    |decoded| == 8 && forall v | 0 <= v < 8 :: decoded[v] in high <==> word % 8 == v
  }

  lemma PartsExecute(cpu: Cpu, width: nat, decoded: seq<nat>, high: set<nat>)
    requires width >= 4 && cpu.Shaped(width) && Decodes(decoded, Value(Outs(cpu.instruction), high), high)
    requires Path(cpu, decoded).Works(high)
    requires BranchWorks(Outs(cpu.pc), Outs(cpu.a), decoded, Outs(cpu.instruction)[3..][..4], cpu.phase.output,
      Inputs(cpu.pc), high)
    ensures Received(cpu, high).arch ==
              if cpu.phase.output in high then Execute(width, Shown(cpu, high).instruction, Shown(cpu, high).arch)
              else Shown(cpu, high).arch
  {
    InstructionSplits(Outs(cpu.instruction), high);
    TargetIsLowNibble(Outs(cpu.instruction)[3..], high);
  }

  /** Everything the parts promise about one level assignment, and what follows for the machine. */
  lemma MachineWorks(cpu: Cpu, width: nat, program: seq<nat>, decoded: seq<nat>, high: set<nat>)
    requires width >= 4 && cpu.Shaped(width) && |program| == 16 && |decoded| == 8
    requires FrontEndWorks(cpu, program, decoded, high)
    requires Path(cpu, decoded).Works(high)
    requires BranchWorks(Outs(cpu.pc), Outs(cpu.a), decoded, Outs(cpu.instruction)[3..][..4], cpu.phase.output,
      Inputs(cpu.pc), high)
    ensures Shown(cpu, high).arch.pc < 16
    ensures Received(cpu, high) == NextState(width, program, Shown(cpu, high))
  {
    InstructionSplits(Outs(cpu.instruction), high);
    SixteenIsPow2();
    AddressLine(decoded, Outs(cpu.instruction)[..3], high);
    PartsExecute(cpu, width, decoded, high);
    LowIsRemainder(program[Value(Outs(cpu.pc), high)], width + 3);
  }

  function Path(cpu: Cpu, decoded: seq<nat>): DataPath
    requires |cpu.instruction| >= 3
  {
    DataPath(Outs(cpu.a), Outs(cpu.b), cpu.carry.output, cpu.phase.output, decoded, Outs(cpu.instruction)[3..],
             Inputs(cpu.a), Inputs(cpu.b), cpu.carry.input)
  }

  lemma RegistersAreUndriven(bits: seq<RegisterBit>, wireCount: nat, driven: set<nat>)
    requires forall i | 0 <= i < |bits| :: bits[i] == RegisterBit(2 + 2 * i, 3 + 2 * i)
    requires wireCount == 2 + 2 * |bits| && driven == {GROUND, SUPPLY} + SetOf(Outs(bits))
    ensures Undriven(Inputs(bits), wireCount, driven)
  {
    forall k | 0 <= k < |bits| ensures Inputs(bits)[k] !in driven {
      assert forall i | 0 <= i < |bits| :: Outs(bits)[i] == 3 + 2 * i;
    }
  }

  function CpuOf(bits: seq<RegisterBit>, width: nat): (cpu: Cpu)
    requires |bits| == 3 * width + 9
    ensures cpu.Shaped(width) && cpu.Bits() == bits
  {
    var cpu := Cpu(bits[..4], bits[4..4 + width], bits[4 + width..4 + 2 * width], bits[4 + 2 * width],
                   bits[5 + 2 * width..8 + 3 * width], bits[8 + 3 * width]);
    assert cpu.Bits() == bits;
    cpu
  }

  lemma InputsAppend(x: seq<RegisterBit>, y: seq<RegisterBit>)
    ensures Inputs(x + y) == Inputs(x) + Inputs(y) && Outs(x + y) == Outs(x) + Outs(y)
  {
  }

  lemma InputsOfBits(cpu: Cpu)
    ensures Inputs(cpu.Bits()) == CpuInputs(cpu)
    ensures Outs(cpu.Bits())
         == Outs(cpu.pc) + Outs(cpu.a) + Outs(cpu.b) + [cpu.carry.output] + Outs(cpu.instruction) + [cpu.phase.output]
  {
    var upToB := cpu.pc + cpu.a + cpu.b;
    InputsAppend(cpu.pc, cpu.a);
    InputsAppend(cpu.pc + cpu.a, cpu.b);
    InputsAppend(upToB, [cpu.carry]);
    InputsAppend(upToB + [cpu.carry], cpu.instruction);
    InputsAppend(upToB + [cpu.carry] + cpu.instruction, [cpu.phase]);
    assert Inputs([cpu.carry]) == [cpu.carry.input] && Inputs([cpu.phase]) == [cpu.phase.input];
    assert Outs([cpu.carry]) == [cpu.carry.output] && Outs([cpu.phase]) == [cpu.phase.output];
  }

  lemma OutsOfBits(cpu: Cpu, driven: set<nat>)
    requires AllIn(Outs(cpu.Bits()), driven)
    ensures OutsDriven(cpu, driven)
  {
    InputsOfBits(cpu);
  }

  lemma SetOfAppended(x: seq<nat>, w: nat)
    ensures SetOf(x + [w]) == SetOf(x) + {w}
  {
  }

  ghost predicate OutsDriven(cpu: Cpu, driven: set<nat>) {
    && AllIn(Outs(cpu.pc), driven) && AllIn(Outs(cpu.a), driven) && AllIn(Outs(cpu.b), driven)
    && AllIn(Outs(cpu.instruction), driven) && cpu.carry.output in driven && cpu.phase.output in driven
  }

  /** The data path and the branch logic. */
  method BuildControl(h: DigitalHarness, d: DataPath, pc: seq<nat>, target: seq<nat>, pcIn: seq<nat>)
    requires h.Valid() && d.Shaped() && d.Connected(h.driven)
    requires |pc| == |target| == |pcIn| == 4 && AllIn(pc, h.driven) && AllIn(target, h.driven)
    requires Undriven(pcIn + (d.aIn + d.bIn + [d.carryIn]), h.wireCount, h.driven)
    modifies h
    ensures h.Valid() && h.delays == old(h.delays)
    ensures old(h.driven) + SetOf(pcIn) + SetOf(d.aIn + d.bIn + [d.carryIn]) <= h.driven
    ensures forall high | Settled(h.gates, high) :: Settled(old(h.gates), high) && d.Works(high)
    ensures forall high | Settled(h.gates, high) :: BranchWorks(pc, d.a, d.decoded, target, d.phase, pcIn, high)
  {
    ghost var dataIn := d.aIn + d.bIn + [d.carryIn];
    UndrivenSlices(pcIn + dataIn, |pcIn|, h.wireCount, h.driven);
    assert (pcIn + dataIn)[..|pcIn|] == pcIn && (pcIn + dataIn)[|pcIn|..] == dataIn;
    assert SetOf(dataIn) == SetOf(d.aIn) + SetOf(d.bIn) + {d.carryIn};
    BuildDataPath(h, d);
    ghost var data := h.gates;
    StaysUndriven(pcIn, old(h.wireCount), old(h.driven), h.wireCount, h.driven, SetOf(dataIn));
    BuildBranch(h, pc, d.a, d.decoded, target, d.phase, pcIn);
    assert forall high | Settled(h.gates, high) :: Settled(data, high);
  }

  ghost predicate FrontEndWorks(cpu: Cpu, program: seq<nat>, decoded: seq<nat>, high: set<nat>)
    requires |program| == 16 && |cpu.instruction| >= 3 && |decoded| == 8
  {
    && FetchWorks(Outs(cpu.pc), cpu.phase.output, Outs(cpu.instruction), cpu.phase.input, Inputs(cpu.instruction),
      program, high)
    && Numbers(decoded, Outs(cpu.instruction)[..3], high)
  }

  /** Fetch and opcode decoder, leaving the wires `rest` for the control part. */
  method BuildFrontEnd(
      h: DigitalHarness, cpu: Cpu, width: nat, program: seq<nat>, rest: seq<nat>) returns (decoded: seq<nat>)
    requires h.Valid() && cpu.Shaped(width) && |program| == 16 && OutsDriven(cpu, h.driven)
    requires Undriven(rest + (Inputs(cpu.instruction) + [cpu.phase.input]), h.wireCount, h.driven)
    modifies h
    ensures h.Valid() && h.delays == old(h.delays) && |decoded| == 8 && AllIn(decoded, h.driven)
    ensures Undriven(rest, h.wireCount, h.driven)
    ensures old(h.driven) + SetOf(Inputs(cpu.instruction) + [cpu.phase.input]) <= h.driven
    ensures forall high | Settled(h.gates, high) :: FrontEndWorks(cpu, program, decoded, high)
  {
    ghost var own := Inputs(cpu.instruction) + [cpu.phase.input];
    UndrivenSlices(rest + own, |rest|, h.wireCount, h.driven);
    assert (rest + own)[..|rest|] == rest && (rest + own)[|rest|..] == own;
    SetOfAppended(Inputs(cpu.instruction), cpu.phase.input);
    BuildFetch(h, Outs(cpu.pc), cpu.phase.output, Outs(cpu.instruction), cpu.phase.input, Inputs(cpu.instruction),
      program);
    ghost var fetch, wireCount, driven := h.gates, h.wireCount, h.driven;
    StaysUndriven(rest, old(h.wireCount), old(h.driven), wireCount, driven, SetOf(own));
    decoded := Decoder(h, Outs(cpu.instruction)[..3], 8);
    StaysUndriven(rest, wireCount, driven, h.wireCount, h.driven, {});
    assert forall high | Settled(h.gates, high) :: Settled(fetch, high);
  }

  method BuildLogic(h: DigitalHarness, cpu: Cpu, width: nat, program: seq<nat>) returns (decoded: seq<nat>)
    requires h.Valid() && width >= 4 && cpu.Shaped(width) && |program| == 16 && OutsDriven(cpu, h.driven)
    requires Undriven(CpuInputs(cpu), h.wireCount, h.driven)
    modifies h
    ensures h.Valid() && h.delays == old(h.delays) && |decoded| == 8 && SetOf(CpuInputs(cpu)) <= h.driven
    ensures forall high | Settled(h.gates, high) ::
              && FrontEndWorks(cpu, program, decoded, high)
              && Path(cpu, decoded).Works(high)
              && BranchWorks(Outs(cpu.pc), Outs(cpu.a), decoded, Outs(cpu.instruction)[3..][..4], cpu.phase.output,
                Inputs(cpu.pc), high)
  {
    var pcIn, dataIn := Inputs(cpu.pc), Inputs(cpu.a) + Inputs(cpu.b) + [cpu.carry.input];
    decoded := BuildFrontEnd(h, cpu, width, program, pcIn + dataIn);
    ghost var front := h.gates;
    BuildControl(h, Path(cpu, decoded), Outs(cpu.pc), Outs(cpu.instruction)[3..][..4], pcIn);
    assert forall high | Settled(h.gates, high) :: Settled(front, high);
  }

  /** The register input wires in allocation order. */
  function CpuInputs(cpu: Cpu): seq<nat> {
    Inputs(cpu.pc) + (Inputs(cpu.a) + Inputs(cpu.b) + [cpu.carry.input]) + (Inputs(cpu.instruction) + [cpu.phase.input])
  }

  /** The registers, allocated before anything else. */
  method NewCpu(width: nat) returns (h: DigitalHarness, cpu: Cpu)
    ensures fresh(h) && h.Valid() && h.delays == cpu.Bits() && cpu.Shaped(width)
    ensures OutsDriven(cpu, h.driven) && Undriven(CpuInputs(cpu), h.wireCount, h.driven)
  {
    h := new DigitalHarness();
    var bits := NewRegister(h, 3 * width + 9);
    cpu := CpuOf(bits, width);
    assert AllIn(Outs(bits), h.driven);
    RegistersAreUndriven(bits, h.wireCount, h.driven);
    InputsOfBits(cpu);
    OutsOfBits(cpu, h.driven);
  }

  lemma InputsAreDriven(cpu: Cpu, driven: set<nat>)
    requires SetOf(CpuInputs(cpu)) <= driven
    ensures forall k | 0 <= k < |cpu.Bits()| :: cpu.Bits()[k].input in driven
  {
    InputsOfBits(cpu);
    forall k | 0 <= k < |cpu.Bits()| ensures cpu.Bits()[k].input in driven {
      assert Inputs(cpu.Bits())[k] in SetOf(CpuInputs(cpu));
    }
  }

  /** Build the machine: registers first, then fetch, decoder, data path and branch logic. */
  method Build(width: nat, program: seq<nat>) returns (h: DigitalHarness, cpu: Cpu)
    requires width >= 4 && |program| == 16
    ensures fresh(h) && h.Valid() && IsMachine(h.gates, h.delays, cpu, width, program)
  {
    h, cpu := NewCpu(width);
    var decoded := BuildLogic(h, cpu, width, program);
    forall high | Settled(h.gates, high)
      ensures Shown(cpu, high).arch.pc < 16 && Received(cpu, high) == NextState(width, program, Shown(cpu, high))
    {
      MachineWorks(cpu, width, program, decoded, high);
    }
    InputsAreDriven(cpu, h.driven);
  }

  // ----- Running the machine -----

  /** One synchronous tick: settle the gates over the delayed levels, then latch every delay input.
      `stored` is the set of delay outputs that are high. */
  ghost function Tick(gates: seq<Gate>, delays: seq<RegisterBit>, stored: set<nat>): set<nat> {
    var high := Evaluate(gates, stored + {SUPPLY});
    set k | 0 <= k < |delays| && delays[k].input in high :: delays[k].output
  }

  /** The delayed levels after `n` ticks; every delay starts low. */
  ghost function AfterTicks(gates: seq<Gate>, delays: seq<RegisterBit>, n: nat): set<nat> {
    if n == 0 then {} else Tick(gates, delays, AfterTicks(gates, delays, n - 1))
  }

  lemma {:induction false} ValuesAgree(x: seq<nat>, high: set<nat>, y: seq<nat>, high': set<nat>)
    requires |x| == |y| && forall k | 0 <= k < |x| :: x[k] in high <==> y[k] in high'
    ensures Value(x, high) == Value(y, high')
  {
    if x != [] {
      assert x[0] in high <==> y[0] in high';
      ValuesAgree(x[1..], high, y[1..], high');
    }
  }

  lemma {:induction false} StoredAreOutputs(gates: seq<Gate>, delays: seq<RegisterBit>, n: nat)
    ensures AfterTicks(gates, delays, n) <= Sources(delays)
    ensures forall w | w in AfterTicks(gates, delays, n) :: exists k :: 0 <= k < |delays| && delays[k].output == w
  {
  }

  /** A latched delay shows what its input received. */
  lemma LatchShowsInput(delays: seq<RegisterBit>, high: set<nat>, next: set<nat>, bits: seq<RegisterBit>)
    requires forall i, j | 0 <= i < j < |delays| :: delays[i].output != delays[j].output
    requires next == set k | 0 <= k < |delays| && delays[k].input in high :: delays[k].output
    requires forall k | 0 <= k < |bits| :: bits[k] in delays
    ensures forall k | 0 <= k < |bits| :: bits[k].output in next <==> bits[k].input in high
    ensures Value(Outs(bits), next) == Value(Inputs(bits), high)
  {
    forall k | 0 <= k < |bits| ensures bits[k].output in next <==> bits[k].input in high {
      var i :| 0 <= i < |delays| && delays[i] == bits[k];
      if bits[k].output in next {
        var j :| 0 <= j < |delays| && delays[j].input in high && delays[j].output == bits[k].output;
        assert i == j;
      }
    }
    ValuesAgree(Outs(bits), next, Inputs(bits), high);
  }

  ghost predicate IsMachine(gates: seq<Gate>, delays: seq<RegisterBit>, cpu: Cpu, width: nat, program: seq<nat>) {
    && Topological(gates, Sources(delays))
    && (forall i | 0 <= i < |delays| :: delays[i].output != GROUND && delays[i].output != SUPPLY)
    && (forall i, j | 0 <= i < j < |delays| :: delays[i].output != delays[j].output)
    && (forall k | 0 <= k < |delays| :: delays[k].input in Sources(delays) + Outputs(gates))
    && delays == cpu.Bits() && cpu.Shaped(width)
    && Implements(gates, cpu, width, program)
  }

  /** During a tick the register outputs show the stored levels. */
  lemma TickShowsStored(gates: seq<Gate>, delays: seq<RegisterBit>, cpu: Cpu, stored: set<nat>, high: set<nat>)
    requires delays == cpu.Bits() && high * Sources(delays) == stored + {SUPPLY}
    requires forall i | 0 <= i < |delays| :: delays[i].output != GROUND && delays[i].output != SUPPLY
    ensures Shown(cpu, high) == Shown(cpu, stored)
  {
    forall bit | bit in delays ensures bit.output in high <==> bit.output in stored {
      var k :| 0 <= k < |delays| && delays[k] == bit;
      assert delays[k].output in Sources(delays);
      assert bit.output in high * Sources(delays) <==> bit.output in stored + {SUPPLY};
    }
    forall bits: seq<RegisterBit> | forall k | 0 <= k < |bits| :: bits[k] in delays
      ensures Value(Outs(bits), high) == Value(Outs(bits), stored)
    {
      ValuesAgree(Outs(bits), high, Outs(bits), stored);
    }
    assert cpu.carry in delays && cpu.phase in delays;
  }

  /** One tick of the netlist is one step of `NextState`. */
  lemma TickIsNextState(gates: seq<Gate>, delays: seq<RegisterBit>, cpu: Cpu, width: nat, program: seq<nat>, n: nat)
    requires IsMachine(gates, delays, cpu, width, program)
    ensures Shown(cpu, AfterTicks(gates, delays, n)).arch.pc < 16
    ensures Shown(cpu, AfterTicks(gates, delays, n + 1)) ==
      NextState(width, program, Shown(cpu, AfterTicks(gates, delays, n)))
  {
    var stored, next := AfterTicks(gates, delays, n), AfterTicks(gates, delays, n + 1);
    var high := Evaluate(gates, stored + {SUPPLY});
    StoredAreOutputs(gates, delays, n);
    EvaluateSettles(gates, Sources(delays), stored + {SUPPLY});
    TickShowsStored(gates, delays, cpu, stored, high);
    assert Settled(gates, high);
    ReceivedIsShownNext(delays, cpu, high, next);
  }

  lemma ReceivedIsShownNext(delays: seq<RegisterBit>, cpu: Cpu, high: set<nat>, next: set<nat>)
    requires delays == cpu.Bits()
    requires forall i, j | 0 <= i < j < |delays| :: delays[i].output != delays[j].output
    requires next == set k | 0 <= k < |delays| && delays[k].input in high :: delays[k].output
    ensures Shown(cpu, next) == Received(cpu, high)
  {
    LatchShowsInput(delays, high, next, cpu.pc);
    LatchShowsInput(delays, high, next, cpu.a);
    LatchShowsInput(delays, high, next, cpu.b);
    LatchShowsInput(delays, high, next, cpu.instruction);
    LatchShowsInput(delays, high, next, [cpu.carry, cpu.phase]);
    assert [cpu.carry, cpu.phase][0] == cpu.carry && [cpu.carry, cpu.phase][1] == cpu.phase;
  }

  lemma {:induction false} AllLowIsZero(wires: seq<nat>)
    ensures Value(wires, {}) == 0
  {
    if wires != [] { AllLowIsZero(wires[1..]); }
  }

  lemma AllLowState(cpu: Cpu)
    ensures Shown(cpu, {}) == CpuState(IsaState(0, 0, 0, false), 0, false)
  {
    AllLowIsZero(Outs(cpu.pc));
    AllLowIsZero(Outs(cpu.a));
    AllLowIsZero(Outs(cpu.b));
    AllLowIsZero(Outs(cpu.instruction));
  }

  /** After `m` ticks the registers are between instructions and show the given state. */
  ghost predicate Reached(gates: seq<Gate>, delays: seq<RegisterBit>, cpu: Cpu, m: nat, arch: IsaState) {
    var s := Shown(cpu, AfterTicks(gates, delays, m));
    s.arch == arch && !s.execute
  }

  ghost predicate IsStep(run: nat -> CpuState, width: nat, program: seq<nat>, k: nat)
    requires |program| == 16
  {
    run(k).arch.pc < 16 && run(k + 1) == NextState(width, program, run(k))
  }

  /** A run of the next-state function from reset. */
  ghost predicate IsRun(run: nat -> CpuState, width: nat, program: seq<nat>) {
    && |program| == 16 && run(0) == CpuState(IsaState(0, 0, 0, false), 0, false)
    && forall k: nat :: IsStep(run, width, program, k)
  }

  /** Any such run executes one instruction in two ticks: a fetch and an execute. */
  lemma {:induction false} RunRefinesIsa(run: nat -> CpuState, width: nat, program: seq<nat>, n: nat)
    requires IsRun(run, width, program)
    ensures run(2 * n).arch == IsaRun(width, program, n) && !run(2 * n).execute
  {
    if n > 0 {
      RunRefinesIsa(run, width, program, n - 1);
      var m := 2 * (n - 1);
      assert IsStep(run, width, program, m) && IsStep(run, width, program, m + 1);
    }
  }

  ghost function RunOf(gates: seq<Gate>, delays: seq<RegisterBit>, cpu: Cpu): nat -> CpuState {
    (k: nat) => Shown(cpu, AfterTicks(gates, delays, k))
  }

  lemma MachineStep(gates: seq<Gate>, delays: seq<RegisterBit>, cpu: Cpu, width: nat, program: seq<nat>, k: nat)
    requires IsMachine(gates, delays, cpu, width, program)
    ensures IsStep(RunOf(gates, delays, cpu), width, program, k)
  {
    TickIsNextState(gates, delays, cpu, width, program, k);
  }

  lemma MachineRuns(gates: seq<Gate>, delays: seq<RegisterBit>, cpu: Cpu, width: nat, program: seq<nat>)
    requires IsMachine(gates, delays, cpu, width, program)
    ensures IsRun(RunOf(gates, delays, cpu), width, program)
  {
    AllLowState(cpu);
    forall k: nat ensures IsStep(RunOf(gates, delays, cpu), width, program, k) {
      MachineStep(gates, delays, cpu, width, program, k);
    }
  }

  /** The netlist refines the instruction set: from all-low delays, two ticks per instruction, the
      register outputs show exactly the architectural state of the instruction-set run. */
  lemma CpuRefinesIsa(gates: seq<Gate>, delays: seq<RegisterBit>, cpu: Cpu, width: nat, program: seq<nat>, n: nat)
    requires IsMachine(gates, delays, cpu, width, program)
    ensures Reached(gates, delays, cpu, 2 * n, IsaRun(width, program, n))
  {
    MachineRuns(gates, delays, cpu, width, program);
    RunRefinesIsa(RunOf(gates, delays, cpu), width, program, n);
  }

  /** The netlist built around the sample program goes through the table of states, at any width. */
  lemma NetlistRunsSample(gates: seq<Gate>, delays: seq<RegisterBit>, cpu: Cpu, width: nat, n: nat)
    requires 8 <= width && n <= 14 && IsMachine(gates, delays, cpu, width, SampleProgram(width))
    ensures Reached(gates, delays, cpu, 2 * n, SampleTrace(width)[n])
  {
    CpuRefinesIsa(gates, delays, cpu, width, SampleProgram(width), n);
    SampleRuns(width, n);
  }

  /** Any settled levels over the stored ones give the same next state, so a tick does not depend
      on the order in which the gates are evaluated. */
  lemma TickIsDeterministic(
      gates: seq<Gate>, delays: seq<RegisterBit>, cpu: Cpu, width: nat, program: seq<nat>, stored: set<nat>,
      high: set<nat>)
    requires IsMachine(gates, delays, cpu, width, program) && stored <= Sources(delays) - {GROUND, SUPPLY}
    requires Settled(gates, high) && high * Sources(delays) == stored + {SUPPLY}
    ensures Tick(gates, delays, stored) == set k | 0 <= k < |delays| && delays[k].input in high :: delays[k].output
  {
    var evaluated := Evaluate(gates, stored + {SUPPLY});
    EvaluateSettles(gates, Sources(delays), stored + {SUPPLY});
    Netlist.SettledUnique(gates, Sources(delays), evaluated, high);
    var known := Sources(delays) + Outputs(gates);
    forall k | 0 <= k < |delays| ensures delays[k].input in evaluated <==> delays[k].input in high {
      assert delays[k].input in evaluated * known <==> delays[k].input in high * known;
    }
  }
}
