// Gate-level netlists (hynergy-benchmarks/src/fixtures/digital.rs): the harness that adds wires,
// gates and tick delays. Every builder method is specified by what it forces on each assignment
// of logic levels that settles the netlist; a level assignment is the set of high wires.
module Netlist {
  import opened BinaryNumbers

  const GROUND: nat := 0
  const SUPPLY: nat := 1

  datatype GateKind = Not | And | Nand | Or

  datatype Gate = Gate(kind: GateKind, output: nat, a: nat, b: nat) {
    /** The logic level the gate drives: its Boolean function of its input levels. */
    predicate Level(high: set<nat>) {
      match kind
      case Not => a !in high
      case And => a in high && b in high
      case Nand => !(a in high && b in high)
      case Or => a in high || b in high
    }
  }

  /** A tick delay: its output shows, during a tick, what its input showed in the previous tick. */
  datatype RegisterBit = RegisterBit(input: nat, output: nat)

  ghost predicate Settled(gates: seq<Gate>, high: set<nat>) {
    && GROUND !in high && SUPPLY in high
    && forall k | 0 <= k < |gates| :: gates[k].output in high <==> gates[k].Level(high)
  }

  ghost function Outputs(gates: seq<Gate>): set<nat> {
    set k | 0 <= k < |gates| :: gates[k].output
  }

  ghost function Sources(delays: seq<RegisterBit>): set<nat> {
    {GROUND, SUPPLY} + set k | 0 <= k < |delays| :: delays[k].output
  }

  /** Every gate reads wires driven before it and drives a wire of its own. */
  ghost predicate Topological(gates: seq<Gate>, sources: set<nat>) {
    forall k | 0 <= k < |gates| ::
      && gates[k].a in sources + Outputs(gates[..k]) && gates[k].b in sources + Outputs(gates[..k])
      && gates[k].output !in sources + Outputs(gates[..k])
  }

  /** Levels after one pass over the gates, starting from the high sources. */
  ghost function Evaluate(gates: seq<Gate>, high: set<nat>): set<nat> {
    if gates == [] then high
    else
      var before := Evaluate(gates[..|gates| - 1], high);
      if gates[|gates| - 1].Level(before) then before + {gates[|gates| - 1].output} else before
  }

  lemma TopologicalPrefix(gates: seq<Gate>, sources: set<nat>, n: nat)
    requires Topological(gates, sources) && n <= |gates|
    ensures Topological(gates[..n], sources)
  {
    forall k | 0 <= k < n ensures gates[..n][..k] == gates[..k] {}
  }

  lemma InputsKnown(gates: seq<Gate>, sources: set<nat>, k: nat, n: nat)
    requires Topological(gates, sources) && k <= n <= |gates| && k < |gates|
    ensures gates[k].a in sources + Outputs(gates[..n]) && gates[k].b in sources + Outputs(gates[..n])
    ensures k < n ==> gates[k].output in Outputs(gates[..n])
    ensures Outputs(gates[..k]) <= Outputs(gates[..n])
  {
    forall w | w in Outputs(gates[..k]) ensures w in Outputs(gates[..n]) {
      var j :| 0 <= j < k && gates[..k][j].output == w;
      assert gates[..n][j].output == w;
    }
    if k < n { assert gates[..n][k] == gates[k]; }
  }

  lemma LevelIgnoresOthers(gate: Gate, high: set<nat>, w: nat)
    requires gate.a != w && gate.b != w
    ensures gate.Level(high + {w}) == gate.Level(high)
  {
  }

  /** The levels exist: one pass in build order settles an acyclic netlist and keeps its sources. */
  lemma {:induction false} EvaluateSettles(gates: seq<Gate>, sources: set<nat>, high: set<nat>)
    requires Topological(gates, sources) && GROUND in sources && SUPPLY in sources
    requires high <= sources && GROUND !in high && SUPPLY in high
    ensures Settled(gates, Evaluate(gates, high))
    ensures Evaluate(gates, high) * sources == high
    ensures Evaluate(gates, high) <= sources + Outputs(gates)
  {
    if gates != [] {
      var n := |gates| - 1;
      TopologicalPrefix(gates, sources, n);
      EvaluateSettles(gates[..n], sources, high);
      var before, after := Evaluate(gates[..n], high), Evaluate(gates, high);
      assert gates[n].output !in before;
      forall k | 0 <= k < |gates| ensures gates[k].output in after <==> gates[k].Level(after) {
        InputsKnown(gates, sources, k, n);
        LevelIgnoresOthers(gates[k], before, gates[n].output);
        if k < n {
          assert gates[..n][k] == gates[k];
        }
      }
      InputsKnown(gates, sources, n, n + 1);
      assert gates[..n + 1] == gates;
    }
  }

  lemma OutputsOfPrefix(gates: seq<Gate>, n: nat, w: nat)
    requires n + 1 == |gates| && w in Outputs(gates) && w !in Outputs(gates[..n])
    ensures w == gates[n].output
  {
    assert forall j | 0 <= j < n :: gates[..n][j] == gates[j];
  }

  /** The levels are unique: two settled assignments with the same sources agree on every driven wire. */
  lemma {:induction false} SettledUnique(gates: seq<Gate>, sources: set<nat>, x: set<nat>, y: set<nat>)
    requires Topological(gates, sources) && Settled(gates, x) && Settled(gates, y)
    requires x * sources == y * sources
    ensures x * (sources + Outputs(gates)) == y * (sources + Outputs(gates))
  {
    if gates != [] {
      var n := |gates| - 1;
      TopologicalPrefix(gates, sources, n);
      assert forall k | 0 <= k < n :: gates[..n][k] == gates[k];
      SettledUnique(gates[..n], sources, x, y);
      var known := sources + Outputs(gates[..n]);
      assert gates[n].a in known && gates[n].b in known;
      assert gates[n].a in x * known <==> gates[n].a in y * known;
      assert gates[n].b in x * known <==> gates[n].b in y * known;
      assert gates[n].output in x <==> gates[n].output in y;
      forall w | w in sources + Outputs(gates) ensures w in x <==> w in y {
        assert w in known ==> (w in x * known <==> w in y * known);
        if w !in known {
          OutputsOfPrefix(gates, n, w);
        }
      }
    } else {
      assert sources + Outputs(gates) == sources;
    }
  }

  // ----- The harness -----

  lemma {:induction false} MoreSources(gates: seq<Gate>, sources: set<nat>, w: nat)
    requires Topological(gates, sources) && w !in Outputs(gates)
    ensures Topological(gates, sources + {w})
  {
    forall k | 0 <= k < |gates| ensures gates[k].output != w {}
  }

  lemma MoreGates(gates: seq<Gate>, sources: set<nat>, gate: Gate)
    requires Topological(gates, sources)
    requires {gate.a, gate.b} <= sources + Outputs(gates) && gate.output !in sources + Outputs(gates)
    ensures Topological(gates + [gate], sources)
    ensures Outputs(gates + [gate]) == Outputs(gates) + {gate.output}
    ensures forall high :: Settled(gates + [gate], high) <==>
                             Settled(gates, high) && (gate.output in high <==> gate.Level(high))
  {
    var more := gates + [gate];
    assert more[|gates|] == gate && more[..|gates|] == gates;
    forall k | 0 <= k < |gates| ensures more[k] == gates[k] && more[..k] == gates[..k] {}
    forall high ensures Settled(more, high) <==> Settled(gates, high) && (gate.output in high <==> gate.Level(high)) {
      if Settled(more, high) {
        assert forall k | 0 <= k < |gates| :: more[k].output in high <==> more[k].Level(high);
      }
    }
    forall w | w in Outputs(gates) ensures w in Outputs(more) {
      var k :| 0 <= k < |gates| && gates[k].output == w;
      assert more[k].output == w;
    }
  }

  class DigitalHarness {
    var wireCount: nat
    var gates: seq<Gate>
    var delays: seq<RegisterBit>
    ghost var driven: set<nat>

    ghost predicate Valid()
      reads this
    {
      && driven == Sources(delays) + Outputs(gates)
      && (forall w | w in driven :: w < wireCount)
      && Topological(gates, Sources(delays))
      && (forall i | 0 <= i < |delays| :: delays[i].output != GROUND && delays[i].output != SUPPLY)
      && (forall i, j | 0 <= i < j < |delays| :: delays[i].output != delays[j].output)
    }

    /** Only gates were added: existing levels keep their constraints, and apart from `target`
        every newly driven wire is a new wire. */
    twostate predicate Grown(target: set<nat>)
      reads this
    {
      && old(wireCount) <= wireCount && delays == old(delays)
      && old(driven) + target <= driven
      && (forall w | w in driven && w !in old(driven) + target :: old(wireCount) <= w)
      && (forall high | Settled(gates, high) :: Settled(old(gates), high))
    }

    constructor ()
      ensures Valid() && gates == [] && delays == [] && driven == {GROUND, SUPPLY} && wireCount == 2
    {
      wireCount, gates, delays := 2, [], [];
      driven := {GROUND, SUPPLY};
      new;
      assert Sources([]) == {GROUND, SUPPLY};
    }

    method NewRegisterBit() returns (bit: RegisterBit)
      requires Valid()
      modifies this
      ensures Valid()
      ensures wireCount == old(wireCount) + 2 && gates == old(gates) && delays == old(delays) + [bit]
      ensures bit.input == old(wireCount) && bit.output == old(wireCount) + 1
      ensures driven == old(driven) + {bit.output}
    {
      bit := RegisterBit(wireCount, wireCount + 1);
      MoreSources(gates, Sources(delays), bit.output);
      wireCount := wireCount + 2;
      assert Sources(delays + [bit]) == Sources(delays) + {bit.output} by {
        assert forall k | 0 <= k < |delays| :: (delays + [bit])[k] == delays[k];
        assert (delays + [bit])[|delays|] == bit;
      }
      delays := delays + [bit];
      driven := driven + {bit.output};
    }

    /** Place a gate that drives an existing undriven wire. */
    method GateInto(kind: GateKind, output: nat, a: nat, b: nat)
      requires Valid() && {a, b} <= driven && output < wireCount && output !in driven
      modifies this
      ensures Valid() && Grown({output}) && wireCount == old(wireCount)
      ensures forall high | Settled(gates, high) :: output in high <==> Gate(kind, output, a, b).Level(high)
    {
      MoreGates(gates, Sources(delays), Gate(kind, output, a, b));
      gates := gates + [Gate(kind, output, a, b)];
      driven := driven + {output};
    }

    method NewGate(kind: GateKind, a: nat, b: nat) returns (output: nat)
      requires Valid() && {a, b} <= driven
      modifies this
      ensures Valid() && Grown({}) && output in driven
      ensures forall high | Settled(gates, high) :: output in high <==> Gate(kind, output, a, b).Level(high)
    {
      output := wireCount;
      wireCount := wireCount + 1;
      GateInto(kind, output, a, b);
    }

    /** Exclusive or from four NAND gates; the first NAND is also returned. */
    method XorFromNands(a: nat, b: nat) returns (xor: nat, nand: nat)
      requires Valid() && {a, b} <= driven
      modifies this
      ensures Valid() && Grown({}) && {xor, nand} <= driven
      ensures forall high | Settled(gates, high) ::
                && (nand in high <==> !(a in high && b in high))
                && (xor in high <==> (a in high) != (b in high))
    {
      nand := NewGate(Nand, a, b);
      var n2 := NewGate(Nand, a, nand);
      var n3 := NewGate(Nand, b, nand);
      xor := NewGate(Nand, n2, n3);
    }

    method FullAdder(a: nat, b: nat, carryIn: nat) returns (sum: nat, carryOut: nat)
      requires Valid() && {a, b, carryIn} <= driven
      modifies this
      ensures Valid() && Grown({}) && {sum, carryOut} <= driven
      ensures forall high | Settled(gates, high) ::
                Weight(sum in high, 1) + Weight(carryOut in high, 2)
                == Weight(a in high, 1) + Weight(b in high, 1) + Weight(carryIn in high, 1)
    {
      var xorAb, n1 := XorFromNands(a, b);
      var total, n4 := XorFromNands(xorAb, carryIn);
      sum := total;
      carryOut := NewGate(Nand, n1, n4);
    }

    /** Drive `output` with `a` while `select` is low and with `b` while it is high. */
    method MuxInto(output: nat, a: nat, b: nat, select: nat)
      requires Valid() && {a, b, select} <= driven && output < wireCount && output !in driven
      modifies this
      ensures Valid() && Grown({output})
      ensures forall high | Settled(gates, high) ::
                output in high <==> if select in high then b in high else a in high
    {
      var aSelected, bSelected := SelectOne(a, b, select);
      GateInto(Or, output, aSelected, bSelected);
    }

    method SelectOne(a: nat, b: nat, select: nat) returns (aSelected: nat, bSelected: nat)
      requires Valid() && {a, b, select} <= driven
      modifies this
      ensures Valid() && Grown({}) && {aSelected, bSelected} <= driven
      ensures forall high | Settled(gates, high) ::
                && (aSelected in high <==> a in high && select !in high)
                && (bSelected in high <==> b in high && select in high)
    {
      var notSelect := NewGate(Not, select, select);
      aSelected := NewGate(And, a, notSelect);
      bSelected := NewGate(And, b, select);
    }

    method Mux(a: nat, b: nat, select: nat) returns (output: nat)
      requires Valid() && {a, b, select} <= driven
      modifies this
      ensures Valid() && Grown({}) && output in driven
      ensures forall high | Settled(gates, high) ::
                output in high <==> if select in high then b in high else a in high
    {
      output := wireCount;
      wireCount := wireCount + 1;
      MuxInto(output, a, b, select);
    }

    method OrReduce(inputs: seq<nat>) returns (output: nat)
      requires Valid() && forall w | w in inputs :: w in driven
      modifies this
      ensures Valid() && Grown({}) && output in driven
      ensures forall high | Settled(gates, high) :: output in high <==> exists w :: w in inputs && w in high
    {
      if inputs == [] {
        return GROUND;
      }
      output := inputs[0];
      for i := 1 to |inputs|
        invariant Valid() && Grown({}) && output in driven
        invariant forall high | Settled(gates, high) :: output in high <==> exists w :: w in inputs[..i] && w in high
      {
        assert inputs[i] in inputs;
        assert inputs[..i + 1] == inputs[..i] + [inputs[i]];
        output := NewGate(Or, output, inputs[i]);
      }
      assert inputs[..|inputs|] == inputs;
    }

    /** The `n`-input AND of a decoder line, left to right. */
    method AndReduce(inputs: seq<nat>) returns (output: nat)
      requires Valid() && |inputs| > 0 && forall w | w in inputs :: w in driven
      modifies this
      ensures Valid() && Grown({}) && output in driven
      ensures forall high | Settled(gates, high) :: output in high <==> forall w | w in inputs :: w in high
    {
      output := inputs[0];
      for i := 1 to |inputs|
        invariant Valid() && Grown({}) && output in driven
        invariant forall high | Settled(gates, high) :: output in high <==> forall w | w in inputs[..i] :: w in high
      {
        assert inputs[i] in inputs;
        assert inputs[..i + 1] == inputs[..i] + [inputs[i]];
        output := NewGate(And, output, inputs[i]);
      }
      assert inputs[..|inputs|] == inputs;
    }
  }
}
