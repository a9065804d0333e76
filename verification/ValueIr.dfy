// The numerical IR (hynergy-ir/src/value.rs): an SSA builder that folds constants and sorts
// operations into evaluation stages, and the full evaluator.
//
// Numbers are an arbitrary type V with arbitrary deterministic operations, so everything here
// holds bit for bit for IEEE doubles, including NaN payloads and signed zeros.
module ValueIr {
  import opened Support

  datatype Rate = Constant | Static | Tick | Iteration {
    function Rank(): nat {
      match this
      case Constant => 0
      case Static => 1
      case Tick => 2
      case Iteration => 3
    }

    function Max(other: Rate): Rate {
      if Rank() <= other.Rank() then other else this
    }
  }

  datatype BinaryKind = Add | Sub | Mul | Div | LessEqual

  /** The machine arithmetic: total deterministic functions, and the value of a fresh slot. */
  datatype Arithmetic<!V> = Arithmetic(zero: V, binary: (BinaryKind, V, V) -> V, negate: V -> V)

  datatype ValueOp =
    | Binary(kind: BinaryKind, destination: nat, lhs: nat, rhs: nat)
    | Negate(destination: nat, operand: nat)
  {
    /** The dependencies in the order `visit_dependencies` reports them. */
    function Sources(): seq<nat> {
      match this
      case Binary(_, _, lhs, rhs) => [lhs, rhs]
      case Negate(_, operand) => [operand]
    }

    predicate Reads(v: nat) {
      match this
      case Binary(_, _, lhs, rhs) => v == lhs || v == rhs
      case Negate(_, operand) => v == operand
    }

    predicate Fits(slotCount: nat) {
      && destination < slotCount
      && match this
         case Binary(_, _, lhs, rhs) => lhs < destination && rhs < destination
         case Negate(_, operand) => operand < destination
    }

    function Evaluate<V>(ar: Arithmetic<V>, values: seq<V>): V
      requires Fits(|values|)
    {
      match this
      case Binary(kind, _, lhs, rhs) => ar.binary(kind, values[lhs], values[rhs])
      case Negate(_, operand) => ar.negate(values[operand])
    }
  }

  ghost predicate AllFit(ops: seq<ValueOp>, slotCount: nat) {
    forall k | 0 <= k < |ops| :: ops[k].Fits(slotCount)
  }

  /** Builder order: destinations ascend and every operand is an older slot. */
  ghost predicate Ordered(ops: seq<ValueOp>, slotCount: nat) {
    && AllFit(ops, slotCount)
    && forall j, k | 0 <= j < k < |ops| :: ops[j].destination < ops[k].destination
  }

  ghost predicate Writes(ops: seq<ValueOp>, v: nat) {
    exists k :: 0 <= k < |ops| && ops[k].destination == v
  }

  /** `execute_ops`: run the operations once, front to back. */
  function Execute<V>(ar: Arithmetic<V>, ops: seq<ValueOp>, values: seq<V>): (r: seq<V>)
    requires AllFit(ops, |values|)
    ensures |r| == |values|
  {
    if ops == [] then values
    else
      var before := Execute(ar, ops[..|ops| - 1], values);
      var op := ops[|ops| - 1];
      before[op.destination := op.Evaluate(ar, before)]
  }

  /** Every operation's destination holds what the operation computes from the current values. */
  ghost predicate Settled<V>(ar: Arithmetic<V>, ops: seq<ValueOp>, values: seq<V>)
    requires AllFit(ops, |values|)
  {
    forall k | 0 <= k < |ops| :: values[ops[k].destination] == ops[k].Evaluate(ar, values)
  }

  lemma LaterWriteKeepsOperands<V>(ar: Arithmetic<V>, op: ValueOp, values: seq<V>, slot: nat, x: V)
    requires op.Fits(|values|) && op.destination <= slot < |values|
    ensures op.Evaluate(ar, values[slot := x]) == op.Evaluate(ar, values)
  {
  }

  /** Running one more operation settles it and disturbs none before it. */
  lemma SettledStep<V>(ar: Arithmetic<V>, ops: seq<ValueOp>, before: seq<V>, k: nat)
    requires Ordered(ops, |before|) && k < |ops|
    requires Settled(ar, ops[..|ops| - 1], before)
    ensures
      var last := ops[|ops| - 1];
      var after := before[last.destination := last.Evaluate(ar, before)];
      after[ops[k].destination] == ops[k].Evaluate(ar, after)
  {
    var n := |ops| - 1;
    var op := ops[k];
    LaterWriteKeepsOperands(ar, op, before, ops[n].destination, ops[n].Evaluate(ar, before));
    if k < n {
      assert ops[..n][k] == op;
    }
  }

  lemma {:induction false} ExecuteKeeps<V>(ar: Arithmetic<V>, ops: seq<ValueOp>, values: seq<V>, v: nat)
    requires AllFit(ops, |values|) && v < |values| && !Writes(ops, v)
    ensures Execute(ar, ops, values)[v] == values[v]
    decreases |ops|
  {
    if ops != [] {
      var n := |ops| - 1;
      assert ops[n].destination != v;
      assert forall k | 0 <= k < n :: ops[..n][k] == ops[k];
      ExecuteKeeps(ar, ops[..n], values, v);
    }
  }

  lemma {:induction false} ExecuteSettles<V>(ar: Arithmetic<V>, ops: seq<ValueOp>, values: seq<V>)
    requires Ordered(ops, |values|)
    ensures Settled(ar, ops, Execute(ar, ops, values))
    ensures forall v | 0 <= v < |values| && !Writes(ops, v) :: Execute(ar, ops, values)[v] == values[v]
    decreases |ops|
  {
    forall v | 0 <= v < |values| && !Writes(ops, v) ensures Execute(ar, ops, values)[v] == values[v] {
      ExecuteKeeps(ar, ops, values, v);
    }
    if ops != [] {
      var rest := ops[..|ops| - 1];
      ExecuteSettles(ar, rest, values);
      var before, after := Execute(ar, rest, values), Execute(ar, ops, values);
      forall k | 0 <= k < |ops|
        ensures after[ops[k].destination] == ops[k].Evaluate(ar, after)
      {
        SettledStep(ar, ops, before, k);
      }
    }
  }

  /** A settled workspace is determined by the slots no operation writes. */
  lemma SettledUnique<V>(ar: Arithmetic<V>, ops: seq<ValueOp>, a: seq<V>, b: seq<V>)
    requires |a| == |b| && Ordered(ops, |a|)
    requires Settled(ar, ops, a) && Settled(ar, ops, b)
    requires forall v | 0 <= v < |a| && !Writes(ops, v) :: a[v] == b[v]
    ensures a == b
  {
    forall v | 0 <= v < |a| ensures a[v] == b[v] {
      SettledAgreesAt(ar, ops, a, b, v);
    }
  }

  lemma {:induction false} SettledAgreesAt<V>(ar: Arithmetic<V>, ops: seq<ValueOp>, a: seq<V>, b: seq<V>, v: nat)
    requires |a| == |b| && Ordered(ops, |a|) && v < |a|
    requires Settled(ar, ops, a) && Settled(ar, ops, b)
    requires forall u | 0 <= u < |a| && !Writes(ops, u) :: a[u] == b[u]
    ensures a[v] == b[v]
    decreases v
  {
    if Writes(ops, v) {
      var k :| 0 <= k < |ops| && ops[k].destination == v;
      match ops[k] {
        case Binary(_, _, lhs, rhs) =>
          SettledAgreesAt(ar, ops, a, b, lhs);
          SettledAgreesAt(ar, ops, a, b, rhs);
        case Negate(_, operand) =>
          SettledAgreesAt(ar, ops, a, b, operand);
      }
    }
  }

  /** One operation of the loop: only its destination changes. */
  method ExecuteOp<V>(ar: Arithmetic<V>, op: ValueOp, values: array<V>)
    requires op.Fits(values.Length)
    modifies values
    ensures values[..] == old(values[..])[op.destination := op.Evaluate(ar, old(values[..]))]
  {
    match op {
      case Binary(kind, destination, lhs, rhs) => values[destination] := ar.binary(kind, values[lhs], values[rhs]);
      case Negate(destination, operand) => values[destination] := ar.negate(values[operand]);
    }
  }

  method ExecuteOps<V>(ar: Arithmetic<V>, ops: seq<ValueOp>, values: array<V>)
    requires AllFit(ops, values.Length)
    modifies values
    ensures values[..] == Execute(ar, ops, old(values[..]))
  {
    assert ops[..0] == [];
    for i := 0 to |ops|
      invariant values[..] == Execute(ar, ops[..i], old(values[..]))
    {
      ExecuteOp(ar, ops[i], values);
      assert ops[..i + 1][..i] == ops[..i];
    }
    assert ops[..|ops|] == ops;
  }

  // ----- What the builder's client wrote down -----

  /** One builder call: a slot's defining expression over older slots. */
  datatype Node<V> =
    | Literal(value: V)
    | Input(rate: Rate)
    | Apply(kind: BinaryKind, lhs: nat, rhs: nat)
    | Opposite(operand: nat)
  {
    predicate IsComputed() { Apply? || Opposite? }

    predicate Fits(slot: nat) {
      match this
      case Literal(_) => true
      case Input(rate) => rate != Constant
      case Apply(_, lhs, rhs) => lhs < slot && rhs < slot
      case Opposite(operand) => operand < slot
    }

    function AsOp(slot: nat): ValueOp
      requires IsComputed()
    {
      match this
      case Apply(kind, lhs, rhs) => Binary(kind, slot, lhs, rhs)
      case Opposite(operand) => Negate(slot, operand)
    }
  }

  ghost predicate WellFormed<V>(dag: seq<Node<V>>) {
    forall i | 0 <= i < |dag| :: dag[i].Fits(i)
  }

  /** The meaning of a slot: its expression evaluated over the input slots of `inputs`. */
  ghost function Denote<V>(ar: Arithmetic<V>, dag: seq<Node<V>>, inputs: seq<V>, i: nat): V
    requires WellFormed(dag) && i < |dag| <= |inputs|
    decreases i
  {
    match dag[i]
    case Literal(value) => value
    case Input(_) => inputs[i]
    case Apply(kind, lhs, rhs) => ar.binary(kind, Denote(ar, dag, inputs, lhs), Denote(ar, dag, inputs, rhs))
    case Opposite(operand) => ar.negate(Denote(ar, dag, inputs, operand))
  }

  /** How often a slot can change: the fastest input its expression mentions. */
  ghost function RateAt<V>(dag: seq<Node<V>>, i: nat): Rate
    requires WellFormed(dag) && i < |dag|
    decreases i
  {
    match dag[i]
    case Literal(_) => Constant
    case Input(rate) => rate
    case Apply(_, lhs, rhs) => RateAt(dag, lhs).Max(RateAt(dag, rhs))
    case Opposite(operand) => RateAt(dag, operand)
  }

  /** A slot whose rate is below `rank` depends only on inputs whose rate is below `rank`. */
  lemma {:induction false} DenoteDependsOnSlowInputs<V>(
      ar: Arithmetic<V>, dag: seq<Node<V>>, a: seq<V>, b: seq<V>, rank: nat, i: nat)
    requires WellFormed(dag) && i < |dag| <= |a| && |dag| <= |b|
    requires forall j | 0 <= j < |dag| && dag[j].Input? && dag[j].rate.Rank() < rank :: a[j] == b[j]
    requires RateAt(dag, i).Rank() < rank
    ensures Denote(ar, dag, a, i) == Denote(ar, dag, b, i)
    decreases i
  {
    match dag[i] {
      case Literal(_) =>
      case Input(_) =>
      case Apply(_, lhs, rhs) =>
        DenoteDependsOnSlowInputs(ar, dag, a, b, rank, lhs);
        DenoteDependsOnSlowInputs(ar, dag, a, b, rank, rhs);
      case Opposite(operand) =>
        DenoteDependsOnSlowInputs(ar, dag, a, b, rank, operand);
    }
  }

  lemma {:induction false} ExtendingKeepsMeaning<V>(
      ar: Arithmetic<V>, dag: seq<Node<V>>, node: Node<V>, inputs: seq<V>, i: nat)
    requires WellFormed(dag) && WellFormed(dag + [node]) && i < |dag| < |inputs|
    ensures RateAt(dag + [node], i) == RateAt(dag, i)
    ensures Denote(ar, dag + [node], inputs, i) == Denote(ar, dag, inputs, i)
    decreases i
  {
    assert (dag + [node])[i] == dag[i];
    match dag[i] {
      case Literal(_) =>
      case Input(_) =>
      case Apply(_, lhs, rhs) =>
        ExtendingKeepsMeaning(ar, dag, node, inputs, lhs);
        ExtendingKeepsMeaning(ar, dag, node, inputs, rhs);
      case Opposite(operand) =>
        ExtendingKeepsMeaning(ar, dag, node, inputs, operand);
    }
  }

  // ----- The compiled program -----

  datatype ValueProgram<V> = ValueProgram(
    initialValues: seq<V>,
    staticOps: seq<ValueOp>,
    tickOps: seq<ValueOp>,
    iterationOps: seq<ValueOp>)

  ghost predicate IsEntry<V>(dag: seq<Node<V>>, rate: Rate, op: ValueOp)
    requires WellFormed(dag)
  {
    var slot := op.destination;
    slot < |dag| && dag[slot].IsComputed() && RateAt(dag, slot) == rate && op == dag[slot].AsOp(slot)
  }

  /** `ops` are exactly the computed slots of one rate, in builder order. */
  ghost predicate IsBucket<V>(dag: seq<Node<V>>, rate: Rate, ops: seq<ValueOp>)
    requires WellFormed(dag)
  {
    && Ordered(ops, |dag|)
    && (forall k | 0 <= k < |ops| :: IsEntry(dag, rate, ops[k]))
    && (forall i | 0 <= i < |dag| && dag[i].IsComputed() && RateAt(dag, i) == rate :: Writes(ops, i))
  }

  /** `program` is what the builder makes of `dag`: folded constants, and one bucket per rate. */
  ghost predicate Compiles<V>(ar: Arithmetic<V>, dag: seq<Node<V>>, program: ValueProgram<V>) {
    && WellFormed(dag)
    && |program.initialValues| == |dag|
    && (forall i | 0 <= i < |dag| && RateAt(dag, i) == Constant ::
          program.initialValues[i] == Denote(ar, dag, program.initialValues, i))
    && IsBucket(dag, Static, program.staticOps)
    && IsBucket(dag, Tick, program.tickOps)
    && IsBucket(dag, Iteration, program.iterationOps)
  }

  /** Slots below the given rate hold their meaning with respect to the inputs of `inputs`. */
  ghost predicate MeansBelow<V>(ar: Arithmetic<V>, dag: seq<Node<V>>, inputs: seq<V>, values: seq<V>, rank: nat)
    requires WellFormed(dag) && |values| == |inputs| == |dag|
  {
    forall i | 0 <= i < |dag| && RateAt(dag, i).Rank() < rank :: values[i] == Denote(ar, dag, inputs, i)
  }

  /** Running one stage extends the meaningful slots by exactly that stage's rate. */
  lemma StageDenotes<V>(
      ar: Arithmetic<V>, dag: seq<Node<V>>, rate: Rate, ops: seq<ValueOp>, inputs: seq<V>, values: seq<V>)
    requires WellFormed(dag) && |values| == |inputs| == |dag|
    requires rate != Constant && IsBucket(dag, rate, ops)
    requires MeansBelow(ar, dag, inputs, values, rate.Rank())
    requires forall i | 0 <= i < |dag| && dag[i].Input? :: values[i] == inputs[i]
    ensures MeansBelow(ar, dag, inputs, Execute(ar, ops, values), rate.Rank() + 1)
    ensures forall i | 0 <= i < |dag| && dag[i].Input? :: Execute(ar, ops, values)[i] == inputs[i]
  {
    ExecuteSettles(ar, ops, values);
    forall i | 0 <= i < |dag| && RateAt(dag, i).Rank() < rate.Rank() + 1
      ensures Execute(ar, ops, values)[i] == Denote(ar, dag, inputs, i)
    {
      StageDenotesAt(ar, dag, rate, ops, inputs, values, i);
    }
  }

  lemma {:induction false} StageDenotesAt<V>(
      ar: Arithmetic<V>, dag: seq<Node<V>>, rate: Rate, ops: seq<ValueOp>, inputs: seq<V>, values: seq<V>, i: nat)
    requires WellFormed(dag) && |values| == |inputs| == |dag| && i < |dag|
    requires rate != Constant && IsBucket(dag, rate, ops)
    requires MeansBelow(ar, dag, inputs, values, rate.Rank())
    requires forall j | 0 <= j < |dag| && dag[j].Input? :: values[j] == inputs[j]
    requires RateAt(dag, i).Rank() <= rate.Rank()
    ensures Execute(ar, ops, values)[i] == Denote(ar, dag, inputs, i)
    decreases i
  {
    ExecuteSettles(ar, ops, values);
    if dag[i].IsComputed() && RateAt(dag, i) == rate {
      var k :| 0 <= k < |ops| && ops[k].destination == i;
      match dag[i] {
        case Apply(_, lhs, rhs) =>
          StageDenotesAt(ar, dag, rate, ops, inputs, values, lhs);
          StageDenotesAt(ar, dag, rate, ops, inputs, values, rhs);
        case Opposite(operand) =>
          StageDenotesAt(ar, dag, rate, ops, inputs, values, operand);
      }
    }
  }

  /** Run the stages from `from` onwards, in the fixed order static, tick, iteration. */
  ghost function RunFrom<V>(ar: Arithmetic<V>, program: ValueProgram<V>, from: Rate, values: seq<V>): seq<V>
    requires AllFit(program.staticOps, |values|) && AllFit(program.tickOps, |values|)
      && AllFit(program.iterationOps, |values|)
  {
    var s := if from.Rank() <= Static.Rank() then Execute(ar, program.staticOps, values) else values;
    var t := if from.Rank() <= Tick.Rank() then Execute(ar, program.tickOps, s) else s;
    Execute(ar, program.iterationOps, t)
  }

  /** Staging preserves meaning: from a workspace whose slower slots are right, running the
      remaining stages makes every slot equal its source expression. With `from` Static this is
      the first full evaluation, where only folded constants need to be right. */
  lemma StagingPreservesMeaning<V>(
      ar: Arithmetic<V>, dag: seq<Node<V>>, program: ValueProgram<V>, from: Rate, values: seq<V>)
    requires Compiles(ar, dag, program) && |values| == |dag| && from != Constant
    requires MeansBelow(ar, dag, values, values, from.Rank())
    ensures forall i | 0 <= i < |dag| :: RunFrom(ar, program, from, values)[i] == Denote(ar, dag, values, i)
  {
    var s := values;
    if from.Rank() <= Static.Rank() {
      StageDenotes(ar, dag, Static, program.staticOps, values, s);
      s := Execute(ar, program.staticOps, s);
    }
    if from.Rank() <= Tick.Rank() {
      StageDenotes(ar, dag, Tick, program.tickOps, values, s);
      s := Execute(ar, program.tickOps, s);
    }
    StageDenotes(ar, dag, Iteration, program.iterationOps, values, s);
  }

  /** After inputs of rate `from` or faster change in a fully evaluated workspace, re-running the
      stages from `from` onwards restores every slot's meaning. */
  lemma RerunAfterInputChange<V>(
      ar: Arithmetic<V>, dag: seq<Node<V>>, program: ValueProgram<V>, from: Rate, evaluated: seq<V>, changed: seq<V>)
    requires Compiles(ar, dag, program) && |evaluated| == |changed| == |dag| && from != Constant
    requires forall i | 0 <= i < |dag| :: evaluated[i] == Denote(ar, dag, evaluated, i)
    requires forall i | 0 <= i < |dag| && !(dag[i].Input? && from.Rank() <= dag[i].rate.Rank()) ::
      changed[i] == evaluated[i]
    ensures forall i | 0 <= i < |dag| :: RunFrom(ar, program, from, changed)[i] == Denote(ar, dag, changed, i)
  {
    forall i | 0 <= i < |dag| && RateAt(dag, i).Rank() < from.Rank()
      ensures changed[i] == Denote(ar, dag, changed, i)
    {
      DenoteDependsOnSlowInputs(ar, dag, evaluated, changed, from.Rank(), i);
    }
    StagingPreservesMeaning(ar, dag, program, from, changed);
  }

  /** A new workspace with any inputs set is ready for the static stage. */
  lemma FreshWorkspaceIsReady<V>(ar: Arithmetic<V>, dag: seq<Node<V>>, program: ValueProgram<V>, values: seq<V>)
    requires Compiles(ar, dag, program) && |values| == |dag|
    requires forall i | 0 <= i < |dag| && !dag[i].Input? :: values[i] == program.initialValues[i]
    ensures forall i | 0 <= i < |dag| :: RunFrom(ar, program, Static, values)[i] == Denote(ar, dag, values, i)
  {
    forall i | 0 <= i < |dag| && RateAt(dag, i) == Constant
      ensures values[i] == Denote(ar, dag, values, i)
    {
      DenoteDependsOnSlowInputs(ar, dag, program.initialValues, values, Static.Rank(), i);
    }
    StagingPreservesMeaning(ar, dag, program, Static, values);
  }

  // ----- The builder -----

  /** What a bucket becomes when `node` is appended. */
  ghost function Grown<V>(dag: seq<Node<V>>, node: Node<V>, rate: Rate, ops: seq<ValueOp>): seq<ValueOp>
    requires WellFormed(dag + [node])
  {
    if node.IsComputed() && RateAt(dag + [node], |dag|) == rate then ops + [node.AsOp(|dag|)] else ops
  }

  lemma ExtendBucket<V>(ar: Arithmetic<V>, dag: seq<Node<V>>, node: Node<V>, rate: Rate, ops: seq<ValueOp>)
    requires WellFormed(dag) && WellFormed(dag + [node]) && IsBucket(dag, rate, ops)
    ensures IsBucket(dag + [node], rate, Grown(dag, node, rate, ops))
  {
    var longer, grown := dag + [node], Grown(dag, node, rate, ops);
    forall k | 0 <= k < |grown|
      ensures grown[k].Fits(|longer|) && IsEntry(longer, rate, grown[k])
      ensures k < |ops| ==> grown[k] == ops[k] && grown[k].destination < |dag|
    {
      if k < |ops| {
        assert ops[k].Fits(|dag|) && IsEntry(dag, rate, ops[k]);
        ExtendingKeepsMeaning(ar, dag, node, seq(|longer|, _ => ar.zero), ops[k].destination);
      } else {
        assert longer[|dag|] == node && longer[|dag|].Fits(|dag|);
      }
    }
    forall i | 0 <= i < |longer| && longer[i].IsComputed() && RateAt(longer, i) == rate
      ensures Writes(grown, i)
    {
      if i < |dag| {
        ExtendingKeepsMeaning(ar, dag, node, seq(|longer|, _ => ar.zero), i);
        assert dag[i].IsComputed() && Writes(ops, i);
        var k :| 0 <= k < |ops| && ops[k].destination == i;
        assert grown[k].destination == i;
      } else {
        assert grown[|ops|].destination == i;
      }
    }
  }

  lemma ExtendBuckets<V>(ar: Arithmetic<V>, dag: seq<Node<V>>, node: Node<V>, program: ValueProgram<V>)
    requires WellFormed(dag) && WellFormed(dag + [node]) && |program.initialValues| == |dag| + 1
    requires IsBucket(dag, Static, program.staticOps)
    requires IsBucket(dag, Tick, program.tickOps)
    requires IsBucket(dag, Iteration, program.iterationOps)
    requires forall i | 0 <= i <= |dag| && RateAt(dag + [node], i) == Constant ::
               program.initialValues[i] == Denote(ar, dag + [node], program.initialValues, i)
    ensures Compiles(ar, dag + [node],
              ValueProgram(program.initialValues,
                           Grown(dag, node, Static, program.staticOps),
                           Grown(dag, node, Tick, program.tickOps),
                           Grown(dag, node, Iteration, program.iterationOps)))
  {
    ExtendBucket(ar, dag, node, Static, program.staticOps);
    ExtendBucket(ar, dag, node, Tick, program.tickOps);
    ExtendBucket(ar, dag, node, Iteration, program.iterationOps);
  }

  lemma ExtendProgram<V>(ar: Arithmetic<V>, dag: seq<Node<V>>, node: Node<V>, program: ValueProgram<V>, initialValue: V)
    requires Compiles(ar, dag, program) && WellFormed(dag + [node])
    requires RateAt(dag + [node], |dag|) == Constant ==>
               initialValue == Denote(ar, dag + [node], program.initialValues + [initialValue], |dag|)
    ensures forall i | 0 <= i < |dag + [node]| && RateAt(dag + [node], i) == Constant ::
              (program.initialValues + [initialValue])[i] ==
                Denote(ar, dag + [node], program.initialValues + [initialValue], i)
    ensures !node.IsComputed() || RateAt(dag + [node], |dag|) == Constant ==>
              Compiles(ar, dag + [node], program.(initialValues := program.initialValues + [initialValue]))
  {
    var values := program.initialValues + [initialValue];
    forall i | 0 <= i < |dag| && RateAt(dag + [node], i) == Constant
      ensures values[i] == Denote(ar, dag + [node], values, i)
    {
      ExtendingKeepsMeaning(ar, dag, node, values, i);
      DenoteDependsOnSlowInputs(ar, dag, program.initialValues, values, Static.Rank(), i);
    }
    ExtendBuckets(ar, dag, node, program.(initialValues := values));
  }

  datatype SlotInfo<V> = SlotInfo(rate: Rate, constant: Option<V>)

  datatype BuildError = SlotExhausted | UnknownValue(slot: nat)

  class ValueProgramBuilder<V> {
    const ar: Arithmetic<V>
    var slots: seq<SlotInfo<V>>
    var initialValues: seq<V>
    var staticOps: seq<ValueOp>
    var tickOps: seq<ValueOp>
    var iterationOps: seq<ValueOp>
    ghost var dag: seq<Node<V>>

    ghost function Program(): ValueProgram<V>
      reads this
    {
      ValueProgram(initialValues, staticOps, tickOps, iterationOps)
    }

    ghost predicate Valid()
      reads this
    {
      && Compiles(ar, dag, Program())
      && |slots| == |dag| <= U32_LIMIT
      && (forall i | 0 <= i < |dag| :: SlotIsRight(dag, slots[i], initialValues, i))
    }

    constructor (ar: Arithmetic<V>)
      ensures Valid() && dag == [] && this.ar == ar
    {
      this.ar := ar;
      slots, initialValues := [], [];
      staticOps, tickOps, iterationOps := [], [], [];
      dag := [];
    }

    /** A builder call with known operands appends its node and returns the node's slot, unless
        the slot range is exhausted; a failed call changes nothing. */
    twostate predicate Appended(new result: Result<nat, BuildError>, node: Node<V>)
      reads this
    {
      if |old(dag)| == U32_LIMIT then
        result == Err(SlotExhausted) && Program() == old(Program()) && dag == old(dag)
      else
        result == Ok(|old(dag)|) && dag == old(dag) + [node]
    }

    method Constant(value: V) returns (result: Result<nat, BuildError>)
      requires Valid()
      modifies this
      ensures Valid() && Appended(result, Literal(value))
    {
      result := Allocate(SlotInfo(Rate.Constant, Some(value)), value, Literal(value));
    }

    /** `static_input`, `tick_input` and `iteration_input`. */
    method NewInput(rate: Rate) returns (result: Result<nat, BuildError>)
      requires Valid() && rate != Rate.Constant
      modifies this
      ensures Valid() && Appended(result, Input(rate))
    {
      result := Allocate(SlotInfo(rate, None), ar.zero, Input(rate));
    }

    method Binary(kind: BinaryKind, lhs: nat, rhs: nat) returns (result: Result<nat, BuildError>)
      requires Valid()
      modifies this
      ensures Valid()
      ensures lhs >= |old(dag)| ==> result == Err(UnknownValue(lhs)) && unchanged(this)
      ensures lhs < |old(dag)| <= rhs ==> result == Err(UnknownValue(rhs)) && unchanged(this)
      ensures lhs < |old(dag)| && rhs < |old(dag)| ==> Appended(result, Apply(kind, lhs, rhs))
    {
      if lhs >= |slots| { return Err(UnknownValue(lhs)); }
      if rhs >= |slots| { return Err(UnknownValue(rhs)); }
      var lhsInfo, rhsInfo := slots[lhs], slots[rhs];
      ghost var node := Apply(kind, lhs, rhs);
      if lhsInfo.constant.Some? && rhsInfo.constant.Some? {
        var value := ar.binary(kind, lhsInfo.constant.value, rhsInfo.constant.value);
        OperandKeepsMeaning(lhs, node, value);
        OperandKeepsMeaning(rhs, node, value);
        result := Allocate(SlotInfo(Rate.Constant, Some(value)), value, node);
      } else {
        var rate := lhsInfo.rate.Max(rhsInfo.rate);
        OperandKeepsMeaning(lhs, node, ar.zero);
        OperandKeepsMeaning(rhs, node, ar.zero);
        result := Allocate(SlotInfo(rate, None), ar.zero, node);
        if result.Ok? {
          PushOp(old(dag), node, rate, ValueOp.Binary(kind, result.value, lhs, rhs));
        }
      }
    }

    method Negate(operand: nat) returns (result: Result<nat, BuildError>)
      requires Valid()
      modifies this
      ensures Valid()
      ensures operand >= |old(dag)| ==> result == Err(UnknownValue(operand)) && unchanged(this)
      ensures operand < |old(dag)| ==> Appended(result, Opposite(operand))
    {
      if operand >= |slots| { return Err(UnknownValue(operand)); }
      var info := slots[operand];
      if info.constant.Some? {
        var value := ar.negate(info.constant.value);
        OperandKeepsMeaning(operand, Opposite(operand), value);
        result := Allocate(SlotInfo(Rate.Constant, Some(value)), value, Opposite(operand));
      } else {
        OperandKeepsMeaning(operand, Opposite(operand), ar.zero);
        result := Allocate(SlotInfo(info.rate, None), ar.zero, Opposite(operand));
        if result.Ok? {
          PushOp(old(dag), Opposite(operand), info.rate, ValueOp.Negate(result.value, operand));
        }
      }
    }

    lemma OperandKeepsMeaning(slot: nat, node: Node<V>, x: V)
      requires Valid() && slot < |dag| && WellFormed(dag + [node])
      ensures (dag + [node])[|dag|] == node
      ensures RateAt(dag + [node], slot) == slots[slot].rate
      ensures slots[slot].constant.Some? ==>
                Denote(ar, dag + [node], initialValues + [x], slot) == slots[slot].constant.value
    {
      ExtendingKeepsMeaning(ar, dag, node, initialValues + [x], slot);
      if slots[slot].constant.Some? {
        DenoteDependsOnSlowInputs(ar, dag, initialValues, initialValues + [x], Static.Rank(), slot);
      }
    }

    method Finish() returns (program: ValueProgram<V>)
      requires Valid()
      ensures Compiles(ar, dag, program)
    {
      program := ValueProgram(initialValues, staticOps, tickOps, iterationOps);
    }

    /** `node` has its slot but, if its rate is not constant, not yet its operation. */
    ghost predicate Awaiting(older: seq<Node<V>>, node: Node<V>)
      reads this
    {
      && dag == older + [node] && node.IsComputed()
      && WellFormed(older) && WellFormed(dag)
      && |initialValues| == |dag| == |slots| <= U32_LIMIT
      && (forall i | 0 <= i < |dag| :: SlotIsRight(dag, slots[i], initialValues, i))
      && IsBucket(older, Static, staticOps)
      && IsBucket(older, Tick, tickOps)
      && IsBucket(older, Iteration, iterationOps)
    }

    ghost predicate SlotIsRight(dag: seq<Node<V>>, slot: SlotInfo<V>, values: seq<V>, i: nat)
      requires WellFormed(dag) && i < |dag| == |values|
    {
      && slot.rate == RateAt(dag, i)
      && (slot.constant.Some? <==> slot.rate == Rate.Constant)
      && (slot.constant.Some? ==> slot.constant.value == values[i] == Denote(ar, dag, values, i))
    }

    method Allocate(info: SlotInfo<V>, initialValue: V, ghost node: Node<V>) returns (result: Result<nat, BuildError>)
      requires Valid() && WellFormed(dag + [node])
      requires info.rate == RateAt(dag + [node], |dag|)
      requires info.constant.Some? <==> info.rate == Rate.Constant
      requires info.constant.Some? ==>
                 info.constant.value == initialValue == Denote(ar, dag + [node], initialValues + [initialValue], |dag|)
      modifies this
      ensures Appended(result, node)
      ensures result.Err? || !node.IsComputed() || info.rate == Rate.Constant ==> Valid()
      ensures result.Ok? && node.IsComputed() ==> Awaiting(old(dag), node)
    {
      if |slots| >= U32_LIMIT {
        return Err(SlotExhausted);
      }
      ExtendProgram(ar, dag, node, Program(), initialValue);
      forall i | 0 <= i < |dag|
        ensures SlotIsRight(dag + [node], slots[i], initialValues + [initialValue], i)
      {
        assert SlotIsRight(dag, slots[i], initialValues, i);
        OperandKeepsMeaning(i, node, initialValue);
      }
      result := Ok(|slots|);
      slots := slots + [info];
      initialValues := initialValues + [initialValue];
      dag := dag + [node];
    }

    method PushOp(ghost older: seq<Node<V>>, ghost node: Node<V>, rate: Rate, op: ValueOp)
      requires Awaiting(older, node)
      requires rate == RateAt(dag, |older|) && rate != Rate.Constant && op == node.AsOp(|older|)
      modifies this`staticOps, this`tickOps, this`iterationOps
      ensures Valid()
    {
      forall i | 0 <= i <= |older| && RateAt(dag, i) == Rate.Constant
        ensures initialValues[i] == Denote(ar, dag, initialValues, i)
      {
        assert SlotIsRight(dag, slots[i], initialValues, i);
      }
      ExtendBuckets(ar, older, node, Program());
      match rate {
        case Constant => assert false;
        case Static => staticOps := staticOps + [op];
        case Tick => tickOps := tickOps + [op];
        case Iteration => iterationOps := iterationOps + [op];
      }
    }
  }
}
