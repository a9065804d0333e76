// The discrete closure (hynergy-engine/src/runtime/discrete.rs): starting from the drivers that a
// solve may have unbalanced, predict driver outputs round by round until none of them moves.
// A settled closure is proved to leave every driver balanced, although only frontier drivers are
// ever looked at.
module DiscreteClosure {
  import opened Support
  import opened ValueIr
  import opened Incremental
  import opened DiscreteGraph

  const MAX_ROUNDS: nat := 128

  datatype Outcome = Settled | Barrier | BudgetExceeded | InvalidPrediction

  /** Machine numbers: arithmetic, the numeric `==` (not bit equality) and `is_finite`. */
  datatype Numbers<!V> = Numbers(ar: Arithmetic<V>, equal: (V, V) -> bool, finite: V -> bool)

  datatype MatrixBarrier = MatrixBarrier(source: nat, factorizedIndex: nat)

  datatype DiscretePlan = DiscretePlan(
    drivers: seq<Driver>,
    outputInputs: seq<Option<nat>>,
    iterationDependencies: IterationDependencyPlan,
    offsets: seq<nat>,
    dependents: seq<nat>,
    stabilityOffsets: seq<nat>,
    stabilityDependents: seq<nat>,
    conservative: seq<nat>,
    matrixBarriers: seq<MatrixBarrier>,
    rhsBarriers: seq<nat>)
  {
    function DependentsFor(producer: nat): seq<nat>
      requires producer + 1 < |offsets| && offsets[producer] <= offsets[producer + 1] <= |dependents|
    {
      dependents[offsets[producer]..offsets[producer + 1]]
    }

    function StabilityDependentsFor(index: nat): seq<nat>
      requires index + 1 < |stabilityOffsets|
        && stabilityOffsets[index] <= stabilityOffsets[index + 1] <= |stabilityDependents|
    {
      stabilityDependents[stabilityOffsets[index]..stabilityOffsets[index + 1]]
    }
  }

  /** `driver_output_inputs`: the input slot through which the program reads a driver's output. */
  ghost predicate FindsOutputInput<V>(ir: IslandIr<V>, driver: Driver, input: Option<nat>) {
    && (input.Some? ==> (driver.output, input.value) in ir.solutionInputs)
    && (input.None? ==> forall i | 0 <= i < |ir.solutionInputs| :: ir.solutionInputs[i].0 != driver.output)
  }

  ghost predicate UnknownsFit<V>(ir: IslandIr<V>, drivers: seq<Driver>, unknownCount: nat) {
    && (forall i | 0 <= i < |ir.solutionInputs| :: ir.solutionInputs[i].0 < unknownCount)
    && (forall d | 0 <= d < |drivers| :: RailsFit(drivers[d], unknownCount))
  }

  ghost predicate RailsFit(driver: Driver, unknownCount: nat) {
    && driver.output < unknownCount
    && (driver.highRail.Some? ==> driver.highRail.value < unknownCount && driver.highRail.value != driver.output)
    && (driver.lowRail.Some? ==> driver.lowRail.value < unknownCount && driver.lowRail.value != driver.output)
  }

  /** What `compile_discrete_plan` produces for the island. */
  ghost predicate IsPlan<V>(ir: IslandIr<V>, plan: DiscretePlan, unknownCount: nat) {
    && ir.WellFormed() && DriversFit(plan.drivers, ir.SlotCount()) && UnknownsFit(ir, plan.drivers, unknownCount)
    && IsDriverTable(ir, plan.drivers, plan.offsets, plan.dependents)
    && IsFrontierTable(ir, plan.drivers, plan.stabilityOffsets, plan.stabilityDependents, plan.conservative)
    && IsPlanFor(plan.iterationDependencies, ir.program.iterationOps, ir.SlotCount())
    && |plan.outputInputs| == |plan.drivers|
    && (forall d | 0 <= d < |plan.drivers| :: FindsOutputInput(ir, plan.drivers[d], plan.outputInputs[d]))
    && (forall k | 0 <= k < |plan.matrixBarriers| :: plan.matrixBarriers[k].source < ir.SlotCount())
    && (forall k | 0 <= k < |plan.rhsBarriers| :: plan.rhsBarriers[k] < ir.SlotCount())
  }

  // ----- Predictions -----

  /** `unknown_voltage`: the ground rail is at zero. */
  function Voltage<V>(num: Numbers<V>, predicted: seq<V>, unknown: Option<nat>): V
    requires unknown.Some? ==> unknown.value < |predicted|
  {
    if unknown.Some? then predicted[unknown.value] else num.ar.zero
  }

  /** The output voltage at which the two pulls cancel, or None when it is not a finite number. */
  function Blend<V>(num: Numbers<V>, pullUp: V, pullDown: V, high: V, low: V): Option<V> {
    var denominator := num.ar.binary(Add, pullUp, pullDown);
    if !num.finite(pullUp) || !num.finite(pullDown) || !num.finite(high) || !num.finite(low)
       || !num.finite(denominator) || num.equal(denominator, num.ar.zero) then None
    else
      var output :=
        num.ar.binary(Div, num.ar.binary(Add, num.ar.binary(Mul, pullUp, high), num.ar.binary(Mul, pullDown, low)),
        denominator);
      if num.finite(output) then Some(output) else None
  }

  function Predict<V>(num: Numbers<V>, driver: Driver, values: seq<V>, predicted: seq<V>): Option<V>
    requires driver.pullUp < |values| && driver.pullDown < |values| && RailsFit(driver, |predicted|)
  {
    Blend(num, values[driver.pullUp], values[driver.pullDown],
          Voltage(num, predicted, driver.highRail), Voltage(num, predicted, driver.lowRail))
  }

  /** Numbers are identified by `like`, coarsely enough for numeric equality and finely enough for
      every operation that the closure and the program perform. */
  ghost predicate Admissible<V(!new)>(num: Numbers<V>, like: (V, V) -> bool, ops: seq<ValueOp>) {
    && Respects(num.ar, like, ops)
    && (forall x, y | like(x, y) :: like(y, x))
    && (forall x, y, z | like(x, y) && like(y, z) :: like(x, z))
    && (forall x, y | num.equal(x, y) :: like(x, y))
    && (forall x, y | like(x, y) ::
      num.finite(x) == num.finite(y) && num.equal(x, num.ar.zero) == num.equal(y, num.ar.zero))
    && BinaryRespects(num.ar, like, Add) && BinaryRespects(num.ar, like, Mul) && DivisionRespects(num, like)
  }

  /** Division need only be respected where the closure divides: by a denominator that is not zero. */
  ghost predicate DivisionRespects<V(!new)>(num: Numbers<V>, like: (V, V) -> bool) {
    forall w, x, y, z | like(w, x) && like(y, z) && !num.equal(y, num.ar.zero) ::
      like(num.ar.binary(Div, w, y), num.ar.binary(Div, x, z))
  }

  ghost predicate LikeOptions<V>(like: (V, V) -> bool, a: Option<V>, b: Option<V>) {
    a.Some? == b.Some? && (a.Some? ==> like(a.value, b.value))
  }

  lemma BlendRespects<V(!new)>(num: Numbers<V>, like: (V, V) -> bool, ops: seq<ValueOp>,
                               a: (V, V, V, V), b: (V, V, V, V))
    requires Admissible(num, like, ops)
    requires like(a.0, b.0) && like(a.1, b.1) && like(a.2, b.2) && like(a.3, b.3)
    ensures LikeOptions(like, Blend(num, a.0, a.1, a.2, a.3), Blend(num, b.0, b.1, b.2, b.3))
  {
    var x, y := num.ar.binary(Add, a.0, a.1), num.ar.binary(Add, b.0, b.1);
    assert like(x, y);
    var u, v := num.ar.binary(Mul, a.0, a.2), num.ar.binary(Mul, b.0, b.2);
    var s, t := num.ar.binary(Mul, a.1, a.3), num.ar.binary(Mul, b.1, b.3);
    assert like(u, v) && like(s, t);
    assert like(num.ar.binary(Add, u, s), num.ar.binary(Add, v, t));
  }

  /** The driver's predicted output is, up to likeness, the one its pulls and rails call for. */
  ghost predicate Balanced<V>(
      num: Numbers<V>, like: (V, V) -> bool, driver: Driver, values: seq<V>, predicted: seq<V>)
  {
    && driver.pullUp < |values| && driver.pullDown < |values| && RailsFit(driver, |predicted|)
    && var output := Predict(num, driver, values, predicted);
       output.Some? && like(output.value, predicted[driver.output])
  }

  /** Balance only depends on the pulls, the rails and the output, up to likeness. */
  lemma BalanceIsKept<V(!new)>(num: Numbers<V>, like: (V, V) -> bool, ops: seq<ValueOp>, driver: Driver,
                               a: seq<V>, p: seq<V>, b: seq<V>, q: seq<V>)
    requires Admissible(num, like, ops) && RailsFit(driver, |p|) && |p| == |q| && LikePulls(like, driver, a, b)
    requires driver.highRail.Some? ==> LikeAt(like, p, q, driver.highRail.value)
    requires driver.lowRail.Some? ==> LikeAt(like, p, q, driver.lowRail.value)
    ensures LikeOptions(like, Predict(num, driver, a, p), Predict(num, driver, b, q))
    ensures Balanced(num, like, driver, a, p) && LikeAt(like, p, q, driver.output) ==> Balanced(num, like, driver, b, q)
  {
    BlendRespects(num, like, ops,
      (a[driver.pullUp], a[driver.pullDown], Voltage(num, p, driver.highRail), Voltage(num, p, driver.lowRail)),
      (b[driver.pullUp], b[driver.pullDown], Voltage(num, q, driver.highRail), Voltage(num, q, driver.lowRail)));
    if Balanced(num, like, driver, a, p) && LikeAt(like, p, q, driver.output) {
      var x, y := Predict(num, driver, a, p).value, Predict(num, driver, b, q).value;
      assert like(y, x) && like(x, p[driver.output]) && like(y, p[driver.output]);
    }
  }

  /** Every solution input holds the predicted value of its unknown. */
  ghost predicate Reflects<V>(ir: IslandIr<V>, values: seq<V>, predicted: seq<V>) {
    forall i | 0 <= i < |ir.solutionInputs| :: Mirrors(ir.solutionInputs[i], values, predicted)
  }

  ghost predicate Mirrors<V>(input: (nat, nat), values: seq<V>, predicted: seq<V>) {
    input.0 < |predicted| && input.1 < |values| && values[input.1] == predicted[input.0]
  }

  ghost predicate BalancedOutside<V>(num: Numbers<V>, like: (V, V) -> bool, drivers: seq<Driver>, frontier: set<nat>,
                                     values: seq<V>, predicted: seq<V>)
  {
    forall d | 0 <= d < |drivers| && d !in frontier :: Balanced(num, like, drivers[d], values, predicted)
  }

  // ----- The initial frontier -----

  /** The stability values that numerically differ from the expected ones. */
  ghost predicate Moved<V>(num: Numbers<V>, ir: IslandIr<V>, values: seq<V>, expected: seq<V>, i: nat) {
    i < |ir.stabilityValues| && i < |expected| && ir.stabilityValues[i] < |values|
    && !num.equal(values[ir.stabilityValues[i]], expected[i])
  }

  ghost predicate Holds<V>(values: seq<V>, slot: nat, x: V) {
    slot < |values| && values[slot] == x
  }

  /** `d` is seeded because of one of the first `bound` stability values: either it watches a moved
      one, or some value moved and `d` is conservative. */
  ghost predicate Seeded<V>(
      num: Numbers<V>, ir: IslandIr<V>, plan: DiscretePlan, values: seq<V>, expected: seq<V>, bound: nat, d: nat)
  {
    || (AnyStabilityMoved(num, ir, values, expected, bound) && d in plan.conservative)
    || exists i: nat ::
      i < bound && Moved(num, ir, values, expected, i) && InRow(plan.stabilityOffsets, plan.stabilityDependents, i, d)
  }

  ghost predicate AnyStabilityMoved<V>(num: Numbers<V>, ir: IslandIr<V>, values: seq<V>, expected: seq<V>, bound: nat) {
    exists i: nat :: i < bound && Moved(num, ir, values, expected, i)
  }

  /** A solve balances every driver against the workspace `a` it was assembled from. After the
      program is evaluated on the new solution, giving `b`, every driver outside the prepared
      frontier is still balanced. If no stability value moved, the frontier is empty and this holds
      of the drivers that are not conservative. */
  lemma PreparedFrontierIsSound<V(!new)>(
      num: Numbers<V>, like: (V, V) -> bool, ir: IslandIr<V>, plan: DiscretePlan,
      a: seq<V>, b: seq<V>, expected: seq<V>, solution: seq<V>, d: nat)
    requires IsPlan(ir, plan, |solution|) && Admissible(num, like, ir.program.iterationOps) && d < |plan.drivers|
    requires SameTick(num.ar, ir, a, b) && |expected| == |ir.stabilityValues|
    requires forall i | 0 <= i < |expected| :: Holds(a, ir.stabilityValues[i], expected[i])
    requires Balanced(num, like, plan.drivers[d], a, solution)
    requires !Seeded(num, ir, plan, b, expected, |expected|, d)
    requires AnyStabilityMoved(num, ir, b, expected, |expected|) || d !in plan.conservative
    ensures Balanced(num, like, plan.drivers[d], b, solution)
  {
    forall i: nat | i < |ir.stabilityValues| && InRow(plan.stabilityOffsets, plan.stabilityDependents, i, d)
      ensures LikeAt(like, a, b, ir.stabilityValues[i])
    {
      assert ir.stabilityValues[i] in ir.stabilityValues && Holds(a, ir.stabilityValues[i], expected[i]);
      assert !Moved(num, ir, b, expected, i);
    }
    FrontierNonInterference(num.ar, like, ir, plan.drivers, plan.stabilityOffsets, plan.stabilityDependents,
      plan.conservative, a, b, d);
    BalanceIsKept(num, like, ir.program.iterationOps, plan.drivers[d], a, solution, b, solution);
  }

  // ----- One round -----

  /** `p` is in the frontier and its prediction numerically differs from its current output. */
  ghost predicate Moves<V>(
      num: Numbers<V>, drivers: seq<Driver>, frontier: set<nat>, before: seq<V>, after: seq<V>, p: nat)
  {
    && p in frontier && p < |drivers| && drivers[p].output < |before| && drivers[p].output < |after|
    && !num.equal(before[drivers[p].output], after[drivers[p].output])
  }

  /** `after` is `before` with the outputs of the frontier replaced by their predictions. */
  ghost predicate Advances<V>(
      num: Numbers<V>, drivers: seq<Driver>, frontier: set<nat>, values: seq<V>, before: seq<V>, after: seq<V>)
  {
    && |after| == |before|
    && (forall d | d in frontier :: d < |drivers| && Takes(num, drivers[d], values, before, after))
    && (forall u | 0 <= u < |before| && !IsOutput(drivers, frontier, u) :: after[u] == before[u])
  }

  ghost predicate Takes<V>(num: Numbers<V>, driver: Driver, values: seq<V>, before: seq<V>, after: seq<V>) {
    && driver.pullUp < |values| && driver.pullDown < |values| && RailsFit(driver, |before|) && |after| == |before|
    && Predict(num, driver, values, before) == Some(after[driver.output])
  }

  ghost predicate IsOutput(drivers: seq<Driver>, frontier: set<nat>, u: nat) {
    exists d :: d in frontier && d < |drivers| && drivers[d].output == u
  }

  /** The drivers listed as dependents of a moved driver. */
  ghost predicate Triggered<V>(
      num: Numbers<V>, plan: DiscretePlan, frontier: set<nat>, before: seq<V>, after: seq<V>, d: nat)
  {
    exists p: nat :: Moves(num, plan.drivers, frontier, before, after, p) && InRow(plan.offsets, plan.dependents, p, d)
  }

  ghost predicate IsMovedOutput<V>(
      num: Numbers<V>, drivers: seq<Driver>, frontier: set<nat>, before: seq<V>, after: seq<V>, u: nat)
  {
    exists p: nat :: Moves(num, drivers, frontier, before, after, p) && drivers[p].output == u
  }

  /** An unknown that is not the output of a moved driver keeps its value up to likeness. */
  lemma UnmovedIsAlike<V(!new)>(
      num: Numbers<V>, like: (V, V) -> bool, ops: seq<ValueOp>, drivers: seq<Driver>, frontier: set<nat>,
      values: seq<V>, before: seq<V>, after: seq<V>, u: nat)
    requires Admissible(num, like, ops) && Advances(num, drivers, frontier, values, before, after) && u < |before|
    requires !IsMovedOutput(num, drivers, frontier, before, after, u)
    ensures LikeAt(like, before, after, u)
  {
    if IsOutput(drivers, frontier, u) {
      var d :| d in frontier && d < |drivers| && drivers[d].output == u;
      assert Takes(num, drivers[d], values, before, after) && !Moves(num, drivers, frontier, before, after, d);
    }
  }

  /** A driver that is not triggered has the same pulls, up to likeness, after the refresh. */
  lemma UntriggeredKeepsPulls<V(!new)>(
      num: Numbers<V>, like: (V, V) -> bool, ir: IslandIr<V>, plan: DiscretePlan, frontier: set<nat>,
      a: seq<V>, b: seq<V>, before: seq<V>, after: seq<V>, d: nat)
    requires IsPlan(ir, plan, |before|) && Admissible(num, like, ir.program.iterationOps) && d < |plan.drivers|
    requires SameTick(num.ar, ir, a, b) && Reflects(ir, a, before) && Reflects(ir, b, after)
    requires Advances(num, plan.drivers, frontier, a, before, after)
    requires !Triggered(num, plan, frontier, before, after, d)
    ensures LikePulls(like, plan.drivers[d], a, b)
  {
    var moved := set p | p in frontier && Moves(num, plan.drivers, frontier, before, after, p);
    forall i: nat | i < |ir.solutionInputs| && !LikeAt(like, a, b, ir.solutionInputs[i].1)
      ensures exists p :: p in moved && p < |plan.drivers| && plan.drivers[p].output == ir.solutionInputs[i].0
    {
      DifferingInputMoved(num, like, ir, plan, frontier, a, b, before, after, i);
    }
    forall p | p in moved ensures !InRow(plan.offsets, plan.dependents, p, d) {
      assert Moves(num, plan.drivers, frontier, before, after, p);
    }
    UnlistedDriversKeepPulls(num.ar, like, ir, plan.drivers, plan.offsets, plan.dependents, moved, a, b, d);
  }

  lemma DifferingInputMoved<V(!new)>(
      num: Numbers<V>, like: (V, V) -> bool, ir: IslandIr<V>, plan: DiscretePlan, frontier: set<nat>,
      a: seq<V>, b: seq<V>, before: seq<V>, after: seq<V>, i: nat)
    requires Admissible(num, like, ir.program.iterationOps) && i < |ir.solutionInputs|
    requires Reflects(ir, a, before) && Reflects(ir, b, after)
    requires Advances(num, plan.drivers, frontier, a, before, after)
    requires !LikeAt(like, a, b, ir.solutionInputs[i].1)
    ensures IsMovedOutput(num, plan.drivers, frontier, before, after, ir.solutionInputs[i].0)
  {
    assert Mirrors(ir.solutionInputs[i], a, before) && Mirrors(ir.solutionInputs[i], b, after);
    if !IsMovedOutput(num, plan.drivers, frontier, before, after, ir.solutionInputs[i].0) {
      UnmovedIsAlike(num, like, ir.program.iterationOps, plan.drivers, frontier, a, before, after,
        ir.solutionInputs[i].0);
    }
  }

  lemma UntriggeredKeepsRail<V(!new)>(
      num: Numbers<V>, like: (V, V) -> bool, ir: IslandIr<V>, plan: DiscretePlan, frontier: set<nat>,
      values: seq<V>, before: seq<V>, after: seq<V>, d: nat, rail: nat)
    requires IsPlan(ir, plan, |before|) && Admissible(num, like, ir.program.iterationOps) && d < |plan.drivers|
    requires Advances(num, plan.drivers, frontier, values, before, after)
    requires !Triggered(num, plan, frontier, before, after, d)
    requires plan.drivers[d].highRail == Some(rail) || plan.drivers[d].lowRail == Some(rail)
    ensures LikeAt(like, before, after, rail)
  {
    assert RailsFit(plan.drivers[d], |before|);
    forall p: nat | Moves(num, plan.drivers, frontier, before, after, p)
      ensures plan.drivers[p].output != rail
    {
      assert ListsReactors(ir, plan.drivers, plan.offsets, plan.dependents, p);
      assert !InRow(plan.offsets, plan.dependents, p, d);
      assert !Reacts(ir, plan.drivers, d, p);
    }
    UnmovedIsAlike(num, like, ir.program.iterationOps, plan.drivers, frontier, values, before, after, rail);
  }

  /** The round invariant: if everything outside the frontier was balanced, everything that the
      round did not trigger is balanced afterwards. */
  lemma RoundKeepsBalance<V(!new)>(
      num: Numbers<V>, like: (V, V) -> bool, ir: IslandIr<V>, plan: DiscretePlan, frontier: set<nat>,
      a: seq<V>, b: seq<V>, before: seq<V>, after: seq<V>, d: nat)
    requires IsPlan(ir, plan, |before|) && Admissible(num, like, ir.program.iterationOps) && d < |plan.drivers|
    requires SameTick(num.ar, ir, a, b) && Reflects(ir, a, before) && Reflects(ir, b, after)
    requires Advances(num, plan.drivers, frontier, a, before, after)
    requires BalancedOutside(num, like, plan.drivers, frontier, a, before)
    requires !Triggered(num, plan, frontier, before, after, d)
    ensures Balanced(num, like, plan.drivers[d], b, after)
  {
    UntriggeredKeepsPulls(num, like, ir, plan, frontier, a, b, before, after, d);
    OutputsFollow(num, like, ir, plan, frontier, a, b, before, after, d);
  }

  lemma OutputsFollow<V(!new)>(
      num: Numbers<V>, like: (V, V) -> bool, ir: IslandIr<V>, plan: DiscretePlan, frontier: set<nat>,
      a: seq<V>, b: seq<V>, before: seq<V>, after: seq<V>, d: nat)
    requires IsPlan(ir, plan, |before|) && Admissible(num, like, ir.program.iterationOps) && d < |plan.drivers|
    requires LikePulls(like, plan.drivers[d], a, b)
    requires Advances(num, plan.drivers, frontier, a, before, after)
    requires BalancedOutside(num, like, plan.drivers, frontier, a, before)
    requires !Triggered(num, plan, frontier, before, after, d)
    ensures Balanced(num, like, plan.drivers[d], b, after)
  {
    var driver, ops := plan.drivers[d], ir.program.iterationOps;
    assert RailsFit(driver, |before|);
    if driver.highRail.Some? {
      UntriggeredKeepsRail(num, like, ir, plan, frontier, a, before, after, d, driver.highRail.value);
    }
    if driver.lowRail.Some? {
      UntriggeredKeepsRail(num, like, ir, plan, frontier, a, before, after, d, driver.lowRail.value);
    }
    BalanceIsKept(num, like, ops, driver, a, before, b, after);
    if d in frontier {
      assert Takes(num, driver, a, before, after);
      assert like(after[driver.output], Predict(num, driver, b, after).value);
    } else {
      assert !IsOutput(plan.drivers, frontier, driver.output);
      assert Balanced(num, like, driver, a, before);
    }
  }

  /** A round in which no output moved ends with every driver balanced, without a refresh. */
  lemma UnmovedRoundSettles<V(!new)>(
      num: Numbers<V>, like: (V, V) -> bool, ir: IslandIr<V>, plan: DiscretePlan, frontier: set<nat>,
      a: seq<V>, before: seq<V>, after: seq<V>)
    requires IsPlan(ir, plan, |before|) && Admissible(num, like, ir.program.iterationOps) && |a| == ir.SlotCount()
    requires Advances(num, plan.drivers, frontier, a, before, after)
    requires BalancedOutside(num, like, plan.drivers, frontier, a, before)
    requires !AnyMoved(num, plan.drivers, frontier, before, after)
    ensures BalancedOutside(num, like, plan.drivers, {}, a, after)
  {
    forall d | 0 <= d < |plan.drivers| ensures Balanced(num, like, plan.drivers[d], a, after) {
      OutputsFollow(num, like, ir, plan, frontier, a, a, before, after, d);
    }
  }

  // ----- The closure itself -----

  /** A list of distinct drivers. */
  ghost predicate IsFrontier(s: seq<nat>, driverCount: nat) {
    Distinct(s) && forall j | 0 <= j < |s| :: s[j] < driverCount
  }

  ghost predicate BarriersChanged<V>(
      num: Numbers<V>, plan: DiscretePlan, values: seq<V>, factorized: seq<V>, reference: seq<V>)
  {
    || (exists k ::
      0 <= k < |plan.matrixBarriers| && MatrixBarrierChanged(num, plan.matrixBarriers[k], values, factorized))
    || (exists k :: 0 <= k < |plan.rhsBarriers| && RhsBarrierChanged(num, plan.rhsBarriers[k], values, reference, k))
  }

  ghost predicate MatrixBarrierChanged<V>(num: Numbers<V>, barrier: MatrixBarrier, values: seq<V>, factorized: seq<V>) {
    && barrier.source < |values| && barrier.factorizedIndex < |factorized|
    && !num.equal(values[barrier.source], factorized[barrier.factorizedIndex])
  }

  ghost predicate RhsBarrierChanged<V>(num: Numbers<V>, source: nat, values: seq<V>, reference: seq<V>, k: nat) {
    source < |values| && k < |reference| && !num.equal(values[source], reference[k])
  }

  /** `barriers_changed`. */
  method CheckBarriers<V>(num: Numbers<V>, plan: DiscretePlan, values: array<V>, factorized: seq<V>, reference: seq<V>)
    returns (changed: bool)
    requires forall k | 0 <= k < |plan.matrixBarriers| ::
               plan.matrixBarriers[k].source < values.Length && plan.matrixBarriers[k].factorizedIndex < |factorized|
    requires |reference| == |plan.rhsBarriers|
      && forall k | 0 <= k < |plan.rhsBarriers| :: plan.rhsBarriers[k] < values.Length
    ensures changed <==> BarriersChanged(num, plan, values[..], factorized, reference)
  {
    for k := 0 to |plan.matrixBarriers|
      invariant forall j | 0 <= j < k :: !MatrixBarrierChanged(num, plan.matrixBarriers[j], values[..], factorized)
    {
      var barrier := plan.matrixBarriers[k];
      if !num.equal(values[barrier.source], factorized[barrier.factorizedIndex]) {
        assert MatrixBarrierChanged(num, plan.matrixBarriers[k], values[..], factorized);
        return true;
      }
    }
    for k := 0 to |plan.rhsBarriers|
      invariant forall j | 0 <= j < k :: !RhsBarrierChanged(num, plan.rhsBarriers[j], values[..], reference, j)
    {
      if !num.equal(values[plan.rhsBarriers[k]], reference[k]) {
        assert RhsBarrierChanged(num, plan.rhsBarriers[k], values[..], reference, k);
        return true;
      }
    }
    return false;
  }

  /** A solution input keeps its value or takes the predicted one. */
  ghost predicate Caught<V>(input: (nat, nat), start: seq<V>, values: seq<V>, predicted: seq<V>) {
    && input.0 < |predicted| && input.1 < |values| == |start|
    && (values[input.1] == start[input.1] || values[input.1] == predicted[input.0])
  }

  /** Refreshing inputs: only solution inputs have been written, and those of the first `i` frontier
      drivers hold their predicted value. */
  ghost predicate Refreshing<V>(
      ir: IslandIr<V>, plan: DiscretePlan, frontier: seq<nat>, i: nat, start: seq<V>, values: seq<V>, predicted: seq<V>)
  {
    && |values| == |start|
    && (forall v | 0 <= v < |values| && !ir.IsSolution(v) :: values[v] == start[v])
    && (forall k | 0 <= k < |ir.solutionInputs| :: Caught(ir.solutionInputs[k], start, values, predicted))
    && (forall j | 0 <= j < i && j < |frontier| :: Refreshed(plan, frontier[j], values, predicted))
  }

  ghost predicate Refreshed<V>(plan: DiscretePlan, d: nat, values: seq<V>, predicted: seq<V>) {
    && d < |plan.drivers| && d < |plan.outputInputs|
    && (plan.outputInputs[d].Some? ==> Mirrors((plan.drivers[d].output, plan.outputInputs[d].value), values, predicted))
  }

  lemma RefreshOne<V>(
      ir: IslandIr<V>, plan: DiscretePlan, frontier: seq<nat>, i: nat, start: seq<V>, values: seq<V>,
      predicted: seq<V>, slot: nat)
    requires IsPlan(ir, plan, |predicted|) && i < |frontier| && frontier[i] < |plan.drivers|
      && |values| == ir.SlotCount()
    requires Refreshing(ir, plan, frontier, i, start, values, predicted)
    requires plan.outputInputs[frontier[i]] == Some(slot)
    ensures slot < |values| && ir.IsSolution(slot) && plan.drivers[frontier[i]].output < |predicted|
    ensures Refreshing(ir, plan, frontier, i + 1, start, values[slot := predicted[plan.drivers[frontier[i]].output]],
      predicted)
  {
    var d := frontier[i];
    assert FindsOutputInput(ir, plan.drivers[d], plan.outputInputs[d]) && RailsFit(plan.drivers[d], |predicted|);
    var k :| 0 <= k < |ir.solutionInputs| && ir.solutionInputs[k] == (plan.drivers[d].output, slot);
    var x := predicted[plan.drivers[d].output];
    var next := values[slot := x];
    forall m | 0 <= m < |ir.solutionInputs| ensures Caught(ir.solutionInputs[m], start, next, predicted) {
      assert Caught(ir.solutionInputs[m], start, values, predicted);
      assert m < k || m == k || k < m;
    }
    forall j | 0 <= j < i + 1 ensures Refreshed(plan, frontier[j], next, predicted) {
      if j < i {
        assert Refreshed(plan, frontier[j], values, predicted);
        SameSlotSameOutput(ir, plan, frontier[j], d, slot, |predicted|);
      }
    }
  }

  /** One input slot belongs to one unknown. */
  lemma SameSlotSameOutput<V>(ir: IslandIr<V>, plan: DiscretePlan, d: nat, e: nat, slot: nat, unknownCount: nat)
    requires IsPlan(ir, plan, unknownCount) && d < |plan.drivers| && e < |plan.drivers|
    requires plan.outputInputs[e] == Some(slot)
    ensures plan.outputInputs[d] == Some(slot) ==> plan.drivers[d].output == plan.drivers[e].output
  {
    assert FindsOutputInput(ir, plan.drivers[d], plan.outputInputs[d])
      && FindsOutputInput(ir, plan.drivers[e], plan.outputInputs[e]);
    if plan.outputInputs[d] == Some(slot) {
      var k :| 0 <= k < |ir.solutionInputs| && ir.solutionInputs[k] == (plan.drivers[e].output, slot);
      var m :| 0 <= m < |ir.solutionInputs| && ir.solutionInputs[m] == (plan.drivers[d].output, slot);
      assert m < k || m == k || k < m;
    }
  }

  /** When all frontier drivers are refreshed, every solution input holds its prediction again. */
  lemma RefreshedReflects<V>(num: Numbers<V>, ir: IslandIr<V>, plan: DiscretePlan, frontier: seq<nat>,
                             start: seq<V>, values: seq<V>, before: seq<V>, after: seq<V>)
    requires IsPlan(ir, plan, |before|) && |values| == ir.SlotCount()
    requires Refreshing(ir, plan, frontier, |frontier|, start, values, after)
    requires Reflects(ir, start, before) && Advances(num, plan.drivers, SetOf(frontier), start, before, after)
    ensures Reflects(ir, values, after)
  {
    forall k | 0 <= k < |ir.solutionInputs| ensures Mirrors(ir.solutionInputs[k], values, after) {
      var (u, slot) := ir.solutionInputs[k];
      assert Mirrors(ir.solutionInputs[k], start, before) && Caught(ir.solutionInputs[k], start, values, after);
      if IsOutput(plan.drivers, SetOf(frontier), u) {
        var d :| d in SetOf(frontier) && d < |plan.drivers| && plan.drivers[d].output == u;
        var j :| 0 <= j < |frontier| && frontier[j] == d;
        assert Refreshed(plan, frontier[j], values, after);
        OutputInputIsUnique(ir, plan, d, k, |before|);
      }
    }
  }

  lemma OutputInputIsUnique<V>(ir: IslandIr<V>, plan: DiscretePlan, d: nat, k: nat, unknownCount: nat)
    requires IsPlan(ir, plan, unknownCount) && d < |plan.drivers| && k < |ir.solutionInputs|
    requires ir.solutionInputs[k].0 == plan.drivers[d].output
    ensures plan.outputInputs[d] == Some(ir.solutionInputs[k].1)
  {
    assert FindsOutputInput(ir, plan.drivers[d], plan.outputInputs[d]);
    if plan.outputInputs[d].Some? {
      var m :| 0 <= m < |ir.solutionInputs|
        && ir.solutionInputs[m] == (plan.drivers[d].output, plan.outputInputs[d].value);
      assert m < k || m == k || k < m;
    }
  }

  ghost predicate PredictsTo<V>(num: Numbers<V>, driver: Driver, values: seq<V>, predicted: seq<V>, output: Option<V>) {
    && driver.pullUp < |values| && driver.pullDown < |values| && RailsFit(driver, |predicted|)
    && Predict(num, driver, values, predicted) == output
  }

  /** The first `i` frontier drivers have been given their predicted outputs. */
  ghost predicate Advancing<V>(
      drivers: seq<Driver>, frontier: seq<nat>, i: nat, outputs: seq<V>, before: seq<V>, predicted: seq<V>)
    requires i <= |frontier|
  {
    && |predicted| == |before|
    && (forall j | 0 <= j < i :: HasOutput(drivers, frontier[j], outputs, predicted))
    && (forall u | 0 <= u < |before| && !IsOutput(drivers, SetOf(frontier[..i]), u) :: predicted[u] == before[u])
  }

  ghost predicate HasOutput<V>(drivers: seq<Driver>, d: nat, outputs: seq<V>, predicted: seq<V>) {
    d < |drivers| && d < |outputs| && drivers[d].output < |predicted| && predicted[drivers[d].output] == outputs[d]
  }

  /** The drivers of `more` that moved are those of `done` and, if `moved`, driver `d`. */
  ghost predicate MovesOneMore<V>(num: Numbers<V>, drivers: seq<Driver>, done: set<nat>, more: set<nat>, d: nat,
                                  before: seq<V>, predicted: seq<V>, next: seq<V>, moved: bool)
  {
    forall p: nat :: Moves(num, drivers, more, before, next, p) <==>
                     Moves(num, drivers, done, before, predicted, p) || (p == d && moved)
  }

  lemma AdvanceOne<V>(
      num: Numbers<V>, drivers: seq<Driver>, slotCount: nat, frontier: seq<nat>, i: nat, outputs: seq<V>,
      before: seq<V>, predicted: seq<V>)
    requires DriversFit(drivers, slotCount) && IsFrontier(frontier, |drivers|) && i < |frontier|
      && |outputs| == |drivers|
    requires drivers[frontier[i]].output < |before| && Advancing(drivers, frontier, i, outputs, before, predicted)
    ensures var d := frontier[i]; var u := drivers[d].output;
            && predicted[u] == before[u]
            && Advancing(drivers, frontier, i + 1, outputs, before, predicted[u := outputs[d]])
            && MovesOneMore(num, drivers, SetOf(frontier[..i]), SetOf(frontier[..i + 1]), d, before, predicted,
              predicted[u := outputs[d]], !num.equal(before[u], outputs[d]))
  {
    var d := frontier[i];
    var u := drivers[d].output;
    var older, newer := SetOf(frontier[..i]), SetOf(frontier[..i + 1]);
    var next := predicted[u := outputs[d]];
    assert frontier[..i + 1] == frontier[..i] + [d] && newer == older + {d};
    forall e | e in older && e < |drivers| ensures drivers[e].output != u && HasOutput(drivers, e, outputs, next) {
      var j :| 0 <= j < i && frontier[j] == e;
      assert HasOutput(drivers, frontier[j], outputs, predicted);
    }
    assert !IsOutput(drivers, older, u);
    forall j | 0 <= j < i + 1 ensures HasOutput(drivers, frontier[j], outputs, next) {
      if j < i { assert frontier[j] in frontier[..i]; }
    }
    forall w | 0 <= w < |before| && !IsOutput(drivers, newer, w) ensures next[w] == before[w] {
      assert d in newer && !IsOutput(drivers, older, w);
    }
  }

  lemma AdvancingEndsAdvanced<V>(
      num: Numbers<V>, drivers: seq<Driver>, frontier: seq<nat>, values: seq<V>, outputs: seq<V>, before: seq<V>,
      predicted: seq<V>)
    requires Advancing(drivers, frontier, |frontier|, outputs, before, predicted)
    requires forall d | d in frontier ::
      d < |drivers| && d < |outputs| && PredictsTo(num, drivers[d], values, before, Some(outputs[d]))
    ensures Advances(num, drivers, SetOf(frontier), values, before, predicted)
  {
    assert frontier[..|frontier|] == frontier;
    forall d | d in SetOf(frontier) ensures d < |drivers| && Takes(num, drivers[d], values, before, predicted) {
      var j :| 0 <= j < |frontier| && frontier[j] == d;
      assert HasOutput(drivers, frontier[j], outputs, predicted);
    }
  }

  ghost predicate AnyMoved<V>(
      num: Numbers<V>, drivers: seq<Driver>, frontier: set<nat>, before: seq<V>, after: seq<V>)
  {
    exists p: nat :: Moves(num, drivers, frontier, before, after, p)
  }

  /** The dependents triggered by one more driver are those of its row, if it moved. */
  lemma TriggerOne<V>(num: Numbers<V>, plan: DiscretePlan, done: set<nat>, more: set<nat>, d: nat,
                      before: seq<V>, predicted: seq<V>, next: seq<V>, moved: bool)
    requires MovesOneMore(num, plan.drivers, done, more, d, before, predicted, next, moved)
    ensures AnyMoved(num, plan.drivers, more, before, next) ==
      (moved || AnyMoved(num, plan.drivers, done, before, predicted))
    ensures forall e: nat :: Triggered(num, plan, more, before, next, e) <==>
                        Triggered(num, plan, done, before, predicted, e)
                          || (moved && InRow(plan.offsets, plan.dependents, d, e))
  {
    assert moved ==> Moves(num, plan.drivers, more, before, next, d);
    if p: nat :| Moves(num, plan.drivers, done, before, predicted, p) {
      assert Moves(num, plan.drivers, more, before, next, p);
    }
    forall e: nat
      ensures Triggered(num, plan, more, before, next, e) <==>
              Triggered(num, plan, done, before, predicted, e) || (moved && InRow(plan.offsets, plan.dependents, d, e))
    {
      if Triggered(num, plan, done, before, predicted, e) {
        var p :| Moves(num, plan.drivers, done, before, predicted, p) && InRow(plan.offsets, plan.dependents, p, e);
        assert Moves(num, plan.drivers, more, before, next, p);
      }
    }
  }

  /** `next` lists exactly the dependents of the drivers of `done` that moved. */
  ghost predicate ListsTriggered<V>(
      num: Numbers<V>, plan: DiscretePlan, done: set<nat>, before: seq<V>, predicted: seq<V>, next: seq<nat>)
  {
    forall d: nat :: d in next <==> Triggered(num, plan, done, before, predicted, d)
  }

  lemma ListOne<V>(num: Numbers<V>, plan: DiscretePlan, done: set<nat>, more: set<nat>, d: nat,
                   before: seq<V>, predicted: seq<V>, after: seq<V>, moved: bool, next: seq<nat>, longer: seq<nat>)
    requires MovesOneMore(num, plan.drivers, done, more, d, before, predicted, after, moved)
    requires ListsTriggered(num, plan, done, before, predicted, next)
    requires d + 1 < |plan.offsets| && plan.offsets[d] <= plan.offsets[d + 1] <= |plan.dependents|
    requires SetOf(longer) == SetOf(next) + (if moved then SetOf(plan.DependentsFor(d)) else {})
    ensures ListsTriggered(num, plan, more, before, after, longer)
  {
    TriggerOne(num, plan, done, more, d, before, predicted, after, moved);
    forall e: nat ensures e in longer <==> e in next || (moved && InRow(plan.offsets, plan.dependents, d, e)) {
      assert e in SetOf(longer) <==> e in SetOf(next) || (moved && e in SetOf(plan.DependentsFor(d)));
    }
  }

  /** Everything the second half of a round has established for the first `i` frontier drivers. */
  ghost predicate Applied<V>(num: Numbers<V>, plan: DiscretePlan, frontier: seq<nat>, i: nat, outputs: seq<V>,
                             before: seq<V>, predicted: seq<V>, changed: bool, next: seq<nat>)
    requires i <= |frontier|
  {
    var done := SetOf(frontier[..i]);
    && Advancing(plan.drivers, frontier, i, outputs, before, predicted)
    && changed == AnyMoved(num, plan.drivers, done, before, predicted)
    && ListsTriggered(num, plan, done, before, predicted, next)
  }

  lemma DependentsAreDrivers<V>(ir: IslandIr<V>, plan: DiscretePlan, d: nat, unknownCount: nat)
    requires IsPlan(ir, plan, unknownCount) && d < |plan.drivers|
    ensures d + 1 < |plan.offsets| && plan.offsets[d] <= plan.offsets[d + 1] <= |plan.dependents|
    ensures forall e | e in plan.DependentsFor(d) :: e < |plan.drivers|
  {
    assert ListsReactors(ir, plan.drivers, plan.offsets, plan.dependents, d);
    forall e | e in plan.DependentsFor(d) ensures e < |plan.drivers| {
      assert InRow(plan.offsets, plan.dependents, d, e);
    }
  }

  lemma ApplyStep<V>(num: Numbers<V>, ir: IslandIr<V>, plan: DiscretePlan, frontier: seq<nat>, i: nat, outputs: seq<V>,
                     before: seq<V>, predicted: seq<V>, changed: bool, next: seq<nat>, longer: seq<nat>)
    requires IsPlan(ir, plan, |before|) && IsFrontier(frontier, |plan.drivers|) && i < |frontier|
      && |outputs| == |plan.drivers|
    requires Applied(num, plan, frontier, i, outputs, before, predicted, changed, next)
    ensures var d := frontier[i]; var u := plan.drivers[d].output;
            && u < |predicted| == |before| && predicted[u] == before[u]
            && d + 1 < |plan.offsets| && plan.offsets[d] <= plan.offsets[d + 1] <= |plan.dependents|
            && (forall e | e in plan.DependentsFor(d) :: e < |plan.drivers|)
            && (num.equal(before[u], outputs[d]) ==>
                  Applied(num, plan, frontier, i + 1, outputs, before, predicted[u := outputs[d]], changed, next))
            && (!num.equal(before[u], outputs[d]) && SetOf(longer) == SetOf(next) + SetOf(plan.DependentsFor(d)) ==>
                  Applied(num, plan, frontier, i + 1, outputs, before, predicted[u := outputs[d]], true, longer))
  {
    var d := frontier[i];
    assert RailsFit(plan.drivers[d], |before|);
    var u := plan.drivers[d].output;
    AdvanceOne(num, plan.drivers, ir.SlotCount(), frontier, i, outputs, before, predicted);
    assert ListsReactors(ir, plan.drivers, plan.offsets, plan.dependents, d);
    var moved := !num.equal(before[u], outputs[d]);
    var after := predicted[u := outputs[d]];
    var more := SetOf(frontier[..i + 1]);
    TriggerOne(num, plan, SetOf(frontier[..i]), more, d, before, predicted, after, moved);
    DependentsAreDrivers(ir, plan, d, |before|);
    if !moved {
      ListOne(num, plan, SetOf(frontier[..i]), more, d, before, predicted, after, moved, next, next);
    } else if SetOf(longer) == SetOf(next) + SetOf(plan.DependentsFor(d)) {
      ListOne(num, plan, SetOf(frontier[..i]), more, d, before, predicted, after, moved, next, longer);
    }
  }

  /** Evaluating after the inputs are refreshed completes the refresh. */
  lemma EvaluatedRefresh<V>(num: Numbers<V>, ir: IslandIr<V>, plan: DiscretePlan, frontier: seq<nat>,
                            start: seq<V>, changed: seq<V>, before: seq<V>, after: seq<V>)
    requires IsPlan(ir, plan, |before|) && |start| == |changed| == ir.SlotCount()
    requires ValueIr.Settled(num.ar, ir.program.iterationOps, start)
    requires Refreshing(ir, plan, frontier, |frontier|, start, changed, after)
    requires Reflects(ir, start, before) && Advances(num, plan.drivers, SetOf(frontier), start, before, after)
    ensures var values := Execute(num.ar, ir.program.iterationOps, changed);
            SameTick(num.ar, ir, start, values) && Reflects(ir, values, after)
  {
    var ops := ir.program.iterationOps;
    var values := Execute(num.ar, ops, changed);
    ExecuteSettles(num.ar, ops, changed);
    RefreshedReflects(num, ir, plan, frontier, start, changed, before, after);
    forall k | 0 <= k < |ir.solutionInputs| ensures Mirrors(ir.solutionInputs[k], values, after) {
      assert Mirrors(ir.solutionInputs[k], changed, after);
    }
  }

  ghost predicate ListsSeeded<V>(
      num: Numbers<V>, ir: IslandIr<V>, plan: DiscretePlan, values: seq<V>, expected: seq<V>, bound: nat,
      next: seq<nat>)
  {
    forall d: nat :: d in next <==> Seeded(num, ir, plan, values, expected, bound, d)
  }

  /** One more stability value: nothing is seeded if it did not move, else its row and, if it is the
      first to move, the conservative drivers. */
  lemma SeedOne<V>(
      num: Numbers<V>, ir: IslandIr<V>, plan: DiscretePlan, values: seq<V>, expected: seq<V>, i: nat, next: seq<nat>,
      longer: seq<nat>)
    requires IsFrontierTable(ir, plan.drivers, plan.stabilityOffsets, plan.stabilityDependents, plan.conservative)
    requires i < |ir.stabilityValues| == |expected| && ir.stabilityValues[i] < |values|
    requires ListsSeeded(num, ir, plan, values, expected, i, next)
    ensures i + 1 < |plan.stabilityOffsets|
      && plan.stabilityOffsets[i] <= plan.stabilityOffsets[i + 1] <= |plan.stabilityDependents|
    ensures forall d | d in plan.StabilityDependentsFor(i) :: d < |plan.drivers|
    ensures AnyStabilityMoved(num, ir, values, expected, i + 1) ==
            (AnyStabilityMoved(num, ir, values, expected, i) || Moved(num, ir, values, expected, i))
    ensures !Moved(num, ir, values, expected, i) && longer == next ==>
      ListsSeeded(num, ir, plan, values, expected, i + 1, longer)
    ensures Moved(num, ir, values, expected, i)
            && SetOf(longer) == SetOf(next) + SetOf(plan.conservative) + SetOf(plan.StabilityDependentsFor(i))
            ==> ListsSeeded(num, ir, plan, values, expected, i + 1, longer)
  {
    assert ListsWatchers(ir, plan.drivers, plan.stabilityOffsets, plan.stabilityDependents, i);
    assert AnyStabilityMoved(num, ir, values, expected, i + 1) ==
           (AnyStabilityMoved(num, ir, values, expected, i) || Moved(num, ir, values, expected, i));
    forall d | d in plan.StabilityDependentsFor(i) ensures d < |plan.drivers| {
      assert InRow(plan.stabilityOffsets, plan.stabilityDependents, i, d);
    }
    forall d: nat
      ensures Seeded(num, ir, plan, values, expected, i + 1, d) <==>
              || Seeded(num, ir, plan, values, expected, i, d)
              || (Moved(num, ir, values, expected, i)
                  && (d in plan.conservative || InRow(plan.stabilityOffsets, plan.stabilityDependents, i, d)))
    {
    }
    if Moved(num, ir, values, expected, i)
       && SetOf(longer) == SetOf(next) + SetOf(plan.conservative) + SetOf(plan.StabilityDependentsFor(i))
    {
      forall d: nat
        ensures d in longer <==>
          d in next || d in plan.conservative || InRow(plan.stabilityOffsets, plan.stabilityDependents, i, d)
      {
        assert d in SetOf(longer) <==>
          d in SetOf(next) || d in SetOf(plan.conservative) || d in SetOf(plan.StabilityDependentsFor(i));
      }
    }
  }

  lemma AlreadySeeded<V>(
      num: Numbers<V>, ir: IslandIr<V>, plan: DiscretePlan, values: seq<V>, expected: seq<V>, bound: nat,
      next: seq<nat>)
    requires ListsSeeded(num, ir, plan, values, expected, bound, next)
      && AnyStabilityMoved(num, ir, values, expected, bound)
    ensures SetOf(next) == SetOf(next) + SetOf(plan.conservative)
  {
    forall d | d in SetOf(plan.conservative) ensures d in next {
      assert Seeded(num, ir, plan, values, expected, bound, d);
    }
  }

  ghost predicate BarriersFit<V>(plan: DiscretePlan, factorized: seq<V>, reference: seq<V>) {
    && (forall k | 0 <= k < |plan.matrixBarriers| :: plan.matrixBarriers[k].factorizedIndex < |factorized|)
    && |reference| == |plan.rhsBarriers|
  }

  /** Between rounds: the workspace is evaluated on the predictions, and every driver outside the
      frontier is balanced. */
  ghost predicate Consistent<V>(num: Numbers<V>, like: (V, V) -> bool, ir: IslandIr<V>, plan: DiscretePlan,
                                values: seq<V>, predicted: seq<V>, frontier: seq<nat>)
  {
    && AllFit(ir.program.iterationOps, |values|) && ValueIr.Settled(num.ar, ir.program.iterationOps, values)
    && Reflects(ir, values, predicted)
    && BalancedOutside(num, like, plan.drivers, SetOf(frontier), values, predicted)
  }

  /** What a settled closure promises: every driver balanced, and the workspace evaluated on inputs
      that are the predictions up to likeness. */
  ghost predicate ClosureSettled<V>(
      num: Numbers<V>, like: (V, V) -> bool, ir: IslandIr<V>, plan: DiscretePlan, values: seq<V>, predicted: seq<V>)
  {
    && AllFit(ir.program.iterationOps, |values|) && ValueIr.Settled(num.ar, ir.program.iterationOps, values)
    && BalancedOutside(num, like, plan.drivers, {}, values, predicted)
    && forall i | 0 <= i < |ir.solutionInputs| :: MirrorsLike(like, ir.solutionInputs[i], values, predicted)
  }

  ghost predicate MirrorsLike<V>(like: (V, V) -> bool, input: (nat, nat), values: seq<V>, predicted: seq<V>) {
    input.0 < |predicted| && input.1 < |values| && like(values[input.1], predicted[input.0])
  }

  ghost predicate OnlyOutputsDiffer<V>(drivers: seq<Driver>, before: seq<V>, after: seq<V>) {
    && |before| == |after|
    && forall u | 0 <= u < |before| && (forall d | 0 <= d < |drivers| :: drivers[d].output != u) ::
      after[u] == before[u]
  }

  lemma AdvancesOnlyOutputs<V>(
      num: Numbers<V>, drivers: seq<Driver>, frontier: set<nat>, values: seq<V>, before: seq<V>, after: seq<V>)
    requires Advances(num, drivers, frontier, values, before, after)
    ensures OnlyOutputsDiffer(drivers, before, after)
  {
    forall u | 0 <= u < |before| && (forall d | 0 <= d < |drivers| :: drivers[d].output != u)
      ensures after[u] == before[u]
    {
      assert !IsOutput(drivers, frontier, u);
    }
  }

  lemma UnmovedReflects<V(!new)>(
      num: Numbers<V>, like: (V, V) -> bool, ir: IslandIr<V>, plan: DiscretePlan, frontier: set<nat>,
      a: seq<V>, before: seq<V>, after: seq<V>)
    requires Admissible(num, like, ir.program.iterationOps) && Reflects(ir, a, before)
    requires Advances(num, plan.drivers, frontier, a, before, after)
    requires !AnyMoved(num, plan.drivers, frontier, before, after)
    ensures forall i | 0 <= i < |ir.solutionInputs| :: MirrorsLike(like, ir.solutionInputs[i], a, after)
  {
    forall i | 0 <= i < |ir.solutionInputs| ensures MirrorsLike(like, ir.solutionInputs[i], a, after) {
      var u := ir.solutionInputs[i].0;
      assert Mirrors(ir.solutionInputs[i], a, before);
      UnmovedIsAlike(num, like, ir.program.iterationOps, plan.drivers, frontier, a, before, after, u);
    }
  }

  lemma RoundIsConsistent<V(!new)>(
      num: Numbers<V>, like: (V, V) -> bool, ir: IslandIr<V>, plan: DiscretePlan, frontier: set<nat>,
      a: seq<V>, b: seq<V>, before: seq<V>, after: seq<V>, next: seq<nat>)
    requires IsPlan(ir, plan, |before|) && Admissible(num, like, ir.program.iterationOps)
    requires SameTick(num.ar, ir, a, b) && Reflects(ir, a, before) && Reflects(ir, b, after)
    requires Advances(num, plan.drivers, frontier, a, before, after)
    requires BalancedOutside(num, like, plan.drivers, frontier, a, before)
    requires ListsTriggered(num, plan, frontier, before, after, next)
    ensures Consistent(num, like, ir, plan, b, after, next)
  {
    forall d | 0 <= d < |plan.drivers| && d !in SetOf(next) ensures Balanced(num, like, plan.drivers[d], b, after) {
      assert d !in next;
      RoundKeepsBalance(num, like, ir, plan, frontier, a, b, before, after, d);
    }
  }

  lemma EmptyFrontierSettles<V(!new)>(num: Numbers<V>, like: (V, V) -> bool, ir: IslandIr<V>, plan: DiscretePlan,
                                      values: seq<V>, predicted: seq<V>, frontier: seq<nat>)
    requires Admissible(num, like, ir.program.iterationOps)
    requires Consistent(num, like, ir, plan, values, predicted, frontier)
    ensures frontier == [] ==> ClosureSettled(num, like, ir, plan, values, predicted)
  {
    forall i | 0 <= i < |ir.solutionInputs| ensures MirrorsLike(like, ir.solutionInputs[i], values, predicted) {
      assert Mirrors(ir.solutionInputs[i], values, predicted);
    }
    if frontier == [] {
      assert SetOf(frontier) == {};
    }
  }

  // ----- Whole runs -----

  /** What a round starts from. */
  datatype ClosureState<V> = ClosureState(values: seq<V>, predicted: seq<V>, frontier: seq<nat>)

  /** One full round: the frontier takes its predictions, some output moves, the dependents of those
      that moved are the next frontier, and the workspace is evaluated on the new predictions. */
  ghost predicate Steps<V>(num: Numbers<V>, ir: IslandIr<V>, plan: DiscretePlan, s: ClosureState<V>, t: ClosureState<V>)
    requires ir.WellFormed()
  {
    && Advances(num, plan.drivers, SetOf(s.frontier), s.values, s.predicted, t.predicted)
    && AnyMoved(num, plan.drivers, SetOf(s.frontier), s.predicted, t.predicted)
    && ListsTriggered(num, plan, SetOf(s.frontier), s.predicted, t.predicted, t.frontier)
    && SameTick(num.ar, ir, s.values, t.values) && Reflects(ir, t.values, t.predicted)
  }

  /** A round is made from `s`: there is something to predict, and no barrier has changed. */
  ghost predicate GoesOn<V>(
      num: Numbers<V>, plan: DiscretePlan, factorized: seq<V>, reference: seq<V>, s: ClosureState<V>)
  {
    s.frontier != [] && !BarriersChanged(num, plan, s.values, factorized, reference)
  }

  /** The states between the rounds of a run: each is related to the next. */
  ghost predicate IsTrace<S>(step: (S, S) -> bool, trace: seq<S>) {
    trace != [] && forall i | 0 < i < |trace| :: StepAt(step, trace, i)
  }

  ghost predicate StepAt<S>(step: (S, S) -> bool, trace: seq<S>, i: nat)
    requires 0 < i < |trace|
  {
    step(trace[i - 1], trace[i])
  }

  lemma TraceGrows<S>(step: (S, S) -> bool, trace: seq<S>, next: S)
    requires IsTrace(step, trace) && step(trace[|trace| - 1], next)
    ensures IsTrace(step, trace + [next])
  {
    var longer := trace + [next];
    forall i | 0 < i < |longer| ensures StepAt(step, longer, i) {
      if i < |trace| {
        assert StepAt(step, trace, i);
      }
    }
  }

  ghost predicate IsDeterministic<S(!new)>(step: (S, S) -> bool, same: (S, S) -> bool) {
    forall s, s', t, t' | same(s, s') && step(s, t) && step(s', t') :: same(t, t')
  }

  /** Traces of a deterministic relation agree as far as they both go. */
  lemma {:induction false} TracesAgree<S(!new)>(
      step: (S, S) -> bool, same: (S, S) -> bool, a: seq<S>, b: seq<S>, i: nat)
    requires IsTrace(step, a) && IsTrace(step, b) && IsDeterministic(step, same)
    requires same(a[0], b[0]) && i < |a| && i < |b|
    ensures same(a[i], b[i])
  {
    if i > 0 {
      TracesAgree(step, same, a, b, i - 1);
      assert StepAt(step, a, i) && StepAt(step, b, i);
    }
  }

  /** The run makes a round, from `s` to `t`. */
  ghost predicate Rounds<V>(
      num: Numbers<V>, ir: IslandIr<V>, plan: DiscretePlan, factorized: seq<V>, reference: seq<V>,
      s: ClosureState<V>, t: ClosureState<V>)
    requires ir.WellFormed()
  {
    GoesOn(num, plan, factorized, reference, s) && Steps(num, ir, plan, s, t)
  }

  ghost function RoundOf<V>(num: Numbers<V>, ir: IslandIr<V>, plan: DiscretePlan, factorized: seq<V>, reference: seq<V>)
    : (ClosureState<V>, ClosureState<V>) -> bool
    requires ir.WellFormed()
  {
    (s, t) => Rounds(num, ir, plan, factorized, reference, s, t)
  }

  /** The states of a run that has not stopped before the last of them. */
  ghost predicate Runs<V>(
      num: Numbers<V>, ir: IslandIr<V>, plan: DiscretePlan, factorized: seq<V>, reference: seq<V>,
      trace: seq<ClosureState<V>>)
    requires ir.WellFormed()
  {
    IsTrace(RoundOf(num, ir, plan, factorized, reference), trace)
  }

  lemma RunGrows<V>(
      num: Numbers<V>, ir: IslandIr<V>, plan: DiscretePlan, factorized: seq<V>, reference: seq<V>,
      trace: seq<ClosureState<V>>, last: ClosureState<V>, next: ClosureState<V>)
    requires ir.WellFormed() && Runs(num, ir, plan, factorized, reference, trace)
    requires last == trace[|trace| - 1] && Rounds(num, ir, plan, factorized, reference, last, next)
    ensures Runs(num, ir, plan, factorized, reference, trace + [next])
  {
    TraceGrows(RoundOf(num, ir, plan, factorized, reference), trace, next);
  }

  /** A frontier driver has no finite prediction. */
  ghost predicate IsStuck<V>(num: Numbers<V>, plan: DiscretePlan, s: ClosureState<V>) {
    exists d :: d in s.frontier && d < |plan.drivers|
                && PredictsTo(num, plan.drivers[d], s.values, s.predicted, None)
  }

  /** All frontier drivers have predictions, which are in `after`, and none moves its output. */
  ghost predicate IsQuiet<V>(num: Numbers<V>, plan: DiscretePlan, s: ClosureState<V>, after: seq<V>) {
    && Advances(num, plan.drivers, SetOf(s.frontier), s.values, s.predicted, after)
    && !AnyMoved(num, plan.drivers, SetOf(s.frontier), s.predicted, after)
  }

  /** Why a run ends in state `s`, and what it leaves in the workspace and the predictions. */
  ghost predicate EndsWith<V>(
      num: Numbers<V>, plan: DiscretePlan, factorized: seq<V>, reference: seq<V>, maxRounds: nat, rounds: nat,
      s: ClosureState<V>, outcome: Outcome, values: seq<V>, predicted: seq<V>)
  {
    values == s.values &&
    match outcome
    case Barrier =>
      && (rounds < maxRounds || s.frontier == [])
      && BarriersChanged(num, plan, s.values, factorized, reference) && predicted == s.predicted
    case Settled =>
      && !BarriersChanged(num, plan, s.values, factorized, reference)
      && (if s.frontier == [] then predicted == s.predicted else rounds < maxRounds && IsQuiet(num, plan, s, predicted))
    case InvalidPrediction =>
      && rounds < maxRounds && GoesOn(num, plan, factorized, reference, s)
      && IsStuck(num, plan, s) && predicted == s.predicted
    case BudgetExceeded =>
      rounds == maxRounds && s.frontier != [] && predicted == s.predicted
  }

  /** A whole run: at most `maxRounds` rounds, and the reason it ends after them. */
  ghost predicate IsRun<V>(
      num: Numbers<V>, ir: IslandIr<V>, plan: DiscretePlan, factorized: seq<V>, reference: seq<V>, maxRounds: nat,
      trace: seq<ClosureState<V>>, outcome: Outcome, values: seq<V>, predicted: seq<V>)
    requires ir.WellFormed()
  {
    && Runs(num, ir, plan, factorized, reference, trace)
    && exists n :: 0 <= n <= maxRounds
                   && EndsAt(num, plan, factorized, reference, maxRounds, trace, n, outcome, values, predicted)
  }

  ghost predicate EndsAt<V>(
      num: Numbers<V>, plan: DiscretePlan, factorized: seq<V>, reference: seq<V>, maxRounds: nat,
      trace: seq<ClosureState<V>>, n: nat, outcome: Outcome, values: seq<V>, predicted: seq<V>)
  {
    |trace| == n + 1 && EndsWith(num, plan, factorized, reference, maxRounds, n, trace[n], outcome, values, predicted)
  }

  /** Two states that differ at most in the order in which drivers were queued. */
  ghost predicate SameState<V>(s: ClosureState<V>, t: ClosureState<V>) {
    s.values == t.values && s.predicted == t.predicted && SetOf(s.frontier) == SetOf(t.frontier)
  }

  lemma AdvanceIsDetermined<V>(
      num: Numbers<V>, drivers: seq<Driver>, frontier: set<nat>, values: seq<V>, before: seq<V>, a: seq<V>, b: seq<V>)
    requires Advances(num, drivers, frontier, values, before, a) && Advances(num, drivers, frontier, values, before, b)
    ensures a == b
  {
    forall u | 0 <= u < |before| ensures a[u] == b[u] {
      if IsOutput(drivers, frontier, u) {
        var d :| d in frontier && d < |drivers| && drivers[d].output == u;
        assert Takes(num, drivers[d], values, before, a) && Takes(num, drivers[d], values, before, b);
      }
    }
  }

  lemma WorkspaceIsDetermined<V>(
      num: Numbers<V>, ir: IslandIr<V>, start: seq<V>, a: seq<V>, b: seq<V>, predicted: seq<V>)
    requires ir.WellFormed() && SameTick(num.ar, ir, start, a) && SameTick(num.ar, ir, start, b)
    requires Reflects(ir, a, predicted) && Reflects(ir, b, predicted)
    ensures a == b
  {
    forall v | 0 <= v < |a| && !Writes(ir.program.iterationOps, v) ensures a[v] == b[v] {
      if ir.IsSolution(v) {
        var i :| 0 <= i < |ir.solutionInputs| && ir.solutionInputs[i].1 == v;
        assert Mirrors(ir.solutionInputs[i], a, predicted) && Mirrors(ir.solutionInputs[i], b, predicted);
      } else {
        assert start[v] == a[v] && start[v] == b[v];
      }
    }
    SettledUnique(num.ar, ir.program.iterationOps, a, b);
  }

  lemma StepIsDetermined<V>(
      num: Numbers<V>, ir: IslandIr<V>, plan: DiscretePlan, s: ClosureState<V>, s': ClosureState<V>,
      t: ClosureState<V>, t': ClosureState<V>)
    requires ir.WellFormed() && SameState(s, s') && Steps(num, ir, plan, s, t) && Steps(num, ir, plan, s', t')
    ensures SameState(t, t')
  {
    AdvanceIsDetermined(num, plan.drivers, SetOf(s.frontier), s.values, s.predicted, t.predicted, t'.predicted);
    WorkspaceIsDetermined(num, ir, s.values, t.values, t'.values, t.predicted);
    forall d: nat ensures d in t.frontier <==> d in t'.frontier {
      assert d in t.frontier <==> Triggered(num, plan, SetOf(s.frontier), s.predicted, t.predicted, d);
      assert d in t'.frontier <==> Triggered(num, plan, SetOf(s.frontier), s.predicted, t.predicted, d);
    }
  }

  ghost function SameStates<V>(): (ClosureState<V>, ClosureState<V>) -> bool {
    (s, t) => SameState(s, t)
  }

  lemma RoundsAreDeterministic<V(!new)>(
      num: Numbers<V>, ir: IslandIr<V>, plan: DiscretePlan, factorized: seq<V>, reference: seq<V>)
    requires ir.WellFormed()
    ensures IsDeterministic(RoundOf(num, ir, plan, factorized, reference), SameStates<V>())
  {
    forall s: ClosureState<V>, s', t, t' | SameState(s, s') && Steps(num, ir, plan, s, t) && Steps(num, ir, plan, s', t')
      ensures SameState(t, t')
    {
      StepIsDetermined(num, ir, plan, s, s', t, t');
    }
  }

  lemma EmptyAlike(s: seq<nat>, t: seq<nat>)
    requires SetOf(s) == SetOf(t)
    ensures s == [] <==> t == []
  {
    if s != [] { assert s[0] in SetOf(t); }
    if t != [] { assert t[0] in SetOf(s); }
  }

  lemma QuietIsUnmoved<V>(
      num: Numbers<V>, plan: DiscretePlan, s: ClosureState<V>, frontier: set<nat>, after: seq<V>, next: seq<V>)
    requires frontier == SetOf(s.frontier) && IsQuiet(num, plan, s, after)
    requires Advances(num, plan.drivers, frontier, s.values, s.predicted, next)
    ensures next == after && !AnyMoved(num, plan.drivers, frontier, s.predicted, next)
  {
    AdvanceIsDetermined(num, plan.drivers, frontier, s.values, s.predicted, after, next);
  }

  lemma StuckCannotAdvance<V>(num: Numbers<V>, plan: DiscretePlan, s: ClosureState<V>, frontier: set<nat>, after: seq<V>)
    requires frontier == SetOf(s.frontier) && IsStuck(num, plan, s)
    ensures !Advances(num, plan.drivers, frontier, s.values, s.predicted, after)
  {
    var d :| d in s.frontier && d < |plan.drivers| && PredictsTo(num, plan.drivers[d], s.values, s.predicted, None);
    assert d in frontier && !Takes(num, plan.drivers[d], s.values, s.predicted, after);
  }

  /** A state from which a round is made is not one in which a run ends. */
  lemma StepsDoNotEnd<V>(
      num: Numbers<V>, ir: IslandIr<V>, plan: DiscretePlan, factorized: seq<V>, reference: seq<V>, maxRounds: nat,
      rounds: nat, s: ClosureState<V>, s': ClosureState<V>, t: ClosureState<V>, outcome: Outcome, values: seq<V>, predicted: seq<V>)
    requires ir.WellFormed() && SameState(s, s') && rounds < maxRounds
    requires GoesOn(num, plan, factorized, reference, s') && Steps(num, ir, plan, s', t)
    ensures !EndsWith(num, plan, factorized, reference, maxRounds, rounds, s, outcome, values, predicted)
  {
    EmptyAlike(s.frontier, s'.frontier);
    if IsStuck(num, plan, s) {
      StuckCannotAdvance(num, plan, s, SetOf(s'.frontier), t.predicted);
    }
    if IsQuiet(num, plan, s, predicted) {
      QuietIsUnmoved(num, plan, s, SetOf(s'.frontier), predicted, t.predicted);
    }
  }

  /** A run ends one way only. */
  lemma EndIsDetermined<V>(
      num: Numbers<V>, plan: DiscretePlan, factorized: seq<V>, reference: seq<V>, maxRounds: nat, rounds: nat,
      s: ClosureState<V>, s': ClosureState<V>, a: Outcome, b: Outcome, v: seq<V>, w: seq<V>, p: seq<V>, q: seq<V>)
    requires SameState(s, s')
    requires EndsWith(num, plan, factorized, reference, maxRounds, rounds, s, a, v, p)
    requires EndsWith(num, plan, factorized, reference, maxRounds, rounds, s', b, w, q)
    ensures a == b && v == w && p == q
  {
    EmptyAlike(s.frontier, s'.frontier);
    var frontier := SetOf(s.frontier);
    if IsStuck(num, plan, s) {
      StuckCannotAdvance(num, plan, s, frontier, q);
    }
    if IsStuck(num, plan, s') {
      StuckCannotAdvance(num, plan, s', frontier, p);
    }
    if IsQuiet(num, plan, s, p) && IsQuiet(num, plan, s', q) {
      QuietIsUnmoved(num, plan, s, frontier, p, q);
    }
  }

  lemma NotShorter<V(!new)>(
      num: Numbers<V>, ir: IslandIr<V>, plan: DiscretePlan, factorized: seq<V>, reference: seq<V>, maxRounds: nat,
      a: seq<ClosureState<V>>, b: seq<ClosureState<V>>, n: nat, m: nat, outcome: Outcome, v: seq<V>, p: seq<V>)
    requires ir.WellFormed() && |a| == n + 1 && |b| == m + 1 && SameState(a[0], b[0]) && m <= maxRounds
    requires Runs(num, ir, plan, factorized, reference, a) && Runs(num, ir, plan, factorized, reference, b)
    requires EndsAt(num, plan, factorized, reference, maxRounds, a, n, outcome, v, p)
    ensures n >= m
  {
    if n < m {
      RoundsAreDeterministic(num, ir, plan, factorized, reference);
      TracesAgree(RoundOf(num, ir, plan, factorized, reference), SameStates<V>(), a, b, n);
      assert StepAt(RoundOf(num, ir, plan, factorized, reference), b, n + 1);
      StepsDoNotEnd(num, ir, plan, factorized, reference, maxRounds, n, a[n], b[n], b[n + 1], outcome, v, p);
    }
  }

  /** What a run does is determined by where it starts: two runs from one workspace, one vector of
      predictions and one set of frontier drivers make the same rounds and end alike. */
  lemma RunIsDetermined<V(!new)>(
      num: Numbers<V>, ir: IslandIr<V>, plan: DiscretePlan, factorized: seq<V>, reference: seq<V>, maxRounds: nat,
      a: seq<ClosureState<V>>, b: seq<ClosureState<V>>, outcome: Outcome, outcome': Outcome,
      v: seq<V>, w: seq<V>, p: seq<V>, q: seq<V>)
    requires ir.WellFormed() && a != [] && b != [] && SameState(a[0], b[0])
    requires IsRun(num, ir, plan, factorized, reference, maxRounds, a, outcome, v, p)
    requires IsRun(num, ir, plan, factorized, reference, maxRounds, b, outcome', w, q)
    ensures |a| == |b| && outcome == outcome' && v == w && p == q
    ensures forall i | 0 <= i < |a| :: SameState(a[i], b[i])
  {
    var n :| 0 <= n <= maxRounds && EndsAt(num, plan, factorized, reference, maxRounds, a, n, outcome, v, p);
    var m :| 0 <= m <= maxRounds && EndsAt(num, plan, factorized, reference, maxRounds, b, m, outcome', w, q);
    NotShorter(num, ir, plan, factorized, reference, maxRounds, a, b, n, m, outcome, v, p);
    NotShorter(num, ir, plan, factorized, reference, maxRounds, b, a, m, n, outcome', w, q);
    RoundsAreDeterministic(num, ir, plan, factorized, reference);
    forall i | 0 <= i < |a| ensures SameState(a[i], b[i]) {
      TracesAgree(RoundOf(num, ir, plan, factorized, reference), SameStates<V>(), a, b, i);
      assert SameStates<V>()(a[i], b[i]);
    }
    EndIsDetermined(num, plan, factorized, reference, maxRounds, n, a[n], b[n], outcome, outcome', v, w, p, q);
  }

  lemma RoundAt<V>(
      num: Numbers<V>, ir: IslandIr<V>, plan: DiscretePlan, factorized: seq<V>, reference: seq<V>,
      trace: seq<ClosureState<V>>, i: nat)
    requires ir.WellFormed() && Runs(num, ir, plan, factorized, reference, trace)
    ensures 0 < i < |trace| ==> Rounds(num, ir, plan, factorized, reference, trace[i - 1], trace[i])
  {
    if 0 < i < |trace| {
      assert StepAt(RoundOf(num, ir, plan, factorized, reference), trace, i);
    }
  }

  /** A run from an empty frontier makes no round: it settles unless a barrier has changed. */
  lemma EmptyFrontierEnds<V>(
      num: Numbers<V>, ir: IslandIr<V>, plan: DiscretePlan, factorized: seq<V>, reference: seq<V>, maxRounds: nat,
      trace: seq<ClosureState<V>>, outcome: Outcome, values: seq<V>, predicted: seq<V>)
    requires ir.WellFormed() && trace != [] && trace[0].frontier == []
    requires IsRun(num, ir, plan, factorized, reference, maxRounds, trace, outcome, values, predicted)
    ensures |trace| == 1 && values == trace[0].values && predicted == trace[0].predicted
    ensures outcome == if BarriersChanged(num, plan, values, factorized, reference) then Barrier else Settled
  {
    RoundAt(num, ir, plan, factorized, reference, trace, 1);
  }

  /** A run in which no frontier driver can move its output settles in the first round. */
  lemma QuietFrontierSettles<V>(
      num: Numbers<V>, ir: IslandIr<V>, plan: DiscretePlan, factorized: seq<V>, reference: seq<V>, maxRounds: nat,
      trace: seq<ClosureState<V>>, outcome: Outcome, values: seq<V>, predicted: seq<V>, after: seq<V>)
    requires ir.WellFormed() && trace != [] && maxRounds > 0
    requires GoesOn(num, plan, factorized, reference, trace[0]) && IsQuiet(num, plan, trace[0], after)
    requires IsRun(num, ir, plan, factorized, reference, maxRounds, trace, outcome, values, predicted)
    ensures |trace| == 1 && outcome == Settled && values == trace[0].values && predicted == after
  {
    var s := trace[0];
    RoundAt(num, ir, plan, factorized, reference, trace, 1);
    if |trace| > 1 {
      QuietIsUnmoved(num, plan, s, SetOf(s.frontier), after, trace[1].predicted);
    }
    if IsStuck(num, plan, s) {
      StuckCannotAdvance(num, plan, s, SetOf(s.frontier), after);
    }
    if IsQuiet(num, plan, s, predicted) {
      QuietIsUnmoved(num, plan, s, SetOf(s.frontier), after, predicted);
    }
  }

  /** The budget is exceeded only after all its rounds, in each of which no barrier had changed and
      some output moved. */
  lemma ExceedingTakesAllRounds<V>(
      num: Numbers<V>, ir: IslandIr<V>, plan: DiscretePlan, factorized: seq<V>, reference: seq<V>, maxRounds: nat,
      trace: seq<ClosureState<V>>, values: seq<V>, predicted: seq<V>, i: nat)
    requires ir.WellFormed()
    requires IsRun(num, ir, plan, factorized, reference, maxRounds, trace, BudgetExceeded, values, predicted)
    ensures |trace| == maxRounds + 1 && trace[maxRounds].frontier != []
    ensures i < maxRounds ==> GoesOn(num, plan, factorized, reference, trace[i])
    ensures i < maxRounds ==>
              AnyMoved(num, plan.drivers, SetOf(trace[i].frontier), trace[i].predicted, trace[i + 1].predicted)
  {
    RoundAt(num, ir, plan, factorized, reference, trace, i + 1);
  }

  class DiscreteScratch<V(==,!new)> {
    const iteration: IterationScratch
    const outputs: array<V>
    const queued: array<nat>
    var currentFrontier: seq<nat>
    var nextFrontier: seq<nat>
    var generation: nat

    ghost predicate Valid()
      reads this, queued
    {
      && outputs.Length == queued.Length
      && generation < U32_LIMIT && (forall d | 0 <= d < queued.Length :: queued[d] <= generation)
      && IsFrontier(currentFrontier, queued.Length)
    }

    /** `next_frontier` lists, once each, the drivers queued in this generation. */
    ghost predicate Queueing()
      reads this, queued
    {
      && Valid() && IsFrontier(nextFrontier, queued.Length)
      && forall d | 0 <= d < queued.Length :: d in nextFrontier <==> queued[d] == generation
    }

    constructor (plan: DiscretePlan, zero: V)
      ensures Valid() && queued.Length == |plan.drivers| && currentFrontier == []
      ensures iteration.Valid() && iteration.Dirty() == {}
        && iteration.operationCount == plan.iterationDependencies.operationCount
      ensures fresh(iteration) && fresh(iteration.dirtyWords) && fresh(outputs) && fresh(queued)
    {
      iteration := new IterationScratch(plan.iterationDependencies);
      outputs := new V[|plan.drivers|](_ => zero);
      queued := new nat[|plan.drivers|](_ => 0);
      currentFrontier, nextFrontier, generation := [], [], 0;
    }

    method BeginNextFrontier()
      requires Valid()
      modifies this`nextFrontier, this`generation, queued
      ensures Queueing() && nextFrontier == []
    {
      nextFrontier := [];
      generation := (generation + 1) % U32_LIMIT;
      if generation == 0 {
        forall d | 0 <= d < queued.Length { queued[d] := 0; }
        generation := 1;
      }
    }

    method QueueDependent(driver: nat)
      requires Queueing() && driver < queued.Length
      modifies this`nextFrontier, queued
      ensures Queueing() && SetOf(nextFrontier) == old(SetOf(nextFrontier)) + {driver}
    {
      if queued[driver] == generation {
        assert driver in nextFrontier;
        assert SetOf(nextFrontier) == old(SetOf(nextFrontier)) + {driver};
        return;
      }
      queued[driver] := generation;
      nextFrontier := nextFrontier + [driver];
      assert SetOf(nextFrontier) == old(SetOf(nextFrontier)) + {driver};
    }

    method QueueAll(row: seq<nat>)
      requires Queueing() && forall d | d in row :: d < queued.Length
      modifies this`nextFrontier, queued
      ensures Queueing() && SetOf(nextFrontier) == old(SetOf(nextFrontier)) + SetOf(row)
    {
      for i := 0 to |row|
        invariant Queueing() && SetOf(nextFrontier) == old(SetOf(nextFrontier)) + SetOf(row[..i])
      {
        assert row[i] in row && row[..i + 1] == row[..i] + [row[i]];
        assert SetOf(row[..i + 1]) == SetOf(row[..i]) + {row[i]};
        QueueDependent(row[i]);
      }
      assert row[..|row|] == row;
    }

    /** The first half of a round: a finite prediction for every frontier driver, or none at all. */
    method PredictFrontier(
        num: Numbers<V>, plan: DiscretePlan, values: array<V>, predicted: array<V>) returns (valid: bool)
      requires Valid() && outputs.Length == |plan.drivers| && outputs != values && outputs != predicted
      requires DriversFit(plan.drivers, values.Length)
      requires forall d | 0 <= d < |plan.drivers| :: RailsFit(plan.drivers[d], predicted.Length)
      modifies outputs
      ensures valid ==> forall d | d in currentFrontier ::
                d < |plan.drivers| && PredictsTo(num, plan.drivers[d], values[..], predicted[..], Some(outputs[d]))
      ensures !valid ==>
        exists d ::
        d in currentFrontier && d < |plan.drivers| && PredictsTo(num, plan.drivers[d], values[..], predicted[..], None)
    {
      for i := 0 to |currentFrontier|
        invariant forall j | 0 <= j < i :: currentFrontier[j] < |plan.drivers| &&
                    PredictsTo(num, plan.drivers[currentFrontier[j]], values[..], predicted[..],
                      Some(outputs[currentFrontier[j]]))
      {
        var d := currentFrontier[i];
        assert d in currentFrontier && RailsFit(plan.drivers[d], predicted.Length);
        var driver := plan.drivers[d];
        var high := if driver.highRail.Some? then predicted[driver.highRail.value] else num.ar.zero;
        var low := if driver.lowRail.Some? then predicted[driver.lowRail.value] else num.ar.zero;
        var output := Blend(num, values[driver.pullUp], values[driver.pullDown], high, low);
        assert PredictsTo(num, driver, values[..], predicted[..], output);
        if output.None? {
          return false;
        }
        outputs[d] := output.value;
      }
      return true;
    }

    /** Write one prediction, and queue the driver's dependents if its output moved. */
    method ApplyOne(num: Numbers<V>, ghost ir: IslandIr<V>, plan: DiscretePlan, predicted: array<V>, i: nat,
                    ghost before: seq<V>, changed: bool)
      returns (nowChanged: bool)
      requires Queueing() && i < |currentFrontier| && outputs.Length == |plan.drivers| && outputs != predicted
      requires predicted as object != queued && outputs as object != queued
      requires |before| == predicted.Length && IsPlan(ir, plan, |before|)
      requires Applied(num, plan, currentFrontier, i, outputs[..], before, predicted[..], changed, nextFrontier)
      modifies predicted, this`nextFrontier, queued
      ensures Queueing()
      ensures Applied(num, plan, currentFrontier, i + 1, outputs[..], before, predicted[..], nowChanged, nextFrontier)
    {
      ghost var older, queue := predicted[..], nextFrontier;
      ApplyStep(num, ir, plan, currentFrontier, i, outputs[..], before, older, changed, queue, queue);
      var d := currentFrontier[i];
      var u, x := plan.drivers[d].output, outputs[d];
      nowChanged := changed;
      if !num.equal(predicted[u], x) {
        nowChanged := true;
        QueueAll(plan.DependentsFor(d));
        ApplyStep(num, ir, plan, currentFrontier, i, outputs[..], before, older, changed, queue, nextFrontier);
      }
      predicted[u] := x;
      assert predicted[..] == older[u := x];
    }

    /** The second half: write the predictions, and queue the dependents of every output that moved. */
    method ApplyFrontier(
        num: Numbers<V>, ghost ir: IslandIr<V>, plan: DiscretePlan, predicted: array<V>) returns (changed: bool)
      requires Valid() && outputs.Length == |plan.drivers| && outputs != predicted
      requires predicted as object != queued && outputs as object != queued
      requires IsPlan(ir, plan, predicted.Length)
      modifies predicted, this`nextFrontier, this`generation, queued
      ensures Queueing()
      ensures Applied(num, plan, currentFrontier, |currentFrontier|, outputs[..], old(predicted[..]), predicted[..],
        changed, nextFrontier)
    {
      BeginNextFrontier();
      changed := false;
      for i := 0 to |currentFrontier|
        invariant Queueing()
        invariant Applied(num, plan, currentFrontier, i, outputs[..], old(predicted[..]), predicted[..], changed,
          nextFrontier)
      {
        changed := ApplyOne(num, ir, plan, predicted, i, old(predicted[..]), changed);
      }
    }

    /** `evaluate_changed_iteration`: set and mark the inputs whose bits changed, then re-evaluate
        incrementally. */
    method Refresh(
        num: Numbers<V>, ir: IslandIr<V>, plan: DiscretePlan, values: array<V>, predicted: array<V>,
        ghost before: seq<V>)
      requires Valid() && queued.Length == |plan.drivers| && |before| == predicted.Length && IsPlan(ir, plan, |before|)
      requires values.Length == ir.SlotCount() && values != predicted && iteration.dirtyWords as object != values
      requires iteration.dirtyWords as object != queued && iteration.dirtyWords as object != predicted
      requires values as object != queued
      requires iteration.Valid() && iteration.Dirty() == {}
      requires iteration.operationCount == plan.iterationDependencies.operationCount
      requires ValueIr.Settled(num.ar, ir.program.iterationOps, values[..]) && Reflects(ir, values[..], before)
      requires Advances(num, plan.drivers, SetOf(currentFrontier), values[..], before, predicted[..])
      modifies values, iteration, iteration.dirtyWords
      ensures SameTick(num.ar, ir, old(values[..]), values[..]) && Reflects(ir, values[..], predicted[..])
      ensures iteration.Valid() && iteration.Dirty() == {}
    {
      ghost var ops, start, after := ir.program.iterationOps, values[..], predicted[..];
      for i := 0 to |currentFrontier|
        invariant iteration.Valid() && ConsistentOutside(num.ar, ops, values[..], iteration.Dirty())
        invariant Refreshing(ir, plan, currentFrontier, i, start, values[..], after)
      {
        RefreshDriver(num, ir, plan, values, predicted, i, start);
      }
      ghost var changed := values[..];
      var _, _ := ExecuteIterationIncremental(num.ar, ir.program, plan.iterationDependencies, values, iteration);
      EvaluatedRefresh(num, ir, plan, currentFrontier, start, changed, before, after);
    }

    method RefreshDriver(
        num: Numbers<V>, ghost ir: IslandIr<V>, plan: DiscretePlan, values: array<V>, predicted: array<V>, i: nat,
        ghost start: seq<V>)
      requires Valid() && queued.Length == |plan.drivers| && IsPlan(ir, plan, predicted.Length) && i < |currentFrontier|
      requires values.Length == ir.SlotCount() && values != predicted && iteration.dirtyWords as object != values
      requires iteration.dirtyWords as object != predicted
      requires iteration.Valid() && iteration.operationCount == plan.iterationDependencies.operationCount
      requires ConsistentOutside(num.ar, ir.program.iterationOps, values[..], iteration.Dirty())
      requires Refreshing(ir, plan, currentFrontier, i, start, values[..], predicted[..])
      modifies values, iteration, iteration.dirtyWords
      ensures iteration.Valid() && ConsistentOutside(num.ar, ir.program.iterationOps, values[..], iteration.Dirty())
      ensures Refreshing(ir, plan, currentFrontier, i + 1, start, values[..], predicted[..])
    {
      var d := currentFrontier[i];
      if plan.outputInputs[d].None? {
        return;
      }
      var slot := plan.outputInputs[d].value;
      ghost var current := values[..];
      RefreshOne(ir, plan, currentFrontier, i, start, current, predicted[..], slot);
      var x := predicted[plan.drivers[d].output];
      if values[slot] != x {
        InputWriteDirtiesUsers(num.ar, ir.program.iterationOps, current, iteration.Dirty(), slot, x);
        values[slot] := x;
        assert values[..] == current[slot := x];
        iteration.MarkUsers(plan.iterationDependencies, ir.program.iterationOps, slot);
      } else {
        assert current[slot := x] == current;
      }
    }

    /** `prepare_discrete_closure_frontier`: the frontier becomes exactly the seeded drivers. */
    method PrepareFrontier(
        num: Numbers<V>, ghost ir: IslandIr<V>, stability: seq<nat>, plan: DiscretePlan, values: array<V>,
        expected: seq<V>)
      returns (changed: bool)
      requires Valid() && queued.Length == |plan.drivers| && stability == ir.stabilityValues
        && |expected| == |stability|
      requires ir.WellFormed() && values.Length == ir.SlotCount()
      requires IsFrontierTable(ir, plan.drivers, plan.stabilityOffsets, plan.stabilityDependents, plan.conservative)
      requires values as object != queued
      modifies this`currentFrontier, this`nextFrontier, this`generation, queued
      ensures Valid() && changed == AnyStabilityMoved(num, ir, values[..], expected, |expected|)
      ensures changed ==> ListsSeeded(num, ir, plan, values[..], expected, |expected|, currentFrontier)
      ensures !changed ==> currentFrontier == []
    {
      currentFrontier := [];
      BeginNextFrontier();
      changed := false;
      assert forall d: nat :: !Seeded(num, ir, plan, values[..], expected, 0, d);
      for i := 0 to |expected|
        invariant Queueing() && currentFrontier == []
        invariant changed == AnyStabilityMoved(num, ir, values[..], expected, i)
        invariant ListsSeeded(num, ir, plan, values[..], expected, i, nextFrontier)
      {
        ghost var next := nextFrontier;
        assert stability[i] in ir.stabilityValues;
        SeedOne(num, ir, plan, values[..], expected, i, next, next);
        if num.equal(values[stability[i]], expected[i]) {
          continue;
        }
        assert Moved(num, ir, values[..], expected, i);
        if !changed {
          changed := true;
          QueueAll(plan.conservative);
        } else {
          AlreadySeeded(num, ir, plan, values[..], expected, i, next);
        }
        QueueAll(plan.StabilityDependentsFor(i));
        SeedOne(num, ir, plan, values[..], expected, i, next, nextFrontier);
      }
      if changed {
        currentFrontier, nextFrontier := nextFrontier, currentFrontier;
      } else {
        nextFrontier := [];
      }
    }

    /** The scratch fits the plan, and every array of the computation is a separate object. */
    ghost predicate Ready(ir: IslandIr<V>, plan: DiscretePlan, values: array<V>, predicted: array<V>)
      reads this, queued, iteration, iteration.dirtyWords
    {
      && Valid() && queued.Length == |plan.drivers| && IsPlan(ir, plan, predicted.Length)
        && values.Length == ir.SlotCount()
      && iteration.Valid() && iteration.Dirty() == {}
        && iteration.operationCount == plan.iterationDependencies.operationCount
      && outputs != values && outputs != predicted && values != predicted
      && outputs as object != queued && values as object != queued && predicted as object != queued
      && iteration.dirtyWords as object != values && iteration.dirtyWords as object != predicted
      && iteration.dirtyWords as object != outputs && iteration.dirtyWords as object != queued
    }

    /** One round after the barrier check: None to go on with the next frontier. */
    method Round(
        num: Numbers<V>, ghost like: (V, V) -> bool, ir: IslandIr<V>, plan: DiscretePlan, values: array<V>,
        predicted: array<V>)
      returns (outcome: Option<Outcome>)
      requires Ready(ir, plan, values, predicted) && Admissible(num, like, ir.program.iterationOps)
      requires Consistent(num, like, ir, plan, values[..], predicted[..], currentFrontier)
      modifies this`currentFrontier, this`nextFrontier, this`generation, outputs, queued, values, predicted
      modifies iteration, iteration.dirtyWords
      ensures Ready(ir, plan, values, predicted) && SameTick(num.ar, ir, old(values[..]), values[..])
      ensures OnlyOutputsDiffer(plan.drivers, old(predicted[..]), predicted[..])
      ensures outcome.None? || outcome == Some(Outcome.Settled) || outcome == Some(InvalidPrediction)
      ensures outcome.None? ==> Consistent(num, like, ir, plan, values[..], predicted[..], currentFrontier)
      ensures outcome == Some(Outcome.Settled) ==>
                values[..] == old(values[..]) && ClosureSettled(num, like, ir, plan, values[..], predicted[..])
      ensures outcome == Some(InvalidPrediction) ==>
                values[..] == old(values[..]) && predicted[..] == old(predicted[..])
                && IsStuck(num, plan, ClosureState(values[..], predicted[..], old(currentFrontier)))
      ensures outcome.None? ==>
                Steps(num, ir, plan, ClosureState(old(values[..]), old(predicted[..]), old(currentFrontier)),
                      ClosureState(values[..], predicted[..], currentFrontier))
      ensures outcome == Some(Outcome.Settled) ==>
                IsQuiet(num, plan, ClosureState(old(values[..]), old(predicted[..]), old(currentFrontier)), predicted[..])
    {
      ghost var before, start := predicted[..], values[..];
      var valid := PredictFrontier(num, plan, values, predicted);
      if !valid {
        return Some(InvalidPrediction);
      }
      ghost var frontier, expected := SetOf(currentFrontier), outputs[..];
      var changed := ApplyFrontier(num, ir, plan, predicted);
      AdvancingEndsAdvanced(num, plan.drivers, currentFrontier, start, expected, before, predicted[..]);
      AdvancesOnlyOutputs(num, plan.drivers, frontier, start, before, predicted[..]);
      assert currentFrontier[..|currentFrontier|] == currentFrontier;
      if !changed {
        UnmovedRoundSettles(num, like, ir, plan, frontier, start, before, predicted[..]);
        UnmovedReflects(num, like, ir, plan, frontier, start, before, predicted[..]);
        return Some(Outcome.Settled);
      }
      Refresh(num, ir, plan, values, predicted, before);
      RoundIsConsistent(num, like, ir, plan, frontier, start, values[..], before, predicted[..], nextFrontier);
      currentFrontier, nextFrontier := nextFrontier, currentFrontier;
      return None;
    }

    /** The outcome once no driver is left to predict. */
    method EndEmpty(
        num: Numbers<V>, ghost like: (V, V) -> bool, ghost ir: IslandIr<V>, plan: DiscretePlan, values: array<V>,
        ghost predicted: seq<V>, factorized: seq<V>, reference: seq<V>, ghost maxRounds: nat, ghost rounds: nat)
      returns (outcome: Outcome)
      requires Admissible(num, like, ir.program.iterationOps) && BarriersFit(plan, factorized, reference)
      requires IsPlan(ir, plan, |predicted|) && values.Length == ir.SlotCount() && currentFrontier == []
      requires Consistent(num, like, ir, plan, values[..], predicted, currentFrontier)
      ensures outcome == Outcome.Settled ==> ClosureSettled(num, like, ir, plan, values[..], predicted)
      ensures EndsWith(num, plan, factorized, reference, maxRounds, rounds,
                       ClosureState(values[..], predicted, []), outcome, values[..], predicted)
    {
      var changed := CheckBarriers(num, plan, values, factorized, reference);
      EmptyFrontierSettles(num, like, ir, plan, values[..], predicted, currentFrontier);
      return if changed then Barrier else Outcome.Settled;
    }

    /** Check the barriers and make one round. */
    method NextRound(
        num: Numbers<V>, ghost like: (V, V) -> bool, ir: IslandIr<V>, plan: DiscretePlan, values: array<V>,
        predicted: array<V>, factorized: seq<V>, reference: seq<V>, ghost maxRounds: nat, ghost rounds: nat)
      returns (outcome: Option<Outcome>)
      requires Ready(ir, plan, values, predicted) && Admissible(num, like, ir.program.iterationOps)
      requires BarriersFit(plan, factorized, reference) && currentFrontier != [] && rounds < maxRounds
      requires Consistent(num, like, ir, plan, values[..], predicted[..], currentFrontier)
      modifies this`currentFrontier, this`nextFrontier, this`generation, outputs, queued, values, predicted
      modifies iteration, iteration.dirtyWords
      ensures Ready(ir, plan, values, predicted) && SameTick(num.ar, ir, old(values[..]), values[..])
      ensures OnlyOutputsDiffer(plan.drivers, old(predicted[..]), predicted[..])
      ensures outcome.None? ==>
                && Consistent(num, like, ir, plan, values[..], predicted[..], currentFrontier)
                && Rounds(num, ir, plan, factorized, reference,
                          ClosureState(old(values[..]), old(predicted[..]), old(currentFrontier)),
                          ClosureState(values[..], predicted[..], currentFrontier))
      ensures outcome.Some? ==>
                && outcome.value != BudgetExceeded
                && EndsWith(num, plan, factorized, reference, maxRounds, rounds,
                            ClosureState(old(values[..]), old(predicted[..]), old(currentFrontier)), outcome.value,
                            values[..], predicted[..])
      ensures outcome == Some(Outcome.Settled) ==> ClosureSettled(num, like, ir, plan, values[..], predicted[..])
      ensures outcome == Some(Barrier) ==> Consistent(num, like, ir, plan, values[..], predicted[..], currentFrontier)
    {
      var changed := CheckBarriers(num, plan, values, factorized, reference);
      if changed {
        return Some(Barrier);
      }
      outcome := Round(num, like, ir, plan, values, predicted);
    }

    /** One turn of the loop: a round, and the end of the run if it leaves nothing to predict. `last`
        and `rounds'` are the state that the turn comes to, and how many rounds were made before it. */
    method Turn(
        num: Numbers<V>, ghost like: (V, V) -> bool, ir: IslandIr<V>, plan: DiscretePlan, values: array<V>,
        predicted: array<V>, factorized: seq<V>, reference: seq<V>, ghost maxRounds: nat, ghost rounds: nat,
        ghost first: ClosureState<V>)
      returns (outcome: Option<Outcome>, ghost last: ClosureState<V>, ghost rounds': nat)
      requires Ready(ir, plan, values, predicted) && Admissible(num, like, ir.program.iterationOps)
      requires BarriersFit(plan, factorized, reference) && currentFrontier != [] && rounds < maxRounds
      requires Consistent(num, like, ir, plan, values[..], predicted[..], currentFrontier)
      requires first == ClosureState(values[..], predicted[..], currentFrontier)
      modifies this`currentFrontier, this`nextFrontier, this`generation, outputs, queued, values, predicted
      modifies iteration, iteration.dirtyWords
      ensures Ready(ir, plan, values, predicted) && SameTick(num.ar, ir, old(values[..]), values[..])
      ensures OnlyOutputsDiffer(plan.drivers, old(predicted[..]), predicted[..])
      ensures || (rounds' == rounds && last == first)
              || (rounds' == rounds + 1 && Rounds(num, ir, plan, factorized, reference, first, last))
      ensures outcome.None? ==>
                && rounds' == rounds + 1 && currentFrontier != []
                && last == ClosureState(values[..], predicted[..], currentFrontier)
                && Consistent(num, like, ir, plan, values[..], predicted[..], currentFrontier)
      ensures outcome.Some? ==>
                EndsWith(num, plan, factorized, reference, maxRounds, rounds', last, outcome.value, values[..],
                         predicted[..])
      ensures outcome == Some(Outcome.Settled) ==> ClosureSettled(num, like, ir, plan, values[..], predicted[..])
      ensures outcome == Some(Barrier) || outcome == Some(BudgetExceeded) ==>
                Consistent(num, like, ir, plan, values[..], predicted[..], currentFrontier)
    {
      last, rounds' := first, rounds;
      outcome := NextRound(num, like, ir, plan, values, predicted, factorized, reference, maxRounds, rounds);
      if outcome.None? {
        last, rounds' := ClosureState(values[..], predicted[..], currentFrontier), rounds + 1;
        if currentFrontier == [] {
          var end := EndEmpty(num, like, ir, plan, values, last.predicted, factorized, reference, maxRounds, rounds');
          assert values[..] == last.values && predicted[..] == last.predicted;
          outcome := Some(end);
        }
      }
    }

    /** `run_seeded_evaluated_with_limit`. `trace` lists the states before every round and the one
        in which the run ends. */
    method Run(
        num: Numbers<V>, ghost like: (V, V) -> bool, ir: IslandIr<V>, plan: DiscretePlan, values: array<V>,
        predicted: array<V>, factorized: seq<V>, reference: seq<V>, maxRounds: nat)
      returns (outcome: Outcome, ghost trace: seq<ClosureState<V>>)
      requires Ready(ir, plan, values, predicted) && Admissible(num, like, ir.program.iterationOps)
      requires BarriersFit(plan, factorized, reference)
      requires Consistent(num, like, ir, plan, values[..], predicted[..], currentFrontier)
      modifies this`currentFrontier, this`nextFrontier, this`generation, outputs, queued, values, predicted
      modifies iteration, iteration.dirtyWords
      ensures Ready(ir, plan, values, predicted) && SameTick(num.ar, ir, old(values[..]), values[..])
      ensures OnlyOutputsDiffer(plan.drivers, old(predicted[..]), predicted[..])
      ensures outcome == Outcome.Settled ==> ClosureSettled(num, like, ir, plan, values[..], predicted[..])
      ensures outcome == Barrier || outcome == BudgetExceeded ==>
                Consistent(num, like, ir, plan, values[..], predicted[..], currentFrontier)
      ensures IsRun(num, ir, plan, factorized, reference, maxRounds, trace, outcome, values[..], predicted[..])
      ensures trace != [] && trace[0] == ClosureState(old(values[..]), old(predicted[..]), old(currentFrontier))
    {
      ghost var last := ClosureState(values[..], predicted[..], currentFrontier);
      trace := [last];
      if currentFrontier == [] {
        outcome := EndEmpty(num, like, ir, plan, values, last.predicted, factorized, reference, maxRounds, 0);
        assert values[..] == last.values && predicted[..] == last.predicted;
        assert EndsAt(num, plan, factorized, reference, maxRounds, trace, 0, outcome, values[..], predicted[..]);
        return;
      }
      for round := 0 to maxRounds
        invariant Ready(ir, plan, values, predicted) && SameTick(num.ar, ir, old(values[..]), values[..])
        invariant OnlyOutputsDiffer(plan.drivers, old(predicted[..]), predicted[..])
        invariant Consistent(num, like, ir, plan, values[..], predicted[..], currentFrontier)
        invariant Runs(num, ir, plan, factorized, reference, trace) && |trace| == round + 1
        invariant trace[0] == ClosureState(old(values[..]), old(predicted[..]), old(currentFrontier))
        invariant trace[round] == last && last.frontier == currentFrontier != []
        invariant last.values == values[..] && last.predicted == predicted[..]
      {
        ghost var first, made := last, 0;
        var result;
        result, last, made := Turn(num, like, ir, plan, values, predicted, factorized, reference, maxRounds, round, first);
        if made > round {
          RunGrows(num, ir, plan, factorized, reference, trace, first, last);
          trace := trace + [last];
        }
        if result.Some? {
          outcome := result.value;
          assert EndsAt(num, plan, factorized, reference, maxRounds, trace, made, outcome, values[..], predicted[..]);
          return;
        }
      }
      outcome := BudgetExceeded;
      assert EndsAt(num, plan, factorized, reference, maxRounds, trace, maxRounds, outcome, values[..], predicted[..]);
    }
  }
}
