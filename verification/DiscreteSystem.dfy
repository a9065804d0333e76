// What a discrete plan promises about the linear system A x = b of its island: the rows of its drivers, what barriers
// hold in place, and that a settled closure solves the driver rows of the new system. Over exact arithmetic.
module DiscreteSystem {
  import opened Support
  import opened Canonical
  import opened DiscreteRows
  import opened DiscretePlanner
  import opened DiscreteClosure
  import ValueIr
  import DiscreteGraph

  ghost predicate Describes(island: Island, candidates: seq<Candidate>, plan: DiscretePlan) {
    island.WellFormed() && DescribesIsland(island, PlacedTerms(island), candidates, plan)
  }

  /** The drivers of the plan, as the candidates they were. */
  ghost function Planned(island: Island, candidates: seq<Candidate>): seq<Candidate>
    requires island.WellFormed()
  {
    Qualified(island, PlacedTerms(island), candidates, candidates)
  }

  lemma PlannedQualify(island: Island, candidates: seq<Candidate>)
    requires island.WellFormed()
    ensures forall c | c in Planned(island, candidates) :: Qualifies(island, PlacedTerms(island), candidates, c)
  {
    QualifiedAreDistinct(island, PlacedTerms(island), candidates, |candidates|);
    assert candidates[..|candidates|] == candidates;
  }

  // ----- The rows of planned drivers -----

  function AsCandidate(driver: DiscreteGraph.Driver): Candidate {
    Candidate(Some(driver.output), driver.highRail, driver.lowRail, driver.pullUp, driver.pullDown)
  }

  /** In every workspace, the row of a planned driver in the assembled system A x = b is exactly
      pullUp * (x_out - x_high) + pullDown * (x_out - x_low) = 0. */
  lemma PlannedRowIsPullCurrent(
      island: Island, candidates: seq<Candidate>, plan: DiscretePlan, d: nat, values: seq<real>, x: seq<real>)
    requires Describes(island, candidates, plan) && d < |plan.drivers|
    ensures RowTimes(PlacedTerms(island), values, plan.drivers[d].output, x, island.pattern.Dimension())
            == PullCurrent(AsCandidate(plan.drivers[d]), values, x)
    ensures Contribution(island.rhs.ops, values, plan.drivers[d].output) == 0.0
  {
    var c := Planned(island, candidates)[d];
    PlannedQualify(island, candidates);
    assert c in Planned(island, candidates) && RailsFit(plan.drivers[d], island.pattern.Dimension());
    MatchingRowIsPullCurrent(PlacedTerms(island), c, values, x, island.pattern.Dimension());
    NoRhsNoContribution(island.rhs.ops, values, c.output.value);
  }

  lemma {:induction false} NoRhsNoContribution(ops: seq<Term>, values: seq<real>, row: nat)
    requires forall i | 0 <= i < |ops| :: ops[i].key.first != row
    ensures Contribution(ops, values, row) == 0.0
  {
    if ops != [] {
      NoRhsNoContribution(ops[..|ops| - 1], values, row);
    }
  }

  // ----- Barriers -----

  lemma PushWeight(row: Option<nat>, column: Option<nat>, source: nat, scale: real, key: Key)
    ensures Weight(PushTerm(row, column, source, scale), key) ==
            if row == Some(key.third) && column == Some(key.second) && source == key.first then scale else 0.0
  {
  }

  lemma FootprintWeight(a: Option<nat>, b: Option<nat>, source: nat, key: Key)
    ensures Weight(Footprint(a, b, source), key) ==
            Weight(PushTerm(a, a, source, 1.0), key) + Weight(PushTerm(b, a, source, -1.0), key)
            + Weight(PushTerm(a, b, source, -1.0), key) + Weight(PushTerm(b, b, source, 1.0), key)
  {
    var p, q := PushTerm(a, a, source, 1.0), PushTerm(b, a, source, -1.0);
    var r, s := PushTerm(a, b, source, -1.0), PushTerm(b, b, source, 1.0);
    WeightOfConcat(p, q, key);
    WeightOfConcat(p + q, r, key);
    WeightOfConcat(p + q + r, s, key);
  }

  /** The diagonal entry that a conductance gives to one of its ends. */
  lemma DiagonalWeight(a: Option<nat>, b: Option<nat>, source: nat, key: Key)
    requires key.second == key.third && a != b && (a == Some(key.third) || b == Some(key.third))
    ensures Weight(Footprint(a, b, source), key) == if source == key.first then 1.0 else 0.0
  {
    FootprintWeight(a, b, source, key);
    PushWeight(a, a, source, 1.0, key);
    PushWeight(b, a, source, -1.0, key);
    PushWeight(a, b, source, -1.0, key);
    PushWeight(b, b, source, 1.0, key);
  }

  /** Each pull of a driver stands on the diagonal of its own row, so it sources the matrix. */
  lemma PullsSourceMatrix(island: Island, candidates: seq<Candidate>, c: Candidate, slot: nat)
    requires island.WellFormed() && Qualifies(island, PlacedTerms(island), candidates, c)
    requires slot == c.pullUp || slot == c.pullDown
    ensures island.SourcesMatrix(slot)
  {
    var out := c.output.value;
    var key := Key(slot, out, out);
    DiagonalWeight(c.highRail, c.output, c.pullUp, key);
    DiagonalWeight(c.output, c.lowRail, c.pullDown, key);
    WeightOfConcat(Footprint(c.highRail, c.output, c.pullUp), Footprint(c.output, c.lowRail, c.pullDown), key);
    assert Weight(PlacedTerms(island), key) == Weight(DriverFootprint(c), key) > 0.0;
    if !island.SourcesMatrix(slot) {
      UnusedSourceHasNoTerm(island, key);
    }
  }

  lemma UnusedSourceHasNoTerm(island: Island, key: Key)
    requires island.WellFormed() && !island.SourcesMatrix(key.first)
    ensures Weight(PlacedTerms(island), key) == 0.0
  {
    var terms := PlacedTerms(island);
    forall i | 0 <= i < |terms| ensures terms[i].key != key {
      assert Places(island.pattern, island.matrix.ops[i], terms[i]);
    }
    AbsentKeyHasNoWeight(terms, key);
  }

  lemma OtherSourceHasNoWeight(a: Option<nat>, b: Option<nat>, source: nat, key: Key)
    requires key.first != source
    ensures Weight(Footprint(a, b, source), key) == 0.0
  {
    FootprintWeight(a, b, source, key);
    PushWeight(a, a, source, 1.0, key);
    PushWeight(b, a, source, -1.0, key);
    PushWeight(a, b, source, -1.0, key);
    PushWeight(b, b, source, 1.0, key);
  }

  lemma DriverHasOnlyPulls(c: Candidate, key: Key)
    requires key.first != c.pullUp && key.first != c.pullDown
    ensures Weight(DriverFootprint(c), key) == 0.0
  {
    OtherSourceHasNoWeight(c.highRail, c.output, c.pullUp, key);
    OtherSourceHasNoWeight(c.output, c.lowRail, c.pullDown, key);
    WeightOfConcat(Footprint(c.highRail, c.output, c.pullUp), Footprint(c.output, c.lowRail, c.pullDown), key);
  }

  lemma {:induction false} UnusedSourceHasNoFootprint(drivers: seq<Candidate>, key: Key)
    requires forall c | c in drivers :: key.first != c.pullUp && key.first != c.pullDown
    ensures Weight(Footprints(drivers), key) == 0.0
  {
    if drivers != [] {
      var n := |drivers| - 1;
      UnusedSourceHasNoFootprint(drivers[..n], key);
      assert drivers[n] in drivers;
      DriverHasOnlyPulls(drivers[n], key);
      WeightOfConcat(Footprints(drivers[..n]), DriverFootprint(drivers[n]), key);
    }
  }

  /** A slot that the matrix program does not read has no part in the footprints either. */
  lemma UnusedSourceMatches(island: Island, candidates: seq<Candidate>, slot: nat)
    requires island.WellFormed() && !island.SourcesMatrix(slot)
    ensures SourceMatches(PlacedTerms(island), Footprints(Planned(island, candidates)), slot)
  {
    PlannedQualify(island, candidates);
    forall c | c in Planned(island, candidates) ensures slot != c.pullUp && slot != c.pullDown {
      if slot == c.pullUp || slot == c.pullDown {
        PullsSourceMatrix(island, candidates, c, slot);
      }
    }
    forall key: Key | key.first == slot
      ensures Weight(PlacedTerms(island), key) == Weight(Footprints(Planned(island, candidates)), key)
    {
      UnusedSourceHasNoTerm(island, key);
      UnusedSourceHasNoFootprint(Planned(island, candidates), key);
    }
  }

  /** No barrier of the plan differs in the two workspaces. */
  ghost predicate SameBarriers(plan: DiscretePlan, v: seq<real>, w: seq<real>) {
    && (forall b | b in plan.matrixBarriers :: ValueAt(v, b.source) == ValueAt(w, b.source))
    && (forall s | s in plan.rhsBarriers :: ValueAt(v, s) == ValueAt(w, s))
  }

  /** Matrix entry `slot`, as the matrix program assembles it, moves by what the footprints of the plan move. */
  ghost predicate MovesByFootprints(
      island: Island, candidates: seq<Candidate>, v: seq<real>, w: seq<real>, slot: nat, row: nat, column: nat)
    requires island.WellFormed()
  {
    var footprints := Footprints(Planned(island, candidates));
    Contribution(island.matrix.ops, v, slot) - Contribution(island.matrix.ops, w, slot)
    == Entry(footprints, v, row, column) - Entry(footprints, w, row, column)
  }

  lemma BarrierIsListed(
      sources: seq<nat>, terms: seq<Term>, footprints: seq<Term>, barriers: seq<MatrixBarrier>, k: nat)
    requires IsBarrierList(sources, terms, footprints, |sources|, barriers) && k < |sources|
    ensures SourceMatches(terms, footprints, sources[k]) || MatrixBarrier(sources[k], k) in barriers
  {
    if !SourceMatches(terms, footprints, sources[k]) {
      assert IsBarrier(sources, terms, footprints, MatrixBarrier(sources[k], k));
    }
  }

  lemma MatchedOrSame(
      island: Island, candidates: seq<Candidate>, plan: DiscretePlan, v: seq<real>, w: seq<real>, slot: nat)
    requires Describes(island, candidates, plan) && SameBarriers(plan, v, w)
    requires island.SourcesMatrix(slot) && slot !in island.iterationMatrixSources ==>
      ValueAt(v, slot) == ValueAt(w, slot)
    ensures SourceMatches(PlacedTerms(island), Footprints(Planned(island, candidates)), slot)
      || ValueAt(v, slot) == ValueAt(w, slot)
  {
    var sources := island.iterationMatrixSources;
    if !island.SourcesMatrix(slot) {
      UnusedSourceMatches(island, candidates, slot);
    } else if k :| 0 <= k < |sources| && sources[k] == slot {
      BarrierIsListed(sources, PlacedTerms(island), Footprints(Planned(island, candidates)), plan.matrixBarriers, k);
    }
  }

  /** While no barrier changes and no matrix source outside the iteration does, the assembled matrix moves only by the
      planned footprints, and the right-hand side does not move at all. Nothing is asked of any other slot. */
  lemma BarriersHoldTheSystem(
      island: Island, candidates: seq<Candidate>, plan: DiscretePlan, v: seq<real>, w: seq<real>, slot: nat, row: nat,
      column: nat)
    requires Describes(island, candidates, plan) && |v| == |w| && SameBarriers(plan, v, w)
    requires forall s: nat | island.SourcesMatrix(s) && s !in island.iterationMatrixSources ::
      ValueAt(v, s) == ValueAt(w, s)
    requires island.pattern.Stores(slot, row, column)
    ensures MovesByFootprints(island, candidates, v, w, slot, row, column)
    ensures Contribution(island.rhs.ops, v, row) == Contribution(island.rhs.ops, w, row)
  {
    var terms, footprints := PlacedTerms(island), Footprints(Planned(island, candidates));
    forall s: nat ensures SourceMatches(terms, footprints, s) || ValueAt(v, s) == ValueAt(w, s) {
      MatchedOrSame(island, candidates, plan, v, w, s);
    }
    BarriersAreSound(terms, footprints, v, w, row, column);
    EntryIsContribution(island.pattern, island.matrix.ops, terms, v, slot, row, column);
    EntryIsContribution(island.pattern, island.matrix.ops, terms, w, slot, row, column);
    BarriersHoldTheRhs(island, candidates, plan, v, w, row);
  }

  lemma BarriersHoldTheRhs(
      island: Island, candidates: seq<Candidate>, plan: DiscretePlan, v: seq<real>, w: seq<real>, row: nat)
    requires Describes(island, candidates, plan) && |v| == |w| && SameBarriers(plan, v, w)
    ensures Contribution(island.rhs.ops, v, row) == Contribution(island.rhs.ops, w, row)
  {
    forall i | 0 <= i < |island.rhs.ops| && island.rhs.ops[i].key.second < |v|
      ensures v[island.rhs.ops[i].key.second] == w[island.rhs.ops[i].key.second]
    {
      assert island.rhs.ops[i].key.second in plan.rhsBarriers;
    }
    RhsBarriersAreSound(island.rhs.ops, v, w, row);
  }

  /** In particular between two evaluated workspaces of one tick, however the solution inputs moved. */
  lemma BarriersHoldTheTick(
      ar: ValueIr.Arithmetic<real>, island: Island, candidates: seq<Candidate>, plan: DiscretePlan, v: seq<real>,
      w: seq<real>, slot: nat, row: nat, column: nat)
    requires Describes(island, candidates, plan) && island.ListsIterationSources() && SameBarriers(plan, v, w)
    requires DiscreteGraph.SameTick(ar, island.ir, v, w)
    requires island.pattern.Stores(slot, row, column)
    ensures MovesByFootprints(island, candidates, v, w, slot, row, column)
    ensures Contribution(island.rhs.ops, v, row) == Contribution(island.rhs.ops, w, row)
  {
    BarriersHoldTheSystem(island, candidates, plan, v, w, slot, row, column);
  }

  // ----- The closure over exact arithmetic -----

  function RealBinary(kind: ValueIr.BinaryKind, x: real, y: real): real {
    match kind
    case Add => x + y
    case Sub => x - y
    case Mul => x * y
    case Div => if y == 0.0 then 0.0 else x / y
    case LessEqual => if x <= y then 1.0 else 0.0
  }

  /** Exact arithmetic: numeric equality is identity and every number is finite. */
  function RealNumbers(): Numbers<real> {
    Numbers(ValueIr.Arithmetic(0.0, RealBinary, x => -x), (x, y) => x == y, _ => true)
  }

  ghost function Identity(): (real, real) -> bool {
    DiscreteGraph.Identical<real>()
  }

  lemma RealNumbersAreAdmissible(ops: seq<ValueIr.ValueOp>)
    ensures Admissible(RealNumbers(), Identity(), ops)
  {
    DiscreteGraph.IdentityIsRespected(RealNumbers().ar, ops);
    assert DiscreteGraph.BinaryRespects(RealNumbers().ar, Identity(), ValueIr.Add);
    assert DiscreteGraph.BinaryRespects(RealNumbers().ar, Identity(), ValueIr.Mul);
    assert DivisionRespects(RealNumbers(), Identity());
  }

  ghost predicate BlendsTo(c: Candidate, values: seq<real>, x: seq<real>) {
    Blend(RealNumbers(), ValueAt(values, c.pullUp), ValueAt(values, c.pullDown), Potential(x, c.highRail),
      Potential(x, c.lowRail))
    == Some(Potential(x, c.output))
  }

  lemma BlendOfReals(up: real, down: real, high: real, low: real)
    ensures Blend(RealNumbers(), up, down, high, low) ==
            if up + down == 0.0 then None else Some((up * high + down * low) / (up + down))
  {
  }

  lemma BalancedIsBlend(driver: DiscreteGraph.Driver, values: seq<real>, x: seq<real>)
    requires driver.pullUp < |values| && driver.pullDown < |values| && RailsFit(driver, |x|)
    ensures Balanced(RealNumbers(), Identity(), driver, values, x) <==> BlendsTo(AsCandidate(driver), values, x)
  {
    assert Voltage(RealNumbers(), x, driver.highRail) == Potential(x, driver.highRail);
    assert Voltage(RealNumbers(), x, driver.lowRail) == Potential(x, driver.lowRail);
  }

  /** The pulls of a driver conduct in a workspace. */
  ghost predicate Conducts(c: Candidate, values: seq<real>) {
    ValueAt(values, c.pullUp) + ValueAt(values, c.pullDown) != 0.0
  }

  /** A driver is balanced exactly when its pulls conduct and no current is left in its row. */
  lemma BalancedIffNoPullCurrent(driver: DiscreteGraph.Driver, values: seq<real>, x: seq<real>)
    requires driver.pullUp < |values| && driver.pullDown < |values| && RailsFit(driver, |x|)
    ensures Balanced(RealNumbers(), Identity(), driver, values, x) <==>
            Conducts(AsCandidate(driver), values) && PullCurrent(AsCandidate(driver), values, x) == 0.0
  {
    var c := AsCandidate(driver);
    BalancedIsBlend(driver, values, x);
    BlendOfReals(ValueAt(values, c.pullUp), ValueAt(values, c.pullDown), Potential(x, c.highRail),
      Potential(x, c.lowRail));
    if Conducts(c, values) {
      BlendSolvesRow(c, values, x);
    }
  }

  /** Row `output` of the system that is assembled from `values` holds for `x`. */
  ghost predicate SolvesRow(island: Island, driver: DiscreteGraph.Driver, values: seq<real>, x: seq<real>)
    requires island.WellFormed()
  {
    RowTimes(PlacedTerms(island), values, driver.output, x, island.pattern.Dimension())
    == Contribution(island.rhs.ops, values, driver.output)
  }

  /** Every driver row holds, and every driver's pulls conduct. */
  ghost predicate SolvesDriverRows(island: Island, plan: DiscretePlan, values: seq<real>, x: seq<real>)
    requires island.WellFormed()
  {
    forall d | 0 <= d < |plan.drivers| ::
      SolvesRow(island, plan.drivers[d], values, x) && Conducts(AsCandidate(plan.drivers[d]), values)
  }

  /** A driver is balanced exactly when its row of the system holds and its pulls conduct: what the closure predicts is
      what the linear solve demands. */
  lemma BalancedIffRowSolved(
      island: Island, candidates: seq<Candidate>, plan: DiscretePlan, d: nat, values: seq<real>, x: seq<real>)
    requires Describes(island, candidates, plan) && d < |plan.drivers|
    requires |values| == island.ir.SlotCount() && |x| == island.pattern.Dimension()
    ensures Balanced(RealNumbers(), Identity(), plan.drivers[d], values, x) <==>
            SolvesRow(island, plan.drivers[d], values, x) && Conducts(AsCandidate(plan.drivers[d]), values)
  {
    assert RailsFit(plan.drivers[d], |x|);
    PlannedRowIsPullCurrent(island, candidates, plan, d, values, x);
    BalancedIffNoPullCurrent(plan.drivers[d], values, x);
  }

  /** A settled closure solves every driver row of the new linear system at once. */
  lemma SettledClosureSolvesDriverRows(
      island: Island, candidates: seq<Candidate>, plan: DiscretePlan, values: seq<real>, predicted: seq<real>)
    requires Describes(island, candidates, plan) && |values| == island.ir.SlotCount()
      && |predicted| == island.pattern.Dimension()
    requires ClosureSettled(RealNumbers(), Identity(), island.ir, plan, values, predicted)
    ensures SolvesDriverRows(island, plan, values, predicted)
  {
    forall d | 0 <= d < |plan.drivers|
      ensures SolvesRow(island, plan.drivers[d], values, predicted) && Conducts(AsCandidate(plan.drivers[d]), values)
    {
      BalancedIffRowSolved(island, candidates, plan, d, values, predicted);
    }
  }

  // ----- One closure between two solves -----

  /** `reference` holds the values of `slots` in a workspace. */
  ghost predicate Captures(slots: seq<nat>, values: seq<real>, reference: seq<real>) {
    |reference| == |slots| && forall k | 0 <= k < |slots| :: Holds(values, slots[k], reference[k])
  }

  /** What is kept from the last solve: its workspace `solved` gave `solution`, and the matrix sources, the sources of
      the right-hand side and the stability values were captured from it. */
  ghost predicate Solved(island: Island, plan: DiscretePlan, solved: seq<real>, solution: seq<real>,
                         stability: seq<real>, factorized: seq<real>, reference: seq<real>)
    requires island.WellFormed()
  {
    && SolvesDriverRows(island, plan, solved, solution)
    && Captures(island.ir.stabilityValues, solved, stability)
    && Captures(island.iterationMatrixSources, solved, factorized)
    && Captures(plan.rhsBarriers, solved, reference)
  }

  lemma CapturedBarriersFit(
      island: Island, candidates: seq<Candidate>, plan: DiscretePlan, factorized: seq<real>, reference: seq<real>)
    requires Describes(island, candidates, plan)
    requires |factorized| == |island.iterationMatrixSources| && |reference| == |plan.rhsBarriers|
    ensures BarriersFit(plan, factorized, reference)
  {
    forall k | 0 <= k < |plan.matrixBarriers| ensures plan.matrixBarriers[k].factorizedIndex < |factorized| {
      assert plan.matrixBarriers[k] in plan.matrixBarriers;
    }
  }

  lemma UnchangedBarriersAreSame(island: Island, candidates: seq<Candidate>, plan: DiscretePlan, values: seq<real>,
                                 solved: seq<real>, factorized: seq<real>, reference: seq<real>)
    requires Describes(island, candidates, plan) && |values| == |solved| == island.ir.SlotCount()
    requires Captures(island.iterationMatrixSources, solved, factorized)
      && Captures(plan.rhsBarriers, solved, reference)
    requires !BarriersChanged(RealNumbers(), plan, values, factorized, reference)
    ensures SameBarriers(plan, values, solved)
  {
    forall b | b in plan.matrixBarriers ensures ValueAt(values, b.source) == ValueAt(solved, b.source) {
      var k :| 0 <= k < |plan.matrixBarriers| && plan.matrixBarriers[k] == b;
      assert !MatrixBarrierChanged(RealNumbers(), plan.matrixBarriers[k], values, factorized);
      assert Holds(solved, island.iterationMatrixSources[b.factorizedIndex], factorized[b.factorizedIndex]);
    }
    forall s | s in plan.rhsBarriers ensures ValueAt(values, s) == ValueAt(solved, s) {
      var k :| 0 <= k < |plan.rhsBarriers| && plan.rhsBarriers[k] == s;
      assert !RhsBarrierChanged(RealNumbers(), plan.rhsBarriers[k], values, reference, k);
      assert Holds(solved, plan.rhsBarriers[k], reference[k]);
    }
  }

  /** After a solve, the prepared frontier and the new workspace are where the closure may start. */
  lemma PreparedIsConsistent(
      island: Island, candidates: seq<Candidate>, plan: DiscretePlan, solved: seq<real>, values: seq<real>,
      solution: seq<real>, stability: seq<real>, frontier: seq<nat>)
    requires Describes(island, candidates, plan) && |solution| == island.pattern.Dimension()
    requires SolvesDriverRows(island, plan, solved, solution) && Captures(island.ir.stabilityValues, solved, stability)
    requires DiscreteGraph.SameTick(RealNumbers().ar, island.ir, solved, values)
      && Reflects(island.ir, values, solution)
    requires AnyStabilityMoved(RealNumbers(), island.ir, values, stability, |stability|)
    requires ListsSeeded(RealNumbers(), island.ir, plan, values, stability, |stability|, frontier)
    ensures Consistent(RealNumbers(), Identity(), island.ir, plan, values, solution, frontier)
  {
    RealNumbersAreAdmissible(island.ir.program.iterationOps);
    forall d | 0 <= d < |plan.drivers| && d !in SetOf(frontier)
      ensures Balanced(RealNumbers(), Identity(), plan.drivers[d], values, solution)
    {
      assert d !in frontier;
      BalancedIffRowSolved(island, candidates, plan, d, solved, solution);
      PreparedFrontierIsSound(RealNumbers(), Identity(), island.ir, plan, solved, values, stability, solution, d);
    }
  }

  /** The row of every driver that is not conservative still holds, and its pulls conduct. */
  ghost predicate KeepsOtherRows(island: Island, plan: DiscretePlan, values: seq<real>, x: seq<real>)
    requires island.WellFormed()
  {
    forall d | 0 <= d < |plan.drivers| && d !in plan.conservative ::
      SolvesRow(island, plan.drivers[d], values, x) && Conducts(AsCandidate(plan.drivers[d]), values)
  }

  /** If no stability value moved, the solution still solves the rows of the drivers that are not conservative. */
  lemma UnmovedKeepsOtherRows(
      island: Island, candidates: seq<Candidate>, plan: DiscretePlan, solved: seq<real>, values: seq<real>,
      solution: seq<real>, stability: seq<real>)
    requires Describes(island, candidates, plan) && |solution| == island.pattern.Dimension()
    requires SolvesDriverRows(island, plan, solved, solution) && Captures(island.ir.stabilityValues, solved, stability)
    requires DiscreteGraph.SameTick(RealNumbers().ar, island.ir, solved, values)
    requires !AnyStabilityMoved(RealNumbers(), island.ir, values, stability, |stability|)
    ensures KeepsOtherRows(island, plan, values, solution)
  {
    RealNumbersAreAdmissible(island.ir.program.iterationOps);
    forall d | 0 <= d < |plan.drivers| && d !in plan.conservative
      ensures SolvesRow(island, plan.drivers[d], values, solution) && Conducts(AsCandidate(plan.drivers[d]), values)
    {
      BalancedIffRowSolved(island, candidates, plan, d, solved, solution);
      assert !Seeded(RealNumbers(), island.ir, plan, values, stability, |stability|, d);
      PreparedFrontierIsSound(RealNumbers(), Identity(), island.ir, plan, solved, values, stability, solution, d);
      BalancedIffRowSolved(island, candidates, plan, d, values, solution);
    }
  }

  /** The assembled system moved only by the footprints of the plan. */
  ghost predicate SystemMovesByFootprints(island: Island, candidates: seq<Candidate>, v: seq<real>, w: seq<real>)
    requires island.WellFormed()
  {
    forall slot, row, column | island.pattern.Stores(slot, row, column) ::
      && MovesByFootprints(island, candidates, v, w, slot, row, column)
      && Contribution(island.rhs.ops, v, row) == Contribution(island.rhs.ops, w, row)
  }

  lemma SettledSystem(
      island: Island, candidates: seq<Candidate>, plan: DiscretePlan, solved: seq<real>, values: seq<real>,
      predicted: seq<real>, factorized: seq<real>, reference: seq<real>)
    requires Describes(island, candidates, plan) && island.ListsIterationSources()
      && |predicted| == island.pattern.Dimension()
    requires DiscreteGraph.SameTick(RealNumbers().ar, island.ir, solved, values)
    requires Captures(island.iterationMatrixSources, solved, factorized)
      && Captures(plan.rhsBarriers, solved, reference)
    requires ClosureSettled(RealNumbers(), Identity(), island.ir, plan, values, predicted)
    requires !BarriersChanged(RealNumbers(), plan, values, factorized, reference)
    ensures SolvesDriverRows(island, plan, values, predicted)
      && SystemMovesByFootprints(island, candidates, values, solved)
  {
    SettledClosureSolvesDriverRows(island, candidates, plan, values, predicted);
    UnchangedBarriersAreSame(island, candidates, plan, values, solved, factorized, reference);
    forall slot, row, column | island.pattern.Stores(slot, row, column)
      ensures MovesByFootprints(island, candidates, values, solved, slot, row, column)
      ensures Contribution(island.rhs.ops, values, row) == Contribution(island.rhs.ops, solved, row)
    {
      BarriersHoldTheTick(RealNumbers().ar, island, candidates, plan, values, solved, slot, row, column);
    }
  }

  /** `copy_from_slice`. */
  method Copy(source: seq<real>, target: array<real>)
    requires |source| == target.Length
    modifies target
    ensures target[..] == source
  {
    forall u | 0 <= u < target.Length {
      target[u] := source[u];
    }
  }

  /** The closure starts on the solution, with exactly the seeded drivers as its frontier. */
  ghost predicate StartsSeeded(
      island: Island, plan: DiscretePlan, values: seq<real>, solution: seq<real>, stability: seq<real>,
      first: ClosureState<real>)
  {
    && first.values == values && first.predicted == solution
    && ListsSeeded(RealNumbers(), island.ir, plan, values, stability, |stability|, first.frontier)
  }

  /** Prepare the frontier and, if a stability value moved, copy the solution for the closure to work on. */
  method StartClosure(
      island: Island, ghost candidates: seq<Candidate>, plan: DiscretePlan, scratch: DiscreteScratch<real>,
      ghost solved: seq<real>, solution: seq<real>, values: array<real>, current: array<real>, stability: seq<real>)
    returns (needed: bool)
    requires Describes(island, candidates, plan)
    requires |solution| == current.Length == island.pattern.Dimension()
      && scratch.Ready(island.ir, plan, values, current)
    requires SolvesDriverRows(island, plan, solved, solution) && Captures(island.ir.stabilityValues, solved, stability)
    requires DiscreteGraph.SameTick(RealNumbers().ar, island.ir, solved, values[..])
      && Reflects(island.ir, values[..], solution)
    modifies scratch`currentFrontier, scratch`nextFrontier, scratch`generation, scratch.queued, current
    ensures scratch.Ready(island.ir, plan, values, current)
    ensures needed == AnyStabilityMoved(RealNumbers(), island.ir, values[..], stability, |stability|)
    ensures !needed ==> current[..] == old(current[..]) && KeepsOtherRows(island, plan, values[..], solution)
    ensures needed ==> current[..] == solution
    ensures needed ==>
      StartsSeeded(island, plan, values[..], solution, stability,
                   ClosureState(values[..], solution, scratch.currentFrontier))
    ensures needed ==>
      Consistent(RealNumbers(), Identity(), island.ir, plan, values[..], solution, scratch.currentFrontier)
  {
    ghost var start := values[..];
    needed := scratch.PrepareFrontier(RealNumbers(), island.ir, island.ir.stabilityValues, plan, values, stability);
    assert values[..] == start;
    if needed {
      ghost var frontier := scratch.currentFrontier;
      PreparedIsConsistent(island, candidates, plan, solved, start, solution, stability, frontier);
      Copy(solution, current);
      assert values[..] == start;
    } else {
      UnmovedKeepsOtherRows(island, candidates, plan, solved, start, solution, stability);
    }
  }

  /** The closure of `solve_nonlinear_fast`, from one solve to the next: given the solution of the last solve and a
      workspace evaluated on it, prepare the frontier and, if a stability value moved, run the closure on a copy of the
      solution; if none moved, the solution still solves the row of every driver that is not conservative. If the
      closure settles, the copy solves every driver row of the system that the workspace now assembles, and
      this system differs from the last one only by the footprints of the drivers. */
  method CloseSolution(
      island: Island, ghost candidates: seq<Candidate>, plan: DiscretePlan, scratch: DiscreteScratch<real>,
      ghost solved: seq<real>, solution: seq<real>, values: array<real>, current: array<real>, stability: seq<real>,
      factorized: seq<real>, reference: seq<real>)
    returns (needed: bool, outcome: Outcome, ghost trace: seq<ClosureState<real>>)
    requires Describes(island, candidates, plan) && island.ListsIterationSources()
    requires |solution| == current.Length == island.pattern.Dimension()
      && scratch.Ready(island.ir, plan, values, current)
    requires Solved(island, plan, solved, solution, stability, factorized, reference)
    requires DiscreteGraph.SameTick(RealNumbers().ar, island.ir, solved, values[..])
      && Reflects(island.ir, values[..], solution)
    modifies scratch, scratch.outputs, scratch.queued, scratch.iteration, scratch.iteration.dirtyWords, values, current
    ensures scratch.Ready(island.ir, plan, values, current)
    ensures needed == AnyStabilityMoved(RealNumbers(), island.ir, old(values[..]), stability, |stability|)
    ensures !needed ==> outcome == Outcome.Settled && values[..] == old(values[..]) && current[..] == old(current[..])
    ensures !needed ==> KeepsOtherRows(island, plan, values[..], solution)
    ensures needed ==> OnlyOutputsDiffer(plan.drivers, solution, current[..])
    ensures DiscreteGraph.SameTick(RealNumbers().ar, island.ir, solved, values[..])
    ensures needed && outcome == Outcome.Settled ==>
              SolvesDriverRows(island, plan, values[..], current[..])
                && SystemMovesByFootprints(island, candidates, values[..], solved)
    ensures needed ==>
              IsRun(RealNumbers(), island.ir, plan, factorized, reference, MAX_ROUNDS, trace, outcome, values[..],
                    current[..])
    ensures needed ==> trace != [] && StartsSeeded(island, plan, old(values[..]), solution, stability, trace[0])
  {
    needed := StartClosure(island, candidates, plan, scratch, solved, solution, values, current, stability);
    if !needed {
      return needed, Outcome.Settled, [];
    }
    ghost var first := ClosureState(values[..], solution, scratch.currentFrontier);
    RealNumbersAreAdmissible(island.ir.program.iterationOps);
    CapturedBarriersFit(island, candidates, plan, factorized, reference);
    outcome, trace := scratch.Run(RealNumbers(), Identity(), island.ir, plan, values, current, factorized, reference,
      MAX_ROUNDS);
    assert trace[0] == first;
    if outcome == Outcome.Settled {
      SettledSystem(island, candidates, plan, solved, values[..], current[..], factorized, reference);
    }
  }
}
