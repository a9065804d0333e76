// Reachability tables of the discrete closure (hynergy-engine/src/compile/discrete.rs): which
// drivers can react to a driver's output, and which can react to a changed stability value.
// Both tables are proved exact, and then proved to mean non-interference of program runs.
module DiscreteGraph {
  import opened Support
  import opened ValueIr

  /** A qualified complementary driver: one output between two rails (None is ground). */
  datatype Driver = Driver(output: nat, highRail: Option<nat>, lowRail: Option<nat>, pullUp: nat, pullDown: nat)

  /** The parts of a compiled island the tables are computed from. `solutionInputs` pairs each
      unknown that the program reads with its input slot. */
  datatype IslandIr<V> = IslandIr(
    program: ValueProgram<V>,
    solutionInputs: seq<(nat, nat)>,
    stabilityValues: seq<nat>)
  {
    function SlotCount(): nat { |program.initialValues| }

    ghost predicate IsSolution(v: nat) {
      exists i :: 0 <= i < |solutionInputs| && solutionInputs[i].1 == v
    }

    /** What the IR builder guarantees. */
    ghost predicate WellFormed() {
      && Ordered(program.iterationOps, SlotCount())
      && (forall i | 0 <= i < |solutionInputs| ::
            solutionInputs[i].1 < SlotCount() && !Writes(program.iterationOps, solutionInputs[i].1))
      && (forall i, j | 0 <= i < j < |solutionInputs| ::
            solutionInputs[i].0 < solutionInputs[j].0 && solutionInputs[i].1 != solutionInputs[j].1)
      && Ascending(stabilityValues) && (forall v | v in stabilityValues :: v < SlotCount())
    }
  }

  ghost predicate DriversFit(drivers: seq<Driver>, slotCount: nat) {
    && (forall d | 0 <= d < |drivers| :: drivers[d].pullUp < slotCount && drivers[d].pullDown < slotCount)
    && (forall d, e | 0 <= d < e < |drivers| :: drivers[d].output != drivers[e].output)
  }

  // ----- Reachability -----

  /** Slot `d` is computed from slot `s` by an iteration operation. */
  ghost predicate DependsOn(ops: seq<ValueOp>, d: nat, s: nat) {
    exists k :: 0 <= k < |ops| && ops[k].destination == d && ops[k].Reads(s)
  }

  /** Walking from users to sources, and never past a slot of `stop`, one gets from `from` to `to`. */
  ghost predicate Reaches(ops: seq<ValueOp>, stop: set<nat>, from: nat, to: nat)
    decreases from
  {
    from == to || (from !in stop && exists s | 0 <= s < from :: DependsOn(ops, from, s) && Reaches(ops, stop, s, to))
  }

  lemma {:induction false} ReachesOneFurther(
      ops: seq<ValueOp>, slotCount: nat, stop: set<nat>, from: nat, v: nat, s: nat)
    requires Ordered(ops, slotCount) && Reaches(ops, stop, from, v) && v !in stop && DependsOn(ops, v, s)
    ensures s < v && Reaches(ops, stop, from, s)
    decreases from
  {
    assert s < v by {
      var k :| 0 <= k < |ops| && ops[k].destination == v && ops[k].Reads(s);
      assert ops[k].Fits(slotCount);
    }
    if from == v {
      assert Reaches(ops, stop, s, s);
    } else {
      var u :| 0 <= u < from && DependsOn(ops, from, u) && Reaches(ops, stop, u, v);
      ReachesOneFurther(ops, slotCount, stop, u, v, s);
    }
  }

  /** A set closed under unstopped dependencies contains everything reachable from its members. */
  lemma {:induction false} ClosedContainsReachable(
      ops: seq<ValueOp>, stop: set<nat>, marked: set<nat>, from: nat, to: nat)
    requires forall v, s | v in marked && v !in stop && DependsOn(ops, v, s) :: s in marked
    requires from in marked && Reaches(ops, stop, from, to)
    ensures to in marked
    decreases from
  {
    if from != to {
      var s :| 0 <= s < from && DependsOn(ops, from, s) && Reaches(ops, stop, s, to);
      ClosedContainsReachable(ops, stop, marked, s, to);
    }
  }

  /** Stopping at slots that nothing computes does not hide anything. */
  lemma {:induction false} StopsAtLeaves(ops: seq<ValueOp>, stop: set<nat>, from: nat, to: nat)
    requires forall v | v in stop :: !Writes(ops, v)
    ensures Reaches(ops, stop, from, to) <==> Reaches(ops, {}, from, to)
    decreases from
  {
    forall s | 0 <= s < from ensures Reaches(ops, stop, s, to) <==> Reaches(ops, {}, s, to) {
      StopsAtLeaves(ops, stop, s, to);
    }
    if from in stop {
      assert forall s :: !DependsOn(ops, from, s);
    }
  }

  // ----- The tables -----

  /** `dependencies[d]` lists the sources of the operation that computes `d`. */
  ghost predicate ListsDependencies(ops: seq<ValueOp>, dependencies: seq<seq<nat>>) {
    forall d, s | 0 <= d < |dependencies| :: s in dependencies[d] <==> DependsOn(ops, d, s)
  }

  method ValueDependencies(ops: seq<ValueOp>, slotCount: nat) returns (dependencies: seq<seq<nat>>)
    requires Ordered(ops, slotCount)
    ensures |dependencies| == slotCount && ListsDependencies(ops, dependencies)
  {
    dependencies := seq(slotCount, _ => []);
    assert ops[..0] == [];
    for k := 0 to |ops|
      invariant |dependencies| == slotCount && ListsDependencies(ops[..k], dependencies)
    {
      var d := ops[k].destination;
      assert ops[k].Fits(slotCount);
      ghost var before := dependencies;
      dependencies := dependencies[d := dependencies[d] + ops[k].Sources()];
      forall e, s | 0 <= e < slotCount ensures s in dependencies[e] <==> DependsOn(ops[..k + 1], e, s) {
        OneMoreOp(ops, k, e, s);
        assert s in before[e] <==> DependsOn(ops[..k], e, s);
        assert s in ops[k].Sources() <==> ops[k].Reads(s);
      }
    }
    assert ops[..|ops|] == ops;
  }

  lemma OneMoreOp(ops: seq<ValueOp>, k: nat, d: nat, s: nat)
    requires k < |ops|
    ensures DependsOn(ops[..k + 1], d, s) <==> DependsOn(ops[..k], d, s) || (ops[k].destination == d && ops[k].Reads(s))
  {
    assert ops[..k + 1] == ops[..k] + [ops[k]];
    if DependsOn(ops[..k], d, s) {
      var j :| 0 <= j < k && ops[..k][j].destination == d && ops[..k][j].Reads(s);
      assert ops[..k + 1][j] == ops[..k][j];
    }
    if ops[k].destination == d && ops[k].Reads(s) {
      assert ops[..k + 1][k] == ops[k];
    }
  }

  /** `v` is reachable from one of the two pull values of `driver`. */
  ghost predicate PullsReach(ops: seq<ValueOp>, stop: set<nat>, driver: Driver, v: nat) {
    Reaches(ops, stop, driver.pullUp, v) || Reaches(ops, stop, driver.pullDown, v)
  }

  ghost function Marked(visited: seq<nat>, generation: nat): set<nat> {
    set v | 0 <= v < |visited| && visited[v] == generation
  }

  ghost function Stops(stop: seq<bool>): set<nat> {
    set v | 0 <= v < |stop| && stop[v]
  }

  /** The depth-first search: everything marked or stacked is reachable, and everything reachable
      from a marked slot is marked or stacked. */
  ghost predicate Searching(ops: seq<ValueOp>, stop: set<nat>, driver: Driver, slotCount: nat,
                            marked: set<nat>, stack: seq<nat>, hits: seq<nat>)
  {
    && (forall v | v in marked || v in stack :: v < slotCount && PullsReach(ops, stop, driver, v))
    && (driver.pullUp in marked || driver.pullUp in stack)
    && (driver.pullDown in marked || driver.pullDown in stack)
    && (forall v, s | v in marked && v !in stop && DependsOn(ops, v, s) :: s in marked || s in stack)
    && (forall v :: v in hits <==> v in marked && v in stop)
  }

  lemma PushDependencies(ops: seq<ValueOp>, stop: set<nat>, driver: Driver, slotCount: nat,
                         marked: set<nat>, stack: seq<nat>, hits: seq<nat>, sources: seq<nat>)
    requires Ordered(ops, slotCount) && stack != []
    requires Searching(ops, stop, driver, slotCount, marked, stack, hits)
    requires stack[|stack| - 1] !in marked
    requires forall s :: s in sources <==> DependsOn(ops, stack[|stack| - 1], s)
    ensures var v, rest := stack[|stack| - 1], stack[..|stack| - 1];
            && (v in stop ==> Searching(ops, stop, driver, slotCount, marked + {v}, rest, hits + [v]))
            && (v !in stop ==> Searching(ops, stop, driver, slotCount, marked + {v}, rest + sources, hits))
  {
    var v, rest := stack[|stack| - 1], stack[..|stack| - 1];
    assert v in stack && forall u | u in stack :: u == v || u in rest;
    if v !in stop {
      forall s | s in sources ensures s < slotCount && PullsReach(ops, stop, driver, s) {
        if Reaches(ops, stop, driver.pullUp, v) {
          ReachesOneFurther(ops, slotCount, stop, driver.pullUp, v, s);
        } else {
          ReachesOneFurther(ops, slotCount, stop, driver.pullDown, v, s);
        }
      }
    }
  }

  lemma SearchIsExact(
      ops: seq<ValueOp>, stop: set<nat>, driver: Driver, slotCount: nat, marked: set<nat>, hits: seq<nat>)
    requires Searching(ops, stop, driver, slotCount, marked, [], hits)
    ensures forall v :: v in hits <==> v in stop && PullsReach(ops, stop, driver, v)
  {
    forall v | v in stop && PullsReach(ops, stop, driver, v) ensures v in marked {
      if Reaches(ops, stop, driver.pullUp, v) {
        ClosedContainsReachable(ops, stop, marked, driver.pullUp, v);
      } else {
        ClosedContainsReachable(ops, stop, marked, driver.pullDown, v);
      }
    }
  }

  /** Start a new generation of visit marks; the marks are cleared when the 32-bit counter wraps. */
  method NextGeneration(visited: array<nat>, generation: nat) returns (next: nat)
    requires forall v | 0 <= v < visited.Length :: visited[v] <= generation < U32_LIMIT
    modifies visited
    ensures next < U32_LIMIT && forall v | 0 <= v < visited.Length :: visited[v] < next
  {
    next := (generation + 1) % U32_LIMIT;
    if next == 0 {
      forall v | 0 <= v < visited.Length { visited[v] := 0; }
      next := 1;
    }
  }

  /** Search backwards from a driver's pull values, not past the slots flagged in `stop`, and
      return the flagged slots met. */
  method Explore(ghost ops: seq<ValueOp>, dependencies: seq<seq<nat>>, stop: seq<bool>, driver: Driver,
                 visited: array<nat>, generation: nat)
    returns (hits: seq<nat>)
    requires Ordered(ops, |dependencies|) && ListsDependencies(ops, dependencies)
    requires |stop| == |dependencies| == visited.Length
    requires driver.pullUp < |dependencies| && driver.pullDown < |dependencies|
    requires forall v | 0 <= v < visited.Length :: visited[v] < generation
    modifies visited
    ensures forall v | 0 <= v < visited.Length :: visited[v] <= generation
    ensures forall v :: v in hits <==> v in Stops(stop) && PullsReach(ops, Stops(stop), driver, v)
  {
    var stack := [driver.pullUp, driver.pullDown];
    hits := [];
    assert Marked(visited[..], generation) == {};
    ghost var unmarked := set v | 0 <= v < visited.Length && visited[v] != generation;
    while stack != []
      invariant forall v | 0 <= v < visited.Length :: visited[v] <= generation
      invariant Searching(ops, Stops(stop), driver, visited.Length, Marked(visited[..], generation), stack, hits)
      invariant forall v :: v in unmarked <==> 0 <= v < visited.Length && visited[v] != generation
      decreases unmarked, |stack|
    {
      ghost var marked := Marked(visited[..], generation);
      var value := stack[|stack| - 1];
      assert value in stack;
      if visited[value] == generation {
        ghost var older := stack;
        stack := stack[..|stack| - 1];
        assert forall u | u in older :: u == value || u in stack;
        continue;
      }
      PushDependencies(ops, Stops(stop), driver, visited.Length, marked, stack, hits, dependencies[value]);
      visited[value] := generation;
      unmarked := unmarked - {value};
      assert Marked(visited[..], generation) == marked + {value};
      stack := stack[..|stack| - 1];
      if stop[value] {
        hits := hits + [value];
        continue;
      }
      stack := stack + dependencies[value];
    }
    SearchIsExact(ops, Stops(stop), driver, visited.Length, Marked(visited[..], generation), hits);
  }

  /** Row `r` of concatenated rows with start offsets. */
  ghost predicate RowIs(offsets: seq<nat>, entries: seq<nat>, r: nat, row: seq<nat>) {
    && r + 1 < |offsets| && offsets[r] <= offsets[r + 1] <= |entries|
    && entries[offsets[r]..offsets[r + 1]] == row
  }

  /** `d` is listed in row `r` of a compressed table. */
  ghost predicate InRow(offsets: seq<nat>, entries: seq<nat>, r: nat, d: nat) {
    && r + 1 < |offsets| && offsets[r] <= offsets[r + 1] <= |entries|
    && d in entries[offsets[r]..offsets[r + 1]]
  }

  /** Sort and deduplicate every row, then concatenate. */
  method Compress(rows: seq<seq<nat>>) returns (offsets: seq<nat>, entries: seq<nat>)
    ensures |offsets| == |rows| + 1 && offsets[|rows|] == |entries|
    ensures forall r | 0 <= r < |rows| :: RowIs(offsets, entries, r, SortedDistinct(rows[r]))
  {
    offsets, entries := [0], [];
    for i := 0 to |rows|
      invariant |offsets| == i + 1 && offsets[i] == |entries|
      invariant forall r | 0 <= r < i :: RowIs(offsets, entries, r, SortedDistinct(rows[r]))
    {
      var row := SortedDistinct(rows[i]);
      forall r | 0 <= r < i ensures RowIs(offsets + [|entries + row|], entries + row, r, SortedDistinct(rows[r])) {
        assert RowIs(offsets, entries, r, SortedDistinct(rows[r]));
        assert (entries + row)[offsets[r]..offsets[r + 1]] == entries[offsets[r]..offsets[r + 1]];
      }
      entries := entries + row;
      offsets := offsets + [|entries|];
      assert entries[offsets[i]..offsets[i + 1]] == row;
    }
  }

  // ----- Driver to driver -----

  /** Driver `d` can react to driver `p`: by a rail, or by a pull value that reads `p`'s output. */
  ghost predicate Reacts<V>(ir: IslandIr<V>, drivers: seq<Driver>, d: nat, p: nat)
    requires d < |drivers| && p < |drivers|
  {
    || drivers[d].highRail == Some(drivers[p].output)
    || drivers[d].lowRail == Some(drivers[p].output)
    || exists i :: 0 <= i < |ir.solutionInputs| && ir.solutionInputs[i].0 == drivers[p].output
                   && PullsReach(ir.program.iterationOps, {}, drivers[d], ir.solutionInputs[i].1)
  }

  /** The table row of `p` is the ascending list of the drivers that can react to `p`. */
  ghost predicate ListsReactors<V>(
      ir: IslandIr<V>, drivers: seq<Driver>, offsets: seq<nat>, dependents: seq<nat>, p: nat)
    requires p < |drivers|
  {
    && p + 1 < |offsets| && offsets[p] <= offsets[p + 1] <= |dependents|
    && Ascending(dependents[offsets[p]..offsets[p + 1]])
    && forall d: nat :: InRow(offsets, dependents, p, d) <==> d < |drivers| && Reacts(ir, drivers, d, p)
  }

  ghost predicate IsDriverTable<V>(ir: IslandIr<V>, drivers: seq<Driver>, offsets: seq<nat>, dependents: seq<nat>) {
    |offsets| == |drivers| + 1 && forall p | 0 <= p < |drivers| :: ListsReactors(ir, drivers, offsets, dependents, p)
  }

  /** Slot `v` is the solution input of producer `p`'s output. */
  ghost predicate ProducedAt<V>(ir: IslandIr<V>, drivers: seq<Driver>, v: nat, p: nat)
    requires p < |drivers|
  {
    exists i :: 0 <= i < |ir.solutionInputs| && ir.solutionInputs[i] == (drivers[p].output, v)
  }

  ghost predicate FindsProducers(drivers: seq<Driver>, producers: map<nat, nat>) {
    && (forall p | 0 <= p < |drivers| :: drivers[p].output in producers)
    && (forall u | u in producers :: producers[u] < |drivers| && drivers[producers[u]].output == u)
  }

  ghost predicate FindsSlots<V>(ir: IslandIr<V>, drivers: seq<Driver>, bySlot: seq<Option<nat>>) {
    && |bySlot| == ir.SlotCount()
    && (forall v | 0 <= v < |bySlot| && bySlot[v].Some? ::
      bySlot[v].value < |drivers| && ProducedAt(ir, drivers, v, bySlot[v].value))
    && (forall v, p | 0 <= v < |bySlot| && 0 <= p < |drivers| && ProducedAt(ir, drivers, v, p) :: bySlot[v] == Some(p))
  }

  method FindProducers(drivers: seq<Driver>) returns (producers: map<nat, nat>)
    ensures FindsProducers(drivers, producers)
  {
    producers := map[];
    for p := 0 to |drivers|
      invariant forall q | 0 <= q < p :: drivers[q].output in producers
      invariant forall u | u in producers :: producers[u] < p && drivers[producers[u]].output == u
    {
      producers := producers[drivers[p].output := p];
    }
  }

  method FindSlots<V>(
      ir: IslandIr<V>, drivers: seq<Driver>, producers: map<nat, nat>) returns (bySlot: seq<Option<nat>>)
    requires ir.WellFormed() && DriversFit(drivers, ir.SlotCount()) && FindsProducers(drivers, producers)
    ensures FindsSlots(ir, drivers, bySlot)
  {
    bySlot := seq(ir.SlotCount(), _ => None);
    for i := 0 to |ir.solutionInputs|
      invariant |bySlot| == ir.SlotCount()
      invariant forall v | 0 <= v < |bySlot| && bySlot[v].Some? ::
                  bySlot[v].value < |drivers| && ProducedAt(ir, drivers, v, bySlot[v].value)
      invariant forall v | 0 <= v < |bySlot| && bySlot[v].Some? :: exists j :: 0 <= j < i && ir.solutionInputs[j].1 == v
      invariant forall j, p | 0 <= j < i && 0 <= p < |drivers| && ir.solutionInputs[j].0 == drivers[p].output ::
                  bySlot[ir.solutionInputs[j].1] == Some(p)
    {
      var (unknown, slot) := ir.solutionInputs[i];
      if unknown in producers {
        assert ir.solutionInputs[i] == (drivers[producers[unknown]].output, slot);
        bySlot := bySlot[slot := Some(producers[unknown])];
      }
    }
  }

  /** Record that `dependent` reacts to each of the listed producers. */
  method Record(adjacency: seq<seq<nat>>, producers: seq<nat>, dependent: nat) returns (r: seq<seq<nat>>)
    requires forall p | p in producers :: p < |adjacency|
    ensures |r| == |adjacency|
    ensures forall p, e | 0 <= p < |r| :: e in r[p] <==> e in adjacency[p] || (e == dependent && p in producers)
  {
    r := adjacency;
    for i := 0 to |producers|
      invariant |r| == |adjacency|
      invariant forall p, e | 0 <= p < |r| ::
        e in r[p] <==> e in adjacency[p] || (e == dependent && p in producers[..i])
    {
      assert producers[i] in producers;
      r := r[producers[i] := r[producers[i]] + [dependent]];
      assert producers[..i + 1] == producers[..i] + [producers[i]];
    }
    assert producers[..|producers|] == producers;
  }

  ghost predicate DrivesRail(producer: Driver, driver: Driver) {
    driver.highRail == Some(producer.output) || driver.lowRail == Some(producer.output)
  }

  /** `p` is the producer of one of the slots `hits`. */
  ghost predicate Produces(bySlot: seq<Option<nat>>, hits: seq<nat>, p: nat) {
    exists v :: v in hits && v < |bySlot| && bySlot[v] == Some(p)
  }

  method RailProducers(drivers: seq<Driver>, driver: Driver, producers: map<nat, nat>) returns (found: seq<nat>)
    requires FindsProducers(drivers, producers)
    requires forall d, e | 0 <= d < e < |drivers| :: drivers[d].output != drivers[e].output
    ensures forall p :: p in found <==> 0 <= p < |drivers| && DrivesRail(drivers[p], driver)
  {
    found := [];
    if driver.highRail.Some? && driver.highRail.value in producers {
      found := found + [producers[driver.highRail.value]];
    }
    if driver.lowRail.Some? && driver.lowRail.value in producers {
      found := found + [producers[driver.lowRail.value]];
    }
  }

  /** The producers a driver reacts to: those driving its rails, then those met by the search. */
  method ProducersOf<V>(ghost ir: IslandIr<V>, drivers: seq<Driver>, d: nat, producers: map<nat, nat>,
                        bySlot: seq<Option<nat>>, hits: seq<nat>)
    returns (found: seq<nat>)
    requires ir.WellFormed() && d < |drivers| && DriversFit(drivers, ir.SlotCount())
    requires FindsProducers(drivers, producers) && FindsSlots(ir, drivers, bySlot)
    requires forall v ::
      v in hits <==> 0 <= v < |bySlot| && bySlot[v].Some? && PullsReach(ir.program.iterationOps, {}, drivers[d], v)
    ensures forall p :: p in found <==> 0 <= p < |drivers| && Reacts(ir, drivers, d, p)
  {
    found := RailProducers(drivers, drivers[d], producers);
    for k := 0 to |hits|
      invariant forall p :: p in found <==>
                  0 <= p < |drivers| && (DrivesRail(drivers[p], drivers[d]) || Produces(bySlot, hits[..k], p))
    {
      assert hits[k] in hits && hits[..k + 1] == hits[..k] + [hits[k]];
      var producer := bySlot[hits[k]].value;
      forall p ensures Produces(bySlot, hits[..k + 1], p) <==> Produces(bySlot, hits[..k], p) || p == producer {
        assert hits[k] in hits[..k + 1];
      }
      found := found + [producer];
    }
    assert hits[..|hits|] == hits;
    forall p | 0 <= p < |drivers|
      ensures Reacts(ir, drivers, d, p) <==> DrivesRail(drivers[p], drivers[d]) || Produces(bySlot, hits, p)
    {
      HitsAreReads(ir, drivers, d, bySlot, hits, p);
    }
  }

  lemma HitsAreReads<V>(ir: IslandIr<V>, drivers: seq<Driver>, d: nat, bySlot: seq<Option<nat>>, hits: seq<nat>, p: nat)
    requires ir.WellFormed() && d < |drivers| && p < |drivers| && FindsSlots(ir, drivers, bySlot)
    requires forall v ::
      v in hits <==> 0 <= v < |bySlot| && bySlot[v].Some? && PullsReach(ir.program.iterationOps, {}, drivers[d], v)
    ensures Produces(bySlot, hits, p) <==>
            exists i :: 0 <= i < |ir.solutionInputs| && ir.solutionInputs[i].0 == drivers[p].output
                        && PullsReach(ir.program.iterationOps, {}, drivers[d], ir.solutionInputs[i].1)
  {
    if Produces(bySlot, hits, p) {
      var v :| v in hits && v < |bySlot| && bySlot[v] == Some(p);
      assert ProducedAt(ir, drivers, v, p);
    }
    if i :| 0 <= i < |ir.solutionInputs| && ir.solutionInputs[i].0 == drivers[p].output
            && PullsReach(ir.program.iterationOps, {}, drivers[d], ir.solutionInputs[i].1) {
      var v := ir.solutionInputs[i].1;
      assert ir.solutionInputs[i] == (drivers[p].output, v) && ProducedAt(ir, drivers, v, p);
      assert v in hits;
    }
  }

  /** `compile_driver_dependencies`. */
  method CompileDriverDependencies<V>(
      ir: IslandIr<V>, drivers: seq<Driver>) returns (offsets: seq<nat>, dependents: seq<nat>)
    requires ir.WellFormed() && DriversFit(drivers, ir.SlotCount())
    ensures IsDriverTable(ir, drivers, offsets, dependents)
  {
    var ops := ir.program.iterationOps;
    var dependencies := ValueDependencies(ops, ir.SlotCount());
    var producers := FindProducers(drivers);
    var bySlot := FindSlots(ir, drivers, producers);
    var stop := seq(ir.SlotCount(), v requires 0 <= v < |bySlot| => bySlot[v].Some?);
    var adjacency: seq<seq<nat>> := seq(|drivers|, _ => []);
    var visited := new nat[ir.SlotCount()](_ => 0);
    var generation: nat := 0;
    for d := 0 to |drivers|
      invariant |adjacency| == |drivers|
      invariant forall p, e | 0 <= p < |drivers| :: e in adjacency[p] <==> 0 <= e < d && Reacts(ir, drivers, e, p)
      invariant generation < U32_LIMIT && forall v | 0 <= v < visited.Length :: visited[v] <= generation
    {
      generation := NextGeneration(visited, generation);
      var hits := Explore(ops, dependencies, stop, drivers[d], visited, generation);
      HitsIgnoreStops(ir, drivers, d, bySlot, stop);
      var found := ProducersOf(ir, drivers, d, producers, bySlot, hits);
      adjacency := Record(adjacency, found, d);
    }
    offsets, dependents := Compress(adjacency);
    forall p | 0 <= p < |drivers| ensures ListsReactors(ir, drivers, offsets, dependents, p) {
      assert RowIs(offsets, dependents, p, SortedDistinct(adjacency[p]));
    }
  }

  /** Solution inputs have no dependencies, so stopping at them does not hide any reachable slot. */
  lemma HitsIgnoreStops<V>(ir: IslandIr<V>, drivers: seq<Driver>, d: nat, bySlot: seq<Option<nat>>, stop: seq<bool>)
    requires ir.WellFormed() && d < |drivers| && FindsSlots(ir, drivers, bySlot)
    requires |stop| == |bySlot| && forall v | 0 <= v < |stop| :: stop[v] == bySlot[v].Some?
    ensures forall v: nat :: PullsReach(ir.program.iterationOps, Stops(stop), drivers[d], v) <==>
                        PullsReach(ir.program.iterationOps, {}, drivers[d], v)
  {
    forall v | v in Stops(stop) ensures !Writes(ir.program.iterationOps, v) {
      assert ProducedAt(ir, drivers, v, bySlot[v].value);
    }
    forall v: nat
      ensures PullsReach(ir.program.iterationOps, Stops(stop), drivers[d], v) <==>
              PullsReach(ir.program.iterationOps, {}, drivers[d], v)
    {
      StopsAtLeaves(ir.program.iterationOps, Stops(stop), drivers[d].pullUp, v);
      StopsAtLeaves(ir.program.iterationOps, Stops(stop), drivers[d].pullDown, v);
    }
  }

  // ----- Stability values to drivers -----

  /** The search for the initial frontier stops at stability values and at solution inputs. */
  ghost function Cut<V>(ir: IslandIr<V>): set<nat> {
    set v | 0 <= v < ir.SlotCount() && (v in ir.stabilityValues || ir.IsSolution(v))
  }

  /** A pull value of `driver` reads the slot `v` without passing a cut slot on the way. */
  ghost predicate SeesCut<V>(ir: IslandIr<V>, driver: Driver, v: nat) {
    v in Cut(ir) && PullsReach(ir.program.iterationOps, Cut(ir), driver, v)
  }

  /** The driver sees a solution input that no stability value shields. */
  ghost predicate IsConservative<V>(ir: IslandIr<V>, driver: Driver) {
    exists v :: SeesCut(ir, driver, v) && v !in ir.stabilityValues
  }

  ghost predicate ListsWatchers<V>(
      ir: IslandIr<V>, drivers: seq<Driver>, offsets: seq<nat>, dependents: seq<nat>, i: nat)
    requires i < |ir.stabilityValues|
  {
    && i + 1 < |offsets| && offsets[i] <= offsets[i + 1] <= |dependents|
    && Ascending(dependents[offsets[i]..offsets[i + 1]])
    && forall d: nat ::
      InRow(offsets, dependents, i, d) <==> d < |drivers| && SeesCut(ir, drivers[d], ir.stabilityValues[i])
  }

  ghost predicate IsFrontierTable<V>(
      ir: IslandIr<V>, drivers: seq<Driver>, offsets: seq<nat>, dependents: seq<nat>, conservative: seq<nat>)
  {
    && |offsets| == |ir.stabilityValues| + 1
    && (forall i | 0 <= i < |ir.stabilityValues| :: ListsWatchers(ir, drivers, offsets, dependents, i))
    && Ascending(conservative)
    && forall d :: d in conservative <==> 0 <= d < |drivers| && IsConservative(ir, drivers[d])
  }

  method FlagCut<V>(ir: IslandIr<V>) returns (stop: seq<bool>)
    requires ir.WellFormed()
    ensures |stop| == ir.SlotCount() && Stops(stop) == Cut(ir)
  {
    stop := seq(ir.SlotCount(), v requires 0 <= v < ir.SlotCount() => v in ir.stabilityValues);
    for i := 0 to |ir.solutionInputs|
      invariant |stop| == ir.SlotCount()
      invariant forall v | 0 <= v < |stop| ::
                  stop[v] <==> v in ir.stabilityValues || exists j :: 0 <= j < i && ir.solutionInputs[j].1 == v
    {
      stop := stop[ir.solutionInputs[i].1 := true];
    }
  }

  /** Split the slots met by the search into stability indices and a conservative flag. */
  method ClassifyHits(stability: seq<nat>, hits: seq<nat>) returns (watched: seq<nat>, conservative: bool)
    requires Ascending(stability)
    ensures forall i :: i in watched <==> 0 <= i < |stability| && stability[i] in hits
    ensures conservative <==> exists v :: v in hits && v !in stability
  {
    watched, conservative := [], false;
    for k := 0 to |hits|
      invariant forall i :: i in watched <==> 0 <= i < |stability| && stability[i] in hits[..k]
      invariant conservative <==> exists v :: v in hits[..k] && v !in stability
    {
      assert hits[..k + 1] == hits[..k] + [hits[k]] && hits[k] in hits[..k + 1];
      var found := BinarySearch(stability, hits[k]);
      match found {
        case Some(i) => watched := watched + [i];
        case None => conservative := true;
      }
    }
    assert hits[..|hits|] == hits;
  }

  /** The stability indices one driver watches, and whether it must always be seeded. */
  method FindWatched<V>(
      ir: IslandIr<V>, dependencies: seq<seq<nat>>, stop: seq<bool>, driver: Driver, visited: array<nat>,
      generation: nat)
    returns (watched: seq<nat>, isConservative: bool)
    requires ir.WellFormed() && driver.pullUp < ir.SlotCount() && driver.pullDown < ir.SlotCount()
    requires |dependencies| == |stop| == visited.Length == ir.SlotCount() && Stops(stop) == Cut(ir)
    requires ListsDependencies(ir.program.iterationOps, dependencies)
    requires forall v | 0 <= v < visited.Length :: visited[v] < generation
    modifies visited
    ensures forall v | 0 <= v < visited.Length :: visited[v] <= generation
    ensures forall i: nat :: i in watched <==> i < |ir.stabilityValues| && SeesCut(ir, driver, ir.stabilityValues[i])
    ensures isConservative <==> IsConservative(ir, driver)
  {
    var hits := Explore(ir.program.iterationOps, dependencies, stop, driver, visited, generation);
    assert forall v: nat :: v in hits <==> SeesCut(ir, driver, v);
    watched, isConservative := ClassifyHits(ir.stabilityValues, hits);
  }

  /** `row` holds those of the first `count` drivers that see stability value `i`. */
  ghost predicate Watchers<V>(ir: IslandIr<V>, drivers: seq<Driver>, count: nat, i: nat, row: seq<nat>)
    requires count <= |drivers| && i < |ir.stabilityValues|
  {
    forall d: nat :: d in row <==> d < count && SeesCut(ir, drivers[d], ir.stabilityValues[i])
  }

  lemma WatchersNext<V>(
      ir: IslandIr<V>, drivers: seq<Driver>, d: nat, i: nat, row: seq<nat>, watched: seq<nat>, next: seq<nat>)
    requires d < |drivers| && i < |ir.stabilityValues| && Watchers(ir, drivers, d, i, row)
    requires i in watched <==> SeesCut(ir, drivers[d], ir.stabilityValues[i])
    requires forall e: nat :: e in next <==> e in row || (e == d && i in watched)
    ensures Watchers(ir, drivers, d + 1, i, next)
  {
  }

  lemma WatchersAreListed<V>(
      ir: IslandIr<V>, drivers: seq<Driver>, offsets: seq<nat>, dependents: seq<nat>, i: nat, watchers: seq<nat>)
    requires i < |ir.stabilityValues| && RowIs(offsets, dependents, i, SortedDistinct(watchers))
    requires Watchers(ir, drivers, |drivers|, i, watchers)
    ensures ListsWatchers(ir, drivers, offsets, dependents, i)
  {
  }

  /** `compile_initial_frontier_dependencies`. */
  method CompileInitialFrontier<V>(ir: IslandIr<V>, drivers: seq<Driver>)
    returns (offsets: seq<nat>, dependents: seq<nat>, conservative: seq<nat>)
    requires ir.WellFormed() && DriversFit(drivers, ir.SlotCount())
    ensures IsFrontierTable(ir, drivers, offsets, dependents, conservative)
  {
    var dependencies := ValueDependencies(ir.program.iterationOps, ir.SlotCount());
    var stop := FlagCut(ir);
    var adjacency: seq<seq<nat>> := seq(|ir.stabilityValues|, _ => []);
    var seeds: seq<nat> := [];
    var visited := new nat[ir.SlotCount()](_ => 0);
    var generation: nat := 0;
    for d := 0 to |drivers|
      invariant |adjacency| == |ir.stabilityValues|
      invariant forall i: nat | i < |adjacency| :: Watchers(ir, drivers, d, i, adjacency[i])
      invariant forall e: nat :: e in seeds <==> e < d && IsConservative(ir, drivers[e])
      invariant generation < U32_LIMIT && forall v | 0 <= v < visited.Length :: visited[v] <= generation
    {
      generation := NextGeneration(visited, generation);
      var watched, isConservative := FindWatched(ir, dependencies, stop, drivers[d], visited, generation);
      ghost var before := adjacency;
      adjacency := Record(adjacency, watched, d);
      forall i: nat | i < |adjacency| ensures Watchers(ir, drivers, d + 1, i, adjacency[i]) {
        WatchersNext(ir, drivers, d, i, before[i], watched, adjacency[i]);
      }
      if isConservative {
        seeds := seeds + [d];
      }
    }
    offsets, dependents := Compress(adjacency);
    conservative := SortedDistinct(seeds);
    forall i: nat | i < |ir.stabilityValues| ensures ListsWatchers(ir, drivers, offsets, dependents, i) {
      assert RowIs(offsets, dependents, i, SortedDistinct(adjacency[i]));
      WatchersAreListed(ir, drivers, offsets, dependents, i, adjacency[i]);
    }
  }

  // ----- What the tables mean for program runs -----

  // The statements below hold up to any likeness of numbers that the iteration operations respect:
  // up to identity for every program, and up to numeric equality (which identifies the two signed
  // zeros) for a program whose operations respect that.

  ghost predicate BinaryRespects<V(!new)>(ar: Arithmetic<V>, like: (V, V) -> bool, kind: BinaryKind) {
    forall w, x, y, z | like(w, x) && like(y, z) :: like(ar.binary(kind, w, y), ar.binary(kind, x, z))
  }

  ghost predicate NegateRespects<V(!new)>(ar: Arithmetic<V>, like: (V, V) -> bool) {
    forall x, y | like(x, y) :: like(ar.negate(x), ar.negate(y))
  }

  ghost predicate OpRespects<V(!new)>(ar: Arithmetic<V>, like: (V, V) -> bool, op: ValueOp) {
    match op
    case Binary(kind, _, _, _) => BinaryRespects(ar, like, kind)
    case Negate(_, _) => NegateRespects(ar, like)
  }

  ghost predicate Respects<V(!new)>(ar: Arithmetic<V>, like: (V, V) -> bool, ops: seq<ValueOp>) {
    && (forall x :: like(x, x))
    && (forall k | 0 <= k < |ops| :: OpRespects(ar, like, ops[k]))
  }

  /** Identity is respected by every program. */
  ghost function Identical<V>(): (V, V) -> bool {
    (x, y) => x == y
  }

  lemma IdentityIsRespected<V(!new)>(ar: Arithmetic<V>, ops: seq<ValueOp>)
    ensures Respects(ar, Identical<V>(), ops)
  {
    forall k | 0 <= k < |ops| ensures OpRespects(ar, Identical<V>(), ops[k]) {
      match ops[k] {
        case Binary(kind, _, _, _) => assert BinaryRespects(ar, Identical<V>(), kind);
        case Negate(_, _) => assert NegateRespects(ar, Identical<V>());
      }
    }
  }

  ghost predicate LikeAt<V>(like: (V, V) -> bool, a: seq<V>, b: seq<V>, v: nat) {
    v < |a| && v < |b| && like(a[v], b[v])
  }

  lemma AlikeOperands<V(!new)>(ar: Arithmetic<V>, like: (V, V) -> bool, op: ValueOp, a: seq<V>, b: seq<V>)
    requires op.Fits(|a|) && op.Fits(|b|) && OpRespects(ar, like, op)
    requires forall s: nat | op.Reads(s) :: LikeAt(like, a, b, s)
    ensures like(op.Evaluate(ar, a), op.Evaluate(ar, b))
  {
    match op {
      case Binary(_, _, lhs, rhs) => assert LikeAt(like, a, b, lhs) && LikeAt(like, a, b, rhs);
      case Negate(_, operand) => assert LikeAt(like, a, b, operand);
    }
  }

  /** Two settled workspaces that are alike at every reachable cut slot and leaf are alike at the root. */
  lemma {:induction false} CutDetermines<V(!new)>(
      ar: Arithmetic<V>, like: (V, V) -> bool, ops: seq<ValueOp>, stop: set<nat>, a: seq<V>, b: seq<V>, root: nat)
    requires |a| == |b| && Ordered(ops, |a|) && root < |a| && Respects(ar, like, ops)
    requires Settled(ar, ops, a) && Settled(ar, ops, b)
    requires forall v | 0 <= v < |a| && (v in stop || !Writes(ops, v)) && Reaches(ops, stop, root, v) ::
      LikeAt(like, a, b, v)
    ensures LikeAt(like, a, b, root)
    decreases root
  {
    assert Reaches(ops, stop, root, root);
    if root !in stop && Writes(ops, root) {
      var k :| 0 <= k < |ops| && ops[k].destination == root;
      forall s: nat | ops[k].Reads(s) ensures s < root && LikeAt(like, a, b, s) {
        assert ops[k].Fits(|a|) && DependsOn(ops, root, s);
        forall v | 0 <= v < |a| && (v in stop || !Writes(ops, v)) && Reaches(ops, stop, s, v)
          ensures LikeAt(like, a, b, v)
        {
          assert Reaches(ops, stop, root, v);
        }
        CutDetermines(ar, like, ops, stop, a, b, s);
      }
      AlikeOperands(ar, like, ops[k], a, b);
      assert a[root] == ops[k].Evaluate(ar, a) && b[root] == ops[k].Evaluate(ar, b);
    }
  }

  /** Two workspaces of one solve: both evaluated, and equal except in what the iteration changes. */
  ghost predicate SameTick<V>(ar: Arithmetic<V>, ir: IslandIr<V>, a: seq<V>, b: seq<V>)
    requires ir.WellFormed()
  {
    var ops := ir.program.iterationOps;
    && |a| == |b| == ir.SlotCount() && Settled(ar, ops, a) && Settled(ar, ops, b)
    && forall v | 0 <= v < |a| && !Writes(ops, v) && !ir.IsSolution(v) :: a[v] == b[v]
  }

  ghost predicate LikePulls<V>(like: (V, V) -> bool, driver: Driver, a: seq<V>, b: seq<V>) {
    LikeAt(like, a, b, driver.pullUp) && LikeAt(like, a, b, driver.pullDown)
  }

  /** Pull values are alike in two evaluated workspaces when every cut slot they see is. */
  lemma SeenSlotsDeterminePulls<V(!new)>(
      ar: Arithmetic<V>, like: (V, V) -> bool, ir: IslandIr<V>, drivers: seq<Driver>, a: seq<V>, b: seq<V>, d: nat)
    requires ir.WellFormed() && DriversFit(drivers, ir.SlotCount()) && d < |drivers| && SameTick(ar, ir, a, b)
    requires Respects(ar, like, ir.program.iterationOps)
    requires forall v | 0 <= v < |a| && SeesCut(ir, drivers[d], v) :: LikeAt(like, a, b, v)
    ensures LikePulls(like, drivers[d], a, b)
  {
    var ops := ir.program.iterationOps;
    forall v | 0 <= v < |a| && (v in Cut(ir) || !Writes(ops, v)) && PullsReach(ops, Cut(ir), drivers[d], v)
      ensures LikeAt(like, a, b, v)
    {
      if v in Cut(ir) {
        assert SeesCut(ir, drivers[d], v);
      }
    }
    CutDetermines(ar, like, ops, Cut(ir), a, b, drivers[d].pullUp);
    CutDetermines(ar, like, ops, Cut(ir), a, b, drivers[d].pullDown);
  }

  /** Initial-frontier non-interference: a driver that is not conservatively seeded, and not
      listed under any stability value that changed, has unchanged pull values. */
  lemma FrontierNonInterference<V(!new)>(
      ar: Arithmetic<V>, like: (V, V) -> bool, ir: IslandIr<V>, drivers: seq<Driver>,
      offsets: seq<nat>, dependents: seq<nat>, conservative: seq<nat>, a: seq<V>, b: seq<V>, d: nat)
    requires ir.WellFormed() && DriversFit(drivers, ir.SlotCount()) && d < |drivers|
    requires IsFrontierTable(ir, drivers, offsets, dependents, conservative) && SameTick(ar, ir, a, b)
    requires Respects(ar, like, ir.program.iterationOps)
    requires d !in conservative
    requires forall i: nat | i < |ir.stabilityValues| && InRow(offsets, dependents, i, d) ::
               LikeAt(like, a, b, ir.stabilityValues[i])
    ensures LikePulls(like, drivers[d], a, b)
  {
    forall v | 0 <= v < |a| && SeesCut(ir, drivers[d], v) ensures LikeAt(like, a, b, v) {
      assert !IsConservative(ir, drivers[d]);
      var i :| 0 <= i < |ir.stabilityValues| && ir.stabilityValues[i] == v;
      assert ListsWatchers(ir, drivers, offsets, dependents, i);
      assert InRow(offsets, dependents, i, d);
    }
    SeenSlotsDeterminePulls(ar, like, ir, drivers, a, b, d);
  }

  /** Driver-table non-interference: in two evaluated workspaces whose differing solution inputs
      all belong to drivers in `changed`, a driver listed in no row of `changed` has equal pulls. */
  lemma UnlistedDriversKeepPulls<V(!new)>(
      ar: Arithmetic<V>, like: (V, V) -> bool, ir: IslandIr<V>, drivers: seq<Driver>,
      offsets: seq<nat>, dependents: seq<nat>, changed: set<nat>, a: seq<V>, b: seq<V>, d: nat)
    requires ir.WellFormed() && DriversFit(drivers, ir.SlotCount()) && d < |drivers|
    requires IsDriverTable(ir, drivers, offsets, dependents) && SameTick(ar, ir, a, b)
    requires Respects(ar, like, ir.program.iterationOps)
    requires forall i: nat | i < |ir.solutionInputs| && !LikeAt(like, a, b, ir.solutionInputs[i].1) ::
               exists p :: p in changed && p < |drivers| && drivers[p].output == ir.solutionInputs[i].0
    requires forall p | p in changed :: !InRow(offsets, dependents, p, d)
    ensures LikePulls(like, drivers[d], a, b)
  {
    var ops := ir.program.iterationOps;
    forall v | 0 <= v < |a| && !Writes(ops, v) && PullsReach(ops, {}, drivers[d], v)
      ensures LikeAt(like, a, b, v)
    {
      if !LikeAt(like, a, b, v) {
        var i: nat :| i < |ir.solutionInputs| && ir.solutionInputs[i].1 == v;
        var p: nat :| p in changed && p < |drivers| && drivers[p].output == ir.solutionInputs[i].0;
        ReachedProducerIsListed(ir, drivers, offsets, dependents, d, p, i);
      }
    }
    CutDetermines(ar, like, ops, {}, a, b, drivers[d].pullUp);
    CutDetermines(ar, like, ops, {}, a, b, drivers[d].pullDown);
  }

  lemma ReachedProducerIsListed<V>(
      ir: IslandIr<V>, drivers: seq<Driver>, offsets: seq<nat>, dependents: seq<nat>, d: nat, p: nat, i: nat)
    requires d < |drivers| && p < |drivers| && IsDriverTable(ir, drivers, offsets, dependents)
    requires i < |ir.solutionInputs| && ir.solutionInputs[i].0 == drivers[p].output
    requires PullsReach(ir.program.iterationOps, {}, drivers[d], ir.solutionInputs[i].1)
    ensures InRow(offsets, dependents, p, d)
  {
    assert Reacts(ir, drivers, d, p) && ListsReactors(ir, drivers, offsets, dependents, p);
  }

  // ----- When operations respect a likeness -----

  /** What an iteration operation does, without its slots. */
  datatype OpKind = BinaryOp(kind: BinaryKind) | NegateOp

  function KindOf(op: ValueOp): OpKind {
    match op
    case Binary(kind, _, _, _) => BinaryOp(kind)
    case Negate(_, _) => NegateOp
  }

  ghost predicate KindRespects<V(!new)>(ar: Arithmetic<V>, like: (V, V) -> bool, kind: OpKind) {
    match kind
    case BinaryOp(binary) => BinaryRespects(ar, like, binary)
    case NegateOp => NegateRespects(ar, like)
  }

  ghost predicate UsesOnly(ops: seq<ValueOp>, kinds: set<OpKind>) {
    forall k | 0 <= k < |ops| :: KindOf(ops[k]) in kinds
  }

  /** The frontier tables of an island with its drivers. */
  datatype FrontierCase<V> = FrontierCase(
    ir: IslandIr<V>,
    drivers: seq<Driver>,
    offsets: seq<nat>,
    dependents: seq<nat>,
    conservative: seq<nat>)

  /** Everything `FrontierNonInterference` asks of two workspaces and a driver, except that the operations respect the
      likeness: the driver is not seeded although the workspaces are of one tick. */
  ghost predicate Unseeded<V(!new)>(
      ar: Arithmetic<V>, like: (V, V) -> bool, f: FrontierCase<V>, a: seq<V>, b: seq<V>, d: nat)
  {
    && f.ir.WellFormed() && DriversFit(f.drivers, f.ir.SlotCount()) && d < |f.drivers|
    && IsFrontierTable(f.ir, f.drivers, f.offsets, f.dependents, f.conservative) && SameTick(ar, f.ir, a, b)
    && d !in f.conservative
    && forall i: nat | i < |f.ir.stabilityValues| && InRow(f.offsets, f.dependents, i, d) ::
         LikeAt(like, a, b, f.ir.stabilityValues[i])
  }

  /** The frontier misses no driver of this island: those it does not seed have unchanged pulls. */
  ghost predicate NeverInterferes<V(!new)>(ar: Arithmetic<V>, like: (V, V) -> bool, f: FrontierCase<V>) {
    forall a, b, d: nat | Unseeded(ar, like, f, a, b, d) :: LikePulls(like, f.drivers[d], a, b)
  }

  /** An island whose program is one operation on two solution inputs, both of them stability values, and whose one
      driver pulls with the result. The driver watches both and is not conservative. */
  function OneOpCase<V>(ar: Arithmetic<V>, kind: OpKind): FrontierCase<V> {
    var op := match kind
              case BinaryOp(binary) => Binary(binary, 2, 0, 1)
              case NegateOp => Negate(2, 0);
    var stability := if kind.NegateOp? then [0] else [0, 1];
    FrontierCase(
      IslandIr(ValueProgram([ar.zero, ar.zero, ar.zero], [], [], [op]), [(0, 0), (1, 1)], stability),
      [Driver(0, None, None, 2, 2)],
      if kind.NegateOp? then [0, 1] else [0, 1, 2],
      if kind.NegateOp? then [0] else [0, 0],
      [])
  }

  lemma OneOpReaches<V>(ar: Arithmetic<V>, kind: OpKind, v: nat)
    ensures var f := OneOpCase(ar, kind);
            f.ir.WellFormed() && (SeesCut(f.ir, f.drivers[0], v) <==> v in f.ir.stabilityValues)
  {
    var f := OneOpCase(ar, kind);
    var ops, stop := f.ir.program.iterationOps, Cut(f.ir);
    assert f.ir.solutionInputs[0].1 == 0 && f.ir.solutionInputs[1].1 == 1 && f.ir.IsSolution(0) && f.ir.IsSolution(1);
    assert f.ir.WellFormed();
    assert stop == {0, 1};
    assert forall s :: DependsOn(ops, 2, s) <==> ops[0].Reads(s);
    if v in f.ir.stabilityValues {
      assert ops[0].Reads(v) && Reaches(ops, stop, v, v);
      assert Reaches(ops, stop, 2, v);
    }
    if v < 2 && Reaches(ops, stop, 2, v) {
      var s :| 0 <= s < 2 && DependsOn(ops, 2, s) && Reaches(ops, stop, s, v);
    }
  }

  lemma OneOpTables<V>(ar: Arithmetic<V>, kind: OpKind)
    ensures var f := OneOpCase(ar, kind);
            && f.ir.WellFormed() && DriversFit(f.drivers, f.ir.SlotCount())
            && IsFrontierTable(f.ir, f.drivers, f.offsets, f.dependents, f.conservative)
  {
    var f := OneOpCase(ar, kind);
    forall v: nat ensures f.ir.WellFormed() && (SeesCut(f.ir, f.drivers[0], v) <==> v in f.ir.stabilityValues) {
      OneOpReaches(ar, kind, v);
    }
    forall i | 0 <= i < |f.ir.stabilityValues| ensures ListsWatchers(f.ir, f.drivers, f.offsets, f.dependents, i) {
      assert f.ir.stabilityValues[i] in f.ir.stabilityValues;
      assert f.dependents[f.offsets[i]..f.offsets[i + 1]] == [0];
    }
  }

  /** Two runs of the one operation on alike operands that it separates. */
  lemma SeparatedOperands<V(!new)>(ar: Arithmetic<V>, like: (V, V) -> bool, kind: OpKind) returns (a: seq<V>, b: seq<V>)
    requires (forall x :: like(x, x)) && !KindRespects(ar, like, kind)
    ensures |a| == |b| == 3 && LikeAt(like, a, b, 0) && LikeAt(like, a, b, 1) && !LikeAt(like, a, b, 2)
    ensures a[2] == OneOpCase(ar, kind).ir.program.iterationOps[0].Evaluate(ar, a)
    ensures b[2] == OneOpCase(ar, kind).ir.program.iterationOps[0].Evaluate(ar, b)
  {
    match kind {
      case BinaryOp(binary) =>
        var w, x, y, z :| like(w, x) && like(y, z) && !like(ar.binary(binary, w, y), ar.binary(binary, x, z));
        a, b := [w, y, ar.binary(binary, w, y)], [x, z, ar.binary(binary, x, z)];
      case NegateOp =>
        var x, y :| like(x, y) && !like(ar.negate(x), ar.negate(y));
        a, b := [x, x, ar.negate(x)], [y, y, ar.negate(y)];
    }
  }

  /** Where an operation separates alike operands, the frontier misses a driver: no stability value that it watches
      changes, and its pulls do. */
  lemma DisrespectBreaksNonInterference<V(!new)>(ar: Arithmetic<V>, like: (V, V) -> bool, kind: OpKind)
    requires (forall x :: like(x, x)) && !KindRespects(ar, like, kind)
    ensures UsesOnly(OneOpCase(ar, kind).ir.program.iterationOps, {kind})
    ensures exists a, b :: Unseeded(ar, like, OneOpCase(ar, kind), a, b, 0)
                           && !LikePulls(like, OneOpCase(ar, kind).drivers[0], a, b)
  {
    var f := OneOpCase(ar, kind);
    var a, b := SeparatedOperands(ar, like, kind);
    OneOpTables(ar, kind);
    assert f.ir.solutionInputs[0].1 == 0 && f.ir.solutionInputs[1].1 == 1 && f.ir.IsSolution(0) && f.ir.IsSolution(1);
    assert f.ir.program.iterationOps[0].destination == 2 && Writes(f.ir.program.iterationOps, 2);
    assert SameTick(ar, f.ir, a, b);
    assert Unseeded(ar, like, f, a, b, 0);
  }

  /** The exact condition on the operations: the frontier misses no driver of any island whose iteration operations are
      of the given kinds, up to a reflexive likeness, if and only if every one of these kinds respects it. */
  lemma NonInterferenceIffKindsRespect<V(!new)>(ar: Arithmetic<V>, like: (V, V) -> bool, kinds: set<OpKind>)
    requires forall x :: like(x, x)
    ensures (forall f: FrontierCase<V> | UsesOnly(f.ir.program.iterationOps, kinds) :: NeverInterferes(ar, like, f))
            <==> (forall kind | kind in kinds :: KindRespects(ar, like, kind))
  {
    if forall kind | kind in kinds :: KindRespects(ar, like, kind) {
      forall f: FrontierCase<V>, a, b, d: nat | UsesOnly(f.ir.program.iterationOps, kinds)
        && Unseeded(ar, like, f, a, b, d)
        ensures LikePulls(like, f.drivers[d], a, b)
      {
        KindsAreRespected(ar, like, f.ir.program.iterationOps, kinds);
        FrontierNonInterference(ar, like, f.ir, f.drivers, f.offsets, f.dependents, f.conservative, a, b, d);
      }
    }
    if kind :| kind in kinds && !KindRespects(ar, like, kind) {
      DisrespectBreaksNonInterference(ar, like, kind);
      assert UsesOnly(OneOpCase(ar, kind).ir.program.iterationOps, kinds);
      assert !NeverInterferes(ar, like, OneOpCase(ar, kind));
    }
  }

  lemma KindsAreRespected<V(!new)>(ar: Arithmetic<V>, like: (V, V) -> bool, ops: seq<ValueOp>, kinds: set<OpKind>)
    requires (forall x :: like(x, x)) && UsesOnly(ops, kinds)
      && forall kind | kind in kinds :: KindRespects(ar, like, kind)
    ensures Respects(ar, like, ops)
  {
    forall k | 0 <= k < |ops| ensures OpRespects(ar, like, ops[k]) {
      assert KindRespects(ar, like, KindOf(ops[k]));
    }
  }
}
