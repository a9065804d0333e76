# Hynergy in Dafny

Hynergy's native engine compiles electrical circuits into a small numerical program, keeps that program evaluated
incrementally, solves a linear system per island, and commits device state tick by tick. This project models the
parts of the engine whose logic is intricate and proves what they promise.

- `ValueIr`, `Incremental`: the SSA builder (folding, rates, buckets), staged execution, the compressed reverse
  dependency graph and the dirty-bit worklist. Numbers are an arbitrary type with arbitrary deterministic
  operations, so every result holds bit for bit for IEEE values, NaN and signed zeros included.
- `DiscreteGraph`, `DiscreteRows`, `DiscretePlanner`, `DiscreteClosure`, `DiscreteSystem`, `SignedZeros`: the discrete
  plan (driver tables, initial frontier, qualification by exact row comparison, barriers), the closure that runs on it,
  what both mean for the linear system, and for numbers with two zeros.
- `Canonical`, `Pattern`, `Stamps`, `Primitives`, `Composite`: contribution lists, compressed columns, element stamps
  and grounding, the primitives' arithmetic, and composite flattening.
- `StateStore`, `DeviceArena`, `DeviceStates`, `RuntimeStore`, `WorldTick`, `Subscriptions`: swap-remove storage, the
  tick as a two-phase commit, and the update stream.
- `BinaryNumbers`, `Netlist`, `CpuIsa`, `FullCpu`: the gate-level CPU and its instruction set.
- `ByteCodec`, `Framing`, `WorldProtocol`, `ConstraintPayload`, `ElementPayload`, `DefinitionProtocol`, `Parameters`:
  the native end of the two binary protocols and the parameter constraints.
- `Segments`, `WorldCommandBuffer`, `DeviceDefinitionBuilder`: the Java end of both protocols, which writes at numeric
  offsets and fills in counts and lengths afterwards, and what the two ends mean together.

`Support` holds the shared option, result and list vocabulary. `dafny verify dfyconfig.toml` checks everything.

## Assumptions taken from callers

- An observer whose island is clean shows what it showed when the flag was cleaned (`Subscriptions.Honest`; the
  runtime sets the flag in runtime/island.rs:504 and 1051 and clears it at 1029).
- The solve of an island is an arbitrary function of its state inputs that yields values or an error (`WorldTick`);
  every physical state is bound by at most one output (`WorldTick.UniqueWriters`), which is what `Composite` proves of
  compiled definitions.
- At boolean level a gate's output is its boolean function of its inputs (`Netlist`); `Primitives.GateLevelIsBoolean`
  gives the exact condition on conductances, threshold and supply for one gate.
- After a solve every driver is balanced up to the chosen likeness of numbers
  (`DiscreteClosure.PreparedFrontierIsSound`). Over exact arithmetic this means that its row of the linear system holds
  and its pulls conduct (`DiscreteSystem.BalancedIffRowSolved`).
- The list of iteration matrix sources contains every matrix source that an iteration operation writes or that is a
  solution input (`DiscretePlanner.Island.ListsIterationSources`; compile/island_ir.rs:331-344 collects them by rate).

## Where a property needs a condition

The frontier compares stability values with numeric `==`, which identifies the two zeros, while an operation may
separate them. The frontier misses no driver, up to a likeness of numbers, if and only if the kinds of the iteration
operations respect that likeness (`DiscreteGraph.NonInterferenceIffKindsRespect`). Every kind respects identity; for
`==`, over numbers with the special values of IEEE 754 and exact finite values, every kind but division does
(`SignedZeros.AllButDivisionRespect`), so the condition is that no iteration operation divides. The divisions that the
compiler emits are of parameters and the timestep (compile/definition.rs:550, 670, 698 and 1473), before the iteration
stage. The closure theorems ask for a likeness that is at least as coarse as `==` (`DiscreteClosure.Admissible`), so
identity qualifies only where `==` is identity, as over the reals; where `==` identifies the zeros, `==` itself
qualifies for exactly the programs without division (`SignedZeros.AdmissibleIffNoDivision`).

`is_subset_of` is sound but does not recognise every inclusion; `Parameters.SubsetIsConservative` shows two that it
misses. `Parameters.SubsetIsExactIffTight` says when it recognises all: when every bound is tight;
`Parameters.SubsetIsExact` gives the same condition in a form that can be read off the provided constraints.

## Model

| member | source | states |
|---|---|---|
| ValueIr.ValueProgramBuilder.Binary | electrical/native/hynergy-ir/src/value.rs:351-417 | the new slot keeps the whole program the compiled form of the recorded expression graph: constants are folded to their value, any other operation lands in the bucket of its highest operand rate |
| ValueIr.ValueProgramBuilder.Negate | electrical/native/hynergy-ir/src/value.rs:296-314 | the same for negation |
| ValueIr.ValueProgramBuilder.Constant | electrical/native/hynergy-ir/src/value.rs:250-258 | a constant slot extends the graph; the program stays compiled from it |
| ValueIr.ValueProgramBuilder.NewInput | electrical/native/hynergy-ir/src/value.rs:337-349 | an input slot of the given rate extends the graph; the program stays compiled from it |
| ValueIr.ValueProgramBuilder.Finish | electrical/native/hynergy-ir/src/value.rs:326-335 | the finished program is the compiled form of everything recorded |
| ValueIr.ExecuteOps | electrical/native/hynergy-ir/src/value.rs:718-722 | the loop over one bucket in place equals the recursive meaning of the bucket |
| ValueIr.ExecuteSettles | electrical/native/hynergy-ir/src/value.rs:718-722 | in builder order every operation ends up consistent with its operands, and slots no operation writes keep their value |
| ValueIr.SettledUnique | electrical/native/hynergy-ir/src/value.rs:668-683 | a consistent workspace is determined by its unwritten slots |
| ValueIr.StagingPreservesMeaning | electrical/native/hynergy-ir/src/value.rs:668-683 | static, tick, iteration in this order give every slot the denotation of its source expression |
| ValueIr.RerunAfterInputChange | electrical/native/hynergy-ir/src/value.rs:668-683 | after inputs of one rate change it suffices to run from that stage onward |
| ValueIr.DenoteDependsOnSlowInputs | electrical/native/hynergy-ir/src/value.rs:43-49 | a slot depends only on inputs of its own rate or slower |
| ValueIr.FreshWorkspaceIsReady | electrical/native/hynergy-ir/src/value.rs:661-666 | a new workspace holds the folded constants, so the first full run means what was written |
| Incremental.CompileIterationDependencies | electrical/native/hynergy-ir/src/value.rs:542-577 | the compressed reverse graph lists, for every slot, exactly the iteration operations that read it, in order |
| Incremental.IterationScratch.Mark | electrical/native/hynergy-ir/src/value.rs:517-530 | a bit is set once; the pending count stays the number of dirty operations |
| Incremental.IterationScratch.MarkUsers | electrical/native/hynergy-ir/src/value.rs:511-530 | marks exactly the direct users of a slot |
| Incremental.IterationScratch.TakeLowest | electrical/native/hynergy-ir/src/value.rs:606-631 | clears and returns the least dirty operation of a word |
| Incremental.IterationScratch.Clear | electrical/native/hynergy-ir/src/value.rs:592-603 | no operation stays dirty |
| Incremental.InputWriteDirtiesUsers | electrical/native/hynergy-ir/src/value.rs:511-515 | after writing an input only its users can be inconsistent |
| Incremental.ExecutingDirtiesUsers | electrical/native/hynergy-ir/src/value.rs:606-631 | executing one operation makes it consistent and only its users can become inconsistent, so marking while draining sets higher bits only |
| Incremental.TakingKeepsClosure | electrical/native/hynergy-ir/src/value.rs:606-631 | taking the least dirty operation moves exactly that operation out of the remaining transitive closure |
| Incremental.ExecuteIterationIncremental | electrical/native/hynergy-ir/src/value.rs:585-632 | the worklist leaves every slot exactly as the full evaluator would, with nothing pending; the sparse path executes each operation of the closure of the marks once, ascending, and counts them; the dense path counts all |
| Incremental.RefreshInputs | electrical/native/hynergy-ir/src/value.rs:500-632 | set and mark any iteration inputs of an evaluated workspace, then refresh: equal to full evaluation on the new inputs, and ready for the next round |
| DiscreteGraph.CompileDriverDependencies | electrical/native/hynergy-engine/src/compile/discrete.rs:437-539 | the row of a producer is the ascending, duplicate-free list of drivers that use its output as a rail or reach its solution input from a pull value |
| DiscreteGraph.CompileInitialFrontier | electrical/native/hynergy-engine/src/compile/discrete.rs:543-634 | the row of a stability value lists exactly the drivers that see it, and the conservative list exactly those that see an unshielded solution input |
| DiscreteGraph.Explore | electrical/native/hynergy-engine/src/compile/discrete.rs:493-517 | the search with visited generations finds exactly the flagged slots reachable from the pulls without passing another flagged slot |
| DiscreteGraph.CutDetermines | electrical/native/hynergy-engine/src/compile/discrete.rs:543-634 | a slot is determined, up to any likeness the operations respect, by the cut slots and leaves it reaches |
| DiscreteGraph.FrontierNonInterference | electrical/native/hynergy-engine/src/compile/discrete.rs:543-634 | a driver neither conservative nor listed under a changed stability value has unchanged pulls |
| DiscreteGraph.UnlistedDriversKeepPulls | electrical/native/hynergy-engine/src/compile/discrete.rs:206-211 | a driver listed under none of the changed producers has unchanged pulls |
| DiscreteGraph.DisrespectBreaksNonInterference | electrical/native/hynergy-engine/src/runtime/discrete.rs:188-203 | where an operation separates alike operands there is an island whose frontier misses a driver: it watches two stability values, is not conservative, none of them changes, and its pulls do |
| DiscreteGraph.NonInterferenceIffKindsRespect | electrical/native/hynergy-engine/src/compile/discrete.rs:543-634 | the exact condition: the frontier misses no driver of any island whose iteration operations are of the given kinds if and only if every one of these kinds respects the likeness |
| SignedZeros.NonInterferenceIffNoDivision | electrical/native/hynergy-engine/src/runtime/discrete.rs:188-203 | over numbers with two zeros, infinities and not-a-number, compared by `==`: the frontier misses no driver if and only if no iteration operation is a division |
| SignedZeros.AdmissibleIffNoDivision | electrical/native/hynergy-engine/src/runtime/discrete.rs:335-359 | and the condition of the closure theorems holds of exactly the programs that do not divide, although the closure itself does |
| SignedZeros.QuotientRules | electrical/native/hynergy-ir/src/value.rs:115-160 | the sign rules of IEEE 754, section 6.3: a finite quotient times its divisor is the dividend, sign included |
| SignedZeros.ReciprocalRules | electrical/native/hynergy-ir/src/value.rs:115-160 | dividing by a zero is multiplying by an infinity of its sign, and the other way round |
| SignedZeros.OppositesCancel | electrical/native/hynergy-ir/src/value.rs:115-160 | the sum of opposites is positive zero, and opposite infinities have none |
| SignedZeros.NegativeZeroIsNeutral | electrical/native/hynergy-ir/src/value.rs:115-160 | negative zero is neutral for sums |
| SignedZeros.ProductRules | electrical/native/hynergy-ir/src/value.rs:115-160 | products commute and one is neutral |
| DiscreteClosure.PreparedFrontierIsSound | electrical/native/hynergy-engine/src/runtime/discrete.rs:171-218 | for numbers and programs that are `Admissible`: after a solve that balanced it, a driver outside the prepared frontier is still balanced if some stability value moved or the driver is not conservative |
| DiscreteClosure.DiscreteScratch.PrepareFrontier | electrical/native/hynergy-engine/src/runtime/discrete.rs:171-218 | the frontier lists each seeded driver once, and is empty if no stability value moved |
| DiscreteClosure.DiscreteScratch.BeginNextFrontier | electrical/native/hynergy-engine/src/runtime/discrete.rs:94-103 | the marks of the previous round no longer count, also when the generation wraps |
| DiscreteClosure.DiscreteScratch.QueueDependent | electrical/native/hynergy-engine/src/runtime/discrete.rs:105-118 | a driver is queued at most once per round |
| DiscreteClosure.DiscreteScratch.PredictFrontier | electrical/native/hynergy-engine/src/runtime/discrete.rs:326-360 | the outputs of the frontier, or the failure to predict one |
| DiscreteClosure.CheckBarriers | electrical/native/hynergy-engine/src/runtime/discrete.rs:430-452 | true exactly when a matrix or right-hand-side barrier differs from its reference |
| DiscreteClosure.RoundKeepsBalance | electrical/native/hynergy-engine/src/runtime/discrete.rs:311-423 | one synchronous round: everything outside the next frontier is balanced if everything outside the current one was |
| DiscreteClosure.UnmovedRoundSettles | electrical/native/hynergy-engine/src/runtime/discrete.rs:364-397 | a round that moves no output ends with every driver balanced |
| DiscreteClosure.DiscreteScratch.Round | electrical/native/hynergy-engine/src/runtime/discrete.rs:311-423 | keeps the invariant, or stops with the reason |
| DiscreteClosure.DiscreteScratch.Run | electrical/native/hynergy-engine/src/runtime/discrete.rs:288-427 | the rounds from the initial values, predictions and frontier, each with no barrier changed and some output moved, ended by the first cause that applies: settled with every driver balanced and no barrier changed, a changed barrier, a driver that cannot be predicted, or the budget; only driver outputs move |
| DiscreteClosure.RunIsDetermined | electrical/native/hynergy-engine/src/runtime/discrete.rs:288-427 | two runs from the same start make the same rounds and end alike, in the same values |
| DiscreteClosure.EmptyFrontierEnds | electrical/native/hynergy-engine/src/runtime/discrete.rs:296-308 | an empty frontier settles at once unless a barrier has changed |
| DiscreteClosure.QuietFrontierSettles | electrical/native/hynergy-engine/src/runtime/discrete.rs:364-397 | a frontier none of whose drivers can move settles in the first round |
| DiscreteClosure.ExceedingTakesAllRounds | electrical/native/hynergy-engine/src/runtime/discrete.rs:310-427 | the budget is exceeded only after all its rounds, in each of which no barrier had changed and some output moved |
| Canonical.MergeEqualKeys | electrical/native/hynergy-ir/src/matrix.rs:106-133 | the read and write cursors in one vector keep the weight of every (destination, source) and leave strictly ascending keys |
| Canonical.Canonicalize | electrical/native/hynergy-ir/src/matrix.rs:106-133 | the canonical form: ascending, no zero scale, same weights |
| Canonical.NewProgram | electrical/native/hynergy-ir/src/matrix.rs:46-68 | a program holds the canonical form of its contributions |
| Canonical.CanonicalFormIsUnique | electrical/native/hynergy-ir/src/rhs.rs:110-136 | two canonical lists with the same weights are equal |
| Canonical.SameMapIffSameCanonicalForm | electrical/native/hynergy-ir/src/rhs.rs:110-136 | two contribution lists denote the same linear map exactly when their canonical forms are equal |
| Canonical.ExecuteAdditive | electrical/native/hynergy-ir/src/rhs.rs:93-108 | adds the map of the program to the vector |
| Canonical.ExecuteRhs | electrical/native/hynergy-ir/src/rhs.rs:88-91 | overwrites the vector with the map of the program |
| Pattern.PatternBuilder.Request | electrical/native/hynergy-mna/src/pattern.rs:97-104 | records an entry, or rejects an index outside the dimension and records nothing |
| Pattern.PatternBuilder.Finish | electrical/native/hynergy-mna/src/pattern.rs:106-148 | a consistent compressed pattern that stores exactly the requested entries |
| Pattern.MnaPattern.Slot | electrical/native/hynergy-mna/src/pattern.rs:180-195 | the slot of an entry, exactly for the stored entries |
| Pattern.MnaPattern.CoordinateOf | electrical/native/hynergy-mna/src/pattern.rs:197-224 | the binary search over column pointers finds the coordinate, exactly for slots below the entry count, also across empty columns |
| Pattern.MnaPattern.StoresIsABijection | electrical/native/hynergy-mna/src/pattern.rs:180-224 | slots and stored coordinates determine each other |
| Pattern.MnaPattern.CoordinateThenSlot | electrical/native/hynergy-mna/src/pattern.rs:180-224 | a coordinate read from a slot leads back to the slot |
| Pattern.MnaPattern.SlotThenCoordinate | electrical/native/hynergy-mna/src/pattern.rs:180-224 | a slot found for a coordinate leads back to the coordinate |
| DiscreteRows.PartitionPoint | electrical/native/hynergy-engine/src/compile/discrete.rs:717-737 | the split point of a list ordered by its first key |
| DiscreteRows.SliceOf | electrical/native/hynergy-engine/src/compile/discrete.rs:717-729 | the slice holds exactly the terms with the given first key, in order |
| DiscreteRows.MatchingRowIsPullCurrent | electrical/native/hynergy-engine/src/compile/discrete.rs:661-686 | a row equal to the expected footprint is pullUp * (x_out - x_high) + pullDown * (x_out - x_low) |
| DiscreteRows.BlendSolvesRow | electrical/native/hynergy-engine/src/runtime/discrete.rs:335-359 | such a row vanishes at the predicted blend of the rails |
| DiscreteRows.BarriersAreSound | electrical/native/hynergy-engine/src/compile/discrete.rs:351-387 | with equal barrier sources two assembled matrices differ only by the footprints |
| DiscreteRows.RhsBarriersAreSound | electrical/native/hynergy-engine/src/compile/discrete.rs:389-397 | with equal right-hand-side sources the right-hand side does not move |
| DiscretePlanner.CollectTerms | electrical/native/hynergy-engine/src/compile/discrete.rs:636-659 | the matrix program as (row, column, source) terms of the output rows and the iteration sources, with the assembled weights |
| DiscretePlanner.EntryIsContribution | electrical/native/hynergy-ir/src/matrix.rs:89-104 | the placed terms describe the matrix that executing the program assembles |
| DiscretePlanner.ClassifyOutputs | electrical/native/hynergy-engine/src/compile/discrete.rs:272-286 | the sorted distinct driven outputs, and those driven twice |
| DiscretePlanner.RowIsExpected | electrical/native/hynergy-engine/src/compile/discrete.rs:312-336 | true exactly when the row has the weights of the driver footprint and no others |
| DiscretePlanner.SelectQualified | electrical/native/hynergy-engine/src/compile/discrete.rs:295-345 | keeps exactly the qualifying candidates, in order |
| DiscretePlanner.FindBarriers | electrical/native/hynergy-engine/src/compile/discrete.rs:351-387 | exactly the iteration sources that do more than the qualified footprints, with their positions |
| DiscretePlanner.CompileDiscretePlan | electrical/native/hynergy-engine/src/compile/discrete.rs:257-435 | a plan exists exactly when there is no latch and some candidate qualifies; drivers, barriers and tables are exactly those of the island |
| DiscreteSystem.PlannedRowIsPullCurrent | electrical/native/hynergy-engine/src/compile/discrete.rs:295-345 | in every workspace the row of a planned driver in A x = b is its pull current, and its right-hand side is zero |
| DiscreteSystem.BarriersHoldTheSystem | electrical/native/hynergy-engine/src/compile/discrete.rs:351-397 | while no barrier differs, and no matrix source outside the iteration, every entry that the matrix program assembles moves only by the planned footprints and the right-hand side not at all; nothing is asked of any other slot |
| DiscreteSystem.BarriersHoldTheTick | electrical/native/hynergy-engine/src/runtime/discrete.rs:430-452 | so between two evaluated workspaces of one tick equal barriers suffice, however the solution inputs moved |
| DiscreteSystem.BalancedIffRowSolved | electrical/native/hynergy-engine/src/runtime/discrete.rs:335-359 | a driver is balanced exactly when its row of the linear system holds and its pulls conduct |
| DiscreteSystem.SettledClosureSolvesDriverRows | electrical/native/hynergy-engine/src/runtime/discrete.rs:288-427 | a settled closure solves every driver row of the newly assembled system |
| DiscreteSystem.CloseSolution | electrical/native/hynergy-engine/src/runtime/island.rs:662-722 | from one solve to the next: with the references captured at the solve, the closure is the run from the seeded frontier, which either stops with its reason or leaves a vector that solves every driver row of a system that differs from the solved one only by the footprints; if no closure was needed, the solution still solves the rows of all drivers that are not conservative |
| Stamps.SystemBuilder.StampConductance | electrical/native/hynergy-engine/src/compile/definition.rs:1151-1161 | adds the conductance current between two nodes and nothing else |
| Stamps.SystemBuilder.StampCurrentSource | electrical/native/hynergy-engine/src/compile/definition.rs:1371-1378 | adds a constant current between two nodes |
| Stamps.SystemBuilder.StampVccs | electrical/native/hynergy-engine/src/compile/definition.rs:1400-1411 | adds a current proportional to the control voltage |
| Stamps.SystemBuilder.StampVoltageSource | electrical/native/hynergy-engine/src/compile/definition.rs:1381-1397 | adds a branch current and the equation of its voltage |
| Stamps.SystemBuilder.StampVcvs | electrical/native/hynergy-engine/src/compile/definition.rs:1414-1433 | adds a branch current and the gain equation |
| Stamps.SystemBuilder.StampCapacitor | electrical/native/hynergy-engine/src/compile/definition.rs:662-687 | adds the backward-Euler current: capacitance over the timestep times the change of the voltage |
| Stamps.SystemBuilder.StampInductor | electrical/native/hynergy-engine/src/compile/definition.rs:689-714 | adds the backward-Euler companion current of an inductor |
| Stamps.SystemBuilder.StampLinearized | electrical/native/hynergy-engine/src/compile/definition.rs:1502-1514 | adds the current of the linearised controlled conductance |
| Stamps.SystemBuilder.StampAll | electrical/native/hynergy-engine/src/compile/definition.rs:484-775 | for every list of primitive stamps, assignment and row the residual grows by the sum of the elements' own currents and branch equations; a vector solves the system without the ground row exactly when, extended by zero volts, it solves every row |
| Stamps.SystemBuilder.Stamp | electrical/native/hynergy-engine/src/compile/definition.rs:484-775 | each kind of element adds its own current and branch equation, stated as equations in the voltages |
| Stamps.SolutionsAreCircuitStates | electrical/native/hynergy-engine/src/compile/definition.rs:484-775 | the solutions of the stamped system are exactly the states of the circuit: the element currents cancel at every node and every source has its voltage |
| Stamps.Layout.NodeUnknown | electrical/native/hynergy-engine/src/compile/island.rs:95-109 | the first node is ground; the others are numbered in order |
| Stamps.GroundingLosesNothing | electrical/native/hynergy-engine/src/compile/island.rs:95-109 | a solution without the ground row, extended by zero volts, solves every row of the full system |
| Stamps.FullSolvesBound | electrical/native/hynergy-engine/src/compile/island.rs:95-109 | and conversely |
| Stamps.ReferenceOnlyShifts | electrical/native/hynergy-engine/src/compile/island.rs:64-109 | another reference node only shifts all voltages by a constant |
| Primitives.LinearizeSelectsPiece | electrical/native/hynergy-engine/src/compile/definition.rs:1450-1514 | the arithmetic selection computes the piecewise conductance and its slope |
| Primitives.LinearizationIsExactHere | electrical/native/hynergy-engine/src/compile/definition.rs:1502-1514 | the current that the stamped element carries at the linearisation point is the true one |
| Primitives.ElementCarriesLinearCurrent | electrical/native/hynergy-engine/src/compile/definition.rs:1502-1514 | the stamped element carries the linear current of the two voltages across it |
| Primitives.LinearizationErrorIsSecondOrder | electrical/native/hynergy-engine/src/compile/definition.rs:1502-1514 | inside one piece the error is the slope times the two voltage differences |
| Primitives.RampIsBounded | electrical/native/hynergy-engine/src/compile/definition.rs:1450-1500 | the conductance stays between its two levels |
| Primitives.NextModeIsComparator | electrical/native/hynergy-engine/src/compile/definition.rs:1231-1268 | the mode arithmetic is a comparator: on at or above the upper level, off at or below the lower one, unchanged between |
| Primitives.DeadBandHolds | electrical/native/hynergy-engine/src/compile/definition.rs:1231-1268 | no input series inside the dead band changes the mode |
| Primitives.LastExcursionDecides | electrical/native/hynergy-engine/src/compile/definition.rs:1231-1268 | the last input outside the dead band decides the mode, whatever it was before |
| Primitives.GateLevelIsBoolean | electrical/native/hynergy-engine/src/compile/definition.rs:1270-1368 | for each kind of gate: at all input voltages the balanced output, read with the threshold of the inputs, is the boolean function of the inputs so read, exactly when the threshold separates the two output levels |
| Composite.LiftIsInjective | electrical/native/hynergy-engine/src/compile/definition.rs:786-862 | offset flattening of (element, child state) is injective |
| Composite.EveryStateIsLifted | electrical/native/hynergy-engine/src/compile/definition.rs:786-862 | and onto the parent states |
| Composite.FlattenKeepsUniqueWriters | electrical/native/hynergy-engine/src/compile/definition.rs:895-979 | if every child state has one writing partition, so has every parent state |
| Composite.FlattenKeepsDefaults | electrical/native/hynergy-engine/src/compile/definition.rs:786-862 | each parent state starts and fails as the child state it comes from |
| Composite.SpecHasUniqueWriters | electrical/native/hynergy-engine/src/compile/definition.rs:37-105 | by induction over nested definitions every compiled state has exactly one writing partition |
| Composite.SpecDescribesLeaves | electrical/native/hynergy-engine/src/compile/definition.rs:215-243 | the states of a compiled definition, however nested, are those of its primitives in order: each starts at zero, a failed tick clears exactly those of delays, and each is written by one partition and read by one, those its primitive was laid out to |
| Composite.New | electrical/native/hynergy-engine/src/compile/definition.rs:37-105 | accepts exactly the tables in which every state has one writer; an error names a state with two writers or none |
| Composite.FoldPartition | electrical/native/hynergy-engine/src/compile/definition.rs:895-979 | the used, read and written states of a parent partition, ascending, from flags |
| Composite.Compile | electrical/native/hynergy-engine/src/compile/definition.rs:107-183 | compiling never fails for a writer and yields the flattened definition |
| StateStore.StateChunk.PushRow | electrical/native/hynergy-engine/src/state.rs:44-52 | a zeroed row at the end, not initialised |
| StateStore.StateChunk.RemoveRow | electrical/native/hynergy-engine/src/state.rs:88-116 | the last row and its bit move into the gap |
| StateStore.PhysicalStateStore.AddDevice | electrical/native/hynergy-engine/src/state.rs:202-231 | one row of zeros at the given place, every other row as before |
| StateStore.PhysicalStateStore.RemoveDevice | electrical/native/hynergy-engine/src/state.rs:267-312 | mirrors the removal of the row and of an emptied chunk |
| StateStore.PhysicalStateStore.ReadLogical | electrical/native/hynergy-engine/src/state.rs:315-346 | the stored value once initialised, the initialiser before, an error outside; what this means over commits is stated by `DeviceStates` and `WorldTick` |
| StateStore.PhysicalStateStore.Write | electrical/native/hynergy-engine/src/state.rs:464-486 | one value of one row changes |
| StateStore.PhysicalStateStore.MarkInitialized | electrical/native/hynergy-engine/src/state.rs:488-503 | one bit is set |
| StateStore.RemovalMoves | electrical/native/hynergy-engine/src/state.rs:267-312 | every surviving row is found, unchanged, at its new place |
| DeviceArena.DeviceArena.Locator | electrical/native/hynergy-model/src/network/device_arena.rs:447-460 | the table of packed entries answers with the location of an assigned device, and an error for any other |
| DeviceArena.DeviceArena.Insert | electrical/native/hynergy-model/src/network/device_arena.rs:499-654 | appends the device to a chunk of its definition, a new one only if none has room, and indexes it; refused exactly if every chunk is used and none has room |
| DeviceArena.DeviceArena.Remove | electrical/native/hynergy-model/src/network/device_arena.rs:746-822 | swap-removes the row, drops an emptied chunk, re-indexes what moved and reports both moves |
| DeviceStates.DeviceStates.AddDevice | electrical/native/hynergy-engine/src/lib.rs:738-767 | as a map from device to state row: one new entry of zeros, not initialised, whose states all read as their initialisers; refused exactly if every chunk is used and none of the definition has room, hence never with fewer devices than chunks |
| DeviceStates.DeviceStates.RemoveDevice | electrical/native/hynergy-engine/src/lib.rs:770-812 | as a map: exactly one entry disappears, whatever is swapped |
| DeviceStates.DeviceStates.CommitState | electrical/native/hynergy-engine/src/state.rs:464-503 | as a map: one value of one device changes and its row is initialised; the state then reads as that value whatever the initialiser |
| DeviceStates.DeviceStates.ReadState | electrical/native/hynergy-engine/src/state.rs:315-346 | reads a state of a device through the arena and the sidecar |
| DeviceStates.DeviceStates.ReadingIsOfRow | electrical/native/hynergy-engine/src/state.rs:315-346 | what is read is told by the map from device to row alone, wherever the row is stored |
| DeviceStates.DeviceStates.FewDevicesLeaveRoom | electrical/native/hynergy-model/src/network/device_arena.rs:472-540 | chunks are never empty, so the arena is not exhausted while there are fewer devices than chunks |
| DeviceStates.DeviceStates.EveryDeviceHasRow | electrical/native/hynergy-engine/src/state.rs:348-437 | every device has a row as wide as its definition |
| RuntimeStore.IslandRuntimeStore.Get | electrical/native/hynergy-engine/src/runtime/store.rs:13-26 | resolves a live id to its own runtime and no other id |
| RuntimeStore.IslandRuntimeStore.Insert | electrical/native/hynergy-engine/src/runtime/store.rs:28-51 | binds one id, returns what it held, leaves all other ids |
| RuntimeStore.IslandRuntimeStore.Remove | electrical/native/hynergy-engine/src/runtime/store.rs:53-66 | unbinds one id and repairs the moved entry |
| WorldTick.World.PrepareAll | electrical/native/hynergy-engine/src/lib.rs:434-457 | reads every input before anything is written; only a non-localisable error stops the tick |
| WorldTick.World.SolveAll | electrical/native/hynergy-engine/src/lib.rs:459-490 | solves the prepared islands; a localisable failure only makes its island unavailable |
| WorldTick.World.ValidateAll | electrical/native/hynergy-engine/src/lib.rs:941-981 | checks every output before the first write |
| WorldTick.World.ScatterAll | electrical/native/hynergy-engine/src/lib.rs:983-1009 | writes the outputs of available islands and the failed-tick values of the others |
| WorldTick.World.FinalizeAll | electrical/native/hynergy-engine/src/lib.rs:1011-1024 | marks the written rows initialised |
| WorldTick.World.Tick | electrical/native/hynergy-engine/src/lib.rs:429-495 | an error leaves all values and bits and is the fatal fate of some island; success exactly when no island fails fatally, and then every state holds its writer's output or failed-tick value, all from the state before |
| WorldTick.FateIs | electrical/native/hynergy-engine/src/lib.rs:434-495 | an island is fatal exactly if a state it reads or writes is missing or its solver fails beyond it, and comes up exactly if it is solved with finite outputs |
| WorldTick.LastSuppliedIsRead | electrical/native/hynergy-engine/src/lib.rs:941-1035 | over any run of ticks a state reads as the value its writer last supplied, however many ticks failed or found the writer down since |
| WorldTick.NextSolveUsesLastSupplied | electrical/native/hynergy-engine/src/runtime/island.rs:423-435 | so every island that reads the state solves the next tick with that value |
| WorldTick.NeverSuppliedReadsInitial | electrical/native/hynergy-engine/src/state.rs:315-346 | a state nothing was supplied for reads as at the start: the stored value of an initialised row, else the initialiser |
| WorldTick.UnboundReadsInitial | electrical/native/hynergy-engine/src/state.rs:315-346 | a state in a row no island writes never changes, and one outside the rows stays missing |
| WorldTick.StoreReadsAlike | electrical/native/hynergy-engine/src/state.rs:315-346 | reading the rows of one chunk is reading the store of that chunk |
| WorldTick.CommitIgnoresIslandOrder | electrical/native/hynergy-engine/src/lib.rs:941-1035 | the writes of any reordering of the islands are the same |
| WorldTick.CommitDetermines | electrical/native/hynergy-engine/src/lib.rs:429-495 | two commits of the same islands agree on every value |
| Subscriptions.World.Subscribe | electrical/native/hynergy-engine/src/runtime/subscription.rs:112-127 | for a known observer the least id never handed out, with no baseline; exhaustion exactly when all ids are gone |
| Subscriptions.World.Unsubscribe | electrical/native/hynergy-engine/src/runtime/subscription.rs:129-140 | succeeds exactly if the subscription exists and removes it and no other |
| Subscriptions.World.RemoveDevice | electrical/native/hynergy-engine/src/runtime/subscription.rs:142-146 | removes exactly the subscriptions of the device |
| Subscriptions.World.Tick | electrical/native/hynergy-engine/src/lib.rs:429-495 | after a successful tick a client that replays the updates knows the present observation of every subscription; the updates are exactly the changed ones |
| Subscriptions.World.Collect | electrical/native/hynergy-engine/src/lib.rs:525-589 | publishes exactly the due updates and moves the baselines |
| Subscriptions.AllDueIsMinimal | electrical/native/hynergy-engine/src/lib.rs:525-589 | one update per changed subscription and none otherwise, in ascending id order |
| Subscriptions.ReplayReaches | electrical/native/hynergy-engine/src/lib.rs:525-589 | replaying the updates tells the client the present observation |
| Netlist.EvaluateSettles | electrical/native/hynergy-benchmarks/src/fixtures/digital.rs:341-355 | one pass in build order settles an acyclic netlist |
| Netlist.SettledUnique | electrical/native/hynergy-benchmarks/src/fixtures/digital.rs:341-355 | the settled levels are unique for given sources |
| Netlist.DigitalHarness.XorFromNands | electrical/native/hynergy-benchmarks/src/fixtures/digital.rs:224-229 | four NAND gates compute exclusive or |
| Netlist.DigitalHarness.FullAdder | electrical/native/hynergy-benchmarks/src/fixtures/digital.rs:252-266 | sum and carry are the binary sum of the three inputs |
| Netlist.DigitalHarness.MuxInto | electrical/native/hynergy-benchmarks/src/fixtures/digital.rs:240-250 | the selected input drives the output |
| FullCpu.RippleAdd | electrical/native/hynergy-benchmarks/src/fixtures/digital.rs:1010-1022 | the ripple of full adders adds two words with carry |
| FullCpu.Decoder | electrical/native/hynergy-benchmarks/src/fixtures/digital.rs:1215-1232 | a line is high exactly when the wires carry its number |
| FullCpu.BuildRom | electrical/native/hynergy-benchmarks/src/fixtures/digital.rs:1182-1213 | the ROM wires carry the addressed program word |
| FullCpu.ZeroDetector | electrical/native/hynergy-benchmarks/src/fixtures/digital.rs:1255-1259 | high exactly when the register is zero |
| FullCpu.BuildDataPath | electrical/native/hynergy-benchmarks/src/fixtures/digital.rs:1010-1049 | A, B and carry receive what the decoded instruction says, or hold |
| FullCpu.BuildBranch | electrical/native/hynergy-benchmarks/src/fixtures/digital.rs:1051-1072 | the program counter receives its successor, the target of a taken branch, or holds |
| FullCpu.MachineWorks | electrical/native/hynergy-benchmarks/src/fixtures/digital.rs:970-1072 | the parts together receive the next machine state |
| FullCpu.Build | electrical/native/hynergy-benchmarks/src/fixtures/digital.rs:970-1072 | for every width from four and every sixteen-word program the netlist implements the next-state function |
| FullCpu.RunRefinesIsa | electrical/native/hynergy-benchmarks/src/fixtures/digital.rs:970-1072 | any run of the next-state function executes one instruction in two ticks |
| FullCpu.CpuRefinesIsa | electrical/native/hynergy-benchmarks/src/fixtures/digital.rs:970-1072 | 2n ticks of the netlist from all-low delays show the state of n instructions |
| CpuIsa.SampleRuns | electrical/native/hynergy-benchmarks/tests/circuit_fixtures.rs:291-345 | the sample program, word by word, goes through the table of states of its test, at any width from eight |
| FullCpu.NetlistRunsSample | electrical/native/hynergy-benchmarks/tests/circuit_fixtures.rs:291-345 | and so does the netlist built around it |
| FullCpu.TickIsDeterministic | electrical/native/hynergy-benchmarks/src/fixtures/digital.rs:341-355 | a tick does not depend on the order in which gates settle |
| ByteCodec.WordReadsBack | electrical/native/hynergy-protocol/src/decoder.rs:34-48 | little-endian words read back |
| ByteCodec.BytesWriteBack | electrical/native/hynergy-protocol/src/decoder.rs:34-48 | and write back |
| ByteCodec.BytesByPlace | electrical/native/hynergy-protocol/src/decoder.rs:34-48 | the byte at place k counts multiples of 256 to the power of k |
| ByteCodec.Decoder.ReadBytes | electrical/native/hynergy-protocol/src/decoder.rs:58-71 | succeeds exactly when enough input is left; otherwise it reports the absolute end and does not move |
| ByteCodec.Decoder.ReadWord | electrical/native/hynergy-protocol/src/decoder.rs:34-56 | the same for words, whose bytes are consumed |
| Framing.ReadHeader | electrical/native/hynergy-protocol/src/world.rs:127-165 | the count of a right header, or the first fault and its offset |
| Framing.FramesArePrefixFree | electrical/native/hynergy-protocol/src/world.rs:175-222 | what was decoded is the beginning of what was encoded |
| Framing.BufferIsInjective | electrical/native/hynergy-protocol/src/world.rs:119-233 | a command list is recovered from its buffer |
| Framing.StoppedRejects | electrical/native/hynergy-protocol/src/world.rs:175-230 | a buffer the loop stops in encodes no list of commands that all apply |
| Framing.StoppedInEncoding | electrical/native/hynergy-protocol/src/world.rs:175-230 | in an encoding the loop stops only at the first command that is rejected, and the error says which, where and why |
| WorldProtocol.PayloadIsInjective | electrical/native/hynergy-protocol/src/world.rs:235-339 | a command is recovered from its tag and payload |
| WorldProtocol.DecodeWorldCommand | electrical/native/hynergy-protocol/src/world.rs:235-339 | the one command the payload begins with, or its first fault with its offset |
| WorldProtocol.NextCommand | electrical/native/hynergy-protocol/src/world.rs:175-216 | one well-formed frame is consumed, or the first fault of the rest is reported |
| WorldProtocol.DecodePayload | electrical/native/hynergy-protocol/src/world.rs:200-216 | a payload of the expected length is consumed exactly, so the emptiness check never fails |
| WorldProtocol.CommandIsNotFaulty | electrical/native/hynergy-protocol/src/world.rs:175-216 | no well-formed command is refused |
| WorldProtocol.ApplyBuffer | electrical/native/hynergy-protocol/src/world.rs:119-233 | succeeds exactly when the world exists and the input encodes well-formed commands that all apply; otherwise says which command failed, where and why; if a rejected command changes nothing, exactly the commands before the failure are applied |
| ConstraintPayload.EncodingIsPrefixFree | electrical/native/hynergy-protocol/src/definition.rs:397-476 | constraints are recovered from their payload |
| ConstraintPayload.DecodeConstraints | electrical/native/hynergy-protocol/src/definition.rs:397-476 | exactly the encodings of constraints are accepted; the flag word is refused exactly when no constraints have it |
| ConstraintPayload.DecodeBound | electrical/native/hynergy-protocol/src/definition.rs:479-493 | a bound is read exactly when its flag announces it |
| ElementPayload.EncodingIsPrefixFree | electrical/native/hynergy-protocol/src/definition.rs:320-395 | an element is recovered from its payload |
| ElementPayload.EncodingIsNotFaulty | electrical/native/hynergy-protocol/src/definition.rs:320-395 | no well-formed element is refused, in particular not by the early count checks |
| ElementPayload.DecodeTerminals | electrical/native/hynergy-protocol/src/definition.rs:340-358 | past the count check no terminal is cut short |
| ElementPayload.DecodeElement | electrical/native/hynergy-protocol/src/definition.rs:320-395 | exactly the encodings of elements are accepted, and the first fault is reported at its offset |
| DefinitionProtocol.DecodeCommand | electrical/native/hynergy-protocol/src/definition.rs:196-305 | the one command the tag and payload spell, or its fault |
| DefinitionProtocol.CommandIsNotFaulty | electrical/native/hynergy-protocol/src/definition.rs:196-305 | no well-formed command is refused |
| DefinitionProtocol.DecodeBuffer | electrical/native/hynergy-protocol/src/definition.rs:150-318 | succeeds exactly when the input encodes well-formed commands the builder takes and builds from |
| WorldCommandBuffer.WorldCommandBuffer.BeginCommand | electrical/src/main/java/dev/hynergy/electrical/WorldCommandBuffer.java:209-219 | grows the segment if need be and writes tag and payload size behind the commands so far; refused exactly when closed or beyond the maximum capacity |
| WorldCommandBuffer.WorldCommandBuffer.EnsureCapacity | electrical/src/main/java/dev/hynergy/electrical/WorldCommandBuffer.java:226-246 | doubles the segment until the bytes fit, keeping what is written; refused exactly beyond the maximum capacity |
| WorldCommandBuffer.WorldCommandBuffer.AddWire | electrical/src/main/java/dev/hynergy/electrical/WorldCommandBuffer.java:94-100 | checked and written at numeric offsets, the bytes are the frame of the native end's command; an error is the first check that fails and writes no command |
| WorldCommandBuffer.WorldCommandBuffer.RemoveWire | electrical/src/main/java/dev/hynergy/electrical/WorldCommandBuffer.java:102-108 | the same for removing a wire |
| WorldCommandBuffer.WorldCommandBuffer.ConnectWires | electrical/src/main/java/dev/hynergy/electrical/WorldCommandBuffer.java:110-120 | the same for connecting wires |
| WorldCommandBuffer.WorldCommandBuffer.DisconnectWires | electrical/src/main/java/dev/hynergy/electrical/WorldCommandBuffer.java:122-132 | the same for disconnecting wires |
| WorldCommandBuffer.WorldCommandBuffer.AddDevice | electrical/src/main/java/dev/hynergy/electrical/WorldCommandBuffer.java:134-145 | the same for adding a device, whose definition may be any non-zero word |
| WorldCommandBuffer.WorldCommandBuffer.RemoveDevice | electrical/src/main/java/dev/hynergy/electrical/WorldCommandBuffer.java:147-155 | the same for removing a device |
| WorldCommandBuffer.WorldCommandBuffer.AttachTerminal | electrical/src/main/java/dev/hynergy/electrical/WorldCommandBuffer.java:157-169 | the same for attaching a terminal |
| WorldCommandBuffer.WorldCommandBuffer.DetachTerminal | electrical/src/main/java/dev/hynergy/electrical/WorldCommandBuffer.java:171-183 | the same for detaching a terminal |
| WorldCommandBuffer.WorldCommandBuffer.SetDeviceParameter | electrical/src/main/java/dev/hynergy/electrical/WorldCommandBuffer.java:185-201 | the same for a parameter, whose value must be finite |
| WorldCommandBuffer.WorldCommandBuffer.EncodedSegment | electrical/src/main/java/dev/hynergy/electrical/WorldCommandBuffer.java:203-207 | fills in the count: the written bytes are the encoding of the recorded commands |
| WorldCommandBuffer.WorldCommandBuffer.Clear | electrical/src/main/java/dev/hynergy/electrical/WorldCommandBuffer.java:88-92 | no commands, in the same segment |
| WorldCommandBuffer.WorldCommandBuffer.Close | electrical/src/main/java/dev/hynergy/electrical/WorldCommandBuffer.java:312-325 | from then on every operation is refused |
| WorldCommandBuffer.WrittenIsRefusedByWorld | electrical/native/hynergy-protocol/src/world.rs:119-233 | the native end refuses what was written only for a command that the world rejects, never as malformed |
| WorldCommandBuffer.ApplyCommands | electrical/src/main/java/dev/hynergy/electrical/ElectricalWorld.java:328-378 | both ends together apply exactly the recorded commands one by one; a failure names the first rejected command, its offset and the reason; the buffer is empty afterwards |
| DeviceDefinitionBuilder.CountRaised | electrical/src/main/java/dev/hynergy/electrical/DeviceDefinitionBuilder.java:819-826 | a frame written behind a buffer, with the count raised in the header, makes the buffer of one more command |
| DeviceDefinitionBuilder.DeviceDefinitionBuilder.AddTerminal | electrical/src/main/java/dev/hynergy/electrical/DeviceDefinitionBuilder.java:231-243 | appends the command and returns the number of nodes declared so far; every error is told by the state before |
| DeviceDefinitionBuilder.DeviceDefinitionBuilder.AddNode | electrical/src/main/java/dev/hynergy/electrical/DeviceDefinitionBuilder.java:253-265 | the same for an inner node |
| DeviceDefinitionBuilder.DeviceDefinitionBuilder.AddParameter | electrical/src/main/java/dev/hynergy/electrical/DeviceDefinitionBuilder.java:662-715 | the same for a parameter with its flag word and bounds |
| DeviceDefinitionBuilder.FlagsAreBits | electrical/src/main/java/dev/hynergy/electrical/DeviceDefinitionBuilder.java:85-99 | the sum of the flag constants is the word of the flags in the native end's order |
| DeviceDefinitionBuilder.DeviceDefinitionBuilder.AddVoltageObserver | electrical/src/main/java/dev/hynergy/electrical/DeviceDefinitionBuilder.java:553-571 | the same for a voltage observer, both of whose nodes must be declared |
| DeviceDefinitionBuilder.DeviceDefinitionBuilder.AddChildObserver | electrical/src/main/java/dev/hynergy/electrical/DeviceDefinitionBuilder.java:584-601 | the same for an observer of an element, which must be declared |
| DeviceDefinitionBuilder.DeviceDefinitionBuilder.BeginElement | electrical/src/main/java/dev/hynergy/electrical/DeviceDefinitionBuilder.java:369-411 | opens an element whose counts and length are not yet known |
| DeviceDefinitionBuilder.DeviceDefinitionBuilder.ElementTerminal | electrical/src/main/java/dev/hynergy/electrical/DeviceDefinitionBuilder.java:422-441 | adds a declared node as a terminal, before any parameter |
| DeviceDefinitionBuilder.DeviceDefinitionBuilder.ElementLiteral | electrical/src/main/java/dev/hynergy/electrical/DeviceDefinitionBuilder.java:452-474 | adds a finite literal, closing the terminals |
| DeviceDefinitionBuilder.DeviceDefinitionBuilder.ElementParameter | electrical/src/main/java/dev/hynergy/electrical/DeviceDefinitionBuilder.java:483-503 | adds a declared parameter, closing the terminals |
| DeviceDefinitionBuilder.DeviceDefinitionBuilder.EndElement | electrical/src/main/java/dev/hynergy/electrical/DeviceDefinitionBuilder.java:513-537 | fills in both counts, the payload length and the command count: the element becomes the command of all its pieces |
| DeviceDefinitionBuilder.EndCompletes | electrical/src/main/java/dev/hynergy/electrical/DeviceDefinitionBuilder.java:513-537 | with the parameter count and the length filled in, the draft is the frame of the element command |
| DeviceDefinitionBuilder.DeviceDefinitionBuilder.EncodedSegment | electrical/src/main/java/dev/hynergy/electrical/DeviceDefinitionBuilder.java:611-615 | the encoding of the declared commands, unless closed or inside an element |
| DeviceDefinitionBuilder.DeviceDefinitionBuilder.Reset | electrical/src/main/java/dev/hynergy/electrical/DeviceDefinitionBuilder.java:197-218 | starts over with no commands, in the same buffer |
| DeviceDefinitionBuilder.DeviceDefinitionBuilder.Close | electrical/src/main/java/dev/hynergy/electrical/DeviceDefinitionBuilder.java:1078-1093 | from then on every operation is refused |
| DeviceDefinitionBuilder.WrittenIsRefusedByBuilder | electrical/native/hynergy-protocol/src/definition.rs:150-318 | the native end refuses what was written only for a command its builder rejects or a definition it cannot build |
| DeviceDefinitionBuilder.Register | electrical/src/main/java/dev/hynergy/electrical/ElectricalEngine.java:95-140 | both ends together declare exactly the recorded commands one by one, and every identifier in them refers to something declared earlier |
| Parameters.ExcludesZero | electrical/native/hynergy-model/src/parameter.rs:94-105 | true exactly when zero is not admitted |
| Parameters.SubsetIsReflexive | electrical/native/hynergy-model/src/parameter.rs:74-93 | the test is reflexive |
| Parameters.SubsetIsTransitive | electrical/native/hynergy-model/src/parameter.rs:74-93 | and transitive |
| Parameters.SubsetIsSound | electrical/native/hynergy-model/src/parameter.rs:50-93 | every value the provided constraints admit, the required ones admit |
| Parameters.SubsetIsExactIffTight | electrical/native/hynergy-model/src/parameter.rs:74-156 | for any provided constraints: the test decides every inclusion if and only if each bound, on the value and on its reciprocal, is the infimum or supremum of what is admitted and attained where inclusive |
| Parameters.SubsetIsExact | electrical/native/hynergy-model/src/parameter.rs:74-156 | read off any provided constraints, with or without a reciprocal range: inclusions that bound no reciprocal are decided if and only if the bounds on the value are stated in full (each attained, or approached past the other bounds), and all inclusions if and only if those on the reciprocal are as well |
| Parameters.SubsetIsConservative | electrical/native/hynergy-model/src/parameter.rs:74-156 | in general it is only sufficient: two inclusions it does not recognise |

## Left out

- Machine widths: a 64-bit bitset word is the set of its bit positions; the panics on u32 overflow of counts and
  offsets while compiling plans, and the u16/u32 capacity errors of composite compilation, are not modelled. Slot
  identifiers, packed locators, chunk sizes, subscription identifiers and wire offsets keep their limits.
- Floating-point rounding: `Canonical`, `DiscreteRows`, `DiscretePlanner`, `DiscreteSystem`, `Stamps`, `Primitives` and
  `Parameters` are over the reals. Raw f64 parameters whose reciprocal overflows are outside `Parameters`.
- The linear solver: LU factorisation, convergence and retries of runtime/island.rs are not part of this model.
- Library sorts and `dedup` are specification functions or insertion sorts; `Pattern` sorts by a function, and the
  producer lookup of the driver table is a map instead of a sorted vector with binary search.
- DiscretePlanner.CompileDiscretePlan: the second sort of the expected footprints is omitted, since the list is
  already canonical by source.
- DiscreteGraph.Explore: one method for the two searches of the source, which differ only in what they stop at.
- DiscreteClosure.PreparedFrontierIsSound: if no stability value moved, conservative drivers are not covered; the
  frontier is empty then and the caller does not run the closure.
- DiscreteSystem.CloseSolution: the solve itself is an assumption on its result; retries and the fallback that follow
  an outcome other than settled are not modelled.
- SignedZeros: finite values are exact, so overflow, rounding and not-a-number payloads do not occur.
- DiscreteClosure.DiscreteScratch.Run: profiling counters are not modelled.
- Stamps: parameter lookup, observers and the state writes of templates; a diode and a voltage-controlled switch are a
  conductance whose value is chosen by a mode, and the inductor's and capacitor's parameters are non-zero divisors.
- Stamps.SystemBuilder.StampVoltageSource: shares its four branch entries with the controlled source through one helper.
- Composite: only the states of partitions; terminals, parameters, observers and template inlining are not modelled.
- DeviceArena: a chunk record is held as two parallel vectors, parameters and terminals of a row are left out, and the
  hint of the active chunk per definition is not proved accurate (it is re-checked on use). Unloaded directory entries
  do not arise; that no packed location falls into their range is part of `DeviceArena.Resident`.
- DeviceStates: the checks that a state index matches its address belong to island binding and are not modelled.
- RuntimeStore: iteration over the dense entries.
- WorldTick: topology synchronisation before the tick; islands are fixed during a tick.
- Subscriptions: the network's own checks of device and observer identifiers are parameters.
- FullCpu: the gates are placed stage by stage instead of interleaved bit by bit, and registers are allocated in one
  call; probes, inputs, the NOR gate and the analog solve of the harness are not modelled.
- WorldProtocol.ApplyBuffer: the world is an arbitrary state with an arbitrary `apply`; whether a rejected command
  leaves the real world untouched is a property of the world (`Framing.Atomic` where it is used).
- DefinitionProtocol.DecodeBuffer: the definition builder is an arbitrary state with arbitrary steps and build.
- Framing: the mapping of model errors to wire error kinds is one constructor that carries the error.
- ConstraintPayload: the flag word is its list of bits; the masks of the source are the positions in that list.
- WorldCommandBuffer, DeviceDefinitionBuilder: running out of memory, the resolver of device types, and the life of an
  arena apart from being open or closed. An f64 is its bit pattern. The counters of the definition builder, and the
  fields of its unfinished element, are held in one record each.
- WorldCommandBuffer.ApplyCommands: the batches of wire and device identifiers that are committed with the commands.
- DeviceDefinitionBuilder.FlagsAreBits: the disjoint flag constants are added instead of combined bit by bit.
- DeviceDefinitionBuilder.Register: the identifier of the definition in the registry, and the poisoning of the engine.
- Foreign-function layer, engine-level world table, topology derivation, network connections, benchmarks, allocation
  and profiling code, and the rest of the Java side.
