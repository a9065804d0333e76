// One tick of the world (tick_inner and the commit phases in hynergy-engine/src/lib.rs, with the
// binding rules of runtime/island.rs and runtime/bindings.rs): all islands read the state of the
// previous tick and solve, all outputs are validated, and only then is anything written.
//
// An island's solver is an arbitrary function of the state values it reads. Topology changes are
// taken to be synchronised already.
module WorldTick {
  import opened Support
  import opened StateStore

  datatype Address = Address(row: nat, index: nat)

  datatype TickError =
    | MissingParameter | Singular | NonlinearDidNotConverge | NonFiniteMatrix | NonFiniteSolution | NonFiniteState
    | MissingDevice | MissingState | IndexOverflow | OutOfMemory | BackendFailure | NotFactorized | RhsLengthMismatch
  {
    /** `is_localizable_tick_failure`: the island becomes unavailable and the tick goes on. */
    predicate IsLocalizable(): (localizable: bool)
      ensures !localizable <==>
        this in {MissingDevice, MissingState, IndexOverflow, OutOfMemory, BackendFailure, NotFactorized, RhsLengthMismatch}
    {
      MissingParameter? || Singular? || NonlinearDidNotConverge? || NonFiniteMatrix? || NonFiniteSolution?
        || NonFiniteState?
    }
  }

  datatype Transition<V> = Preserve | Literal(value: V)

  datatype InputBinding<V> = InputBinding(address: Address, initializer: V)

  datatype OutputBinding<V> = OutputBinding(address: Address, source: nat, initializer: V, transition: Transition<V>)

  datatype Solve<V> = Solved(values: seq<V>) | SolveFailed(error: TickError)

  datatype Island<!V> = Island(inputs: seq<InputBinding<V>>, outputs: seq<OutputBinding<V>>, solve: seq<V> -> Solve<V>)

  datatype Status = Pending | Available | Unavailable

  ghost predicate Exists<V>(rows: seq<Row<V>>, at: Address) {
    at.row < |rows| && at.index < |rows[at.row].values|
  }

  /** `read_logical_at`. */
  function ReadLogical<V>(rows: seq<Row<V>>, at: Address, initializer: V): Result<V, TickError> {
    if at.row >= |rows| || at.index >= |rows[at.row].values| then Err(MissingState)
    else if rows[at.row].initialized then Ok(rows[at.row].values[at.index])
    else Ok(initializer)
  }

  /** `validate_address`. */
  function ValidateAddress<V>(rows: seq<Row<V>>, at: Address): Option<TickError> {
    if at.row >= |rows| || at.index >= |rows[at.row].values| then Some(MissingState) else None
  }

  // ----- What a tick means for one island -----

  /** The state inputs in binding order, or the first read that fails. */
  ghost function ReadInputs<V>(inputs: seq<InputBinding<V>>, rows: seq<Row<V>>): Result<seq<V>, TickError> {
    if inputs == [] then Ok([])
    else
      var last := inputs[|inputs| - 1];
      match ReadInputs(inputs[..|inputs| - 1], rows)
      case Err(e) => Err(e)
      case Ok(values) =>
        match ReadLogical(rows, last.address, last.initializer)
        case Err(e) => Err(e)
        case Ok(x) => Ok(values + [x])
  }

  /** The first output that is not finite or has no destination. */
  ghost function SuccessError<V>(
      finite: V -> bool, outputs: seq<OutputBinding<V>>, values: seq<V>, rows: seq<Row<V>>): Option<TickError>
    requires forall b | b in outputs :: b.source < |values|
  {
    if outputs == [] then None
    else
      var last := outputs[|outputs| - 1];
      assert last in outputs;
      match SuccessError(finite, outputs[..|outputs| - 1], values, rows)
      case Some(e) => Some(e)
      case None => if !finite(values[last.source]) then Some(NonFiniteState) else ValidateAddress(rows, last.address)
  }

  /** `validate_failed`: a preserved state must be readable, a literal one must have a destination. */
  function FailedError<V>(rows: seq<Row<V>>, b: OutputBinding<V>): Option<TickError> {
    match b.transition
    case Preserve =>
      (match ReadLogical(rows, b.address, b.initializer)
       case Ok(_) => None
       case Err(e) => Some(e))
    case Literal(_) => ValidateAddress(rows, b.address)
  }

  ghost function FailureError<V>(outputs: seq<OutputBinding<V>>, rows: seq<Row<V>>): Option<TickError> {
    if outputs == [] then None
    else
      match FailureError(outputs[..|outputs| - 1], rows)
      case Some(e) => Some(e)
      case None => FailedError(rows, outputs[|outputs| - 1])
  }

  /** The fate of an island in a tick, as a function of the state before the tick only. */
  datatype Fate<V> = Up(values: seq<V>) | Down | Fatal(error: TickError)

  ghost function Localize<V>(error: TickError): Fate<V> {
    if error.IsLocalizable() then Down else Fatal(error)
  }

  /** After reading and solving. */
  ghost function Solving<V>(island: Island<V>, rows: seq<Row<V>>): Fate<V> {
    match ReadInputs(island.inputs, rows)
    case Err(e) => Localize(e)
    case Ok(inputs) =>
      match island.solve(inputs)
      case SolveFailed(e) => Localize(e)
      case Solved(values) => Up(values)
  }

  ghost function GoingDown<V>(island: Island<V>, rows: seq<Row<V>>): Fate<V> {
    match FailureError(island.outputs, rows)
    case None => Down
    case Some(e) => Fatal(e)
  }

  /** After validation: an island with a non-finite output goes down as well. */
  ghost function FateOf<V(!new)>(finite: V -> bool, island: Island<V>, rows: seq<Row<V>>): Fate<V>
    requires WellBound(island)
  {
    match Solving(island, rows)
    case Fatal(e) => Fatal(e)
    case Down => GoingDown(island, rows)
    case Up(values) =>
      assert SourcesFit(island, values);
      match SuccessError(finite, island.outputs, values, rows)
      case None => Up(values)
      case Some(e) => if e == NonFiniteState then GoingDown(island, rows) else Fatal(e)
  }

  /** The solver yields a value for every output binding. */
  ghost predicate WellBound<V(!new)>(island: Island<V>) {
    forall inputs: seq<V> | island.solve(inputs).Solved? :: SourcesFit(island, island.solve(inputs).values)
  }

  ghost predicate SourcesFit<V>(island: Island<V>, values: seq<V>) {
    forall b | b in island.outputs :: b.source < |values|
  }

  /** The value a binding commits, computed from the state before the tick. */
  ghost function Target<V>(fate: Fate<V>, b: OutputBinding<V>, rows: seq<Row<V>>): V {
    match fate
    case Up(values) => if b.source < |values| then values[b.source] else b.initializer
    case _ =>
      match b.transition
      case Literal(x) => x
      case Preserve =>
        (match ReadLogical(rows, b.address, b.initializer)
         case Ok(x) => x
         case Err(_) => b.initializer)
  }

  // ----- Scatter -----

  datatype Write<V> = Write(address: Address, value: V)

  ghost function Put<V>(rows: seq<Row<V>>, w: Write<V>): (r: seq<Row<V>>)
    ensures |r| == |rows|
  {
    if w.address.row < |rows| && w.address.index < |rows[w.address.row].values| then
      rows[w.address.row :=
        Row(rows[w.address.row].values[w.address.index := w.value], rows[w.address.row].initialized)]
    else rows
  }

  ghost function PutAll<V>(rows: seq<Row<V>>, writes: seq<Write<V>>): (r: seq<Row<V>>)
    ensures |r| == |rows|
  {
    if writes == [] then rows else Put(PutAll(rows, writes[..|writes| - 1]), writes[|writes| - 1])
  }

  ghost predicate DistinctAddresses<V>(writes: seq<Write<V>>) {
    forall i, j | 0 <= i < j < |writes| :: writes[i].address != writes[j].address
  }

  ghost predicate Written<V>(writes: seq<Write<V>>, at: Address) {
    exists i :: 0 <= i < |writes| && writes[i].address == at
  }

  /** Writing keeps row widths and bits, and every value nobody writes. */
  lemma {:induction false} PutAllKeeps<V>(rows: seq<Row<V>>, writes: seq<Write<V>>, r: nat)
    requires r < |rows|
    ensures |PutAll(rows, writes)[r].values| == |rows[r].values|
      && PutAll(rows, writes)[r].initialized == rows[r].initialized
    ensures forall k: nat | k < |rows[r].values| && !Written(writes, Address(r, k)) ::
      PutAll(rows, writes)[r].values[k] == rows[r].values[k]
  {
    if writes != [] {
      var n := |writes| - 1;
      PutAllKeeps(rows, writes[..n], r);
      forall k: nat | k < |rows[r].values| && !Written(writes, Address(r, k))
        ensures PutAll(rows, writes)[r].values[k] == rows[r].values[k]
      {
        assert writes[n].address != Address(r, k);
        forall i | 0 <= i < n ensures writes[..n][i].address != Address(r,
          k) { assert writes[i].address != Address(r, k); }
      }
    }
  }

  /** With distinct addresses every written value arrives. */
  lemma {:induction false} PutAllWrites<V>(rows: seq<Row<V>>, writes: seq<Write<V>>, i: nat)
    requires DistinctAddresses(writes) && i < |writes| && Exists(rows, writes[i].address)
    ensures Exists(PutAll(rows, writes), writes[i].address)
    ensures PutAll(rows, writes)[writes[i].address.row].values[writes[i].address.index] == writes[i].value
    decreases |writes|
  {
    var n := |writes| - 1;
    var at := writes[i].address;
    PutAllKeeps(rows, writes, at.row);
    PutAllKeeps(rows, writes[..n], at.row);
    if i < n {
      assert writes[..n][i] == writes[i];
      PutAllWrites(rows, writes[..n], i);
      assert writes[n].address != at;
    }
  }

  ghost function BindingWrites<V>(fate: Fate<V>, outputs: seq<OutputBinding<V>>, rows: seq<Row<V>>): (r: seq<Write<V>>)
    ensures |r| == |outputs|
    ensures forall k | 0 <= k < |r| :: r[k] == Write(outputs[k].address, Target(fate, outputs[k], rows))
  {
    seq(|outputs|, k requires 0 <= k < |outputs| => Write(outputs[k].address, Target(fate, outputs[k], rows)))
  }

  /** All writes of a tick, in island order. */
  ghost function TickWrites<V(!new)>(finite: V -> bool, islands: seq<Island<V>>, rows: seq<Row<V>>): seq<Write<V>>
    requires forall i | 0 <= i < |islands| :: WellBound(islands[i])
  {
    if islands == [] then []
    else
      var last := islands[|islands| - 1];
      TickWrites(finite, islands[..|islands| - 1], rows) + BindingWrites(FateOf(finite, last, rows), last.outputs, rows)
  }

  ghost predicate Binds<V>(island: Island<V>, at: Address) {
    exists k :: 0 <= k < |island.outputs| && island.outputs[k].address == at
  }

  /** Every state has one writer: no address is bound twice, within an island or across islands. */
  ghost predicate UniqueWriters<V>(islands: seq<Island<V>>) {
    && (forall i, j, at | 0 <= i < j < |islands| && Binds(islands[i], at) :: !Binds(islands[j], at))
    && (forall i | 0 <= i < |islands| :: DistinctOutputs(islands[i].outputs))
  }

  ghost predicate DistinctOutputs<V>(outputs: seq<OutputBinding<V>>) {
    forall j, k | 0 <= j < k < |outputs| :: outputs[j].address != outputs[k].address
  }

  lemma {:induction false} TickWritesMembers<V(!new)>(
      finite: V -> bool, islands: seq<Island<V>>, rows: seq<Row<V>>, w: Write<V>)
    requires forall i | 0 <= i < |islands| :: WellBound(islands[i])
    ensures w in TickWrites(finite, islands, rows) <==>
            exists i, k :: 0 <= i < |islands| && 0 <= k < |islands[i].outputs|
                           && w == Write(islands[i].outputs[k].address,
                             Target(FateOf(finite, islands[i], rows), islands[i].outputs[k], rows))
  {
    if islands != [] {
      var n := |islands| - 1;
      TickWritesMembers(finite, islands[..n], rows, w);
      var last := BindingWrites(FateOf(finite, islands[n], rows), islands[n].outputs, rows);
      assert w in last ==> exists k :: 0 <= k < |last| && last[k] == w;
      assert forall i | 0 <= i < n :: islands[..n][i] == islands[i];
      forall i, k | 0 <= i < |islands| && 0 <= k < |islands[i].outputs|
        ensures Write(islands[i].outputs[k].address,
          Target(FateOf(finite, islands[i], rows), islands[i].outputs[k], rows)) in TickWrites(finite, islands, rows)
                || w != Write(islands[i].outputs[k].address,
                  Target(FateOf(finite, islands[i], rows), islands[i].outputs[k], rows))
      {
        if i == n { assert last[k] in last; }
      }
    }
  }

  lemma WritesOfPrefix<V(!new)>(finite: V -> bool, islands: seq<Island<V>>, rows: seq<Row<V>>, i: nat, at: Address)
    requires i <= |islands| && forall j | 0 <= j < |islands| :: WellBound(islands[j])
    ensures Written(TickWrites(finite, islands[..i], rows), at) <==> exists j :: 0 <= j < i && Binds(islands[j], at)
    decreases i
  {
    if i > 0 {
      var older, last := islands[..i - 1], islands[i - 1];
      assert islands[..i][..i - 1] == older;
      WritesOfPrefix(finite, islands, rows, i - 1, at);
      var a, b := TickWrites(finite, older, rows), BindingWrites(FateOf(finite, last, rows), last.outputs, rows);
      WrittenInConcat(a, b, at);
      assert Written(b, at) <==> Binds(last, at) by {
        if Binds(last, at) {
          var k :| 0 <= k < |last.outputs| && last.outputs[k].address == at;
          assert b[k].address == at;
        }
      }
    }
  }

  lemma WrittenInConcat<V>(a: seq<Write<V>>, b: seq<Write<V>>, at: Address)
    ensures Written(a + b, at) <==> Written(a, at) || Written(b, at)
  {
    if i :| 0 <= i < |a| && a[i].address == at { assert (a + b)[i].address == at; }
    if i :| 0 <= i < |b| && b[i].address == at { assert (a + b)[|a| + i].address == at; }
  }

  lemma {:induction false} TickWritesDistinct<V(!new)>(finite: V -> bool, islands: seq<Island<V>>, rows: seq<Row<V>>)
    requires (forall i | 0 <= i < |islands| :: WellBound(islands[i])) && UniqueWriters(islands)
    ensures DistinctAddresses(TickWrites(finite, islands, rows))
  {
    if islands != [] {
      var n := |islands| - 1;
      var older, last := islands[..n], islands[n];
      assert UniqueWriters(older) by {
        assert forall i | 0 <= i < n :: older[i] == islands[i];
        assert forall i | 0 <= i < n :: DistinctOutputs(islands[i].outputs);
      }
      TickWritesDistinct(finite, older, rows);
      var a, b := TickWrites(finite, older, rows), BindingWrites(FateOf(finite, last, rows), last.outputs, rows);
      assert DistinctOutputs(last.outputs);
      forall i, j | 0 <= i < |a| && 0 <= j < |b| ensures a[i].address != b[j].address {
        WritesOfPrefix(finite, islands, rows, n, a[i].address);
        assert Written(a, a[i].address);
        assert last.outputs[j].address == b[j].address && Binds(last, b[j].address);
      }
    }
  }

  // ----- Finalise -----

  ghost predicate BindsRow<V>(island: Island<V>, r: nat) {
    exists k :: 0 <= k < |island.outputs| && island.outputs[k].address.row == r
  }

  /** The commit of a tick, relating the state before and after. It does not mention the order of
      the islands. */
  ghost predicate IsCommit<V(!new)>(finite: V -> bool, islands: seq<Island<V>>, before: seq<Row<V>>, after: seq<Row<V>>)
    requires forall i | 0 <= i < |islands| :: WellBound(islands[i])
  {
    && |after| == |before|
    && (forall r | 0 <= r < |before| :: CommitsRow(islands, before, after, r))
    && (forall i, k | 0 <= i < |islands| && 0 <= k < |islands[i].outputs| ::
          Receives(after, islands[i].outputs[k].address,
            Target(FateOf(finite, islands[i], before), islands[i].outputs[k], before)))
    && (forall r: nat, k: nat | r < |before| && k < |before[r].values| && !BoundBySome(islands, Address(r, k)) ::
          Receives(after, Address(r, k), before[r].values[k]))
  }

  ghost predicate BoundBySome<V>(islands: seq<Island<V>>, at: Address) {
    exists i :: 0 <= i < |islands| && Binds(islands[i], at)
  }

  ghost predicate CommitsRow<V>(islands: seq<Island<V>>, before: seq<Row<V>>, after: seq<Row<V>>, r: nat) {
    && r < |before| && r < |after| && |after[r].values| == |before[r].values|
    && after[r].initialized == (before[r].initialized || exists i :: 0 <= i < |islands| && BindsRow(islands[i], r))
  }

  ghost predicate Receives<V>(rows: seq<Row<V>>, at: Address, x: V) {
    Exists(rows, at) && rows[at.row].values[at.index] == x
  }

  /** A commit is determined by the islands as a set: the order in which islands are visited has no
      influence on the state after the tick. */
  lemma CommitIgnoresIslandOrder<V(!new)>(finite: V -> bool, a: seq<Island<V>>, b: seq<Island<V>>, before: seq<Row<V>>,
                                          afterA: seq<Row<V>>, afterB: seq<Row<V>>)
    requires (forall i | 0 <= i < |a| :: WellBound(a[i])) && (forall i | 0 <= i < |b| :: WellBound(b[i]))
    requires forall island :: island in a <==> island in b
    requires IsCommit(finite, a, before, afterA) && IsCommit(finite, b, before, afterB)
    ensures afterA == afterB
  {
    forall r | 0 <= r < |before| ensures afterA[r] == afterB[r] {
      assert CommitsRow(a, before, afterA, r) && CommitsRow(b, before, afterB, r);
      SameRowsBound(a, b, r);
      SameRowsBound(b, a, r);
      forall k | 0 <= k < |before[r].values| ensures afterA[r].values[k] == afterB[r].values[k] {
        CommitDetermines(finite, a, b, before, afterA, afterB, r, k);
      }
    }
  }

  lemma SameRowsBound<V>(a: seq<Island<V>>, b: seq<Island<V>>, r: nat)
    requires forall island :: island in a ==> island in b
    ensures (exists i :: 0 <= i < |a| && BindsRow(a[i], r)) ==> exists i :: 0 <= i < |b| && BindsRow(b[i], r)
  {
    if i :| 0 <= i < |a| && BindsRow(a[i], r) {
      assert a[i] in b;
      var j :| 0 <= j < |b| && b[j] == a[i];
      assert BindsRow(b[j], r);
    }
  }

  lemma SameAddressesBound<V>(a: seq<Island<V>>, b: seq<Island<V>>, at: Address)
    requires forall island :: island in a ==> island in b
    ensures BoundBySome(a, at) ==> BoundBySome(b, at)
  {
    if i :| 0 <= i < |a| && Binds(a[i], at) {
      assert a[i] in b;
      var j :| 0 <= j < |b| && b[j] == a[i];
      assert Binds(b[j], at);
    }
  }

  lemma CommitDetermines<V(!new)>(finite: V -> bool, a: seq<Island<V>>, b: seq<Island<V>>, before: seq<Row<V>>,
                                  afterA: seq<Row<V>>, afterB: seq<Row<V>>, r: nat, k: nat)
    requires (forall i | 0 <= i < |a| :: WellBound(a[i])) && (forall i | 0 <= i < |b| :: WellBound(b[i]))
    requires forall island :: island in a <==> island in b
    requires IsCommit(finite, a, before, afterA) && IsCommit(finite, b, before, afterB)
    requires r < |before| && k < |before[r].values|
    ensures r < |afterA| && r < |afterB| && k < |afterA[r].values| && k < |afterB[r].values|
      && afterA[r].values[k] == afterB[r].values[k]
  {
    var at := Address(r, k);
    if BoundBySome(a, at) {
      var i :| 0 <= i < |a| && Binds(a[i], at);
      var m :| 0 <= m < |a[i].outputs| && a[i].outputs[m].address == at;
      assert a[i] in b;
      var j :| 0 <= j < |b| && b[j] == a[i];
      assert Receives(afterA, a[i].outputs[m].address, Target(FateOf(finite, a[i], before), a[i].outputs[m], before));
      assert Receives(afterB, b[j].outputs[m].address, Target(FateOf(finite, b[j], before), b[j].outputs[m], before));
    } else {
      SameAddressesBound(b, a, at);
      assert Receives(afterA, at, before[r].values[k]) && Receives(afterB, at, before[r].values[k]);
    }
  }

  // ----- What later ticks read -----

  ghost predicate AnyFatal<V(!new)>(finite: V -> bool, islands: seq<Island<V>>, rows: seq<Row<V>>)
    requires forall j | 0 <= j < |islands| :: WellBound(islands[j])
  {
    exists i :: 0 <= i < |islands| && FateOf(finite, islands[i], rows).Fatal?
  }

  /** A tick commits every island, or changes nothing. */
  ghost predicate IsTick<V(!new)>(finite: V -> bool, islands: seq<Island<V>>, before: seq<Row<V>>, after: seq<Row<V>>)
    requires forall j | 0 <= j < |islands| :: WellBound(islands[j])
  {
    if AnyFatal(finite, islands, before) then after == before else IsCommit(finite, islands, before, after)
  }

  ghost predicate IsRun<V(!new)>(finite: V -> bool, islands: seq<Island<V>>, run: seq<seq<Row<V>>>)
    requires forall j | 0 <= j < |islands| :: WellBound(islands[j])
  {
    forall t | 0 < t < |run| :: IsTick(finite, islands, run[t - 1], run[t])
  }

  /** Before the tick at `rows` the binding's island has computed `x` for it, or it goes down and `x`
      is what the binding prescribes for that. */
  ghost predicate Supplies<V(!new)>(
      finite: V -> bool, islands: seq<Island<V>>, rows: seq<Row<V>>, i: nat, b: OutputBinding<V>, x: V)
    requires i < |islands| && forall j | 0 <= j < |islands| :: WellBound(islands[j])
  {
    && !AnyFatal(finite, islands, rows)
    && match FateOf(finite, islands[i], rows)
       case Up(values) => b.source < |values| && x == values[b.source]
       case Down => b.transition == Literal(x)
       case Fatal(_) => false
  }

  /** The tick at `rows` fails, or the binding's island goes down and preserves its state. */
  ghost predicate Withholds<V(!new)>(
      finite: V -> bool, islands: seq<Island<V>>, rows: seq<Row<V>>, i: nat, b: OutputBinding<V>)
    requires i < |islands| && forall j | 0 <= j < |islands| :: WellBound(islands[j])
  {
    AnyFatal(finite, islands, rows) || (FateOf(finite, islands[i], rows).Down? && b.transition.Preserve?)
  }

  /** What a tick supplies is stored, and its row is initialised. */
  lemma SuppliedIsStored<V(!new)>(
      finite: V -> bool, islands: seq<Island<V>>, before: seq<Row<V>>, after: seq<Row<V>>, i: nat, k: nat, x: V)
    requires (forall j | 0 <= j < |islands| :: WellBound(islands[j])) && IsTick(finite, islands, before, after)
    requires i < |islands| && k < |islands[i].outputs| && Supplies(finite, islands, before, i, islands[i].outputs[k], x)
    ensures Receives(after, islands[i].outputs[k].address, x)
    ensures after[islands[i].outputs[k].address.row].initialized
  {
    var at := islands[i].outputs[k].address;
    assert Receives(after, at, Target(FateOf(finite, islands[i], before), islands[i].outputs[k], before));
    assert CommitsRow(islands, before, after, at.row) && BindsRow(islands[i], at.row);
  }

  /** A withheld state keeps its stored value, and one never stored reads as its initializer. */
  lemma WithheldIsKept<V(!new)>(
      finite: V -> bool, islands: seq<Island<V>>, before: seq<Row<V>>, after: seq<Row<V>>, i: nat, k: nat)
    requires (forall j | 0 <= j < |islands| :: WellBound(islands[j])) && IsTick(finite, islands, before, after)
    requires i < |islands| && k < |islands[i].outputs| && Withholds(finite, islands, before, i, islands[i].outputs[k])
    requires Exists(before, islands[i].outputs[k].address)
    ensures var b := islands[i].outputs[k];
            && Exists(after, b.address)
            && (before[b.address.row].initialized ==> after[b.address.row].initialized)
            && (before[b.address.row].initialized ==>
                  Receives(after, b.address, before[b.address.row].values[b.address.index]))
            && (!before[b.address.row].initialized && after[b.address.row].initialized ==>
                  Receives(after, b.address, b.initializer))
  {
    if !AnyFatal(finite, islands, before) {
      var b := islands[i].outputs[k];
      assert Receives(after, b.address, Target(FateOf(finite, islands[i], before), b, before));
      assert CommitsRow(islands, before, after, b.address.row);
    }
  }

  /** Read after write over any run: however many ticks fail or find the island down since, every
      read, by whatever binding, yields the value the last supplying tick committed. */
  lemma {:induction false} LastSuppliedIsRead<V(!new)>(
      finite: V -> bool, islands: seq<Island<V>>, run: seq<seq<Row<V>>>, i: nat, k: nat, t: nat, n: nat, x: V)
    requires (forall j | 0 <= j < |islands| :: WellBound(islands[j])) && IsRun(finite, islands, run)
    requires i < |islands| && k < |islands[i].outputs| && t < n < |run|
    requires Supplies(finite, islands, run[t], i, islands[i].outputs[k], x)
    requires forall s | t < s < n :: Withholds(finite, islands, run[s], i, islands[i].outputs[k])
    ensures var at := islands[i].outputs[k].address;
            Receives(run[n], at, x) && run[n][at.row].initialized
            && forall initializer :: ReadLogical(run[n], at, initializer) == Ok(x)
    decreases n
  {
    assert IsTick(finite, islands, run[n - 1], run[n]);
    if t == n - 1 {
      SuppliedIsStored(finite, islands, run[t], run[n], i, k, x);
    } else {
      LastSuppliedIsRead(finite, islands, run, i, k, t, n - 1, x);
      WithheldIsKept(finite, islands, run[n - 1], run[n], i, k);
    }
  }

  /** A state nothing was supplied for reads as it did at the start of the run: the stored value
      of an initialised row, the initializer of any other. */
  lemma {:induction false} NeverSuppliedReadsInitial<V(!new)>(
      finite: V -> bool, islands: seq<Island<V>>, run: seq<seq<Row<V>>>, i: nat, k: nat, n: nat)
    requires (forall j | 0 <= j < |islands| :: WellBound(islands[j])) && IsRun(finite, islands, run)
    requires i < |islands| && k < |islands[i].outputs| && n < |run| && Exists(run[0], islands[i].outputs[k].address)
    requires forall s | 0 <= s < n :: Withholds(finite, islands, run[s], i, islands[i].outputs[k])
    ensures var b := islands[i].outputs[k];
            && Exists(run[n], b.address)
            && (run[0][b.address.row].initialized ==> run[n][b.address.row].initialized)
            && ReadLogical(run[n], b.address, b.initializer) ==
               Ok(if run[0][b.address.row].initialized then run[0][b.address.row].values[b.address.index]
                  else b.initializer)
    decreases n
  {
    if n > 0 {
      assert IsTick(finite, islands, run[n - 1], run[n]);
      NeverSuppliedReadsInitial(finite, islands, run, i, k, n - 1);
      WithheldIsKept(finite, islands, run[n - 1], run[n], i, k);
    }
  }

  /** A state in a row that no island writes never changes, and one outside the rows stays missing. */
  lemma {:induction false} UnboundReadsInitial<V(!new)>(
      finite: V -> bool, islands: seq<Island<V>>, run: seq<seq<Row<V>>>, at: Address, n: nat, initializer: V)
    requires (forall j | 0 <= j < |islands| :: WellBound(islands[j])) && IsRun(finite, islands, run) && n < |run|
    requires forall i | 0 <= i < |islands| :: !BindsRow(islands[i], at.row)
    ensures Exists(run[n], at) <==> Exists(run[0], at)
    ensures Exists(run[0], at) ==> run[n][at.row].initialized == run[0][at.row].initialized
    ensures ReadLogical(run[n], at, initializer) ==
              if !Exists(run[0], at) then Err(MissingState)
              else if run[0][at.row].initialized then Ok(run[0][at.row].values[at.index])
              else Ok(initializer)
    decreases n
  {
    if n > 0 {
      assert IsTick(finite, islands, run[n - 1], run[n]);
      UnboundReadsInitial(finite, islands, run, at, n - 1, initializer);
      UnboundRowStays(finite, islands, run[n - 1], run[n], at);
    }
  }

  lemma UnboundRowStays<V(!new)>(
      finite: V -> bool, islands: seq<Island<V>>, before: seq<Row<V>>, after: seq<Row<V>>, at: Address)
    requires (forall j | 0 <= j < |islands| :: WellBound(islands[j])) && IsTick(finite, islands, before, after)
    requires forall i | 0 <= i < |islands| :: !BindsRow(islands[i], at.row)
    ensures Exists(after, at) <==> Exists(before, at)
    ensures Exists(before, at) ==> after[at.row].initialized == before[at.row].initialized
    ensures Exists(before, at) ==> after[at.row].values[at.index] == before[at.row].values[at.index]
  {
    if !AnyFatal(finite, islands, before) && at.row < |before| {
      assert CommitsRow(islands, before, after, at.row);
      if Exists(before, at) {
        forall i | 0 <= i < |islands| ensures !Binds(islands[i], at) { assert !BindsRow(islands[i], at.row); }
        assert !BoundBySome(islands, Address(at.row, at.index));
        assert Receives(after, Address(at.row, at.index), before[at.row].values[at.index]);
      }
    }
  }

  /** What an island solves with: the reads of its bindings in order, or a binding reads a missing
      state. */
  lemma {:induction false} InputsAreReads<V>(inputs: seq<InputBinding<V>>, rows: seq<Row<V>>)
    ensures match ReadInputs(inputs, rows)
            case Ok(xs) => |xs| == |inputs| && forall k | 0 <= k < |inputs| ::
              Exists(rows, inputs[k].address) && ReadLogical(rows, inputs[k].address, inputs[k].initializer) == Ok(xs[k])
            case Err(e) => e == MissingState && exists k :: 0 <= k < |inputs| && !Exists(rows, inputs[k].address)
  {
    if inputs != [] {
      InputsAreReads(inputs[..|inputs| - 1], rows);
    }
  }

  ghost predicate HasDestinations<V>(outputs: seq<OutputBinding<V>>, rows: seq<Row<V>>) {
    forall k | 0 <= k < |outputs| :: Exists(rows, outputs[k].address)
  }

  ghost predicate AllFinite<V>(finite: V -> bool, outputs: seq<OutputBinding<V>>, values: seq<V>)
    requires forall b | b in outputs :: b.source < |values|
  {
    forall k | 0 <= k < |outputs| :: outputs[k] in outputs && finite(values[outputs[k].source])
  }

  lemma {:induction false} SuccessErrorIs<V>(
      finite: V -> bool, outputs: seq<OutputBinding<V>>, values: seq<V>, rows: seq<Row<V>>)
    requires forall b | b in outputs :: b.source < |values|
    ensures SuccessError(finite, outputs, values, rows).None? <==>
            HasDestinations(outputs, rows) && AllFinite(finite, outputs, values)
    ensures SuccessError(finite, outputs, values, rows) == Some(MissingState) ==> !HasDestinations(outputs, rows)
    ensures SuccessError(finite, outputs, values, rows) in {None, Some(MissingState), Some(NonFiniteState)}
  {
    if outputs != [] {
      var older := outputs[..|outputs| - 1];
      SuccessErrorIs(finite, older, values, rows);
      assert forall k | 0 <= k < |older| :: older[k] == outputs[k];
    }
  }

  lemma {:induction false} FailureErrorIs<V>(outputs: seq<OutputBinding<V>>, rows: seq<Row<V>>)
    ensures FailureError(outputs, rows) == if HasDestinations(outputs, rows) then None else Some(MissingState)
  {
    if outputs != [] {
      FailureErrorIs(outputs[..|outputs| - 1], rows);
    }
  }

  /** What becomes of an island, in terms of the rows: it is fatal exactly if a state it reads or
      writes is missing or the solver fails beyond the island, and without that it comes up exactly
      if it is solved with finite outputs. */
  lemma FateIs<V(!new)>(finite: V -> bool, island: Island<V>, rows: seq<Row<V>>)
    requires WellBound(island)
    ensures ReadInputs(island.inputs, rows).Ok? <==>
            forall k | 0 <= k < |island.inputs| :: Exists(rows, island.inputs[k].address)
    ensures FateOf(finite, island, rows) ==
            match ReadInputs(island.inputs, rows)
            case Err(_) => Fatal(MissingState)
            case Ok(xs) =>
              match island.solve(xs)
              case SolveFailed(e) =>
                if !e.IsLocalizable() then Fatal(e)
                else if HasDestinations(island.outputs, rows) then Down else Fatal(MissingState)
              case Solved(values) =>
                assert SourcesFit(island, values);
                if !HasDestinations(island.outputs, rows) then Fatal(MissingState)
                else if AllFinite(finite, island.outputs, values) then Up(values) else Down
  {
    InputsAreReads(island.inputs, rows);
    FailureErrorIs(island.outputs, rows);
    match ReadInputs(island.inputs, rows)
    case Err(_) =>
    case Ok(xs) =>
      match island.solve(xs)
      case SolveFailed(_) =>
      case Solved(values) =>
        assert SourcesFit(island, values);
        SuccessErrorIs(finite, island.outputs, values, rows);
  }

  /** Two ticks: every island that reads a state solves the next tick with the value the last
      supplying tick committed, whichever island committed it. */
  lemma NextSolveUsesLastSupplied<V(!new)>(
      finite: V -> bool, islands: seq<Island<V>>, run: seq<seq<Row<V>>>, i: nat, k: nat, t: nat, n: nat, x: V, p: nat)
    requires (forall j | 0 <= j < |islands| :: WellBound(islands[j])) && IsRun(finite, islands, run)
    requires i < |islands| && k < |islands[i].outputs| && t < n < |run| && p < |islands|
    requires Supplies(finite, islands, run[t], i, islands[i].outputs[k], x)
    requires forall s | t < s < n :: Withholds(finite, islands, run[s], i, islands[i].outputs[k])
    ensures match ReadInputs(islands[p].inputs, run[n])
            case Ok(xs) => |xs| == |islands[p].inputs| && forall m | 0 <= m < |xs| ::
              islands[p].inputs[m].address == islands[i].outputs[k].address ==> xs[m] == x
            case Err(e) => e == MissingState
  {
    LastSuppliedIsRead(finite, islands, run, i, k, t, n, x);
    InputsAreReads(islands[p].inputs, run[n]);
  }

  /** Reading the rows of one chunk is reading the store the chunk belongs to. */
  lemma StoreReadsAlike<V>(
      view: seq<seq<Row<V>>>, strides: seq<nat>, at: Location, index: nat, initializer: V)
    requires |strides| == |view|
    requires InRange(view, at) ==> |view[at.chunk][at.row].values| == strides[at.chunk]
    ensures match LogicalValue(view, strides, at, index, initializer)
            case Ok(x) => at.chunk < |view| && ReadLogical(view[at.chunk], Address(at.row, index), initializer) == Ok(x)
            case Err(_) => at.chunk < |view| ==>
              ReadLogical(view[at.chunk], Address(at.row, index), initializer) == Err(MissingState)
  {
  }

  // ----- The world -----

  /** The status and inputs of an island after phase one. */
  ghost predicate IsPrepared<V>(island: Island<V>, rows: seq<Row<V>>, status: Status, inputs: seq<V>) {
    match ReadInputs(island.inputs, rows)
    case Ok(xs) => status == Pending && inputs == xs
    case Err(e) => e.IsLocalizable() && status == Unavailable
  }

  /** The status and values of an island after phase two. */
  ghost predicate IsSolved<V>(island: Island<V>, rows: seq<Row<V>>, status: Status, values: seq<V>) {
    match Solving(island, rows)
    case Up(xs) => status == Available && values == xs
    case Down => status == Unavailable
    case Fatal(_) => false
  }

  class World<V(!new)> {
    const finite: V -> bool
    const islands: seq<Island<V>>
    var rows: seq<Row<V>>
    var statuses: seq<Status>
    var inputs: seq<seq<V>>
    var values: seq<seq<V>>

    ghost predicate Valid()
      reads this
    {
      && |statuses| == |inputs| == |values| == |islands|
      && (forall i | 0 <= i < |islands| :: WellBound(islands[i])) && UniqueWriters(islands)
    }

    constructor (finite: V -> bool, islands: seq<Island<V>>, rows: seq<Row<V>>)
      requires (forall i | 0 <= i < |islands| :: WellBound(islands[i])) && UniqueWriters(islands)
      ensures Valid() && this.rows == rows && this.islands == islands && this.finite == finite
    {
      this.finite, this.islands, this.rows := finite, islands, rows;
      statuses, inputs, values := seq(|islands|, _ => Pending), seq(|islands|, _ => []), seq(|islands|, _ => []);
    }

    // Phase one: begin the tick and read the state inputs of every island.

    method PrepareInputs(bindings: seq<InputBinding<V>>) returns (result: Result<seq<V>, TickError>)
      ensures result == ReadInputs(bindings, rows)
    {
      var xs: seq<V> := [];
      assert bindings[..0] == [];
      for k := 0 to |bindings|
        invariant ReadInputs(bindings[..k], rows) == Ok(xs)
      {
        assert bindings[..k + 1][..k] == bindings[..k];
        var x := ReadLogical(rows, bindings[k].address, bindings[k].initializer);
        if x.Err? {
          ErrorStays(bindings, rows, k + 1);
          return Err(x.error);
        }
        xs := xs + [x.value];
      }
      assert bindings[..|bindings|] == bindings;
      return Ok(xs);
    }

    lemma {:induction false} ErrorStays(bindings: seq<InputBinding<V>>, rows: seq<Row<V>>, k: nat)
      requires k <= |bindings| && ReadInputs(bindings[..k], rows).Err?
      ensures ReadInputs(bindings, rows) == ReadInputs(bindings[..k], rows)
      decreases |bindings|
    {
      if k < |bindings| {
        assert bindings[..|bindings| - 1][..k] == bindings[..k];
        ErrorStays(bindings[..|bindings| - 1], rows, k);
      } else {
        assert bindings[..k] == bindings;
      }
    }

    method PrepareAll() returns (fatal: Option<TickError>)
      requires Valid()
      modifies this`statuses, this`inputs
      ensures Valid()
      ensures fatal.None? ==> forall i | 0 <= i < |islands| :: IsPrepared(islands[i], rows, statuses[i], inputs[i])
      ensures fatal.Some? ==> exists i :: 0 <= i < |islands| && FateOf(finite, islands[i], rows) == Fatal(fatal.value)
    {
      for i := 0 to |islands|
        invariant Valid() && forall j | 0 <= j < i :: IsPrepared(islands[j], rows, statuses[j], inputs[j])
      {
        statuses := statuses[i := Pending];
        var result := PrepareInputs(islands[i].inputs);
        match result {
          case Ok(xs) => inputs := inputs[i := xs];
          case Err(e) =>
            if !e.IsLocalizable() {
              return Some(e);
            }
            statuses := statuses[i := Unavailable];
        }
      }
      return None;
    }

    // Phase two: solve every island that is still pending.

    method SolveAll() returns (fatal: Option<TickError>)
      requires Valid() && forall i | 0 <= i < |islands| :: IsPrepared(islands[i], rows, statuses[i], inputs[i])
      modifies this`statuses, this`values
      ensures Valid()
      ensures fatal.None? ==> forall i | 0 <= i < |islands| :: IsSolved(islands[i], rows, statuses[i], values[i])
      ensures fatal.Some? ==> exists i :: 0 <= i < |islands| && FateOf(finite, islands[i], rows) == Fatal(fatal.value)
    {
      for i := 0 to |islands|
        invariant Valid() && (forall j | 0 <= j < i :: IsSolved(islands[j], rows, statuses[j], values[j]))
          && forall j | i <= j < |islands| :: IsPrepared(islands[j], rows, statuses[j], inputs[j])
      {
        if statuses[i] == Unavailable {
          continue;
        }
        match islands[i].solve(inputs[i]) {
          case Solved(xs) =>
            values := values[i := xs];
            statuses := statuses[i := Available];
          case SolveFailed(e) =>
            if !e.IsLocalizable() {
              return Some(e);
            }
            statuses := statuses[i := Unavailable];
        }
      }
      return None;
    }

    // Phase three: validate every output before anything is written.

    method ValidateSuccess(i: nat) returns (error: Option<TickError>)
      requires Valid() && i < |islands| && SourcesFit(islands[i], values[i])
      ensures error == SuccessError(finite, islands[i].outputs, values[i], rows)
    {
      var outputs := islands[i].outputs;
      assert outputs[..0] == [];
      for k := 0 to |outputs|
        invariant SuccessError(finite, outputs[..k], values[i], rows) == None
      {
        assert outputs[..k + 1][..k] == outputs[..k] && outputs[k] in outputs;
        SuccessErrorStays(finite, outputs, values[i], rows, k + 1);
        if !finite(values[i][outputs[k].source]) {
          return Some(NonFiniteState);
        }
        var destination := ValidateAddress(rows, outputs[k].address);
        if destination.Some? {
          return destination;
        }
      }
      assert outputs[..|outputs|] == outputs;
      return None;
    }

    method ValidateFailed(i: nat) returns (error: Option<TickError>)
      requires Valid() && i < |islands|
      ensures error == FailureError(islands[i].outputs, rows)
    {
      var outputs := islands[i].outputs;
      assert outputs[..0] == [];
      for k := 0 to |outputs|
        invariant FailureError(outputs[..k], rows) == None
      {
        assert outputs[..k + 1][..k] == outputs[..k];
        FailureErrorStays(outputs, rows, k + 1);
        var failed := FailedError(rows, outputs[k]);
        if failed.Some? {
          return failed;
        }
      }
      assert outputs[..|outputs|] == outputs;
      return None;
    }

    method ValidateAll() returns (fatal: Option<TickError>)
      requires Valid() && forall i | 0 <= i < |islands| :: IsSolved(islands[i], rows, statuses[i], values[i])
      modifies this`statuses
      ensures Valid()
      ensures fatal.None? ==>
        forall i | 0 <= i < |islands| :: IsSettled(finite, islands[i], rows, statuses[i], values[i])
      ensures fatal.Some? ==> exists i :: 0 <= i < |islands| && FateOf(finite, islands[i], rows) == Fatal(fatal.value)
    {
      for i := 0 to |islands|
        invariant Valid() && forall j | 0 <= j < i :: IsSettled(finite, islands[j], rows, statuses[j], values[j])
        invariant forall j | i <= j < |islands| :: IsSolved(islands[j], rows, statuses[j], values[j])
      {
        var error := ValidateIsland(i);
        if error.Some? {
          return error;
        }
      }
      return None;
    }

    method ValidateIsland(i: nat) returns (fatal: Option<TickError>)
      requires Valid() && i < |islands| && IsSolved(islands[i], rows, statuses[i], values[i])
      modifies this`statuses
      ensures Valid() && forall j | 0 <= j < |islands| && j != i :: statuses[j] == old(statuses)[j]
      ensures fatal.None? ==> IsSettled(finite, islands[i], rows, statuses[i], values[i])
      ensures fatal.Some? ==> FateOf(finite, islands[i], rows) == Fatal(fatal.value)
    {
      assert SourcesFit(islands[i], values[i]) || statuses[i] == Unavailable;
      if statuses[i] == Available {
        var error := ValidateSuccess(i);
        if error.None? {
          return None;
        }
        if error.value != NonFiniteState {
          return error;
        }
        statuses := statuses[i := Unavailable];
      }
      var failed := ValidateFailed(i);
      return failed;
    }

    // Phase four: scatter. Nothing can fail any more.

    /** The value to write: the island's output, or its failed-tick transition read from the store
        as it is now. */
    method OutputValue(i: nat, b: OutputBinding<V>, ghost start: seq<Row<V>>) returns (value: V)
      requires Valid() && i < |islands| && IsSettled(finite, islands[i], start, statuses[i], values[i])
      requires b in islands[i].outputs && Exists(start, b.address)
      requires ReadLogical(rows, b.address, b.initializer) == ReadLogical(start, b.address, b.initializer)
      requires FateOf(finite, islands[i], start).Up? ==> SourcesFit(islands[i], values[i])
      ensures value == Target(FateOf(finite, islands[i], start), b, start)
    {
      if statuses[i] == Available {
        value := values[i][b.source];
      } else {
        match b.transition {
          case Literal(x) => value := x;
          case Preserve => value := ReadLogical(rows, b.address, b.initializer).value;
        }
      }
    }

    method ScatterIsland(i: nat, ghost start: seq<Row<V>>)
      requires Valid() && i < |islands| && IsSettled(finite, islands[i], start, statuses[i], values[i])
      requires rows == PutAll(start, TickWrites(finite, islands[..i], start))
      modifies this`rows
      ensures rows == PutAll(start, TickWrites(finite, islands[..i + 1], start))
    {
      var outputs := islands[i].outputs;
      ghost var fate := FateOf(finite, islands[i], start);
      ghost var writes, own := TickWrites(finite, islands[..i], start), BindingWrites(fate, outputs, start);
      FateHasDestinations(finite, islands[i], start);
      assert writes + own[..0] == writes;
      for k := 0 to |outputs|
        invariant rows == PutAll(start, writes + own[..k])
      {
        var b := outputs[k];
        OwnAddressUnwritten(finite, islands, start, i, k);
        ReadUnwritten(start, writes + own[..k], b.address, b.initializer);
        var value := OutputValue(i, b, start);
        OneMoreWrite(start, writes, own, k);
        WritePrevalidated(b.address, value);
      }
      assert own[..|outputs|] == own;
      assert islands[..i + 1][..i] == islands[..i];
    }

    /** `write_prevalidated`. */
    method WritePrevalidated(at: Address, value: V)
      requires Exists(rows, at)
      modifies this`rows
      ensures rows == Put(old(rows), Write(at, value))
    {
      rows := rows[at.row := Row(rows[at.row].values[at.index := value], rows[at.row].initialized)];
    }

    method ScatterAll()
      requires Valid() && forall i | 0 <= i < |islands| :: IsSettled(finite, islands[i], rows, statuses[i], values[i])
      modifies this`rows
      ensures rows == PutAll(old(rows), TickWrites(finite, islands, old(rows)))
    {
      assert islands[..0] == [];
      for i := 0 to |islands|
        invariant rows == PutAll(old(rows), TickWrites(finite, islands[..i], old(rows)))
      {
        ScatterIsland(i, old(rows));
      }
      assert islands[..|islands|] == islands;
    }

    // Phase five: mark the written rows as initialised.

    method FinalizeIsland(i: nat)
      requires i < |islands|
      requires forall k | 0 <= k < |islands[i].outputs| :: islands[i].outputs[k].address.row < |rows|
      modifies this`rows
      ensures |rows| == |old(rows)|
      ensures forall r | 0 <= r < |rows| ::
                rows[r] == Row(old(rows)[r].values, old(rows)[r].initialized || BindsRow(islands[i], r))
    {
      var outputs := islands[i].outputs;
      for k := 0 to |outputs|
        invariant |rows| == |old(rows)|
        invariant forall r | 0 <= r < |rows| ::
                    rows[r] == Row(old(rows)[r].values, old(rows)[r].initialized
                      || exists m :: 0 <= m < k && outputs[m].address.row == r)
      {
        var r := outputs[k].address.row;
        rows := rows[r := Row(rows[r].values, true)];
      }
    }

    method FinalizeAll()
      requires forall i, k | 0 <= i < |islands| && 0 <= k < |islands[i].outputs| ::
        islands[i].outputs[k].address.row < |rows|
      modifies this`rows
      ensures |rows| == |old(rows)|
      ensures forall r | 0 <= r < |rows| ::
                rows[r] == Row(old(rows)[r].values, old(rows)[r].initialized
                  || exists i :: 0 <= i < |islands| && BindsRow(islands[i], r))
    {
      for i := 0 to |islands|
        invariant |rows| == |old(rows)|
        invariant forall r | 0 <= r < |rows| ::
                    rows[r] == Row(old(rows)[r].values, old(rows)[r].initialized
                      || exists j :: 0 <= j < i && BindsRow(islands[j], r))
      {
        FinalizeIsland(i);
      }
    }

    /** One tick. It fails exactly when some island's fate is fatal, and then writes nothing; it
        succeeds with every state at its writer's output or failed-tick transition, all computed
        from the state before the tick. */
    method Tick() returns (result: Result<(), TickError>)
      requires Valid()
      modifies this
      ensures Valid()
      ensures result.Err? ==> rows == old(rows)
      ensures result.Err? ==>
                exists i :: 0 <= i < |islands| && FateOf(finite, islands[i], old(rows)) == Fatal(result.error)
      ensures result.Ok? <==> forall i | 0 <= i < |islands| :: !FateOf(finite, islands[i], old(rows)).Fatal?
      ensures result.Ok? ==> IsCommit(finite, islands, old(rows), rows)
      ensures IsTick(finite, islands, old(rows), rows)
      ensures result.Ok? ==>
        forall i | 0 <= i < |islands| :: IsSettled(finite, islands[i], old(rows), statuses[i], values[i])
    {
      var fatal := PrepareAll();
      if fatal.Some? {
        return Err(fatal.value);
      }
      fatal := SolveAll();
      if fatal.Some? {
        return Err(fatal.value);
      }
      fatal := ValidateAll();
      if fatal.Some? {
        return Err(fatal.value);
      }
      ghost var before := rows;
      AllHaveDestinations(finite, islands, before, statuses, values);
      ScatterAll();
      ghost var scattered := rows;
      FinalizeAll();
      ScatterThenFinalizeCommits(finite, islands, before, scattered, rows);
      return Ok(());
    }
  }

  /** The status and values of an island after phase three. */
  ghost predicate IsSettled<V(!new)>(
      finite: V -> bool, island: Island<V>, rows: seq<Row<V>>, status: Status, values: seq<V>)
    requires WellBound(island)
  {
    match FateOf(finite, island, rows)
    case Up(xs) => status == Available && values == xs
    case Down => status == Unavailable
    case Fatal(_) => false
  }

  lemma {:induction false} SuccessErrorStays<V>(
      finite: V -> bool, outputs: seq<OutputBinding<V>>, values: seq<V>, rows: seq<Row<V>>, k: nat)
    requires (forall b | b in outputs :: b.source < |values|) && k <= |outputs|
    ensures SuccessError(finite, outputs[..k], values, rows).Some? ==>
              SuccessError(finite, outputs, values, rows) == SuccessError(finite, outputs[..k], values, rows)
    decreases |outputs|
  {
    if k < |outputs| {
      assert outputs[..|outputs| - 1][..k] == outputs[..k];
      SuccessErrorStays(finite, outputs[..|outputs| - 1], values, rows, k);
    } else {
      assert outputs[..k] == outputs;
    }
  }

  lemma {:induction false} FailureErrorStays<V>(outputs: seq<OutputBinding<V>>, rows: seq<Row<V>>, k: nat)
    requires k <= |outputs|
    ensures FailureError(outputs[..k], rows).Some? ==> FailureError(outputs, rows) == FailureError(outputs[..k], rows)
    decreases |outputs|
  {
    if k < |outputs| {
      assert outputs[..|outputs| - 1][..k] == outputs[..k];
      FailureErrorStays(outputs[..|outputs| - 1], rows, k);
    } else {
      assert outputs[..k] == outputs;
    }
  }

  lemma {:induction false} ValidatedSuccess<V>(
      finite: V -> bool, outputs: seq<OutputBinding<V>>, values: seq<V>, rows: seq<Row<V>>)
    requires (forall b | b in outputs :: b.source < |values|) && SuccessError(finite, outputs, values, rows).None?
    ensures forall k | 0 <= k < |outputs| :: Exists(rows, outputs[k].address)
  {
    if outputs != [] {
      ValidatedSuccess(finite, outputs[..|outputs| - 1], values, rows);
    }
  }

  lemma {:induction false} ValidatedFailure<V>(outputs: seq<OutputBinding<V>>, rows: seq<Row<V>>)
    requires FailureError(outputs, rows).None?
    ensures forall k | 0 <= k < |outputs| :: Exists(rows, outputs[k].address)
  {
    if outputs != [] {
      ValidatedFailure(outputs[..|outputs| - 1], rows);
    }
  }

  /** Every output of an island that passed validation has a destination. */
  lemma FateHasDestinations<V(!new)>(finite: V -> bool, island: Island<V>, rows: seq<Row<V>>)
    requires WellBound(island) && !FateOf(finite, island, rows).Fatal?
    ensures forall k | 0 <= k < |island.outputs| :: Exists(rows, island.outputs[k].address)
    ensures FateOf(finite, island, rows).Up? ==> SourcesFit(island, FateOf(finite, island, rows).values)
  {
    match FateOf(finite, island, rows) {
      case Up(values) =>
        assert SourcesFit(island, values);
        ValidatedSuccess(finite, island.outputs, values, rows);
      case Down =>
        ValidatedFailure(island.outputs, rows);
      case Fatal(_) =>
    }
  }

  lemma AllHaveDestinations<V(!new)>(
      finite: V -> bool, islands: seq<Island<V>>, rows: seq<Row<V>>, statuses: seq<Status>, values: seq<seq<V>>)
    requires |statuses| == |values| == |islands| && forall i | 0 <= i < |islands| :: WellBound(islands[i])
    requires forall i | 0 <= i < |islands| :: IsSettled(finite, islands[i], rows, statuses[i], values[i])
    ensures forall i, k | 0 <= i < |islands| && 0 <= k < |islands[i].outputs| ::
      Exists(rows, islands[i].outputs[k].address)
    ensures forall i | 0 <= i < |islands| :: !FateOf(finite, islands[i], rows).Fatal?
  {
    forall i, k | 0 <= i < |islands| && 0 <= k < |islands[i].outputs|
      ensures Exists(rows, islands[i].outputs[k].address)
    {
      FateHasDestinations(finite, islands[i], rows);
    }
  }

  lemma OneMoreWrite<V>(start: seq<Row<V>>, writes: seq<Write<V>>, own: seq<Write<V>>, k: nat)
    requires k < |own| && Exists(start, own[k].address)
    ensures PutAll(start, writes + own[..k + 1]) == Put(PutAll(start, writes + own[..k]), own[k])
    ensures Exists(PutAll(start, writes + own[..k]), own[k].address)
  {
    assert writes + own[..k + 1] == (writes + own[..k]) + [own[k]];
    assert (writes + own[..k + 1])[..|writes| + k] == writes + own[..k];
    PutAllKeeps(start, writes + own[..k], own[k].address.row);
  }

  /** When an output is scattered, nobody has written its address yet. */
  lemma OwnAddressUnwritten<V(!new)>(finite: V -> bool, islands: seq<Island<V>>, start: seq<Row<V>>, i: nat, k: nat)
    requires (forall j | 0 <= j < |islands| :: WellBound(islands[j])) && UniqueWriters(islands)
    requires i < |islands| && k < |islands[i].outputs|
    ensures var own := BindingWrites(FateOf(finite, islands[i], start), islands[i].outputs, start);
            !Written(TickWrites(finite, islands[..i], start) + own[..k], islands[i].outputs[k].address)
  {
    var at := islands[i].outputs[k].address;
    var own := BindingWrites(FateOf(finite, islands[i], start), islands[i].outputs, start);
    WrittenInConcat(TickWrites(finite, islands[..i], start), own[..k], at);
    WritesOfPrefix(finite, islands, start, i, at);
    assert Binds(islands[i], at) && DistinctOutputs(islands[i].outputs);
    assert forall m | 0 <= m < k :: own[..k][m].address == islands[i].outputs[m].address;
  }

  lemma ReadUnwritten<V>(start: seq<Row<V>>, writes: seq<Write<V>>, at: Address, initializer: V)
    requires !Written(writes, at)
    ensures ReadLogical(PutAll(start, writes), at, initializer) == ReadLogical(start, at, initializer)
  {
    if at.row < |start| {
      PutAllKeeps(start, writes, at.row);
      assert Address(at.row, at.index) == at;
    }
  }

  lemma ScatterThenFinalizeCommits<V(!new)>(
      finite: V -> bool, islands: seq<Island<V>>, before: seq<Row<V>>, scattered: seq<Row<V>>, after: seq<Row<V>>)
    requires (forall i | 0 <= i < |islands| :: WellBound(islands[i])) && UniqueWriters(islands)
    requires forall i, k | 0 <= i < |islands| && 0 <= k < |islands[i].outputs| ::
      Exists(before, islands[i].outputs[k].address)
    requires scattered == PutAll(before, TickWrites(finite, islands, before)) && |after| == |scattered|
    requires forall r | 0 <= r < |after| ::
               after[r] ==
                 Row(scattered[r].values, scattered[r].initialized
                 || exists i :: 0 <= i < |islands| && BindsRow(islands[i], r))
    ensures IsCommit(finite, islands, before, after)
  {
    var writes := TickWrites(finite, islands, before);
    TickWritesDistinct(finite, islands, before);
    forall r | 0 <= r < |before| ensures CommitsRow(islands, before, after, r) {
      PutAllKeeps(before, writes, r);
    }
    forall i, k | 0 <= i < |islands| && 0 <= k < |islands[i].outputs|
      ensures Receives(after, islands[i].outputs[k].address,
        Target(FateOf(finite, islands[i], before), islands[i].outputs[k], before))
    {
      var w := Write(islands[i].outputs[k].address,
        Target(FateOf(finite, islands[i], before), islands[i].outputs[k], before));
      TickWritesMembers(finite, islands, before, w);
      var m :| 0 <= m < |writes| && writes[m] == w;
      PutAllWrites(before, writes, m);
    }
    forall r: nat, k: nat | r < |before| && k < |before[r].values| && !BoundBySome(islands, Address(r, k))
      ensures Receives(after, Address(r, k), before[r].values[k])
    {
      PutAllKeeps(before, writes, r);
      WritesOfPrefix(finite, islands, before, |islands|, Address(r, k));
      assert islands[..|islands|] == islands;
    }
  }
}
