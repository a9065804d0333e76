// Compiling nested device definitions (CompiledDefinition in
// hynergy-engine/src/compile/definition.rs): child states are flattened by offset, child
// partitions are folded into parent partitions, and every state must have one writing partition.
// Acyclic nesting is the datatype's tree structure.
module Composite {
  import opened Support

  datatype Kind = Capacitor | Inductor | SchmittBuffer | TickDelay | Stateless

  /** A definition. `elementPartitions` maps the partitions of all children, in order, to the
      partitions of this definition. */
  datatype Definition =
    | Primitive(kind: Kind)
    | Composite(children: seq<Definition>, elementPartitions: seq<nat>, partitionCount: nat)

  datatype Transition = Preserve | Literal(value: real)

  datatype Role = Used | Read | Written

  /** `CompiledPartitionTemplate`, as far as states go. */
  datatype Partition = Partition(states: seq<nat>, readStates: seq<nat>, writtenStates: seq<nat>) {
    function Get(role: Role): seq<nat> {
      match role
      case Used => states
      case Read => readStates
      case Written => writtenStates
    }
  }

  datatype Compiled = Compiled(partitions: seq<Partition>, initializers: seq<real>, transitions: seq<Transition>) {
    function StateCount(): nat { |initializers| }

    /** Partition `p` writes state `s`. */
    ghost predicate Writes(p: nat, s: nat) {
      p < |partitions| && s in partitions[p].writtenStates
    }

    ghost predicate HasWriter(s: nat) {
      exists p: nat :: Writes(p, s)
    }

    ghost predicate Aligned() {
      && |transitions| == |initializers|
      && forall p | 0 <= p < |partitions| :: Fits(partitions[p])
    }

    ghost predicate Fits(part: Partition) {
      && (forall s | s in part.states :: s < StateCount())
      && (forall s | s in part.readStates :: s in part.states)
      && (forall s | s in part.writtenStates :: s in part.states)
    }

    /** Every state has exactly one writing partition. */
    ghost predicate UniqueWriters() {
      && (forall s: nat | s < StateCount() :: HasWriter(s))
      && (forall s: nat, p: nat, q: nat | Writes(p, s) && Writes(q, s) :: p == q)
    }
  }

  datatype CompileError =
    | MultipleStateWriterPartitions(state: nat, first: nat, second: nat)
    | MissingStateWriter(state: nat)

  // ----- Primitives -----

  function PrimitiveInitializers(kind: Kind): seq<real> {
    match kind
    case Capacitor | Inductor | TickDelay | SchmittBuffer => [0.0]
    case Stateless => []
  }

  function PrimitiveTransitions(kind: Kind): seq<Transition> {
    match kind
    case Capacitor | Inductor | SchmittBuffer => [Preserve]
    case TickDelay => [Literal(0.0)]
    case Stateless => []
  }

  /** A tick delay writes in its first partition and reads in its second; every other primitive has
      one partition that reads and writes its states. */
  function PrimitivePartitions(kind: Kind): seq<Partition> {
    match kind
    case TickDelay => [Partition([0], [], [0]), Partition([0], [0], [])]
    case Capacitor | Inductor | SchmittBuffer => [Partition([0], [0], [0])]
    case Stateless => [Partition([], [], [])]
  }

  // ----- Offsets -----

  ghost function StatesOf(children: seq<Compiled>): nat {
    if children == [] then 0 else StatesOf(children[..|children| - 1]) + children[|children| - 1].StateCount()
  }

  ghost function PartitionsOf(children: seq<Compiled>): nat {
    if children == [] then 0 else PartitionsOf(children[..|children| - 1]) + |children[|children| - 1].partitions|
  }

  /** Parent state `x` is state `s` of child `e`. */
  ghost predicate Lifts(children: seq<Compiled>, e: nat, s: nat, x: nat) {
    e < |children| && s < children[e].StateCount() && x == StatesOf(children[..e]) + s
  }

  lemma {:induction false} OffsetsAscend(children: seq<Compiled>, d: nat, e: nat)
    requires d < e <= |children|
    ensures StatesOf(children[..d]) + children[d].StateCount() <= StatesOf(children[..e])
    decreases e
  {
    assert children[..e][..e - 1] == children[..e - 1];
    if d < e - 1 {
      OffsetsAscend(children, d, e - 1);
    }
  }

  /** Flattening by offset is injective ... */
  lemma LiftIsInjective(children: seq<Compiled>, d: nat, r: nat, e: nat, s: nat, x: nat)
    requires Lifts(children, d, r, x) && Lifts(children, e, s, x)
    ensures d == e && r == s
  {
    if d < e { OffsetsAscend(children, d, e); }
    if e < d { OffsetsAscend(children, e, d); }
  }

  /** ... and onto: together, a bijection between (element, child state) and parent state. */
  lemma {:induction false} EveryStateIsLifted(children: seq<Compiled>, x: nat) returns (e: nat, s: nat)
    requires x < StatesOf(children)
    ensures Lifts(children, e, s, x)
  {
    var n := |children| - 1;
    if x < StatesOf(children[..n]) {
      e, s := EveryStateIsLifted(children[..n], x);
      assert children[..n][..e] == children[..e];
    } else {
      e, s := n, x - StatesOf(children[..n]);
    }
  }

  lemma LiftIsInRange(children: seq<Compiled>, e: nat, s: nat, x: nat)
    requires Lifts(children, e, s, x)
    ensures x < StatesOf(children)
  {
    OffsetsAscend(children, e, |children|);
    assert children[..|children|] == children;
  }

  // ----- Folding partitions -----

  function Raise(states: seq<nat>, offset: nat): (r: seq<nat>)
    ensures forall x: nat :: x in r <==> x >= offset && x - offset in states
  {
    if states == [] then []
    else
      assert states == states[..|states| - 1] + [states[|states| - 1]];
      Raise(states[..|states| - 1], offset) + [offset + states[|states| - 1]]
  }

  /** The states that the child partitions folded into `parent` use, read or write. */
  ghost function FoldedChild(
      partitions: seq<Partition>, stateOffset: nat, partitionOffset: nat, layout: seq<nat>, parent: nat, role: Role)
    : seq<nat>
    requires partitionOffset + |partitions| <= |layout|
  {
    if partitions == [] then []
    else
      var last := |partitions| - 1;
      FoldedChild(partitions[..last], stateOffset, partitionOffset, layout, parent, role)
      + (if layout[partitionOffset + last] == parent then Raise(partitions[last].Get(role), stateOffset) else [])
  }

  ghost function Folded(children: seq<Compiled>, layout: seq<nat>, parent: nat, role: Role)
    : seq<nat>
    requires PartitionsOf(children) <= |layout|
  {
    if children == [] then []
    else
      var older, last := children[..|children| - 1], children[|children| - 1];
      Folded(older, layout, parent, role)
      + FoldedChild(last.partitions, StatesOf(older), PartitionsOf(older), layout, parent, role)
  }

  /** Child partition `c` is folded into `parent` and contributes state `x`. */
  ghost predicate ChildContributes(
      partitions: seq<Partition>, stateOffset: nat, partitionOffset: nat, layout: seq<nat>, parent: nat, role: Role,
      c: nat, x: nat)
  {
    && c < |partitions| && partitionOffset + c < |layout| && layout[partitionOffset + c] == parent
    && x >= stateOffset && x - stateOffset in partitions[c].Get(role)
  }

  ghost predicate Contributes(
      children: seq<Compiled>, layout: seq<nat>, parent: nat, role: Role, e: nat, c: nat, x: nat)
  {
    && e < |children|
    && ChildContributes(children[e].partitions, StatesOf(children[..e]), PartitionsOf(children[..e]), layout, parent,
      role, c, x)
  }

  lemma PrefixContributes(
      partitions: seq<Partition>, n: nat, stateOffset: nat, partitionOffset: nat, layout: seq<nat>, parent: nat,
      role: Role, c: nat, x: nat)
    requires n <= |partitions|
    ensures ChildContributes(partitions[..n], stateOffset, partitionOffset, layout, parent, role, c, x) <==>
            c < n && ChildContributes(partitions, stateOffset, partitionOffset, layout, parent, role, c, x)
  {
  }

  lemma {:induction false} FoldedChildMembers(
      partitions: seq<Partition>, stateOffset: nat, partitionOffset: nat, layout: seq<nat>, parent: nat, role: Role,
      x: nat)
    requires partitionOffset + |partitions| <= |layout|
    ensures x in FoldedChild(partitions, stateOffset, partitionOffset, layout, parent, role) <==>
            exists c: nat :: ChildContributes(partitions, stateOffset, partitionOffset, layout, parent, role, c, x)
  {
    if partitions != [] {
      var last := |partitions| - 1;
      var rest := partitions[..last];
      FoldedChildMembers(rest, stateOffset, partitionOffset, layout, parent, role, x);
      assert x in FoldedChild(partitions, stateOffset, partitionOffset, layout, parent, role) <==>
             x in FoldedChild(rest, stateOffset, partitionOffset, layout, parent, role)
             || ChildContributes(partitions, stateOffset, partitionOffset, layout, parent, role, last, x);
      if c: nat :| ChildContributes(rest, stateOffset, partitionOffset, layout, parent, role, c, x) {
        PrefixContributes(partitions, last, stateOffset, partitionOffset, layout, parent, role, c, x);
      }
      if c: nat :| ChildContributes(partitions, stateOffset, partitionOffset, layout, parent, role, c, x) {
        PrefixContributes(partitions, last, stateOffset, partitionOffset, layout, parent, role, c, x);
      }
    }
  }

  lemma {:induction false} FoldedMembers(children: seq<Compiled>, layout: seq<nat>, parent: nat, role: Role, x: nat)
    requires PartitionsOf(children) <= |layout|
    ensures x in Folded(children, layout, parent, role) <==>
            exists e: nat, c: nat :: Contributes(children, layout, parent, role, e, c, x)
  {
    if children != [] {
      var n := |children| - 1;
      var older, last := children[..n], children[n];
      FoldedMembers(older, layout, parent, role, x);
      FoldedChildMembers(last.partitions, StatesOf(older), PartitionsOf(older), layout, parent, role, x);
      forall e: nat, c: nat
        ensures Contributes(children, layout, parent, role, e, c, x) <==>
                Contributes(older, layout, parent, role, e, c, x)
                || (e == n
                  && ChildContributes(last.partitions, StatesOf(older), PartitionsOf(older), layout, parent, role, c,
                  x))
      {
        assert e < n ==> older[..e] == children[..e] && older[e] == children[e];
      }
      if c: nat :| ChildContributes(last.partitions, StatesOf(older), PartitionsOf(older), layout, parent, role, c, x) {
        assert Contributes(children, layout, parent, role, n, c, x);
      }
      if e: nat, c: nat :| Contributes(older, layout, parent, role, e, c, x) {
        assert Contributes(children, layout, parent, role, e, c, x);
      }
    }
  }

  // ----- The compiled composite -----

  ghost function Initializers(children: seq<Compiled>): (r: seq<real>)
    ensures |r| == StatesOf(children)
  {
    if children == [] then [] else Initializers(children[..|children| - 1]) + children[|children| - 1].initializers
  }

  ghost function Transitions(children: seq<Compiled>): seq<Transition> {
    if children == [] then [] else Transitions(children[..|children| - 1]) + children[|children| - 1].transitions
  }

  ghost function FoldedPartition(children: seq<Compiled>, layout: seq<nat>, parent: nat): Partition
    requires PartitionsOf(children) <= |layout|
  {
    Partition(SortedDistinct(Folded(children, layout, parent, Used)),
              SortedDistinct(Folded(children, layout, parent, Read)),
              SortedDistinct(Folded(children, layout, parent, Written)))
  }

  ghost function FoldedPartitions(children: seq<Compiled>, layout: seq<nat>, partitionCount: nat): seq<Partition>
    requires PartitionsOf(children) <= |layout|
  {
    seq(partitionCount, p requires 0 <= p < partitionCount => FoldedPartition(children, layout, p))
  }

  ghost function Flatten(children: seq<Compiled>, layout: seq<nat>, partitionCount: nat): Compiled
    requires PartitionsOf(children) <= |layout|
  {
    Compiled(FoldedPartitions(children, layout, partitionCount), Initializers(children), Transitions(children))
  }

  /** Flattening keeps unique writers: when every child has them and every child partition is folded
      into some parent partition, the composite has them too. */
  lemma FlattenKeepsUniqueWriters(children: seq<Compiled>, layout: seq<nat>, partitionCount: nat)
    requires PartitionsOf(children) == |layout| && forall k | 0 <= k < |layout| :: layout[k] < partitionCount
    requires forall e | 0 <= e < |children| :: children[e].Aligned() && children[e].UniqueWriters()
    ensures Flatten(children, layout, partitionCount).Aligned()
      && Flatten(children, layout, partitionCount).UniqueWriters()
  {
    var flat := Flatten(children, layout, partitionCount);
    TransitionsAlign(children);
    forall p: nat | p < partitionCount ensures flat.Fits(flat.partitions[p]) {
      FoldedFits(children, layout, p);
    }
    forall x: nat | x < flat.StateCount() ensures flat.HasWriter(x) {
      WriterExists(children, layout, partitionCount, x);
    }
    forall x: nat, p: nat, q: nat | flat.Writes(p, x) && flat.Writes(q, x) ensures p == q {
      WriterIsUnique(children, layout, p, q, x);
    }
  }

  lemma {:induction false} TransitionsAlign(children: seq<Compiled>)
    requires forall e | 0 <= e < |children| :: children[e].Aligned()
    ensures |Transitions(children)| == StatesOf(children)
  {
    if children != [] { TransitionsAlign(children[..|children| - 1]); }
  }

  lemma FoldedFits(children: seq<Compiled>, layout: seq<nat>, p: nat)
    requires PartitionsOf(children) <= |layout| && forall e | 0 <= e < |children| :: children[e].Aligned()
    ensures var part := FoldedPartition(children, layout, p);
            && (forall x | x in part.states :: x < StatesOf(children))
            && (forall x | x in part.readStates :: x in part.states)
            && (forall x | x in part.writtenStates :: x in part.states)
  {
    var part := FoldedPartition(children, layout, p);
    forall x | x in part.states ensures x < StatesOf(children) {
      FoldedStateFits(children, layout, p, Used, x);
    }
    forall x | x in part.readStates ensures x in part.states {
      FoldedStateFits(children, layout, p, Read, x);
    }
    forall x | x in part.writtenStates ensures x in part.states {
      FoldedStateFits(children, layout, p, Written, x);
    }
  }

  lemma FoldedStateFits(children: seq<Compiled>, layout: seq<nat>, p: nat, role: Role, x: nat)
    requires PartitionsOf(children) <= |layout| && forall e | 0 <= e < |children| :: children[e].Aligned()
    requires x in Folded(children, layout, p, role)
    ensures x < StatesOf(children) && x in Folded(children, layout, p, Used)
  {
    FoldedMembers(children, layout, p, role, x);
    FoldedMembers(children, layout, p, Used, x);
    var e: nat, c: nat :| Contributes(children, layout, p, role, e, c, x);
    ContributedIsUsed(children, layout, p, role, e, c, x);
  }

  lemma ContributedIsUsed(children: seq<Compiled>, layout: seq<nat>, p: nat, role: Role, e: nat, c: nat, x: nat)
    requires Contributes(children, layout, p, role, e, c, x) && children[e].Aligned()
    ensures Contributes(children, layout, p, Used, e, c, x) && x < StatesOf(children)
  {
    assert children[e].Fits(children[e].partitions[c]);
    LiftIsInRange(children, e, x - StatesOf(children[..e]), x);
  }

  lemma WriterExists(children: seq<Compiled>, layout: seq<nat>, partitionCount: nat, x: nat)
    requires PartitionsOf(children) == |layout| && forall k | 0 <= k < |layout| :: layout[k] < partitionCount
    requires forall e | 0 <= e < |children| :: children[e].UniqueWriters()
    requires x < StatesOf(children)
    ensures Flatten(children, layout, partitionCount).HasWriter(x)
  {
    var e, s := EveryStateIsLifted(children, x);
    var c := SomeWriter(children[e], s);
    var p := FoldedWriter(children, layout, e, c, s, x);
    FlatWriter(children, layout, partitionCount, p, x);
  }

  lemma SomeWriter(child: Compiled, s: nat) returns (c: nat)
    requires child.UniqueWriters() && s < child.StateCount()
    ensures child.Writes(c, s)
  {
    assert child.HasWriter(s);
    c :| child.Writes(c, s);
  }

  lemma FlatWriter(children: seq<Compiled>, layout: seq<nat>, partitionCount: nat, p: nat, x: nat)
    requires PartitionsOf(children) <= |layout| && p < partitionCount && x in Folded(children, layout, p, Written)
    ensures Flatten(children, layout, partitionCount).HasWriter(x)
  {
    assert Flatten(children, layout, partitionCount).Writes(p, x);
  }

  lemma FoldedWriter(children: seq<Compiled>, layout: seq<nat>, e: nat, c: nat, s: nat, x: nat) returns (p: nat)
    requires PartitionsOf(children) == |layout| && Lifts(children, e, s, x) && children[e].Writes(c, s)
    ensures p in layout && x in Folded(children, layout, p, Written)
  {
    PartitionIsInRange(children, e, c);
    p := layout[PartitionsOf(children[..e]) + c];
    assert Contributes(children, layout, p, Written, e, c, x);
    FoldedMembers(children, layout, p, Written, x);
  }

  lemma {:induction false} PartitionIsInRange(children: seq<Compiled>, e: nat, c: nat)
    requires e < |children| && c < |children[e].partitions|
    ensures PartitionsOf(children[..e]) + c < PartitionsOf(children)
  {
    var n := |children| - 1;
    if e < n {
      PartitionIsInRange(children[..n], e, c);
      assert children[..n][..e] == children[..e];
    }
  }

  lemma {:induction false} WriterIsUnique(children: seq<Compiled>, layout: seq<nat>, p: nat, q: nat, x: nat)
    requires PartitionsOf(children) == |layout|
    requires forall e | 0 <= e < |children| :: children[e].Aligned() && children[e].UniqueWriters()
    requires x in Folded(children, layout, p, Written) && x in Folded(children, layout, q, Written)
    ensures p == q
  {
    FoldedMembers(children, layout, p, Written, x);
    FoldedMembers(children, layout, q, Written, x);
    var d: nat, b: nat :| Contributes(children, layout, p, Written, d, b, x);
    var e: nat, c: nat :| Contributes(children, layout, q, Written, e, c, x);
    WrittenIsLifted(children, layout, p, d, b, x);
    WrittenIsLifted(children, layout, q, e, c, x);
    var r, s := x - StatesOf(children[..d]), x - StatesOf(children[..e]);
    LiftIsInjective(children, d, r, e, s, x);
    assert children[e].UniqueWriters();
  }

  lemma WrittenIsLifted(children: seq<Compiled>, layout: seq<nat>, p: nat, e: nat, c: nat, x: nat)
    requires Contributes(children, layout, p, Written, e, c, x) && children[e].Aligned()
    ensures Lifts(children, e, x - StatesOf(children[..e]), x)
    ensures children[e].Writes(c, x - StatesOf(children[..e]))
  {
    assert children[e].Fits(children[e].partitions[c]);
  }

  // ----- What compiling means -----

  ghost function SpecAll(definitions: seq<Definition>): (r: seq<Compiled>)
    requires forall d | d in definitions :: WellFormed(d)
    ensures |r| == |definitions|
    ensures forall e | 0 <= e < |r| :: r[e] == Spec(definitions[e])
    decreases definitions, 1
  {
    seq(|definitions|, e requires 0 <= e < |definitions| => assert definitions[e] in definitions; Spec(definitions[e]))
  }

  /** The number of partitions of a definition. */
  ghost function PartitionCount(d: Definition): nat {
    match d
    case Primitive(kind) => |PrimitivePartitions(kind)|
    case Composite(_, _, partitionCount) => partitionCount
  }

  ghost function TotalPartitions(definitions: seq<Definition>): nat {
    if definitions == [] then 0
    else TotalPartitions(definitions[..|definitions| - 1]) + PartitionCount(definitions[|definitions| - 1])
  }

  /** A valid partition layout maps every child partition to a partition of the composite. */
  ghost predicate WellFormed(d: Definition)
    decreases d
  {
    match d
    case Primitive(_) => true
    case Composite(children, elementPartitions, partitionCount) =>
      && (forall c | c in children :: WellFormed(c))
      && |elementPartitions| == TotalPartitions(children)
      && forall k | 0 <= k < |elementPartitions| :: elementPartitions[k] < partitionCount
  }

  ghost function Spec(d: Definition): (r: Compiled)
    requires WellFormed(d)
    ensures |r.partitions| == PartitionCount(d)
    decreases d, 0
  {
    match d
    case Primitive(kind) => Compiled(PrimitivePartitions(kind), PrimitiveInitializers(kind), PrimitiveTransitions(kind))
    case Composite(children, elementPartitions, partitionCount) =>
      var compiled := SpecAll(children);
      assert forall e | 0 <= e < |children| :: |compiled[e].partitions| == PartitionCount(children[e]) by {
        assert forall e | 0 <= e < |children| :: children[e] in children;
      }
      TotalsAgree(children, compiled);
      Flatten(compiled, elementPartitions, partitionCount)
  }

  lemma {:induction false} TotalsAgree(definitions: seq<Definition>, compiled: seq<Compiled>)
    requires |definitions| == |compiled|
    requires forall e | 0 <= e < |definitions| :: |compiled[e].partitions| == PartitionCount(definitions[e])
    ensures PartitionsOf(compiled) == TotalPartitions(definitions)
  {
    if definitions != [] {
      TotalsAgree(definitions[..|definitions| - 1], compiled[..|compiled| - 1]);
    }
  }

  /** Every state of every well-formed definition, however deeply nested, has exactly one writer. */
  lemma {:induction false} SpecHasUniqueWriters(d: Definition)
    requires WellFormed(d)
    ensures Spec(d).Aligned() && Spec(d).UniqueWriters()
    decreases d
  {
    match d {
      case Primitive(kind) =>
        PrimitiveHasUniqueWriters(kind);
      case Composite(children, elementPartitions, partitionCount) =>
        var compiled := SpecAll(children);
        forall e | 0 <= e < |children| ensures compiled[e].Aligned() && compiled[e].UniqueWriters() {
          assert children[e] in children;
          SpecHasUniqueWriters(children[e]);
        }
        TotalsAgree(children, compiled);
        FlattenKeepsUniqueWriters(compiled, elementPartitions, partitionCount);
    }
  }

  lemma PrimitiveHasUniqueWriters(kind: Kind)
    ensures var c := Compiled(PrimitivePartitions(kind), PrimitiveInitializers(kind), PrimitiveTransitions(kind));
            c.Aligned() && c.UniqueWriters()
  {
    var c := Compiled(PrimitivePartitions(kind), PrimitiveInitializers(kind), PrimitiveTransitions(kind));
    if !kind.Stateless? {
      assert c.Writes(0, 0);
    }
  }

  /** A parent state carries over the initializer and failed-tick transition of its child state. */
  lemma {:induction false} FlattenKeepsDefaults(children: seq<Compiled>, e: nat, s: nat, x: nat)
    requires Lifts(children, e, s, x) && forall k | 0 <= k < |children| :: children[k].Aligned()
    ensures x < |Initializers(children)| == |Transitions(children)|
    ensures s < |children[e].initializers| == |children[e].transitions|
    ensures Initializers(children)[x] == children[e].initializers[s]
    ensures Transitions(children)[x] == children[e].transitions[s]
  {
    var n := |children| - 1;
    TransitionsAlign(children[..n]);
    if e < n {
      assert children[..n][..e] == children[..e];
      FlattenKeepsDefaults(children[..n], e, s, x);
    }
  }

  // ----- What the compiled states are -----

  /** A primitive that has a state, somewhere in the tree, and the partitions of the whole definition
      that write and read the state. */
  datatype Leaf = Leaf(kind: Kind, writer: nat, reader: nat)

  ghost function Moved(leaf: Leaf, offset: nat, layout: seq<nat>): Leaf {
    if offset + leaf.writer < |layout| && offset + leaf.reader < |layout|
    then Leaf(leaf.kind, layout[offset + leaf.writer], layout[offset + leaf.reader])
    else leaf
  }

  ghost function MovedAll(leaves: seq<Leaf>, offset: nat, layout: seq<nat>): seq<Leaf> {
    seq(|leaves|, s requires 0 <= s < |leaves| => Moved(leaves[s], offset, layout))
  }

  /** The leaves of a tree in order. A delay is written before the tick's solution is read back. */
  ghost function Leaves(d: Definition): seq<Leaf>
    decreases d
  {
    match d
    case Primitive(Stateless) => []
    case Primitive(TickDelay) => [Leaf(TickDelay, 0, 1)]
    case Primitive(kind) => [Leaf(kind, 0, 0)]
    case Composite(children, elementPartitions, _) => LeavesOf(children, elementPartitions)
  }

  ghost function LeavesOf(children: seq<Definition>, layout: seq<nat>): seq<Leaf>
    decreases children
  {
    if children == [] then []
    else
      var older, last := children[..|children| - 1], children[|children| - 1];
      LeavesOf(older, layout) + MovedAll(Leaves(last), TotalPartitions(older), layout)
  }

  /** State `x` starts at zero, is cleared by a failed tick exactly if it is a delay's and kept
      otherwise, and is written and read where the leaf says and nowhere else. */
  ghost predicate Describes(leaf: Leaf, c: Compiled, x: nat) {
    && leaf.writer < |c.partitions| && leaf.reader < |c.partitions|
    && x < |c.initializers| == |c.transitions|
    && c.initializers[x] == 0.0
    && c.transitions[x] == (if leaf.kind.TickDelay? then Literal(0.0) else Preserve)
    && forall p | 0 <= p < |c.partitions| :: DescribesIn(leaf, c.partitions[p], p, x)
  }

  ghost predicate DescribesIn(leaf: Leaf, part: Partition, p: nat, x: nat) {
    && (x in part.writtenStates <==> p == leaf.writer)
    && (x in part.readStates <==> p == leaf.reader)
    && (x in part.states <==> p == leaf.writer || p == leaf.reader)
  }

  ghost predicate DescribesAll(leaves: seq<Leaf>, c: Compiled) {
    |leaves| == c.StateCount() && forall x | 0 <= x < |leaves| :: Describes(leaves[x], c, x)
  }

  /** Where a state of child `e` ends up. */
  lemma {:induction false} FoldedRole(children: seq<Compiled>, layout: seq<nat>, p: nat, role: Role, e: nat, s: nat, x: nat)
    requires PartitionsOf(children) <= |layout| && Lifts(children, e, s, x)
    requires forall k | 0 <= k < |children| :: children[k].Aligned()
    ensures x in Folded(children, layout, p, role) <==>
            exists c: nat :: Contributes(children, layout, p, role, e, c, x)
  {
    FoldedMembers(children, layout, p, role, x);
    if d: nat, c: nat :| Contributes(children, layout, p, role, d, c, x) {
      ContributedIsUsed(children, layout, p, role, d, c, x);
      assert children[d].Fits(children[d].partitions[c]);
      LiftIsInjective(children, d, x - StatesOf(children[..d]), e, s, x);
    }
  }

  lemma {:induction false} ContributesIff(
      children: seq<Compiled>, layout: seq<nat>, p: nat, role: Role, e: nat, s: nat, x: nat, c: nat, base: nat)
    requires PartitionsOf(children) <= |layout| && Lifts(children, e, s, x) && base == PartitionsOf(children[..e])
    requires c < |children[e].partitions|
    ensures base + c < |layout|
    ensures Contributes(children, layout, p, role, e, c, x) <==>
            layout[base + c] == p && s in children[e].partitions[c].Get(role)
  {
    PartitionIsInRange(children, e, c);
  }

  /** A child state in the given role in partitions `a` and `b` of the child, and no others, is folded
      into the partitions that these are mapped to, and no others. */
  lemma {:induction false} FoldedFromLeaf(
      children: seq<Compiled>, layout: seq<nat>, p: nat, role: Role, e: nat, s: nat, x: nat, a: nat, b: nat, base: nat)
    requires PartitionsOf(children) <= |layout| && Lifts(children, e, s, x) && base == PartitionsOf(children[..e])
    requires forall k | 0 <= k < |children| :: children[k].Aligned()
    requires a < |children[e].partitions| && b < |children[e].partitions|
    requires forall c | 0 <= c < |children[e].partitions| ::
               s in children[e].partitions[c].Get(role) <==> c == a || c == b
    ensures base + a < |layout| && base + b < |layout|
    ensures x in FoldedPartition(children, layout, p).Get(role) <==> p == layout[base + a] || p == layout[base + b]
  {
    ContributesIff(children, layout, p, role, e, s, x, a, base);
    ContributesIff(children, layout, p, role, e, s, x, b, base);
    FoldedRole(children, layout, p, role, e, s, x);
    if x in Folded(children, layout, p, role) {
      var c: nat :| Contributes(children, layout, p, role, e, c, x);
      ContributesIff(children, layout, p, role, e, s, x, c, base);
    }
  }

  lemma RolesOfLeaf(leaf: Leaf, c: Compiled, s: nat)
    requires Describes(leaf, c, s)
    ensures forall k | 0 <= k < |c.partitions| :: s in c.partitions[k].Get(Written) <==> k == leaf.writer
    ensures forall k | 0 <= k < |c.partitions| :: s in c.partitions[k].Get(Read) <==> k == leaf.reader
    ensures forall k | 0 <= k < |c.partitions| ::
              s in c.partitions[k].Get(Used) <==> k == leaf.writer || k == leaf.reader
  {
    assert forall k | 0 <= k < |c.partitions| :: DescribesIn(leaf, c.partitions[k], k, s);
  }

  lemma {:induction false} FoldedPartitionDescribes(
      children: seq<Compiled>, layout: seq<nat>, p: nat, e: nat, s: nat, x: nat, leaf: Leaf)
    requires PartitionsOf(children) <= |layout| && Lifts(children, e, s, x)
    requires forall k | 0 <= k < |children| :: children[k].Aligned()
    requires Describes(leaf, children[e], s)
    ensures DescribesIn(Moved(leaf, PartitionsOf(children[..e]), layout), FoldedPartition(children, layout, p), p, x)
  {
    var base := PartitionsOf(children[..e]);
    RolesOfLeaf(leaf, children[e], s);
    FoldedFromLeaf(children, layout, p, Written, e, s, x, leaf.writer, leaf.writer, base);
    FoldedFromLeaf(children, layout, p, Read, e, s, x, leaf.reader, leaf.reader, base);
    FoldedFromLeaf(children, layout, p, Used, e, s, x, leaf.writer, leaf.reader, base);
  }

  lemma {:induction false} FlattenDescribes(
      children: seq<Compiled>, layout: seq<nat>, partitionCount: nat, e: nat, s: nat, x: nat, leaf: Leaf)
    requires PartitionsOf(children) == |layout| && Lifts(children, e, s, x)
    requires forall k | 0 <= k < |children| :: children[k].Aligned()
    requires forall k | 0 <= k < |layout| :: layout[k] < partitionCount
    requires Describes(leaf, children[e], s)
    ensures Describes(Moved(leaf, PartitionsOf(children[..e]), layout), Flatten(children, layout, partitionCount), x)
  {
    PartitionIsInRange(children, e, leaf.writer);
    PartitionIsInRange(children, e, leaf.reader);
    FlattenKeepsDefaults(children, e, s, x);
    forall p: nat | p < partitionCount
      ensures DescribesIn(Moved(leaf, PartitionsOf(children[..e]), layout), FoldedPartition(children, layout, p), p, x)
    {
      FoldedPartitionDescribes(children, layout, p, e, s, x, leaf);
    }
  }

  /** The leaves of child `e` follow those of the children before it. */
  lemma {:induction false} LeafOfChild(
      children: seq<Definition>, compiled: seq<Compiled>, layout: seq<nat>, e: nat, s: nat, x: nat)
    requires |children| == |compiled|
    requires forall k | 0 <= k < |children| :: |Leaves(children[k])| == compiled[k].StateCount()
    requires Lifts(compiled, e, s, x)
    ensures x < |LeavesOf(children, layout)| && s < |Leaves(children[e])|
    ensures LeavesOf(children, layout)[x] == Moved(Leaves(children[e])[s], TotalPartitions(children[..e]), layout)
  {
    var n := |children| - 1;
    var older, last := LeavesOf(children[..n], layout), Leaves(children[n]);
    var moved := MovedAll(last, TotalPartitions(children[..n]), layout);
    assert LeavesOf(children, layout) == older + moved;
    if e < n {
      assert compiled[..n][..e] == compiled[..e] && children[..n][..e] == children[..e];
      LeafOfChild(children[..n], compiled[..n], layout, e, s, x);
      assert (older + moved)[x] == older[x];
    } else {
      LeavesCount(children[..n], compiled[..n], layout);
      assert (older + moved)[x] == moved[s];
    }
  }

  lemma {:induction false} LeavesCount(children: seq<Definition>, compiled: seq<Compiled>, layout: seq<nat>)
    requires |children| == |compiled|
    requires forall k | 0 <= k < |children| :: |Leaves(children[k])| == compiled[k].StateCount()
    ensures |LeavesOf(children, layout)| == StatesOf(compiled)
  {
    if children != [] {
      LeavesCount(children[..|children| - 1], compiled[..|compiled| - 1], layout);
    }
  }

  /** The compiled states of a definition, however deeply nested, are the states of its primitives in
      order: each starts at zero, only delays are cleared by a failed tick, and each is written by
      one partition and read by one partition, those its primitive was laid out to. */
  lemma {:induction false} SpecDescribesLeaves(d: Definition)
    requires WellFormed(d)
    ensures DescribesAll(Leaves(d), Spec(d))
    decreases d
  {
    match d {
      case Primitive(_) =>
      case Composite(children, layout, partitionCount) =>
        var compiled := SpecAll(children);
        forall e | 0 <= e < |children|
          ensures compiled[e].Aligned() && DescribesAll(Leaves(children[e]), compiled[e])
        {
          assert children[e] in children;
          SpecHasUniqueWriters(children[e]);
          SpecDescribesLeaves(children[e]);
        }
        ChildPartitionsAgree(children);
        LeavesCount(children, compiled, layout);
        forall x | 0 <= x < |Leaves(d)| ensures Describes(Leaves(d)[x], Spec(d), x) {
          var e, s := EveryStateIsLifted(compiled, x);
          LeafOfChild(children, compiled, layout, e, s, x);
          ChildPrefixAgrees(children, e);
          FlattenDescribes(compiled, layout, partitionCount, e, s, x, Leaves(children[e])[s]);
        }
    }
  }

  lemma ChildPrefixAgrees(children: seq<Definition>, e: nat)
    requires (forall c | c in children :: WellFormed(c)) && e <= |children|
    ensures PartitionsOf(SpecAll(children)[..e]) == TotalPartitions(children[..e])
  {
    assert forall c | c in children[..e] :: c in children;
    assert SpecAll(children)[..e] == SpecAll(children[..e]);
    ChildPartitionsAgree(children[..e]);
  }

  // ----- `CompiledDefinition::new` -----

  /** Everything recorded after the first `k` partitions and the first `j` writes of partition `k`. */
  ghost predicate Recorded(partitions: seq<Partition>, k: nat, j: nat, writers: seq<Option<nat>>) {
    forall s: nat, p: nat | s < |writers| ::
      writers[s] == Some(p) <==> p < |partitions| && RecordedBy(partitions, k, j, s, p)
  }

  ghost predicate RecordedBy(partitions: seq<Partition>, k: nat, j: nat, s: nat, p: nat)
    requires p < |partitions|
  {
    || (p < k && s in partitions[p].writtenStates)
    || (p == k && j <= |partitions[p].writtenStates| && s in partitions[p].writtenStates[..j])
  }

  method RecordWrites(partitions: seq<Partition>, k: nat, stateWriters: seq<Option<nat>>)
    returns (writers: seq<Option<nat>>, conflict: Option<CompileError>)
    requires k < |partitions| && Recorded(partitions, k, 0, stateWriters)
    requires forall s | s in partitions[k].writtenStates :: s < |stateWriters|
    ensures |writers| == |stateWriters|
    ensures conflict.None? ==> Recorded(partitions, k + 1, 0, writers)
    ensures conflict.Some? ==> ConflictIn(partitions, conflict.value)
  {
    writers := stateWriters;
    var writes := partitions[k].writtenStates;
    for j := 0 to |writes|
      invariant |writers| == |stateWriters| && Recorded(partitions, k, j, writers)
    {
      var state := writes[j];
      assert state in writes && writes[..j + 1] == writes[..j] + [state];
      match writers[state] {
        case None => writers := writers[state := Some(k)];
        case Some(first) =>
          if first != k {
            return writers, Some(MultipleStateWriterPartitions(state, first, k));
          }
      }
    }
    assert writes[..|writes|] == writes;
    conflict := None;
  }

  /** The error names a state and two partitions that write it. */
  ghost predicate ConflictIn(partitions: seq<Partition>, error: CompileError) {
    && error.MultipleStateWriterPartitions? && error.first < error.second < |partitions|
    && error.state in partitions[error.first].writtenStates && error.state in partitions[error.second].writtenStates
  }

  /** Accept exactly the definitions in which every state has one writing partition. */
  method New(
      partitions: seq<Partition>, initializers: seq<real>, transitions: seq<Transition>)
    returns (result: Result<Compiled, CompileError>)
    requires Compiled(partitions, initializers, transitions).Aligned()
    ensures var c := Compiled(partitions, initializers, transitions);
            && (result.Ok? <==> c.UniqueWriters())
            && (result.Ok? ==> result.value == c)
            && (result.Err? && result.error.MissingStateWriter? ==>
                  result.error.state < c.StateCount() && !c.HasWriter(result.error.state))
            && (result.Err? && result.error.MultipleStateWriterPartitions? ==> ConflictIn(partitions, result.error))
  {
    var c := Compiled(partitions, initializers, transitions);
    var writers: seq<Option<nat>> := seq(|initializers|, _ => None);
    for k := 0 to |partitions|
      invariant |writers| == |initializers| && Recorded(partitions, k, 0, writers)
    {
      assert c.Fits(partitions[k]);
      var conflict;
      writers, conflict := RecordWrites(partitions, k, writers);
      if conflict.Some? {
        ConflictIsNotUnique(c, conflict.value);
        return Err(conflict.value);
      }
    }
    for s := 0 to |writers|
      invariant forall t | 0 <= t < s :: writers[t].Some?
    {
      if writers[s].None? {
        WriterIsRecorded(c, writers, s);
        return Err(MissingStateWriter(s));
      }
    }
    AllRecordedIsUnique(c, writers);
    return Ok(c);
  }

  lemma ConflictIsNotUnique(c: Compiled, error: CompileError)
    requires ConflictIn(c.partitions, error)
    ensures !c.UniqueWriters()
  {
    assert c.Writes(error.first, error.state) && c.Writes(error.second, error.state);
  }

  lemma WriterIsRecorded(c: Compiled, writers: seq<Option<nat>>, s: nat)
    requires s < |writers| && Recorded(c.partitions, |c.partitions|, 0, writers)
    ensures writers[s].Some? <==> c.HasWriter(s)
  {
    if p: nat :| c.Writes(p, s) {
      assert RecordedBy(c.partitions, |c.partitions|, 0, s, p);
    }
    if writers[s].Some? {
      assert RecordedBy(c.partitions, |c.partitions|, 0, s, writers[s].value);
      assert c.Writes(writers[s].value, s);
    }
  }

  lemma AllRecordedIsUnique(c: Compiled, writers: seq<Option<nat>>)
    requires |writers| == c.StateCount() && Recorded(c.partitions, |c.partitions|, 0, writers) && c.Aligned()
    requires forall s | 0 <= s < |writers| :: writers[s].Some?
    ensures c.UniqueWriters()
  {
    forall s: nat | s < |writers| ensures c.HasWriter(s) { WriterIsRecorded(c, writers, s); }
    forall s: nat, p: nat, q: nat | c.Writes(p, s) && c.Writes(q, s) ensures p == q {
      assert c.Fits(c.partitions[p]) && s < |writers|;
      assert RecordedBy(c.partitions, |c.partitions|, 0, s, p) && RecordedBy(c.partitions, |c.partitions|, 0, s, q);
    }
  }

  // ----- `compile_composite_partition`, as far as states go -----

  ghost function Flagged(flags: seq<bool>): set<nat> {
    set s | 0 <= s < |flags| && flags[s]
  }

  method Mark(flags: seq<bool>, states: seq<nat>, offset: nat) returns (r: seq<bool>)
    requires forall s | s in states :: offset + s < |flags|
    ensures |r| == |flags| && Flagged(r) == Flagged(flags) + SetOf(Raise(states, offset))
  {
    r := flags;
    for i := 0 to |states|
      invariant |r| == |flags|
        && forall x: nat | x < |r| :: r[x] <==> flags[x] || (x >= offset && x - offset in states[..i])
    {
      assert states[i] in states && states[..i + 1] == states[..i] + [states[i]];
      r := r[offset + states[i] := true];
    }
    assert states[..|states|] == states;
  }

  lemma ElementsOfConcat(a: seq<nat>, b: seq<nat>)
    ensures SetOf(a + b) == SetOf(a) + SetOf(b)
  {
  }

  /** Fold the partitions of one child. */
  method MarkChild(
      child: Compiled, stateOffset: nat, partitionOffset: nat, layout: seq<nat>, parent: nat, ghost stateCount: nat,
      used: seq<bool>, readFlags: seq<bool>, written: seq<bool>)
    returns (u: seq<bool>, r: seq<bool>, w: seq<bool>)
    requires child.Aligned() && partitionOffset + |child.partitions| <= |layout|
    requires |used| == |readFlags| == |written| == stateCount && stateOffset + child.StateCount() <= stateCount
    ensures |u| == |r| == |w| == stateCount
    ensures Flagged(u) ==
      Flagged(used) + SetOf(FoldedChild(child.partitions, stateOffset, partitionOffset, layout, parent, Used))
    ensures Flagged(r) ==
      Flagged(readFlags) + SetOf(FoldedChild(child.partitions, stateOffset, partitionOffset, layout, parent, Read))
    ensures Flagged(w) ==
      Flagged(written) + SetOf(FoldedChild(child.partitions, stateOffset, partitionOffset, layout, parent, Written))
  {
    u, r, w := used, readFlags, written;
    var parts := child.partitions;
    for c := 0 to |parts|
      invariant |u| == |r| == |w| == stateCount
      invariant Flagged(u) ==
        Flagged(used) + SetOf(FoldedChild(parts[..c], stateOffset, partitionOffset, layout, parent, Used))
      invariant Flagged(r) ==
        Flagged(readFlags) + SetOf(FoldedChild(parts[..c], stateOffset, partitionOffset, layout, parent, Read))
      invariant Flagged(w) ==
        Flagged(written) + SetOf(FoldedChild(parts[..c], stateOffset, partitionOffset, layout, parent, Written))
    {
      FoldOnePartition(parts, c, stateOffset, partitionOffset, layout, parent, Used);
      FoldOnePartition(parts, c, stateOffset, partitionOffset, layout, parent, Read);
      FoldOnePartition(parts, c, stateOffset, partitionOffset, layout, parent, Written);
      if layout[partitionOffset + c] != parent {
        continue;
      }
      assert child.Fits(parts[c]);
      u := Mark(u, parts[c].states, stateOffset);
      r := Mark(r, parts[c].readStates, stateOffset);
      w := Mark(w, parts[c].writtenStates, stateOffset);
    }
    assert parts[..|parts|] == parts;
  }

  lemma FoldOnePartition(
      parts: seq<Partition>, c: nat, stateOffset: nat, partitionOffset: nat, layout: seq<nat>, parent: nat, role: Role)
    requires c < |parts| && partitionOffset + |parts| <= |layout|
    ensures SetOf(FoldedChild(parts[..c + 1], stateOffset, partitionOffset, layout, parent, role)) ==
            SetOf(FoldedChild(parts[..c], stateOffset, partitionOffset, layout, parent, role))
            + (if layout[partitionOffset + c] == parent then SetOf(Raise(parts[c].Get(role), stateOffset)) else {})
  {
    assert parts[..c + 1][..c] == parts[..c];
    ElementsOfConcat(FoldedChild(parts[..c], stateOffset, partitionOffset, layout, parent, role),
                     if layout[partitionOffset + c] == parent then Raise(parts[c].Get(role), stateOffset) else []);
  }

  /** The states of a parent partition, in ascending order. */
  method FoldPartition(
      children: seq<Compiled>, stateOffsets: seq<nat>, stateCount: nat, layout: seq<nat>, parent: nat)
    returns (part: Partition)
    requires PartitionsOf(children) == |layout| && stateCount == StatesOf(children)
    requires |stateOffsets| == |children|
      && forall e | 0 <= e < |children| :: stateOffsets[e] == StatesOf(children[..e])
    requires forall e | 0 <= e < |children| :: children[e].Aligned()
    ensures part == FoldedPartition(children, layout, parent)
  {
    var used, readFlags, written :=
      seq(stateCount, _ => false), seq(stateCount, _ => false), seq(stateCount, _ => false);
    var partitionOffset := 0;
    assert children[..0] == [];
    for e := 0 to |children|
      invariant |used| == |readFlags| == |written| == stateCount
      invariant partitionOffset == PartitionsOf(children[..e]) <= |layout|
      invariant Flagged(used) == SetOf(Folded(children[..e], layout, parent, Used))
      invariant Flagged(readFlags) == SetOf(Folded(children[..e], layout, parent, Read))
      invariant Flagged(written) == SetOf(Folded(children[..e], layout, parent, Written))
    {
      ChildFits(children, e);
      FoldOneChild(children, e, layout, parent, Used);
      FoldOneChild(children, e, layout, parent, Read);
      FoldOneChild(children, e, layout, parent, Written);
      used, readFlags, written :=
        MarkChild(children[e], stateOffsets[e], partitionOffset, layout, parent, stateCount, used, readFlags, written);
      partitionOffset := partitionOffset + |children[e].partitions|;
    }
    assert children[..|children|] == children;
    ReadAndWrittenAreUsed(children, layout, parent);
    part := ListStates(used, readFlags, written);
    AscendingUnique(part.states, SortedDistinct(Folded(children, layout, parent, Used)));
    AscendingUnique(part.readStates, SortedDistinct(Folded(children, layout, parent, Read)));
    AscendingUnique(part.writtenStates, SortedDistinct(Folded(children, layout, parent, Written)));
  }

  lemma ReadAndWrittenAreUsed(children: seq<Compiled>, layout: seq<nat>, parent: nat)
    requires PartitionsOf(children) <= |layout| && forall e | 0 <= e < |children| :: children[e].Aligned()
    ensures SetOf(Folded(children, layout, parent, Read)) <= SetOf(Folded(children, layout, parent, Used))
    ensures SetOf(Folded(children, layout, parent, Written)) <= SetOf(Folded(children, layout, parent, Used))
  {
    forall x | x in Folded(children, layout, parent, Read) ensures x in Folded(children, layout, parent, Used) {
      FoldedStateFits(children, layout, parent, Read, x);
    }
    forall x | x in Folded(children, layout, parent, Written) ensures x in Folded(children, layout, parent, Used) {
      FoldedStateFits(children, layout, parent, Written, x);
    }
  }

  lemma ChildFits(children: seq<Compiled>, e: nat)
    requires e < |children|
    ensures StatesOf(children[..e]) + children[e].StateCount() <= StatesOf(children)
    ensures PartitionsOf(children[..e]) + |children[e].partitions| <= PartitionsOf(children)
    ensures PartitionsOf(children[..e + 1]) == PartitionsOf(children[..e]) + |children[e].partitions|
  {
    OffsetsAscend(children, e, |children|);
    assert children[..|children|] == children;
    PartitionOffsetsAscend(children, e);
    assert children[..e + 1][..e] == children[..e];
  }

  lemma {:induction false} PartitionOffsetsAscend(children: seq<Compiled>, e: nat)
    requires e < |children|
    ensures PartitionsOf(children[..e]) + |children[e].partitions| <= PartitionsOf(children)
  {
    var n := |children| - 1;
    if e < n {
      PartitionOffsetsAscend(children[..n], e);
      assert children[..n][..e] == children[..e];
    }
  }

  lemma FoldOneChild(children: seq<Compiled>, e: nat, layout: seq<nat>, parent: nat, role: Role)
    requires e < |children| && PartitionsOf(children[..e]) + |children[e].partitions| <= |layout|
    ensures PartitionsOf(children[..e + 1]) <= |layout|
    ensures SetOf(Folded(children[..e + 1], layout, parent, role)) ==
            SetOf(Folded(children[..e], layout, parent, role))
            + SetOf(FoldedChild(children[e].partitions, StatesOf(children[..e]), PartitionsOf(children[..e]), layout,
              parent, role))
  {
    assert children[..e + 1][..e] == children[..e];
    ElementsOfConcat(Folded(children[..e], layout, parent, role),
                     FoldedChild(children[e].partitions, StatesOf(children[..e]), PartitionsOf(children[..e]), layout,
                       parent, role));
  }

  /** Turn the flags into ascending lists; an unused state is skipped. */
  method ListStates(used: seq<bool>, readFlags: seq<bool>, written: seq<bool>) returns (part: Partition)
    requires |used| == |readFlags| == |written| && Flagged(readFlags) <= Flagged(used)
      && Flagged(written) <= Flagged(used)
    ensures Ascending(part.states) && SetOf(part.states) == Flagged(used)
    ensures Ascending(part.readStates) && SetOf(part.readStates) == Flagged(readFlags)
    ensures Ascending(part.writtenStates) && SetOf(part.writtenStates) == Flagged(written)
    ensures forall x ::
      (x in part.states <==> x in Flagged(used)) && (x in part.readStates <==> x in Flagged(readFlags))
      && (x in part.writtenStates <==> x in Flagged(written))
  {
    var states: seq<nat>, reading: seq<nat>, writing: seq<nat> := [], [], [];
    for s := 0 to |used|
      invariant Lists(states, used, s) && Lists(reading, readFlags, s) && Lists(writing, written, s)
    {
      assert s in Flagged(readFlags) <==> readFlags[s];
      assert s in Flagged(written) <==> written[s];
      assert s in Flagged(used) <==> used[s];
      if !used[s] {
        continue;
      }
      AscendingAppend(states, s);
      AscendingAppend(reading, s);
      AscendingAppend(writing, s);
      states := states + [s];
      if readFlags[s] { reading := reading + [s]; }
      if written[s] { writing := writing + [s]; }
    }
    part := Partition(states, reading, writing);
  }

  ghost predicate Lists(list: seq<nat>, flags: seq<bool>, bound: nat) {
    bound <= |flags| && Ascending(list) && forall x: nat :: x in list <==> x < bound && flags[x]
  }

  // ----- `CompiledDefinition::compile` -----

  /** The flattened defaults, and the offset of every child's first state. */
  method FlattenDefaults(children: seq<Compiled>)
    returns (initializers: seq<real>, transitions: seq<Transition>, stateOffsets: seq<nat>, stateCount: nat)
    ensures initializers == Initializers(children) && transitions == Transitions(children)
      && stateCount == StatesOf(children)
    ensures |stateOffsets| == |children| && forall e | 0 <= e < |children| :: stateOffsets[e] == StatesOf(children[..e])
  {
    initializers, transitions, stateOffsets, stateCount := [], [], [], 0;
    assert children[..0] == [];
    for e := 0 to |children|
      invariant initializers == Initializers(children[..e]) && transitions == Transitions(children[..e])
      invariant |stateOffsets| == e && stateCount == StatesOf(children[..e])
      invariant forall d | 0 <= d < e :: stateOffsets[d] == StatesOf(children[..d])
    {
      assert children[..e + 1][..e] == children[..e];
      initializers := initializers + children[e].initializers;
      transitions := transitions + children[e].transitions;
      stateOffsets := stateOffsets + [stateCount];
      stateCount := stateCount + children[e].StateCount();
    }
    assert children[..|children|] == children;
  }

  method FoldPartitions(
      children: seq<Compiled>, stateOffsets: seq<nat>, stateCount: nat, layout: seq<nat>, partitionCount: nat)
    returns (partitions: seq<Partition>)
    requires PartitionsOf(children) == |layout| && stateCount == StatesOf(children)
    requires |stateOffsets| == |children|
      && forall e | 0 <= e < |children| :: stateOffsets[e] == StatesOf(children[..e])
    requires forall e | 0 <= e < |children| :: children[e].Aligned()
    ensures partitions == FoldedPartitions(children, layout, partitionCount)
  {
    partitions := [];
    for p := 0 to partitionCount
      invariant partitions == FoldedPartitions(children, layout, p)
    {
      var part := FoldPartition(children, stateOffsets, stateCount, layout, p);
      partitions := partitions + [part];
    }
  }

  /** `compile_composite` for compiled children. */
  method FlattenChildren(children: seq<Compiled>, layout: seq<nat>, partitionCount: nat)
    returns (partitions: seq<Partition>, initializers: seq<real>, transitions: seq<Transition>)
    requires PartitionsOf(children) == |layout|
    requires forall e | 0 <= e < |children| :: children[e].Aligned()
    ensures Compiled(partitions, initializers, transitions) == Flatten(children, layout, partitionCount)
  {
    var stateOffsets, stateCount;
    initializers, transitions, stateOffsets, stateCount := FlattenDefaults(children);
    partitions := FoldPartitions(children, stateOffsets, stateCount, layout, partitionCount);
  }

  method CompileChildren(children: seq<Definition>) returns (result: Result<seq<Compiled>, CompileError>)
    requires forall c | c in children :: WellFormed(c)
    ensures result == Ok(SpecAll(children)) && forall e | 0 <= e < |children| :: result.value[e].Aligned()
    decreases children, 1
  {
    ghost var all := SpecAll(children);
    var compiled: seq<Compiled> := [];
    for e := 0 to |children|
      invariant compiled == all[..e] && forall d | 0 <= d < e :: compiled[d].Aligned()
    {
      assert children[e] in children && all[e] == Spec(children[e]);
      var child := Compile(children[e]);
      assert all[..e + 1] == all[..e] + [all[e]];
      compiled := compiled + [child.value];
    }
    assert compiled == all;
    result := Ok(compiled);
  }

  /** Compiling never fails for a writer conflict, and yields the flattened definition. */
  method Compile(definition: Definition) returns (result: Result<Compiled, CompileError>)
    requires WellFormed(definition)
    ensures result == Ok(Spec(definition)) && result.value.Aligned() && result.value.UniqueWriters()
    decreases definition, 0
  {
    SpecHasUniqueWriters(definition);
    match definition {
      case Primitive(kind) =>
        result := New(PrimitivePartitions(kind), PrimitiveInitializers(kind), PrimitiveTransitions(kind));
      case Composite(children, elementPartitions, partitionCount) =>
        var compiled := CompileChildren(children);
        ChildPartitionsAgree(children);
        var partitions, initializers, transitions := FlattenChildren(compiled.value, elementPartitions, partitionCount);
        result := New(partitions, initializers, transitions);
    }
  }

  lemma ChildPartitionsAgree(children: seq<Definition>)
    requires forall c | c in children :: WellFormed(c)
    ensures PartitionsOf(SpecAll(children)) == TotalPartitions(children)
  {
    assert forall e | 0 <= e < |children| :: children[e] in children;
    TotalsAgree(children, SpecAll(children));
  }
}
