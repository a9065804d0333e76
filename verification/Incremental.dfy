// Incremental re-evaluation of the iteration stage (hynergy-ir/src/value.rs): a compressed
// reverse dependency graph, a bitset of dirty operations, and the worklist that replaces full
// evaluation. The worklist is proved equal to the full evaluator, slot for slot.
//
// A 64-bit word used as a bitset is modelled as the set of its set bit positions.
module Incremental {
  import opened Support
  import opened ValueIr

  // ----- The reverse dependency graph -----

  function OpVisits(index: nat, op: ValueOp): seq<(nat, nat)> {
    match op
    case Binary(_, _, lhs, rhs) => [(index, lhs), (index, rhs)]
    case Negate(_, operand) => [(index, operand)]
  }

  /** The (operation, source) pairs in the order `visit_dependencies` reports them. */
  function Visits(ops: seq<ValueOp>): seq<(nat, nat)> {
    if ops == [] then [] else Visits(ops[..|ops| - 1]) + OpVisits(|ops| - 1, ops[|ops| - 1])
  }

  /** The operations among `visits` with the given source, in visiting order. */
  ghost function Select(visits: seq<(nat, nat)>, source: nat): seq<nat> {
    if visits == [] then []
    else
      var last := visits[|visits| - 1];
      Select(visits[..|visits| - 1], source) + (if last.1 == source then [last.0] else [])
  }

  /** How many visits have a source below `v`. */
  ghost function Before(visits: seq<(nat, nat)>, v: nat): nat {
    if visits == [] then 0
    else Before(visits[..|visits| - 1], v) + (if visits[|visits| - 1].1 < v then 1 else 0)
  }

  lemma {:induction false} BeforeStep(visits: seq<(nat, nat)>, v: nat)
    ensures Before(visits, 0) == 0
    ensures Before(visits, v + 1) == Before(visits, v) + |Select(visits, v)|
  {
    if visits != [] {
      BeforeStep(visits[..|visits| - 1], v);
    }
  }

  datatype IterationDependencyPlan = Plan(offsets: seq<nat>, dependentOps: seq<nat>, operationCount: nat)

  /** The slice of `plan` for slot `v` lists exactly the operations that read `v`, in order. */
  ghost predicate IsPlanFor(plan: IterationDependencyPlan, ops: seq<ValueOp>, slotCount: nat) {
    && |plan.offsets| == slotCount + 1
    && plan.operationCount == |ops|
    && forall v | 0 <= v < slotCount :: SliceListsUsers(plan, ops, v)
  }

  ghost predicate SliceListsUsers(plan: IterationDependencyPlan, ops: seq<ValueOp>, v: nat) {
    && v + 1 < |plan.offsets|
    && plan.offsets[v] <= plan.offsets[v + 1] <= |plan.dependentOps|
    && plan.dependentOps[plan.offsets[v]..plan.offsets[v + 1]] == Select(Visits(ops), v)
  }

  lemma SelectOneMore(visits: seq<(nat, nat)>, next: (nat, nat), v: nat)
    ensures Select(visits + [next], v) == Select(visits, v) + (if next.1 == v then [next.0] else [])
  {
    assert (visits + [next])[..|visits|] == visits;
  }

  lemma SelectOp(visits: seq<(nat, nat)>, n: nat, op: ValueOp, v: nat, k: nat)
    ensures k in Select(visits + OpVisits(n, op), v) <==> k in Select(visits, v) || (k == n && op.Reads(v))
  {
    match op
    case Binary(_, _, lhs, rhs) =>
      SelectOneMore(visits, (n, lhs), v);
      SelectOneMore(visits + [(n, lhs)], (n, rhs), v);
      assert visits + OpVisits(n, op) == visits + [(n, lhs)] + [(n, rhs)];
    case Negate(_, operand) =>
      SelectOneMore(visits, (n, operand), v);
  }

  lemma {:induction false} SelectedUser(ops: seq<ValueOp>, v: nat, k: nat)
    ensures k in Select(Visits(ops), v) <==> k < |ops| && ops[k].Reads(v)
  {
    if ops != [] {
      var n := |ops| - 1;
      SelectedUser(ops[..n], v, k);
      SelectOp(Visits(ops[..n]), n, ops[n], v, k);
    }
  }

  lemma SelectedAreUsers(ops: seq<ValueOp>, v: nat)
    ensures forall k: nat :: k in Select(Visits(ops), v) <==> k < |ops| && ops[k].Reads(v)
  {
    forall k: nat ensures k in Select(Visits(ops), v) <==> k < |ops| && ops[k].Reads(v) {
      SelectedUser(ops, v, k);
    }
  }

  lemma {:induction false} SelectPrefix(visits: seq<(nat, nat)>, k: nat, v: nat)
    requires k <= |visits|
    ensures |Select(visits[..k], v)| <= |Select(visits, v)|
    ensures k < |visits| ==>
              Select(visits[..k + 1], v) == Select(visits[..k], v) + (if visits[k].1 == v then [visits[k].0] else [])
    ensures k < |visits| && visits[k].1 == v ==> |Select(visits[..k], v)| < |Select(visits, v)|
    decreases |visits|
  {
    if k < |visits| {
      assert visits[..k + 1][..k] == visits[..k];
      if k + 1 < |visits| {
        SelectPrefix(visits[..|visits| - 1], k, v);
        assert visits[..|visits| - 1][..k] == visits[..k];
      } else {
        assert visits[..k + 1] == visits;
      }
    } else {
      assert visits[..k] == visits;
    }
  }

  lemma {:induction false} BeforeMonotone(visits: seq<(nat, nat)>, u: nat, v: nat)
    requires u <= v
    ensures Before(visits, u) <= Before(visits, v)
    decreases v
  {
    if u < v {
      BeforeMonotone(visits, u, v - 1);
      BeforeStep(visits, v - 1);
    }
  }

  /** After `k` visits, the range of slot `v` starts with the users of `v` met so far. */
  ghost predicate Filled(visits: seq<(nat, nat)>, k: nat, v: nat, dependents: seq<nat>)
    requires k <= |visits|
  {
    var start, met := Before(visits, v), Select(visits[..k], v);
    start + |met| <= |dependents| && dependents[start..start + |met|] == met
  }

  lemma WriteBehind(s: seq<nat>, start: nat, met: seq<nat>, x: nat)
    requires start + |met| < |s| && s[start..start + |met|] == met
    ensures s[start + |met| := x][start..start + |met| + 1] == met + [x]
  {
    var t := s[start + |met| := x];
    assert t[start..start + |met|] == met;
  }

  lemma WriteOutside(s: seq<nat>, start: nat, end: nat, at: nat, x: nat)
    requires start <= end <= |s| && at < |s| && (at < start || end <= at)
    ensures s[at := x][start..end] == s[start..end]
  {
  }

  lemma RangesAreDisjoint(visits: seq<(nat, nat)>, u: nat, v: nat)
    requires u < v
    ensures Before(visits, u) + |Select(visits, u)| <= Before(visits, v)
  {
    BeforeMonotone(visits, u + 1, v);
    BeforeStep(visits, u);
  }

  lemma FillOne(visits: seq<(nat, nat)>, k: nat, v: nat, slotCount: nat, dependents: seq<nat>)
    requires k < |visits| && v < slotCount && visits[k].1 < slotCount
    requires |dependents| == Before(visits, slotCount)
    requires Filled(visits, k, v, dependents)
    ensures var at := Before(visits, visits[k].1) + |Select(visits[..k], visits[k].1)|;
            at < |dependents| && Filled(visits, k + 1, v, dependents[at := visits[k].0])
  {
    var (index, source) := visits[k];
    var start, met := Before(visits, v), Select(visits[..k], v);
    var at := Before(visits, source) + |Select(visits[..k], source)|;
    SelectPrefix(visits, k, source);
    SelectPrefix(visits, k, v);
    RangesAreDisjoint(visits, source, slotCount);
    if source == v {
      WriteBehind(dependents, start, met, index);
    } else {
      if source < v { RangesAreDisjoint(visits, source, v); } else { RangesAreDisjoint(visits, v, source); }
      WriteOutside(dependents, start, start + |met|, at, index);
    }
  }

  ghost predicate SourcesBelow(visits: seq<(nat, nat)>, slotCount: nat) {
    forall k | 0 <= k < |visits| :: visits[k].1 < slotCount
  }

  /** Position `v + 1` counts the uses of slot `v` among the first `k` visits. */
  ghost predicate Counted(visits: seq<(nat, nat)>, k: nat, counts: seq<nat>)
    requires k <= |visits|
  {
    && |counts| > 0 && counts[0] == 0
    && forall v | 1 <= v < |counts| :: counts[v] == |Select(visits[..k], v - 1)|
  }

  lemma CountOne(visits: seq<(nat, nat)>, k: nat, counts: seq<nat>)
    requires k < |visits| && Counted(visits, k, counts) && visits[k].1 + 1 < |counts|
    ensures Counted(visits, k + 1, counts[visits[k].1 + 1 := counts[visits[k].1 + 1] + 1])
  {
    forall v | 1 <= v < |counts|
      ensures |Select(visits[..k + 1], v - 1)| == counts[v] + (if visits[k].1 == v - 1 then 1 else 0)
    {
      SelectPrefix(visits, k, v - 1);
    }
  }

  method CountVisit(visits: seq<(nat, nat)>, k: nat, counts: array<nat>)
    requires k < |visits| && Counted(visits, k, counts[..]) && visits[k].1 + 1 < counts.Length
    modifies counts
    ensures Counted(visits, k + 1, counts[..])
  {
    CountOne(visits, k, counts[..]);
    var source := visits[k].1;
    ghost var next := counts[..][source + 1 := counts[source + 1] + 1];
    counts[source + 1] := counts[source + 1] + 1;
    assert counts[..] == next;
  }

  /** Count the users of every slot, one position up. */
  method CountUses(visits: seq<(nat, nat)>, slotCount: nat) returns (counts: array<nat>)
    requires SourcesBelow(visits, slotCount)
    ensures fresh(counts) && counts.Length == slotCount + 1 && Counted(visits, |visits|, counts[..])
  {
    counts := new nat[slotCount + 1](_ => 0);
    for k := 0 to |visits|
      invariant Counted(visits, k, counts[..])
    {
      CountVisit(visits, k, counts);
    }
  }

  lemma CountIsStep(visits: seq<(nat, nat)>, counts: seq<nat>, v: nat)
    requires Counted(visits, |visits|, counts) && 1 <= v < |counts|
    ensures Before(visits, v) == Before(visits, v - 1) + counts[v]
  {
    BeforeStep(visits, v - 1);
    assert visits[..|visits|] == visits;
    assert counts[v] == |Select(visits, v - 1)|;
  }

  /** Turn the counts into start offsets, in place. */
  method AccumulateOffsets(ghost visits: seq<(nat, nat)>, offsets: array<nat>)
    requires Counted(visits, |visits|, offsets[..])
    modifies offsets
    ensures forall v | 0 <= v < offsets.Length :: offsets[v] == Before(visits, v)
  {
    ghost var counts := offsets[..];
    BeforeStep(visits, 0);
    for index := 1 to offsets.Length
      invariant forall v | 0 <= v < index :: offsets[v] == Before(visits, v)
      invariant forall v | index <= v < offsets.Length :: offsets[v] == counts[v]
    {
      CountIsStep(visits, counts, index);
      offsets[index] := offsets[index] + offsets[index - 1];
    }
  }

  /** Every cursor points behind the users met so far. */
  ghost predicate Scattered(visits: seq<(nat, nat)>, k: nat, cursors: seq<nat>, dependents: seq<nat>)
    requires k <= |visits|
  {
    forall v | 0 <= v < |cursors| ::
      Filled(visits, k, v, dependents) && cursors[v] == Before(visits, v) + |Select(visits[..k], v)|
  }

  lemma ScatteredRangeIsComplete(visits: seq<(nat, nat)>, cursors: seq<nat>, dependents: seq<nat>, v: nat)
    requires v < |cursors| && Scattered(visits, |visits|, cursors, dependents)
    ensures Before(visits, v) <= Before(visits, v + 1) <= |dependents|
    ensures dependents[Before(visits, v)..Before(visits, v + 1)] == Select(visits, v)
  {
    assert visits[..|visits|] == visits;
    assert Filled(visits, |visits|, v, dependents) && cursors[v] >= 0;
    BeforeStep(visits, v);
  }

  lemma NothingScattered(visits: seq<(nat, nat)>, cursors: seq<nat>, dependents: seq<nat>)
    requires |dependents| == Before(visits, |cursors|)
    requires forall v | 0 <= v < |cursors| :: cursors[v] == Before(visits, v)
    ensures Scattered(visits, 0, cursors, dependents)
  {
    forall v | 0 <= v < |cursors| ensures Filled(visits, 0, v, dependents) {
      BeforeMonotone(visits, v, |cursors|);
    }
  }

  lemma ScatterOne(visits: seq<(nat, nat)>, k: nat, cursors: seq<nat>, dependents: seq<nat>)
    requires k < |visits| && visits[k].1 < |cursors| && Scattered(visits, k, cursors, dependents)
    requires |dependents| == Before(visits, |cursors|)
    ensures var (index, source) := visits[k]; var at := cursors[source];
            && at < |dependents|
            && Scattered(visits, k + 1, cursors[source := at + 1], dependents[at := index])
  {
    var (index, source) := visits[k];
    var at := cursors[source];
    FillOne(visits, k, source, |cursors|, dependents);
    forall v | 0 <= v < |cursors|
      ensures Filled(visits, k + 1, v, dependents[at := index])
      ensures |Select(visits[..k + 1], v)| == |Select(visits[..k], v)| + (if source == v then 1 else 0)
    {
      FillOne(visits, k, v, |cursors|, dependents);
      SelectPrefix(visits, k, v);
    }
  }

  /** Place every operation in the ranges of its sources. */
  method ScatterDependents(
      visits: seq<(nat, nat)>, slotCount: nat, offsets: array<nat>) returns (dependentOps: array<nat>)
    requires SourcesBelow(visits, slotCount) && offsets.Length == slotCount + 1
    requires forall v | 0 <= v <= slotCount :: offsets[v] == Before(visits, v)
    ensures dependentOps.Length == Before(visits, slotCount)
    ensures exists cursors: seq<nat> :: |cursors| == slotCount && Scattered(visits, |visits|, cursors, dependentOps[..])
  {
    dependentOps := new nat[offsets[slotCount]](_ => 0);
    var cursors := new nat[slotCount](_ => 0);
    forall v | 0 <= v < slotCount { cursors[v] := offsets[v]; }
    NothingScattered(visits, cursors[..], dependentOps[..]);
    for k := 0 to |visits|
      invariant Scattered(visits, k, cursors[..], dependentOps[..])
    {
      PlaceOne(visits, k, cursors, dependentOps);
    }
  }

  method PlaceOne(visits: seq<(nat, nat)>, k: nat, cursors: array<nat>, dependentOps: array<nat>)
    requires k < |visits| && SourcesBelow(visits, cursors.Length) && cursors != dependentOps
    requires dependentOps.Length == Before(visits, cursors.Length)
    requires Scattered(visits, k, cursors[..], dependentOps[..])
    modifies cursors, dependentOps
    ensures Scattered(visits, k + 1, cursors[..], dependentOps[..])
  {
    var (index, source) := visits[k];
    var at := cursors[source];
    ScatterOne(visits, k, cursors[..], dependentOps[..]);
    ghost var cursors', dependents' := cursors[..][source := at + 1], dependentOps[..][at := index];
    dependentOps[at] := index;
    cursors[source] := at + 1;
    assert cursors[..] == cursors' && dependentOps[..] == dependents';
  }

  method CompileIterationDependencies<V>(program: ValueProgram<V>) returns (plan: IterationDependencyPlan)
    requires AllFit(program.iterationOps, |program.initialValues|)
    ensures IsPlanFor(plan, program.iterationOps, |program.initialValues|)
  {
    var slotCount := |program.initialValues|;
    var visits := Visits(program.iterationOps);
    SourcesFit(program.iterationOps, slotCount);
    var offsets := CountUses(visits, slotCount);
    AccumulateOffsets(visits, offsets);
    var dependentOps := ScatterDependents(visits, slotCount, offsets);
    plan := Plan(offsets[..], dependentOps[..], |program.iterationOps|);
    ghost var cursors :| |cursors| == slotCount && Scattered(visits, |visits|, cursors, dependentOps[..]);
    forall v | 0 <= v < slotCount ensures SliceListsUsers(plan, program.iterationOps, v) {
      ScatteredRangeIsComplete(visits, cursors, dependentOps[..], v);
    }
  }

  lemma {:induction false} SourcesFit(ops: seq<ValueOp>, slotCount: nat)
    requires AllFit(ops, slotCount)
    ensures SourcesBelow(Visits(ops), slotCount)
  {
    if ops != [] {
      SourcesFit(ops[..|ops| - 1], slotCount);
      assert ops[|ops| - 1].Fits(slotCount);
    }
  }

  // ----- Dirty operations -----

  /** `trailing_zeros`: the lowest set bit. */
  method TrailingZeros(word: set<nat>) returns (bit: nat)
    requires word != {}
    ensures bit in word && forall b | b in word :: bit <= b
  {
    bit := 0;
    while bit !in word
      invariant forall b | b in word :: bit <= b
      decreases (var top :| top in word; top) - bit
    {
      bit := bit + 1;
    }
  }

  /** Operation `i` is bit `i % 64` of word `i / 64`. */
  predicate BitSet(words: seq<set<nat>>, i: nat) {
    i / 64 < |words| && i % 64 in words[i / 64]
  }

  ghost predicate Represents(words: seq<set<nat>>, dirty: set<nat>) {
    && (forall w, b | 0 <= w < |words| && b in words[w] :: b < 64)
    && (forall i: nat :: i in dirty <==> BitSet(words, i))
  }

  lemma SameBit(i: nat, w: nat, b: nat)
    requires b < 64
    ensures i / 64 == w && i % 64 == b <==> i == 64 * w + b
  {
  }

  lemma SetBit(words: seq<set<nat>>, dirty: set<nat>, i: nat)
    requires Represents(words, dirty) && i / 64 < |words|
    ensures Represents(words[i / 64 := words[i / 64] + {i % 64}], dirty + {i})
  {
    var w, b := i / 64, i % 64;
    var next := words[w := words[w] + {b}];
    forall j: nat ensures BitSet(next, j) <==> BitSet(words, j) || j == i {
      SameBit(j, w, b);
      SameBit(i, w, b);
    }
  }

  lemma ClearBit(words: seq<set<nat>>, dirty: set<nat>, i: nat)
    requires Represents(words, dirty) && i in dirty
    ensures i / 64 < |words| && Represents(words[i / 64 := words[i / 64] - {i % 64}], dirty - {i})
  {
    assert BitSet(words, i);
    var w, b := i / 64, i % 64;
    var next := words[w := words[w] - {b}];
    forall j: nat ensures BitSet(next, j) <==> BitSet(words, j) && j != i {
      SameBit(j, w, b);
      SameBit(i, w, b);
    }
  }

  lemma LowestInWord(words: seq<set<nat>>, dirty: set<nat>, w: nat, bit: nat)
    requires Represents(words, dirty) && w < |words| && bit in words[w]
    requires forall b | b in words[w] :: bit <= b
    ensures bit < 64 && 64 * w + bit in dirty
    ensures forall i: nat | i in dirty && 64 * w <= i :: 64 * w + bit <= i
  {
    assert BitSet(words, 64 * w + bit);
    forall i: nat | i in dirty && 64 * w <= i ensures 64 * w + bit <= i {
      assert BitSet(words, i);
    }
  }

  lemma NoWordNoBit(words: seq<set<nat>>, dirty: set<nat>, w: nat)
    requires Represents(words, dirty) && w < |words| && words[w] == {}
    requires forall d | d in dirty :: 64 * w <= d
    ensures forall d | d in dirty :: 64 * (w + 1) <= d
  {
    forall d: nat | d in dirty ensures 64 * (w + 1) <= d {
      assert BitSet(words, d);
    }
  }

  class IterationScratch {
    const operationCount: nat
    const dirtyWords: array<set<nat>>
    var pendingCount: nat
    // The operations whose bits are set.
    ghost var dirty: set<nat>

    ghost function Dirty(): set<nat>
      reads this
    {
      dirty
    }

    ghost predicate Valid()
      reads this, dirtyWords
    {
      && dirtyWords.Length == (operationCount + 63) / 64
      && Represents(dirtyWords[..], dirty)
      && (forall i | i in dirty :: i < operationCount)
      && pendingCount == |dirty|
    }

    constructor (plan: IterationDependencyPlan)
      ensures Valid() && operationCount == plan.operationCount && Dirty() == {} && fresh(dirtyWords)
    {
      operationCount := plan.operationCount;
      dirtyWords := new set<nat>[(plan.operationCount + 63) / 64](_ => {});
      pendingCount := 0;
      dirty := {};
    }

    method Mark(operation: nat)
      requires Valid() && operation < operationCount
      modifies this, dirtyWords
      ensures Valid() && Dirty() == old(Dirty()) + {operation}
    {
      var w, b := operation / 64, operation % 64;
      assert operation in dirty <==> BitSet(dirtyWords[..], operation);
      if b !in dirtyWords[w] {
        SetBit(dirtyWords[..], dirty, operation);
        ghost var words := dirtyWords[..][w := dirtyWords[w] + {b}];
        dirtyWords[w] := dirtyWords[w] + {b};
        assert dirtyWords[..] == words;
        pendingCount := pendingCount + 1;
        dirty := dirty + {operation};
      }
    }

    /** Mark the direct users of a slot. */
    method MarkUsers(plan: IterationDependencyPlan, ghost ops: seq<ValueOp>, v: nat)
      requires Valid() && |plan.offsets| > 0 && IsPlanFor(plan, ops, |plan.offsets| - 1)
      requires operationCount == plan.operationCount && v < |plan.offsets| - 1
      modifies this, dirtyWords
      ensures Valid() && Dirty() == old(Dirty()) + Users(ops, v)
    {
      ListedUsers(plan, ops, v);
      MarkAll(plan.dependentOps[plan.offsets[v]..plan.offsets[v + 1]]);
    }

    method MarkAll(users: seq<nat>)
      requires Valid() && forall i | 0 <= i < |users| :: users[i] < operationCount
      modifies this, dirtyWords
      ensures Valid() && Dirty() == old(Dirty()) + SetOf(users)
    {
      ghost var before := Dirty();
      for i := 0 to |users|
        invariant Valid() && Dirty() == WithPrefix(before, users, i)
      {
        Mark(users[i]);
      }
      WholePrefix(before, users);
    }

    /** Clear and return the lowest dirty operation of a word. */
    method TakeLowest(w: nat) returns (index: nat)
      requires Valid() && w < dirtyWords.Length && dirtyWords[w] != {}
      modifies this, dirtyWords
      ensures Valid() && index in old(Dirty()) && Dirty() == old(Dirty()) - {index}
      ensures 64 * w <= index < 64 * (w + 1)
      ensures forall i: nat | i in Dirty() && 64 * w <= i :: index < i
    {
      var bit := TrailingZeros(dirtyWords[w]);
      index := w * 64 + bit;
      LowestInWord(dirtyWords[..], dirty, w, bit);
      SameBit(index, w, bit);
      ClearBit(dirtyWords[..], dirty, index);
      ghost var words := dirtyWords[..][w := dirtyWords[w] - {bit}];
      dirtyWords[w] := dirtyWords[w] - {bit};
      assert dirtyWords[..] == words;
      pendingCount := pendingCount - 1;
      dirty := dirty - {index};
    }

    method Clear()
      requires Valid()
      modifies this, dirtyWords
      ensures Valid() && Dirty() == {}
    {
      forall w | 0 <= w < dirtyWords.Length { dirtyWords[w] := {}; }
      pendingCount := 0;
      dirty := {};
    }
  }

  /** `before` with the first `i` elements of `s`. */
  ghost function WithPrefix(before: set<nat>, s: seq<nat>, i: nat): set<nat>
    requires i <= |s|
  {
    if i == 0 then before else WithPrefix(before, s, i - 1) + {s[i - 1]}
  }

  lemma {:induction false} PrefixElements(before: set<nat>, s: seq<nat>, i: nat)
    requires i <= |s|
    ensures WithPrefix(before, s, i) == before + SetOf(s[..i])
  {
    if i > 0 {
      PrefixElements(before, s, i - 1);
      ElementsOfPrefix(s, i - 1);
    }
  }

  lemma WholePrefix(before: set<nat>, s: seq<nat>)
    ensures WithPrefix(before, s, |s|) == before + SetOf(s)
  {
    PrefixElements(before, s, |s|);
    assert s[..|s|] == s;
  }

  lemma ElementsOfPrefix(s: seq<nat>, i: nat)
    requires i < |s|
    ensures SetOf(s[..i + 1]) == SetOf(s[..i]) + {s[i]}
  {
    assert s[..i + 1] == s[..i] + [s[i]];
  }

  lemma {:induction false} AscendingCount(s: seq<nat>)
    requires Ascending(s)
    ensures |SetOf(s)| == |s|
  {
    if s != [] {
      var n := |s| - 1;
      AscendingCount(s[..n]);
      ElementsOfPrefix(s, n);
      assert s[..n + 1] == s;
      assert s[n] !in SetOf(s[..n]);
    }
  }

  ghost function Users(ops: seq<ValueOp>, v: nat): set<nat> {
    set k | 0 <= k < |ops| && ops[k].Reads(v)
  }

  /** The plan's slice for a slot holds exactly the users of the slot. */
  lemma ListedUsers(plan: IterationDependencyPlan, ops: seq<ValueOp>, v: nat)
    requires |plan.offsets| > 0 && IsPlanFor(plan, ops, |plan.offsets| - 1) && v < |plan.offsets| - 1
    ensures plan.offsets[v] <= plan.offsets[v + 1] <= |plan.dependentOps|
    ensures
      var users := plan.dependentOps[plan.offsets[v]..plan.offsets[v + 1]];
      SetOf(users) == Users(ops, v) && forall i | 0 <= i < |users| :: users[i] < plan.operationCount
  {
    assert SliceListsUsers(plan, ops, v);
    SelectedAreUsers(ops, v);
    var users := plan.dependentOps[plan.offsets[v]..plan.offsets[v + 1]];
    forall i | 0 <= i < |users| ensures users[i] < plan.operationCount {
      assert users[i] in users;
    }
  }

  // ----- The worklist -----

  /** Operation `i` is a seed, or uses the result of an operation in the closure. */
  ghost predicate InClosure(ops: seq<ValueOp>, seeds: set<nat>, i: nat)
    requires i < |ops|
    decreases i
  {
    i in seeds || exists j | 0 <= j < i :: InClosure(ops, seeds, j) && ops[i].Reads(ops[j].destination)
  }

  /** The transitive users of the seeds, seeds included. */
  ghost function Closure(ops: seq<ValueOp>, seeds: set<nat>): set<nat> {
    set i | 0 <= i < |ops| && InClosure(ops, seeds, i)
  }

  ghost predicate ConsistentOutside<V>(ar: Arithmetic<V>, ops: seq<ValueOp>, values: seq<V>, dirty: set<nat>)
    requires AllFit(ops, |values|)
  {
    forall k | 0 <= k < |ops| && k !in dirty :: values[ops[k].destination] == ops[k].Evaluate(ar, values)
  }

  lemma UnreadWriteKeepsOperands<V>(ar: Arithmetic<V>, op: ValueOp, values: seq<V>, slot: nat, x: V)
    requires op.Fits(|values|) && slot < |values| && !op.Reads(slot)
    ensures op.Evaluate(ar, values[slot := x]) == op.Evaluate(ar, values)
  {
  }

  /** Writing a slot no operation produces dirties exactly its users. */
  lemma InputWriteDirtiesUsers<V>(
      ar: Arithmetic<V>, ops: seq<ValueOp>, values: seq<V>, dirty: set<nat>, slot: nat, x: V)
    requires AllFit(ops, |values|) && slot < |values| && !Writes(ops, slot)
    requires ConsistentOutside(ar, ops, values, dirty)
    ensures ConsistentOutside(ar, ops, values[slot := x], dirty + Users(ops, slot))
  {
    forall k | 0 <= k < |ops| && k !in dirty + Users(ops, slot)
      ensures values[slot := x][ops[k].destination] == ops[k].Evaluate(ar, values[slot := x])
    {
      UnreadWriteKeepsOperands(ar, ops[k], values, slot, x);
    }
  }

  /** Executing one operation makes it consistent and dirties only its users. */
  lemma ExecutingDirtiesUsers<V>(ar: Arithmetic<V>, ops: seq<ValueOp>, values: seq<V>, dirty: set<nat>, m: nat)
    requires Ordered(ops, |values|) && m < |ops|
    requires ConsistentOutside(ar, ops, values, dirty)
    ensures ConsistentOutside(ar, ops, values[ops[m].destination := ops[m].Evaluate(ar, values)],
                              dirty - {m} + Users(ops, ops[m].destination))
  {
    var slot, x := ops[m].destination, ops[m].Evaluate(ar, values);
    forall k | 0 <= k < |ops| && k !in dirty - {m} + Users(ops, slot)
      ensures values[slot := x][ops[k].destination] == ops[k].Evaluate(ar, values[slot := x])
    {
      UnreadWriteKeepsOperands(ar, ops[k], values, slot, x);
      assert k < m || k == m || m < k;
    }
  }

  /** Taking the least dirty operation moves just that operation out of the remaining closure. */
  lemma {:induction false} TakingKeepsClosure(ops: seq<ValueOp>, slotCount: nat, dirty: set<nat>, m: nat, i: nat)
    requires Ordered(ops, slotCount) && m in dirty && m < |ops| && i < |ops|
    ensures InClosure(ops, dirty, i) <==>
              i == m || InClosure(ops, dirty - {m} + Users(ops, ops[m].destination), i)
    decreases i
  {
    var rest := dirty - {m} + Users(ops, ops[m].destination);
    forall j | 0 <= j < i
      ensures InClosure(ops, dirty, j) <==> j == m || InClosure(ops, rest, j)
    {
      TakingKeepsClosure(ops, slotCount, dirty, m, j);
    }
    if i in Users(ops, ops[m].destination) {
      assert ops[i].Reads(ops[m].destination) && ops[i].Fits(slotCount);
      assert m < i;
      assert InClosure(ops, dirty, m);
    }
  }

  /** The state of a drain: `trace` is executed, `dirty` waits, everything else is consistent. */
  ghost predicate Draining<V>(
      ar: Arithmetic<V>, ops: seq<ValueOp>, start: seq<V>, seeds: set<nat>,
      values: seq<V>, dirty: set<nat>, trace: seq<nat>, next: nat)
  {
    && |values| == |start| && AllFit(ops, |start|)
    && ConsistentOutside(ar, ops, values, dirty)
    && (forall v | 0 <= v < |start| && !Writes(ops, v) :: values[v] == start[v])
    && Ascending(trace)
    && (forall t | t in trace :: t < next && t < |ops|)
    && (forall d | d in dirty :: next <= d < |ops|)
    && (forall i | 0 <= i < |ops| :: InClosure(ops, seeds, i) <==> i in trace || InClosure(ops, dirty, i))
  }

  lemma NewlyDirtyIsLater(ops: seq<ValueOp>, slotCount: nat, dirty: set<nat>, m: nat)
    requires Ordered(ops, slotCount) && m < |ops|
    requires forall d | d in dirty :: m <= d < |ops|
    ensures forall d | d in dirty - {m} + Users(ops, ops[m].destination) :: m + 1 <= d < |ops|
  {
    forall d | d in Users(ops, ops[m].destination) ensures m < d {
      assert ops[d].Reads(ops[m].destination) && ops[d].Fits(slotCount);
    }
  }

  lemma TakingMovesOne(ops: seq<ValueOp>, slotCount: nat, seeds: set<nat>, dirty: set<nat>, trace: seq<nat>, m: nat)
    requires Ordered(ops, slotCount) && m in dirty && m < |ops|
    requires forall i | 0 <= i < |ops| :: InClosure(ops, seeds, i) <==> i in trace || InClosure(ops, dirty, i)
    ensures forall i | 0 <= i < |ops| ::
              InClosure(ops, seeds, i) <==>
              i in trace + [m] || InClosure(ops, dirty - {m} + Users(ops, ops[m].destination), i)
  {
    forall i | 0 <= i < |ops|
      ensures InClosure(ops, seeds, i) <==>
              i in trace + [m] || InClosure(ops, dirty - {m} + Users(ops, ops[m].destination), i)
    {
      TakingKeepsClosure(ops, slotCount, dirty, m, i);
    }
  }

  lemma DrainOne<V>(
      ar: Arithmetic<V>, ops: seq<ValueOp>, start: seq<V>, seeds: set<nat>,
      values: seq<V>, dirty: set<nat>, trace: seq<nat>, next: nat, m: nat)
    requires Ordered(ops, |start|) && Draining(ar, ops, start, seeds, values, dirty, trace, next)
    requires m in dirty && forall d | d in dirty :: m <= d
    ensures m < |ops|
    ensures Draining(ar, ops, start, seeds, values[ops[m].destination := ops[m].Evaluate(ar, values)],
                     dirty - {m} + Users(ops, ops[m].destination), trace + [m], m + 1)
  {
    ExecutingDirtiesUsers(ar, ops, values, dirty, m);
    NewlyDirtyIsLater(ops, |start|, dirty, m);
    TakingMovesOne(ops, |start|, seeds, dirty, trace, m);
    AscendingAppend(trace, m);
  }

  lemma {:induction false} NothingPending(ops: seq<ValueOp>, none: set<nat>, i: nat)
    requires i < |ops| && none == {}
    ensures !InClosure(ops, none, i)
    decreases i
  {
    forall j | 0 <= j < i ensures !InClosure(ops, none, j) { NothingPending(ops, none, j); }
  }

  /** A finished drain has executed the closure of the seeds, and equals full evaluation. */
  lemma DrainedIsFullyEvaluated<V>(
      ar: Arithmetic<V>, ops: seq<ValueOp>, start: seq<V>, seeds: set<nat>, values: seq<V>, trace: seq<nat>, next: nat)
    requires Ordered(ops, |start|) && Draining(ar, ops, start, seeds, values, {}, trace, next)
    ensures values == Execute(ar, ops, start)
    ensures SetOf(trace) == Closure(ops, seeds)
    ensures |trace| == |Closure(ops, seeds)|
  {
    ExecuteSettles(ar, ops, start);
    SettledUnique(ar, ops, values, Execute(ar, ops, start));
    forall i | 0 <= i < |ops| ensures !InClosure(ops, {}, i) { NothingPending(ops, {}, i); }
    AscendingCount(trace);
  }

  /** One turn of the worklist: clear, execute and propagate the least dirty operation of word `w`. */
  method ExecuteLowest<V>(
      ar: Arithmetic<V>, ops: seq<ValueOp>, plan: IterationDependencyPlan, values: array<V>, scratch: IterationScratch,
      w: nat, ghost start: seq<V>, ghost seeds: set<nat>, ghost trace: seq<nat>, ghost next: nat)
    returns (m: nat)
    requires Ordered(ops, |start|) && IsPlanFor(plan, ops, |start|)
    requires scratch.Valid() && scratch.operationCount == plan.operationCount && scratch.dirtyWords as object != values
    requires Draining(ar, ops, start, seeds, values[..], scratch.Dirty(), trace, next)
    requires w < scratch.dirtyWords.Length && scratch.dirtyWords[w] != {}
    requires forall d | d in scratch.Dirty() :: 64 * w <= d
    modifies values, scratch, scratch.dirtyWords
    ensures scratch.Valid() && next <= m < 64 * (w + 1)
    ensures Draining(ar, ops, start, seeds, values[..], scratch.Dirty(), trace + [m], m + 1)
    ensures forall d | d in scratch.Dirty() :: 64 * w <= d
  {
    ghost var dirty, before := scratch.Dirty(), values[..];
    m := scratch.TakeLowest(w);
    forall d | d in dirty ensures m <= d {
      assert d == m || d in scratch.Dirty();
    }
    DrainOne(ar, ops, start, seeds, before, dirty, trace, next, m);
    ExecuteOp(ar, ops[m], values);
    scratch.MarkUsers(plan, ops, ops[m].destination);
  }

  /** `execute_iteration_incremental`. Few dirty operations are drained one by one in ascending
      order; many are answered by a full evaluation. Either way the result is the full one. */
  method ExecuteIterationIncremental<V>(
      ar: Arithmetic<V>, program: ValueProgram<V>, plan: IterationDependencyPlan, values: array<V>,
      scratch: IterationScratch)
    returns (executed: nat, ghost trace: seq<nat>)
    requires Ordered(program.iterationOps, values.Length) && |program.initialValues| == values.Length
    requires IsPlanFor(plan, program.iterationOps, values.Length)
    requires scratch.Valid() && scratch.operationCount == plan.operationCount && scratch.dirtyWords as object != values
    requires ConsistentOutside(ar, program.iterationOps, values[..], scratch.Dirty())
    modifies values, scratch, scratch.dirtyWords
    ensures scratch.Valid() && scratch.Dirty() == {}
    ensures values[..] == Execute(ar, program.iterationOps, old(values[..]))
    ensures var dense := old(scratch.pendingCount) != 0
      && old(scratch.pendingCount) >= (|program.iterationOps| + 3) / 4;
            && (dense ==> executed == |program.iterationOps|)
            && (!dense ==> executed == |trace| == |Closure(program.iterationOps, old(scratch.Dirty()))|)
            && (!dense ==> Ascending(trace) && SetOf(trace) == Closure(program.iterationOps, old(scratch.Dirty())))
  {
    var ops := program.iterationOps;
    ghost var start, seeds, next := values[..], scratch.Dirty(), 0;
    trace, executed := [], 0;
    assert Draining(ar, ops, start, seeds, values[..], scratch.Dirty(), trace, next);
    if scratch.pendingCount == 0 {
      assert scratch.Dirty() == {};
      DrainedIsFullyEvaluated(ar, ops, start, seeds, values[..], trace, next);
      return;
    }
    if scratch.pendingCount >= (|ops| + 3) / 4 {
      ExecuteOps(ar, ops, values);
      scratch.Clear();
      executed := |ops|;
      return;
    }
    for w := 0 to scratch.dirtyWords.Length
      invariant scratch.Valid()
      invariant Draining(ar, ops, start, seeds, values[..], scratch.Dirty(), trace, next) && executed == |trace|
      invariant forall d | d in scratch.Dirty() :: 64 * w <= d
    {
      while scratch.dirtyWords[w] != {}
        invariant scratch.Valid()
        invariant Draining(ar, ops, start, seeds, values[..], scratch.Dirty(), trace, next) && executed == |trace|
        invariant forall d | d in scratch.Dirty() :: 64 * w <= d
        decreases 64 * (w + 1) - next
      {
        var m := ExecuteLowest(ar, ops, plan, values, scratch, w, start, seeds, trace, next);
        executed := executed + 1;
        trace, next := trace + [m], m + 1;
      }
      NoWordNoBit(scratch.dirtyWords[..], scratch.Dirty(), w);
    }
    assert forall d | d in scratch.Dirty() :: BitSet(scratch.dirtyWords[..], d);
    assert scratch.Dirty() == {};
    DrainedIsFullyEvaluated(ar, ops, start, seeds, values[..], trace, next);
  }

  ghost function WithInputs<V>(values: seq<V>, updates: seq<(nat, V)>): seq<V>
    requires forall u | u in updates :: u.0 < |values|
    ensures |WithInputs(values, updates)| == |values|
  {
    if updates == [] then values
    else
      var last := updates[|updates| - 1];
      WithInputs(values, updates[..|updates| - 1])[last.0 := last.1]
  }

  /** The documented protocol: in a fully evaluated workspace set and mark any inputs, then refresh.
      The workspace is again fully evaluated and the scratch empty, so rounds can follow forever. */
  method RefreshInputs<V>(
      ar: Arithmetic<V>, program: ValueProgram<V>, plan: IterationDependencyPlan, values: array<V>,
      scratch: IterationScratch, updates: seq<(nat, V)>)
    requires Ordered(program.iterationOps, values.Length) && |program.initialValues| == values.Length
    requires IsPlanFor(plan, program.iterationOps, values.Length)
    requires scratch.Valid() && scratch.operationCount == plan.operationCount && scratch.dirtyWords as object != values
    requires scratch.Dirty() == {} && Settled(ar, program.iterationOps, values[..])
    requires forall u | u in updates :: u.0 < values.Length && !Writes(program.iterationOps, u.0)
    modifies values, scratch, scratch.dirtyWords
    ensures values[..] == Execute(ar, program.iterationOps, WithInputs(old(values[..]), updates))
    ensures scratch.Valid() && scratch.Dirty() == {} && Settled(ar, program.iterationOps, values[..])
  {
    assert updates[..0] == [];
    for i := 0 to |updates|
      invariant values[..] == WithInputs(old(values[..]), updates[..i])
      invariant scratch.Valid() && ConsistentOutside(ar, program.iterationOps, values[..], scratch.Dirty())
    {
      var (slot, x) := updates[i];
      assert updates[i] in updates && updates[..i + 1][..i] == updates[..i];
      InputWriteDirtiesUsers(ar, program.iterationOps, values[..], scratch.Dirty(), slot, x);
      ghost var next := values[..][slot := x];
      values[slot] := x;
      assert values[..] == next;
      scratch.MarkUsers(plan, program.iterationOps, slot);
    }
    assert updates[..|updates|] == updates;
    ghost var changed := values[..];
    var _, _ := ExecuteIterationIncremental(ar, program, plan, values, scratch);
    ExecuteSettles(ar, program.iterationOps, changed);
  }
}
