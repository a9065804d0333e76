// `compile_discrete_plan` (hynergy-engine/src/compile/discrete.rs): which candidates qualify, which
// sources are barriers, and the tables, assembled into one plan.
module DiscretePlanner {
  import opened Support
  import opened Canonical
  import opened DiscreteRows
  import opened DiscreteGraph
  import opened DiscreteClosure
  import ValueIr
  import Incremental
  import Pattern

  /** The parts of a compiled island that the plan is made from. */
  datatype Island = Island(
    pattern: Pattern.MnaPattern,
    matrix: Program,
    rhs: Program,
    iterationMatrixSources: seq<nat>,
    ir: IslandIr<real>,
    hasLatches: bool)
  {
    ghost predicate WellFormed() {
      && pattern.Valid() && ir.WellFormed()
      && matrix.Valid()
        && (forall i | 0 <= i < |matrix.ops| :: matrix.ops[i].key.first < pattern.Nnz() && matrix.ops[i].key.third == 0)
      && rhs.Valid() && (forall i | 0 <= i < |rhs.ops| :: rhs.ops[i].key.second < ir.SlotCount())
      && (forall i | 0 <= i < |ir.solutionInputs| :: ir.solutionInputs[i].0 < pattern.Dimension())
      && (forall k | 0 <= k < |iterationMatrixSources| :: iterationMatrixSources[k] < ir.SlotCount())
    }

    /** A slot that the matrix program reads. */
    ghost predicate SourcesMatrix(slot: nat) {
      exists i :: 0 <= i < |matrix.ops| && matrix.ops[i].key.second == slot
    }

    /** What the IR builder collects: every matrix source that can change within a tick is listed. */
    ghost predicate ListsIterationSources() {
      forall s: nat | SourcesMatrix(s) && (ValueIr.Writes(ir.program.iterationOps, s) || ir.IsSolution(s)) ::
        s in iterationMatrixSources
    }

    ghost predicate Binds(c: Candidate)
      requires |pattern.columnPtrs| > 0
    {
      && c.pullUp < ir.SlotCount() && c.pullDown < ir.SlotCount()
      && (c.output.Some? ==> c.output.value < pattern.Dimension())
      && (c.highRail.Some? ==> c.highRail.value < pattern.Dimension())
      && (c.lowRail.Some? ==> c.lowRail.value < pattern.Dimension())
    }
  }

  // ----- Occurrences -----

  ghost predicate OccursTwice<T>(s: seq<T>, x: T) {
    exists i, j :: 0 <= i < j < |s| && s[i] == x && s[j] == x
  }

  lemma {:induction false} CountOfMember<T>(s: seq<T>, x: T)
    ensures x in s <==> multiset(s)[x] >= 1
  {
  }

  /** Occurring twice is a property of the multiset, so sorting keeps it. */
  lemma {:induction false} TwiceIsCount<T>(s: seq<T>, x: T)
    ensures OccursTwice(s, x) <==> multiset(s)[x] >= 2
  {
    if s != [] {
      var n := |s| - 1;
      var rest := s[..n];
      TwiceIsCount(rest, x);
      assert s == rest + [s[n]];
      assert multiset(s) == multiset(rest) + multiset{s[n]};
      CountOfMember(rest, x);
      if OccursTwice(rest, x) {
        var i, j :| 0 <= i < j < |rest| && rest[i] == x && rest[j] == x;
        assert s[i] == x && s[j] == x;
      }
      if s[n] == x && x in rest {
        var i :| 0 <= i < n && rest[i] == x;
        assert s[i] == x && s[n] == x;
      }
      if OccursTwice(s, x) {
        var i, j :| 0 <= i < j < |s| && s[i] == x && s[j] == x;
        assert rest[i] == x;
        if j < n { assert rest[j] == x; }
      }
    }
  }

  lemma TwiceOnceMore<T>(s: seq<T>, x: T, u: T)
    ensures OccursTwice(s + [x], u) <==> OccursTwice(s, u) || (x == u && u in s)
  {
    TwiceIsCount(s, u);
    TwiceIsCount(s + [x], u);
    CountOfMember(s, u);
  }

  lemma TwiceAt<T>(s: seq<T>, i: nat, j: nat)
    requires i < j < |s|
    ensures s[i] == s[j] ==> OccursTwice(s, s[i])
  {
  }

  // ----- Terms of the assembled matrix -----

  /** `term` is the operation's contribution, with its slot resolved to a coordinate. */
  ghost predicate Places(pattern: Pattern.MnaPattern, op: Term, term: Term) {
    && term.scale == op.scale && term.key.first == op.key.second
    && pattern.Stores(op.key.first, term.key.third, term.key.second)
  }

  ghost predicate PlacesAll(pattern: Pattern.MnaPattern, ops: seq<Term>, terms: seq<Term>) {
    |terms| == |ops| && forall i | 0 <= i < |ops| :: Places(pattern, ops[i], terms[i])
  }

  /** The placed terms describe the matrix that the program assembles. */
  lemma {:induction false} EntryIsContribution(
      pattern: Pattern.MnaPattern, ops: seq<Term>, terms: seq<Term>, values: seq<real>, slot: nat, row: nat,
      column: nat)
    requires pattern.Valid() && PlacesAll(pattern, ops, terms) && pattern.Stores(slot, row, column)
    ensures Entry(terms, values, row, column) == Contribution(ops, values, slot)
  {
    if ops != [] {
      var n := |ops| - 1;
      assert forall i | 0 <= i < n :: Places(pattern, ops[i], terms[i]);
      EntryIsContribution(pattern, ops[..n], terms[..n], values, slot, row, column);
      assert Places(pattern, ops[n], terms[n]);
      pattern.StoresIsABijection(slot, row, column, ops[n].key.first, terms[n].key.third, terms[n].key.second);
    }
  }

  ghost predicate DistinctKeys(terms: seq<Term>) {
    forall i, j | 0 <= i < j < |terms| :: terms[i].key != terms[j].key
  }

  lemma PlacedKeysAreDistinct(pattern: Pattern.MnaPattern, ops: seq<Term>, terms: seq<Term>)
    requires pattern.Valid() && PlacesAll(pattern, ops, terms) && IsCanonical(ops)
    requires forall i | 0 <= i < |ops| :: ops[i].key.third == 0
    ensures DistinctKeys(terms) && forall i | 0 <= i < |terms| :: terms[i].scale != 0.0
  {
    forall i, j | 0 <= i < j < |terms| ensures terms[i].key != terms[j].key {
      assert Places(pattern, ops[i], terms[i]) && Places(pattern, ops[j], terms[j]) && ops[i].key.Before(ops[j].key);
      pattern.StoresIsABijection(ops[i].key.first, terms[i].key.third, terms[i].key.second,
                                 ops[j].key.first, terms[j].key.third, terms[j].key.second);
    }
    forall i | 0 <= i < |terms| ensures terms[i].scale != 0.0 {
      assert Places(pattern, ops[i], terms[i]);
    }
  }

  /** Sorting terms with distinct keys gives a canonical list. */
  lemma SortedDistinctIsCanonical(terms: seq<Term>, sorted: seq<Term>)
    requires Sorted(sorted) && multiset(sorted) == multiset(terms) && DistinctKeys(terms)
    requires forall i | 0 <= i < |terms| :: terms[i].scale != 0.0
    ensures IsCanonical(sorted)
  {
    forall i | 0 <= i < |sorted| ensures sorted[i] in terms {
      assert sorted[i] in multiset(sorted);
    }
    forall i, j | 0 <= i < j < |sorted| ensures sorted[i].key.Before(sorted[j].key) {
      TwiceIsCount(sorted, sorted[i]);
      TwiceIsCount(terms, sorted[i]);
      TwiceAt(sorted, i, j);
      if sorted[i].key == sorted[j].key {
        SameKeySameTerm(terms, sorted[i], sorted[j]);
      }
    }
  }

  lemma SameKeySameTerm(terms: seq<Term>, x: Term, y: Term)
    requires DistinctKeys(terms) && x in terms && y in terms && x.key == y.key
    ensures x == y
  {
    var i :| 0 <= i < |terms| && terms[i] == x;
    var j :| 0 <= j < |terms| && terms[j] == y;
    assert i < j || i == j || j < i;
  }

  /** The terms of the rows that are candidate outputs. */
  function Keep(terms: seq<Term>, rows: seq<nat>): seq<Term> {
    if terms == [] then []
    else
      var last := terms[|terms| - 1];
      Keep(terms[..|terms| - 1], rows) + (if last.key.third in rows then [last] else [])
  }

  lemma {:induction false} KeepWeight(terms: seq<Term>, rows: seq<nat>, key: Key)
    ensures Weight(Keep(terms, rows), key) == if key.third in rows then Weight(terms, key) else 0.0
  {
    if terms != [] {
      var n := |terms| - 1;
      KeepWeight(terms[..n], rows, key);
      WeightOfConcat(Keep(terms[..n], rows), if terms[n].key.third in rows then [terms[n]] else [], key);
    }
  }

  lemma {:induction false} KeepIsDistinct(terms: seq<Term>, rows: seq<nat>)
    requires DistinctKeys(terms) && forall i | 0 <= i < |terms| :: terms[i].scale != 0.0
    ensures DistinctKeys(Keep(terms, rows)) && forall t :: t in Keep(terms, rows) ==> t in terms
  {
    if terms != [] {
      var n := |terms| - 1;
      var rest := Keep(terms[..n], rows);
      KeepIsDistinct(terms[..n], rows);
      forall i | 0 <= i < |rest| ensures rest[i].key != terms[n].key {
        assert rest[i] in terms[..n];
      }
    }
  }

  /** `collect_matrix_terms`, with both orders sorted. */
  method CollectTerms(
      island: Island, outputs: seq<nat>) returns (byRow: seq<Term>, bySource: seq<Term>, ghost terms: seq<Term>)
    requires island.WellFormed() && Ascending(outputs)
    ensures PlacesAll(island.pattern, island.matrix.ops, terms)
    ensures IsCanonical(bySource) && SameWeights(terms, bySource)
    ensures IsCanonical(byRow)
      && forall key: Key | key.first in outputs :: Weight(byRow, key) == Weight(terms, Swap(key))
  {
    var unsorted, kept := [], [];
    var ops := island.matrix.ops;
    assert ops[..0] == [];
    for i := 0 to |ops|
      invariant PlacesAll(island.pattern, ops[..i], unsorted) && kept == Keep(unsorted, outputs)
    {
      var entry := island.pattern.CoordinateOf(ops[i].key.first);
      var term := Term(Key(ops[i].key.second, entry.value.1, entry.value.0), ops[i].scale);
      var found := BinarySearch(outputs, term.key.third);
      assert (unsorted + [term])[..|unsorted|] == unsorted;
      if found.Some? {
        assert term.key.third in outputs;
        kept := kept + [term];
      }
      unsorted := unsorted + [term];
      assert forall k | 0 <= k < i :: ops[..i + 1][k] == ops[..i][k];
    }
    assert ops[..|ops|] == ops;
    terms := unsorted;
    PlacedKeysAreDistinct(island.pattern, ops, terms);
    bySource := SortByKey(unsorted);
    SortedDistinctIsCanonical(unsorted, bySource);
    byRow := SortByKey(Swapped(kept));
    RowOrderIsCanonical(terms, outputs, byRow);
  }

  lemma RowOrderIsCanonical(terms: seq<Term>, outputs: seq<nat>, byRow: seq<Term>)
    requires DistinctKeys(terms) && forall i | 0 <= i < |terms| :: terms[i].scale != 0.0
    requires Sorted(byRow) && multiset(byRow) == multiset(Swapped(Keep(terms, outputs)))
    requires SameWeights(Swapped(Keep(terms, outputs)), byRow)
    ensures IsCanonical(byRow)
      && forall key: Key | key.first in outputs :: Weight(byRow, key) == Weight(terms, Swap(key))
  {
    var kept := Keep(terms, outputs);
    KeepIsDistinct(terms, outputs);
    var swapped := Swapped(kept);
    forall i, j | 0 <= i < j < |swapped| ensures swapped[i].key != swapped[j].key {
      assert kept[i].key != kept[j].key;
    }
    forall i | 0 <= i < |swapped| ensures swapped[i].scale != 0.0 {
      assert kept[i] in terms;
    }
    SortedDistinctIsCanonical(swapped, byRow);
    forall key: Key | key.first in outputs ensures Weight(byRow, key) == Weight(terms, Swap(key)) {
      SwappedWeight(kept, key);
      KeepWeight(terms, outputs, Swap(key));
      assert Weight(swapped, key) == Weight(byRow, key);
    }
  }

  // ----- Qualification -----

  ghost predicate HasRhs(rhs: Program, row: nat) {
    exists i :: 0 <= i < |rhs.ops| && rhs.ops[i].key.first == row
  }

  /** What makes a candidate a qualified driver: no other candidate and no source drives its
      output, and its row of the matrix is its own footprint. */
  ghost predicate Qualifies(island: Island, terms: seq<Term>, candidates: seq<Candidate>, c: Candidate) {
    && c.output.Some? && c.highRail != c.output && c.lowRail != c.output
    && !DrivenTwice(candidates, c.output.value) && !HasRhs(island.rhs, c.output.value)
    && RowMatches(terms, c)
  }

  /** `rhs_has_destination`. */
  method RhsHasDestination(rhs: Program, row: nat) returns (found: bool)
    requires rhs.Valid()
    ensures found <==> HasRhs(rhs, row)
  {
    var at := PartitionPoint(rhs.ops, row);
    found := at < |rhs.ops| && rhs.ops[at].key.first == row;
    if i :| 0 <= i < |rhs.ops| && rhs.ops[i].key.first == row {
      assert at <= i;
      assert at < i ==> rhs.ops[at].key.Before(rhs.ops[i].key);
    }
  }

  /** The driver's own row, canonical and in row order. */
  method ExpectedRow(c: Candidate) returns (row: seq<Term>)
    requires c.output.Some?
    ensures IsCanonical(row)
    ensures forall key: Key ::
      Weight(row, key) == if key.first == c.output.value then Weight(DriverFootprint(c), Swap(key)) else 0.0
  {
    var footprint := Canonicalize(DriverFootprint(c));
    var output := [c.output.value];
    var kept := Keep(footprint, output);
    row := SortByKey(Swapped(kept));
    RowOrderIsCanonical(footprint, output, row);
    forall key: Key
      ensures Weight(row, key) == if key.first == c.output.value then Weight(DriverFootprint(c), Swap(key)) else 0.0
    {
      SwappedWeight(kept, key);
      KeepWeight(footprint, output, Swap(key));
      assert Weight(Swapped(kept), key) == Weight(row, key);
      assert Weight(footprint, Swap(key)) == Weight(DriverFootprint(c), Swap(key));
    }
  }

  /** The comparison of sorted slices decides whether the row matches. */
  method RowIsExpected(
      ghost terms: seq<Term>, ghost outputs: seq<nat>, byRow: seq<Term>, c: Candidate) returns (matches: bool)
    requires c.output.Some? && c.output.value in outputs && IsCanonical(byRow)
    requires forall key: Key | key.first in outputs :: Weight(byRow, key) == Weight(terms, Swap(key))
    ensures matches <==> RowMatches(terms, c)
  {
    var expected := ExpectedRow(c);
    var actual := SliceOf(byRow, c.output.value);
    matches := actual == expected;
    RunIsCanonical(byRow, c.output.value);
    if matches {
      forall key: Key | key.third == c.output.value ensures Weight(terms, key) == Weight(DriverFootprint(c), key) {
        RunWeight(byRow, c.output.value, Swap(key));
        assert Weight(byRow, Swap(key)) == Weight(terms, Swap(Swap(key)));
      }
    }
    if RowMatches(terms, c) {
      forall key: Key ensures Weight(actual, key) == Weight(expected, key) {
        RunWeight(byRow, c.output.value, key);
        if key.first == c.output.value {
          assert Weight(terms, Swap(key)) == Weight(DriverFootprint(c), Swap(key));
        }
      }
      CanonicalFormIsUnique(actual, expected);
    }
  }

  // ----- Duplicate outputs -----

  /** `filter_map(output)`. */
  function Outputs(candidates: seq<Candidate>): seq<nat> {
    if candidates == [] then []
    else
      var last := candidates[|candidates| - 1];
      Outputs(candidates[..|candidates| - 1]) + (if last.output.Some? then [last.output.value] else [])
  }

  ghost predicate DrivenTwice(candidates: seq<Candidate>, u: nat) {
    exists i, j :: 0 <= i < j < |candidates| && candidates[i].output == Some(u) == candidates[j].output
  }

  lemma {:induction false} OutputsOccur(candidates: seq<Candidate>, u: nat)
    ensures u in Outputs(candidates) <==> exists i :: 0 <= i < |candidates| && candidates[i].output == Some(u)
    ensures OccursTwice(Outputs(candidates), u) <==> DrivenTwice(candidates, u)
  {
    if candidates != [] {
      var n := |candidates| - 1;
      var rest, outputs := candidates[..n], Outputs(candidates[..n]);
      OutputsOccur(rest, u);
      assert forall i | 0 <= i < n :: candidates[i] == rest[i];
      DrivenOnceMore(candidates, u);
      if candidates[n].output.Some? {
        TwiceOnceMore(outputs, candidates[n].output.value, u);
      } else {
        assert outputs + [] == outputs;
      }
    }
  }

  lemma DrivenOnceMore(candidates: seq<Candidate>, u: nat)
    requires candidates != []
    ensures var n := |candidates| - 1;
            DrivenTwice(candidates, u) <==>
            DrivenTwice(candidates[..n], u)
            || (candidates[n].output == Some(u) && exists i :: 0 <= i < n && candidates[..n][i].output == Some(u))
  {
    var n := |candidates| - 1;
    var rest := candidates[..n];
    if DrivenTwice(candidates, u) {
      var i, j :| 0 <= i < j < |candidates| && candidates[i].output == Some(u) == candidates[j].output;
      assert rest[i] == candidates[i] && (j < n ==> rest[j] == candidates[j]);
    }
    if DrivenTwice(rest, u) {
      var i, j :| 0 <= i < j < n && rest[i].output == Some(u) == rest[j].output;
      assert rest[i] == candidates[i] && rest[j] == candidates[j];
    }
    if i :| 0 <= i < n && rest[i].output == Some(u) {
      assert rest[i] == candidates[i];
    }
  }

  ghost predicate NonDecreasing(s: seq<nat>) {
    forall i, j | 0 <= i < j < |s| :: s[i] <= s[j]
  }

  method InsertNumber(s: seq<nat>, x: nat) returns (r: seq<nat>)
    requires NonDecreasing(s)
    ensures NonDecreasing(r) && multiset(r) == multiset(s) + multiset{x}
  {
    var at := |s|;
    while at > 0 && x < s[at - 1]
      invariant 0 <= at <= |s| && forall i | at <= i < |s| :: x < s[i]
    {
      at := at - 1;
    }
    r := s[..at] + [x] + s[at..];
    InsertedMultiset(s, x, at);
  }

  /** `sort_unstable` on numbers. */
  method SortNumbers(s: seq<nat>) returns (r: seq<nat>)
    ensures multiset(r) == multiset(s) && NonDecreasing(r)
  {
    r := [];
    assert s[..0] == [];
    for n := 0 to |s|
      invariant multiset(r) == multiset(s[..n]) && NonDecreasing(r)
    {
      assert s[..n + 1] == s[..n] + [s[n]];
      r := InsertNumber(r, s[n]);
    }
    assert s[..|s|] == s;
  }

  /** The numbers that stand next to themselves in a sorted list, once each. */
  method Duplicates(sorted: seq<nat>) returns (duplicates: seq<nat>)
    requires NonDecreasing(sorted)
    ensures Ascending(duplicates) && forall u :: u in duplicates <==> OccursTwice(sorted, u)
  {
    var windows: seq<nat> := [];
    if |sorted| > 0 {
      for i := 0 to |sorted| - 1
        invariant forall u :: u in windows <==> exists k :: 0 <= k < i && sorted[k] == u == sorted[k + 1]
      {
        if sorted[i] == sorted[i + 1] {
          windows := windows + [sorted[i]];
        }
      }
    }
    duplicates := SortedDistinct(windows);
    forall u ensures u in duplicates <==> OccursTwice(sorted, u) {
      if OccursTwice(sorted, u) {
        var i, j :| 0 <= i < j < |sorted| && sorted[i] == u && sorted[j] == u;
        assert sorted[i] == u == sorted[i + 1];
      }
    }
  }

  /** The sorted outputs, and those that more than one candidate drives. */
  method ClassifyOutputs(candidates: seq<Candidate>) returns (outputs: seq<nat>, duplicates: seq<nat>)
    ensures Ascending(outputs)
      && forall i | 0 <= i < |candidates| && candidates[i].output.Some? :: candidates[i].output.value in outputs
    ensures Ascending(duplicates) && forall u: nat :: u in duplicates <==> DrivenTwice(candidates, u)
  {
    var all := Outputs(candidates);
    var sorted := SortNumbers(all);
    duplicates := Duplicates(sorted);
    outputs := SortedDistinct(sorted);
    forall u: nat ensures u in duplicates <==> DrivenTwice(candidates, u) {
      OutputsOccur(candidates, u);
      TwiceIsCount(all, u);
      TwiceIsCount(sorted, u);
    }
    forall i | 0 <= i < |candidates| && candidates[i].output.Some? ensures candidates[i].output.value in outputs {
      OutputsOccur(candidates, candidates[i].output.value);
      CountOfMember(all, candidates[i].output.value);
      CountOfMember(sorted, candidates[i].output.value);
    }
  }

  // ----- The qualified drivers -----

  /** The qualifying candidates, in order. */
  ghost function Qualified(
      island: Island, terms: seq<Term>, all: seq<Candidate>, candidates: seq<Candidate>): seq<Candidate>
  {
    if candidates == [] then []
    else
      var last := candidates[|candidates| - 1];
      Qualified(island, terms, all, candidates[..|candidates| - 1])
        + (if Qualifies(island, terms, all, last) then [last] else [])
  }

  method SelectQualified(island: Island, ghost terms: seq<Term>, candidates: seq<Candidate>, byRow: seq<Term>,
                         outputs: seq<nat>, duplicates: seq<nat>)
    returns (qualified: seq<Candidate>)
    requires island.WellFormed() && IsCanonical(byRow) && Ascending(duplicates)
    requires forall key: Key | key.first in outputs :: Weight(byRow, key) == Weight(terms, Swap(key))
    requires forall i | 0 <= i < |candidates| && candidates[i].output.Some? :: candidates[i].output.value in outputs
    requires forall u: nat :: u in duplicates <==> DrivenTwice(candidates, u)
    ensures qualified == Qualified(island, terms, candidates, candidates)
  {
    qualified := [];
    assert candidates[..0] == [];
    for i := 0 to |candidates|
      invariant qualified == Qualified(island, terms, candidates, candidates[..i])
    {
      var c := candidates[i];
      assert candidates[..i + 1][..i] == candidates[..i];
      if c.output.None? { continue; }
      if c.highRail == c.output || c.lowRail == c.output { continue; }
      var duplicate := BinarySearch(duplicates, c.output.value);
      assert c.output == Some(c.output.value);
      if duplicate.Some? {
        assert c.output.value in duplicates;
        continue;
      }
      var driven := RhsHasDestination(island.rhs, c.output.value);
      if driven { continue; }
      var matches := RowIsExpected(terms, outputs, byRow, c);
      if !matches { continue; }
      qualified := qualified + [c];
    }
    assert candidates[..|candidates|] == candidates;
  }

  lemma TogetherDrivenTwice(candidates: seq<Candidate>, i: nat, j: nat)
    requires i < j < |candidates| && candidates[j].output.Some?
    ensures candidates[i].output == candidates[j].output ==> DrivenTwice(candidates, candidates[j].output.value)
  {
  }

  lemma {:induction false} QualifiedAreDistinct(island: Island, terms: seq<Term>, all: seq<Candidate>, k: nat)
    requires k <= |all|
    ensures forall c ::
      c in Qualified(island, terms, all, all[..k]) ==> c in all[..k] && Qualifies(island, terms, all, c)
    ensures forall c ::
      c in all[..k] && Qualifies(island, terms, all, c) ==> c in Qualified(island, terms, all, all[..k])
    ensures DistinctOutputs(Qualified(island, terms, all, all[..k]))
  {
    if k > 0 {
      var rest, last := Qualified(island, terms, all, all[..k - 1]), all[k - 1];
      QualifiedAreDistinct(island, terms, all, k - 1);
      assert all[..k][..k - 1] == all[..k - 1] && all[..k] == all[..k - 1] + [last];
      if Qualifies(island, terms, all, last) {
        forall i | 0 <= i < |rest| ensures rest[i].output != last.output {
          assert rest[i] in all[..k - 1];
          var j :| 0 <= j < k - 1 && all[j] == rest[i];
          assert all[k - 1] == last;
          TogetherDrivenTwice(all, j, k - 1);
        }
      } else {
        assert rest + [] == rest;
      }
    }
  }

  ghost predicate DistinctOutputs(drivers: seq<Candidate>) {
    forall i, j | 0 <= i < j < |drivers| :: drivers[i].output != drivers[j].output
  }

  // ----- Barriers -----

  /** The barriers are the iteration sources that do more than the qualified footprints. */
  ghost predicate IsBarrierList(
      sources: seq<nat>, terms: seq<Term>, footprints: seq<Term>, bound: nat, barriers: seq<MatrixBarrier>)
  {
    forall b :: b in barriers <==> b.factorizedIndex < bound && IsBarrier(sources, terms, footprints, b)
  }

  ghost predicate IsBarrier(sources: seq<nat>, terms: seq<Term>, footprints: seq<Term>, b: MatrixBarrier) {
    b.factorizedIndex < |sources| && b.source == sources[b.factorizedIndex]
      && !SourceMatches(terms, footprints, b.source)
  }

  lemma SlicesDecideSource(
      terms: seq<Term>, bySource: seq<Term>, footprints: seq<Term>, expected: seq<Term>, source: nat)
    requires IsCanonical(bySource) && SameWeights(terms, bySource) && IsCanonical(expected)
      && SameWeights(expected, footprints)
    ensures Run(bySource, source) == Run(expected, source) <==> SourceMatches(terms, footprints, source)
  {
    forall key: Key
      ensures Weight(terms, key) == Weight(bySource, key) && Weight(expected, key) == Weight(footprints, key)
      ensures Weight(Run(bySource, source), key) == if key.first == source then Weight(terms, key) else 0.0
      ensures Weight(Run(expected, source), key) == if key.first == source then Weight(footprints, key) else 0.0
    {
      RunWeight(bySource, source, key);
      RunWeight(expected, source, key);
    }
    if SourceMatches(terms, footprints, source) {
      RunIsCanonical(bySource, source);
      RunIsCanonical(expected, source);
      forall key: Key ensures Weight(Run(bySource, source), key) == Weight(Run(expected, source), key) {
        if key.first == source { assert Weight(terms, key) == Weight(footprints, key); }
      }
      CanonicalFormIsUnique(Run(bySource, source), Run(expected, source));
    }
  }

  lemma NextBarrier(
      sources: seq<nat>, terms: seq<Term>, footprints: seq<Term>, index: nat, barriers: seq<MatrixBarrier>,
      matches: bool)
    requires index < |sources| && IsBarrierList(sources, terms, footprints, index, barriers)
    requires matches <==> SourceMatches(terms, footprints, sources[index])
    ensures IsBarrierList(sources, terms, footprints, index + 1,
                          if matches then barriers else barriers + [MatrixBarrier(sources[index], index)])
  {
  }

  method FindBarriers(
      sources: seq<nat>, ghost terms: seq<Term>, bySource: seq<Term>, drivers: seq<Candidate>)
    returns (barriers: seq<MatrixBarrier>)
    requires IsCanonical(bySource) && SameWeights(terms, bySource)
    ensures IsBarrierList(sources, terms, Footprints(drivers), |sources|, barriers)
  {
    var footprints := Footprints(drivers);
    var expected := Canonicalize(footprints);
    barriers := [];
    for index := 0 to |sources|
      invariant IsBarrierList(sources, terms, footprints, index, barriers)
    {
      var actualTerms := SliceOf(bySource, sources[index]);
      var expectedTerms := SliceOf(expected, sources[index]);
      SlicesDecideSource(terms, bySource, footprints, expected, sources[index]);
      NextBarrier(sources, terms, footprints, index, barriers, actualTerms == expectedTerms);
      if actualTerms == expectedTerms { continue; }
      barriers := barriers + [MatrixBarrier(sources[index], index)];
    }
  }

  // ----- The plan -----

  function AsDriver(c: Candidate): Driver
    requires c.output.Some?
  {
    Driver(c.output.value, c.highRail, c.lowRail, c.pullUp, c.pullDown)
  }

  /** `driver_output_inputs`. */
  method FindOutputInputs(ir: IslandIr<real>, drivers: seq<Driver>) returns (inputs: seq<Option<nat>>)
    requires ir.WellFormed()
    ensures |inputs| == |drivers| && forall d | 0 <= d < |drivers| :: FindsOutputInput(ir, drivers[d], inputs[d])
  {
    inputs := [];
    var unknowns := seq(|ir.solutionInputs|, i requires 0 <= i < |ir.solutionInputs| => ir.solutionInputs[i].0);
    for d := 0 to |drivers|
      invariant |inputs| == d && forall e | 0 <= e < d :: FindsOutputInput(ir, drivers[e], inputs[e])
    {
      var found := BinarySearch(unknowns, drivers[d].output);
      assert forall i | 0 <= i < |ir.solutionInputs| ::
        unknowns[i] == ir.solutionInputs[i].0 && unknowns[i] in unknowns;
      var input: Option<nat> := None;
      if found.Some? {
        var i := found.value;
        assert ir.solutionInputs[i] == (drivers[d].output, ir.solutionInputs[i].1);
        input := Some(ir.solutionInputs[i].1);
      }
      assert FindsOutputInput(ir, drivers[d], input);
      inputs := inputs + [input];
    }
  }

  ghost predicate AllBound(island: Island, candidates: seq<Candidate>)
    requires |island.pattern.columnPtrs| > 0
  {
    forall c | c in candidates :: island.Binds(c)
  }

  lemma QualifiedDriversFit(
      island: Island, terms: seq<Term>, candidates: seq<Candidate>, qualified: seq<Candidate>, drivers: seq<Driver>)
    requires island.WellFormed() && AllBound(island, candidates)
    requires qualified == Qualified(island, terms, candidates, candidates)
    requires |drivers| == |qualified|
    requires forall d | 0 <= d < |drivers| :: qualified[d].output.Some? && drivers[d] == AsDriver(qualified[d])
    ensures DriversFit(drivers, island.ir.SlotCount()) && UnknownsFit(island.ir, drivers, island.pattern.Dimension())
  {
    QualifiedAreDistinct(island, terms, candidates, |candidates|);
    assert candidates[..|candidates|] == candidates;
    forall d | 0 <= d < |drivers|
      ensures RailsFit(drivers[d], island.pattern.Dimension())
      ensures drivers[d].pullUp < island.ir.SlotCount() && drivers[d].pullDown < island.ir.SlotCount()
    {
      assert qualified[d] in qualified && Qualifies(island, terms, candidates, qualified[d])
        && island.Binds(qualified[d]);
    }
    forall d, e | 0 <= d < e < |drivers| ensures drivers[d].output != drivers[e].output {
      assert qualified[d].output != qualified[e].output;
    }
  }

  /** `compile_discrete_plan`: a plan exists exactly when the island has no latches and some
      candidate qualifies; its drivers are exactly the qualifying candidates, its barriers exactly
      the sources that exceed their footprints, and its tables are those of the island. */
  method CompileDiscretePlan(island: Island, candidates: seq<Candidate>) returns (plan: Option<DiscretePlan>)
    requires island.WellFormed() && AllBound(island, candidates)
    ensures plan.None? <==>
      island.hasLatches || forall c | c in candidates :: !Qualifies(island, PlacedTerms(island), candidates, c)
    ensures plan.Some? ==> DescribesIsland(island, PlacedTerms(island), candidates, plan.value)
  {
    if island.hasLatches {
      return None;
    }
    if candidates == [] {
      return None;
    }
    var outputs, duplicates := ClassifyOutputs(candidates);
    var byRow, bySource;
    ghost var terms;
    byRow, bySource, terms := CollectTerms(island, outputs);
    PlacedTermsAreUnique(island, terms);
    var qualified := SelectQualified(island, terms, candidates, byRow, outputs, duplicates);
    QualifiedAreDistinct(island, terms, candidates, |candidates|);
    assert candidates[..|candidates|] == candidates;
    if qualified == [] {
      return None;
    }
    assert qualified[0] in qualified;
    var result := AssemblePlan(island, terms, candidates, bySource, qualified);
    plan := Some(result);
  }

  /** The matrix program as (source, column, row) terms: every slot has one coordinate. */
  ghost function PlacedTerms(island: Island): (terms: seq<Term>)
    requires island.WellFormed()
    ensures PlacesAll(island.pattern, island.matrix.ops, terms)
  {
    seq(|island.matrix.ops|,
      i requires 0 <= i < |island.matrix.ops| => PlacedTerm(island.pattern, island.matrix.ops[i]))
  }

  ghost function PlacedTerm(pattern: Pattern.MnaPattern, op: Term): (term: Term)
    requires pattern.Valid() && op.key.first < pattern.Nnz()
    ensures Places(pattern, op, term)
  {
    EverySlotIsStored(pattern, op.key.first, 0);
    var column: nat :| pattern.Stores(op.key.first, pattern.rowIndices[op.key.first], column);
    Term(Key(op.key.second, column, pattern.rowIndices[op.key.first]), op.scale)
  }

  lemma PlacedTermsAreUnique(island: Island, terms: seq<Term>)
    requires island.WellFormed() && PlacesAll(island.pattern, island.matrix.ops, terms)
    ensures terms == PlacedTerms(island)
  {
    var placed := PlacedTerms(island);
    forall i | 0 <= i < |terms| ensures terms[i] == placed[i] {
      var op := island.matrix.ops[i];
      assert Places(island.pattern, op, terms[i]) && Places(island.pattern, op, placed[i]);
      island.pattern.StoresIsABijection(
        op.key.first, terms[i].key.third, terms[i].key.second,
        op.key.first, placed[i].key.third, placed[i].key.second);
    }
  }

  lemma {:induction false} EverySlotIsStored(pattern: Pattern.MnaPattern, slot: nat, column: nat)
    requires pattern.Valid() && slot < pattern.Nnz() && column < |pattern.columnPtrs|
      && pattern.columnPtrs[column] <= slot
    ensures exists c: nat :: pattern.Stores(slot, pattern.rowIndices[slot], c)
    decreases |pattern.columnPtrs| - column
  {
    if slot < pattern.columnPtrs[column + 1] {
      assert pattern.Stores(slot, pattern.rowIndices[slot], column);
    } else {
      EverySlotIsStored(pattern, slot, column + 1);
    }
  }

  ghost predicate DescribesIsland(island: Island, terms: seq<Term>, candidates: seq<Candidate>, plan: DiscretePlan)
    requires |island.pattern.columnPtrs| > 0
  {
    var qualified := Qualified(island, terms, candidates, candidates);
    && IsPlan(island.ir, plan, island.pattern.Dimension())
    && |plan.drivers| == |qualified|
    && (forall d | 0 <= d < |qualified| :: qualified[d].output.Some? && plan.drivers[d] == AsDriver(qualified[d]))
    && IsBarrierList(island.iterationMatrixSources, terms, Footprints(qualified), |island.iterationMatrixSources|,
      plan.matrixBarriers)
    && IsRhsBarrierList(island.rhs.ops, plan.rhsBarriers)
  }

  lemma QualifiedHaveOutputs(island: Island, terms: seq<Term>, candidates: seq<Candidate>)
    ensures forall d | 0 <= d < |Qualified(island, terms, candidates, candidates)| ::
              Qualified(island, terms, candidates, candidates)[d].output.Some?
  {
    var qualified := Qualified(island, terms, candidates, candidates);
    QualifiedAreDistinct(island, terms, candidates, |candidates|);
    assert candidates[..|candidates|] == candidates;
    forall d | 0 <= d < |qualified| ensures qualified[d].output.Some? {
      assert qualified[d] in qualified && Qualifies(island, terms, candidates, qualified[d]);
    }
  }

  /** The tables of an island for given drivers and barriers. */
  method CompileTables(
      ir: IslandIr<real>, drivers: seq<Driver>, barriers: seq<MatrixBarrier>, rhsBarriers: seq<nat>,
      ghost unknownCount: nat)
    returns (plan: DiscretePlan)
    requires ir.WellFormed() && DriversFit(drivers, ir.SlotCount()) && UnknownsFit(ir, drivers, unknownCount)
    requires forall k | 0 <= k < |barriers| :: barriers[k].source < ir.SlotCount()
    requires forall k | 0 <= k < |rhsBarriers| :: rhsBarriers[k] < ir.SlotCount()
    ensures IsPlan(ir, plan, unknownCount)
    ensures plan.drivers == drivers && plan.matrixBarriers == barriers && plan.rhsBarriers == rhsBarriers
  {
    var offsets, dependents := CompileDriverDependencies(ir, drivers);
    var stabilityOffsets, stabilityDependents, conservative := CompileInitialFrontier(ir, drivers);
    var inputs := FindOutputInputs(ir, drivers);
    var dependencies := Incremental.CompileIterationDependencies(ir.program);
    plan := DiscretePlan(drivers, inputs, dependencies, offsets, dependents,
                         stabilityOffsets, stabilityDependents, conservative, barriers, rhsBarriers);
  }

  /** The sources of the right-hand side, sorted and without duplicates. */
  method RhsBarriers(ops: seq<Term>) returns (barriers: seq<nat>)
    ensures IsRhsBarrierList(ops, barriers)
  {
    var sources := seq(|ops|, i requires 0 <= i < |ops| => ops[i].key.second);
    barriers := SortedDistinct(sources);
    forall s ensures s in barriers <==> exists i :: 0 <= i < |ops| && ops[i].key.second == s {
      if i :| 0 <= i < |ops| && ops[i].key.second == s {
        assert sources[i] in sources;
      }
    }
  }

  ghost predicate IsRhsBarrierList(ops: seq<Term>, barriers: seq<nat>) {
    && Ascending(barriers)
    && forall s :: s in barriers <==> exists i :: 0 <= i < |ops| && ops[i].key.second == s
  }

  method AssemblePlan(
      island: Island, ghost terms: seq<Term>, ghost candidates: seq<Candidate>, bySource: seq<Term>,
      qualified: seq<Candidate>)
    returns (plan: DiscretePlan)
    requires island.WellFormed() && AllBound(island, candidates)
    requires IsCanonical(bySource) && SameWeights(terms, bySource)
    requires qualified == Qualified(island, terms, candidates, candidates)
    ensures DescribesIsland(island, terms, candidates, plan)
  {
    QualifiedHaveOutputs(island, terms, candidates);
    var drivers := seq(|qualified|, d requires 0 <= d < |qualified| => AsDriver(qualified[d]));
    QualifiedDriversFit(island, terms, candidates, qualified, drivers);
    var barriers := FindBarriers(island.iterationMatrixSources, terms, bySource, qualified);
    var rhsBarriers := RhsBarriers(island.rhs.ops);
    forall k | 0 <= k < |barriers| ensures barriers[k].source < island.ir.SlotCount() {
      assert barriers[k] in barriers
        && IsBarrier(island.iterationMatrixSources, terms, Footprints(qualified), barriers[k]);
    }
    assert forall k | 0 <= k < |rhsBarriers| :: rhsBarriers[k] in rhsBarriers;
    plan := CompileTables(island.ir, drivers, barriers, rhsBarriers, island.pattern.Dimension());
  }
}
