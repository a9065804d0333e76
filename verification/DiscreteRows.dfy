// Qualification of complementary drivers and barrier sources (compile_discrete_plan in
// hynergy-engine/src/compile/discrete.rs). A driver qualifies when its row of the assembled
// system is exactly its own conductance footprint; a matrix source is a barrier when it does
// anything beyond the qualified footprints. Values are real numbers.
module DiscreteRows {
  import opened Support
  import opened Canonical
  import opened Pattern

  /** A bound complementary driver. Terminals on the ground node are None. */
  datatype Candidate = Candidate(
    output: Option<nat>,
    highRail: Option<nat>,
    lowRail: Option<nat>,
    pullUp: nat,
    pullDown: nat)

  // Matrix terms are kept in two orders, by (source, column, row) and by (row, column, source).

  function Swap(key: Key): Key {
    Key(key.third, key.second, key.first)
  }

  function Swapped(terms: seq<Term>): (r: seq<Term>)
    ensures |r| == |terms|
    ensures forall i | 0 <= i < |r| :: r[i] == Term(Swap(terms[i].key), terms[i].scale)
  {
    seq(|terms|, i requires 0 <= i < |terms| => Term(Swap(terms[i].key), terms[i].scale))
  }

  lemma {:induction false} SwappedWeight(terms: seq<Term>, key: Key)
    ensures Weight(Swapped(terms), key) == Weight(terms, Swap(key))
  {
    if terms != [] {
      var n := |terms| - 1;
      SwappedWeight(terms[..n], key);
      assert Swapped(terms)[..n] == Swapped(terms[..n]);
    }
  }

  // ----- Runs of one leading key -----

  /** The terms whose first key component is `first`, in order. */
  function Run(terms: seq<Term>, first: nat): seq<Term> {
    if terms == [] then []
    else
      var last := terms[|terms| - 1];
      Run(terms[..|terms| - 1], first) + (if last.key.first == first then [last] else [])
  }

  lemma {:induction false} RunWeight(terms: seq<Term>, first: nat, key: Key)
    ensures Weight(Run(terms, first), key) == if key.first == first then Weight(terms, key) else 0.0
  {
    if terms != [] {
      var n := |terms| - 1;
      var rest := Run(terms[..n], first);
      RunWeight(terms[..n], first, key);
      WeightOfConcat(rest, if terms[n].key.first == first then [terms[n]] else [], key);
    }
  }

  lemma {:induction false} RunIsCanonical(terms: seq<Term>, first: nat)
    requires IsCanonical(terms)
    ensures IsCanonical(Run(terms, first))
    ensures forall t :: t in Run(terms, first) ==> t in terms && t.key.first == first
  {
    if terms != [] {
      var n := |terms| - 1;
      var rest := Run(terms[..n], first);
      RunIsCanonical(terms[..n], first);
      forall i | 0 <= i < |rest| ensures rest[i].key.Before(terms[n].key) {
        assert rest[i] in terms[..n];
      }
    }
  }

  lemma {:induction false} RunOutside(terms: seq<Term>, first: nat)
    requires forall i | 0 <= i < |terms| :: terms[i].key.first != first
    ensures Run(terms, first) == []
  {
    if terms != [] {
      RunOutside(terms[..|terms| - 1], first);
    }
  }

  lemma {:induction false} RunInside(terms: seq<Term>, first: nat)
    requires forall i | 0 <= i < |terms| :: terms[i].key.first == first
    ensures Run(terms, first) == terms
  {
    if terms != [] {
      var n := |terms| - 1;
      RunInside(terms[..n], first);
      assert terms == terms[..n] + [terms[n]];
    }
  }

  lemma {:induction false} RunOfConcat(a: seq<Term>, b: seq<Term>, first: nat)
    ensures Run(a + b, first) == Run(a, first) + Run(b, first)
    decreases |b|
  {
    if b == [] {
      assert a + b == a;
    } else {
      var n := |b| - 1;
      RunOfConcat(a, b[..n], first);
      assert (a + b)[..|a + b| - 1] == a + b[..n];
    }
  }

  /** `partition_point` over terms sorted by key: how many have a first component below `bound`. */
  method PartitionPoint(terms: seq<Term>, bound: nat) returns (at: nat)
    requires Sorted(terms)
    ensures at <= |terms|
    ensures forall i | 0 <= i < at :: terms[i].key.first < bound
    ensures forall i | at <= i < |terms| :: bound <= terms[i].key.first
  {
    var low: nat, high: nat := 0, |terms|;
    while low < high
      invariant low <= high <= |terms|
      invariant forall i | 0 <= i < low :: terms[i].key.first < bound
      invariant forall i | high <= i < |terms| :: bound <= terms[i].key.first
    {
      var middle := low + (high - low) / 2;
      if terms[middle].key.first < bound {
        forall i | 0 <= i < middle + 1 ensures terms[i].key.first < bound {
          assert i < middle ==> !terms[middle].key.Before(terms[i].key);
        }
        low := middle + 1;
      } else {
        forall i | middle <= i < |terms| ensures bound <= terms[i].key.first {
          assert middle < i ==> !terms[i].key.Before(terms[middle].key);
        }
        high := middle;
      }
    }
    return low;
  }

  lemma RunOfSplit(terms: seq<Term>, start: nat, end: nat, first: nat)
    requires start <= end <= |terms|
    requires forall i | 0 <= i < |terms| :: terms[i].key.first == first <==> start <= i < end
    ensures Run(terms, first) == terms[start..end]
  {
    var slice := terms[start..end];
    assert terms == (terms[..start] + slice) + terms[end..];
    RunOfConcat(terms[..start] + slice, terms[end..], first);
    RunOfConcat(terms[..start], slice, first);
    RunOutside(terms[..start], first);
    RunOutside(terms[end..], first);
    RunInside(slice, first);
  }

  /** `row_terms` and `source_terms`: the slice of one leading key. */
  method SliceOf(terms: seq<Term>, first: nat) returns (slice: seq<Term>)
    requires Sorted(terms)
    ensures slice == Run(terms, first)
  {
    var start := PartitionPoint(terms, first);
    var length := PartitionPoint(terms[start..], first + 1);
    var end := start + length;
    slice := terms[start..end];
    forall i | 0 <= i < |terms| ensures terms[i].key.first == first <==> start <= i < end {
      if start <= i { assert terms[i] == terms[start..][i - start]; }
    }
    RunOfSplit(terms, start, end, first);
  }

  // ----- Footprints -----

  function PushTerm(row: Option<nat>, column: Option<nat>, source: nat, scale: real): seq<Term> {
    if row.Some? && column.Some? then [Term(Key(source, column.value, row.value), scale)] else []
  }

  /** The four matrix terms of a conductance between two nodes. */
  function Footprint(a: Option<nat>, b: Option<nat>, source: nat): seq<Term> {
    PushTerm(a, a, source, 1.0) + PushTerm(b, a, source, -1.0) + PushTerm(a, b, source, -1.0)
      + PushTerm(b, b, source, 1.0)
  }

  function DriverFootprint(driver: Candidate): seq<Term> {
    Footprint(driver.highRail, driver.output, driver.pullUp) + Footprint(driver.output, driver.lowRail, driver.pullDown)
  }

  function Footprints(drivers: seq<Candidate>): seq<Term> {
    if drivers == [] then [] else Footprints(drivers[..|drivers| - 1]) + DriverFootprint(drivers[|drivers| - 1])
  }

  // ----- What terms mean -----

  function ValueAt(values: seq<real>, slot: nat): real {
    if slot < |values| then values[slot] else 0.0
  }

  /** The contribution of a (source, column, row) term to one matrix entry. */
  ghost function EntryAt(values: seq<real>, row: nat, column: nat): Functional {
    (key: Key, scale: real) => if key.third == row && key.second == column then ValueAt(values, key.first) * scale
      else 0.0
  }

  /** Entry (row, column) of the matrix that `terms` assemble. */
  ghost function Entry(terms: seq<Term>, values: seq<real>, row: nat, column: nat): real {
    Total(terms, EntryAt(values, row, column))
  }

  /** Row `row` of the assembled matrix times the vector `x`, over the first `n` columns. */
  ghost function RowTimes(terms: seq<Term>, values: seq<real>, row: nat, x: seq<real>, n: nat): real {
    if n == 0 then 0.0
    else RowTimes(terms, values, row, x, n - 1) + Entry(terms, values, row, n - 1) * ValueAt(x, n - 1)
  }

  lemma EntryIsAdditive(values: seq<real>, row: nat, column: nat)
    ensures Additive(EntryAt(values, row, column))
  {
    forall key: Key, a: real, b: real ensures AdditiveAt(EntryAt(values, row, column), key, a, b) {
      Distribute(ValueAt(values, key.first), a, b);
    }
  }

  /** Two term lists that weigh the same on a row give it the same entries. */
  lemma SameRowSameEntry(a: seq<Term>, b: seq<Term>, values: seq<real>, row: nat, column: nat)
    requires forall key: Key | key.third == row :: Weight(a, key) == Weight(b, key)
    ensures Entry(a, values, row, column) == Entry(b, values, row, column)
  {
    var g := EntryAt(values, row, column);
    EntryIsAdditive(values, row, column);
    forall key ensures AgreeAt(a, b, g, key) {
      if key.third == row { assert Weight(a, key) == Weight(b, key); }
    }
    TotalFollowsWeights(a, b, g);
  }

  lemma {:induction false} SameRowSameProduct(
      a: seq<Term>, b: seq<Term>, values: seq<real>, row: nat, x: seq<real>, n: nat)
    requires forall key: Key | key.third == row :: Weight(a, key) == Weight(b, key)
    ensures RowTimes(a, values, row, x, n) == RowTimes(b, values, row, x, n)
    decreases n
  {
    if n > 0 {
      SameRowSameProduct(a, b, values, row, x, n - 1);
      SameRowSameEntry(a, b, values, row, n - 1);
    }
  }

  /** What one term adds to a row product. */
  ghost function TermProduct(t: Term, values: seq<real>, row: nat, x: seq<real>, n: nat): real {
    if t.key.third == row && t.key.second < n then ValueAt(values, t.key.first) * t.scale * ValueAt(x, t.key.second)
      else 0.0
  }

  lemma {:induction false} RowTimesStep(terms: seq<Term>, t: Term, values: seq<real>, row: nat, x: seq<real>, n: nat)
    ensures RowTimes(terms + [t], values, row, x, n) ==
      RowTimes(terms, values, row, x, n) + TermProduct(t, values, row, x, n)
    decreases n
  {
    if n > 0 {
      RowTimesStep(terms, t, values, row, x, n - 1);
      assert (terms + [t])[..|terms|] == terms;
      var e, g := Entry(terms, values, row, n - 1), EntryAt(values, row, n - 1)(t.key, t.scale);
      assert Entry(terms + [t], values, row, n - 1) == e + g;
      DistributeLeft(e, g, ValueAt(x, n - 1));
    }
  }

  lemma DistributeLeft(a: real, b: real, c: real)
    ensures (a + b) * c == a * c + b * c
  {
  }

  /** Pushing a term of scale 1 or -1 adds or subtracts source value times column value. */
  lemma RowTimesOfPush(terms: seq<Term>, row: Option<nat>, column: Option<nat>, source: nat, positive: bool,
                       values: seq<real>, at: nat, x: seq<real>, n: nat)
    requires column.Some? ==> column.value < n
    ensures RowTimes(terms + PushTerm(row, column, source, if positive then 1.0 else -1.0), values, at, x, n) ==
            RowTimes(terms, values, at, x, n)
            + (if row != Some(at) then 0.0 else if positive then Current(values, source, x, column)
              else -Current(values, source, x, column))
  {
    var scale := if positive then 1.0 else -1.0;
    if row.Some? && column.Some? {
      RowTimesStep(terms, Term(Key(source, column.value, row.value), scale), values, at, x, n);
    } else {
      assert terms + PushTerm(row, column, source, scale) == terms;
    }
  }

  /** The voltage of a terminal; ground is zero. */
  function Potential(x: seq<real>, unknown: Option<nat>): real {
    if unknown.Some? then ValueAt(x, unknown.value) else 0.0
  }

  ghost function Current(values: seq<real>, source: nat, x: seq<real>, unknown: Option<nat>): real {
    ValueAt(values, source) * Potential(x, unknown)
  }

  /** In the row of one end, a conductance contributes its value times the potential difference. */
  lemma RowTimesOfFootprint(terms: seq<Term>, a: Option<nat>, b: Option<nat>, near: nat, far: Option<nat>, source: nat,
                            values: seq<real>, x: seq<real>, n: nat)
    requires near < n && far != Some(near) && (far.Some? ==> far.value < n)
    requires (a == Some(near) && b == far) || (a == far && b == Some(near))
    ensures RowTimes(terms + Footprint(a, b, source), values, near, x, n) ==
            RowTimes(terms, values, near, x, n) + Current(values, source, x, Some(near))
              - Current(values, source, x, far)
  {
    var p := PushTerm(a, a, source, 1.0);
    var q := PushTerm(b, a, source, -1.0);
    var r := PushTerm(a, b, source, -1.0);
    var s := PushTerm(b, b, source, 1.0);
    RowTimesOfPush(terms, a, a, source, true, values, near, x, n);
    RowTimesOfPush(terms + p, b, a, source, false, values, near, x, n);
    RowTimesOfPush(terms + p + q, a, b, source, false, values, near, x, n);
    RowTimesOfPush(terms + p + q + r, b, b, source, true, values, near, x, n);
    assert terms + (p + q + r + s) == terms + p + q + r + s;
  }

  /** The row of `terms` at the driver's output is exactly the driver's footprint. */
  ghost predicate RowMatches(terms: seq<Term>, driver: Candidate) {
    driver.output.Some?
      && forall key: Key | key.third == driver.output.value ::
      Weight(terms, key) == Weight(DriverFootprint(driver), key)
  }

  /** The equation of a driver's row: the current through the pulls. */
  ghost function PullCurrent(driver: Candidate, values: seq<real>, x: seq<real>): real
    requires driver.output.Some?
  {
    ValueAt(values, driver.pullUp) * (Potential(x, driver.output) - Potential(x, driver.highRail))
    + ValueAt(values, driver.pullDown) * (Potential(x, driver.output) - Potential(x, driver.lowRail))
  }

  lemma PullCurrentSplits(driver: Candidate, values: seq<real>, x: seq<real>)
    requires driver.output.Some?
    ensures PullCurrent(driver, values, x) ==
            Current(values, driver.pullUp, x, driver.output) - Current(values, driver.pullUp, x, driver.highRail)
            + (Current(values, driver.pullDown, x, driver.output) - Current(values, driver.pullDown, x, driver.lowRail))
  {
  }

  ghost predicate TerminalsFit(driver: Candidate, n: nat) {
    && driver.output.Some? && driver.output.value < n
    && driver.highRail != driver.output && driver.lowRail != driver.output
    && (driver.highRail.Some? ==> driver.highRail.value < n)
    && (driver.lowRail.Some? ==> driver.lowRail.value < n)
  }

  /** A driver whose row matches has, for every workspace and every solution vector, exactly the
      row equation pullUp * (output - high) + pullDown * (output - low). */
  lemma MatchingRowIsPullCurrent(terms: seq<Term>, driver: Candidate, values: seq<real>, x: seq<real>, n: nat)
    requires RowMatches(terms, driver) && TerminalsFit(driver, n)
    ensures RowTimes(terms, values, driver.output.value, x, n) == PullCurrent(driver, values, x)
  {
    var out := driver.output.value;
    SameRowSameProduct(terms, DriverFootprint(driver), values, out, x, n);
    NoTermsNoProduct(values, out, x, n);
    var up := Footprint(driver.highRail, driver.output, driver.pullUp);
    RowTimesOfFootprint([], driver.highRail, driver.output, out, driver.highRail, driver.pullUp, values, x, n);
    assert [] + up == up;
    RowTimesOfFootprint(up, driver.output, driver.lowRail, out, driver.lowRail, driver.pullDown, values, x, n);
    PullCurrentSplits(driver, values, x);
  }

  lemma {:induction false} NoTermsNoProduct(values: seq<real>, row: nat, x: seq<real>, n: nat)
    ensures RowTimes([], values, row, x, n) == 0.0
    decreases n
  {
    if n > 0 {
      NoTermsNoProduct(values, row, x, n - 1);
    }
  }

  /** The predicted output of the discrete closure is the one solution of the driver's row. */
  lemma BlendSolvesRow(driver: Candidate, values: seq<real>, x: seq<real>)
    requires driver.output.Some? && driver.output.value < |x|
    requires driver.highRail != driver.output && driver.lowRail != driver.output
    requires ValueAt(values, driver.pullUp) + ValueAt(values, driver.pullDown) != 0.0
    ensures var up, down := ValueAt(values, driver.pullUp), ValueAt(values, driver.pullDown);
            var high, low := Potential(x, driver.highRail), Potential(x, driver.lowRail);
            PullCurrent(driver, values, x) == 0.0 <==> x[driver.output.value] == (up * high + down * low) / (up + down)
  {
    var up, down := ValueAt(values, driver.pullUp), ValueAt(values, driver.pullDown);
    var high, low := Potential(x, driver.highRail), Potential(x, driver.lowRail);
    CancelDivision(up, down, high, low, x[driver.output.value]);
  }

  lemma CancelDivision(up: real, down: real, high: real, low: real, v: real)
    requires up + down != 0.0
    ensures up * (v - high) + down * (v - low) == 0.0 <==> v == (up * high + down * low) / (up + down)
  {
    var n, d := up * high + down * low, up + down;
    assert up * (v - high) + down * (v - low) == v * d - n;
    DivisionIsInverse(n, d, v);
  }

  lemma DivisionIsInverse(n: real, d: real, v: real)
    requires d != 0.0
    ensures v == n / d <==> v * d == n
  {
    assert (n / d) * d == n;
    if v * d == n {
      assert (v * d) / d == v;
    }
  }

  // ----- Barriers -----

  /** The terms of `source` are exactly the qualified footprints'. */
  ghost predicate SourceMatches(terms: seq<Term>, footprints: seq<Term>, source: nat) {
    forall key: Key | key.first == source :: Weight(terms, key) == Weight(footprints, key)
  }

  ghost function DifferenceAt(v: seq<real>, w: seq<real>, row: nat, column: nat): Functional {
    (key: Key, scale: real) =>
      if key.third == row && key.second == column then (ValueAt(v, key.first) - ValueAt(w, key.first)) * scale else 0.0
  }

  lemma {:induction false} EntryDifference(terms: seq<Term>, v: seq<real>, w: seq<real>, row: nat, column: nat)
    ensures Entry(terms, v, row, column) - Entry(terms, w, row, column) == Total(terms, DifferenceAt(v, w, row, column))
  {
    if terms != [] {
      var last := terms[|terms| - 1];
      EntryDifference(terms[..|terms| - 1], v, w, row, column);
      DistributeLeft(ValueAt(v, last.key.first), -ValueAt(w, last.key.first), last.scale);
    }
  }

  /** Barriers are sound: if every source whose terms are not exactly the qualified footprints' has
      the same value in two workspaces, the two assembled matrices differ only by the footprints. */
  lemma BarriersAreSound(terms: seq<Term>, footprints: seq<Term>, v: seq<real>, w: seq<real>, row: nat, column: nat)
    requires forall s: nat :: SourceMatches(terms, footprints, s) || ValueAt(v, s) == ValueAt(w, s)
    ensures Entry(terms, v, row, column) - Entry(terms, w, row, column) ==
            Entry(footprints, v, row, column) - Entry(footprints, w, row, column)
  {
    var g := DifferenceAt(v, w, row, column);
    EntryDifference(terms, v, w, row, column);
    EntryDifference(footprints, v, w, row, column);
    forall key, a, b ensures AdditiveAt(g, key, a, b) {
      Distribute(ValueAt(v, key.first) - ValueAt(w, key.first), a, b);
    }
    forall key ensures AgreeAt(terms, footprints, g, key) {
      if SourceMatches(terms, footprints, key.first) {
        assert Weight(terms, key) == Weight(footprints, key);
      }
    }
    TotalFollowsWeights(terms, footprints, g);
  }

  lemma {:induction false} RhsBarriersAreSound(ops: seq<Term>, v: seq<real>, w: seq<real>, destination: nat)
    requires |v| == |w|
    requires forall i | 0 <= i < |ops| && ops[i].key.second < |v| :: v[ops[i].key.second] == w[ops[i].key.second]
    ensures Contribution(ops, v, destination) == Contribution(ops, w, destination)
  {
    if ops != [] {
      RhsBarriersAreSound(ops[..|ops| - 1], v, w, destination);
    }
  }
}
