// Canonical term lists (hynergy-ir/src/matrix.rs and rhs.rs, and the matrix terms of
// hynergy-engine/src/compile/discrete.rs): drop zero scales, sort by key, merge equal keys in
// place, drop the zeros that merging produced. Scales and values are real numbers.
module Canonical {

  /** A scaled term. The three users sort by different keys: matrix and right-hand side programs by
      (destination, source), the discrete plan by (source, column, row). */
  datatype Key = Key(first: nat, second: nat, third: nat) {
    predicate Before(other: Key) {
      || first < other.first
      || (first == other.first && second < other.second)
      || (first == other.first && second == other.second && third < other.third)
    }
  }

  datatype Term = Term(key: Key, scale: real)

  /** The total scale that a list gives to one key: what the list denotes. */
  ghost function Weight(terms: seq<Term>, key: Key): real {
    if terms == [] then 0.0
    else
      var last := terms[|terms| - 1];
      Weight(terms[..|terms| - 1], key) + (if last.key == key then last.scale else 0.0)
  }

  ghost predicate SameWeights(a: seq<Term>, b: seq<Term>) {
    forall key :: Weight(a, key) == Weight(b, key)
  }

  ghost predicate Sorted(terms: seq<Term>) {
    forall i, j | 0 <= i < j < |terms| :: !terms[j].key.Before(terms[i].key)
  }

  /** The normal form: strictly ascending keys and no zero scale. */
  ghost predicate IsCanonical(terms: seq<Term>) {
    && (forall i, j | 0 <= i < j < |terms| :: terms[i].key.Before(terms[j].key))
    && (forall i | 0 <= i < |terms| :: terms[i].scale != 0.0)
  }

  // ----- Sorting -----

  lemma {:induction false} WeightOfConcat(a: seq<Term>, b: seq<Term>, key: Key)
    ensures Weight(a + b, key) == Weight(a, key) + Weight(b, key)
    decreases |b|
  {
    if b == [] {
      assert a + b == a;
    } else {
      var n := |b| - 1;
      WeightOfConcat(a, b[..n], key);
      assert (a + b)[..|a + b| - 1] == a + b[..n];
    }
  }

  lemma WeightWithoutAt(terms: seq<Term>, i: nat, key: Key)
    requires i < |terms|
    ensures Weight(terms, key) ==
            Weight(terms[..i] + terms[i + 1..], key) + (if terms[i].key == key then terms[i].scale else 0.0)
  {
    assert terms == (terms[..i] + [terms[i]]) + terms[i + 1..];
    WeightOfConcat(terms[..i] + [terms[i]], terms[i + 1..], key);
    WeightOfConcat(terms[..i], terms[i + 1..], key);
    assert (terms[..i] + [terms[i]])[..i] == terms[..i];
  }

  lemma MultisetWithoutAt<T>(terms: seq<T>, i: nat)
    requires i < |terms|
    ensures multiset(terms) == multiset(terms[..i] + terms[i + 1..]) + multiset{terms[i]}
  {
    assert terms == terms[..i] + [terms[i]] + terms[i + 1..];
  }

  lemma PermutationWithoutLast(a: seq<Term>, b: seq<Term>) returns (i: nat)
    requires multiset(a) == multiset(b) && a != []
    ensures i < |b| && b[i] == a[|a| - 1]
    ensures multiset(a[..|a| - 1]) == multiset(b[..i] + b[i + 1..])
  {
    var n := |a| - 1;
    assert a == a[..n] + [a[n]];
    assert a[n] in multiset(b);
    i :| 0 <= i < |b| && b[i] == a[n];
    MultisetWithoutAt(b, i);
    assert multiset(a[..n]) == multiset(a) - multiset{a[n]};
    assert multiset(b[..i] + b[i + 1..]) == multiset(b) - multiset{a[n]};
  }

  lemma {:induction false} PermutationKeepsWeight(a: seq<Term>, b: seq<Term>, key: Key)
    requires multiset(a) == multiset(b)
    ensures Weight(a, key) == Weight(b, key)
    decreases |a|
  {
    if a == [] {
      assert |multiset(b)| == 0;
    } else {
      var i := PermutationWithoutLast(a, b);
      PermutationKeepsWeight(a[..|a| - 1], b[..i] + b[i + 1..], key);
      WeightWithoutAt(b, i, key);
    }
  }

  lemma BeforeIsTransitive(a: Key, b: Key, c: Key)
    requires !b.Before(a) && !c.Before(b)
    ensures !c.Before(a)
  {
  }

  lemma InsertedPair(terms: seq<Term>, x: Term, i: nat, a: nat, b: nat)
    requires i <= |terms| && Sorted(terms) && a < b <= |terms|
    requires i > 0 ==> !x.key.Before(terms[i - 1].key)
    requires i < |terms| ==> x.key.Before(terms[i].key)
    ensures var r := terms[..i] + [x] + terms[i..]; !r[b].key.Before(r[a].key)
  {
    if b == i {
      if a < i - 1 { BeforeIsTransitive(terms[a].key, terms[i - 1].key, x.key); }
    } else if a == i {
      if i < b - 1 { BeforeIsTransitive(x.key, terms[i].key, terms[b - 1].key); }
    }
  }

  lemma InsertedMultiset<T>(terms: seq<T>, x: T, i: nat)
    requires i <= |terms|
    ensures multiset(terms[..i] + [x] + terms[i..]) == multiset(terms) + multiset{x}
  {
    var r := terms[..i] + [x] + terms[i..];
    MultisetWithoutAt(r, i);
    assert r[..i] + r[i + 1..] == terms;
  }

  method InsertSorted(terms: seq<Term>, x: Term) returns (r: seq<Term>)
    requires Sorted(terms)
    ensures Sorted(r) && multiset(r) == multiset(terms) + multiset{x}
  {
    var i := |terms|;
    while i > 0 && x.key.Before(terms[i - 1].key)
      invariant 0 <= i <= |terms|
      invariant i < |terms| ==> x.key.Before(terms[i].key)
    {
      i := i - 1;
    }
    r := terms[..i] + [x] + terms[i..];
    InsertedMultiset(terms, x, i);
    forall a, b | 0 <= a < b < |r| ensures !r[b].key.Before(r[a].key) {
      InsertedPair(terms, x, i, a, b);
    }
  }

  /** `sort_unstable_by_key`: some sorted permutation. Nothing below depends on which one. */
  method SortByKey(terms: seq<Term>) returns (r: seq<Term>)
    ensures Sorted(r) && multiset(r) == multiset(terms)
    ensures SameWeights(terms, r)
  {
    r := [];
    assert terms[..0] == [];
    for i := 0 to |terms|
      invariant Sorted(r) && multiset(r) == multiset(terms[..i])
    {
      assert terms[..i + 1] == terms[..i] + [terms[i]];
      r := InsertSorted(r, terms[i]);
    }
    assert terms[..|terms|] == terms;
    forall key ensures Weight(terms, key) == Weight(r, key) { PermutationKeepsWeight(terms, r, key); }
  }

  // ----- Dropping zeros -----

  /** `retain(scale != 0)`. */
  function NonZero(terms: seq<Term>): seq<Term> {
    if terms == [] then []
    else
      var last := terms[|terms| - 1];
      NonZero(terms[..|terms| - 1]) + (if last.scale != 0.0 then [last] else [])
  }

  lemma {:induction false} NonZeroKeepsWeight(terms: seq<Term>, key: Key)
    ensures Weight(NonZero(terms), key) == Weight(terms, key)
  {
    if terms != [] {
      var n := |terms| - 1;
      NonZeroKeepsWeight(terms[..n], key);
      WeightOfConcat(NonZero(terms[..n]), if terms[n].scale != 0.0 then [terms[n]] else [], key);
    }
  }

  lemma {:induction false} NonZeroIsSubsequence(terms: seq<Term>)
    ensures forall x :: x in NonZero(terms) ==> x in terms && x.scale != 0.0
    ensures (forall i, j | 0 <= i < j < |terms| :: terms[i].key.Before(terms[j].key)) ==> IsCanonical(NonZero(terms))
  {
    if terms != [] {
      var n := |terms| - 1;
      var rest := terms[..n];
      NonZeroIsSubsequence(rest);
      if forall i, j | 0 <= i < j < |terms| :: terms[i].key.Before(terms[j].key) {
        forall i | 0 <= i < |NonZero(rest)| ensures NonZero(rest)[i].key.Before(terms[n].key) {
          assert NonZero(rest)[i] in rest;
        }
      }
    }
  }

  // ----- Merging -----

  lemma WeightOfRaisedLast(terms: seq<Term>, rise: real, key: Key)
    requires terms != []
    ensures var last := terms[|terms| - 1];
            Weight(terms[|terms| - 1 := Term(last.key, last.scale + rise)], key) ==
            Weight(terms, key) + (if last.key == key then rise else 0.0)
  {
    var n := |terms| - 1;
    var raised := terms[n := Term(terms[n].key, terms[n].scale + rise)];
    assert raised[..n] == terms[..n];
  }

  /** The merge with a write cursor behind a read cursor, in one vector: `written` is what has been
      written, with the weights of everything read so far. */
  ghost predicate Merging(source: seq<Term>, read: nat, written: seq<Term>) {
    && 0 < read <= |source| && 0 < |written| <= read
    && (forall i, j | 0 <= i < j < |written| :: written[i].key.Before(written[j].key))
    && written[|written| - 1].key == source[read - 1].key
    && SameWeights(written, source[..read])
  }

  lemma MergeStep(source: seq<Term>, read: nat, written: seq<Term>)
    requires Sorted(source) && read < |source| && Merging(source, read, written)
    ensures var last, next := written[|written| - 1], source[read];
            && (last.key == next.key ==>
                  Merging(source, read + 1, written[|written| - 1 := Term(last.key, last.scale + next.scale)]))
            && (last.key != next.key ==> Merging(source, read + 1, written + [next]))
  {
    var last, next := written[|written| - 1], source[read];
    var longer := source[..read + 1];
    assert longer == source[..read] + [next];
    assert !next.key.Before(last.key);
    if last.key == next.key {
      var raised := written[|written| - 1 := Term(last.key, last.scale + next.scale)];
      forall key ensures Weight(raised, key) == Weight(longer, key) {
        WeightOfRaisedLast(written, next.scale, key);
        assert Weight(written, key) == Weight(source[..read], key);
      }
    } else {
      forall key ensures Weight(written + [next], key) == Weight(longer, key) {
        assert Weight(written, key) == Weight(source[..read], key);
        assert (written + [next])[..|written|] == written;
      }
      assert last.key.Before(next.key);
      forall i | 0 <= i < |written| ensures written[i].key.Before(next.key) {
        assert i < |written| - 1 ==> written[i].key.Before(last.key);
      }
    }
  }

  /** Read one term: add it to the last written term, or write it behind that. */
  method MergeOne(terms: array<Term>, ghost source: seq<Term>, write: nat, read: nat) returns (next: nat)
    requires write < read < terms.Length == |source| && terms[read..] == source[read..]
    requires Sorted(source) && Merging(source, read, terms[..write + 1])
    modifies terms
    ensures write <= next <= read && terms[read + 1..] == source[read + 1..]
    ensures Merging(source, read + 1, terms[..next + 1])
  {
    ghost var written := terms[..write + 1];
    assert terms[read] == source[read] && terms[read + 1..] == source[read + 1..];
    MergeStep(source, read, written);
    next := write;
    if terms[write].key == terms[read].key {
      terms[write] := Term(terms[write].key, terms[write].scale + terms[read].scale);
      assert terms[..next + 1] == written[write := terms[write]];
    } else {
      next := next + 1;
      if next != read {
        terms[next] := terms[read];
      }
      assert terms[..next + 1] == written + [source[read]];
    }
  }

  /** Merge runs of equal keys in place, and return the length to truncate to. */
  method MergeEqualKeys(terms: array<Term>) returns (length: nat)
    requires terms.Length >= 2 && Sorted(terms[..])
    modifies terms
    ensures length <= terms.Length && SameWeights(terms[..length], old(terms[..]))
    ensures forall i, j | 0 <= i < j < length :: terms[i].key.Before(terms[j].key)
  {
    ghost var source := terms[..];
    var write := 0;
    assert terms[..1] == source[..1];
    for read := 1 to terms.Length
      invariant write < read && terms[read..] == source[read..]
      invariant Merging(source, read, terms[..write + 1])
    {
      write := MergeOne(terms, source, write, read);
    }
    assert source[..terms.Length] == source;
    length := write + 1;
  }

  /** `canonicalize`: the result is in normal form and denotes the same weights. */
  method Canonicalize(terms: seq<Term>) returns (canonical: seq<Term>)
    ensures IsCanonical(canonical) && SameWeights(canonical, terms)
  {
    var retained := NonZero(terms);
    forall key ensures Weight(retained, key) == Weight(terms, key) { NonZeroKeepsWeight(terms, key); }
    NonZeroIsSubsequence(terms);
    var sorted := SortByKey(retained);
    if |sorted| < 2 {
      canonical := sorted;
      assert |sorted| == 1 ==> sorted[0] in multiset(retained);
      return;
    }
    var ops := new Term[|sorted|](i requires 0 <= i < |sorted| => sorted[i]);
    assert ops[..] == sorted;
    var length := MergeEqualKeys(ops);
    canonical := NonZero(ops[..length]);
    NonZeroIsSubsequence(ops[..length]);
    forall key ensures Weight(canonical, key) == Weight(terms, key) {
      NonZeroKeepsWeight(ops[..length], key);
      assert Weight(retained, key) == Weight(terms, key) && Weight(ops[..length], key) == Weight(sorted, key);
      assert Weight(retained, key) == Weight(sorted, key);
    }
  }

  // ----- The normal form is unique -----

  lemma {:induction false} AbsentKeyHasNoWeight(terms: seq<Term>, key: Key)
    requires forall i | 0 <= i < |terms| :: terms[i].key != key
    ensures Weight(terms, key) == 0.0
  {
    if terms != [] {
      AbsentKeyHasNoWeight(terms[..|terms| - 1], key);
    }
  }

  lemma LastWeight(terms: seq<Term>)
    requires IsCanonical(terms) && terms != []
    ensures Weight(terms, terms[|terms| - 1].key) == terms[|terms| - 1].scale != 0.0
  {
    AbsentKeyHasNoWeight(terms[..|terms| - 1], terms[|terms| - 1].key);
  }

  /** A key at or above the last key of a canonical list has no weight unless it is that key. */
  lemma LastKeyIsGreatest(a: seq<Term>, b: seq<Term>)
    requires IsCanonical(a) && IsCanonical(b) && SameWeights(a, b) && a != []
    ensures b != [] && !b[|b| - 1].key.Before(a[|a| - 1].key)
  {
    var key := a[|a| - 1].key;
    LastWeight(a);
    assert Weight(b, key) != 0.0;
    if b == [] || b[|b| - 1].key.Before(key) {
      forall i | 0 <= i < |b| ensures b[i].key != key {
        assert i < |b| - 1 ==> b[i].key.Before(b[|b| - 1].key);
      }
      AbsentKeyHasNoWeight(b, key);
    }
  }

  /** Two canonical lists with the same weights are equal. */
  lemma {:induction false} CanonicalFormIsUnique(a: seq<Term>, b: seq<Term>)
    requires IsCanonical(a) && IsCanonical(b) && SameWeights(a, b)
    ensures a == b
    decreases |a|
  {
    if a == [] {
      if b != [] { LastKeyIsGreatest(b, a); }
    } else {
      LastKeyIsGreatest(a, b);
      LastKeyIsGreatest(b, a);
      var m, n := |a| - 1, |b| - 1;
      assert a[m].key == b[n].key;
      LastWeight(a);
      LastWeight(b);
      assert Weight(a, a[m].key) == Weight(b, a[m].key);
      forall key ensures Weight(a[..m], key) == Weight(b[..n], key) {
        assert Weight(a, key) == Weight(b, key);
      }
      CanonicalFormIsUnique(a[..m], b[..n]);
      assert a == a[..m] + [a[m]] && b == b[..n] + [b[n]];
    }
  }

  // ----- Linear functionals of term lists -----

  /** What one key contributes for a given scale. Kept abstract, so that the lemmas below only use
      that contributions add up. */
  type Functional = (Key, real) -> real

  ghost predicate AdditiveAt(g: Functional, key: Key, a: real, b: real) {
    g(key, a + b) == g(key, a) + g(key, b)
  }

  ghost predicate Additive(g: Functional) {
    && (forall key :: g(key, 0.0) == 0.0)
    && (forall key, a, b :: AdditiveAt(g, key, a, b))
  }

  ghost function Total(terms: seq<Term>, g: Functional): real {
    if terms == [] then 0.0
    else
      var last := terms[|terms| - 1];
      Total(terms[..|terms| - 1], g) + g(last.key, last.scale)
  }

  ghost function Without(terms: seq<Term>, key: Key): (r: seq<Term>)
    ensures |r| <= |terms|
    ensures terms != [] && terms[|terms| - 1].key == key ==> |r| < |terms|
  {
    if terms == [] then []
    else
      var last := terms[|terms| - 1];
      Without(terms[..|terms| - 1], key) + (if last.key != key then [last] else [])
  }

  lemma {:induction false} WithoutSplitsTotal(terms: seq<Term>, key: Key, g: Functional)
    requires Additive(g)
    ensures Total(terms, g) == Total(Without(terms, key), g) + g(key, Weight(terms, key))
  {
    if terms != [] {
      var n := |terms| - 1;
      var rest, last := Without(terms[..n], key), terms[n];
      WithoutSplitsTotal(terms[..n], key, g);
      if last.key != key {
        assert (rest + [last])[..|rest|] == rest;
      } else {
        assert rest + [] == rest;
        assert AdditiveAt(g, key, Weight(terms[..n], key), last.scale);
      }
    }
  }

  lemma {:induction false} WithoutKeepsOthers(terms: seq<Term>, key: Key, other: Key)
    ensures Weight(Without(terms, key), other) == if other == key then 0.0 else Weight(terms, other)
  {
    if terms != [] {
      var n := |terms| - 1;
      var rest, last := Without(terms[..n], key), terms[n];
      WithoutKeepsOthers(terms[..n], key, other);
      if last.key != key {
        assert (rest + [last])[..|rest|] == rest;
      } else {
        assert rest + [] == rest;
      }
    }
  }

  ghost predicate AgreeAt(a: seq<Term>, b: seq<Term>, g: Functional, key: Key) {
    g(key, Weight(a, key)) == g(key, Weight(b, key))
  }

  lemma WithoutKeepsAgreement(a: seq<Term>, b: seq<Term>, g: Functional, k: Key, key: Key)
    requires AgreeAt(a, b, g, key)
    ensures AgreeAt(Without(a, k), Without(b, k), g, key)
  {
    WithoutKeepsOthers(a, k, key);
    WithoutKeepsOthers(b, k, key);
  }

  /** A functional only sees what each key's weight contributes. */
  lemma {:induction false} TotalFollowsWeights(a: seq<Term>, b: seq<Term>, g: Functional)
    requires Additive(g) && forall key :: AgreeAt(a, b, g, key)
    ensures Total(a, g) == Total(b, g)
    decreases |a| + |b|
  {
    if a != [] || b != [] {
      var k := if a != [] then a[|a| - 1].key else b[|b| - 1].key;
      WithoutSplitsTotal(a, k, g);
      WithoutSplitsTotal(b, k, g);
      assert AgreeAt(a, b, g, k);
      forall key ensures AgreeAt(Without(a, k), Without(b, k), g, key) {
        WithoutKeepsAgreement(a, b, g, k, key);
      }
      TotalFollowsWeights(Without(a, k), Without(b, k), g);
    }
  }

  // ----- Programs over (destination, source) -----

  ghost function At(destination: nat, values: seq<real>): Functional {
    (key: Key, scale: real) => if key.first == destination && key.second < |values| then values[key.second] * scale
      else 0.0
  }

  lemma AtIsAdditive(destination: nat, values: seq<real>)
    ensures Additive(At(destination, values))
  {
    forall key: Key, a: real, b: real ensures AdditiveAt(At(destination, values), key, a, b) {
      if key.second < |values| {
        Distribute(values[key.second], a, b);
      }
    }
  }

  lemma Distribute(x: real, a: real, b: real)
    ensures x * (a + b) == x * a + x * b
  {
  }

  /** What a program adds to one destination. */
  ghost function Contribution(ops: seq<Term>, values: seq<real>, destination: nat): real {
    Total(ops, At(destination, values))
  }

  /** Two programs denote the same linear map. */
  ghost predicate SameMap(a: seq<Term>, b: seq<Term>) {
    forall values: seq<real>, destination: nat ::
      Contribution(a, values, destination) == Contribution(b, values, destination)
  }

  /** The terms of a matrix or right-hand side program have no third key component. */
  ghost predicate TwoKeyed(ops: seq<Term>) {
    forall i | 0 <= i < |ops| :: ops[i].key.third == 0
  }

  ghost function Unit(n: nat): seq<real> {
    seq(n + 1, i => if i == n then 1.0 else 0.0)
  }

  /** Probing a program with a unit workspace reads off one weight. */
  lemma {:induction false} UnitReadsWeight(ops: seq<Term>, destination: nat, source: nat)
    requires TwoKeyed(ops)
    ensures Contribution(ops, Unit(source), destination) == Weight(ops, Key(destination, source, 0))
  {
    if ops != [] {
      UnitReadsWeight(ops[..|ops| - 1], destination, source);
    }
  }

  lemma SameWeightsSameMap(a: seq<Term>, b: seq<Term>)
    requires SameWeights(a, b)
    ensures SameMap(a, b)
  {
    forall values: seq<real>, destination: nat
      ensures Contribution(a, values, destination) == Contribution(b, values, destination)
    {
      forall key ensures AgreeAt(a, b, At(destination, values), key) {
        assert Weight(a, key) == Weight(b, key);
      }
      AtIsAdditive(destination, values);
      TotalFollowsWeights(a, b, At(destination, values));
    }
  }

  /** Canonicalisation is a complete invariant of the linear map: two programs denote the same map
      exactly when their canonical forms are equal. */
  lemma SameMapIffSameCanonicalForm(a: seq<Term>, b: seq<Term>, p: seq<Term>, q: seq<Term>)
    requires TwoKeyed(a) && TwoKeyed(b)
    requires IsCanonical(p) && SameWeights(p, a) && IsCanonical(q) && SameWeights(q, b)
    ensures SameMap(a, b) <==> p == q
  {
    if SameMap(a, b) {
      forall key ensures Weight(p, key) == Weight(q, key) {
        assert Weight(p, key) == Weight(a, key) && Weight(q, key) == Weight(b, key);
        if key.third == 0 {
          UnitReadsWeight(a, key.first, key.second);
          UnitReadsWeight(b, key.first, key.second);
          assert Contribution(a, Unit(key.second), key.first) == Contribution(b, Unit(key.second), key.first);
        } else {
          AbsentKeyHasNoWeight(a, key);
          AbsentKeyHasNoWeight(b, key);
        }
      }
      CanonicalFormIsUnique(p, q);
    }
    if p == q {
      forall key ensures Weight(a, key) == Weight(b, key) {
        assert Weight(p, key) == Weight(a, key) && Weight(q, key) == Weight(b, key);
      }
      SameWeightsSameMap(a, b);
    }
  }

  /** `MatrixProgram` and `RhsProgram`: canonical operations with the sizes they need. */
  datatype Program = Program(ops: seq<Term>, requiredValues: nat, requiredTargets: nat) {
    ghost predicate Valid() {
      && IsCanonical(ops)
      && forall i | 0 <= i < |ops| :: ops[i].key.first < requiredTargets && ops[i].key.second < requiredValues
    }
  }

  method NewProgram(ops: seq<Term>) returns (program: Program)
    ensures program.Valid() && SameWeights(program.ops, ops) && SameMap(program.ops, ops)
    ensures program.requiredValues == 0
      || exists i :: 0 <= i < |program.ops| && program.ops[i].key.second + 1 == program.requiredValues
    ensures program.requiredTargets == 0
      || exists i :: 0 <= i < |program.ops| && program.ops[i].key.first + 1 == program.requiredTargets
  {
    var canonical := Canonicalize(ops);
    var values, targets := 0, 0;
    for i := 0 to |canonical|
      invariant forall j | 0 <= j < i :: canonical[j].key.first < targets && canonical[j].key.second < values
      invariant values == 0 || exists j :: 0 <= j < i && canonical[j].key.second + 1 == values
      invariant targets == 0 || exists j :: 0 <= j < i && canonical[j].key.first + 1 == targets
    {
      var key := canonical[i].key;
      if key.second + 1 > values { values := key.second + 1; }
      if key.first + 1 > targets { targets := key.first + 1; }
    }
    program := Program(canonical, values, targets);
    SameWeightsSameMap(canonical, ops);
  }

  /** `MatrixProgram::execute` and `RhsProgram::execute_additive`: every target cell receives the
      contribution of the program. The size checks are the source's assertions. */
  method ExecuteAdditive(program: Program, targets: array<real>, values: seq<real>)
    requires program.Valid() && |values| >= program.requiredValues && targets.Length >= program.requiredTargets
    modifies targets
    ensures forall d | 0 <= d < targets.Length :: targets[d] == old(targets[d]) + Contribution(program.ops, values, d)
  {
    var ops := program.ops;
    assert ops[..0] == [];
    for i := 0 to |ops|
      invariant forall d | 0 <= d < targets.Length :: targets[d] == old(targets[d]) + Contribution(ops[..i], values, d)
    {
      var op := ops[i];
      assert ops[..i + 1][..i] == ops[..i];
      targets[op.key.first] := targets[op.key.first] + values[op.key.second] * op.scale;
    }
    assert ops[..|ops|] == ops;
  }

  /** `RhsProgram::execute` starts from zero. */
  method ExecuteRhs(program: Program, rhs: array<real>, values: seq<real>)
    requires program.Valid() && |values| >= program.requiredValues && rhs.Length >= program.requiredTargets
    modifies rhs
    ensures forall d | 0 <= d < rhs.Length :: rhs[d] == Contribution(program.ops, values, d)
  {
    forall d | 0 <= d < rhs.Length { rhs[d] := 0.0; }
    ExecuteAdditive(program, rhs, values);
  }
}
