// Shared vocabulary: optional values, results, and the library operations on lists that the engine relies on.
module Support {

  datatype Option<+T> = None | Some(value: T)

  /** A result that propagates its error through `:-`. */
  datatype Result<+T, +E> = Ok(value: T) | Err(error: E) {
    predicate IsFailure() {
      Err?
    }

    function PropagateFailure<U>(): Result<U, E>
      requires Err?
    {
      Err(error)
    }

    function Extract(): T
      requires Ok?
    {
      value
    }
  }

  /** The exclusive bound of every 32-bit unsigned identifier in the engine. */
  const U32_LIMIT: nat := 0x1_0000_0000

  ghost predicate Ascending(s: seq<nat>) {
    forall i, j | 0 <= i < j < |s| :: s[i] < s[j]
  }

  lemma AscendingAppend(s: seq<nat>, x: nat)
    requires Ascending(s) && forall y | y in s :: y < x
    ensures Ascending(s + [x])
  {
    forall i | 0 <= i < |s| ensures s[i] < x { assert s[i] in s; }
  }

  ghost predicate Distinct(s: seq<nat>) {
    forall i, j | 0 <= i < j < |s| :: s[i] != s[j]
  }

  ghost function SetOf(s: seq<nat>): set<nat> {
    set x | x in s
  }

  /** `Vec::swap_remove`: the last element moves into the gap. */
  function SwapRemove<T>(s: seq<T>, i: nat): (r: seq<T>)
    requires i < |s|
    ensures |r| == |s| - 1
    ensures forall k | 0 <= k < |r| :: r[k] == if k == i then s[|s| - 1] else s[k]
  {
    s[i := s[|s| - 1]][..|s| - 1]
  }

  /** `sort_unstable` followed by `dedup`: the ascending list of the distinct elements of `s`. */
  function SortedDistinct(s: seq<nat>): (r: seq<nat>)
    ensures Ascending(r)
    ensures forall x :: x in r <==> x in s
  {
    if s == [] then []
    else
      assert s == s[..|s| - 1] + [s[|s| - 1]];
      InsertDistinct(SortedDistinct(s[..|s| - 1]), s[|s| - 1])
  }

  function InsertDistinct(s: seq<nat>, x: nat): (r: seq<nat>)
    requires Ascending(s)
    ensures Ascending(r)
    ensures forall y :: y in r <==> y == x || y in s
  {
    if s == [] || s[|s| - 1] < x then s + [x]
    else if s[|s| - 1] == x then s
    else
      var last := s[|s| - 1];
      assert s == s[..|s| - 1] + [last];
      var head := InsertDistinct(s[..|s| - 1], x);
      assert forall i | 0 <= i < |head| :: head[i] in head && head[i] < last;
      head + [last]
  }

  lemma NonEmptyHasMember<T>(s: seq<T>)
    ensures s != [] ==> exists x :: x in s
  {
    if s != [] {
      assert s[0] in s;
    }
  }

  /** An ascending list is determined by its set of elements. */
  lemma {:induction false} AscendingUnique(a: seq<nat>, b: seq<nat>)
    requires Ascending(a) && Ascending(b)
    requires forall x :: x in a <==> x in b
    ensures a == b
    decreases |a|
  {
    if a == [] {
      NonEmptyHasMember(b);
    } else {
      assert a[0] in b && b != [];
      var m, n := |a| - 1, |b| - 1;
      assert a[m] in b && b[n] in a;
      assert a[m] == b[n];
      forall x ensures x in a[..m] <==> x in b[..n] {
        if x in a[..m] { assert x in b && x != b[n]; }
        if x in b[..n] { assert x in a && x != a[m]; }
      }
      AscendingUnique(a[..m], b[..n]);
      assert a == a[..m] + [a[m]] && b == b[..n] + [b[n]];
    }
  }

  /** `binary_search` over an ascending list. */
  method BinarySearch(s: seq<nat>, key: nat) returns (found: Option<nat>)
    requires Ascending(s)
    ensures found.Some? ==> found.value < |s| && s[found.value] == key
    ensures found.None? ==> key !in s
  {
    var low, high := 0, |s|;
    while low < high
      invariant 0 <= low <= high <= |s|
      invariant forall i | 0 <= i < low :: s[i] < key
      invariant forall i | high <= i < |s| :: key < s[i]
    {
      var middle := low + (high - low) / 2;
      if s[middle] == key {
        return Some(middle);
      } else if s[middle] < key {
        low := middle + 1;
      } else {
        high := middle;
      }
    }
    return None;
  }
}
