// The dense store of island runtimes (hynergy-engine/src/runtime/store.rs): a sparse position
// table over a dense entry list with swap removal. It refines a map from island to runtime.
module RuntimeStore {
  import opened Support

  datatype Entry<R> = Entry(id: nat, runtime: R)

  /** Position tables hold the dense index plus one; zero means the island is not stored. */
  ghost predicate IsTable<R>(positions: seq<nat>, entries: seq<Entry<R>>) {
    && (forall i | 0 <= i < |entries| :: Points(positions, entries[i].id, i))
    && (forall id | 0 <= id < |positions| && positions[id] != 0 :: Holds(entries, positions[id] - 1, id))
  }

  ghost predicate Points(positions: seq<nat>, id: nat, i: nat) {
    id < |positions| && positions[id] == i + 1
  }

  ghost predicate Holds<R>(entries: seq<Entry<R>>, i: nat, id: nat) {
    i < |entries| && entries[i].id == id
  }

  /** The stored runtime of an island. */
  ghost function Lookup<R>(positions: seq<nat>, entries: seq<Entry<R>>, id: nat): Option<R> {
    if id < |positions| && 0 < positions[id] <= |entries| then Some(entries[positions[id] - 1].runtime) else None
  }

  lemma Replaces<R>(positions: seq<nat>, entries: seq<Entry<R>>, i: nat, runtime: R)
    requires IsTable(positions, entries) && i < |entries|
    ensures var next := entries[i := Entry(entries[i].id, runtime)];
            && IsTable(positions, next)
            && forall id: nat ::
              Lookup(positions, next, id) == if id == entries[i].id then Some(runtime)
              else Lookup(positions, entries, id)
  {
    var next := entries[i := Entry(entries[i].id, runtime)];
    forall k | 0 <= k < |next| ensures Points(positions, next[k].id, k) { assert Points(positions, entries[k].id, k); }
    forall id | 0 <= id < |positions| && positions[id] != 0
      ensures Holds(next, positions[id] - 1, id) && (positions[id] - 1 == i <==> id == entries[i].id)
    {
      assert Holds(entries, positions[id] - 1, id) && Points(positions, entries[i].id, i);
    }
    assert Points(positions, entries[i].id, i);
  }

  /** Widening the position table and appending an entry stores one more island. */
  lemma Appends<R>(positions: seq<nat>, entries: seq<Entry<R>>, id: nat, runtime: R, n: nat)
    requires IsTable(positions, entries) && Lookup(positions, entries, id).None? && id < |positions| + n
    ensures var wide, longer := positions + seq(n, _ => 0), entries + [Entry(id, runtime)];
            && IsTable(wide[id := |entries| + 1], longer)
            && forall k: nat ::
              Lookup(wide[id := |entries| + 1], longer, k) == if k == id then Some(runtime)
              else Lookup(positions, entries, k)
  {
    var wide, longer := positions + seq(n, _ => 0), entries + [Entry(id, runtime)];
    var next := wide[id := |entries| + 1];
    forall k | 0 <= k < |longer| ensures Points(next, longer[k].id, k) {
      if k < |entries| { assert Points(positions, entries[k].id, k); }
    }
    forall k | 0 <= k < |next| && next[k] != 0 ensures Holds(longer, next[k] - 1, k) {
      if k != id { assert Holds(entries, positions[k] - 1, k); }
    }
  }

  /** The position table after the updates that follow a swap removal. */
  ghost function Repositioned<R>(positions: seq<nat>, entries: seq<Entry<R>>, i: nat): seq<nat>
    requires IsTable(positions, entries) && i < |entries|
  {
    assert Points(positions, entries[i].id, i) && Points(positions, entries[|entries| - 1].id, |entries| - 1);
    var cleared := positions[entries[i].id := 0];
    if i < |entries| - 1 then cleared[entries[|entries| - 1].id := i + 1] else cleared
  }

  lemma RepositionedAt<R>(positions: seq<nat>, entries: seq<Entry<R>>, i: nat, id: nat)
    requires IsTable(positions, entries) && i < |entries| && id < |positions|
    ensures var last := |entries| - 1;
            && |Repositioned(positions, entries, i)| == |positions|
            && Repositioned(positions, entries, i)[id] ==
               (if id == entries[i].id then 0 else if id == entries[last].id then i + 1 else positions[id])
            && (positions[id] == last + 1 <==> id == entries[last].id)
            && (positions[id] == i + 1 <==> id == entries[i].id)
            && (positions[id] != 0 ==> positions[id] <= |entries| && entries[positions[id] - 1].id == id)
  {
    var last := |entries| - 1;
    assert Points(positions, entries[i].id, i) && Points(positions, entries[last].id, last);
    if positions[id] != 0 { assert Holds(entries, positions[id] - 1, id); }
  }

  lemma Removes<R>(positions: seq<nat>, entries: seq<Entry<R>>, i: nat)
    requires IsTable(positions, entries) && i < |entries|
    ensures var p, e := Repositioned(positions, entries, i), SwapRemove(entries, i);
            && IsTable(p, e)
            && forall id: nat ::
              Lookup(p, e, id) == if id == entries[i].id then None else Lookup(positions, entries, id)
  {
    var p, e := Repositioned(positions, entries, i), SwapRemove(entries, i);
    forall k | 0 <= k < |e| ensures Points(p, e[k].id, k) {
      RemovedEntry(positions, entries, i, k);
    }
    forall id | 0 <= id < |p| && p[id] != 0 ensures Holds(e, p[id] - 1, id) {
      RepositionedAt(positions, entries, i, id);
    }
    forall id: nat ensures Lookup(p, e, id) == if id == entries[i].id then None else Lookup(positions, entries, id) {
      assert Points(positions, entries[i].id, i);
      if id < |positions| { RepositionedAt(positions, entries, i, id); }
    }
  }

  lemma RemovedEntry<R>(positions: seq<nat>, entries: seq<Entry<R>>, i: nat, k: nat)
    requires IsTable(positions, entries) && i < |entries| && k < |entries| - 1
    ensures Points(Repositioned(positions, entries, i), SwapRemove(entries, i)[k].id, k)
  {
    var from := if k == i then |entries| - 1 else k;
    assert Points(positions, entries[from].id, from);
    RepositionedAt(positions, entries, i, entries[from].id);
  }

  class IslandRuntimeStore<R> {
    var positions: seq<nat>
    var entries: seq<Entry<R>>

    ghost predicate Valid()
      reads this
    {
      IsTable(positions, entries) && |entries| < U32_LIMIT
    }

    /** The abstract value: a partial map from island to runtime. */
    ghost function Stored(id: nat): Option<R>
      reads this
    {
      Lookup(positions, entries, id)
    }

    constructor ()
      ensures Valid() && forall id: nat :: Stored(id) == None
    {
      positions, entries := [], [];
    }

    method DenseIndex(id: nat) returns (index: Option<nat>)
      requires Valid()
      ensures index.Some? <==> Stored(id).Some?
      ensures index.Some? ==> Holds(entries, index.value, id) && Points(positions, id, index.value)
    {
      if id >= |positions| || positions[id] == 0 {
        return None;
      }
      assert Holds(entries, positions[id] - 1, id);
      return Some(positions[id] - 1);
    }

    method Get(id: nat) returns (runtime: Option<R>)
      requires Valid()
      ensures runtime == Stored(id)
    {
      var index := DenseIndex(id);
      match index {
        case None => return None;
        case Some(i) => return Some(entries[i].runtime);
      }
    }

    /** `insert`: replaces in place, or appends. The dense position must stay a 32-bit number. */
    method Insert(id: nat, runtime: R) returns (previous: Option<R>)
      requires Valid() && |entries| + 1 < U32_LIMIT
      modifies this
      ensures Valid() && forall k: nat :: Stored(k) == if k == id then Some(runtime) else old(Stored(k))
      ensures previous == old(Stored(id))
      ensures |positions| == if |old(positions)| < id + 1 then id + 1 else |old(positions)|
    {
      var index := DenseIndex(id);
      if index.Some? {
        previous := Some(entries[index.value].runtime);
        Replaces(positions, entries, index.value, runtime);
        entries := entries[index.value := Entry(id, runtime)];
        return;
      }
      Appends(positions, entries, id, runtime, if |positions| < id + 1 then id + 1 - |positions| else 0);
      if |positions| < id + 1 {
        positions := positions + seq(id + 1 - |positions|, _ => 0);
      } else {
        assert positions + seq(0, _ => 0) == positions;
      }
      entries := entries + [Entry(id, runtime)];
      positions := positions[id := |entries|];
      previous := None;
    }

    /** `remove`: the last entry moves into the gap and its position follows. */
    method Remove(id: nat) returns (removed: Option<R>)
      requires Valid()
      modifies this
      ensures Valid() && forall k: nat :: Stored(k) == if k == id then None else old(Stored(k))
      ensures removed == old(Stored(id))
    {
      var index := DenseIndex(id);
      if index.None? {
        return None;
      }
      var i := index.value;
      removed := Some(entries[i].runtime);
      Removes(positions, entries, i);
      ghost var swapped := Repositioned(positions, entries, i);
      entries := SwapRemove(entries, i);
      positions := positions[id := 0];
      if i < |entries| {
        positions := positions[entries[i].id := i + 1];
      }
      assert positions == swapped;
    }
  }
}
