// Device state beside the device arena (hynergy-engine/src/state.rs and
// hynergy-model/src/network/device_arena.rs): both keep chunks of at most 64 rows, remove rows and
// chunks by swapping with the last one, and must stay aligned. Together they are proved to refine
// a map from device to state row.
//
// The 64-bit mask of initialised rows is modelled as the set of its set bit positions.
module StateStore {
  import opened Support

  const CHUNK_ROWS: nat := 64
  const MAX_CHUNKS: nat := 0x200_0000

  datatype Location = Location(chunk: nat, row: nat)

  /** One device's state: its values, and whether they have ever been committed. */
  datatype Row<V> = Row(values: seq<V>, initialized: bool)

  // ----- Swap removal -----

  /** Remove a row from a chunk, and the chunk itself once it is empty. */
  function RemoveAt<T>(chunks: seq<seq<T>>, at: Location): seq<seq<T>>
    requires at.chunk < |chunks| && at.row < |chunks[at.chunk]|
  {
    var shrunk := SwapRemove(chunks[at.chunk], at.row);
    if shrunk == [] then SwapRemove(chunks, at.chunk) else chunks[at.chunk := shrunk]
  }

  /** Where the entry that ends up at `now` was before the removal. */
  function Before<T>(chunks: seq<seq<T>>, at: Location, now: Location): Location
    requires at.chunk < |chunks| && at.row < |chunks[at.chunk]|
  {
    if |chunks[at.chunk]| == 1 then
      (if now.chunk == at.chunk then Location(|chunks| - 1, now.row) else now)
    else if now == at then Location(at.chunk, |chunks[at.chunk]| - 1)
    else now
  }

  ghost predicate InRange<T>(chunks: seq<seq<T>>, at: Location) {
    at.chunk < |chunks| && at.row < |chunks[at.chunk]|
  }

  ghost predicate SameShape<S, T>(a: seq<seq<S>>, b: seq<seq<T>>) {
    |a| == |b| && forall c | 0 <= c < |a| :: |a[c]| == |b[c]|
  }

  /** Removal moves entries without changing them; where they come from depends only on the shape. */
  lemma RemovalMoves<T>(chunks: seq<seq<T>>, at: Location, now: Location)
    requires InRange(chunks, at) && InRange(RemoveAt(chunks, at), now)
    ensures var was := Before(chunks, at, now);
            InRange(chunks, was) && was != at && RemoveAt(chunks, at)[now.chunk][now.row] == chunks[was.chunk][was.row]
  {
  }

  lemma RemovalKeepsShape<S, T>(a: seq<seq<S>>, b: seq<seq<T>>, at: Location)
    requires SameShape(a, b) && InRange(a, at)
    ensures InRange(b, at) && SameShape(RemoveAt(a, at), RemoveAt(b, at))
  {
    assert |SwapRemove(a[at.chunk], at.row)| == |SwapRemove(b[at.chunk], at.row)|;
  }

  // ----- One chunk of state rows -----

  ghost function Flatten<V>(rows: seq<seq<V>>): seq<V> {
    if rows == [] then [] else Flatten(rows[..|rows| - 1]) + rows[|rows| - 1]
  }

  ghost predicate Stride<V>(rows: seq<seq<V>>, width: nat) {
    forall r | 0 <= r < |rows| :: |rows[r]| == width
  }

  /** n * width by repeated addition, which is how the lemmas below use it. */
  ghost function Times(n: nat, width: nat): nat {
    if n == 0 then 0 else Times(n - 1, width) + width
  }

  lemma {:induction false} TimesIsProduct(n: nat, width: nat)
    ensures Times(n, width) == n * width
    decreases n
  {
    if n > 0 {
      TimesIsProduct(n - 1, width);
      MulStep(n - 1, width);
    }
  }

  lemma MulStep(n: nat, width: nat)
    ensures (n + 1) * width == n * width + width
  {
  }

  lemma {:induction false} FlattenLength<V>(rows: seq<seq<V>>, width: nat)
    requires Stride(rows, width)
    ensures |Flatten(rows)| == Times(|rows|, width)
  {
    if rows != [] {
      FlattenLength(rows[..|rows| - 1], width);
    }
  }

  lemma {:induction false} FlattenPrefix<V>(rows: seq<seq<V>>, k: nat)
    requires k <= |rows|
    ensures Flatten(rows[..k]) <= Flatten(rows)
    decreases |rows|
  {
    if k < |rows| {
      FlattenPrefix(rows[..|rows| - 1], k);
      assert rows[..|rows| - 1][..k] == rows[..k];
    } else {
      assert rows[..k] == rows;
    }
  }

  /** A row is a stride of the flat vector. */
  lemma FlattenRow<V>(rows: seq<seq<V>>, width: nat, r: nat)
    requires Stride(rows, width) && r < |rows|
    ensures Times(r, width) + width <= |Flatten(rows)|
    ensures Flatten(rows)[Times(r, width)..Times(r, width) + width] == rows[r]
    ensures Flatten(rows)[..Times(r, width)] == Flatten(rows[..r])
  {
    FlattenPrefix(rows, r + 1);
    assert rows[..r + 1][..r] == rows[..r];
    FlattenLength(rows[..r], width);
    assert Flatten(rows[..r + 1]) == Flatten(rows[..r]) + rows[r];
  }

  /** Overwriting a stride overwrites the row. */
  lemma {:induction false} FlattenUpdate<V>(rows: seq<seq<V>>, width: nat, r: nat, row: seq<V>)
    requires Stride(rows, width) && r < |rows| && |row| == width
    ensures Times(r, width) + width <= |Flatten(rows)|
    ensures Flatten(rows[r := row]) == Flatten(rows)[..Times(r, width)] + row + Flatten(rows)[Times(r, width) + width..]
    decreases |rows|
  {
    var n := |rows| - 1;
    var rest := rows[..n];
    FlattenLength(rest, width);
    FlattenRow(rows, width, r);
    if r < n {
      FlattenUpdate(rest, width, r, row);
      assert rows[r := row][..n] == rest[r := row];
    } else {
      assert rows[r := row][..n] == rest;
    }
  }

  /** Copying the last stride over stride `r` and truncating is swap removal of the row. */
  lemma RemovedStride<V>(rows: seq<seq<V>>, width: nat, r: nat)
    requires Stride(rows, width) && r < |rows|
    ensures var flat, last := Flatten(rows), |rows| - 1;
            && Times(r, width) + width <= |flat| == Times(last, width) + width
            && (flat[..Times(r, width)] + flat[Times(last, width)..Times(last, width) + width]
              + flat[Times(r, width) + width..])[..Times(last, width)] ==
               Flatten(SwapRemove(rows, r))
  {
    var last := |rows| - 1;
    FlattenLength(rows, width);
    FlattenRow(rows, width, last);
    FlattenUpdate(rows, width, r, rows[last]);
    var moved := rows[r := rows[last]];
    FlattenRow(moved, width, last);
  }

  /** Without a copy, truncating is swap removal of the last row, or of any row of width zero. */
  lemma TruncatedStride<V>(rows: seq<seq<V>>, width: nat, r: nat)
    requires Stride(rows, width) && r < |rows| && (r == |rows| - 1 || width == 0)
    ensures Times(|rows| - 1, width) <= |Flatten(rows)|
    ensures Flatten(rows)[..Times(|rows| - 1, width)] == Flatten(SwapRemove(rows, r))
  {
    var last := |rows| - 1;
    FlattenRow(rows, width, last);
    if r == last {
      assert SwapRemove(rows, r) == rows[..last];
    } else {
      FlattenLength(SwapRemove(rows, r), width);
      FlattenLength(rows, width);
      TimesIsProduct(last, width);
    }
  }

  class StateChunk<V(==)> {
    const stateCount: nat
    var rowCount: nat
    var values: seq<V>
    var initialized: set<nat>
    ghost var rows: seq<seq<V>>

    ghost predicate Valid()
      reads this
    {
      && rowCount == |rows| <= CHUNK_ROWS
      && Stride(rows, stateCount) && values == Flatten(rows)
      && forall r | r in initialized :: r < rowCount
    }

    ghost function View(): (v: seq<Row<V>>)
      reads this
    {
      seq(|rows|, r requires 0 <= r < |rows| reads this => Row(rows[r], r in initialized))
    }

    constructor (stateCount: nat)
      ensures Valid() && View() == [] && this.stateCount == stateCount
    {
      this.stateCount := stateCount;
      rowCount, values, initialized, rows := 0, [], {}, [];
    }

    /** Append a row of zeros. It is never initialised, whatever rows were here before. */
    method PushRow(zero: V)
      requires Valid() && rowCount < CHUNK_ROWS
      modifies this
      ensures Valid() && View() == old(View()) + [Row(seq(stateCount, _ => zero), false)]
    {
      var row := seq(stateCount, _ => zero);
      values := values + row;
      rows := rows + [row];
      rowCount := rowCount + 1;
      assert rows[..|rows| - 1] == old(rows);
    }

    /** Overwrite row `row` with the last row, and drop the last row. */
    method RemoveRow(row: nat)
      requires Valid() && row < rowCount
      modifies this
      ensures Valid() && View() == SwapRemove(old(View()), row)
    {
      RemoveValues(row);
      var last := rowCount - 1;
      if row != last {
        if last in initialized {
          initialized := initialized + {row};
        } else {
          initialized := initialized - {row};
        }
      }
      initialized := initialized - {last};
      rows := SwapRemove(rows, row);
      rowCount := rowCount - 1;
    }

    /** `copy_within` and `truncate`. */
    method RemoveValues(row: nat)
      requires Valid() && row < rowCount
      modifies this`values
      ensures values == Flatten(SwapRemove(rows, row))
    {
      var last := rowCount - 1;
      RemovedStride(rows, stateCount, row);
      TimesIsProduct(row, stateCount);
      TimesIsProduct(last, stateCount);
      if row != last && stateCount != 0 {
        var source := values[last * stateCount..last * stateCount + stateCount];
        values := values[..row * stateCount] + source + values[row * stateCount + stateCount..];
      } else {
        TruncatedStride(rows, stateCount, row);
      }
      values := values[..last * stateCount];
    }

    method SetInitialized(row: nat)
      requires Valid() && row < rowCount
      modifies this`initialized
      ensures Valid() && View() == old(View())[row := Row(old(View())[row].values, true)]
    {
      initialized := initialized + {row};
    }

    method Write(row: nat, index: nat, x: V)
      requires Valid() && row < rowCount && index < stateCount
      modifies this`values, this`rows
      ensures Valid()
        && View() == old(View())[row := Row(old(View())[row].values[index := x], old(View())[row].initialized)]
    {
      ghost var updated := rows[row][index := x];
      FlattenUpdate(rows, stateCount, row, updated);
      FlattenRow(rows, stateCount, row);
      TimesIsProduct(row, stateCount);
      assert values[row * stateCount + index := x] ==
             values[..row * stateCount] + updated + values[row * stateCount + stateCount..] by {
        assert values[row * stateCount..row * stateCount + stateCount] == rows[row];
      }
      values := values[row * stateCount + index := x];
      rows := rows[row := updated];
    }

    method Read(row: nat, index: nat) returns (x: V)
      requires Valid() && row < rowCount && index < stateCount
      ensures x == View()[row].values[index]
    {
      FlattenRow(rows, stateCount, row);
      TimesIsProduct(row, stateCount);
      assert values[row * stateCount..row * stateCount + stateCount][index] == rows[row][index];
      x := values[row * stateCount + index];
    }
  }

  // ----- The sidecar -----

  datatype Relocation = Relocation(fromChunk: nat, toChunk: nat)

  datatype RemoveResult = RemoveResult(location: Location, movedDevice: Option<nat>, relocation: Option<Relocation>)

  datatype StateError = StateNotInitialized(index: nat)

  /** Append an entry to a chunk, or start a new chunk with it. */
  function InsertAt<T>(chunks: seq<seq<T>>, at: Location, x: T): seq<seq<T>>
    requires at.chunk <= |chunks|
  {
    if at.chunk == |chunks| then chunks + [[x]] else chunks[at.chunk := chunks[at.chunk] + [x]]
  }

  class PhysicalStateStore<V(==)> {
    var chunks: seq<StateChunk<V>>
    const zero: V
    /** The chunk objects, and the rows and row widths they hold. */
    ghost var Repr: set<object>
    ghost var view: seq<seq<Row<V>>>
    ghost var strides: seq<nat>

    ghost predicate Valid()
      reads this, Repr
    {
      && |view| == |strides| == |chunks| && this !in Repr
      && (forall c | 0 <= c < |chunks| :: Owns(c))
      && forall c, d | 0 <= c < d < |chunks| :: chunks[c] != chunks[d]
    }

    ghost predicate Owns(c: nat)
      reads this, Repr
    {
      && c < |chunks| && c < |view| && c < |strides|
      && chunks[c] in Repr && chunks[c].Valid() && chunks[c].View() == view[c] && chunks[c].stateCount == strides[c]
    }

    constructor (zero: V)
      ensures Valid() && chunks == [] && view == [] && strides == [] && this.zero == zero && Repr == {}
    {
      chunks, view, strides, Repr := [], [], [], {};
      this.zero := zero;
    }

    /** `prepare_add_device` and `commit_add_device`: a row of zeros at the arena's location. */
    method AddDevice(at: Location, created: bool, stateCount: nat)
      requires Valid()
      requires created ==> at == Location(|view|, 0)
      requires !created ==>
        at.chunk < |view| && strides[at.chunk] == stateCount && |view[at.chunk]| == at.row < CHUNK_ROWS
      modifies this, Repr
      ensures Valid() && fresh(Repr - old(Repr))
      ensures view == InsertAt(old(view), at, Row(seq(stateCount, _ => zero), false))
      ensures strides == if created then old(strides) + [stateCount] else old(strides)
    {
      ghost var row := Row(seq(stateCount, _ => zero), false);
      if created {
        var chunk := new StateChunk(stateCount);
        chunk.PushRow(zero);
        chunks, strides := chunks + [chunk], strides + [stateCount];
        view, Repr := view + [[row]], Repr + {chunk};
        forall c: nat | c < |chunks| ensures Owns(c) {
          assert c < |chunks| - 1 ==> old(Owns(c));
        }
      } else {
        assert Owns(at.chunk);
        var chunk := chunks[at.chunk];
        chunk.PushRow(zero);
        view := view[at.chunk := view[at.chunk] + [row]];
        forall c: nat | c < |chunks| ensures Owns(c) {
          assert old(Owns(c)) && (c != at.chunk ==> chunks[c] != chunk);
        }
      }
    }

    /** `remove_device`: mirror the arena's swap removals. */
    method RemoveDevice(removal: RemoveResult)
      requires Valid() && InRange(view, removal.location)
      requires removal.relocation == ExpectedRelocation(view, removal.location)
      modifies this, Repr
      ensures Valid() && Repr == old(Repr)
      ensures view == RemoveAt(old(view), removal.location)
      ensures strides == if |old(view)[removal.location.chunk]| == 1
        then SwapRemove(old(strides), removal.location.chunk) else old(strides)
    {
      var at := removal.location;
      assert Owns(at.chunk);
      var chunk := chunks[at.chunk];
      OthersDiffer(at.chunk);
      chunk.RemoveRow(at.row);
      view := view[at.chunk := SwapRemove(view[at.chunk], at.row)];
      forall c | 0 <= c < |chunks| ensures Owns(c) { assert old(Owns(c)); }
      if chunk.rowCount != 0 {
        return;
      }
      DropChunk(at.chunk, removal.relocation);
    }

    method DropChunk(c: nat, relocation: Option<Relocation>)
      requires Valid() && c < |chunks| && (relocation.None? ==> c == |chunks| - 1)
      modifies this
      ensures Valid() && Repr == old(Repr)
      ensures view == SwapRemove(old(view), c) && strides == SwapRemove(old(strides), c)
    {
      match relocation {
        case Some(_) => chunks := SwapRemove(chunks, c);
        case None => chunks := chunks[..|chunks| - 1];
      }
      assert chunks == SwapRemove(old(chunks), c);
      view, strides := SwapRemove(view, c), SwapRemove(strides, c);
      forall d | 0 <= d < |chunks| ensures Owns(d) {
        assert old(Owns(d)) && old(Owns(|chunks| - 1));
      }
    }

    /** `read_logical_at`: the stored value once initialised, the initializer before. */
    method ReadLogical(at: Location, index: nat, initializer: V) returns (result: Result<V, StateError>)
      requires Valid()
      ensures result == LogicalValue(view, strides, at, index, initializer)
    {
      if at.chunk >= |chunks| {
        return Err(StateNotInitialized(index));
      }
      assert Owns(at.chunk);
      var chunk := chunks[at.chunk];
      if at.row >= chunk.rowCount || index >= chunk.stateCount {
        return Err(StateNotInitialized(index));
      }
      if at.row in chunk.initialized {
        var x := chunk.Read(at.row, index);
        return Ok(x);
      }
      return Ok(initializer);
    }

    /** `write_prevalidated`. */
    method Write(at: Location, index: nat, x: V)
      requires Valid() && InRange(view, at) && index < strides[at.chunk]
      modifies Repr, this`view
      ensures Valid() && view == UpdateAt(old(view), at, WithValue(old(view)[at.chunk][at.row], index, x))
    {
      assert Owns(at.chunk);
      var chunk := chunks[at.chunk];
      OthersDiffer(at.chunk);
      RowsHaveStride(at);
      chunk.Write(at.row, index, x);
      view := UpdateAt(view, at, WithValue(view[at.chunk][at.row], index, x));
      forall c | 0 <= c < |chunks| ensures Owns(c) { assert old(Owns(c)); }
    }

    /** `mark_initialized_prevalidated`. */
    method MarkInitialized(at: Location)
      requires Valid() && InRange(view, at)
      modifies Repr, this`view
      ensures Valid() && view == UpdateAt(old(view), at, Row(old(view)[at.chunk][at.row].values, true))
    {
      assert Owns(at.chunk);
      var chunk := chunks[at.chunk];
      OthersDiffer(at.chunk);
      chunk.SetInitialized(at.row);
      view := UpdateAt(view, at, Row(view[at.chunk][at.row].values, true));
      forall c | 0 <= c < |chunks| ensures Owns(c) { assert old(Owns(c)); }
    }

    lemma OthersDiffer(c: nat)
      requires Valid() && c < |chunks|
      ensures forall d | 0 <= d < |chunks| && d != c :: chunks[d] != chunks[c]
    {
    }

    /** Every stored row has the width of its chunk. */
    lemma RowsHaveStride(at: Location)
      requires Valid() && InRange(view, at)
      ensures |view[at.chunk][at.row].values| == strides[at.chunk]
    {
      assert Owns(at.chunk);
    }
  }

  function UpdateAt<T>(chunks: seq<seq<T>>, at: Location, x: T): seq<seq<T>>
    requires at.chunk < |chunks| && at.row < |chunks[at.chunk]|
  {
    chunks[at.chunk := chunks[at.chunk][at.row := x]]
  }

  function WithValue<V>(row: Row<V>, index: nat, x: V): Row<V> {
    if index < |row.values| then Row(row.values[index := x], row.initialized) else row
  }

  /** The arena reports a relocation exactly when an emptied chunk was not the last. */
  function ExpectedRelocation<T>(chunks: seq<seq<T>>, at: Location): Option<Relocation>
    requires at.chunk < |chunks|
  {
    if |chunks[at.chunk]| == 1 && at.chunk != |chunks| - 1 then Some(Relocation(|chunks| - 1, at.chunk)) else None
  }

  function LogicalValue<V>(
      view: seq<seq<Row<V>>>, strides: seq<nat>, at: Location, index: nat, initializer: V): Result<V, StateError>
    requires |strides| == |view|
  {
    if at.chunk >= |view| || at.row >= |view[at.chunk]| || index >= strides[at.chunk]
      then Err(StateNotInitialized(index))
    else if view[at.chunk][at.row].initialized && index < |view[at.chunk][at.row].values|
      then Ok(view[at.chunk][at.row].values[index])
    else Ok(initializer)
  }
}
