// The device arena and its state sidecar together (World::add_device and World::remove_device in
// hynergy-engine/src/lib.rs): whatever rows and chunks are swapped, the pair behaves as a map from
// device to state row.
module DeviceStates {
  import opened Support
  import opened StateStore
  import opened DeviceArena

  ghost function Fetch<T>(chunks: seq<seq<T>>, at: Location): T
    requires InRange(chunks, at)
  {
    chunks[at.chunk][at.row]
  }

  /** The state row of every device in the directory. */
  ghost function RowsOf<V>(directory: map<nat, Location>, view: seq<seq<Row<V>>>): map<nat, Row<V>> {
    map d | d in directory && InRange(view, directory[d]) :: Fetch(view, directory[d])
  }

  /** The sidecar has a row for every device, as wide as the device's definition says. */
  ghost predicate Paired<V>(
      layout: seq<seq<nat>>, definitions: seq<nat>, view: seq<seq<Row<V>>>, strides: seq<nat>, stateCounts: nat -> nat)
  {
    && SameShape(layout, view) && |definitions| == |strides| == |view|
    && forall c | 0 <= c < |strides| :: strides[c] == stateCounts(definitions[c])
  }

  /** The place behind the last row of a chunk, or at the start of a new one. */
  ghost predicate IsNextPlace(layout: seq<seq<nat>>, at: Location) {
    at == Location(|layout|, 0) || (at.chunk < |layout| && at.row == |layout[at.chunk]|)
  }

  /** Appending leaves every other device's row where it was. */
  lemma InsertRefines<V>(
      layout: seq<seq<nat>>, directory: map<nat, Location>, view: seq<seq<Row<V>>>, at: Location, device: nat,
      row: Row<V>)
    requires Indexed(layout, directory) && SameShape(layout, view) && device !in directory
    requires IsNextPlace(layout, at)
    ensures SameShape(InsertAt(layout, at, device), InsertAt(view, at, row))
    ensures RowsOf(directory[device := at], InsertAt(view, at, row)) == RowsOf(directory, view)[device := row]
  {
  }

  /** Where every other device is after a removal, and that its row came along. */
  lemma SurvivorKeepsRow<V>(
      layout: seq<seq<nat>>, directory: map<nat, Location>, view: seq<seq<Row<V>>>, at: Location,
      after: map<nat, Location>, d: nat)
    requires Indexed(layout, directory) && SameShape(layout, view) && InRange(layout, at)
    requires Indexed(RemoveAt(layout, at), after) && d in after
    ensures d in directory && InRange(view, directory[d]) && InRange(RemoveAt(view, at), after[d])
    ensures Fetch(RemoveAt(view, at), after[d]) == Fetch(view, directory[d])
  {
    RemovalKeepsShape(layout, view, at);
    RemovalMoves(layout, at, after[d]);
    RemovalMoves(view, at, after[d]);
    var was := Before(layout, at, after[d]);
    assert Locates(directory, layout[was.chunk][was.row], was);
  }

  /** Swap removal of a row and of an emptied chunk leaves every other device's row unchanged. */
  lemma RemoveRefines<V>(
      layout: seq<seq<nat>>, directory: map<nat, Location>, view: seq<seq<Row<V>>>, device: nat,
      after: map<nat, Location>)
    requires Indexed(layout, directory) && SameShape(layout, view) && device in directory
    requires Indexed(RemoveAt(layout, directory[device]), after) && after.Keys == directory.Keys - {device}
    ensures SameShape(RemoveAt(layout, directory[device]), RemoveAt(view, directory[device]))
    ensures RowsOf(after, RemoveAt(view, directory[device])) == RowsOf(directory, view) - {device}
  {
    var at := directory[device];
    var removed := RemoveAt(view, at);
    RemovalKeepsShape(layout, view, at);
    forall d | d in after
      ensures d in directory && InRange(view, directory[d]) && InRange(removed, after[d])
        && Fetch(removed, after[d]) == Fetch(view, directory[d])
    {
      SurvivorKeepsRow(layout, directory, view, at, after, d);
    }
    SameRows(directory, view, device, after, removed);
  }

  /** A new chunk, or the next row of one of the definition's. */
  ghost predicate IsPlaceFor(layout: seq<seq<nat>>, definitions: seq<nat>, definition: nat, place: InsertResult) {
    var at := place.location;
    if place.created then at == Location(|layout|, 0)
    else at.chunk < |layout| == |definitions| && at.row == |layout[at.chunk]| < CHUNK_ROWS
           && definitions[at.chunk] == definition
  }

  /** The sidecar follows an insertion of the arena. */
  lemma InsertKeepsPairing<V>(
      layout: seq<seq<nat>>, definitions: seq<nat>, view: seq<seq<Row<V>>>, strides: seq<nat>, stateCounts: nat -> nat,
      place: InsertResult, device: nat, definition: nat, row: Row<V>)
    requires Paired(layout, definitions, view, strides, stateCounts)
    requires IsPlaceFor(layout, definitions, definition, place)
    ensures Paired(
              InsertAt(layout, place.location, device),
              if place.created then definitions + [definition] else definitions,
              InsertAt(view, place.location, row),
              if place.created then strides + [stateCounts(definition)] else strides,
              stateCounts)
  {
  }

  function RemovedChunk<T>(layout: seq<seq<nat>>, at: Location, chunks: seq<T>): seq<T>
    requires at.chunk < |layout| == |chunks|
  {
    if |layout[at.chunk]| == 1 then SwapRemove(chunks, at.chunk) else chunks
  }

  /** The sidecar follows a removal of the arena step by step. */
  lemma RemovalKeepsPairing<V>(
      layout: seq<seq<nat>>, definitions: seq<nat>, view: seq<seq<Row<V>>>, strides: seq<nat>, stateCounts: nat -> nat,
      at: Location)
    requires Paired(layout, definitions, view, strides, stateCounts) && InRange(layout, at)
    ensures InRange(view, at) && ExpectedRelocation(layout, at) == ExpectedRelocation(view, at)
    ensures |view[at.chunk]| == |layout[at.chunk]|
    ensures Paired(RemoveAt(layout, at), RemovedChunk(layout, at, definitions), RemoveAt(view, at),
      RemovedChunk(layout, at, strides), stateCounts)
  {
    RemovalKeepsShape(layout, view, at);
  }

  lemma SameRows<V>(
      directory: map<nat, Location>, view: seq<seq<Row<V>>>, device: nat, after: map<nat, Location>,
      removed: seq<seq<Row<V>>>)
    requires after.Keys == directory.Keys - {device}
    requires forall d | d in after ::
               d in directory && InRange(view, directory[d]) && InRange(removed, after[d])
                 && Fetch(removed, after[d]) == Fetch(view, directory[d])
    ensures RowsOf(after, removed) == RowsOf(directory, view) - {device}
  {
    assert forall d :: d in RowsOf(after, removed) <==> d in after;
  }

  /** Writing one row changes one device's row. */
  lemma UpdateRefines<V>(
      layout: seq<seq<nat>>, directory: map<nat, Location>, view: seq<seq<Row<V>>>, device: nat, row: Row<V>)
    requires Indexed(layout, directory) && SameShape(layout, view) && device in directory
    ensures SameShape(layout, UpdateAt(view, directory[device], row))
    ensures RowsOf(directory, UpdateAt(view, directory[device], row)) == RowsOf(directory, view)[device := row]
  {
    forall d | d in directory && d != device ensures directory[d] != directory[device] {
      assert layout[directory[d].chunk][directory[d].row] == d;
    }
  }

  /** Writing a value and then marking the row changes one device's row, to the committed one. */
  lemma CommitRefines<V>(
      layout: seq<seq<nat>>, directory: map<nat, Location>, view: seq<seq<Row<V>>>, device: nat, index: nat, x: V,
      at: Location, written: seq<seq<Row<V>>>, marked: seq<seq<Row<V>>>)
    requires Indexed(layout, directory) && SameShape(layout, view)
    requires device in directory && at == directory[device] && InRange(view, at)
    requires written == UpdateAt(view, at, WithValue(Fetch(view, at), index, x))
    requires InRange(written, at) && marked == UpdateAt(written, at, Row(Fetch(written, at).values, true))
    ensures SameShape(layout, marked) && device in RowsOf(directory, view)
    ensures RowsOf(directory, marked) ==
            RowsOf(directory, view)[device := Row(WithValue(RowsOf(directory, view)[device], index, x).values, true)]
  {
    UpdateRefines(layout, directory, view, device, WithValue(Fetch(view, at), index, x));
    UpdateRefines(layout, directory, written, device, Row(Fetch(written, at).values, true));
  }

  class DeviceStates<V(==,!new)> {
    const arena: DeviceArena
    const store: PhysicalStateStore<V>
    /** The number of states of each registered definition. */
    const stateCounts: nat -> nat

    ghost predicate Valid()
      reads arena, store, store.Repr
    {
      && arena.Valid() && store.Valid() && arena as object !in store.Repr
      && Paired(arena.layout, arena.definitions, store.view, store.strides, stateCounts)
    }

    /** The abstract value. */
    ghost function States(): map<nat, Row<V>>
      reads arena, store
    {
      RowsOf(arena.directory, store.view)
    }

    /** Every device of the directory has a row, as wide as its definition's state count. */
    lemma EveryDeviceHasRow()
      requires Valid()
      ensures States().Keys == arena.directory.Keys
      ensures forall d | d in arena.directory ::
                arena.directory[d].chunk < |arena.definitions|
                && |States()[d].values| == stateCounts(arena.definitions[arena.directory[d].chunk])
    {
      forall d | d in arena.directory
        ensures InRange(store.view, arena.directory[d])
        ensures |Fetch(store.view, arena.directory[d]).values| == store.strides[arena.directory[d].chunk]
      {
        assert InRange(arena.layout, arena.directory[d]);
        store.RowsHaveStride(arena.directory[d]);
      }
    }

    constructor (zero: V, stateCounts: nat -> nat)
      ensures Valid() && States() == map[] && store.zero == zero && this.stateCounts == stateCounts
      ensures arena.entries == [] && fresh(arena) && fresh(store) && fresh(store.Repr)
    {
      arena := new DeviceArena();
      store := new PhysicalStateStore(zero);
      this.stateCounts := stateCounts;
    }

    /** What a binding with this initializer reads. */
    ghost function Reading(device: nat, index: nat, initializer: V): Result<V, StateError>
      requires Valid() && device in arena.directory
      reads arena, store, store.Repr
    {
      LogicalValue(store.view, store.strides, arena.directory[device], index, initializer)
    }

    /** The reading of a state is told by the map alone. */
    lemma ReadingIsOfRow(device: nat, index: nat, initializer: V)
      requires Valid() && device in arena.directory
      ensures device in States()
      ensures Reading(device, index, initializer) ==
                if index >= |States()[device].values| then Err(StateNotInitialized(index))
                else if States()[device].initialized then Ok(States()[device].values[index])
                else Ok(initializer)
    {
      EveryDeviceHasRow();
      store.RowsHaveStride(arena.directory[device]);
    }

    /** Each of the `count` states reads as the initializer of the binding, and there are no others. */
    ghost predicate ReadsInitializers(device: nat, count: nat)
      requires Valid() && device in arena.directory
      reads arena, store, store.Repr
    {
      forall index: nat, initializer :: Reading(device, index, initializer) ==
        if index < count then Ok(initializer) else Err(StateNotInitialized(index))
    }

    /** The state reads as `x`, whatever the initializer. */
    ghost predicate ReadsStored(device: nat, index: nat, x: V)
      requires Valid() && device in arena.directory
      reads arena, store, store.Repr
    {
      forall initializer :: Reading(device, index, initializer) == Ok(x)
    }

    lemma ReadingsOfFreshRow(device: nat, count: nat)
      requires Valid() && device in States() && States()[device] == Row(seq(count, _ => store.zero), false)
      ensures device in arena.directory && ReadsInitializers(device, count)
    {
      EveryDeviceHasRow();
      forall index: nat, initializer
        ensures Reading(device, index, initializer) ==
                if index < count then Ok(initializer) else Err(StateNotInitialized(index))
      {
        ReadingIsOfRow(device, index, initializer);
      }
    }

    lemma ReadingsOfWrittenState(device: nat, index: nat, x: V)
      requires Valid() && device in States() && States()[device].initialized
      requires index < |States()[device].values| && States()[device].values[index] == x
      ensures device in arena.directory && ReadsStored(device, index, x)
    {
      EveryDeviceHasRow();
      forall initializer ensures Reading(device, index, initializer) == Ok(x) {
        ReadingIsOfRow(device, index, initializer);
      }
    }

    /** Every chunk holds a device, so a device is refused only when there are as many as chunks. */
    lemma FewDevicesLeaveRoom(definition: nat)
      requires Valid()
      ensures |States()| < MAX_CHUNKS ==> !arena.Exhausted(definition)
    {
      EveryDeviceHasRow();
      ChunksAreFewerThanDevices(arena.layout, arena.directory);
      assert |States()| == |States().Keys| && |arena.directory| == |arena.directory.Keys|;
    }

    /** `read_logical` of a device's state. */
    method ReadState(device: nat, index: nat, initializer: V) returns (result: Result<V, StateError>)
      requires Valid() && device in arena.directory
      ensures device in States()
      ensures result == Reading(device, index, initializer)
    {
      ReadingIsOfRow(device, index, initializer);
      var at := arena.Locator(device).value;
      result := store.ReadLogical(at, index, initializer);
    }

    /** The sidecar's half of an insertion that the arena has already made. */
    method FollowInsertion(
        place: InsertResult, device: nat, definition: nat, ghost layout: seq<seq<nat>>, ghost definitions: seq<nat>)
      requires arena.Valid() && store.Valid() && arena as object !in store.Repr
      requires Paired(layout, definitions, store.view, store.strides, stateCounts)
      requires IsPlaceFor(layout, definitions, definition, place)
      requires arena.layout == InsertAt(layout, place.location, device)
      requires arena.definitions == if place.created then definitions + [definition] else definitions
      modifies store, store.Repr
      ensures Valid() && fresh(store.Repr - old(store.Repr))
      ensures store.view ==
              InsertAt(old(store.view), place.location, Row(seq(stateCounts(definition), _ => store.zero), false))
    {
      ghost var row := Row(seq(stateCounts(definition), _ => store.zero), false);
      InsertKeepsPairing(layout, definitions, store.view, store.strides, stateCounts, place, device, definition, row);
      store.AddDevice(place.location, place.created, stateCounts(definition));
    }

    /** The arena's insertion and, if there is one, the sidecar's at the same place. */
    method InsertBoth(device: nat, definition: nat) returns (inserted: Result<InsertResult, ArenaError>)
      requires Valid() && device !in arena.directory && device <= |arena.entries|
      modifies arena, store, store.Repr
      ensures Valid() && fresh(store.Repr - old(store.Repr))
      ensures inserted.Err? ==>
        inserted.error == DeviceArenaExhausted && arena.directory == old(arena.directory) && store.view == old(store.view)
      ensures inserted.Err? <==> old(arena.Exhausted(definition))
      ensures inserted.Ok? ==>
                && IsNextPlace(old(arena.layout), inserted.value.location)
                && arena.directory == old(arena.directory)[device := inserted.value.location]
                && store.view == InsertAt(
                     old(store.view), inserted.value.location, Row(seq(stateCounts(definition), _ => store.zero), false))
    {
      ghost var layout, definitions := arena.layout, arena.definitions;
      inserted := arena.Insert(device, definition);
      if inserted.Ok? {
        FollowInsertion(inserted.value, device, definition, layout, definitions);
      }
    }

    /** `add_device` with an unassigned device: a fresh row of zeros that is not initialised, so that
        every state reads as its initializer. It is refused only when every chunk is in use and none
        of the definition's has room, which takes a device for every chunk. */
    method AddDevice(device: nat, definition: nat) returns (result: Result<(), ArenaError>)
      requires Valid() && device !in arena.directory && device <= |arena.entries|
      modifies arena, store, store.Repr
      ensures Valid() && fresh(store.Repr - old(store.Repr))
      ensures result.Ok? ==>
        States() == old(States())[device := Row(seq(stateCounts(definition), _ => store.zero), false)]
      ensures result.Ok? ==> device in arena.directory && ReadsInitializers(device, stateCounts(definition))
      ensures result.Err? ==> result.error == DeviceArenaExhausted && States() == old(States())
      ensures result.Err? <==> old(arena.Exhausted(definition))
      ensures |old(States())| < MAX_CHUNKS ==> result.Ok?
    {
      ghost var layout, directory, view := arena.layout, arena.directory, store.view;
      ghost var row := Row(seq(stateCounts(definition), _ => store.zero), false);
      FewDevicesLeaveRoom(definition);
      var inserted := InsertBoth(device, definition);
      if inserted.Err? {
        return Err(inserted.error);
      }
      InsertRefines(layout, directory, view, inserted.value.location, device, row);
      ReadingsOfFreshRow(device, stateCounts(definition));
      result := Ok(());
    }

    /** `remove_device`: the device's row goes, every other device keeps its values and its bit. */
    method RemoveDevice(device: nat) returns (result: Result<(), ArenaError>)
      requires Valid()
      modifies arena, store, store.Repr
      ensures Valid() && store.Repr == old(store.Repr)
      ensures result == if device in old(arena.directory) then Ok(()) else Err(IdNotAssigned(device))
      ensures States() == old(States()) - {device}
    {
      ghost var layout, directory, view := arena.layout, arena.directory, store.view;
      var removal := arena.Remove(device);
      if removal.Err? {
        return Err(removal.error);
      }
      ghost var at, definitions, strides := removal.value.location, old(arena.definitions), store.strides;
      RemoveRefines(layout, directory, view, device, arena.directory);
      RemovalKeepsPairing(layout, definitions, view, strides, stateCounts, at);
      store.RemoveDevice(removal.value);
      assert store.strides == RemovedChunk(layout, at, strides) && store.view == RemoveAt(view, at);
      result := Ok(());
    }

    /** Commit one state of a device: write it, and mark the row initialised. */
    method CommitState(device: nat, index: nat, x: V)
      requires Valid() && device in arena.directory && index < store.strides[arena.directory[device].chunk]
      modifies store, store.Repr
      ensures Valid() && store.Repr == old(store.Repr)
      ensures device in old(States())
      ensures States() == old(States())[device := Row(WithValue(old(States())[device], index, x).values, true)]
      ensures device in arena.directory && ReadsStored(device, index, x)
    {
      var at := arena.Locator(device).value;
      ghost var view := store.view;
      assert InRange(arena.layout, at);
      store.RowsHaveStride(at);
      store.Write(at, index, x);
      ghost var written := store.view;
      store.MarkInitialized(at);
      CommitRefines(arena.layout, arena.directory, view, device, index, x, at, written, store.view);
      ReadingsOfWrittenState(device, index, x);
    }
  }
}
