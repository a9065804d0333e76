// The device arena (hynergy-model/src/network/device_arena.rs): chunks of devices with one
// definition each, a directory from device to location, and swap removal. With the state sidecar
// of the StateStore module it refines a map from device to state row.
module DeviceArena {
  import opened Support
  import opened StateStore

  datatype InsertResult = InsertResult(location: Location, created: bool)

  datatype ArenaError = IdNotAssigned(device: nat) | DeviceArenaExhausted

  // ----- Packed locators -----

  const UNASSIGNED: nat := 0
  const FIRST_UNLOADED_ENTRY: nat := 0x8000_0001

  predicate Packable(at: Location) {
    at.chunk < MAX_CHUNKS && at.row < CHUNK_ROWS
  }

  /** `DeviceDirectoryEntry::resident`: the locator, chunk index above six row bits, plus one. */
  function Resident(at: Location): (entry: nat)
    requires Packable(at)
    ensures UNASSIGNED < entry < FIRST_UNLOADED_ENTRY && Unpack(entry) == Some(at)
  {
    at.chunk * CHUNK_ROWS + at.row + 1
  }

  /** `resident_locator` of an entry. */
  function Unpack(entry: nat): Option<Location> {
    if entry == UNASSIGNED || entry >= FIRST_UNLOADED_ENTRY then None
    else Some(Location((entry - 1) / CHUNK_ROWS, (entry - 1) % CHUNK_ROWS))
  }

  /** The directory that a table of packed entries stands for. */
  ghost function DirectoryOf(entries: seq<nat>): map<nat, Location> {
    map d | 0 <= d < |entries| && Unpack(entries[d]).Some? :: Unpack(entries[d]).value
  }

  /** No entry is in the range of unloaded ones. */
  ghost predicate AllLoaded(entries: seq<nat>) {
    forall d | 0 <= d < |entries| :: entries[d] < FIRST_UNLOADED_ENTRY
  }

  ghost predicate Packs(entries: seq<nat>, directory: map<nat, Location>) {
    AllLoaded(entries) && directory == DirectoryOf(entries)
  }

  lemma PackOne(entries: seq<nat>, directory: map<nat, Location>, device: nat, at: Location)
    requires Packs(entries, directory) && device < |entries| && Packable(at)
    ensures Packs(entries[device := Resident(at)], directory[device := at])
  {
  }

  lemma PackNext(entries: seq<nat>, directory: map<nat, Location>, at: Location)
    requires Packs(entries, directory) && Packable(at)
    ensures Packs(entries + [Resident(at)], directory[|entries| := at])
  {
    var next := entries + [Resident(at)];
    assert forall d | 0 <= d < |entries| :: next[d] == entries[d];
    assert DirectoryOf(next) == directory[|entries| := at];
  }

  lemma UnpackOne(entries: seq<nat>, directory: map<nat, Location>, device: nat)
    requires Packs(entries, directory) && device < |entries|
    ensures Packs(entries[device := UNASSIGNED], Without(directory, device))
  {
  }

  // ----- The arena -----

  /** The directory locates exactly the devices of the layout. */
  ghost predicate Indexed(layout: seq<seq<nat>>, directory: map<nat, Location>) {
    && (forall c, r | 0 <= c < |layout| && 0 <= r < |layout[c]| :: Locates(directory, layout[c][r], Location(c, r)))
    && (forall d | d in directory :: InRange(layout, directory[d]) && layout[directory[d].chunk][directory[d].row] == d)
  }

  ghost predicate Locates(directory: map<nat, Location>, device: nat, at: Location) {
    device in directory && directory[device] == at
  }

  lemma InsertKeepsIndex(layout: seq<seq<nat>>, directory: map<nat, Location>, at: Location, device: nat)
    requires Indexed(layout, directory) && device !in directory
    requires (at == Location(|layout|, 0)) || (at.chunk < |layout| && at.row == |layout[at.chunk]|)
    ensures Indexed(InsertAt(layout, at, device), directory[device := at])
  {
    var next := InsertAt(layout, at, device);
    forall c, r | 0 <= c < |next| && 0 <= r < |next[c]|
      ensures Locates(directory[device := at], next[c][r], Location(c, r))
    {
      if Location(c, r) != at {
        assert next[c][r] == layout[c][r] && Locates(directory, layout[c][r], Location(c, r));
      }
    }
  }

  function Without(directory: map<nat, Location>, device: nat): map<nat, Location> {
    map d | d in directory && d != device :: directory[d]
  }

  /** The directory after swap removal in a chunk whose last row holds `moved`. */
  function Unindexed(
      directory: map<nat, Location>, device: nat, at: Location, last: nat, moved: nat): map<nat, Location>
  {
    if at.row != last then Without(directory, device)[moved := at] else Without(directory, device)
  }

  /** Removing within a chunk: the last row moves to the freed row. */
  lemma ShrinkKeepsIndex(layout: seq<seq<nat>>, directory: map<nat, Location>, at: Location)
    requires Indexed(layout, directory) && InRange(layout, at)
    ensures var device, last := layout[at.chunk][at.row], |layout[at.chunk]| - 1;
            var after := Unindexed(directory, device, at, last, layout[at.chunk][last]);
            && Indexed(Shrunk(layout, at), after)
            && device in directory && after.Keys == directory.Keys - {device}
  {
    var device, last := layout[at.chunk][at.row], |layout[at.chunk]| - 1;
    var moved := layout[at.chunk][last];
    var after := Unindexed(directory, device, at, last, moved);
    var next := Shrunk(layout, at);
    assert Locates(directory, device, at) && Locates(directory, moved, Location(at.chunk, last));
    forall c, r | 0 <= c < |next| && 0 <= r < |next[c]| ensures Locates(after, next[c][r], Location(c, r)) {
      if Location(c, r) != at {
        assert next[c][r] == layout[c][r] && Locates(directory, layout[c][r], Location(c, r));
      }
    }
    forall d | d in after ensures InRange(next, after[d]) && next[after[d].chunk][after[d].row] == d {
      assert (d == moved && at.row != last) || directory[d] == after[d];
    }
  }

  /** After an empty chunk is swap-removed, the devices of the moved chunk are re-indexed. */
  ghost predicate Reindexed(
      layout: seq<seq<nat>>, directory: map<nat, Location>, chunk: nat, rows: nat, after: map<nat, Location>)
    requires chunk < |layout| && rows <= |layout[|layout| - 1]|
  {
    && after.Keys == directory.Keys
    && forall d | d in directory :: after[d] ==
         if directory[d].chunk == |layout| - 1 && directory[d].row < rows then Location(chunk, directory[d].row)
           else directory[d]
  }

  lemma RelocationKeepsIndex(
      layout: seq<seq<nat>>, directory: map<nat, Location>, chunk: nat, after: map<nat, Location>)
    requires Indexed(layout, directory) && chunk < |layout| && layout[chunk] == []
    requires Reindexed(layout, directory, chunk, |layout[|layout| - 1]|, after)
    ensures Indexed(SwapRemove(layout, chunk), after)
  {
    var next := SwapRemove(layout, chunk);
    var last := |layout| - 1;
    forall c, r | 0 <= c < |next| && 0 <= r < |next[c]| ensures Locates(after, next[c][r], Location(c, r)) {
      var c' := if c == chunk then last else c;
      assert next[c] == layout[c'] && Locates(directory, layout[c'][r], Location(c', r));
    }
    forall d | d in after ensures InRange(next, after[d]) && next[after[d].chunk][after[d].row] == d {
      assert InRange(layout, directory[d]) && directory[d].chunk != chunk;
    }
  }

  /** A list after an emptied chunk is gone, and the move that makes. */
  function DropEmpty<T>(layout: seq<seq<nat>>, chunk: nat, list: seq<T>): seq<T>
    requires chunk < |layout| == |list|
  {
    if layout[chunk] == [] then SwapRemove(list, chunk) else list
  }

  function DropMove(layout: seq<seq<nat>>, chunk: nat): Option<Relocation>
    requires chunk < |layout|
  {
    if layout[chunk] == [] && chunk != |layout| - 1 then Some(Relocation(|layout| - 1, chunk)) else None
  }

  function Shrunk(layout: seq<seq<nat>>, at: Location): seq<seq<nat>>
    requires at.chunk < |layout| && at.row < |layout[at.chunk]|
  {
    layout[at.chunk := SwapRemove(layout[at.chunk], at.row)]
  }

  /** Removal shrinks the chunk first, and drops it if nothing is left. */
  lemma RemovalInSteps(layout: seq<seq<nat>>, at: Location)
    requires InRange(layout, at)
    ensures |Shrunk(layout, at)| == |layout| && |Shrunk(layout, at)[at.chunk]| == |layout[at.chunk]| - 1
    ensures RemoveAt(layout, at) == DropEmpty(Shrunk(layout, at), at.chunk, Shrunk(layout, at))
    ensures ExpectedRelocation(layout, at) == DropMove(Shrunk(layout, at), at.chunk)
  {
  }

  ghost predicate Bounded(layout: seq<seq<nat>>) {
    |layout| <= MAX_CHUNKS && forall c | 0 <= c < |layout| :: |layout[c]| <= CHUNK_ROWS
  }

  lemma InsertKeepsBounds(layout: seq<seq<nat>>, at: Location, device: nat)
    requires Bounded(layout) && Packable(at) && at.chunk <= |layout|
    requires at.chunk < |layout| ==> at.row == |layout[at.chunk]|
    ensures Bounded(InsertAt(layout, at, device))
  {
  }

  /** The first device of each of the first `n` chunks. */
  ghost function Heads(layout: seq<seq<nat>>, n: nat): set<nat>
    requires n <= |layout| && forall c | 0 <= c < n :: 1 <= |layout[c]|
  {
    set c | 0 <= c < n :: layout[c][0]
  }

  /** Chunks are never empty, so there are at least as many devices as chunks. */
  lemma {:induction false} HeadsAreDistinct(layout: seq<seq<nat>>, directory: map<nat, Location>, n: nat)
    requires Indexed(layout, directory) && n <= |layout| && forall c | 0 <= c < |layout| :: 1 <= |layout[c]|
    ensures |Heads(layout, n)| == n && Heads(layout, n) <= directory.Keys
  {
    if n > 0 {
      HeadsAreDistinct(layout, directory, n - 1);
      assert Locates(directory, layout[n - 1][0], Location(n - 1, 0));
      forall c | 0 <= c < n - 1 ensures layout[c][0] != layout[n - 1][0] {
        assert Locates(directory, layout[c][0], Location(c, 0));
      }
      assert Heads(layout, n) == Heads(layout, n - 1) + {layout[n - 1][0]};
    }
  }

  lemma ChunksAreFewerThanDevices(layout: seq<seq<nat>>, directory: map<nat, Location>)
    requires Indexed(layout, directory) && forall c | 0 <= c < |layout| :: 1 <= |layout[c]|
    ensures |layout| <= |directory|
  {
    HeadsAreDistinct(layout, directory, |layout|);
    SubsetIsSmaller(Heads(layout, |layout|), directory.Keys);
  }

  lemma {:induction false} SubsetIsSmaller<T>(a: set<T>, b: set<T>)
    requires a <= b
    ensures |a| <= |b|
  {
    if x :| x in a {
      SubsetIsSmaller(a - {x}, b - {x});
    }
  }

  /** The device that fills the gap of a removed one. */
  function Filler(layout: seq<seq<nat>>, at: Location): Option<nat>
    requires InRange(layout, at)
  {
    if at.row == |layout[at.chunk]| - 1 then None else Some(layout[at.chunk][|layout[at.chunk]| - 1])
  }

  /** The chunk list is held as two parallel vectors: each chunk's definition, and its devices. */
  class DeviceArena {
    var definitions: seq<nat>
    var layout: seq<seq<nat>>
    /** One packed entry for each device identifier ever used. */
    var entries: seq<nat>
    /** What the entries stand for. */
    ghost var directory: map<nat, Location>
    var active: map<nat, nat>

    ghost predicate Valid()
      reads this
    {
      && |definitions| == |layout| && Bounded(layout) && Indexed(layout, directory) && Packs(entries, directory)
      && forall c | 0 <= c < |layout| :: 1 <= |layout[c]|
    }

    constructor ()
      ensures Valid() && layout == [] && entries == []
    {
      definitions, layout, entries, directory, active := [], [], [], map[], map[];
    }

    /** `resident_locator`. */
    function Locator(device: nat): (locator: Result<Location, ArenaError>)
      requires Packs(entries, directory)
      reads this
      ensures device in directory ==> locator == Ok(directory[device])
      ensures device !in directory ==> locator == Err(IdNotAssigned(device))
    {
      if device < |entries| && Unpack(entries[device]).Some? then Ok(Unpack(entries[device]).value)
      else Err(IdNotAssigned(device))
    }

    predicate HasRoom(c: nat, definition: nat)
      reads this`layout, this`definitions
    {
      c < |layout| && c < |definitions| && definitions[c] == definition && |layout[c]| < CHUNK_ROWS
    }

    /** Every chunk is used and none takes another device of the definition. */
    ghost predicate Exhausted(definition: nat)
      reads this`layout, this`definitions
    {
      |layout| == MAX_CHUNKS && AllFull(definition)
    }

    ghost predicate AllFull(definition: nat)
      reads this`layout, this`definitions
    {
      forall c: nat :: !HasRoom(c, definition)
    }

    /** `insertion_chunk`: the hinted chunk if it still has room, else the first that has. */
    method InsertionChunk(definition: nat) returns (found: Option<nat>)
      modifies this`active
      ensures found.Some? ==> HasRoom(found.value, definition)
      ensures found.None? <==> AllFull(definition)
    {
      if definition in active {
        var hint := active[definition];
        if HasRoom(hint, definition) {
          assert !AllFull(definition);
          return Some(hint);
        }
        active := active - {definition};
      }
      for c := 0 to |layout|
        invariant forall d: nat | d < c :: !HasRoom(d, definition)
      {
        if HasRoom(c, definition) {
          active := active[definition := c];
          assert HasRoom(c, definition);
          return Some(c);
        }
      }
      return None;
    }

    /** Write the entry of an unassigned device, which may be the first unused identifier. */
    method Record(device: nat, at: Location)
      requires Packs(entries, directory) && device <= |entries| && Packable(at)
      modifies this`entries, this`directory
      ensures Packs(entries, directory) && directory == old(directory)[device := at]
      ensures |entries| == if device == |old(entries)| then device + 1 else |old(entries)|
    {
      if device == |entries| {
        PackNext(entries, directory, at);
        entries := entries + [Resident(at)];
        directory := directory[device := at];
      } else {
        Assign(device, at);
      }
    }

    /** A place at which a device of the definition can be inserted. */
    predicate Prepared(definition: nat, place: InsertResult)
      reads this
    {
      var at := place.location;
      && Packable(at) && place.created == (at.chunk == |layout|)
      && (place.created ==> at.row == 0)
      && (!place.created ==> at.chunk < |layout| == |definitions| && at.row == |layout[at.chunk]|)
      && (!place.created ==> definitions[at.chunk] == definition)
    }

    /** `prepare_insert`. */
    method PrepareInsert(definition: nat) returns (place: Result<InsertResult, ArenaError>)
      requires Valid()
      modifies this`active
      ensures place.Ok? ==> Prepared(definition, place.value)
      ensures place.Err? ==> place.error == DeviceArenaExhausted
      ensures place.Err? <==> Exhausted(definition)
      ensures place.Ok? ==> (place.value.created <==> AllFull(definition))
    {
      var found := InsertionChunk(definition);
      if found.Some? {
        return Ok(InsertResult(Location(found.value, |layout[found.value]|), false));
      }
      if |layout| >= MAX_CHUNKS {
        return Err(DeviceArenaExhausted);
      }
      return Ok(InsertResult(Location(|layout|, 0), true));
    }

    /** `commit_insert`. */
    method CommitInsert(device: nat, definition: nat, place: InsertResult)
      requires Valid() && Prepared(definition, place) && device !in directory && device <= |entries|
      modifies this
      ensures Valid() && layout == InsertAt(old(layout), place.location, device)
      ensures directory == old(directory)[device := place.location]
      ensures |entries| == if device == |old(entries)| then device + 1 else |old(entries)|
      ensures definitions == if place.created then old(definitions) + [definition] else old(definitions)
    {
      var at := place.location;
      InsertKeepsIndex(layout, directory, at, device);
      InsertKeepsBounds(layout, at, device);
      if place.created {
        definitions, layout := definitions + [definition], layout + [[device]];
      } else {
        layout := layout[at.chunk := layout[at.chunk] + [device]];
      }
      Record(device, at);
      active := if |layout[at.chunk]| == CHUNK_ROWS then active - {definition} else active[definition := at.chunk];
    }

    /** The two halves of an insertion. */
    method Insert(device: nat, definition: nat) returns (result: Result<InsertResult, ArenaError>)
      requires Valid() && device !in directory && device <= |entries|
      modifies this
      ensures Valid()
      ensures result.Err? ==>
                && result.error == DeviceArenaExhausted && entries == old(entries)
                && definitions == old(definitions) && layout == old(layout) && directory == old(directory)
      ensures result.Err? <==> old(Exhausted(definition))
      ensures result.Ok? ==> (result.value.created <==> old(AllFull(definition)))
      ensures result.Ok? ==>
                && old(Prepared(definition, result.value))
                && layout == InsertAt(old(layout), result.value.location, device)
                && directory == old(directory)[device := result.value.location]
                && |entries| == (if device == |old(entries)| then device + 1 else |old(entries)|)
                && definitions == if result.value.created then old(definitions) + [definition] else old(definitions)
    {
      result := PrepareInsert(definition);
      if result.Ok? {
        CommitInsert(device, definition, result.value);
      }
    }

    /** `remove`: the last row of the chunk fills the gap, and an emptied chunk is replaced by the
        last chunk, whose devices are all re-indexed. */
    method Remove(device: nat) returns (result: Result<RemoveResult, ArenaError>)
      requires Valid()
      modifies this
      ensures Valid()
      ensures device !in old(directory) ==> result == Err(IdNotAssigned(device)) && unchanged(this)
      ensures device in old(directory) ==>
                var at := old(directory)[device];
                && result.Ok? && result.value.location == at && InRange(old(layout), at)
                && result.value.relocation == ExpectedRelocation(old(layout), at)
                && result.value.movedDevice == Filler(old(layout), at)
                && layout == RemoveAt(old(layout), at)
                && directory.Keys == old(directory).Keys - {device} && |entries| == |old(entries)|
                && definitions == if |old(layout)[at.chunk]| == 1 then SwapRemove(old(definitions), at.chunk)
                  else old(definitions)
    {
      var locator := Locator(device);
      if locator.Err? {
        return locator.PropagateFailure();
      }
      var at := locator.value;
      assert InRange(layout, at) && layout[at.chunk][at.row] == device;
      var removal := RemoveLocated(at, device);
      result := Ok(removal);
    }

    method RemoveLocated(at: Location, device: nat) returns (removal: RemoveResult)
      requires Valid() && InRange(layout, at) && layout[at.chunk][at.row] == device
      modifies this
      ensures Valid() && removal.location == at && removal.relocation == ExpectedRelocation(old(layout), at)
      ensures removal.movedDevice == Filler(old(layout), at)
      ensures layout == RemoveAt(old(layout), at) && directory.Keys == old(directory).Keys - {device}
        && |entries| == |old(entries)|
      ensures definitions == if |old(layout)[at.chunk]| == 1 then SwapRemove(old(definitions), at.chunk)
        else old(definitions)
    {
      ghost var shrunk := Shrunk(layout, at);
      RemovalInSteps(layout, at);
      var moved := TakeRow(at, device);
      assert layout == shrunk;
      var relocation := DropIfEmpty(at.chunk);
      removal := RemoveResult(at, moved, relocation);
    }

    /** After a row was taken from a chunk: refresh its hint, or swap-remove it once it is empty. */
    method DropIfEmpty(chunk: nat) returns (relocation: Option<Relocation>)
      requires |definitions| == |layout| && chunk < |layout| && Bounded(layout)
      requires Indexed(layout, directory) && Packs(entries, directory)
      requires forall c | 0 <= c < |layout| && c != chunk :: 1 <= |layout[c]|
      modifies this
      ensures Valid() && directory.Keys == old(directory).Keys && |entries| == |old(entries)|
      ensures layout == DropEmpty(old(layout), chunk, old(layout))
      ensures definitions == DropEmpty(old(layout), chunk, old(definitions))
      ensures relocation == DropMove(old(layout), chunk)
    {
      if layout[chunk] != [] {
        active := active[definitions[chunk] := chunk];
        return None;
      }
      relocation := DropChunk(chunk);
    }

    /** `DeviceChunk::remove_row` and the directory updates that go with it. */
    method TakeRow(at: Location, device: nat) returns (moved: Option<nat>)
      requires Indexed(layout, directory) && Packs(entries, directory) && Bounded(layout)
      requires InRange(layout, at) && layout[at.chunk][at.row] == device
      modifies this`layout, this`entries, this`directory
      ensures layout == Shrunk(old(layout), at) && Bounded(layout) && moved == Filler(old(layout), at)
      ensures Indexed(layout, directory) && directory.Keys == old(directory).Keys - {device}
      ensures Packs(entries, directory) && |entries| == |old(entries)|
    {
      ShrinkKeepsIndex(layout, directory, at);
      var last := |layout[at.chunk]| - 1;
      var lastDevice := layout[at.chunk][last];
      layout := layout[at.chunk := SwapRemove(layout[at.chunk], at.row)];
      Unassign(device);
      moved := None;
      if at.row != last {
        Assign(lastDevice, at);
        moved := Some(lastDevice);
      }
    }

    /** Overwrite the entry of a device. */
    method Assign(device: nat, at: Location)
      requires Packs(entries, directory) && device < |entries| && Packable(at)
      modifies this`entries, this`directory
      ensures Packs(entries, directory) && |entries| == |old(entries)|
      ensures directory == old(directory)[device := at]
    {
      PackOne(entries, directory, device, at);
      entries := entries[device := Resident(at)];
      directory := directory[device := at];
    }

    method Unassign(device: nat)
      requires Packs(entries, directory) && device < |entries|
      modifies this`entries, this`directory
      ensures Packs(entries, directory) && |entries| == |old(entries)|
      ensures directory == Without(old(directory), device)
    {
      UnpackOne(entries, directory, device);
      entries := entries[device := UNASSIGNED];
      directory := Without(directory, device);
    }

    /** Swap-remove an emptied chunk. */
    method DropChunk(chunk: nat) returns (relocation: Option<Relocation>)
      requires |definitions| == |layout| && chunk < |layout| && Bounded(layout)
      requires layout[chunk] == [] && Indexed(layout, directory) && Packs(entries, directory)
      requires forall c | 0 <= c < |layout| && c != chunk :: 1 <= |layout[c]|
      modifies this
      ensures Valid() && directory.Keys == old(directory).Keys && |entries| == |old(entries)|
      ensures layout == SwapRemove(old(layout), chunk) && definitions == SwapRemove(old(definitions), chunk)
      ensures relocation == if chunk == |old(layout)| - 1 then None else Some(Relocation(|old(layout)| - 1, chunk))
    {
      var definition := definitions[chunk];
      if definition in active && active[definition] == chunk {
        active := active - {definition};
      }
      var last := |layout| - 1;
      if chunk == last {
        RelocationKeepsIndex(layout, directory, chunk, directory);
        definitions, layout := SwapRemove(definitions, chunk), SwapRemove(layout, chunk);
        return None;
      }
      var movedDefinition := definitions[last];
      Reindex(chunk, layout[last]);
      definitions, layout := SwapRemove(definitions, chunk), SwapRemove(layout, chunk);
      if movedDefinition in active && active[movedDefinition] == last {
        active := active[movedDefinition := chunk];
      }
      return Some(Relocation(last, chunk));
    }

    method ReindexRow(chunk: nat, row: nat, device: nat, ghost before: map<nat, Location>)
      requires chunk < |layout| && Bounded(layout) && Indexed(layout, before) && Packs(entries, directory)
      requires row < |layout[|layout| - 1]| && device == layout[|layout| - 1][row]
      requires Reindexed(layout, before, chunk, row, directory)
      modifies this`entries, this`directory
      ensures Reindexed(layout, before, chunk, row + 1, directory)
      ensures Packs(entries, directory) && |entries| == |old(entries)|
    {
      ghost var fixed, previous := layout, directory;
      assert Locates(before, device, Location(|layout| - 1, row));
      ReindexOne(fixed, before, chunk, row, previous);
      Assign(device, Location(chunk, row));
      assert layout == fixed && directory == previous[device := Location(chunk, row)];
    }

    /** Re-index the devices of the last chunk, which is about to move to position `chunk`. */
    method Reindex(chunk: nat, devices: seq<nat>)
      requires chunk < |layout| - 1 && layout[chunk] == [] && Indexed(layout, directory)
      requires devices == layout[|layout| - 1] && Bounded(layout) && Packs(entries, directory)
      modifies this`entries, this`directory
      ensures Indexed(SwapRemove(layout, chunk), directory) && directory.Keys == old(directory).Keys
      ensures Packs(entries, directory) && |entries| == |old(entries)|
    {
      ghost var fixed, before := layout, directory;
      for row := 0 to |devices|
        invariant Reindexed(fixed, before, chunk, row, directory)
        invariant Packs(entries, directory) && |entries| == |old(entries)|
      {
        ReindexRow(chunk, row, devices[row], before);
      }
      RelocationKeepsIndex(fixed, before, chunk, directory);
    }
  }

  lemma ReindexOne(
      layout: seq<seq<nat>>, before: map<nat, Location>, chunk: nat, row: nat, directory: map<nat, Location>)
    requires Indexed(layout, before) && chunk < |layout| && row < |layout[|layout| - 1]|
    requires Reindexed(layout, before, chunk, row, directory)
    ensures Reindexed(layout, before, chunk, row + 1, directory[layout[|layout| - 1][row] := Location(chunk, row)])
  {
    var last := |layout| - 1;
    assert Locates(before, layout[last][row], Location(last, row));
    forall d | d in before && d != layout[last][row] ensures before[d] != Location(last, row) {
      assert layout[before[d].chunk][before[d].row] == d;
    }
  }
}
