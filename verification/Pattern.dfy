// Compressed sparse column patterns (hynergy-mna/src/pattern.rs): requested coordinates are
// sorted and deduplicated into consecutive slots, which can be looked up in both directions.
module Pattern {
  import opened Support

  const MAX_DIMENSION: nat := 0x7FFF_FFFF
  const U32_MAX: nat := U32_LIMIT - 1

  datatype PatternError =
    | DimensionTooLarge(dimension: nat, max: nat)
    | IndexOutOfBounds(index: nat, limit: nat)
    | TooManyNonZeros(nnz: nat, max: nat)

  /** A coordinate in storage order: column first. */
  datatype Coordinate = Coordinate(column: nat, row: nat) {
    predicate Before(other: Coordinate) {
      column < other.column || (column == other.column && row < other.row)
    }
  }

  ghost predicate StrictlySorted(s: seq<Coordinate>) {
    forall i, j | 0 <= i < j < |s| :: s[i].Before(s[j])
  }

  /** `sort_unstable` followed by `dedup`. */
  function SortedDistinctCoordinates(s: seq<Coordinate>): (r: seq<Coordinate>)
    ensures StrictlySorted(r)
    ensures forall x :: x in r <==> x in s
  {
    if s == [] then []
    else
      assert s == s[..|s| - 1] + [s[|s| - 1]];
      InsertCoordinate(SortedDistinctCoordinates(s[..|s| - 1]), s[|s| - 1])
  }

  function InsertCoordinate(s: seq<Coordinate>, x: Coordinate): (r: seq<Coordinate>)
    requires StrictlySorted(s)
    ensures StrictlySorted(r)
    ensures forall y :: y in r <==> y == x || y in s
  {
    if s == [] || s[|s| - 1].Before(x) then
      s + [x]
    else if s[|s| - 1] == x then s
    else
      var last := s[|s| - 1];
      assert s == s[..|s| - 1] + [last];
      var head := InsertCoordinate(s[..|s| - 1], x);
      HeadBeforeLast(head, s[..|s| - 1], x, last);
      head + [last]
  }

  lemma HeadBeforeLast(head: seq<Coordinate>, older: seq<Coordinate>, x: Coordinate, last: Coordinate)
    requires forall y :: y in head <==> y == x || y in older
    requires x.Before(last) && forall i | 0 <= i < |older| :: older[i].Before(last)
    ensures forall i | 0 <= i < |head| :: head[i].Before(last)
  {
    forall i | 0 <= i < |head| ensures head[i].Before(last) {
      assert head[i] in head;
    }
  }

  datatype MnaPattern = MnaPattern(columnPtrs: seq<nat>, rowIndices: seq<nat>) {
    function Dimension(): nat
      requires |columnPtrs| > 0
    {
      |columnPtrs| - 1
    }

    function Nnz(): nat { |rowIndices| }

    /** `assert_consistent`. */
    ghost predicate Valid() {
      && |columnPtrs| > 0 && Dimension() <= MAX_DIMENSION && Nnz() <= U32_MAX
      && columnPtrs[0] == 0 && columnPtrs[Dimension()] == Nnz()
      && (forall c, d | 0 <= c <= d < |columnPtrs| :: columnPtrs[c] <= columnPtrs[d])
      && (forall p | 0 <= p < |rowIndices| :: rowIndices[p] < Dimension())
      && (forall c | 0 <= c < Dimension() :: RowsAscend(c))
    }

    ghost predicate RowsAscend(c: nat) {
      && c + 1 < |columnPtrs| && columnPtrs[c] <= columnPtrs[c + 1] <= |rowIndices|
      && forall p, q | columnPtrs[c] <= p < q < columnPtrs[c + 1] :: rowIndices[p] < rowIndices[q]
    }

    /** `slot` stores the entry (row, column). */
    ghost predicate Stores(slot: nat, row: nat, column: nat) {
      && column + 1 < |columnPtrs|
      && columnPtrs[column] <= slot < columnPtrs[column + 1]
      && slot < |rowIndices| && rowIndices[slot] == row
    }

    /** `slot`: the slot of an entry, or None if the entry was not requested. */
    method Slot(row: nat, column: nat) returns (slot: Option<nat>)
      requires Valid()
      ensures slot.Some? ==> Stores(slot.value, row, column)
      ensures slot.None? ==> forall s: nat :: !Stores(s, row, column)
    {
      if row >= Dimension() || column >= Dimension() {
        return None;
      }
      assert RowsAscend(column);
      var start, end := columnPtrs[column], columnPtrs[column + 1];
      var rows := rowIndices[start..end];
      var relative := BinarySearch(rows, row);
      match relative {
        case None =>
          assert forall s | start <= s < end :: rowIndices[s] == rows[s - start] && rowIndices[s] in rows;
          return None;
        case Some(r) => return Some(start + r);
      }
    }

    /** `coordinate`: the entry of a slot. Columns without entries are skipped. */
    method CoordinateOf(slot: nat) returns (entry: Option<(nat, nat)>)
      requires Valid()
      ensures slot >= Nnz() ==> entry == None
      ensures slot < Nnz() ==> entry.Some? && Stores(slot, entry.value.0, entry.value.1)
    {
      if slot >= |rowIndices| {
        return None;
      }
      var low: nat, high: nat := 0, Dimension();
      while low < high
        invariant low <= high <= Dimension() && columnPtrs[low] <= slot
        invariant high < Dimension() ==> slot < columnPtrs[high + 1]
      {
        var middle := low + (high - low) / 2;
        if columnPtrs[middle + 1] <= slot {
          low := middle + 1;
        } else {
          high := middle;
        }
      }
      entry := Some((rowIndices[slot], low));
    }

    /** Slots and entries determine each other, also across empty columns. */
    lemma StoresIsABijection(slot: nat, row: nat, column: nat, otherSlot: nat, otherRow: nat, otherColumn: nat)
      requires Valid() && Stores(slot, row, column) && Stores(otherSlot, otherRow, otherColumn)
      ensures slot == otherSlot <==> row == otherRow && column == otherColumn
    {
      assert RowsAscend(column) && RowsAscend(otherColumn);
      if column < otherColumn {
        assert columnPtrs[column + 1] <= columnPtrs[otherColumn];
      } else if otherColumn < column {
        assert columnPtrs[otherColumn + 1] <= columnPtrs[column];
      } else if slot < otherSlot {
        assert rowIndices[slot] < rowIndices[otherSlot];
      } else if otherSlot < slot {
        assert rowIndices[otherSlot] < rowIndices[slot];
      }
    }

    /** Looking a slot up by the coordinate of a slot gives that slot back. */
    method CoordinateThenSlot(slot: nat) returns (again: Option<nat>)
      requires Valid() && slot < Nnz()
      ensures again == Some(slot)
    {
      var entry := CoordinateOf(slot);
      again := Slot(entry.value.0, entry.value.1);
      assert Stores(slot, entry.value.0, entry.value.1);
      StoresIsABijection(slot, entry.value.0, entry.value.1, again.value, entry.value.0, entry.value.1);
    }

    /** Looking an entry up by its slot gives that entry back. */
    method SlotThenCoordinate(row: nat, column: nat) returns (again: Option<(nat, nat)>)
      requires Valid() && exists s: nat :: Stores(s, row, column)
      ensures again == Some((row, column))
    {
      var slot := Slot(row, column);
      assert RowsAscend(column);
      again := CoordinateOf(slot.value);
      StoresIsABijection(slot.value, row, column, slot.value, again.value.0, again.value.1);
    }
  }

  /** `pattern` holds exactly the entries of `coordinates`. */
  ghost predicate Holds(pattern: MnaPattern, coordinates: seq<Coordinate>) {
    forall row: nat, column: nat ::
      (exists s: nat :: pattern.Stores(s, row, column)) <==> Coordinate(column, row) in coordinates
  }

  class PatternBuilder {
    const dimension: nat
    var coordinates: seq<Coordinate>

    ghost predicate Valid()
      reads this
    {
      && dimension <= MAX_DIMENSION
      && forall x | x in coordinates :: x.column < dimension && x.row < dimension
    }

    /** The last part of `with_capacity`, for a dimension that has been checked. */
    constructor Checked(dimension: nat)
      requires dimension <= MAX_DIMENSION
      ensures Valid() && this.dimension == dimension && coordinates == []
    {
      this.dimension := dimension;
      coordinates := [];
    }

    /** `new` and `with_capacity`. */
    static method New(dimension: nat) returns (result: Result<PatternBuilder, PatternError>)
      ensures dimension > MAX_DIMENSION ==> result == Err(DimensionTooLarge(dimension, MAX_DIMENSION))
      ensures dimension <= MAX_DIMENSION ==>
                result.Ok? && fresh(result.value) && result.value.Valid()
                && result.value.dimension == dimension && result.value.coordinates == []
    {
      if dimension > MAX_DIMENSION {
        return Err(DimensionTooLarge(dimension, MAX_DIMENSION));
      }
      var builder := new PatternBuilder.Checked(dimension);
      return Ok(builder);
    }

    method Request(row: nat, column: nat) returns (result: Result<(), PatternError>)
      requires Valid()
      modifies this
      ensures Valid()
      ensures row >= dimension ==> result == Err(IndexOutOfBounds(row, dimension)) && unchanged(this)
      ensures row < dimension <= column ==> result == Err(IndexOutOfBounds(column, dimension)) && unchanged(this)
      ensures row < dimension && column < dimension ==>
                result == Ok(()) && coordinates == old(coordinates) + [Coordinate(column, row)]
    {
      if row >= dimension { return Err(IndexOutOfBounds(row, dimension)); }
      if column >= dimension { return Err(IndexOutOfBounds(column, dimension)); }
      coordinates := coordinates + [Coordinate(column, row)];
      return Ok(());
    }

    /** `finish`: slots 0..nnz hold exactly the requested entries. */
    method Finish() returns (result: Result<MnaPattern, PatternError>)
      requires Valid()
      ensures var nnz := |SortedDistinctCoordinates(coordinates)|;
              && (nnz > U32_MAX ==> result == Err(TooManyNonZeros(nnz, U32_MAX)))
              && (nnz <= U32_MAX ==>
                    && result.Ok? && result.value.Valid()
                    && result.value.Nnz() == nnz && result.value.Dimension() == dimension
                    && Holds(result.value, coordinates))
    {
      var sorted := SortedDistinctCoordinates(coordinates);
      var nnz := |sorted|;
      if nnz > U32_MAX {
        return Err(TooManyNonZeros(nnz, U32_MAX));
      }
      var columnPtrs, rowIndices := FillColumns(sorted, dimension);
      result := Ok(MnaPattern(columnPtrs, rowIndices));
      DescribedIsValid(result.value, sorted, dimension);
      DescribedHolds(result.value, sorted, dimension);
    }
  }

  /** `pattern` lists `sorted`: pointer `c` separates the columns below `c` from the others. */
  ghost predicate Describes(columnPtrs: seq<nat>, rowIndices: seq<nat>, sorted: seq<Coordinate>, columns: nat) {
    && |columnPtrs| == columns && |rowIndices| <= |sorted|
    && (forall p | 0 <= p < |rowIndices| :: rowIndices[p] == sorted[p].row)
    && (forall c | 0 <= c < columns :: Separates(columnPtrs[c], sorted, c))
  }

  ghost predicate Separates(pointer: nat, sorted: seq<Coordinate>, c: nat) {
    pointer <= |sorted| && forall p | 0 <= p < |sorted| :: p < pointer <==> sorted[p].column < c
  }

  method FillColumns(sorted: seq<Coordinate>, dimension: nat) returns (columnPtrs: seq<nat>, rowIndices: seq<nat>)
    requires StrictlySorted(sorted) && forall x | x in sorted :: x.column < dimension
    ensures |rowIndices| == |sorted| && Describes(columnPtrs, rowIndices, sorted, dimension + 1)
  {
    columnPtrs, rowIndices := [], [];
    var position := 0;
    for column := 0 to dimension
      invariant position == |rowIndices| && Describes(columnPtrs, rowIndices, sorted, column)
      invariant Separates(position, sorted, column)
    {
      columnPtrs := columnPtrs + [position];
      while position < |sorted| && sorted[position].column == column
        invariant position == |rowIndices| && Describes(columnPtrs, rowIndices, sorted, column + 1)
        invariant forall p | 0 <= p < |sorted| && sorted[p].column < column :: p < position
        invariant forall p | 0 <= p < position :: sorted[p].column <= column
        decreases |sorted| - position
      {
        rowIndices := rowIndices + [sorted[position].row];
        position := position + 1;
      }
      SeparatesNext(sorted, position, column);
    }
    SeparatesAll(sorted, position, dimension);
    columnPtrs := columnPtrs + [|sorted|];
  }

  lemma SeparatesNext(sorted: seq<Coordinate>, position: nat, column: nat)
    requires StrictlySorted(sorted) && position <= |sorted|
    requires forall p | 0 <= p < |sorted| && sorted[p].column < column :: p < position
    requires forall p | 0 <= p < position :: sorted[p].column <= column
    requires position < |sorted| ==> sorted[position].column != column
    ensures Separates(position, sorted, column + 1)
  {
    forall p | position <= p < |sorted| ensures sorted[p].column > column {
      assert position < p ==> sorted[position].Before(sorted[p]);
    }
  }

  lemma SeparatesAll(sorted: seq<Coordinate>, position: nat, dimension: nat)
    requires Separates(position, sorted, dimension) && forall x | x in sorted :: x.column < dimension
    ensures position == |sorted|
  {
    if sorted != [] {
      assert sorted[|sorted| - 1] in sorted;
    }
  }

  lemma SeparatesNone(sorted: seq<Coordinate>, position: nat)
    requires Separates(position, sorted, 0)
    ensures position == 0
  {
    assert position > 0 ==> sorted[0].column < 0;
  }

  lemma DescribedIsValid(pattern: MnaPattern, sorted: seq<Coordinate>, dimension: nat)
    requires StrictlySorted(sorted) && forall x | x in sorted :: x.column < dimension && x.row < dimension
    requires dimension <= MAX_DIMENSION && |sorted| <= U32_MAX && |pattern.rowIndices| == |sorted|
    requires Describes(pattern.columnPtrs, pattern.rowIndices, sorted, dimension + 1)
    ensures pattern.Valid()
  {
    assert forall p | 0 <= p < |sorted| :: sorted[p] in sorted;
    SeparatesNone(sorted, pattern.columnPtrs[0]);
    SeparatesAll(sorted, pattern.columnPtrs[dimension], dimension);
    forall c, d | 0 <= c <= d < |pattern.columnPtrs| ensures pattern.columnPtrs[c] <= pattern.columnPtrs[d] {
      PointersAscend(pattern.columnPtrs[c], pattern.columnPtrs[d], sorted, c, d);
    }
    forall c | 0 <= c < dimension ensures pattern.RowsAscend(c) {
      assert Separates(pattern.columnPtrs[c], sorted, c) && Separates(pattern.columnPtrs[c + 1], sorted, c + 1);
    }
  }

  lemma PointersAscend(low: nat, high: nat, sorted: seq<Coordinate>, c: nat, d: nat)
    requires c <= d && Separates(low, sorted, c) && Separates(high, sorted, d)
    ensures low <= high
  {
    if low > 0 {
      assert sorted[low - 1].column < c;
    }
  }

  lemma DescribedHolds(pattern: MnaPattern, sorted: seq<Coordinate>, dimension: nat)
    requires forall x | x in sorted :: x.column < dimension && x.row < dimension
    requires |pattern.rowIndices| == |sorted|
    requires Describes(pattern.columnPtrs, pattern.rowIndices, sorted, dimension + 1)
    ensures Holds(pattern, sorted)
  {
    forall row: nat, column: nat
      ensures (exists s: nat :: pattern.Stores(s, row, column)) <==> Coordinate(column, row) in sorted
    {
      if s: nat :| pattern.Stores(s, row, column) {
        assert Separates(pattern.columnPtrs[column], sorted, column)
          && Separates(pattern.columnPtrs[column + 1], sorted, column + 1);
        assert sorted[s] == Coordinate(column, row);
      }
      if Coordinate(column, row) in sorted {
        var s :| 0 <= s < |sorted| && sorted[s] == Coordinate(column, row);
        assert Separates(pattern.columnPtrs[column], sorted, column)
          && Separates(pattern.columnPtrs[column + 1], sorted, column + 1);
        assert pattern.Stores(s, row, column);
      }
    }
  }
}
