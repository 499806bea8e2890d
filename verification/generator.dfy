/**
 The imperative `DiffPatchGenerator`: the flat table filled by loops, the
 do-while walk that pushes onto a stack, the pop loop, and the foreach
 compressor, each shown to compute what the functional model defines.
 */
module DiffPatchGenerator {
  import opened Actions
  import opened Lcs
  import opened Patch
  import opened Compress
  import Backtrack
  import DiffPatch

  /** Position of row `r`, column `c` in a row-major table `columns` wide. */
  function FlatIndex(rows: nat, columns: nat, r: nat, c: nat): (i: nat)
    requires r < rows && c < columns
    ensures i < rows * columns
    ensures i / columns == r && i % columns == c
  {
    assert r * columns + c < (r + 1) * columns <= rows * columns by {
      assert (r + 1) * columns == r * columns + columns;
      assert r + 1 <= rows;
      MultiplyMonotonic(r + 1, rows, columns);
    }
    DivModOfFlat(r, c, columns);
    r * columns + c
  }

  lemma MultiplyMonotonic(a: nat, b: nat, k: nat)
    requires a <= b
    ensures a * k <= b * k
  {
    assert b * k == a * k + (b - a) * k;
  }

  lemma DivModOfFlat(r: nat, c: nat, columns: nat)
    requires c < columns
    ensures (r * columns + c) / columns == r && (r * columns + c) % columns == c
  {
    var n := r * columns + c;
    var q, m := n / columns, n % columns;
    assert n == q * columns + m && 0 <= m < columns;
    if q > r {
      MultiplyMonotonic(1, q - r, columns);
      assert false;
    } else if q < r {
      MultiplyMonotonic(1, r - q, columns);
      assert false;
    }
  }

  /**
   The whole table: every entry holds the LCS length of the destination
   prefix of its row and the source prefix of its column.
   */
  method FillCellMatrix<T(==)>(source: seq<T>, destination: seq<T>) returns (cells: seq<nat>)
    ensures |cells| == (|destination| + 1) * (|source| + 1)
    ensures forall r, c :: 0 <= r <= |destination| && 0 <= c <= |source| ==>
      cells[FlatIndex(|destination| + 1, |source| + 1, r, c)] == Cell(source, destination, r, c)
  {
    var rows, columns := |destination| + 1, |source| + 1;
    // Entries not yet written hold rows + columns, which exceeds every LCS length of the table.
    cells := seq(rows * columns, _ => rows + columns);
    cells := cells[FlatIndex(rows, columns, 0, 0) := 0];
    // Row 0: the empty destination prefix.
    var column := 1;
    while column < columns
      invariant 1 <= column <= columns
      invariant |cells| == rows * columns
      invariant forall r, c :: 0 <= r < rows && 0 <= c < columns && r == 0 && c < column ==>
        cells[FlatIndex(rows, columns, r, c)] == 0
    {
      cells := cells[FlatIndex(rows, columns, 0, column) := 0];
      column := column + 1;
    }
    // Column 0: the empty source prefix.
    var row := 1;
    while row < rows
      invariant 1 <= row <= rows
      invariant |cells| == rows * columns
      invariant forall r, c :: 0 <= r < rows && 0 <= c < columns && (r == 0 || (c == 0 && r < row)) ==>
        cells[FlatIndex(rows, columns, r, c)] == 0
    {
      cells := cells[FlatIndex(rows, columns, row, 0) := 0];
      row := row + 1;
    }
    // The interior, row by row, each entry from its three earlier neighbours.
    row := 1;
    while row < rows
      invariant 1 <= row <= rows
      invariant |cells| == rows * columns
      invariant forall r, c :: 0 <= r < rows && 0 <= c < columns && (r < row || c == 0) ==>
        cells[FlatIndex(rows, columns, r, c)] == Cell(source, destination, r, c)
    {
      cells := FillRow(source, destination, cells, row);
      row := row + 1;
    }
  }

  /** One interior row of the table, left to right, given every earlier row and column 0. */
  method FillRow<T(==)>(source: seq<T>, destination: seq<T>, cells: seq<nat>, row: nat) returns (filled: seq<nat>)
    requires 1 <= row <= |destination|
    requires |cells| == (|destination| + 1) * (|source| + 1)
    requires forall r, c :: 0 <= r <= |destination| && 0 <= c <= |source| && (r < row || c == 0) ==>
      cells[FlatIndex(|destination| + 1, |source| + 1, r, c)] == Cell(source, destination, r, c)
    ensures |filled| == |cells|
    ensures forall r, c :: 0 <= r <= |destination| && 0 <= c <= |source| && (r <= row || c == 0) ==>
      filled[FlatIndex(|destination| + 1, |source| + 1, r, c)] == Cell(source, destination, r, c)
  {
    var rows, columns := |destination| + 1, |source| + 1;
    assert |cells| == rows * columns;
    filled := cells;
    var column := 1;
    while column < columns
      invariant 1 <= column <= columns
      invariant |filled| == rows * columns
      invariant forall r, c :: 0 <= r < rows && 0 <= c < columns && (r < row || (r == row && c < column) || c == 0) ==>
        filled[FlatIndex(rows, columns, r, c)] == Cell(source, destination, r, c)
    {
      var lcs: nat;
      if destination[row - 1] == source[column - 1] {
        lcs := filled[FlatIndex(rows, columns, row - 1, column - 1)] + 1;
      } else {
        var upper := filled[FlatIndex(rows, columns, row - 1, column)];
        var left := filled[FlatIndex(rows, columns, row, column - 1)];
        lcs := if left > upper then left else upper;
      }
      filled := filled[FlatIndex(rows, columns, row, column) := lcs];
      column := column + 1;
    }
  }

  /** The entry at row `r`, column `c` of a flat table. */
  function Entry(cells: seq<nat>, rows: nat, columns: nat, r: nat, c: nat): nat
    requires |cells| == rows * columns && r < rows && c < columns
  {
    cells[FlatIndex(rows, columns, r, c)]
  }

  /** The entries above and to the left of row `r`, column `c` of a filled table. */
  lemma Neighbours<T>(source: seq<T>, destination: seq<T>, cells: seq<nat>, r: nat, c: nat)
    requires |cells| == (|destination| + 1) * (|source| + 1)
    requires forall r, c :: 0 <= r <= |destination| && 0 <= c <= |source| ==>
      cells[FlatIndex(|destination| + 1, |source| + 1, r, c)] == Cell(source, destination, r, c)
    requires r <= |destination| && c <= |source|
    ensures r > 0 ==> Entry(cells, |destination| + 1, |source| + 1, r - 1, c) == Backtrack.UpperLcs(source, destination, r, c)
    ensures c > 0 ==> Entry(cells, |destination| + 1, |source| + 1, r, c - 1) == Backtrack.LeftLcs(source, destination, r, c)
  {
  }

  /**
   The do-while walk of `ProduceDiff` over a filled table: from the last entry
   to the origin, one action pushed per move. The stack, bottom first, holds
   the functional walk.
   */
  method PushWalk<T(==)>(source: seq<T>, destination: seq<T>, cells: seq<nat>) returns (stack: seq<CellAction<T>>)
    requires |cells| == (|destination| + 1) * (|source| + 1)
    requires forall r, c :: 0 <= r <= |destination| && 0 <= c <= |source| ==>
      cells[FlatIndex(|destination| + 1, |source| + 1, r, c)] == Cell(source, destination, r, c)
    ensures stack == Backtrack.Walk(source, destination, |destination|, |source|)
  {
    var rows, columns := |destination| + 1, |source| + 1;
    ghost var whole := Backtrack.Walk(source, destination, |destination|, |source|);
    assert |cells| == rows * columns;
    stack := [];
    var row: nat, column: nat := rows - 1, columns - 1;
    while true
      invariant row < rows && column < columns
      invariant stack + Backtrack.Walk(source, destination, row, column) == whole
      decreases row + column
    {
      if row == 0 && column == 0 {
        break;
      }
      // The neighbours above and to the left, with -1 outside the table.
      Neighbours(source, destination, cells, row, column);
      var upper := if row == 0 then -1 else Entry(cells, rows, columns, row - 1, column);
      var left := if column == 0 then -1 else Entry(cells, rows, columns, row, column - 1);
      var direction := if upper == left then Backtrack.Diagonal else if upper > left then Backtrack.Up else Backtrack.Left;
      assert direction == Backtrack.GetDirection(source, destination, row, column);
      var action := Backtrack.StepAction(source, destination, row, column, direction);
      var nextRow, nextColumn := Backtrack.NextRow(row, direction), Backtrack.NextColumn(column, direction);
      Backtrack.WalkUnfold(source, destination, row, column);
      Associate(stack, [action], Backtrack.Walk(source, destination, nextRow, nextColumn));
      stack := stack + [action];
      row, column := nextRow, nextColumn;
    }
  }

  /** Popping every element off a stack (top last) into a list: the list is the stack reversed. */
  method PopAll<X>(stack: seq<X>) returns (resultList: seq<X>)
    ensures resultList == Backtrack.Reverse(stack)
  {
    var rest := stack;
    resultList := [];
    var length := |stack|;
    var index := 0;
    while index < length
      invariant 0 <= index <= length
      invariant rest == stack[..length - index]
      invariant |resultList| == index
      invariant forall j :: 0 <= j < index ==> resultList[j] == stack[length - 1 - j]
    {
      var cellAction := rest[|rest| - 1];
      rest := rest[..|rest| - 1];
      resultList := resultList + [cellAction];
      index := index + 1;
    }
  }

  /**
   The backtracker over the filled table followed by the stack reversal. The
   result is the functional model's forward trace, so it lists the whole
   source through its source-consuming steps and the whole destination
   through its destination-producing steps.
   */
  method ProduceDiff<T(==)>(source: seq<T>, destination: seq<T>) returns (resultList: seq<CellAction<T>>)
    ensures resultList == Backtrack.ProduceDiff(source, destination)
    ensures SourceOf(resultList) == source && DestinationOf(resultList) == destination
  {
    var cells := FillCellMatrix(source, destination);
    var stack := PushWalk(source, destination, cells);
    resultList := PopAll(stack);
    Backtrack.ProduceDiffConsumesInputs(source, destination);
  }

  /**
   The foreach compressor: one pass over the trace, closing the open chunk
   whenever the kind changes and emitting it unless it is a run of Same
   steps. The result is the functional compressor's, and so replays the
   trace.
   */
  method ProducePatch<T>(diffActions: seq<CellAction<T>>) returns (patchActions: seq<DiffPatchAction<T>>)
    ensures patchActions == Compress.ProducePatch(diffActions)
    ensures SameStepsAgree(diffActions) ==> Apply(SourceOf(diffActions), patchActions) == Some(DestinationOf(diffActions))
  {
    patchActions := [];
    var items: seq<T> := [];
    var currentDiffActionType := DiffActionType.Same;
    var sourceIndex: nat := 0;
    var chunkIndex: nat := sourceIndex;
    var i := 0;
    while i < |diffActions|
      invariant 0 <= i <= |diffActions|
      invariant patchActions + Chunks(diffActions[i..], currentDiffActionType, items, chunkIndex, sourceIndex)
             == Compress.ProducePatch(diffActions)
    {
      var diffAction := diffActions[i];
      assert diffActions[i..][0] == diffAction && diffActions[i..][1..] == diffActions[i + 1..];
      ghost var before := patchActions;
      if diffAction.ActionType() != currentDiffActionType {
        if currentDiffActionType != DiffActionType.Same {
          patchActions := patchActions + [DiffPatchAction(ConvertToDiffPatchActionType(currentDiffActionType), chunkIndex, items)];
        }
        assert patchActions == before + CloseChunk(currentDiffActionType, chunkIndex, items);
        currentDiffActionType := diffAction.ActionType();
        items := [];
        chunkIndex := sourceIndex;
      }
      var added := AddDiffActionType(diffAction, items, sourceIndex);
      items, sourceIndex := added.0, added.1;
      i := i + 1;
    }
    if currentDiffActionType != DiffActionType.Same {
      patchActions := patchActions + [DiffPatchAction(ConvertToDiffPatchActionType(currentDiffActionType), chunkIndex, items)];
    }
    if SameStepsAgree(diffActions) {
      ProducePatchReplays(diffActions);
    }
  }

  /** The whole generator: table, walk, reversal and compression. */
  method ProduceDiffPatch<T(==)>(source: seq<T>, destination: seq<T>) returns (patch: seq<DiffPatchAction<T>>)
    ensures patch == DiffPatch.ProduceDiffPatch(source, destination)
    ensures Apply(source, patch) == Some(destination)
    ensures RemovalsMatch(source, patch)
  {
    var diff := ProduceDiff(source, destination);
    patch := ProducePatch(diff);
    DiffPatch.RoundTrip(source, destination);
    DiffPatch.RemovalsHoldSource(source, destination);
  }
}

