# SequenceDiffPatch diff engine in Dafny

A model of the diff engine of SequenceDiffPatch, the C# class
`DiffPatchGenerator`. Given a source and a destination sequence, it produces a
patch: a list of indexed Insert, Remove and Replace actions. Replaying these
actions against the source yields the destination. The engine works in three
stages, and the model follows them:

1. **LCS table fill** (`FillCellMatrix`). This fills a flat table with
   `|destination| + 1` rows and `|source| + 1` columns. Row 0 and column 0
   hold 0. An interior entry is the diagonal entry plus one when the row's
   destination element equals the column's source element. Otherwise it is
   the larger of the entries above and to the left.
2. **Backtracker** (`GetDirection`, `GetDiffActionType`, `ProduceDiff`).
   This walks from the last entry back to the origin.
   - A neighbour outside the table counts as -1.
   - A tie between the entry above and the one to the left moves
     diagonally. The step is Same when the two elements are equal and
     Replace otherwise.
   - A larger entry above moves Up, which is an Insert.
   - Otherwise the walk moves Left, which is a Remove.

   The steps go on a stack. Popping the stack puts them in forward order.
3. **Chunk compressor** (`ProducePatch`, `AddDiffActionType`,
   `ConvertToDiffPatchActionType`). Consecutive steps of one kind become a
   single patch action. It sits at the source position where the run
   starts and holds the run's items. A source cursor moves forward on Same,
   Replace and Remove steps, but not on Insert. A run of Same steps is
   never emitted.

The modules are:
- `Actions`: the per-position step (`CellAction`) and the source and
  destination elements a trace accounts for.
- `Lcs`: the table as a recursive function, and the proof that each entry is
  the length of a longest common subsequence of the two prefixes.
- `Backtrack`: the direction choice, the step classification, the walk and
  the reversal.
- `Patch`: the result action (`DiffPatchAction`) and what a patch means,
  which is replaying it against a source.
- `Compress`: the compressor as a function over the trace, its replay and
  shape theorems, and an independent "maximal runs" reference definition it
  is proved equal to.
- `DiffPatch`: the composition, with the round-trip and the edge cases.
- `DiffPatchGenerator`: the C# procedures as methods. These are the flat
  table fill with its loops, the do-while walk onto a stack, the pop loop
  and the foreach compressor. Each is proved equal to the functional model.
- `Scenarios`: the unit-test scenarios and two further inputs, evaluated
  through the model.

Three places where the code behaves other than one might expect. The model
follows the code in each:
- Patch indices are non-decreasing, not strictly ascending. An Insert
  chunk leaves the source cursor where it was, so the chunk after it starts
  at the same index. For "A" → "BB" the result is `[Insert@0 "B",
  Replace@0 "B"]` (`Scenarios.EqualIndices`).
- The tie-break does not always follow a longest common subsequence. For
  "AB" → "BA" the patch is `[Replace@0 "BA"]` with no kept element, although
  the two sequences share one (`Scenarios.SwappedPairNotMinimal`). The model
  proves that patches are correct, not that they are minimal.
- `InitializeRow0` fills column 0 and `InitializeColumn0` fills row 0. The
  names are swapped, which is harmless.

## Model

| member | source | states |
|---|---|---|
| Lcs.Cell | sources/SequenceDiffPatch/Implementation/DiffPatchGenerator.cs:137-186 | An entry is never larger than either prefix length, so every entry of row 0 and column 0 is 0. |
| Lcs.CellSteps | sources/SequenceDiffPatch/Implementation/DiffPatchGenerator.cs:151-160 | Moving one row down or one column right raises an entry by 0 or 1, never lowers it. |
| Lcs.WitnessIsCommon | sources/SequenceDiffPatch/Implementation/DiffPatchGenerator.cs:151-160 | Following the recurrence back from an entry picks out a common subsequence of the two prefixes whose length is that entry. |
| Lcs.CommonSubsequenceBound | sources/SequenceDiffPatch/Implementation/DiffPatchGenerator.cs:151-160 | No common subsequence of the first r destination elements and the first c source elements is longer than the entry at row r, column c. |
| Lcs.CellIsLcsLength | sources/SequenceDiffPatch/Implementation/DiffPatchGenerator.cs:143-165 | The entry at row r, column c is the length of a longest common subsequence of the first r destination elements and the first c source elements: some common subsequence has that length and none is longer. |
| Backtrack.GetDirection | sources/SequenceDiffPatch/Implementation/DiffPatchGenerator.cs:206-232 | The direction is None exactly at the origin. A diagonal move needs a row and a column to leave. Because of the -1 sentinels, row 0 always moves Left and column 0 always moves Up. |
| Backtrack.StepAction | sources/SequenceDiffPatch/Implementation/DiffPatchGenerator.cs:188-204 | An Up step is an Insert and a Left step is a Remove. A diagonal step is Same exactly when its source and destination elements are equal, and Replace otherwise. A step consumes its column's source element unless it moves Up, and accounts for its row's destination element unless it moves Left. |
| Backtrack.Walk | sources/SequenceDiffPatch/Implementation/DiffPatchGenerator.cs:24-38 | The walk from row r, column c reaches the origin, and its number of steps lies between max(r, c) and r + c. |
| Backtrack.Reverse | sources/SequenceDiffPatch/Implementation/DiffPatchGenerator.cs:40-46 | The popped list has the stack's length, and its element i is the stack's element counted i from the top. |
| Backtrack.WalkClassified | sources/SequenceDiffPatch/Implementation/DiffPatchGenerator.cs:188-204 | Every Same step of a walk pairs equal elements, and every Replace step pairs different ones. |
| Backtrack.ProduceDiffConsumesInputs | sources/SequenceDiffPatch/Implementation/DiffPatchGenerator.cs:12-49 | The forward trace lists the whole source, in order, through its Same, Replace and Remove steps. It lists the whole destination, in order, through its Same, Replace and Insert steps. Its steps are classified by element equality, and its length lies between the longer input and the sum of both. |
| Backtrack.ProduceDiffIdentical | sources/SequenceDiffPatch/Implementation/DiffPatchGenerator.cs:209-231 | Comparing a sequence with itself keeps to the diagonal: the trace is one Same step per element, in order. |
| Backtrack.WalkFromEmptySource | sources/SequenceDiffPatch/Implementation/DiffPatchGenerator.cs:206-232 | With an empty source every step moves Up: the walk is one Insert per destination element, last element first. |
| Backtrack.WalkToEmptyDestination | sources/SequenceDiffPatch/Implementation/DiffPatchGenerator.cs:206-232 | With an empty destination every step moves Left: the walk is one Remove per source element, last element first. |
| Compress.AddDiffActionType | sources/SequenceDiffPatch/Implementation/DiffPatchGenerator.cs:107-132 | The source cursor moves forward by exactly the number of source elements the step consumes: one for Same, Replace and Remove, none for Insert. |
| Compress.RunItemsOf | sources/SequenceDiffPatch/Implementation/DiffPatchGenerator.cs:107-132 | The items a run of one kind collects are, in order, the source elements it removes for a Remove run, the destination elements it puts in for an Insert or Replace run, and nothing for a Same run. |
| Compress.SameRunEmitsNothing | sources/SequenceDiffPatch/Implementation/DiffPatchGenerator.cs:84-102 | A trace of Same steps only, with a Same chunk open, emits no action. |
| Compress.InsertRun | sources/SequenceDiffPatch/Implementation/DiffPatchGenerator.cs:82-102 | A trace of Insert steps only, with an Insert chunk open, emits exactly one Insert at the chunk's start, holding every inserted element in order. |
| Compress.RemoveRun | sources/SequenceDiffPatch/Implementation/DiffPatchGenerator.cs:82-102 | A trace of Remove steps only, with a Remove chunk open, emits exactly one Remove at the chunk's start, holding every removed element in order. |
| Compress.ProducePatchReplays | sources/SequenceDiffPatch/Implementation/DiffPatchGenerator.cs:74-132 | For any trace whose Same steps pair equal elements, replaying the compressed patch against the source the trace lists yields the destination the trace lists. |
| Compress.ProducePatchShape | sources/SequenceDiffPatch/Implementation/DiffPatchGenerator.cs:78-102 | The actions come in source order and never overlap. Two adjacent actions of one kind have a kept element between them. Each action holds at least one item and lies inside the source. |
| Compress.ProducePatchIsRuns | sources/SequenceDiffPatch/Implementation/DiffPatchGenerator.cs:74-105 | The compressor's output is exactly the reference definition: one action per maximal run of steps of one kind, skipping Same runs. Each action sits at the number of source elements consumed before its run and holds the run's items. |
| Compress.ProducePatchRemovals | sources/SequenceDiffPatch/Implementation/DiffPatchGenerator.cs:82-127 | Every Remove action the compressor emits holds the source elements it removes: its items are the slice of the trace's source that starts at its index. |
| DiffPatch.RoundTrip | sources/SequenceDiffPatch/Implementation/DiffPatchGenerator.cs:51-54 | For all inputs, replaying the patch against the source yields exactly the destination. |
| DiffPatch.PatchShape | sources/SequenceDiffPatch/Implementation/DiffPatchGenerator.cs:78-102 | For all inputs, the patch's actions are in source order, do not overlap, are maximal, are non-empty and lie inside the source. |
| DiffPatch.RemovalsHoldSource | sources/SequenceDiffPatch/Implementation/DiffPatchGenerator.cs:82-127 | For all inputs, every Remove action of the patch holds exactly the source elements it removes, in order, and not just as many of them as it removes. |
| DiffPatch.BothEmpty | sources/SequenceDiffPatch/Implementation/DiffPatchGenerator.cs:78-104 | Two empty sequences give an empty patch. |
| DiffPatch.EmptySource | sources/SequenceDiffPatch/Implementation/DiffPatchGenerator.cs:78-104 | An empty source and a non-empty destination give a single Insert at 0 of the whole destination. |
| DiffPatch.EmptyDestination | sources/SequenceDiffPatch/Implementation/DiffPatchGenerator.cs:78-104 | A non-empty source and an empty destination give a single Remove at 0 of the whole source. |
| DiffPatch.Identical | sources/SequenceDiffPatch/Implementation/DiffPatchGenerator.cs:209-231 | A sequence compared with itself gives an empty patch. |
| DiffPatchGenerator.FillCellMatrix | sources/SequenceDiffPatch/Implementation/DiffPatchGenerator.cs:134-186 | The flat table has rows × columns entries. The entry at row r, column c (position r·columns + c) holds the LCS length of the two prefixes. |
| DiffPatchGenerator.FillRow | sources/SequenceDiffPatch/Implementation/DiffPatchGenerator.cs:143-165 | Filling one interior row, given the earlier rows and column 0, leaves every entry up to that row holding its LCS length. |
| DiffPatchGenerator.Neighbours | sources/SequenceDiffPatch/Implementation/DiffPatchGenerator.cs:215-216 | In a filled table, the entries read above and to the left of a position are the neighbour values the direction choice compares. |
| DiffPatchGenerator.PushWalk | sources/SequenceDiffPatch/Implementation/DiffPatchGenerator.cs:23-38 | The do-while loop over the filled table stops at the origin. Read bottom first, the stack holds the walk from the last entry. |
| DiffPatchGenerator.PopAll | sources/SequenceDiffPatch/Implementation/DiffPatchGenerator.cs:40-46 | Popping the whole stack into a list gives the stack reversed. |
| DiffPatchGenerator.ProduceDiff | sources/SequenceDiffPatch/Implementation/DiffPatchGenerator.cs:12-49 | The trace is the forward walk. It lists the whole source through its source-consuming steps and the whole destination through its destination-producing steps. |
| DiffPatchGenerator.ProducePatch | sources/SequenceDiffPatch/Implementation/DiffPatchGenerator.cs:74-105 | The foreach loop emits what the functional compressor emits. When the trace's Same steps pair equal elements, the patch replays the trace's source into its destination. |
| DiffPatchGenerator.ProduceDiffPatch | sources/SequenceDiffPatch/Implementation/DiffPatchGenerator.cs:51-54 | The generator's patch is the model's. Replaying it against the source yields the destination, and each of its Remove actions holds the source elements it removes. |
| Scenarios.Scenario1 | sources/SequenceDiffPatch.UnitTests/DiffPatchGeneratorUnitTests.cs:30-39 | "ABCDCBA" → "DCBAABB" gives Remove@0 "ABC", Insert@7 "ABB". |
| Scenarios.Scenario2 | sources/SequenceDiffPatch.UnitTests/DiffPatchGeneratorUnitTests.cs:42-52 | "ABCDCBA2345" → "DCBAABD" gives Remove@0 "ABC", Remove@7 "2", Replace@8 "ABD". |
| Scenarios.Scenario3 | sources/SequenceDiffPatch.UnitTests/DiffPatchGeneratorUnitTests.cs:55-65 | "ABCDEFGH" → "AB1CDE2FG" gives Insert@2 "1", Insert@5 "2", Remove@7 "H". |
| Scenarios.SwappedPair | sources/SequenceDiffPatch/Implementation/DiffPatchGenerator.cs:218-222 | "AB" → "BA" gives a single Replace@0 "BA". |
| Scenarios.SwappedPairNotMinimal | sources/SequenceDiffPatch/Implementation/DiffPatchGenerator.cs:218-222 | "AB" and "BA" have a common subsequence of length 1, but their trace has no Same step, so the patch is not a shortest edit script. |
| Scenarios.EqualIndices | sources/SequenceDiffPatch/Implementation/DiffPatchGenerator.cs:91-96 | "A" → "BB" gives Insert@0 "B" followed by Replace@0 "B": two actions at the same index. |

## Left out

- The factory and the interfaces: `Factory.cs` only wires construction, and `IDiffPatchGenerator.cs` and `IDiffPatchAction.cs` are signatures. The interface's `includeSameItems` flag has no implementation, so the model has no flag and never emits Same.
- `DiffPatchAction` `Equals`, `GetHashCode` and `ToString`: Dafny datatype equality compares kind, index and items, as `Equals` does. The hash code and the text form carry no behaviour of the engine.
- The `throw` branches at lines 70, 130 and 202 of `DiffPatchGenerator.cs`: the step kinds and directions are closed datatypes with exhaustive matches. `ConvertToDiffPatchActionType` requires a kind other than Same, and Dafny checks this at every call.
- The `Cell` objects' X and Y fields: the table holds only the LCS values, and positions are computed from the row and column. The `Cell`, `Direction`, `DiffActionType` and `DiffPatchActionType` definitions are not part of this model beyond their use in the engine.
- The item a step does not use: the C# record fills both items from the table headers of the step's row and column (lines 33-36). So an Insert also carries the source element of its column, or `default(T)` in column 0, and a Remove carries the destination element of its row, or `default(T)` in row 0. The compressor never reads that item (lines 115-126), so each step variant carries only the items of its kind.
- Minimality of the patch: it does not hold for this tie-break (see `Scenarios.SwappedPairNotMinimal`).
- Scenario 4 of the unit tests: it needs a 10001 × 10001 table, too large to evaluate in the verifier.
- The tests' order-insensitive comparison (`Is.EquivalentTo`): the scenarios state the exact order the code produces.
- Memory cost (the quadratic table), the `int` overflow of `rows * columns` (line 17) once (|source| + 1) · (|destination| + 1) exceeds 2^31 − 1, null elements and C# `Equals` overrides that are not reflexive or symmetric: elements use Dafny equality.
- Compress.ProducePatchReplays: requires that every Same step pairs equal elements. The private C# method only ever receives such traces from the backtracker (`Backtrack.ProduceDiffConsumesInputs` proves this for them).
- DiffPatchGenerator.ProducePatch: states the replay property only for traces whose Same steps pair equal elements, for the same reason.
