/**
 `ProduceDiffPatch`: the table, the backtracker and the compressor composed,
 and what the composition promises its callers.
 */
module DiffPatch {
  import opened Actions
  import Lcs
  import Backtrack
  import opened Patch
  import opened Compress

  function ProduceDiffPatch<T(==)>(source: seq<T>, destination: seq<T>): seq<DiffPatchAction<T>>
  {
    ProducePatch(Backtrack.ProduceDiff(source, destination))
  }

  /** Replaying the patch against the source yields exactly the destination. */
  lemma RoundTrip<T>(source: seq<T>, destination: seq<T>)
    ensures Apply(source, ProduceDiffPatch(source, destination)) == Some(destination)
  {
    Backtrack.ProduceDiffConsumesInputs(source, destination);
    ProducePatchReplays(Backtrack.ProduceDiff(source, destination));
  }

  /**
   The patch lists its changes in source order without overlaps, never two
   adjacent chunks of one kind, each with at least one item and inside the
   source.
   */
  lemma PatchShape<T>(source: seq<T>, destination: seq<T>)
    ensures var patch := ProduceDiffPatch(source, destination);
      && Ordered(patch)
      && Separated(patch)
      && forall j :: 0 <= j < |patch| ==>
           0 <= patch[j].index && patch[j].index + patch[j].Consumed() <= |source| && |patch[j].items| > 0
  {
    Backtrack.ProduceDiffConsumesInputs(source, destination);
    ProducePatchShape(Backtrack.ProduceDiff(source, destination));
  }

  /**
   Every Remove action of the patch holds the source elements it removes,
   in order, not merely as many of them.
   */
  lemma RemovalsHoldSource<T>(source: seq<T>, destination: seq<T>)
    ensures RemovalsMatch(source, ProduceDiffPatch(source, destination))
  {
    Backtrack.ProduceDiffConsumesInputs(source, destination);
    ProducePatchRemovals(Backtrack.ProduceDiff(source, destination));
  }

  /** Two empty sequences give an empty patch. */
  lemma BothEmpty<T>()
    ensures ProduceDiffPatch<T>([], []) == []
  {
  }

  /** An empty source gives one Insert of the whole destination at 0. */
  lemma EmptySource<T>(destination: seq<T>)
    requires |destination| > 0
    ensures ProduceDiffPatch([], destination) == [DiffPatchAction(DiffPatchActionType.Insert, 0, destination)]
  {
    var trace := Backtrack.ProduceDiff([], destination);
    Backtrack.WalkFromEmptySource(destination, |destination|);
    Backtrack.ProduceDiffConsumesInputs([], destination);
    assert forall i :: 0 <= i < |trace| ==> trace[i].InsertStep?;
    assert trace[0].ActionType() == DiffActionType.Insert;
    assert trace[0] == InsertStep(trace[0].destinationItem);
    assert [] + [trace[0].destinationItem] == [trace[0].destinationItem];
    assert ProduceDiffPatch([], destination)
        == CloseChunk(DiffActionType.Same, 0, []) + Chunks(trace[1..], DiffActionType.Insert, [trace[0].destinationItem], 0, 0);
    InsertRun(trace[1..], [trace[0].destinationItem], 0, 0);
    assert [trace[0].destinationItem] + DestinationOf(trace[1..]) == destination;
  }

  /** An empty destination gives one Remove of the whole source at 0. */
  lemma EmptyDestination<T>(source: seq<T>)
    requires |source| > 0
    ensures ProduceDiffPatch(source, []) == [DiffPatchAction(DiffPatchActionType.Remove, 0, source)]
  {
    var trace := Backtrack.ProduceDiff(source, []);
    Backtrack.WalkToEmptyDestination(source, |source|);
    Backtrack.ProduceDiffConsumesInputs(source, []);
    assert forall i :: 0 <= i < |trace| ==> trace[i].RemoveStep?;
    assert trace[0].ActionType() == DiffActionType.Remove;
    assert trace[0] == RemoveStep(trace[0].sourceItem);
    assert [] + [trace[0].sourceItem] == [trace[0].sourceItem];
    assert ProduceDiffPatch(source, [])
        == CloseChunk(DiffActionType.Same, 0, []) + Chunks(trace[1..], DiffActionType.Remove, [trace[0].sourceItem], 0, 1);
    RemoveRun(trace[1..], [trace[0].sourceItem], 0, 1);
    assert [trace[0].sourceItem] + SourceOf(trace[1..]) == source;
  }

  /** A sequence compared with itself gives an empty patch. */
  lemma Identical<T>(s: seq<T>)
    ensures ProduceDiffPatch(s, s) == []
  {
    Backtrack.ProduceDiffIdentical(s);
    SameRunEmitsNothing(Backtrack.ProduceDiff(s, s), 0, 0);
  }
}
