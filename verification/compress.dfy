/**
 The chunk compressor of `ProducePatch`: consecutive per-position actions of
 one kind become one indexed patch action; runs of Same steps are never
 emitted.
 */
module Compress {
  import opened Actions
  import opened Patch

  /** The patch kind of a chunk kind; a Same chunk has none and is never converted. */
  function ConvertToDiffPatchActionType(k: DiffActionType): DiffPatchActionType
    requires k != DiffActionType.Same
  {
    match k
    case Insert => DiffPatchActionType.Insert
    case Remove => DiffPatchActionType.Remove
    case Replace => DiffPatchActionType.Replace
  }

  /** What one step adds to the open chunk's item list. */
  function ChunkItems<T>(a: CellAction<T>): seq<T>
  {
    match a
    case SameStep(_, _) => []
    case InsertStep(d) => [d]
    case ReplaceStep(_, d) => [d]
    case RemoveStep(s) => [s]
  }

  /**
   Adds one step to the open chunk: its item (if any) goes to the chunk's
   items, and the source cursor moves past the source element it consumes.
   */
  function AddDiffActionType<T>(a: CellAction<T>, items: seq<T>, sourceIndex: nat): (r: (seq<T>, nat))
    ensures r.1 == sourceIndex + |a.SourceItems()|
  {
    match a
    case SameStep(_, _) => (items, sourceIndex + 1)
    case InsertStep(d) => (items + [d], sourceIndex)
    case ReplaceStep(_, d) => (items + [d], sourceIndex + 1)
    case RemoveStep(s) => (items + [s], sourceIndex + 1)
  }

  /** Closing a chunk emits it, unless it is a run of Same steps. */
  function CloseChunk<T>(k: DiffActionType, chunkIndex: nat, items: seq<T>): seq<DiffPatchAction<T>>
  {
    if k == DiffActionType.Same then [] else [DiffPatchAction(ConvertToDiffPatchActionType(k), chunkIndex, items)]
  }

  /**
   The patch actions emitted while the rest of the trace is `trace`, the open
   chunk has kind `k`, started at source position `chunkIndex` and holds
   `items`, and the source cursor is at `sourceIndex`.
   */
  function Chunks<T>(trace: seq<CellAction<T>>, k: DiffActionType, items: seq<T>, chunkIndex: nat, sourceIndex: nat)
    : seq<DiffPatchAction<T>>
    decreases |trace|
  {
    if |trace| == 0 then CloseChunk(k, chunkIndex, items)
    else
      var a := trace[0];
      if a.ActionType() != k then
        var (items', sourceIndex') := AddDiffActionType(a, [], sourceIndex);
        CloseChunk(k, chunkIndex, items) + Chunks(trace[1..], a.ActionType(), items', sourceIndex, sourceIndex')
      else
        var (items', sourceIndex') := AddDiffActionType(a, items, sourceIndex);
        Chunks(trace[1..], k, items', chunkIndex, sourceIndex')
  }

  /** The whole compression: an (empty) Same chunk is open at position 0 to begin with. */
  function ProducePatch<T>(trace: seq<CellAction<T>>): seq<DiffPatchAction<T>>
  {
    Chunks(trace, DiffActionType.Same, [], 0, 0)
  }

  /** A trace of Same steps only, with a Same chunk open, emits nothing. */
  lemma {:induction false} SameRunEmitsNothing<T>(trace: seq<CellAction<T>>, chunkIndex: nat, sourceIndex: nat)
    requires forall i :: 0 <= i < |trace| ==> trace[i].SameStep?
    ensures Chunks(trace, DiffActionType.Same, [], chunkIndex, sourceIndex) == []
    decreases |trace|
  {
    if |trace| > 0 {
      SameRunEmitsNothing(trace[1..], chunkIndex, sourceIndex + 1);
    }
  }

  /** A trace of insertions only, with an Insert chunk open, extends that chunk with every inserted element. */
  lemma {:induction false} InsertRun<T>(trace: seq<CellAction<T>>, items: seq<T>, chunkIndex: nat, sourceIndex: nat)
    requires forall i :: 0 <= i < |trace| ==> trace[i].InsertStep?
    ensures Chunks(trace, DiffActionType.Insert, items, chunkIndex, sourceIndex)
         == [DiffPatchAction(DiffPatchActionType.Insert, chunkIndex, items + DestinationOf(trace))]
    decreases |trace|
  {
    if |trace| == 0 {
      assert items + DestinationOf(trace) == items;
    } else {
      var a, rest := trace[0], trace[1..];
      var items' := items + ChunkItems(a);
      ChunksSameKind(trace, rest, DiffActionType.Insert, items, chunkIndex, sourceIndex);
      forall i | 0 <= i < |rest|
        ensures rest[i].InsertStep?
      {
        assert rest[i] == trace[i + 1];
      }
      InsertRun(rest, items', chunkIndex, sourceIndex);
      assert DestinationOf(trace) == ChunkItems(a) + DestinationOf(rest);
      Associate(items, ChunkItems(a), DestinationOf(rest));
    }
  }

  /** A trace of removals only, with a Remove chunk open, extends that chunk with every removed element. */
  lemma {:induction false} RemoveRun<T>(trace: seq<CellAction<T>>, items: seq<T>, chunkIndex: nat, sourceIndex: nat)
    requires forall i :: 0 <= i < |trace| ==> trace[i].RemoveStep?
    ensures Chunks(trace, DiffActionType.Remove, items, chunkIndex, sourceIndex)
         == [DiffPatchAction(DiffPatchActionType.Remove, chunkIndex, items + SourceOf(trace))]
    decreases |trace|
  {
    if |trace| == 0 {
      assert items + SourceOf(trace) == items;
    } else {
      var a, rest := trace[0], trace[1..];
      var items' := items + ChunkItems(a);
      ChunksSameKind(trace, rest, DiffActionType.Remove, items, chunkIndex, sourceIndex);
      forall i | 0 <= i < |rest|
        ensures rest[i].RemoveStep?
      {
        assert rest[i] == trace[i + 1];
      }
      RemoveRun(rest, items', chunkIndex, sourceIndex + 1);
      assert SourceOf(trace) == ChunkItems(a) + SourceOf(rest);
      Associate(items, ChunkItems(a), SourceOf(rest));
    }
  }

  /**
   How the open chunk relates to the cursor: a Same chunk holds no items, an
   Insert chunk has consumed nothing, and a Remove or Replace chunk has
   consumed one source element per item.
   */
  predicate OpenChunk<T>(k: DiffActionType, items: seq<T>, chunkIndex: nat, sourceIndex: nat)
  {
    && chunkIndex <= sourceIndex
    && (k == DiffActionType.Same ==> items == [])
    && (k == DiffActionType.Insert ==> sourceIndex == chunkIndex)
    && (k == DiffActionType.Remove || k == DiffActionType.Replace ==> sourceIndex == chunkIndex + |items|)
  }

  /** What the open chunk contributes to the destination, given the source span it covers. */
  function OpenOutput<T>(k: DiffActionType, items: seq<T>, covered: seq<T>): seq<T>
  {
    match k
    case Same => covered
    case Insert => items
    case Remove => []
    case Replace => items
  }

  lemma StepKeepsOpenChunk<T>(a: CellAction<T>, k: DiffActionType, items: seq<T>, chunkIndex: nat, sourceIndex: nat)
    requires a.ActionType() == k && OpenChunk(k, items, chunkIndex, sourceIndex)
    ensures OpenChunk(k, AddDiffActionType(a, items, sourceIndex).0, chunkIndex, AddDiffActionType(a, items, sourceIndex).1)
  {
  }

  /** Every action emitted from this state starts at or after the open chunk's start. */
  lemma {:induction false} ChunksStartFrom<T>(trace: seq<CellAction<T>>, k: DiffActionType, items: seq<T>,
                                              chunkIndex: nat, sourceIndex: nat)
    requires chunkIndex <= sourceIndex
    ensures forall j :: 0 <= j < |Chunks(trace, k, items, chunkIndex, sourceIndex)| ==>
      chunkIndex <= Chunks(trace, k, items, chunkIndex, sourceIndex)[j].index
    decreases |trace|
  {
    if |trace| > 0 {
      var a := trace[0];
      if a.ActionType() != k {
        ChunksStartFrom(trace[1..], a.ActionType(), AddDiffActionType(a, [], sourceIndex).0, sourceIndex, AddDiffActionType(a, [], sourceIndex).1);
      } else {
        ChunksStartFrom(trace[1..], k, AddDiffActionType(a, items, sourceIndex).0, chunkIndex, AddDiffActionType(a, items, sourceIndex).1);
      }
    }
  }

  /**
   Chunks are maximal: two consecutive actions of the same kind always have
   at least one unchanged source element between them.
   */
  predicate Separated<T>(patch: seq<DiffPatchAction<T>>)
  {
    forall j :: 0 <= j < |patch| - 1 && patch[j].actionType == patch[j + 1].actionType ==>
      patch[j].index + patch[j].Consumed() < patch[j + 1].index
  }

  /**
   The shape of what is emitted from an open chunk of kind `k` that started at
   `chunkIndex`, with the cursor at `sourceIndex`, for a trace whose
   consumption ends at `end`: actions in source order, never overlapping,
   maximal, each with at least one item and inside the span from the chunk's
   start to `end`. A non-Same open chunk is emitted first, at its start; after
   an open Same chunk nothing starts before the cursor.
   */
  predicate WellShaped<T>(out: seq<DiffPatchAction<T>>, k: DiffActionType, chunkIndex: nat, sourceIndex: nat, end: nat)
  {
    && Ordered(out)
    && Separated(out)
    && (forall j :: 0 <= j < |out| ==>
          && chunkIndex <= out[j].index
          && out[j].index + out[j].Consumed() <= end
          && |out[j].items| > 0)
    && (k != DiffActionType.Same ==>
          |out| > 0 && out[0].actionType == ConvertToDiffPatchActionType(k) && out[0].index == chunkIndex)
    && (k == DiffActionType.Same ==> forall j :: 0 <= j < |out| ==> sourceIndex <= out[j].index)
  }

  /** What is emitted from an open chunk that is non-empty unless it is a Same chunk is well shaped. */
  lemma {:induction false} ChunksShape<T>(trace: seq<CellAction<T>>, k: DiffActionType, items: seq<T>,
                                          chunkIndex: nat, sourceIndex: nat)
    requires OpenChunk(k, items, chunkIndex, sourceIndex)
    requires k != DiffActionType.Same ==> |items| > 0
    ensures WellShaped(Chunks(trace, k, items, chunkIndex, sourceIndex), k, chunkIndex, sourceIndex,
                       sourceIndex + |SourceOf(trace)|)
    decreases |trace|, 1
  {
    if |trace| == 0 {
      assert SourceOf(trace) == [];
    } else if trace[0].ActionType() != k {
      ShapeNewChunk(trace, k, items, chunkIndex, sourceIndex);
    } else {
      var a, rest := trace[0], trace[1..];
      var after := sourceIndex + |a.SourceItems()|;
      var items' := AddDiffActionType(a, items, sourceIndex).0;
      assert SourceOf(trace) == a.SourceItems() + SourceOf(rest);
      StepKeepsOpenChunk(a, k, items, chunkIndex, sourceIndex);
      ChunksShape(rest, k, items', chunkIndex, after);
      assert Chunks(trace, k, items, chunkIndex, sourceIndex) == Chunks(rest, k, items', chunkIndex, after);
    }
  }

  /** The shape step when the next action opens a new chunk. */
  lemma {:induction false} ShapeNewChunk<T>(trace: seq<CellAction<T>>, k: DiffActionType, items: seq<T>,
                                            chunkIndex: nat, sourceIndex: nat)
    requires |trace| > 0 && trace[0].ActionType() != k
    requires OpenChunk(k, items, chunkIndex, sourceIndex)
    requires k != DiffActionType.Same ==> |items| > 0
    ensures WellShaped(Chunks(trace, k, items, chunkIndex, sourceIndex), k, chunkIndex, sourceIndex,
                       sourceIndex + |SourceOf(trace)|)
    decreases |trace|, 0
  {
    var a, rest := trace[0], trace[1..];
    var k' := a.ActionType();
    var after := sourceIndex + |a.SourceItems()|;
    var end := after + |SourceOf(rest)|;
    NewChunkStep(trace, k, items, chunkIndex, sourceIndex);
    ChunksShape(rest, k', ChunkItems(a), sourceIndex, after);
    CloseBeforeShaped(k, items, chunkIndex, sourceIndex, k', after, end, Chunks(rest, k', ChunkItems(a), sourceIndex, after));
  }

  /** The non-recursive part of `ShapeNewChunk`: the state after a step that opens a new chunk. */
  lemma NewChunkStep<T>(trace: seq<CellAction<T>>, k: DiffActionType, items: seq<T>, chunkIndex: nat, sourceIndex: nat)
    requires |trace| > 0 && trace[0].ActionType() != k
    ensures var a := trace[0];
      var after := sourceIndex + |a.SourceItems()|;
      && OpenChunk(a.ActionType(), ChunkItems(a), sourceIndex, after)
      && (a.ActionType() != DiffActionType.Same ==> |ChunkItems(a)| > 0)
      && (a.ActionType() == DiffActionType.Same ==> sourceIndex < after)
      && after + |SourceOf(trace[1..])| == sourceIndex + |SourceOf(trace)|
      && Chunks(trace, k, items, chunkIndex, sourceIndex)
         == CloseChunk(k, chunkIndex, items) + Chunks(trace[1..], a.ActionType(), ChunkItems(a), sourceIndex, after)
  {
    var a := trace[0];
    StepKeepsOpenChunk(a, a.ActionType(), [], sourceIndex, sourceIndex);
    AddDiffActionTypeItems(a, [], sourceIndex);
    assert [] + ChunkItems(a) == ChunkItems(a);
    ChunksNewKind(trace, trace[1..], k, items, chunkIndex, sourceIndex);
  }

  /**
   Closing the open chunk in front of a well shaped emission from a chunk of
   another kind opened at the cursor keeps it well shaped.
   */
  lemma CloseBeforeShaped<T>(k: DiffActionType, items: seq<T>, chunkIndex: nat, sourceIndex: nat,
                             k': DiffActionType, after: nat, end: nat, later: seq<DiffPatchAction<T>>)
    requires OpenChunk(k, items, chunkIndex, sourceIndex)
    requires k != DiffActionType.Same ==> |items| > 0
    requires k' != k && (k' == DiffActionType.Same ==> sourceIndex < after)
    requires WellShaped(later, k', sourceIndex, after, end)
    requires sourceIndex <= end
    ensures WellShaped(CloseChunk(k, chunkIndex, items) + later, k, chunkIndex, sourceIndex, end)
  {
    if k == DiffActionType.Same {
      assert CloseChunk(k, chunkIndex, items) + later == later;
    } else {
      var closed := DiffPatchAction(ConvertToDiffPatchActionType(k), chunkIndex, items);
      assert CloseChunk(k, chunkIndex, items) == [closed];
      PrependClosedChunk(closed, later, k, k', chunkIndex, sourceIndex, after, end);
    }
  }

  /**
   Putting a closed non-Same chunk that ends at the cursor in front of a well
   shaped emission from a chunk of another kind keeps it well shaped.
   */
  lemma PrependClosedChunk<T>(closed: DiffPatchAction<T>, later: seq<DiffPatchAction<T>>, k: DiffActionType,
                              k': DiffActionType, chunkIndex: nat, sourceIndex: nat, after: nat, end: nat)
    requires k != DiffActionType.Same && k' != k
    requires closed.actionType == ConvertToDiffPatchActionType(k) && closed.index == chunkIndex && |closed.items| > 0
    requires chunkIndex <= sourceIndex && closed.index + closed.Consumed() == sourceIndex
    requires k' == DiffActionType.Same ==> sourceIndex < after
    requires WellShaped(later, k', sourceIndex, after, end)
    requires sourceIndex <= end
    ensures WellShaped([closed] + later, k, chunkIndex, sourceIndex, end)
  {
    var out := [closed] + later;
    assert |later| > 0 && later[0].actionType == closed.actionType ==> sourceIndex < later[0].index by {
      if |later| > 0 && later[0].actionType == closed.actionType {
        assert k' == DiffActionType.Same;
      }
    }
    forall j | 0 <= j < |out| - 1
      ensures out[j].index + out[j].Consumed() <= out[j + 1].index
      ensures out[j].actionType == out[j + 1].actionType ==> out[j].index + out[j].Consumed() < out[j + 1].index
    {
      if j > 0 {
        assert out[j] == later[j - 1] && out[j + 1] == later[j];
      }
    }
    forall j | 0 <= j < |out|
      ensures chunkIndex <= out[j].index && out[j].index + out[j].Consumed() <= end && |out[j].items| > 0
    {
      if j > 0 {
        assert out[j] == later[j - 1];
      }
    }
  }

  /** One more step of the open chunk's kind extends its output by that step's destination elements. */
  lemma OpenOutputStep<T>(source: seq<T>, a: CellAction<T>, k: DiffActionType, items: seq<T>, chunkIndex: nat, sourceIndex: nat)
    requires a.ActionType() == k && OpenChunk(k, items, chunkIndex, sourceIndex)
    requires a.SameStep? ==> a.sourceItem == a.destinationItem
    requires sourceIndex + |a.SourceItems()| <= |source|
    requires source[sourceIndex..sourceIndex + |a.SourceItems()|] == a.SourceItems()
    ensures OpenOutput(k, AddDiffActionType(a, items, sourceIndex).0, source[chunkIndex..AddDiffActionType(a, items, sourceIndex).1])
         == OpenOutput(k, items, source[chunkIndex..sourceIndex]) + a.DestinationItems()
  {
    if a.SameStep? {
      assert source[chunkIndex..sourceIndex + 1] == source[chunkIndex..sourceIndex] + [source[sourceIndex]];
    }
  }

  /**
   Closing the open chunk and then emitting `rest`, which starts no earlier
   than the cursor, replays to the open chunk's output followed by what `rest`
   replays to from the cursor.
   */
  lemma CloseChunkReplay<T>(source: seq<T>, k: DiffActionType, items: seq<T>, chunkIndex: nat, sourceIndex: nat,
                            rest: seq<DiffPatchAction<T>>)
    requires OpenChunk(k, items, chunkIndex, sourceIndex) && sourceIndex <= |source|
    requires |rest| > 0 ==> sourceIndex <= rest[0].index
    requires ApplyFrom(source, rest, sourceIndex).Some?
    ensures ApplyFrom(source, CloseChunk(k, chunkIndex, items) + rest, chunkIndex)
         == Some(OpenOutput(k, items, source[chunkIndex..sourceIndex]) + ApplyFrom(source, rest, sourceIndex).value)
  {
    if k == DiffActionType.Same {
      assert CloseChunk(k, chunkIndex, items) + rest == rest;
      ApplyFromEarlier(source, rest, chunkIndex, sourceIndex);
    } else {
      ClosedChunkReplay(source, k, items, chunkIndex, sourceIndex, rest);
    }
  }

  /** `CloseChunkReplay` for a chunk that is emitted. */
  lemma ClosedChunkReplay<T>(source: seq<T>, k: DiffActionType, items: seq<T>, chunkIndex: nat, sourceIndex: nat,
                             rest: seq<DiffPatchAction<T>>)
    requires k != DiffActionType.Same
    requires OpenChunk(k, items, chunkIndex, sourceIndex) && sourceIndex <= |source|
    requires ApplyFrom(source, rest, sourceIndex).Some?
    ensures ApplyFrom(source, CloseChunk(k, chunkIndex, items) + rest, chunkIndex)
         == Some(OpenOutput(k, items, source[chunkIndex..sourceIndex]) + ApplyFrom(source, rest, sourceIndex).value)
  {
    var closed := DiffPatchAction(ConvertToDiffPatchActionType(k), chunkIndex, items);
    var emitted, tail := closed.Emitted(), ApplyFrom(source, rest, sourceIndex).value;
    assert CloseChunk(k, chunkIndex, items) == [closed];
    assert closed.index + closed.Consumed() == sourceIndex && emitted == OpenOutput(k, items, source[chunkIndex..sourceIndex]) by {
      ClosedChunkSpan(k, items, chunkIndex, sourceIndex, closed);
    }
    ApplyFromCons(source, closed, rest, chunkIndex);
    var gap := source[chunkIndex..chunkIndex];
    assert gap == [];
    assert gap + emitted + tail == emitted + tail;
  }

  /** An emitted chunk consumes the source from its start up to the cursor and puts its output there. */
  lemma ClosedChunkSpan<T>(k: DiffActionType, items: seq<T>, chunkIndex: nat, sourceIndex: nat, closed: DiffPatchAction<T>)
    requires k != DiffActionType.Same && OpenChunk(k, items, chunkIndex, sourceIndex)
    requires closed == DiffPatchAction(ConvertToDiffPatchActionType(k), chunkIndex, items)
    ensures closed.index + closed.Consumed() == sourceIndex
    ensures forall covered: seq<T> :: closed.Emitted() == OpenOutput(k, items, covered)
  {
  }

  lemma Regroup<T>(open: seq<T>, step: seq<T>, rest: seq<T>, post: seq<T>, openAndStep: seq<T>, stepAndRest: seq<T>)
    requires openAndStep == open + step && stepAndRest == step + rest
    ensures openAndStep + rest + post == open + stepAndRest + post
  {
  }

  lemma Associate<X>(a: seq<X>, b: seq<X>, c: seq<X>)
    ensures a + b + c == a + (b + c)
  {
  }

  lemma SplitSlice<X>(xs: seq<X>, low: nat, middle: nat, high: nat, front: seq<X>, back: seq<X>)
    requires low <= middle <= high <= |xs|
    requires middle == low + |front| && xs[low..high] == front + back
    ensures xs[low..middle] == front && xs[middle..high] == back
  {
    assert xs[low..middle] == xs[low..high][..|front|];
    assert xs[middle..high] == xs[low..high][|front|..];
  }

  /** The replay preconditions, split between the first step of a trace and the rest. */
  lemma TraceHead<T>(source: seq<T>, trace: seq<CellAction<T>>, sourceIndex: nat)
    requires |trace| > 0
    requires SameStepsAgree(trace)
    requires sourceIndex + |SourceOf(trace)| <= |source|
    requires source[sourceIndex..sourceIndex + |SourceOf(trace)|] == SourceOf(trace)
    ensures SourceOf(trace) == trace[0].SourceItems() + SourceOf(trace[1..])
    ensures DestinationOf(trace) == trace[0].DestinationItems() + DestinationOf(trace[1..])
    ensures source[sourceIndex..sourceIndex + |trace[0].SourceItems()|] == trace[0].SourceItems()
    ensures var after := sourceIndex + |trace[0].SourceItems()|;
      source[after..after + |SourceOf(trace[1..])|] == SourceOf(trace[1..])
    ensures SameStepsAgree(trace[1..])
    ensures trace[0].SameStep? ==> trace[0].sourceItem == trace[0].destinationItem
  {
    var consumed, rest := trace[0].SourceItems(), SourceOf(trace[1..]);
    var after := sourceIndex + |consumed|;
    SplitSlice(source, sourceIndex, after, after + |rest|, consumed, rest);
    SameStepsAgreeTail(trace);
  }

  lemma SameStepsAgreeTail<T>(trace: seq<CellAction<T>>)
    requires |trace| > 0 && SameStepsAgree(trace)
    ensures SameStepsAgree(trace[1..])
  {
    var rest := trace[1..];
    forall i | 0 <= i < |rest| && rest[i].SameStep?
      ensures rest[i].sourceItem == rest[i].destinationItem
    {
      assert rest[i] == trace[i + 1];
    }
  }

  /**
   Replaying the emitted actions from the open chunk's start rebuilds the open
   chunk's output, then the destination elements of the rest of the trace,
   then the source elements after those the trace consumes.
   */
  lemma {:induction false} ChunksReplay<T>(source: seq<T>, trace: seq<CellAction<T>>, k: DiffActionType, items: seq<T>,
                                           chunkIndex: nat, sourceIndex: nat)
    requires OpenChunk(k, items, chunkIndex, sourceIndex)
    requires SameStepsAgree(trace)
    requires sourceIndex + |SourceOf(trace)| <= |source|
    requires source[sourceIndex..sourceIndex + |SourceOf(trace)|] == SourceOf(trace)
    ensures ApplyFrom(source, Chunks(trace, k, items, chunkIndex, sourceIndex), chunkIndex)
         == Some(OpenOutput(k, items, source[chunkIndex..sourceIndex]) + DestinationOf(trace)
                 + source[sourceIndex + |SourceOf(trace)|..])
    decreases |trace|, 1
  {
    if |trace| == 0 {
      ReplayEnd(source, k, items, chunkIndex, sourceIndex);
    } else {
      TraceHead(source, trace, sourceIndex);
      if trace[0].ActionType() != k {
        ReplayNewChunk(source, trace, k, items, chunkIndex, sourceIndex);
      } else {
        ReplaySameChunk(source, trace, k, items, chunkIndex, sourceIndex);
      }
    }
  }

  /** The replay step when the next action opens a new chunk. */
  lemma {:induction false} ReplayNewChunk<T>(source: seq<T>, trace: seq<CellAction<T>>, k: DiffActionType, items: seq<T>,
                                             chunkIndex: nat, sourceIndex: nat)
    requires |trace| > 0 && trace[0].ActionType() != k
    requires OpenChunk(k, items, chunkIndex, sourceIndex)
    requires trace[0].SameStep? ==> trace[0].sourceItem == trace[0].destinationItem
    requires SameStepsAgree(trace[1..])
    requires SourceOf(trace) == trace[0].SourceItems() + SourceOf(trace[1..])
    requires DestinationOf(trace) == trace[0].DestinationItems() + DestinationOf(trace[1..])
    requires sourceIndex + |SourceOf(trace)| <= |source|
    requires source[sourceIndex..sourceIndex + |trace[0].SourceItems()|] == trace[0].SourceItems()
    requires var after := sourceIndex + |trace[0].SourceItems()|;
      source[after..after + |SourceOf(trace[1..])|] == SourceOf(trace[1..])
    ensures ApplyFrom(source, Chunks(trace, k, items, chunkIndex, sourceIndex), chunkIndex)
         == Some(OpenOutput(k, items, source[chunkIndex..sourceIndex]) + DestinationOf(trace)
                 + source[sourceIndex + |SourceOf(trace)|..])
    decreases |trace|, 0
  {
    var a, rest := trace[0], trace[1..];
    var k' := a.ActionType();
    var after := sourceIndex + |a.SourceItems()|;
    var later := Chunks(rest, k', ChunkItems(a), sourceIndex, after);
    NewChunkStep(trace, k, items, chunkIndex, sourceIndex);
    ChunksReplay(source, rest, k', ChunkItems(a), sourceIndex, after);
    ChunksStartFrom(rest, k', ChunkItems(a), sourceIndex, after);
    NewChunkReplay(source, trace, k, items, chunkIndex, sourceIndex, later);
  }

  /**
   The non-recursive part of `ReplayNewChunk`: closing the open chunk in
   front of what the new chunk's emission replays to.
   */
  lemma NewChunkReplay<T>(source: seq<T>, trace: seq<CellAction<T>>, k: DiffActionType, items: seq<T>,
                          chunkIndex: nat, sourceIndex: nat, later: seq<DiffPatchAction<T>>)
    requires |trace| > 0
    requires OpenChunk(k, items, chunkIndex, sourceIndex)
    requires trace[0].SameStep? ==> trace[0].sourceItem == trace[0].destinationItem
    requires DestinationOf(trace) == trace[0].DestinationItems() + DestinationOf(trace[1..])
    requires sourceIndex + |trace[0].SourceItems()| + |SourceOf(trace[1..])| <= |source|
    requires source[sourceIndex..sourceIndex + |trace[0].SourceItems()|] == trace[0].SourceItems()
    requires var after := sourceIndex + |trace[0].SourceItems()|;
      var end := after + |SourceOf(trace[1..])|;
      ApplyFrom(source, later, sourceIndex)
      == Some(OpenOutput(trace[0].ActionType(), ChunkItems(trace[0]), source[sourceIndex..after]) + DestinationOf(trace[1..]) + source[end..])
    requires forall j :: 0 <= j < |later| ==> sourceIndex <= later[j].index
    ensures var end := sourceIndex + |trace[0].SourceItems()| + |SourceOf(trace[1..])|;
      ApplyFrom(source, CloseChunk(k, chunkIndex, items) + later, chunkIndex)
      == Some(OpenOutput(k, items, source[chunkIndex..sourceIndex]) + DestinationOf(trace) + source[end..])
  {
    var a, rest := trace[0], trace[1..];
    var k' := a.ActionType();
    var after := sourceIndex + |a.SourceItems()|;
    var end := after + |SourceOf(rest)|;
    var post := source[end..];
    var open := OpenOutput(k, items, source[chunkIndex..sourceIndex]);
    assert OpenOutput(k', ChunkItems(a), source[sourceIndex..after]) == a.DestinationItems() by {
      OpenOutputStep(source, a, k', [], sourceIndex, sourceIndex);
      AddDiffActionTypeItems(a, [], sourceIndex);
      assert [] + ChunkItems(a) == ChunkItems(a);
      assert OpenOutput(k', [], source[sourceIndex..sourceIndex]) == [];
    }
    var tail := DestinationOf(trace) + post;
    assert ApplyFrom(source, later, sourceIndex) == Some(tail);
    CloseChunkReplay(source, k, items, chunkIndex, sourceIndex, later);
    Associate(open, DestinationOf(trace), post);
  }

  /** At the end of the trace the open chunk is closed, and the rest of the source is copied. */
  lemma ReplayEnd<T>(source: seq<T>, k: DiffActionType, items: seq<T>, chunkIndex: nat, sourceIndex: nat)
    requires OpenChunk(k, items, chunkIndex, sourceIndex) && sourceIndex <= |source|
    ensures ApplyFrom(source, Chunks([], k, items, chunkIndex, sourceIndex), chunkIndex)
         == Some(OpenOutput(k, items, source[chunkIndex..sourceIndex]) + DestinationOf<T>([]) + source[sourceIndex + |SourceOf<T>([])|..])
  {
    var open, post := OpenOutput(k, items, source[chunkIndex..sourceIndex]), source[sourceIndex..];
    var closed := CloseChunk(k, chunkIndex, items);
    assert Chunks([], k, items, chunkIndex, sourceIndex) == closed;
    assert ApplyFrom(source, closed, chunkIndex) == Some(open + post) by {
      assert ApplyFrom<T>(source, [], sourceIndex) == Some(post);
      CloseChunkReplay(source, k, items, chunkIndex, sourceIndex, []);
      assert closed + [] == closed;
    }
    assert open + post == open + DestinationOf<T>([]) + source[sourceIndex + |SourceOf<T>([])|..] by {
      assert SourceOf<T>([]) == [] && DestinationOf<T>([]) == [];
      assert open + [] == open;
    }
  }

  /** The replay step when the next action extends the open chunk. */
  lemma {:induction false} ReplaySameChunk<T>(source: seq<T>, trace: seq<CellAction<T>>, k: DiffActionType, items: seq<T>,
                                              chunkIndex: nat, sourceIndex: nat)
    requires |trace| > 0 && trace[0].ActionType() == k
    requires OpenChunk(k, items, chunkIndex, sourceIndex)
    requires trace[0].SameStep? ==> trace[0].sourceItem == trace[0].destinationItem
    requires SameStepsAgree(trace[1..])
    requires SourceOf(trace) == trace[0].SourceItems() + SourceOf(trace[1..])
    requires DestinationOf(trace) == trace[0].DestinationItems() + DestinationOf(trace[1..])
    requires sourceIndex + |SourceOf(trace)| <= |source|
    requires source[sourceIndex..sourceIndex + |trace[0].SourceItems()|] == trace[0].SourceItems()
    requires var after := sourceIndex + |trace[0].SourceItems()|;
      source[after..after + |SourceOf(trace[1..])|] == SourceOf(trace[1..])
    ensures ApplyFrom(source, Chunks(trace, k, items, chunkIndex, sourceIndex), chunkIndex)
         == Some(OpenOutput(k, items, source[chunkIndex..sourceIndex]) + DestinationOf(trace)
                 + source[sourceIndex + |SourceOf(trace)|..])
    decreases |trace|, 0
  {
    var a, rest := trace[0], trace[1..];
    var after := sourceIndex + |a.SourceItems()|;
    var items' := AddDiffActionType(a, items, sourceIndex).0;
    SameChunkStep(source, trace, k, items, chunkIndex, sourceIndex);
    ChunksReplay(source, rest, k, items', chunkIndex, after);
  }

  /** The non-recursive part of `ReplaySameChunk`: the state and output after one step of the open chunk's kind. */
  lemma SameChunkStep<T>(source: seq<T>, trace: seq<CellAction<T>>, k: DiffActionType, items: seq<T>,
                         chunkIndex: nat, sourceIndex: nat)
    requires |trace| > 0 && trace[0].ActionType() == k
    requires OpenChunk(k, items, chunkIndex, sourceIndex)
    requires trace[0].SameStep? ==> trace[0].sourceItem == trace[0].destinationItem
    requires SourceOf(trace) == trace[0].SourceItems() + SourceOf(trace[1..])
    requires DestinationOf(trace) == trace[0].DestinationItems() + DestinationOf(trace[1..])
    requires sourceIndex + |SourceOf(trace)| <= |source|
    requires source[sourceIndex..sourceIndex + |trace[0].SourceItems()|] == trace[0].SourceItems()
    ensures var after := sourceIndex + |trace[0].SourceItems()|;
      var items' := AddDiffActionType(trace[0], items, sourceIndex).0;
      var end := after + |SourceOf(trace[1..])|;
      && OpenChunk(k, items', chunkIndex, after)
      && end == sourceIndex + |SourceOf(trace)|
      && Chunks(trace, k, items, chunkIndex, sourceIndex) == Chunks(trace[1..], k, items', chunkIndex, after)
      && OpenOutput(k, items', source[chunkIndex..after]) + DestinationOf(trace[1..]) + source[end..]
         == OpenOutput(k, items, source[chunkIndex..sourceIndex]) + DestinationOf(trace) + source[end..]
  {
    var a, rest := trace[0], trace[1..];
    var after := sourceIndex + |a.SourceItems()|;
    var end := after + |SourceOf(rest)|;
    var items' := AddDiffActionType(a, items, sourceIndex).0;
    var open := OpenOutput(k, items, source[chunkIndex..sourceIndex]);
    StepKeepsOpenChunk(a, k, items, chunkIndex, sourceIndex);
    OpenOutputStep(source, a, k, items, chunkIndex, sourceIndex);
    var stepOut := OpenOutput(k, items', source[chunkIndex..after]);
    var aOut, restOut, post := a.DestinationItems(), DestinationOf(rest), source[end..];
    Regroup(open, aOut, restOut, post, stepOut, DestinationOf(trace));
  }

  /**
   The compressor is correct for every consistent trace: replaying its patch
   against the source the trace lists yields the destination the trace lists.
   */
  lemma ProducePatchReplays<T>(trace: seq<CellAction<T>>)
    requires SameStepsAgree(trace)
    ensures Apply(SourceOf(trace), ProducePatch(trace)) == Some(DestinationOf(trace))
  {
    var source, destination := SourceOf(trace), DestinationOf(trace);
    assert source[0..0 + |source|] == source;
    ChunksReplay(source, trace, DiffActionType.Same, [], 0, 0);
    var covered, after := source[0..0], source[|source|..];
    assert OpenOutput(DiffActionType.Same, [], covered) == [] && after == [];
    assert [] + destination + [] == destination;
  }

  /**
   The patch of any trace lists its changes in source order without overlaps,
   never two adjacent chunks of one kind, each with at least one item and
   inside the source the trace lists.
   */
  lemma ProducePatchShape<T>(trace: seq<CellAction<T>>)
    ensures WellShaped(ProducePatch(trace), DiffActionType.Same, 0, 0, |SourceOf(trace)|)
  {
    ChunksShape(trace, DiffActionType.Same, [], 0, 0);
  }

  /*
   A reference definition of the compressor, independent of its state
   machine: cut the trace into maximal runs of one kind, and turn every run
   that is not a run of Same steps into one action. The action is placed at
   the number of source elements the steps before the run consume, and it
   holds the run's items.
   */

  /** The end of the run of kind `k` that goes on from position `i`. */
  function RunEnd<T>(trace: seq<CellAction<T>>, i: nat, k: DiffActionType): (q: nat)
    requires i <= |trace|
    ensures i <= q <= |trace|
    ensures forall j :: i <= j < q ==> trace[j].ActionType() == k
    ensures q < |trace| ==> trace[q].ActionType() != k
    decreases |trace| - i
  {
    if i == |trace| || trace[i].ActionType() != k then i else RunEnd(trace, i + 1, k)
  }

  /** The items a run of steps contributes to its chunk, in order. */
  function RunItems<T>(run: seq<CellAction<T>>): seq<T>
  {
    if |run| == 0 then [] else ChunkItems(run[0]) + RunItems(run[1..])
  }

  /** The actions for the maximal runs from position `p` on. */
  function Runs<T>(trace: seq<CellAction<T>>, p: nat): seq<DiffPatchAction<T>>
    requires p <= |trace|
    decreases |trace| - p
  {
    if p == |trace| then []
    else
      var k := trace[p].ActionType();
      var q := RunEnd(trace, p + 1, k);
      (if k == DiffActionType.Same then []
       else [DiffPatchAction(ConvertToDiffPatchActionType(k), |SourceOf(trace[..p])|, RunItems(trace[p..q]))])
      + Runs(trace, q)
  }

  /** Adding a step appends its chunk items. */
  lemma AddDiffActionTypeItems<T>(a: CellAction<T>, items: seq<T>, sourceIndex: nat)
    ensures AddDiffActionType(a, items, sourceIndex).0 == items + ChunkItems(a)
  {
    assert items + [] == items;
  }

  /** A step of a new kind closes the open chunk and opens one of its own kind at the cursor. */
  lemma ChunksNewKind<T>(trace: seq<CellAction<T>>, tail: seq<CellAction<T>>, k: DiffActionType, items: seq<T>,
                         chunkIndex: nat, sourceIndex: nat)
    requires |trace| > 0 && tail == trace[1..] && trace[0].ActionType() != k
    ensures Chunks(trace, k, items, chunkIndex, sourceIndex)
         == CloseChunk(k, chunkIndex, items)
            + Chunks(tail, trace[0].ActionType(), ChunkItems(trace[0]), sourceIndex, sourceIndex + |trace[0].SourceItems()|)
  {
    AddDiffActionTypeItems(trace[0], [], sourceIndex);
    assert [] + ChunkItems(trace[0]) == ChunkItems(trace[0]);
  }

  /** A step of the open chunk's kind adds its items to the chunk. */
  lemma ChunksSameKind<T>(trace: seq<CellAction<T>>, tail: seq<CellAction<T>>, k: DiffActionType, items: seq<T>,
                          chunkIndex: nat, sourceIndex: nat)
    requires |trace| > 0 && tail == trace[1..] && trace[0].ActionType() == k
    ensures Chunks(trace, k, items, chunkIndex, sourceIndex)
         == Chunks(tail, k, items + ChunkItems(trace[0]), chunkIndex, sourceIndex + |trace[0].SourceItems()|)
  {
    AddDiffActionTypeItems(trace[0], items, sourceIndex);
  }

  /** `ChunksNewKind` at position `i` of a trace. */
  lemma ChunksNewKindAt<T>(trace: seq<CellAction<T>>, i: nat, k: DiffActionType, items: seq<T>,
                           chunkIndex: nat, sourceIndex: nat)
    requires i < |trace| && trace[i].ActionType() != k
    ensures Chunks(trace[i..], k, items, chunkIndex, sourceIndex)
         == CloseChunk(k, chunkIndex, items)
            + Chunks(trace[i + 1..], trace[i].ActionType(), ChunkItems(trace[i]), sourceIndex, sourceIndex + |trace[i].SourceItems()|)
  {
    assert trace[i..][0] == trace[i] && trace[i..][1..] == trace[i + 1..];
    ChunksNewKind(trace[i..], trace[i + 1..], k, items, chunkIndex, sourceIndex);
  }

  /** `ChunksSameKind` at position `i` of a trace. */
  lemma ChunksSameKindAt<T>(trace: seq<CellAction<T>>, i: nat, k: DiffActionType, items: seq<T>,
                            chunkIndex: nat, sourceIndex: nat)
    requires i < |trace| && trace[i].ActionType() == k
    ensures Chunks(trace[i..], k, items, chunkIndex, sourceIndex)
         == Chunks(trace[i + 1..], k, items + ChunkItems(trace[i]), chunkIndex, sourceIndex + |trace[i].SourceItems()|)
  {
    assert trace[i..][0] == trace[i] && trace[i..][1..] == trace[i + 1..];
    ChunksSameKind(trace[i..], trace[i + 1..], k, items, chunkIndex, sourceIndex);
  }

  /** The cursor after one more step. */
  lemma SourceOfPrefixStep<T>(trace: seq<CellAction<T>>, i: nat)
    requires i < |trace|
    ensures |SourceOf(trace[..i + 1])| == |SourceOf(trace[..i])| + |trace[i].SourceItems()|
  {
    assert trace[..i + 1] == trace[..i] + [trace[i]];
    SourceOfAppend(trace[..i], [trace[i]]);
    assert SourceOf([trace[i]]) == trace[i].SourceItems() + SourceOf<T>([]);
  }

  /** A run's items: those of its first step, then those of the rest. */
  lemma RunItemsStep<T>(trace: seq<CellAction<T>>, i: nat, q: nat)
    requires i < q <= |trace|
    ensures RunItems(trace[i..q]) == ChunkItems(trace[i]) + RunItems(trace[i + 1..q])
  {
    assert trace[i..q][1..] == trace[i + 1..q];
  }

  /**
   From position `i`, with a chunk of kind `k` open and the cursor at the
   source consumed so far, the compressor closes the open chunk once the run
   of kind `k` ends and then emits the reference actions of the runs after it.
   */
  ghost predicate FollowsRuns<T>(trace: seq<CellAction<T>>, i: nat, k: DiffActionType, items: seq<T>, chunkIndex: nat, sourceIndex: nat)
    requires i <= |trace|
  {
    var q := RunEnd(trace, i, k);
    Chunks(trace[i..], k, items, chunkIndex, sourceIndex) == CloseChunk(k, chunkIndex, items + RunItems(trace[i..q])) + Runs(trace, q)
  }

  /** A step of a new kind closes the open chunk and starts a run of its own. */
  lemma {:induction false} FollowRunsNewRun<T>(trace: seq<CellAction<T>>, i: nat, k: DiffActionType, items: seq<T>,
                                               chunkIndex: nat, sourceIndex: nat)
    requires i < |trace| && trace[i].ActionType() != k
    requires sourceIndex == |SourceOf(trace[..i])|
    ensures FollowsRuns(trace, i, k, items, chunkIndex, sourceIndex)
    decreases |trace| - i, 0
  {
    var k', first, after := trace[i].ActionType(), ChunkItems(trace[i]), sourceIndex + |trace[i].SourceItems()|;
    SourceOfPrefixStep(trace, i);
    ChunksFollowRuns(trace, i + 1, k', first, sourceIndex, after);
    NewRunStep(trace, i, k, items, chunkIndex, sourceIndex);
  }

  /** The non-recursive part of `FollowRunsNewRun`. */
  lemma NewRunStep<T>(trace: seq<CellAction<T>>, i: nat, k: DiffActionType, items: seq<T>, chunkIndex: nat, sourceIndex: nat)
    requires i < |trace| && trace[i].ActionType() != k
    requires sourceIndex == |SourceOf(trace[..i])|
    requires FollowsRuns(trace, i + 1, trace[i].ActionType(), ChunkItems(trace[i]), sourceIndex, sourceIndex + |trace[i].SourceItems()|)
    ensures FollowsRuns(trace, i, k, items, chunkIndex, sourceIndex)
  {
    var k', first := trace[i].ActionType(), ChunkItems(trace[i]);
    var after := sourceIndex + |trace[i].SourceItems()|;
    var q' := RunEnd(trace, i + 1, k');
    var later := Runs(trace, q');
    var run := RunItems(trace[i..q']);
    var rest := Chunks(trace[i + 1..], k', first, sourceIndex, after);
    assert rest == CloseChunk(k', sourceIndex, run) + later by {
      assert rest == CloseChunk(k', sourceIndex, first + RunItems(trace[i + 1..q'])) + later;
      RunItemsStep(trace, i, q');
    }
    assert Runs(trace, i) == CloseChunk(k', sourceIndex, run) + later;
    assert Chunks(trace[i..], k, items, chunkIndex, sourceIndex) == CloseChunk(k, chunkIndex, items) + rest by {
      ChunksNewKindAt(trace, i, k, items, chunkIndex, sourceIndex);
    }
    assert RunEnd(trace, i, k) == i;
    assert items + RunItems(trace[i..i]) == items;
  }

  /** A step of the open chunk's kind extends its run. */
  lemma {:induction false} FollowRunsSameRun<T>(trace: seq<CellAction<T>>, i: nat, k: DiffActionType, items: seq<T>,
                                                chunkIndex: nat, sourceIndex: nat)
    requires i < |trace| && trace[i].ActionType() == k
    requires sourceIndex == |SourceOf(trace[..i])|
    ensures FollowsRuns(trace, i, k, items, chunkIndex, sourceIndex)
    decreases |trace| - i, 0
  {
    var extended, after := items + ChunkItems(trace[i]), sourceIndex + |trace[i].SourceItems()|;
    SourceOfPrefixStep(trace, i);
    ChunksFollowRuns(trace, i + 1, k, extended, chunkIndex, after);
    SameRunStep(trace, i, k, items, chunkIndex, sourceIndex);
  }

  /** The non-recursive part of `FollowRunsSameRun`. */
  lemma SameRunStep<T>(trace: seq<CellAction<T>>, i: nat, k: DiffActionType, items: seq<T>, chunkIndex: nat, sourceIndex: nat)
    requires i < |trace| && trace[i].ActionType() == k
    requires FollowsRuns(trace, i + 1, k, items + ChunkItems(trace[i]), chunkIndex, sourceIndex + |trace[i].SourceItems()|)
    ensures FollowsRuns(trace, i, k, items, chunkIndex, sourceIndex)
  {
    var step := ChunkItems(trace[i]);
    var after := sourceIndex + |trace[i].SourceItems()|;
    var q := RunEnd(trace, i, k);
    assert q == RunEnd(trace, i + 1, k);
    var later := Runs(trace, q);
    var chunk := items + RunItems(trace[i..q]);
    var rest := Chunks(trace[i + 1..], k, items + step, chunkIndex, after);
    assert rest == CloseChunk(k, chunkIndex, chunk) + later by {
      var tail := RunItems(trace[i + 1..q]);
      assert rest == CloseChunk(k, chunkIndex, items + step + tail) + later;
      RunItemsStep(trace, i, q);
      Associate(items, step, tail);
    }
    assert Chunks(trace[i..], k, items, chunkIndex, sourceIndex) == rest by {
      ChunksSameKindAt(trace, i, k, items, chunkIndex, sourceIndex);
    }
  }

  /** The compressor follows the runs from every position, whatever chunk is open there. */
  lemma {:induction false} ChunksFollowRuns<T>(trace: seq<CellAction<T>>, i: nat, k: DiffActionType, items: seq<T>,
                                               chunkIndex: nat, sourceIndex: nat)
    requires i <= |trace|
    requires sourceIndex == |SourceOf(trace[..i])|
    ensures FollowsRuns(trace, i, k, items, chunkIndex, sourceIndex)
    decreases |trace| - i, 1
  {
    if i == |trace| {
      assert trace[i..i] == [];
      assert items + RunItems(trace[i..i]) == items;
    } else if trace[i].ActionType() != k {
      FollowRunsNewRun(trace, i, k, items, chunkIndex, sourceIndex);
    } else {
      FollowRunsSameRun(trace, i, k, items, chunkIndex, sourceIndex);
    }
  }

  /**
   The compressor emits exactly the reference actions: one per maximal run
   that is not a run of Same steps, in trace order, at the source position
   where the run starts, holding the run's items.
   */
  lemma ProducePatchIsRuns<T>(trace: seq<CellAction<T>>)
    ensures ProducePatch(trace) == Runs(trace, 0)
  {
    assert trace[0..] == trace;
    assert |SourceOf(trace[..0])| == 0 by {
      assert trace[..0] == [];
    }
    ChunksFollowRuns(trace, 0, DiffActionType.Same, [], 0, 0);
    if |trace| > 0 && trace[0].ActionType() == DiffActionType.Same {
      assert RunEnd(trace, 0, DiffActionType.Same) == RunEnd(trace, 1, DiffActionType.Same);
    }
  }

  /**
   What a run of one kind collects: a Remove run the source elements it
   removes, an Insert or Replace run the destination elements it puts in,
   a Same run nothing.
   */
  lemma {:induction false} RunItemsOf<T>(run: seq<CellAction<T>>, k: DiffActionType)
    requires forall i :: 0 <= i < |run| ==> run[i].ActionType() == k
    ensures k == DiffActionType.Remove ==> RunItems(run) == SourceOf(run)
    ensures k == DiffActionType.Insert || k == DiffActionType.Replace ==> RunItems(run) == DestinationOf(run)
    ensures k == DiffActionType.Same ==> RunItems(run) == []
    decreases |run|
  {
    if |run| > 0 {
      RunItemsOf(run[1..], k);
    }
  }

  /** A Remove run from `p` to `q` holds the source elements at the cursor where it starts. */
  lemma RemoveRunSource<T>(trace: seq<CellAction<T>>, p: nat, q: nat)
    requires p < q <= |trace|
    requires forall j :: p <= j < q ==> trace[j].ActionType() == DiffActionType.Remove
    ensures var at, items := |SourceOf(trace[..p])|, RunItems(trace[p..q]);
      at + |items| <= |SourceOf(trace)| && items == SourceOf(trace)[at..at + |items|]
  {
    var before, run, after := trace[..p], trace[p..q], trace[q..];
    assert trace == before + run + after;
    SourceOfAppend(before, run);
    SourceOfAppend(before + run, after);
    RunItemsOf(run, DiffActionType.Remove);
    var whole := SourceOf(before) + SourceOf(run) + SourceOf(after);
    assert whole[|SourceOf(before)|..|SourceOf(before)| + |SourceOf(run)|] == SourceOf(run);
  }

  /** Every Remove action of the reference definition holds the source elements it removes. */
  lemma {:induction false} RunsRemoveSource<T>(trace: seq<CellAction<T>>, p: nat)
    requires p <= |trace|
    ensures RemovalsMatch(SourceOf(trace), Runs(trace, p))
    decreases |trace| - p
  {
    if p < |trace| {
      var k := trace[p].ActionType();
      var q := RunEnd(trace, p + 1, k);
      RunsRemoveSource(trace, q);
      if k == DiffActionType.Remove {
        RemoveRunSource(trace, p, q);
      }
      var head := if k == DiffActionType.Same then []
        else [DiffPatchAction(ConvertToDiffPatchActionType(k), |SourceOf(trace[..p])|, RunItems(trace[p..q]))];
      assert Runs(trace, p) == head + Runs(trace, q);
      RemovalsMatchAppend(SourceOf(trace), head, Runs(trace, q));
    }
  }

  /**
   The compressor's Remove actions hold exactly the source elements they
   remove, in order: the items are the slice of the source the action
   consumes.
   */
  lemma ProducePatchRemovals<T>(trace: seq<CellAction<T>>)
    ensures RemovalsMatch(SourceOf(trace), ProducePatch(trace))
  {
    ProducePatchIsRuns(trace);
    RunsRemoveSource(trace, 0);
  }
}
