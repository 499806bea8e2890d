/**
 The per-position actions produced by the backtracker (the C# `CellAction<T>`
 record tagged with a `DiffActionType`), and the source and destination
 elements a trace of them accounts for.
 */
module Actions {

  /** The kind of one backtracking step. */
  datatype DiffActionType = Same | Insert | Remove | Replace

  /**
   One step of the aligned trace. Each variant carries exactly the elements
   its kind refers to: an unchanged or substituted step both, an insertion
   the destination element, a removal the source element.
   */
  datatype CellAction<T> =
    | SameStep(sourceItem: T, destinationItem: T)
    | ReplaceStep(sourceItem: T, destinationItem: T)
    | InsertStep(destinationItem: T)
    | RemoveStep(sourceItem: T)
  {
    function ActionType(): DiffActionType {
      match this
      case SameStep(_, _) => Same
      case ReplaceStep(_, _) => Replace
      case InsertStep(_) => Insert
      case RemoveStep(_) => Remove
    }

    /** The source elements this step consumes (none for an insertion). */
    function SourceItems(): seq<T> {
      match this
      case SameStep(s, _) => [s]
      case ReplaceStep(s, _) => [s]
      case InsertStep(_) => []
      case RemoveStep(s) => [s]
    }

    /** The destination elements this step accounts for (none for a removal). */
    function DestinationItems(): seq<T> {
      match this
      case SameStep(_, d) => [d]
      case ReplaceStep(_, d) => [d]
      case InsertStep(d) => [d]
      case RemoveStep(_) => []
    }
  }

  /** The source elements a trace consumes, in order. */
  function SourceOf<T>(trace: seq<CellAction<T>>): seq<T>
  {
    if |trace| == 0 then [] else trace[0].SourceItems() + SourceOf(trace[1..])
  }

  /** The destination elements a trace accounts for, in order. */
  function DestinationOf<T>(trace: seq<CellAction<T>>): seq<T>
  {
    if |trace| == 0 then [] else trace[0].DestinationItems() + DestinationOf(trace[1..])
  }

  /** A Same step only ever pairs equal elements. */
  predicate SameStepsAgree<T(==)>(trace: seq<CellAction<T>>)
  {
    forall i :: 0 <= i < |trace| && trace[i].SameStep? ==> trace[i].sourceItem == trace[i].destinationItem
  }

  lemma {:induction false} SourceOfAppend<T>(a: seq<CellAction<T>>, b: seq<CellAction<T>>)
    ensures SourceOf(a + b) == SourceOf(a) + SourceOf(b)
    decreases |a|
  {
    if |a| == 0 {
      assert a + b == b;
    } else {
      assert (a + b)[1..] == a[1..] + b;
      SourceOfAppend(a[1..], b);
    }
  }

  lemma {:induction false} DestinationOfAppend<T>(a: seq<CellAction<T>>, b: seq<CellAction<T>>)
    ensures DestinationOf(a + b) == DestinationOf(a) + DestinationOf(b)
    decreases |a|
  {
    if |a| == 0 {
      assert a + b == b;
    } else {
      assert (a + b)[1..] == a[1..] + b;
      DestinationOfAppend(a[1..], b);
    }
  }
}
