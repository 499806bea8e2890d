/**
 The result of the engine (the C# `DiffPatchAction<T>`) and what a patch
 means: replaying it against the source sequence.
 */
module Patch {

  datatype Option<T> = None | Some(value: T)

  datatype DiffPatchActionType = Insert | Remove | Replace

  /**
   A change that starts at `index` in the original source. Datatype equality
   compares kind, index and items, as the C# `Equals` does.
   */
  datatype DiffPatchAction<T> = DiffPatchAction(actionType: DiffPatchActionType, index: int, items: seq<T>)
  {
    /** How many source elements the change takes away. */
    function Consumed(): nat {
      if actionType == Insert then 0 else |items|
    }

    /** The elements the change puts in their place. */
    function Emitted(): seq<T> {
      if actionType == Remove then [] else items
    }
  }

  /**
   Replays `patch` against `source` from position `cursor`: copy the untouched
   elements up to each action's index, drop the elements a Remove or Replace
   consumes, emit the items of an Insert or Replace, and copy whatever is left
   at the end. An action that starts before the cursor or runs past the end of
   the source makes the replay fail.
   */
  function ApplyFrom<T>(source: seq<T>, patch: seq<DiffPatchAction<T>>, cursor: nat): Option<seq<T>>
    decreases |patch|
  {
    if |patch| == 0 then
      if cursor <= |source| then Some(source[cursor..]) else None
    else
      var a := patch[0];
      if a.index < cursor || a.index + a.Consumed() > |source| then None
      else
        var rest := ApplyFrom(source, patch[1..], a.index + a.Consumed());
        if rest.None? then None else Some(source[cursor..a.index] + a.Emitted() + rest.value)
  }

  function Apply<T>(source: seq<T>, patch: seq<DiffPatchAction<T>>): Option<seq<T>>
  {
    ApplyFrom(source, patch, 0)
  }

  /** Actions come in source order and never touch the same source element twice. */
  predicate Ordered<T>(patch: seq<DiffPatchAction<T>>)
  {
    forall j :: 0 <= j < |patch| - 1 ==> patch[j].index + patch[j].Consumed() <= patch[j + 1].index
  }

  /** Replaying an action followed by more: the gap up to the action, its items, then the rest from its end. */
  lemma ApplyFromCons<T>(source: seq<T>, a: DiffPatchAction<T>, rest: seq<DiffPatchAction<T>>, cursor: nat)
    requires cursor <= a.index && a.index + a.Consumed() <= |source|
    requires ApplyFrom(source, rest, a.index + a.Consumed()).Some?
    ensures ApplyFrom(source, [a] + rest, cursor)
         == Some(source[cursor..a.index] + a.Emitted() + ApplyFrom(source, rest, a.index + a.Consumed()).value)
  {
    assert ([a] + rest)[0] == a && ([a] + rest)[1..] == rest;
  }

  /**
   Starting the replay earlier than the first action only copies the extra
   untouched elements.
   */
  lemma {:induction false} ApplyFromEarlier<T>(source: seq<T>, patch: seq<DiffPatchAction<T>>, from: nat, to: nat)
    requires from <= to
    requires |patch| > 0 ==> to <= patch[0].index
    requires ApplyFrom(source, patch, to).Some?
    ensures ApplyFrom(source, patch, from) == Some(source[from..to] + ApplyFrom(source, patch, to).value)
  {
    if |patch| == 0 {
      assert source[from..] == source[from..to] + source[to..];
    } else {
      var a := patch[0];
      var rest := ApplyFrom(source, patch[1..], a.index + a.Consumed()).value;
      assert ApplyFrom(source, patch, to).value == source[to..a.index] + a.Emitted() + rest;
      assert source[from..a.index] == source[from..to] + source[to..a.index];
      assert ApplyFrom(source, patch, from) == Some(source[from..a.index] + a.Emitted() + rest);
      assert source[from..a.index] + a.Emitted() + rest == source[from..to] + (source[to..a.index] + a.Emitted() + rest);
    }
  }

  /**
   Every Remove action holds the source elements it removes: its items are
   the slice of the source from its index on.
   */
  predicate RemovalsMatch<T(==)>(source: seq<T>, patch: seq<DiffPatchAction<T>>)
  {
    forall j :: 0 <= j < |patch| && patch[j].actionType == Remove ==>
      && 0 <= patch[j].index
      && patch[j].index + |patch[j].items| <= |source|
      && patch[j].items == source[patch[j].index..patch[j].index + |patch[j].items|]
  }

  lemma RemovalsMatchAppend<T>(source: seq<T>, front: seq<DiffPatchAction<T>>, back: seq<DiffPatchAction<T>>)
    requires RemovalsMatch(source, front) && RemovalsMatch(source, back)
    ensures RemovalsMatch(source, front + back)
  {
    forall j | 0 <= j < |front + back| && (front + back)[j].actionType == Remove
      ensures (front + back)[j].items == source[(front + back)[j].index..(front + back)[j].index + |(front + back)[j].items|]
    {
      if j >= |front| {
        assert (front + back)[j] == back[j - |front|];
      }
    }
  }
}
