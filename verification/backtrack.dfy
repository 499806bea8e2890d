/**
 The backtracker of `ProduceDiff`: from the last table entry back to the
 origin, one direction and one per-position action per step, then the
 stack reversal that puts the actions in forward (source) order.
 */
module Backtrack {
  import opened Actions
  import opened Lcs

  datatype Direction = None | Diagonal | Left | Up

  /** The entry above, or -1 in row 0. */
  function UpperLcs<T(==)>(source: seq<T>, destination: seq<T>, r: nat, c: nat): int
    requires r <= |destination| && c <= |source|
  {
    if r == 0 then -1 else Cell(source, destination, r - 1, c)
  }

  /** The entry to the left, or -1 in column 0. */
  function LeftLcs<T(==)>(source: seq<T>, destination: seq<T>, r: nat, c: nat): int
    requires r <= |destination| && c <= |source|
  {
    if c == 0 then -1 else Cell(source, destination, r, c - 1)
  }

  /**
   The move at row `r`, column `c`. Thanks to the -1 sentinels the walk never
   leaves the table: it stops only at the origin, moves left along row 0 and
   up along column 0, and moves diagonally only where both a row and a column
   remain.
   */
  function GetDirection<T(==)>(source: seq<T>, destination: seq<T>, r: nat, c: nat): (dir: Direction)
    requires r <= |destination| && c <= |source|
    ensures dir == None <==> r == 0 && c == 0
    ensures dir == Diagonal ==> r > 0 && c > 0
    ensures dir == Up ==> r > 0
    ensures dir == Left ==> c > 0
    ensures r == 0 && c > 0 ==> dir == Left
    ensures c == 0 && r > 0 ==> dir == Up
  {
    if r == 0 && c == 0 then None
    else
      var upper := UpperLcs(source, destination, r, c);
      var left := LeftLcs(source, destination, r, c);
      if upper == left then Diagonal
      else if upper > left then Up
      else Left
  }

  /**
   The action recorded for the move `dir` out of row `r`, column `c`: a
   diagonal move is Same when the two elements are equal and Replace
   otherwise, a move up is Insert and a move left is Remove. The action
   carries the source element of column `c` unless it moves up, and the
   destination element of row `r` unless it moves left.
   */
  function StepAction<T(==)>(source: seq<T>, destination: seq<T>, r: nat, c: nat, dir: Direction): (a: CellAction<T>)
    requires r <= |destination| && c <= |source|
    requires dir == GetDirection(source, destination, r, c) && dir != None
    ensures a.InsertStep? <==> dir == Up
    ensures a.RemoveStep? <==> dir == Left
    ensures a.SameStep? <==> dir == Diagonal && source[c - 1] == destination[r - 1]
    ensures a.SourceItems() == if dir == Up then [] else [source[c - 1]]
    ensures a.DestinationItems() == if dir == Left then [] else [destination[r - 1]]
  {
    if dir == Diagonal then
      if source[c - 1] == destination[r - 1] then SameStep(source[c - 1], destination[r - 1])
      else ReplaceStep(source[c - 1], destination[r - 1])
    else if dir == Left then RemoveStep(source[c - 1])
    else InsertStep(destination[r - 1])
  }

  /**
   The actions in the order the walk pushes them, starting at row `r`,
   column `c`. Every move lowers `r + c` by one or two, so the walk ends and
   takes between max(r, c) and r + c steps.
   */
  function Walk<T(==)>(source: seq<T>, destination: seq<T>, r: nat, c: nat): (walk: seq<CellAction<T>>)
    requires r <= |destination| && c <= |source|
    ensures Max(r, c) <= |walk| <= r + c
    decreases r + c
  {
    var dir := GetDirection(source, destination, r, c);
    if dir == None then []
    else if dir == Diagonal then [StepAction(source, destination, r, c, dir)] + Walk(source, destination, r - 1, c - 1)
    else if dir == Up then [StepAction(source, destination, r, c, dir)] + Walk(source, destination, r - 1, c)
    else [StepAction(source, destination, r, c, dir)] + Walk(source, destination, r, c - 1)
  }

  /** Popping every element of a stack: the last pushed comes out first. */
  function Reverse<X>(xs: seq<X>): (r: seq<X>)
    ensures |r| == |xs|
    ensures forall i :: 0 <= i < |xs| ==> r[i] == xs[|xs| - 1 - i]
  {
    if |xs| == 0 then [] else Reverse(xs[1..]) + [xs[0]]
  }

  /** The forward per-position trace for the whole of both sequences. */
  function ProduceDiff<T(==)>(source: seq<T>, destination: seq<T>): seq<CellAction<T>>
  {
    Reverse(Walk(source, destination, |destination|, |source|))
  }

  /** A diagonal step is Same exactly when its two elements are equal. */
  predicate StepsClassified<T(==)>(trace: seq<CellAction<T>>)
  {
    forall i :: 0 <= i < |trace| ==>
      && (trace[i].SameStep? ==> trace[i].sourceItem == trace[i].destinationItem)
      && (trace[i].ReplaceStep? ==> trace[i].sourceItem != trace[i].destinationItem)
  }

  lemma ReverseCons<X>(x: X, xs: seq<X>)
    ensures Reverse([x] + xs) == Reverse(xs) + [x]
  {
    assert ([x] + xs)[1..] == xs;
  }

  /** The row and column the move `dir` out of row `r`, column `c` leads to. */
  function NextRow(r: nat, dir: Direction): nat
    requires dir != Left ==> r > 0
  {
    if dir == Left then r else r - 1
  }

  function NextColumn(c: nat, dir: Direction): nat
    requires dir != Up ==> c > 0
  {
    if dir == Up then c else c - 1
  }

  /** One move, as the walk pushes it: this step's action, then the walk from the next entry. */
  lemma WalkUnfold<T>(source: seq<T>, destination: seq<T>, r: nat, c: nat)
    requires r <= |destination| && c <= |source| && (r > 0 || c > 0)
    ensures var dir := GetDirection(source, destination, r, c);
      Walk(source, destination, r, c)
      == [StepAction(source, destination, r, c, dir)] + Walk(source, destination, NextRow(r, dir), NextColumn(c, dir))
  {
  }

  /** One move, seen from the forward end: the earlier trace, then this step's action. */
  lemma WalkStep<T>(source: seq<T>, destination: seq<T>, r: nat, c: nat)
    requires r <= |destination| && c <= |source| && (r > 0 || c > 0)
    ensures var dir := GetDirection(source, destination, r, c);
      Reverse(Walk(source, destination, r, c))
      == Reverse(Walk(source, destination, NextRow(r, dir), NextColumn(c, dir))) + [StepAction(source, destination, r, c, dir)]
  {
    var dir := GetDirection(source, destination, r, c);
    ReverseCons(StepAction(source, destination, r, c, dir), Walk(source, destination, NextRow(r, dir), NextColumn(c, dir)));
  }

  lemma PrefixGrows<X>(xs: seq<X>, n: nat)
    requires 0 < n <= |xs|
    ensures xs[..n] == xs[..n - 1] + [xs[n - 1]]
  {
  }

  /**
   Read forward, the trace from row `r`, column `c` consumes exactly the first
   `c` source elements, in order.
   */
  lemma {:induction false} WalkConsumesSource<T>(source: seq<T>, destination: seq<T>, r: nat, c: nat)
    requires r <= |destination| && c <= |source|
    ensures SourceOf(Reverse(Walk(source, destination, r, c))) == source[..c]
    decreases r + c
  {
    if r > 0 || c > 0 {
      var dir := GetDirection(source, destination, r, c);
      var a := StepAction(source, destination, r, c, dir);
      var r', c' := NextRow(r, dir), NextColumn(c, dir);
      var earlier := Reverse(Walk(source, destination, r', c'));
      WalkStep(source, destination, r, c);
      WalkConsumesSource(source, destination, r', c');
      SourceOfAppend(earlier, [a]);
      assert SourceOf([a]) == a.SourceItems();
      if dir != Up {
        PrefixGrows(source, c);
      }
    }
  }

  /**
   Read forward, the trace from row `r`, column `c` accounts for exactly the
   first `r` destination elements, in order.
   */
  lemma {:induction false} WalkConsumesDestination<T>(source: seq<T>, destination: seq<T>, r: nat, c: nat)
    requires r <= |destination| && c <= |source|
    ensures DestinationOf(Reverse(Walk(source, destination, r, c))) == destination[..r]
    decreases r + c
  {
    if r > 0 || c > 0 {
      var dir := GetDirection(source, destination, r, c);
      var a := StepAction(source, destination, r, c, dir);
      var r', c' := NextRow(r, dir), NextColumn(c, dir);
      var earlier := Reverse(Walk(source, destination, r', c'));
      WalkStep(source, destination, r, c);
      WalkConsumesDestination(source, destination, r', c');
      DestinationOfAppend(earlier, [a]);
      assert DestinationOf([a]) == a.DestinationItems();
      if dir != Left {
        PrefixGrows(destination, r);
      }
    }
  }

  lemma StepsClassifiedAppend<T>(front: seq<CellAction<T>>, back: seq<CellAction<T>>)
    requires StepsClassified(front) && StepsClassified(back)
    ensures StepsClassified(front + back)
  {
    forall i | 0 <= i < |front + back|
      ensures (front + back)[i] == if i < |front| then front[i] else back[i - |front|]
    {
    }
  }

  /** Every diagonal step of the walk is classified by element equality. */
  lemma {:induction false} WalkClassified<T>(source: seq<T>, destination: seq<T>, r: nat, c: nat)
    requires r <= |destination| && c <= |source|
    ensures StepsClassified(Walk(source, destination, r, c))
    decreases r + c
  {
    if r > 0 || c > 0 {
      var dir := GetDirection(source, destination, r, c);
      var a := StepAction(source, destination, r, c, dir);
      var rest := Walk(source, destination, NextRow(r, dir), NextColumn(c, dir));
      WalkClassified(source, destination, NextRow(r, dir), NextColumn(c, dir));
      assert Walk(source, destination, r, c) == [a] + rest;
      assert StepsClassified([a]);
      StepsClassifiedAppend([a], rest);
    }
  }

  /**
   The trace lists all of `source` through its Same, Replace and Remove steps
   and all of `destination` through its Same, Replace and Insert steps; its
   length lies between the longer input and the sum of both.
   */
  lemma ProduceDiffConsumesInputs<T>(source: seq<T>, destination: seq<T>)
    ensures SourceOf(ProduceDiff(source, destination)) == source
    ensures DestinationOf(ProduceDiff(source, destination)) == destination
    ensures StepsClassified(ProduceDiff(source, destination))
    ensures Max(|source|, |destination|) <= |ProduceDiff(source, destination)| <= |source| + |destination|
  {
    WalkConsumesSource(source, destination, |destination|, |source|);
    WalkConsumesDestination(source, destination, |destination|, |source|);
    WalkClassified(source, destination, |destination|, |source|);
    assert source[..|source|] == source;
    assert destination[..|destination|] == destination;
  }

  lemma {:induction false} DiagonalCell<T>(s: seq<T>, i: nat)
    requires i <= |s|
    ensures Cell(s, s, i, i) == i
  {
    if i > 0 {
      DiagonalCell(s, i - 1);
    }
  }

  /** On the diagonal of a sequence against itself the walk moves diagonally and records a Same step. */
  lemma DiagonalStep<T>(s: seq<T>, i: nat)
    requires 0 < i <= |s|
    ensures GetDirection(s, s, i, i) == Diagonal
    ensures Walk(s, s, i, i) == [SameStep(s[i - 1], s[i - 1])] + Walk(s, s, i - 1, i - 1)
  {
    DiagonalCell(s, i - 1);
    CellSteps(s, s, i - 1, i);
    CellSteps(s, s, i, i - 1);
    assert GetDirection(s, s, i, i) == Diagonal;
  }

  /** Walking a sequence against itself stays on the diagonal and records only Same steps. */
  lemma {:induction false} WalkIdentical<T>(s: seq<T>, i: nat)
    requires i <= |s|
    ensures |Walk(s, s, i, i)| == i
    ensures forall k :: 0 <= k < i ==> Walk(s, s, i, i)[k] == SameStep(s[i - 1 - k], s[i - 1 - k])
  {
    if i > 0 {
      var walk, rest := Walk(s, s, i, i), Walk(s, s, i - 1, i - 1);
      DiagonalStep(s, i);
      WalkIdentical(s, i - 1);
      forall k | 0 <= k < i
        ensures walk[k] == SameStep(s[i - 1 - k], s[i - 1 - k])
      {
        if k > 0 {
          var j := k - 1;
          assert walk[k] == rest[j];
          assert rest[j] == SameStep(s[i - 1 - 1 - j], s[i - 1 - 1 - j]);
          assert i - 1 - 1 - j == i - 1 - k;
        }
      }
    }
  }

  lemma ProduceDiffIdentical<T>(s: seq<T>)
    ensures |ProduceDiff(s, s)| == |s|
    ensures forall k :: 0 <= k < |s| ==> ProduceDiff(s, s)[k] == SameStep(s[k], s[k])
  {
    var walk := Walk(s, s, |s|, |s|);
    WalkIdentical(s, |s|);
    var trace := Reverse(walk);
    assert ProduceDiff(s, s) == trace;
    forall k | 0 <= k < |s|
      ensures trace[k] == SameStep(s[k], s[k])
    {
      assert trace[k] == walk[|s| - 1 - k];
    }
  }

  lemma {:induction false} WalkFromEmptySource<T>(destination: seq<T>, r: nat)
    requires r <= |destination|
    ensures |Walk([], destination, r, 0)| == r
    ensures forall k :: 0 <= k < r ==> Walk([], destination, r, 0)[k] == InsertStep(destination[r - 1 - k])
  {
    if r > 0 {
      WalkFromEmptySource(destination, r - 1);
    }
  }

  lemma {:induction false} WalkToEmptyDestination<T>(source: seq<T>, c: nat)
    requires c <= |source|
    ensures |Walk(source, [], 0, c)| == c
    ensures forall k :: 0 <= k < c ==> Walk(source, [], 0, c)[k] == RemoveStep(source[c - 1 - k])
  {
    if c > 0 {
      WalkToEmptyDestination(source, c - 1);
    }
  }
}
