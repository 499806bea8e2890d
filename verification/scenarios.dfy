/**
 Worked examples: the patches the unit tests expect for their three
 character scenarios, and two small inputs that show how the tie-break and
 the compressor behave. Each example is proved by evaluating the model step
 by step: first the table entries the walk reads, then the walk, the stack
 reversal and the compression. The inputs are passed as parameters fixed by
 a precondition, so that the verifier unfolds each definition only as far as
 a step needs.
 */
module Scenarios {
  import opened Actions
  import opened Patch
  import opened Compress
  import opened DiffPatch
  import Backtrack
  import Lcs

  /** Table entries of rows 0 to 7. */
  lemma Scenario1Rows0(source: seq<char>, destination: seq<char>)
    requires source == "ABCDCBA" && destination == "DCBAABB"
    ensures
      && Lcs.Cell(source, destination, 0, 0) == 0
      && Lcs.Cell(source, destination, 0, 1) == 0
      && Lcs.Cell(source, destination, 0, 2) == 0
      && Lcs.Cell(source, destination, 0, 3) == 0
      && Lcs.Cell(source, destination, 0, 4) == 0
      && Lcs.Cell(source, destination, 0, 5) == 0
      && Lcs.Cell(source, destination, 0, 6) == 0
      && Lcs.Cell(source, destination, 0, 7) == 0
      && Lcs.Cell(source, destination, 1, 0) == 0
      && Lcs.Cell(source, destination, 1, 1) == 0
      && Lcs.Cell(source, destination, 1, 2) == 0
      && Lcs.Cell(source, destination, 1, 3) == 0
      && Lcs.Cell(source, destination, 1, 4) == 1
      && Lcs.Cell(source, destination, 1, 5) == 1
      && Lcs.Cell(source, destination, 1, 6) == 1
      && Lcs.Cell(source, destination, 1, 7) == 1
      && Lcs.Cell(source, destination, 2, 0) == 0
      && Lcs.Cell(source, destination, 2, 1) == 0
      && Lcs.Cell(source, destination, 2, 2) == 0
      && Lcs.Cell(source, destination, 2, 3) == 1
      && Lcs.Cell(source, destination, 2, 4) == 1
      && Lcs.Cell(source, destination, 2, 5) == 2
      && Lcs.Cell(source, destination, 2, 6) == 2
      && Lcs.Cell(source, destination, 2, 7) == 2
      && Lcs.Cell(source, destination, 3, 0) == 0
      && Lcs.Cell(source, destination, 3, 1) == 0
      && Lcs.Cell(source, destination, 3, 2) == 1
      && Lcs.Cell(source, destination, 3, 3) == 1
      && Lcs.Cell(source, destination, 3, 4) == 1
      && Lcs.Cell(source, destination, 3, 5) == 2
      && Lcs.Cell(source, destination, 3, 6) == 3
      && Lcs.Cell(source, destination, 3, 7) == 3
      && Lcs.Cell(source, destination, 4, 0) == 0
      && Lcs.Cell(source, destination, 4, 1) == 1
      && Lcs.Cell(source, destination, 4, 2) == 1
      && Lcs.Cell(source, destination, 4, 3) == 1
      && Lcs.Cell(source, destination, 4, 4) == 1
      && Lcs.Cell(source, destination, 4, 5) == 2
      && Lcs.Cell(source, destination, 4, 6) == 3
      && Lcs.Cell(source, destination, 4, 7) == 4
      && Lcs.Cell(source, destination, 5, 0) == 0
      && Lcs.Cell(source, destination, 5, 1) == 1
      && Lcs.Cell(source, destination, 5, 2) == 1
      && Lcs.Cell(source, destination, 5, 3) == 1
      && Lcs.Cell(source, destination, 5, 4) == 1
      && Lcs.Cell(source, destination, 5, 5) == 2
      && Lcs.Cell(source, destination, 5, 6) == 3
      && Lcs.Cell(source, destination, 5, 7) == 4
      && Lcs.Cell(source, destination, 6, 0) == 0
      && Lcs.Cell(source, destination, 6, 1) == 1
      && Lcs.Cell(source, destination, 6, 2) == 2
      && Lcs.Cell(source, destination, 6, 3) == 2
      && Lcs.Cell(source, destination, 6, 4) == 2
      && Lcs.Cell(source, destination, 6, 5) == 2
      && Lcs.Cell(source, destination, 6, 6) == 3
      && Lcs.Cell(source, destination, 6, 7) == 4
      && Lcs.Cell(source, destination, 7, 0) == 0
      && Lcs.Cell(source, destination, 7, 1) == 1
      && Lcs.Cell(source, destination, 7, 2) == 2
      && Lcs.Cell(source, destination, 7, 3) == 2
      && Lcs.Cell(source, destination, 7, 4) == 2
      && Lcs.Cell(source, destination, 7, 5) == 2
      && Lcs.Cell(source, destination, 7, 6) == 3
      && Lcs.Cell(source, destination, 7, 7) == 4
  {
  }

  /** The walk from its step 0 on. */
  lemma Scenario1WalkFrom0(source: seq<char>, destination: seq<char>)
    requires source == "ABCDCBA" && destination == "DCBAABB"
    ensures Backtrack.Walk(source, destination, 7, 7) == [InsertStep('B'), InsertStep('B'), InsertStep('A'), SameStep('A', 'A'), SameStep('B', 'B'), SameStep('C', 'C'), SameStep('D', 'D'), RemoveStep('C'), RemoveStep('B'), RemoveStep('A')]
  {
    Scenario1Rows0(source, destination);
  }

  /** Compression of the trace from its step 8 on. */
  lemma Scenario1ChunksFrom8(trace: seq<CellAction<char>>)
    requires trace == [RemoveStep('A'), RemoveStep('B'), RemoveStep('C'), SameStep('D', 'D'), SameStep('C', 'C'), SameStep('B', 'B'), SameStep('A', 'A'), InsertStep('A'), InsertStep('B'), InsertStep('B')]
    ensures Chunks(trace[8..], DiffActionType.Insert, "A", 7, 7) == [DiffPatchAction(DiffPatchActionType.Insert, 7, "ABB")]
  {
    assert Chunks(trace[8..], DiffActionType.Insert, "A", 7, 7) == Chunks(trace[9..], DiffActionType.Insert, "AB", 7, 7) by {
      assert trace[8..][0] == trace[8];
      assert trace[8..][1..] == trace[9..];
      assert "A" + ['B'] == "AB";
    }
    assert Chunks(trace[9..], DiffActionType.Insert, "AB", 7, 7) == Chunks(trace[10..], DiffActionType.Insert, "ABB", 7, 7) by {
      assert trace[9..][0] == trace[9];
      assert trace[9..][1..] == trace[10..];
      assert "AB" + ['B'] == "ABB";
    }
  }

  /** Compression of the trace from its step 6 on. */
  lemma Scenario1ChunksFrom6(trace: seq<CellAction<char>>)
    requires trace == [RemoveStep('A'), RemoveStep('B'), RemoveStep('C'), SameStep('D', 'D'), SameStep('C', 'C'), SameStep('B', 'B'), SameStep('A', 'A'), InsertStep('A'), InsertStep('B'), InsertStep('B')]
    ensures Chunks(trace[6..], DiffActionType.Same, [], 3, 6) == [DiffPatchAction(DiffPatchActionType.Insert, 7, "ABB")]
  {
    Scenario1ChunksFrom8(trace);
    assert Chunks(trace[6..], DiffActionType.Same, [], 3, 6) == Chunks(trace[7..], DiffActionType.Same, [], 3, 7) by {
      assert trace[6..][0] == trace[6];
      assert trace[6..][1..] == trace[7..];
    }
    assert Chunks(trace[7..], DiffActionType.Same, [], 3, 7) == Chunks(trace[8..], DiffActionType.Insert, "A", 7, 7) by {
      assert trace[7..][0] == trace[7];
      assert trace[7..][1..] == trace[8..];
      assert [] + ['A'] == "A";
    }
  }

  /** Compression of the trace from its step 4 on. */
  lemma Scenario1ChunksFrom4(trace: seq<CellAction<char>>)
    requires trace == [RemoveStep('A'), RemoveStep('B'), RemoveStep('C'), SameStep('D', 'D'), SameStep('C', 'C'), SameStep('B', 'B'), SameStep('A', 'A'), InsertStep('A'), InsertStep('B'), InsertStep('B')]
    ensures Chunks(trace[4..], DiffActionType.Same, [], 3, 4) == [DiffPatchAction(DiffPatchActionType.Insert, 7, "ABB")]
  {
    Scenario1ChunksFrom6(trace);
    assert Chunks(trace[4..], DiffActionType.Same, [], 3, 4) == Chunks(trace[5..], DiffActionType.Same, [], 3, 5) by {
      assert trace[4..][0] == trace[4];
      assert trace[4..][1..] == trace[5..];
    }
    assert Chunks(trace[5..], DiffActionType.Same, [], 3, 5) == Chunks(trace[6..], DiffActionType.Same, [], 3, 6) by {
      assert trace[5..][0] == trace[5];
      assert trace[5..][1..] == trace[6..];
    }
  }

  /** Compression of the trace from its step 2 on. */
  lemma Scenario1ChunksFrom2(trace: seq<CellAction<char>>)
    requires trace == [RemoveStep('A'), RemoveStep('B'), RemoveStep('C'), SameStep('D', 'D'), SameStep('C', 'C'), SameStep('B', 'B'), SameStep('A', 'A'), InsertStep('A'), InsertStep('B'), InsertStep('B')]
    ensures Chunks(trace[2..], DiffActionType.Remove, "AB", 0, 2) == [DiffPatchAction(DiffPatchActionType.Remove, 0, "ABC"), DiffPatchAction(DiffPatchActionType.Insert, 7, "ABB")]
  {
    Scenario1ChunksFrom4(trace);
    assert Chunks(trace[2..], DiffActionType.Remove, "AB", 0, 2) == Chunks(trace[3..], DiffActionType.Remove, "ABC", 0, 3) by {
      assert trace[2..][0] == trace[2];
      assert trace[2..][1..] == trace[3..];
      assert "AB" + ['C'] == "ABC";
    }
    assert Chunks(trace[3..], DiffActionType.Remove, "ABC", 0, 3) == [DiffPatchAction(DiffPatchActionType.Remove, 0, "ABC")] + Chunks(trace[4..], DiffActionType.Same, [], 3, 4) by {
      assert trace[3..][0] == trace[3];
      assert trace[3..][1..] == trace[4..];
    }
  }

  /** Compression of the trace from its step 0 on. */
  lemma Scenario1ChunksFrom0(trace: seq<CellAction<char>>)
    requires trace == [RemoveStep('A'), RemoveStep('B'), RemoveStep('C'), SameStep('D', 'D'), SameStep('C', 'C'), SameStep('B', 'B'), SameStep('A', 'A'), InsertStep('A'), InsertStep('B'), InsertStep('B')]
    ensures Chunks(trace, DiffActionType.Same, [], 0, 0) == [DiffPatchAction(DiffPatchActionType.Remove, 0, "ABC"), DiffPatchAction(DiffPatchActionType.Insert, 7, "ABB")]
  {
    Scenario1ChunksFrom2(trace);
    assert Chunks(trace, DiffActionType.Same, [], 0, 0) == Chunks(trace[1..], DiffActionType.Remove, "A", 0, 1) by {
      assert [] + ['A'] == "A";
    }
    assert Chunks(trace[1..], DiffActionType.Remove, "A", 0, 1) == Chunks(trace[2..], DiffActionType.Remove, "AB", 0, 2) by {
      assert trace[1..][0] == trace[1];
      assert trace[1..][1..] == trace[2..];
      assert "A" + ['B'] == "AB";
    }
  }

  /** Popping the walk's stack. */
  lemma Scenario1Reverse(walk: seq<CellAction<char>>)
    requires walk == [InsertStep('B'), InsertStep('B'), InsertStep('A'), SameStep('A', 'A'), SameStep('B', 'B'), SameStep('C', 'C'), SameStep('D', 'D'), RemoveStep('C'), RemoveStep('B'), RemoveStep('A')]
    ensures Backtrack.Reverse(walk) == [RemoveStep('A'), RemoveStep('B'), RemoveStep('C'), SameStep('D', 'D'), SameStep('C', 'C'), SameStep('B', 'B'), SameStep('A', 'A'), InsertStep('A'), InsertStep('B'), InsertStep('B')]
  {
    var diff := Backtrack.Reverse(walk);
    assert diff[0] == walk[9];
    assert diff[1] == walk[8];
    assert diff[2] == walk[7];
    assert diff[3] == walk[6];
    assert diff[4] == walk[5];
    assert diff[5] == walk[4];
    assert diff[6] == walk[3];
    assert diff[7] == walk[2];
    assert diff[8] == walk[1];
    assert diff[9] == walk[0];
  }

  /** The forward trace. */
  lemma Scenario1Trace(source: seq<char>, destination: seq<char>)
    requires source == "ABCDCBA" && destination == "DCBAABB"
    ensures Backtrack.ProduceDiff(source, destination) == [RemoveStep('A'), RemoveStep('B'), RemoveStep('C'), SameStep('D', 'D'), SameStep('C', 'C'), SameStep('B', 'B'), SameStep('A', 'A'), InsertStep('A'), InsertStep('B'), InsertStep('B')]
  {
    Scenario1WalkFrom0(source, destination);
    Scenario1Reverse(Backtrack.Walk(source, destination, |destination|, |source|));
  }

  /** The patch, for inputs given as parameters. */
  lemma Scenario1Of(source: seq<char>, destination: seq<char>)
    requires source == "ABCDCBA" && destination == "DCBAABB"
    ensures ProduceDiffPatch(source, destination) == [DiffPatchAction(DiffPatchActionType.Remove, 0, "ABC"), DiffPatchAction(DiffPatchActionType.Insert, 7, "ABB")]
  {
    Scenario1Trace(source, destination);
    Scenario1ChunksFrom0(Backtrack.ProduceDiff(source, destination));
  }

  /** The first unit-test scenario: the leading "ABC" is removed and "ABB" is appended after the source. */
  lemma Scenario1()
    ensures ProduceDiffPatch("ABCDCBA", "DCBAABB") == [DiffPatchAction(DiffPatchActionType.Remove, 0, "ABC"), DiffPatchAction(DiffPatchActionType.Insert, 7, "ABB")]
  {
    Scenario1Of("ABCDCBA", "DCBAABB");
  }

  /** Table entries of rows 0 to 7. */
  lemma Scenario2Rows0(source: seq<char>, destination: seq<char>)
    requires source == "ABCDCBA2345" && destination == "DCBAABD"
    ensures
      && Lcs.Cell(source, destination, 0, 0) == 0
      && Lcs.Cell(source, destination, 0, 1) == 0
      && Lcs.Cell(source, destination, 0, 2) == 0
      && Lcs.Cell(source, destination, 0, 3) == 0
      && Lcs.Cell(source, destination, 0, 4) == 0
      && Lcs.Cell(source, destination, 0, 5) == 0
      && Lcs.Cell(source, destination, 0, 6) == 0
      && Lcs.Cell(source, destination, 0, 7) == 0
      && Lcs.Cell(source, destination, 0, 8) == 0
      && Lcs.Cell(source, destination, 0, 9) == 0
      && Lcs.Cell(source, destination, 0, 10) == 0
      && Lcs.Cell(source, destination, 0, 11) == 0
      && Lcs.Cell(source, destination, 1, 0) == 0
      && Lcs.Cell(source, destination, 1, 1) == 0
      && Lcs.Cell(source, destination, 1, 2) == 0
      && Lcs.Cell(source, destination, 1, 3) == 0
      && Lcs.Cell(source, destination, 1, 4) == 1
      && Lcs.Cell(source, destination, 1, 5) == 1
      && Lcs.Cell(source, destination, 1, 6) == 1
      && Lcs.Cell(source, destination, 1, 7) == 1
      && Lcs.Cell(source, destination, 1, 8) == 1
      && Lcs.Cell(source, destination, 1, 9) == 1
      && Lcs.Cell(source, destination, 1, 10) == 1
      && Lcs.Cell(source, destination, 1, 11) == 1
      && Lcs.Cell(source, destination, 2, 0) == 0
      && Lcs.Cell(source, destination, 2, 1) == 0
      && Lcs.Cell(source, destination, 2, 2) == 0
      && Lcs.Cell(source, destination, 2, 3) == 1
      && Lcs.Cell(source, destination, 2, 4) == 1
      && Lcs.Cell(source, destination, 2, 5) == 2
      && Lcs.Cell(source, destination, 2, 6) == 2
      && Lcs.Cell(source, destination, 2, 7) == 2
      && Lcs.Cell(source, destination, 2, 8) == 2
      && Lcs.Cell(source, destination, 2, 9) == 2
      && Lcs.Cell(source, destination, 2, 10) == 2
      && Lcs.Cell(source, destination, 2, 11) == 2
      && Lcs.Cell(source, destination, 3, 0) == 0
      && Lcs.Cell(source, destination, 3, 1) == 0
      && Lcs.Cell(source, destination, 3, 2) == 1
      && Lcs.Cell(source, destination, 3, 3) == 1
      && Lcs.Cell(source, destination, 3, 4) == 1
      && Lcs.Cell(source, destination, 3, 5) == 2
      && Lcs.Cell(source, destination, 3, 6) == 3
      && Lcs.Cell(source, destination, 3, 7) == 3
      && Lcs.Cell(source, destination, 3, 8) == 3
      && Lcs.Cell(source, destination, 3, 9) == 3
      && Lcs.Cell(source, destination, 3, 10) == 3
      && Lcs.Cell(source, destination, 3, 11) == 3
      && Lcs.Cell(source, destination, 4, 0) == 0
      && Lcs.Cell(source, destination, 4, 1) == 1
      && Lcs.Cell(source, destination, 4, 2) == 1
      && Lcs.Cell(source, destination, 4, 3) == 1
      && Lcs.Cell(source, destination, 4, 4) == 1
      && Lcs.Cell(source, destination, 4, 5) == 2
      && Lcs.Cell(source, destination, 4, 6) == 3
      && Lcs.Cell(source, destination, 4, 7) == 4
      && Lcs.Cell(source, destination, 4, 8) == 4
      && Lcs.Cell(source, destination, 4, 9) == 4
      && Lcs.Cell(source, destination, 4, 10) == 4
      && Lcs.Cell(source, destination, 4, 11) == 4
      && Lcs.Cell(source, destination, 5, 0) == 0
      && Lcs.Cell(source, destination, 5, 1) == 1
      && Lcs.Cell(source, destination, 5, 2) == 1
      && Lcs.Cell(source, destination, 5, 3) == 1
      && Lcs.Cell(source, destination, 5, 4) == 1
      && Lcs.Cell(source, destination, 5, 5) == 2
      && Lcs.Cell(source, destination, 5, 6) == 3
      && Lcs.Cell(source, destination, 5, 7) == 4
      && Lcs.Cell(source, destination, 5, 8) == 4
      && Lcs.Cell(source, destination, 5, 9) == 4
      && Lcs.Cell(source, destination, 5, 10) == 4
      && Lcs.Cell(source, destination, 5, 11) == 4
      && Lcs.Cell(source, destination, 6, 0) == 0
      && Lcs.Cell(source, destination, 6, 1) == 1
      && Lcs.Cell(source, destination, 6, 2) == 2
      && Lcs.Cell(source, destination, 6, 3) == 2
      && Lcs.Cell(source, destination, 6, 4) == 2
      && Lcs.Cell(source, destination, 6, 5) == 2
      && Lcs.Cell(source, destination, 6, 6) == 3
      && Lcs.Cell(source, destination, 6, 7) == 4
      && Lcs.Cell(source, destination, 6, 8) == 4
      && Lcs.Cell(source, destination, 6, 9) == 4
      && Lcs.Cell(source, destination, 6, 10) == 4
      && Lcs.Cell(source, destination, 6, 11) == 4
      && Lcs.Cell(source, destination, 7, 0) == 0
      && Lcs.Cell(source, destination, 7, 1) == 1
      && Lcs.Cell(source, destination, 7, 2) == 2
      && Lcs.Cell(source, destination, 7, 3) == 2
      && Lcs.Cell(source, destination, 7, 4) == 3
      && Lcs.Cell(source, destination, 7, 5) == 3
      && Lcs.Cell(source, destination, 7, 6) == 3
      && Lcs.Cell(source, destination, 7, 7) == 4
      && Lcs.Cell(source, destination, 7, 8) == 4
      && Lcs.Cell(source, destination, 7, 9) == 4
      && Lcs.Cell(source, destination, 7, 10) == 4
      && Lcs.Cell(source, destination, 7, 11) == 4
  {
  }

  /** The walk from its step 0 on. */
  lemma Scenario2WalkFrom0(source: seq<char>, destination: seq<char>)
    requires source == "ABCDCBA2345" && destination == "DCBAABD"
    ensures Backtrack.Walk(source, destination, 7, 11) == [ReplaceStep('5', 'D'), ReplaceStep('4', 'B'), ReplaceStep('3', 'A'), RemoveStep('2'), SameStep('A', 'A'), SameStep('B', 'B'), SameStep('C', 'C'), SameStep('D', 'D'), RemoveStep('C'), RemoveStep('B'), RemoveStep('A')]
  {
    Scenario2Rows0(source, destination);
  }

  /** Compression of the trace from its step 10 on. */
  lemma Scenario2ChunksFrom10(trace: seq<CellAction<char>>)
    requires trace == [RemoveStep('A'), RemoveStep('B'), RemoveStep('C'), SameStep('D', 'D'), SameStep('C', 'C'), SameStep('B', 'B'), SameStep('A', 'A'), RemoveStep('2'), ReplaceStep('3', 'A'), ReplaceStep('4', 'B'), ReplaceStep('5', 'D')]
    ensures Chunks(trace[10..], DiffActionType.Replace, "AB", 8, 10) == [DiffPatchAction(DiffPatchActionType.Replace, 8, "ABD")]
  {
    assert Chunks(trace[10..], DiffActionType.Replace, "AB", 8, 10) == Chunks(trace[11..], DiffActionType.Replace, "ABD", 8, 11) by {
      assert trace[10..][0] == trace[10];
      assert trace[10..][1..] == trace[11..];
      assert "AB" + ['D'] == "ABD";
    }
  }

  /** Compression of the trace from its step 8 on. */
  lemma Scenario2ChunksFrom8(trace: seq<CellAction<char>>)
    requires trace == [RemoveStep('A'), RemoveStep('B'), RemoveStep('C'), SameStep('D', 'D'), SameStep('C', 'C'), SameStep('B', 'B'), SameStep('A', 'A'), RemoveStep('2'), ReplaceStep('3', 'A'), ReplaceStep('4', 'B'), ReplaceStep('5', 'D')]
    ensures Chunks(trace[8..], DiffActionType.Remove, "2", 7, 8) == [DiffPatchAction(DiffPatchActionType.Remove, 7, "2"), DiffPatchAction(DiffPatchActionType.Replace, 8, "ABD")]
  {
    Scenario2ChunksFrom10(trace);
    assert Chunks(trace[8..], DiffActionType.Remove, "2", 7, 8) == [DiffPatchAction(DiffPatchActionType.Remove, 7, "2")] + Chunks(trace[9..], DiffActionType.Replace, "A", 8, 9) by {
      assert trace[8..][0] == trace[8];
      assert trace[8..][1..] == trace[9..];
      assert [] + ['A'] == "A";
    }
    assert Chunks(trace[9..], DiffActionType.Replace, "A", 8, 9) == Chunks(trace[10..], DiffActionType.Replace, "AB", 8, 10) by {
      assert trace[9..][0] == trace[9];
      assert trace[9..][1..] == trace[10..];
      assert "A" + ['B'] == "AB";
    }
  }

  /** Compression of the trace from its step 6 on. */
  lemma Scenario2ChunksFrom6(trace: seq<CellAction<char>>)
    requires trace == [RemoveStep('A'), RemoveStep('B'), RemoveStep('C'), SameStep('D', 'D'), SameStep('C', 'C'), SameStep('B', 'B'), SameStep('A', 'A'), RemoveStep('2'), ReplaceStep('3', 'A'), ReplaceStep('4', 'B'), ReplaceStep('5', 'D')]
    ensures Chunks(trace[6..], DiffActionType.Same, [], 3, 6) == [DiffPatchAction(DiffPatchActionType.Remove, 7, "2"), DiffPatchAction(DiffPatchActionType.Replace, 8, "ABD")]
  {
    Scenario2ChunksFrom8(trace);
    assert Chunks(trace[6..], DiffActionType.Same, [], 3, 6) == Chunks(trace[7..], DiffActionType.Same, [], 3, 7) by {
      assert trace[6..][0] == trace[6];
      assert trace[6..][1..] == trace[7..];
    }
    assert Chunks(trace[7..], DiffActionType.Same, [], 3, 7) == Chunks(trace[8..], DiffActionType.Remove, "2", 7, 8) by {
      assert trace[7..][0] == trace[7];
      assert trace[7..][1..] == trace[8..];
      assert [] + ['2'] == "2";
    }
  }

  /** Compression of the trace from its step 4 on. */
  lemma Scenario2ChunksFrom4(trace: seq<CellAction<char>>)
    requires trace == [RemoveStep('A'), RemoveStep('B'), RemoveStep('C'), SameStep('D', 'D'), SameStep('C', 'C'), SameStep('B', 'B'), SameStep('A', 'A'), RemoveStep('2'), ReplaceStep('3', 'A'), ReplaceStep('4', 'B'), ReplaceStep('5', 'D')]
    ensures Chunks(trace[4..], DiffActionType.Same, [], 3, 4) == [DiffPatchAction(DiffPatchActionType.Remove, 7, "2"), DiffPatchAction(DiffPatchActionType.Replace, 8, "ABD")]
  {
    Scenario2ChunksFrom6(trace);
    assert Chunks(trace[4..], DiffActionType.Same, [], 3, 4) == Chunks(trace[5..], DiffActionType.Same, [], 3, 5) by {
      assert trace[4..][0] == trace[4];
      assert trace[4..][1..] == trace[5..];
    }
    assert Chunks(trace[5..], DiffActionType.Same, [], 3, 5) == Chunks(trace[6..], DiffActionType.Same, [], 3, 6) by {
      assert trace[5..][0] == trace[5];
      assert trace[5..][1..] == trace[6..];
    }
  }

  /** Compression of the trace from its step 2 on. */
  lemma Scenario2ChunksFrom2(trace: seq<CellAction<char>>)
    requires trace == [RemoveStep('A'), RemoveStep('B'), RemoveStep('C'), SameStep('D', 'D'), SameStep('C', 'C'), SameStep('B', 'B'), SameStep('A', 'A'), RemoveStep('2'), ReplaceStep('3', 'A'), ReplaceStep('4', 'B'), ReplaceStep('5', 'D')]
    ensures Chunks(trace[2..], DiffActionType.Remove, "AB", 0, 2) == [DiffPatchAction(DiffPatchActionType.Remove, 0, "ABC"), DiffPatchAction(DiffPatchActionType.Remove, 7, "2"), DiffPatchAction(DiffPatchActionType.Replace, 8, "ABD")]
  {
    Scenario2ChunksFrom4(trace);
    assert Chunks(trace[2..], DiffActionType.Remove, "AB", 0, 2) == Chunks(trace[3..], DiffActionType.Remove, "ABC", 0, 3) by {
      assert trace[2..][0] == trace[2];
      assert trace[2..][1..] == trace[3..];
      assert "AB" + ['C'] == "ABC";
    }
    assert Chunks(trace[3..], DiffActionType.Remove, "ABC", 0, 3) == [DiffPatchAction(DiffPatchActionType.Remove, 0, "ABC")] + Chunks(trace[4..], DiffActionType.Same, [], 3, 4) by {
      assert trace[3..][0] == trace[3];
      assert trace[3..][1..] == trace[4..];
    }
  }

  /** Compression of the trace from its step 0 on. */
  lemma Scenario2ChunksFrom0(trace: seq<CellAction<char>>)
    requires trace == [RemoveStep('A'), RemoveStep('B'), RemoveStep('C'), SameStep('D', 'D'), SameStep('C', 'C'), SameStep('B', 'B'), SameStep('A', 'A'), RemoveStep('2'), ReplaceStep('3', 'A'), ReplaceStep('4', 'B'), ReplaceStep('5', 'D')]
    ensures Chunks(trace, DiffActionType.Same, [], 0, 0) == [DiffPatchAction(DiffPatchActionType.Remove, 0, "ABC"), DiffPatchAction(DiffPatchActionType.Remove, 7, "2"), DiffPatchAction(DiffPatchActionType.Replace, 8, "ABD")]
  {
    Scenario2ChunksFrom2(trace);
    assert Chunks(trace, DiffActionType.Same, [], 0, 0) == Chunks(trace[1..], DiffActionType.Remove, "A", 0, 1) by {
      assert [] + ['A'] == "A";
    }
    assert Chunks(trace[1..], DiffActionType.Remove, "A", 0, 1) == Chunks(trace[2..], DiffActionType.Remove, "AB", 0, 2) by {
      assert trace[1..][0] == trace[1];
      assert trace[1..][1..] == trace[2..];
      assert "A" + ['B'] == "AB";
    }
  }

  /** Popping the walk's stack. */
  lemma Scenario2Reverse(walk: seq<CellAction<char>>)
    requires walk == [ReplaceStep('5', 'D'), ReplaceStep('4', 'B'), ReplaceStep('3', 'A'), RemoveStep('2'), SameStep('A', 'A'), SameStep('B', 'B'), SameStep('C', 'C'), SameStep('D', 'D'), RemoveStep('C'), RemoveStep('B'), RemoveStep('A')]
    ensures Backtrack.Reverse(walk) == [RemoveStep('A'), RemoveStep('B'), RemoveStep('C'), SameStep('D', 'D'), SameStep('C', 'C'), SameStep('B', 'B'), SameStep('A', 'A'), RemoveStep('2'), ReplaceStep('3', 'A'), ReplaceStep('4', 'B'), ReplaceStep('5', 'D')]
  {
    var diff := Backtrack.Reverse(walk);
    assert diff[0] == walk[10];
    assert diff[1] == walk[9];
    assert diff[2] == walk[8];
    assert diff[3] == walk[7];
    assert diff[4] == walk[6];
    assert diff[5] == walk[5];
    assert diff[6] == walk[4];
    assert diff[7] == walk[3];
    assert diff[8] == walk[2];
    assert diff[9] == walk[1];
    assert diff[10] == walk[0];
  }

  /** The forward trace. */
  lemma Scenario2Trace(source: seq<char>, destination: seq<char>)
    requires source == "ABCDCBA2345" && destination == "DCBAABD"
    ensures Backtrack.ProduceDiff(source, destination) == [RemoveStep('A'), RemoveStep('B'), RemoveStep('C'), SameStep('D', 'D'), SameStep('C', 'C'), SameStep('B', 'B'), SameStep('A', 'A'), RemoveStep('2'), ReplaceStep('3', 'A'), ReplaceStep('4', 'B'), ReplaceStep('5', 'D')]
  {
    Scenario2WalkFrom0(source, destination);
    Scenario2Reverse(Backtrack.Walk(source, destination, |destination|, |source|));
  }

  /** The patch, for inputs given as parameters. */
  lemma Scenario2Of(source: seq<char>, destination: seq<char>)
    requires source == "ABCDCBA2345" && destination == "DCBAABD"
    ensures ProduceDiffPatch(source, destination) == [DiffPatchAction(DiffPatchActionType.Remove, 0, "ABC"), DiffPatchAction(DiffPatchActionType.Remove, 7, "2"), DiffPatchAction(DiffPatchActionType.Replace, 8, "ABD")]
  {
    Scenario2Trace(source, destination);
    Scenario2ChunksFrom0(Backtrack.ProduceDiff(source, destination));
  }

  /** The second unit-test scenario: two Remove chunks and a trailing Replace. */
  lemma Scenario2()
    ensures ProduceDiffPatch("ABCDCBA2345", "DCBAABD") == [DiffPatchAction(DiffPatchActionType.Remove, 0, "ABC"), DiffPatchAction(DiffPatchActionType.Remove, 7, "2"), DiffPatchAction(DiffPatchActionType.Replace, 8, "ABD")]
  {
    Scenario2Of("ABCDCBA2345", "DCBAABD");
  }

  /** Table entries of rows 0 to 7. */
  lemma Scenario3Rows0(source: seq<char>, destination: seq<char>)
    requires source == "ABCDEFGH" && destination == "AB1CDE2FG"
    ensures
      && Lcs.Cell(source, destination, 0, 0) == 0
      && Lcs.Cell(source, destination, 0, 1) == 0
      && Lcs.Cell(source, destination, 0, 2) == 0
      && Lcs.Cell(source, destination, 0, 3) == 0
      && Lcs.Cell(source, destination, 0, 4) == 0
      && Lcs.Cell(source, destination, 0, 5) == 0
      && Lcs.Cell(source, destination, 0, 6) == 0
      && Lcs.Cell(source, destination, 0, 7) == 0
      && Lcs.Cell(source, destination, 0, 8) == 0
      && Lcs.Cell(source, destination, 1, 0) == 0
      && Lcs.Cell(source, destination, 1, 1) == 1
      && Lcs.Cell(source, destination, 1, 2) == 1
      && Lcs.Cell(source, destination, 1, 3) == 1
      && Lcs.Cell(source, destination, 1, 4) == 1
      && Lcs.Cell(source, destination, 1, 5) == 1
      && Lcs.Cell(source, destination, 1, 6) == 1
      && Lcs.Cell(source, destination, 1, 7) == 1
      && Lcs.Cell(source, destination, 1, 8) == 1
      && Lcs.Cell(source, destination, 2, 0) == 0
      && Lcs.Cell(source, destination, 2, 1) == 1
      && Lcs.Cell(source, destination, 2, 2) == 2
      && Lcs.Cell(source, destination, 2, 3) == 2
      && Lcs.Cell(source, destination, 2, 4) == 2
      && Lcs.Cell(source, destination, 2, 5) == 2
      && Lcs.Cell(source, destination, 2, 6) == 2
      && Lcs.Cell(source, destination, 2, 7) == 2
      && Lcs.Cell(source, destination, 2, 8) == 2
      && Lcs.Cell(source, destination, 3, 0) == 0
      && Lcs.Cell(source, destination, 3, 1) == 1
      && Lcs.Cell(source, destination, 3, 2) == 2
      && Lcs.Cell(source, destination, 3, 3) == 2
      && Lcs.Cell(source, destination, 3, 4) == 2
      && Lcs.Cell(source, destination, 3, 5) == 2
      && Lcs.Cell(source, destination, 3, 6) == 2
      && Lcs.Cell(source, destination, 3, 7) == 2
      && Lcs.Cell(source, destination, 3, 8) == 2
      && Lcs.Cell(source, destination, 4, 0) == 0
      && Lcs.Cell(source, destination, 4, 1) == 1
      && Lcs.Cell(source, destination, 4, 2) == 2
      && Lcs.Cell(source, destination, 4, 3) == 3
      && Lcs.Cell(source, destination, 4, 4) == 3
      && Lcs.Cell(source, destination, 4, 5) == 3
      && Lcs.Cell(source, destination, 4, 6) == 3
      && Lcs.Cell(source, destination, 4, 7) == 3
      && Lcs.Cell(source, destination, 4, 8) == 3
      && Lcs.Cell(source, destination, 5, 0) == 0
      && Lcs.Cell(source, destination, 5, 1) == 1
      && Lcs.Cell(source, destination, 5, 2) == 2
      && Lcs.Cell(source, destination, 5, 3) == 3
      && Lcs.Cell(source, destination, 5, 4) == 4
      && Lcs.Cell(source, destination, 5, 5) == 4
      && Lcs.Cell(source, destination, 5, 6) == 4
      && Lcs.Cell(source, destination, 5, 7) == 4
      && Lcs.Cell(source, destination, 5, 8) == 4
      && Lcs.Cell(source, destination, 6, 0) == 0
      && Lcs.Cell(source, destination, 6, 1) == 1
      && Lcs.Cell(source, destination, 6, 2) == 2
      && Lcs.Cell(source, destination, 6, 3) == 3
      && Lcs.Cell(source, destination, 6, 4) == 4
      && Lcs.Cell(source, destination, 6, 5) == 5
      && Lcs.Cell(source, destination, 6, 6) == 5
      && Lcs.Cell(source, destination, 6, 7) == 5
      && Lcs.Cell(source, destination, 6, 8) == 5
      && Lcs.Cell(source, destination, 7, 0) == 0
      && Lcs.Cell(source, destination, 7, 1) == 1
      && Lcs.Cell(source, destination, 7, 2) == 2
      && Lcs.Cell(source, destination, 7, 3) == 3
      && Lcs.Cell(source, destination, 7, 4) == 4
      && Lcs.Cell(source, destination, 7, 5) == 5
      && Lcs.Cell(source, destination, 7, 6) == 5
      && Lcs.Cell(source, destination, 7, 7) == 5
      && Lcs.Cell(source, destination, 7, 8) == 5
  {
  }

  /** Table entries of rows 8 to 9. */
  lemma Scenario3Rows8(source: seq<char>, destination: seq<char>)
    requires source == "ABCDEFGH" && destination == "AB1CDE2FG"
    ensures
      && Lcs.Cell(source, destination, 8, 0) == 0
      && Lcs.Cell(source, destination, 8, 1) == 1
      && Lcs.Cell(source, destination, 8, 2) == 2
      && Lcs.Cell(source, destination, 8, 3) == 3
      && Lcs.Cell(source, destination, 8, 4) == 4
      && Lcs.Cell(source, destination, 8, 5) == 5
      && Lcs.Cell(source, destination, 8, 6) == 6
      && Lcs.Cell(source, destination, 8, 7) == 6
      && Lcs.Cell(source, destination, 8, 8) == 6
      && Lcs.Cell(source, destination, 9, 0) == 0
      && Lcs.Cell(source, destination, 9, 1) == 1
      && Lcs.Cell(source, destination, 9, 2) == 2
      && Lcs.Cell(source, destination, 9, 3) == 3
      && Lcs.Cell(source, destination, 9, 4) == 4
      && Lcs.Cell(source, destination, 9, 5) == 5
      && Lcs.Cell(source, destination, 9, 6) == 6
      && Lcs.Cell(source, destination, 9, 7) == 7
      && Lcs.Cell(source, destination, 9, 8) == 7
  {
    Scenario3Rows0(source, destination);
  }

  /** The walk from its step 0 on. */
  lemma Scenario3WalkFrom0(source: seq<char>, destination: seq<char>)
    requires source == "ABCDEFGH" && destination == "AB1CDE2FG"
    ensures Backtrack.Walk(source, destination, 9, 8) == [RemoveStep('H'), SameStep('G', 'G'), SameStep('F', 'F'), InsertStep('2'), SameStep('E', 'E'), SameStep('D', 'D'), SameStep('C', 'C'), InsertStep('1'), SameStep('B', 'B'), SameStep('A', 'A')]
  {
    Scenario3Rows0(source, destination);
    Scenario3Rows8(source, destination);
  }

  /** Compression of the trace from its step 8 on. */
  lemma Scenario3ChunksFrom8(trace: seq<CellAction<char>>)
    requires trace == [SameStep('A', 'A'), SameStep('B', 'B'), InsertStep('1'), SameStep('C', 'C'), SameStep('D', 'D'), SameStep('E', 'E'), InsertStep('2'), SameStep('F', 'F'), SameStep('G', 'G'), RemoveStep('H')]
    ensures Chunks(trace[8..], DiffActionType.Same, [], 5, 6) == [DiffPatchAction(DiffPatchActionType.Remove, 7, "H")]
  {
    assert Chunks(trace[8..], DiffActionType.Same, [], 5, 6) == Chunks(trace[9..], DiffActionType.Same, [], 5, 7) by {
      assert trace[8..][0] == trace[8];
      assert trace[8..][1..] == trace[9..];
    }
    assert Chunks(trace[9..], DiffActionType.Same, [], 5, 7) == Chunks(trace[10..], DiffActionType.Remove, "H", 7, 8) by {
      assert trace[9..][0] == trace[9];
      assert trace[9..][1..] == trace[10..];
      assert [] + ['H'] == "H";
    }
  }

  /** Compression of the trace from its step 6 on. */
  lemma Scenario3ChunksFrom6(trace: seq<CellAction<char>>)
    requires trace == [SameStep('A', 'A'), SameStep('B', 'B'), InsertStep('1'), SameStep('C', 'C'), SameStep('D', 'D'), SameStep('E', 'E'), InsertStep('2'), SameStep('F', 'F'), SameStep('G', 'G'), RemoveStep('H')]
    ensures Chunks(trace[6..], DiffActionType.Same, [], 2, 5) == [DiffPatchAction(DiffPatchActionType.Insert, 5, "2"), DiffPatchAction(DiffPatchActionType.Remove, 7, "H")]
  {
    Scenario3ChunksFrom8(trace);
    assert Chunks(trace[6..], DiffActionType.Same, [], 2, 5) == Chunks(trace[7..], DiffActionType.Insert, "2", 5, 5) by {
      assert trace[6..][0] == trace[6];
      assert trace[6..][1..] == trace[7..];
      assert [] + ['2'] == "2";
    }
    assert Chunks(trace[7..], DiffActionType.Insert, "2", 5, 5) == [DiffPatchAction(DiffPatchActionType.Insert, 5, "2")] + Chunks(trace[8..], DiffActionType.Same, [], 5, 6) by {
      assert trace[7..][0] == trace[7];
      assert trace[7..][1..] == trace[8..];
    }
  }

  /** Compression of the trace from its step 4 on. */
  lemma Scenario3ChunksFrom4(trace: seq<CellAction<char>>)
    requires trace == [SameStep('A', 'A'), SameStep('B', 'B'), InsertStep('1'), SameStep('C', 'C'), SameStep('D', 'D'), SameStep('E', 'E'), InsertStep('2'), SameStep('F', 'F'), SameStep('G', 'G'), RemoveStep('H')]
    ensures Chunks(trace[4..], DiffActionType.Same, [], 2, 3) == [DiffPatchAction(DiffPatchActionType.Insert, 5, "2"), DiffPatchAction(DiffPatchActionType.Remove, 7, "H")]
  {
    Scenario3ChunksFrom6(trace);
    assert Chunks(trace[4..], DiffActionType.Same, [], 2, 3) == Chunks(trace[5..], DiffActionType.Same, [], 2, 4) by {
      assert trace[4..][0] == trace[4];
      assert trace[4..][1..] == trace[5..];
    }
    assert Chunks(trace[5..], DiffActionType.Same, [], 2, 4) == Chunks(trace[6..], DiffActionType.Same, [], 2, 5) by {
      assert trace[5..][0] == trace[5];
      assert trace[5..][1..] == trace[6..];
    }
  }

  /** Compression of the trace from its step 2 on. */
  lemma Scenario3ChunksFrom2(trace: seq<CellAction<char>>)
    requires trace == [SameStep('A', 'A'), SameStep('B', 'B'), InsertStep('1'), SameStep('C', 'C'), SameStep('D', 'D'), SameStep('E', 'E'), InsertStep('2'), SameStep('F', 'F'), SameStep('G', 'G'), RemoveStep('H')]
    ensures Chunks(trace[2..], DiffActionType.Same, [], 0, 2) == [DiffPatchAction(DiffPatchActionType.Insert, 2, "1"), DiffPatchAction(DiffPatchActionType.Insert, 5, "2"), DiffPatchAction(DiffPatchActionType.Remove, 7, "H")]
  {
    Scenario3ChunksFrom4(trace);
    assert Chunks(trace[2..], DiffActionType.Same, [], 0, 2) == Chunks(trace[3..], DiffActionType.Insert, "1", 2, 2) by {
      assert trace[2..][0] == trace[2];
      assert trace[2..][1..] == trace[3..];
      assert [] + ['1'] == "1";
    }
    assert Chunks(trace[3..], DiffActionType.Insert, "1", 2, 2) == [DiffPatchAction(DiffPatchActionType.Insert, 2, "1")] + Chunks(trace[4..], DiffActionType.Same, [], 2, 3) by {
      assert trace[3..][0] == trace[3];
      assert trace[3..][1..] == trace[4..];
    }
  }

  /** Compression of the trace from its step 0 on. */
  lemma Scenario3ChunksFrom0(trace: seq<CellAction<char>>)
    requires trace == [SameStep('A', 'A'), SameStep('B', 'B'), InsertStep('1'), SameStep('C', 'C'), SameStep('D', 'D'), SameStep('E', 'E'), InsertStep('2'), SameStep('F', 'F'), SameStep('G', 'G'), RemoveStep('H')]
    ensures Chunks(trace, DiffActionType.Same, [], 0, 0) == [DiffPatchAction(DiffPatchActionType.Insert, 2, "1"), DiffPatchAction(DiffPatchActionType.Insert, 5, "2"), DiffPatchAction(DiffPatchActionType.Remove, 7, "H")]
  {
    Scenario3ChunksFrom2(trace);
    assert Chunks(trace, DiffActionType.Same, [], 0, 0) == Chunks(trace[1..], DiffActionType.Same, [], 0, 1) by {

    }
    assert Chunks(trace[1..], DiffActionType.Same, [], 0, 1) == Chunks(trace[2..], DiffActionType.Same, [], 0, 2) by {
      assert trace[1..][0] == trace[1];
      assert trace[1..][1..] == trace[2..];
    }
  }

  /** Popping the walk's stack. */
  lemma Scenario3Reverse(walk: seq<CellAction<char>>)
    requires walk == [RemoveStep('H'), SameStep('G', 'G'), SameStep('F', 'F'), InsertStep('2'), SameStep('E', 'E'), SameStep('D', 'D'), SameStep('C', 'C'), InsertStep('1'), SameStep('B', 'B'), SameStep('A', 'A')]
    ensures Backtrack.Reverse(walk) == [SameStep('A', 'A'), SameStep('B', 'B'), InsertStep('1'), SameStep('C', 'C'), SameStep('D', 'D'), SameStep('E', 'E'), InsertStep('2'), SameStep('F', 'F'), SameStep('G', 'G'), RemoveStep('H')]
  {
    var diff := Backtrack.Reverse(walk);
    assert diff[0] == walk[9];
    assert diff[1] == walk[8];
    assert diff[2] == walk[7];
    assert diff[3] == walk[6];
    assert diff[4] == walk[5];
    assert diff[5] == walk[4];
    assert diff[6] == walk[3];
    assert diff[7] == walk[2];
    assert diff[8] == walk[1];
    assert diff[9] == walk[0];
  }

  /** The forward trace. */
  lemma Scenario3Trace(source: seq<char>, destination: seq<char>)
    requires source == "ABCDEFGH" && destination == "AB1CDE2FG"
    ensures Backtrack.ProduceDiff(source, destination) == [SameStep('A', 'A'), SameStep('B', 'B'), InsertStep('1'), SameStep('C', 'C'), SameStep('D', 'D'), SameStep('E', 'E'), InsertStep('2'), SameStep('F', 'F'), SameStep('G', 'G'), RemoveStep('H')]
  {
    Scenario3WalkFrom0(source, destination);
    Scenario3Reverse(Backtrack.Walk(source, destination, |destination|, |source|));
  }

  /** The patch, for inputs given as parameters. */
  lemma Scenario3Of(source: seq<char>, destination: seq<char>)
    requires source == "ABCDEFGH" && destination == "AB1CDE2FG"
    ensures ProduceDiffPatch(source, destination) == [DiffPatchAction(DiffPatchActionType.Insert, 2, "1"), DiffPatchAction(DiffPatchActionType.Insert, 5, "2"), DiffPatchAction(DiffPatchActionType.Remove, 7, "H")]
  {
    Scenario3Trace(source, destination);
    Scenario3ChunksFrom0(Backtrack.ProduceDiff(source, destination));
  }

  /** The third unit-test scenario: two single insertions and the final "H" removed. */
  lemma Scenario3()
    ensures ProduceDiffPatch("ABCDEFGH", "AB1CDE2FG") == [DiffPatchAction(DiffPatchActionType.Insert, 2, "1"), DiffPatchAction(DiffPatchActionType.Insert, 5, "2"), DiffPatchAction(DiffPatchActionType.Remove, 7, "H")]
  {
    Scenario3Of("ABCDEFGH", "AB1CDE2FG");
  }

  /** Table entries of rows 0 to 2. */
  lemma SwappedPairRows0(source: seq<char>, destination: seq<char>)
    requires source == "AB" && destination == "BA"
    ensures
      && Lcs.Cell(source, destination, 0, 0) == 0
      && Lcs.Cell(source, destination, 0, 1) == 0
      && Lcs.Cell(source, destination, 0, 2) == 0
      && Lcs.Cell(source, destination, 1, 0) == 0
      && Lcs.Cell(source, destination, 1, 1) == 0
      && Lcs.Cell(source, destination, 1, 2) == 1
      && Lcs.Cell(source, destination, 2, 0) == 0
      && Lcs.Cell(source, destination, 2, 1) == 1
      && Lcs.Cell(source, destination, 2, 2) == 1
  {
  }

  /** The walk from its step 0 on. */
  lemma SwappedPairWalkFrom0(source: seq<char>, destination: seq<char>)
    requires source == "AB" && destination == "BA"
    ensures Backtrack.Walk(source, destination, 2, 2) == [ReplaceStep('B', 'A'), ReplaceStep('A', 'B')]
  {
    SwappedPairRows0(source, destination);
  }

  /** Compression of the trace from its step 0 on. */
  lemma SwappedPairChunksFrom0(trace: seq<CellAction<char>>)
    requires trace == [ReplaceStep('A', 'B'), ReplaceStep('B', 'A')]
    ensures Chunks(trace, DiffActionType.Same, [], 0, 0) == [DiffPatchAction(DiffPatchActionType.Replace, 0, "BA")]
  {
    assert Chunks(trace, DiffActionType.Same, [], 0, 0) == Chunks(trace[1..], DiffActionType.Replace, "B", 0, 1) by {
      assert [] + ['B'] == "B";
    }
    assert Chunks(trace[1..], DiffActionType.Replace, "B", 0, 1) == Chunks(trace[2..], DiffActionType.Replace, "BA", 0, 2) by {
      assert trace[1..][0] == trace[1];
      assert trace[1..][1..] == trace[2..];
      assert "B" + ['A'] == "BA";
    }
  }

  /** Popping the walk's stack. */
  lemma SwappedPairReverse(walk: seq<CellAction<char>>)
    requires walk == [ReplaceStep('B', 'A'), ReplaceStep('A', 'B')]
    ensures Backtrack.Reverse(walk) == [ReplaceStep('A', 'B'), ReplaceStep('B', 'A')]
  {
    var diff := Backtrack.Reverse(walk);
    assert diff[0] == walk[1];
    assert diff[1] == walk[0];
  }

  /** The forward trace. */
  lemma SwappedPairTrace(source: seq<char>, destination: seq<char>)
    requires source == "AB" && destination == "BA"
    ensures Backtrack.ProduceDiff(source, destination) == [ReplaceStep('A', 'B'), ReplaceStep('B', 'A')]
  {
    SwappedPairWalkFrom0(source, destination);
    SwappedPairReverse(Backtrack.Walk(source, destination, |destination|, |source|));
  }

  /** The patch, for inputs given as parameters. */
  lemma SwappedPairOf(source: seq<char>, destination: seq<char>)
    requires source == "AB" && destination == "BA"
    ensures ProduceDiffPatch(source, destination) == [DiffPatchAction(DiffPatchActionType.Replace, 0, "BA")]
  {
    SwappedPairTrace(source, destination);
    SwappedPairChunksFrom0(Backtrack.ProduceDiff(source, destination));
  }

  /** Swapping two elements gives one two-element Replace. */
  lemma SwappedPair()
    ensures ProduceDiffPatch("AB", "BA") == [DiffPatchAction(DiffPatchActionType.Replace, 0, "BA")]
  {
    SwappedPairOf("AB", "BA");
  }

  /**
   The tie-break does not follow a longest common subsequence: "AB" and "BA"
   share a common subsequence of length 1, but the trace for them keeps
   nothing, so the patch is not the shortest edit script.
   */
  lemma SwappedPairNotMinimal()
    ensures Lcs.Cell("AB", "BA", 2, 2) == 1
    ensures forall i :: 0 <= i < |Backtrack.ProduceDiff("AB", "BA")| ==> !Backtrack.ProduceDiff("AB", "BA")[i].SameStep?
  {
    SwappedPairRows0("AB", "BA");
    SwappedPairTrace("AB", "BA");
  }

  /** Table entries of rows 0 to 2. */
  lemma EqualIndicesRows0(source: seq<char>, destination: seq<char>)
    requires source == "A" && destination == "BB"
    ensures
      && Lcs.Cell(source, destination, 0, 0) == 0
      && Lcs.Cell(source, destination, 0, 1) == 0
      && Lcs.Cell(source, destination, 1, 0) == 0
      && Lcs.Cell(source, destination, 1, 1) == 0
      && Lcs.Cell(source, destination, 2, 0) == 0
      && Lcs.Cell(source, destination, 2, 1) == 0
  {
  }

  /** The walk from its step 0 on. */
  lemma EqualIndicesWalkFrom0(source: seq<char>, destination: seq<char>)
    requires source == "A" && destination == "BB"
    ensures Backtrack.Walk(source, destination, 2, 1) == [ReplaceStep('A', 'B'), InsertStep('B')]
  {
    EqualIndicesRows0(source, destination);
  }

  /** Compression of the trace from its step 0 on. */
  lemma EqualIndicesChunksFrom0(trace: seq<CellAction<char>>)
    requires trace == [InsertStep('B'), ReplaceStep('A', 'B')]
    ensures Chunks(trace, DiffActionType.Same, [], 0, 0) == [DiffPatchAction(DiffPatchActionType.Insert, 0, "B"), DiffPatchAction(DiffPatchActionType.Replace, 0, "B")]
  {
    assert Chunks(trace, DiffActionType.Same, [], 0, 0) == Chunks(trace[1..], DiffActionType.Insert, "B", 0, 0) by {
      assert [] + ['B'] == "B";
    }
    assert Chunks(trace[1..], DiffActionType.Insert, "B", 0, 0) == [DiffPatchAction(DiffPatchActionType.Insert, 0, "B")] + Chunks(trace[2..], DiffActionType.Replace, "B", 0, 1) by {
      assert trace[1..][0] == trace[1];
      assert trace[1..][1..] == trace[2..];
      assert [] + ['B'] == "B";
    }
  }

  /** Popping the walk's stack. */
  lemma EqualIndicesReverse(walk: seq<CellAction<char>>)
    requires walk == [ReplaceStep('A', 'B'), InsertStep('B')]
    ensures Backtrack.Reverse(walk) == [InsertStep('B'), ReplaceStep('A', 'B')]
  {
    var diff := Backtrack.Reverse(walk);
    assert diff[0] == walk[1];
    assert diff[1] == walk[0];
  }

  /** The forward trace. */
  lemma EqualIndicesTrace(source: seq<char>, destination: seq<char>)
    requires source == "A" && destination == "BB"
    ensures Backtrack.ProduceDiff(source, destination) == [InsertStep('B'), ReplaceStep('A', 'B')]
  {
    EqualIndicesWalkFrom0(source, destination);
    EqualIndicesReverse(Backtrack.Walk(source, destination, |destination|, |source|));
  }

  /** The patch, for inputs given as parameters. */
  lemma EqualIndicesOf(source: seq<char>, destination: seq<char>)
    requires source == "A" && destination == "BB"
    ensures ProduceDiffPatch(source, destination) == [DiffPatchAction(DiffPatchActionType.Insert, 0, "B"), DiffPatchAction(DiffPatchActionType.Replace, 0, "B")]
  {
    EqualIndicesTrace(source, destination);
    EqualIndicesChunksFrom0(Backtrack.ProduceDiff(source, destination));
  }

  /** An Insert followed by a Replace at the same source position: the indices of a patch never decrease, but they need not increase strictly. */
  lemma EqualIndices()
    ensures ProduceDiffPatch("A", "BB") == [DiffPatchAction(DiffPatchActionType.Insert, 0, "B"), DiffPatchAction(DiffPatchActionType.Replace, 0, "B")]
  {
    EqualIndicesOf("A", "BB");
  }
}
