/**
 The longest-common-subsequence table that `FillCellMatrix` computes. Row `r`
 stands for the destination prefix of length `r`, column `c` for the source
 prefix of length `c`; `Cell` is the recurrence the fill evaluates, and
 `CellIsLcsLength` shows that it is the LCS length of those two prefixes.
 */
module Lcs {

  function Max(a: int, b: int): int {
    if a < b then b else a
  }

  /**
   The table entry at row `r`, column `c`: zero in row 0 and column 0, the
   diagonal plus one when the two header elements are equal, otherwise the
   larger of the entries above and to the left.
   */
  function Cell<T(==)>(source: seq<T>, destination: seq<T>, r: nat, c: nat): (v: nat)
    requires r <= |destination| && c <= |source|
    ensures v <= r && v <= c
    decreases r + c
  {
    if r == 0 || c == 0 then 0
    else if destination[r - 1] == source[c - 1] then Cell(source, destination, r - 1, c - 1) + 1
    else Max(Cell(source, destination, r - 1, c), Cell(source, destination, r, c - 1))
  }

  /** `x` can be obtained from `s` by deleting elements. */
  ghost predicate IsSubsequence<T>(x: seq<T>, s: seq<T>)
    decreases |s|
  {
    || |x| == 0
    || (&& |s| > 0
        && (|| (x[|x| - 1] == s[|s| - 1] && IsSubsequence(x[..|x| - 1], s[..|s| - 1]))
            || IsSubsequence(x, s[..|s| - 1])))
  }

  ghost predicate IsCommonSubsequence<T>(x: seq<T>, a: seq<T>, b: seq<T>)
  {
    IsSubsequence(x, a) && IsSubsequence(x, b)
  }

  /** Moving one step down or right changes an entry by zero or one. */
  lemma {:induction false} CellSteps<T>(source: seq<T>, destination: seq<T>, r: nat, c: nat)
    requires r <= |destination| && c <= |source|
    ensures r > 0 ==> Cell(source, destination, r - 1, c) <= Cell(source, destination, r, c) <= Cell(source, destination, r - 1, c) + 1
    ensures c > 0 ==> Cell(source, destination, r, c - 1) <= Cell(source, destination, r, c) <= Cell(source, destination, r, c - 1) + 1
    decreases r + c
  {
    if r > 0 && c > 0 {
      CellSteps(source, destination, r - 1, c);
      CellSteps(source, destination, r, c - 1);
    }
  }

  lemma {:induction false} SubsequenceExtend<T>(x: seq<T>, s: seq<T>, e: T)
    requires IsSubsequence(x, s)
    ensures IsSubsequence(x, s + [e])
    ensures IsSubsequence(x + [e], s + [e])
  {
    assert (s + [e])[..|s|] == s;
    assert (x + [e])[..|x|] == x;
  }

  lemma {:induction false} SubsequenceDropLast<T>(x: seq<T>, s: seq<T>)
    requires |x| > 0 && IsSubsequence(x, s)
    ensures |s| > 0 && IsSubsequence(x[..|x| - 1], s[..|s| - 1])
    decreases |s|
  {
    if x[|x| - 1] == s[|s| - 1] && IsSubsequence(x[..|x| - 1], s[..|s| - 1]) {
    } else {
      var s' := s[..|s| - 1];
      SubsequenceDropLast(x, s');
      SubsequenceExtend(x[..|x| - 1], s'[..|s'| - 1], s'[|s'| - 1]);
      assert s'[..|s'| - 1] + [s'[|s'| - 1]] == s';
    }
  }

  /** No common subsequence of the two prefixes is longer than the entry. */
  lemma {:induction false} CommonSubsequenceBound<T>(source: seq<T>, destination: seq<T>, r: nat, c: nat, x: seq<T>)
    requires r <= |destination| && c <= |source|
    requires IsCommonSubsequence(x, destination[..r], source[..c])
    ensures |x| <= Cell(source, destination, r, c)
    decreases r + c
  {
    if |x| == 0 {
    } else if r == 0 || c == 0 {
      // a non-empty sequence is not a subsequence of an empty prefix
    } else {
      var d, s := destination[..r], source[..c];
      assert d[..r - 1] == destination[..r - 1];
      assert s[..c - 1] == source[..c - 1];
      if destination[r - 1] == source[c - 1] {
        SubsequenceDropLast(x, d);
        SubsequenceDropLast(x, s);
        CommonSubsequenceBound(source, destination, r - 1, c - 1, x[..|x| - 1]);
      } else if IsSubsequence(x, d[..r - 1]) {
        CommonSubsequenceBound(source, destination, r - 1, c, x);
      } else {
        assert x[|x| - 1] == d[r - 1];
        CommonSubsequenceBound(source, destination, r, c - 1, x);
      }
    }
  }

  /** A common subsequence of the two prefixes that is as long as the entry. */
  ghost function Witness<T>(source: seq<T>, destination: seq<T>, r: nat, c: nat): seq<T>
    requires r <= |destination| && c <= |source|
    decreases r + c
  {
    if r == 0 || c == 0 then []
    else if destination[r - 1] == source[c - 1] then Witness(source, destination, r - 1, c - 1) + [destination[r - 1]]
    else if Cell(source, destination, r, c - 1) <= Cell(source, destination, r - 1, c) then Witness(source, destination, r - 1, c)
    else Witness(source, destination, r, c - 1)
  }

  lemma {:induction false} WitnessIsCommon<T>(source: seq<T>, destination: seq<T>, r: nat, c: nat)
    requires r <= |destination| && c <= |source|
    ensures IsCommonSubsequence(Witness(source, destination, r, c), destination[..r], source[..c])
    ensures |Witness(source, destination, r, c)| == Cell(source, destination, r, c)
    decreases r + c
  {
    if r == 0 || c == 0 {
    } else {
      assert destination[..r] == destination[..r - 1] + [destination[r - 1]];
      assert source[..c] == source[..c - 1] + [source[c - 1]];
      if destination[r - 1] == source[c - 1] {
        WitnessIsCommon(source, destination, r - 1, c - 1);
        var w := Witness(source, destination, r - 1, c - 1);
        SubsequenceExtend(w, destination[..r - 1], destination[r - 1]);
        SubsequenceExtend(w, source[..c - 1], source[c - 1]);
      } else if Cell(source, destination, r, c - 1) <= Cell(source, destination, r - 1, c) {
        WitnessIsCommon(source, destination, r - 1, c);
        SubsequenceExtend(Witness(source, destination, r - 1, c), destination[..r - 1], destination[r - 1]);
      } else {
        WitnessIsCommon(source, destination, r, c - 1);
        SubsequenceExtend(Witness(source, destination, r, c - 1), source[..c - 1], source[c - 1]);
      }
    }
  }

  /** Every entry is the length of a longest common subsequence of its two prefixes. */
  lemma CellIsLcsLength<T>(source: seq<T>, destination: seq<T>, r: nat, c: nat)
    requires r <= |destination| && c <= |source|
    ensures exists x :: IsCommonSubsequence(x, destination[..r], source[..c]) && |x| == Cell(source, destination, r, c)
    ensures forall x :: IsCommonSubsequence(x, destination[..r], source[..c]) ==> |x| <= Cell(source, destination, r, c)
  {
    WitnessIsCommon(source, destination, r, c);
    forall x | IsCommonSubsequence(x, destination[..r], source[..c])
      ensures |x| <= Cell(source, destination, r, c)
    {
      CommonSubsequenceBound(source, destination, r, c, x);
    }
  }
}
