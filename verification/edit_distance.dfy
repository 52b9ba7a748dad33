/** The record distance of hw1 (calculateFrankenstein in hw1/src/Storage.cpp):
Levenshtein distance between two integer sequences with a restricted
adjacent-transposition step, filled row by row into a
(|lineA|+1) x (|lineB|+1) matrix.

Two quirks of the code are kept. Elements of lineB are narrowed to `char`
before most comparisons; `char` is taken to be signed 8-bit two's complement,
so the narrowing wraps modulo 256 into -128..127. And the transposition step
is only tried once both positions exceed 2. */
module EditDistance {

  /** The value of `(char) x` for a signed 8-bit char. */
  function Narrow(x: int): (c: int)
    ensures -128 <= c < 128
    ensures (x - c) % 256 == 0
    ensures -128 <= x < 128 ==> c == x
  {
    (x + 128) % 256 - 128
  }

  /** Every element already fits a char, so narrowing changes nothing. */
  predicate CharRange(line: seq<int>) {
    forall k :: 0 <= k < |line| ==> -128 <= line[k] < 128
  }

  function Min(x: int, y: int): int {
    if x <= y then x else y
  }

  /** The Levenshtein candidate of cell (i, j): a deletion, an insertion or
      a substitution that costs 0 when the compared elements agree. */
  function EditCandidate(lineA: seq<int>, lineB: seq<int>, i: nat, j: nat, diagonal: nat, left: nat, above: nat): nat
    requires 1 <= i <= |lineA| && 1 <= j <= |lineB|
  {
    var cost := if lineA[i - 1] == Narrow(lineB[j - 1]) then 0 else 1;
    Min(above + 1, Min(left + 1, diagonal + cost))
  }

  /** The transposition candidate of cell (i, j), from the cell two back on
      both axes. The first check compares against the narrowed element of
      lineB, the second against the raw one. */
  function TranspositionCandidate(lineA: seq<int>, lineB: seq<int>, i: nat, j: nat, diagonal2: nat): nat
    requires 2 <= i <= |lineA| && 2 <= j <= |lineB|
  {
    var t := diagonal2 + 1;
    var t' := if lineA[i - 2] != Narrow(lineB[j - 1]) then t + 1 else t;
    if lineA[i - 1] != lineB[j - 2] then t' + 1 else t'
  }

  /** The value written to an interior cell (i, j), given its neighbours. The
      transposition candidate is only looked at when both positions exceed 2,
      and it can only lower the cell. */
  function Cell(lineA: seq<int>, lineB: seq<int>, i: nat, j: nat,
                diagonal: nat, left: nat, above: nat, diagonal2: nat): (cell: nat)
    requires 1 <= i <= |lineA| && 1 <= j <= |lineB|
    ensures cell <= above + 1 && cell <= left + 1
    ensures cell <= diagonal + (if lineA[i - 1] == Narrow(lineB[j - 1]) then 0 else 1)
    ensures cell <= EditCandidate(lineA, lineB, i, j, diagonal, left, above)
    ensures !(i > 2 && j > 2) ==> cell == EditCandidate(lineA, lineB, i, j, diagonal, left, above)
    ensures i > 2 && j > 2 ==>
              && cell <= TranspositionCandidate(lineA, lineB, i, j, diagonal2)
              && (cell == EditCandidate(lineA, lineB, i, j, diagonal, left, above)
                  || cell == TranspositionCandidate(lineA, lineB, i, j, diagonal2))
  {
    var cell := EditCandidate(lineA, lineB, i, j, diagonal, left, above);
    if i > 2 && j > 2 then
      var transposition := TranspositionCandidate(lineA, lineB, i, j, diagonal2);
      if cell > transposition then transposition else cell
    else
      cell
  }

  /** Row `row`, the matrix row at position p, obeys the cell rule at column
      q, given the two rows before it. */
  ghost predicate RowRule(lineA: seq<int>, lineB: seq<int>, prev2: seq<nat>, prev: seq<nat>, row: seq<nat>, p: int, q: int) {
    && 1 <= p <= |lineA| && 1 <= q <= |lineB|
    && q < |row| && q < |prev| && (p > 2 && q > 2 ==> q - 2 < |prev2|)
    && row[q] == Cell(lineA, lineB, p, q, prev[q - 1], row[q - 1], prev[q],
                      if p > 2 && q > 2 then prev2[q - 2] else 0)
  }

  /** Matrix `m` obeys the cell rule at (p, q). */
  ghost predicate Rule(lineA: seq<int>, lineB: seq<int>, m: seq<seq<nat>>, p: int, q: int) {
    1 <= p < |m| && RowRule(lineA, lineB, if p >= 2 then m[p - 2] else [], m[p - 1], m[p], p, q)
  }

  /** `m` is the matrix calculateFrankenstein fills for lineA and lineB:
      |lineA|+1 rows of |lineB|+1 entries, position numbers along the first
      row and column, every interior cell given by Cell of its neighbours. */
  ghost predicate IsMatrix(lineA: seq<int>, lineB: seq<int>, m: seq<seq<nat>>) {
    && |m| == |lineA| + 1
    && (forall p :: 0 <= p < |m| ==> |m[p]| == |lineB| + 1)
    && (forall q :: 0 <= q <= |lineB| ==> m[0][q] == q)
    && (forall p :: 0 <= p <= |lineA| ==> m[p][0] == p)
    && (forall p, q :: 1 <= p <= |lineA| && 1 <= q <= |lineB| ==> Rule(lineA, lineB, m, p, q))
  }

  /** `d` is the distance of lineA and lineB: the bottom-right entry of
      their matrix. */
  ghost predicate IsDistance(lineA: seq<int>, lineB: seq<int>, d: int) {
    exists m :: IsMatrix(lineA, lineB, m) && d == m[|lineA|][|lineB|]
  }

  /** The matrix fill of calculateFrankenstein, row by row: each row starts
      with its position number and every later entry is computed from the
      entry to its left and the two rows above. */
  method FillMatrix(lineA: seq<int>, lineB: seq<int>) returns (m: seq<seq<nat>>)
    ensures IsMatrix(lineA, lineB, m)
  {
    var first: seq<nat> := [];
    for j := 0 to |lineB| + 1
      invariant |first| == j
      invariant forall q :: 0 <= q < j ==> first[q] == q
    {
      first := first + [j];
    }
    m := [first];
    for pointerA := 1 to |lineA| + 1
      invariant |m| == pointerA
      invariant forall p :: 0 <= p < pointerA ==> |m[p]| == |lineB| + 1 && m[p][0] == p
      invariant forall q :: 0 <= q <= |lineB| ==> m[0][q] == q
      invariant forall p, q :: 1 <= p < pointerA && 1 <= q <= |lineB| ==> Rule(lineA, lineB, m, p, q)
    {
      var prev := m[pointerA - 1];
      var prev2 := if pointerA >= 2 then m[pointerA - 2] else [];
      var row: seq<nat> := [pointerA];
      for pointerB := 1 to |lineB| + 1
        invariant |row| == pointerB && row[0] == pointerA
        invariant forall q :: 1 <= q < pointerB ==> RowRule(lineA, lineB, prev2, prev, row, pointerA, q)
      {
        var diagonal2 := if pointerA > 2 && pointerB > 2 then prev2[pointerB - 2] else 0;
        var cell := Cell(lineA, lineB, pointerA, pointerB, prev[pointerB - 1], row[pointerB - 1], prev[pointerB], diagonal2);
        forall q | 1 <= q < pointerB
          ensures RowRule(lineA, lineB, prev2, prev, row + [cell], pointerA, q)
        {
          assert RowRule(lineA, lineB, prev2, prev, row, pointerA, q);
        }
        row := row + [cell];
      }
      forall p, q | 1 <= p <= pointerA && 1 <= q <= |lineB|
        ensures Rule(lineA, lineB, m + [row], p, q)
      {
        if p < pointerA {
          assert Rule(lineA, lineB, m, p, q);
        } else {
          assert RowRule(lineA, lineB, prev2, prev, row, pointerA, q);
        }
      }
      m := m + [row];
    }
  }

  /** With an empty line there are no interior cells: the distance is the
      length of the other line. */
  lemma EmptyLineDistance(lineA: seq<int>, lineB: seq<int>)
    requires |lineA| == 0 || |lineB| == 0
    ensures IsDistance(lineA, lineB, |lineA| + |lineB|)
  {
    var m: seq<seq<nat>>;
    if |lineA| == 0 {
      m := [seq(|lineB| + 1, q => q)];
    } else {
      m := seq(|lineA| + 1, p => [p]);
    }
    assert IsMatrix(lineA, lineB, m);
  }

  /** calculateFrankenstein: an empty line gives the length of the other;
      otherwise the matrix is filled and its bottom-right entry returned. */
  method CalculateFrankenstein(lineA: seq<int>, lineB: seq<int>) returns (r: int)
    ensures IsDistance(lineA, lineB, r)
    ensures |lineA| == 0 ==> r == |lineB|
    ensures |lineB| == 0 ==> r == |lineA|
  {
    if |lineA| == 0 {
      EmptyLineDistance(lineA, lineB);
      return |lineB|;
    }
    if |lineB| == 0 {
      EmptyLineDistance(lineA, lineB);
      return |lineA|;
    }
    var matrix := FillMatrix(lineA, lineB);
    r := matrix[|lineA|][|lineB|];
  }

  /** The matrix is determined by the two lines: any two matrices obeying
      the rules agree at every cell. */
  lemma {:induction false} MatrixCellsAgree(lineA: seq<int>, lineB: seq<int>, m1: seq<seq<nat>>, m2: seq<seq<nat>>, p: nat, q: nat)
    requires IsMatrix(lineA, lineB, m1) && IsMatrix(lineA, lineB, m2)
    requires p <= |lineA| && q <= |lineB|
    ensures m1[p][q] == m2[p][q]
    decreases p + q
  {
    if p > 0 && q > 0 {
      MatrixCellsAgree(lineA, lineB, m1, m2, p - 1, q - 1);
      MatrixCellsAgree(lineA, lineB, m1, m2, p, q - 1);
      MatrixCellsAgree(lineA, lineB, m1, m2, p - 1, q);
      if p > 2 && q > 2 {
        MatrixCellsAgree(lineA, lineB, m1, m2, p - 2, q - 2);
      }
      assert Rule(lineA, lineB, m1, p, q) && Rule(lineA, lineB, m2, p, q);
    }
  }

  /** The distance is a function of the two lines. */
  lemma DistanceUnique(lineA: seq<int>, lineB: seq<int>, d1: int, d2: int)
    requires IsDistance(lineA, lineB, d1) && IsDistance(lineA, lineB, d2)
    ensures d1 == d2
  {
    var m1 :| IsMatrix(lineA, lineB, m1) && d1 == m1[|lineA|][|lineB|];
    var m2 :| IsMatrix(lineA, lineB, m2) && d2 == m2[|lineA|][|lineB|];
    MatrixCellsAgree(lineA, lineB, m1, m2, |lineA|, |lineB|);
  }

  /** Every interior entry is at most one more than the entry above or to
      its left, and at most the diagonal entry plus the substitution cost,
      which is 0 exactly when the compared elements agree. */
  lemma InteriorBound(lineA: seq<int>, lineB: seq<int>, m: seq<seq<nat>>, p: nat, q: nat)
    requires IsMatrix(lineA, lineB, m)
    requires 1 <= p <= |lineA| && 1 <= q <= |lineB|
    ensures m[p][q] <= m[p - 1][q] + 1
    ensures m[p][q] <= m[p][q - 1] + 1
    ensures m[p][q] <= m[p - 1][q - 1] + (if lineA[p - 1] == Narrow(lineB[q - 1]) then 0 else 1)
  {
    assert Rule(lineA, lineB, m, p, q);
  }

  /** Where both positions exceed 2 a cell is also at most the transposition
      candidate; elsewhere it is exactly the Levenshtein candidate. */
  lemma TranspositionOnlyLowers(lineA: seq<int>, lineB: seq<int>, m: seq<seq<nat>>, p: nat, q: nat)
    requires IsMatrix(lineA, lineB, m)
    requires 1 <= p <= |lineA| && 1 <= q <= |lineB|
    ensures m[p][q] <= EditCandidate(lineA, lineB, p, q, m[p - 1][q - 1], m[p][q - 1], m[p - 1][q])
    ensures !(p > 2 && q > 2) ==> m[p][q] == EditCandidate(lineA, lineB, p, q, m[p - 1][q - 1], m[p][q - 1], m[p - 1][q])
    ensures p > 2 && q > 2 ==> m[p][q] <= TranspositionCandidate(lineA, lineB, p, q, m[p - 2][q - 2])
  {
    assert Rule(lineA, lineB, m, p, q);
  }

  /** No entry exceeds the longer of its two prefixes. */
  lemma {:induction false} UpperBound(lineA: seq<int>, lineB: seq<int>, m: seq<seq<nat>>, p: nat, q: nat)
    requires IsMatrix(lineA, lineB, m)
    requires p <= |lineA| && q <= |lineB|
    ensures m[p][q] <= if p >= q then p else q
    decreases p + q
  {
    if p > 0 && q > 0 {
      UpperBound(lineA, lineB, m, p - 1, q - 1);
      assert Rule(lineA, lineB, m, p, q);
    }
  }

  /** A cell is at least `floor` when every candidate it is chosen from is. */
  lemma CellAtLeast(lineA: seq<int>, lineB: seq<int>, i: nat, j: nat,
                    diagonal: nat, left: nat, above: nat, diagonal2: nat, floor: int)
    requires 1 <= i <= |lineA| && 1 <= j <= |lineB|
    requires above + 1 >= floor && left + 1 >= floor && diagonal >= floor
    requires i > 2 && j > 2 ==> diagonal2 + 1 >= floor
    ensures Cell(lineA, lineB, i, j, diagonal, left, above, diagonal2) >= floor
  {
  }

  /** No entry is below the difference of its two prefix lengths. */
  lemma {:induction false} LowerBound(lineA: seq<int>, lineB: seq<int>, m: seq<seq<nat>>, p: nat, q: nat)
    requires IsMatrix(lineA, lineB, m)
    requires p <= |lineA| && q <= |lineB|
    ensures m[p][q] >= if p >= q then p - q else q - p
    decreases p + q
  {
    if p > 0 && q > 0 {
      var gap := if p >= q then p - q else q - p;
      LowerBound(lineA, lineB, m, p - 1, q - 1);
      LowerBound(lineA, lineB, m, p, q - 1);
      LowerBound(lineA, lineB, m, p - 1, q);
      if p > 2 && q > 2 {
        LowerBound(lineA, lineB, m, p - 2, q - 2);
      }
      assert Rule(lineA, lineB, m, p, q);
      CellAtLeast(lineA, lineB, p, q, m[p - 1][q - 1], m[p][q - 1], m[p - 1][q],
                  if p > 2 && q > 2 then m[p - 2][q - 2] else 0, gap);
    }
  }

  /** The distance lies between the difference of the lengths and the
      longer length. */
  lemma DistanceBounds(lineA: seq<int>, lineB: seq<int>, d: int)
    requires IsDistance(lineA, lineB, d)
    ensures d <= if |lineA| >= |lineB| then |lineA| else |lineB|
    ensures d >= if |lineA| >= |lineB| then |lineA| - |lineB| else |lineB| - |lineA|
  {
    var m :| IsMatrix(lineA, lineB, m) && d == m[|lineA|][|lineB|];
    UpperBound(lineA, lineB, m, |lineA|, |lineB|);
    LowerBound(lineA, lineB, m, |lineA|, |lineB|);
  }

  /** With every element in char range, the diagonal of a line's matrix
      against itself is all zeros. */
  lemma {:induction false} SelfDiagonalZero(line: seq<int>, m: seq<seq<nat>>, p: nat)
    requires CharRange(line)
    requires IsMatrix(line, line, m)
    requires p <= |line|
    ensures m[p][p] == 0
  {
    if p > 0 {
      SelfDiagonalZero(line, m, p - 1);
      assert Rule(line, line, m, p, p);
      assert Narrow(line[p - 1]) == line[p - 1];
    }
  }

  /** With every element in char range a line is at distance 0 from itself. */
  lemma DistanceToSelf(line: seq<int>, d: int)
    requires CharRange(line)
    requires IsDistance(line, line, d)
    ensures d == 0
  {
    var m :| IsMatrix(line, line, m) && d == m[|line|][|line|];
    SelfDiagonalZero(line, m, |line|);
  }

  /** With both lines in char range, the matrix of (lineB, lineA) is the
      transpose of the matrix of (lineA, lineB). */
  lemma {:induction false} MatrixTranspose(lineA: seq<int>, lineB: seq<int>, m1: seq<seq<nat>>, m2: seq<seq<nat>>, p: nat, q: nat)
    requires CharRange(lineA) && CharRange(lineB)
    requires IsMatrix(lineA, lineB, m1) && IsMatrix(lineB, lineA, m2)
    requires p <= |lineA| && q <= |lineB|
    ensures m1[p][q] == m2[q][p]
    decreases p + q
  {
    if p > 0 && q > 0 {
      MatrixTranspose(lineA, lineB, m1, m2, p - 1, q - 1);
      MatrixTranspose(lineA, lineB, m1, m2, p, q - 1);
      MatrixTranspose(lineA, lineB, m1, m2, p - 1, q);
      if p > 2 && q > 2 {
        MatrixTranspose(lineA, lineB, m1, m2, p - 2, q - 2);
        assert Narrow(lineA[p - 2]) == lineA[p - 2] && Narrow(lineB[q - 2]) == lineB[q - 2];
      }
      assert Narrow(lineA[p - 1]) == lineA[p - 1] && Narrow(lineB[q - 1]) == lineB[q - 1];
      assert Rule(lineA, lineB, m1, p, q) && Rule(lineB, lineA, m2, q, p);
    }
  }

  /** With both lines in char range the distance is symmetric. */
  lemma DistanceSymmetric(lineA: seq<int>, lineB: seq<int>, d1: int, d2: int)
    requires CharRange(lineA) && CharRange(lineB)
    requires IsDistance(lineA, lineB, d1) && IsDistance(lineB, lineA, d2)
    ensures d1 == d2
  {
    var m1 :| IsMatrix(lineA, lineB, m1) && d1 == m1[|lineA|][|lineB|];
    var m2 :| IsMatrix(lineB, lineA, m2) && d2 == m2[|lineB|][|lineA|];
    MatrixTranspose(lineA, lineB, m1, m2, |lineA|, |lineB|);
  }

  /** Outside char range the narrowing shows: [256] and [0] are at distance 1
      one way round and 0 the other, because (char) 256 == 0 while the
      element of lineA is compared unnarrowed. */
  lemma NarrowingBreaksSymmetry()
    ensures IsDistance([256], [0], 1)
    ensures IsDistance([0], [256], 0)
  {
    assert Narrow(256) == 0 && Narrow(0) == 0;
    var m1: seq<seq<nat>> := [[0, 1], [1, 1]];
    assert Rule([256], [0], m1, 1, 1);
    assert IsMatrix([256], [0], m1);
    var m2: seq<seq<nat>> := [[0, 1], [1, 0]];
    assert Rule([0], [256], m2, 1, 1);
    assert IsMatrix([0], [256], m2);
  }
}
