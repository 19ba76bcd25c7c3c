/** Boards and the attacking-pairs heuristic.

    A board places one queen per column: board[c] is the row of the queen in
    column c. The heuristic counts the pairs of queens that attack each other;
    a board is a solution exactly when it is 0. */
module Queens {

  type Board = seq<int>

  /** The range every generated board satisfies: each row lies in [0, n-1]. */
  predicate IsBoard(b: Board)
  {
    forall c :: 0 <= c < |b| ==> 0 <= b[c] < |b|
  }

  function Abs(x: int): nat
  {
    if x < 0 then -x else x
  }

  /** The queens in columns i and j share a row or a diagonal. */
  predicate Attacks(b: Board, i: int, j: int)
    requires 0 <= i < |b| && 0 <= j < |b|
  {
    b[i] == b[j] || Abs(b[i] - b[j]) == Abs(i - j)
  }

  /** Every unordered attacking pair (i, j), i < j, of the board. */
  ghost function AttackingPairs(b: Board): set<(int, int)>
  {
    set i, j | 0 <= i < j < |b| && Attacks(b, i, j) :: (i, j)
  }

  /** No two queens attack each other. */
  ghost predicate IsSolution(b: Board)
  {
    forall i, j :: 0 <= i < j < |b| ==> !Attacks(b, i, j)
  }

  /** Number of columns k, i < k < j, whose queen attacks the queen in column i
      (the inner loop of the heuristic after it has reached j). */
  function RowCount(b: Board, i: nat, j: nat): nat
    requires i < |b| && j <= |b|
    decreases j
  {
    if j <= i + 1 then 0
    else RowCount(b, i, j - 1) + (if Attacks(b, i, j - 1) then 1 else 0)
  }

  /** Number of attacking pairs whose first column lies below cols
      (the outer loop of the heuristic after it has reached cols). */
  function PairsBefore(b: Board, cols: nat): nat
    requires cols <= |b|
  {
    if cols == 0 then 0 else PairsBefore(b, cols - 1) + RowCount(b, cols - 1, |b|)
  }

  /** The heuristic h of a board, as the nested loops accumulate it. */
  function Heuristic(b: Board): nat
  {
    PairsBefore(b, |b|)
  }

  // ---------------------------------------------------------------------
  // What the heuristic counts

  ghost function RowPairs(b: Board, i: nat, j: nat): set<(int, int)>
    requires i < |b| && j <= |b|
  {
    set k | i < k < j && Attacks(b, i, k) :: (i, k)
  }

  ghost function PairsBelow(b: Board, cols: nat): set<(int, int)>
    requires cols <= |b|
  {
    set i, j | 0 <= i < cols && i < j < |b| && Attacks(b, i, j) :: (i, j)
  }

  lemma {:induction false} RowCountIsRowPairs(b: Board, i: nat, j: nat)
    requires i < |b| && j <= |b|
    ensures RowCount(b, i, j) == |RowPairs(b, i, j)|
    decreases j
  {
    if j <= i + 1 {
      assert RowPairs(b, i, j) == {};
    } else {
      RowCountIsRowPairs(b, i, j - 1);
      var last: set<(int, int)> := if Attacks(b, i, j - 1) then {(i, j - 1)} else {};
      assert RowPairs(b, i, j) == RowPairs(b, i, j - 1) + last;
      assert (i, j - 1) !in RowPairs(b, i, j - 1);
    }
  }

  lemma {:induction false} PairsBeforeIsPairsBelow(b: Board, cols: nat)
    requires cols <= |b|
    ensures PairsBefore(b, cols) == |PairsBelow(b, cols)|
  {
    if cols == 0 {
      assert PairsBelow(b, cols) == {};
    } else {
      PairsBeforeIsPairsBelow(b, cols - 1);
      RowCountIsRowPairs(b, cols - 1, |b|);
      var row := RowPairs(b, cols - 1, |b|);
      assert PairsBelow(b, cols) == PairsBelow(b, cols - 1) + row;
      assert PairsBelow(b, cols - 1) * row == {} by {
        forall p | p in row ensures p !in PairsBelow(b, cols - 1) {
          assert p.0 == cols - 1;
        }
      }
    }
  }

  /** The heuristic is the number of attacking pairs of the board. */
  lemma HeuristicCountsAttackingPairs(b: Board)
    ensures Heuristic(b) == |AttackingPairs(b)|
  {
    PairsBeforeIsPairsBelow(b, |b|);
    assert PairsBelow(b, |b|) == AttackingPairs(b);
  }

  /** A board has heuristic 0 exactly when it is a solution. */
  lemma HeuristicZeroIffSolution(b: Board)
    ensures Heuristic(b) == 0 <==> IsSolution(b)
  {
    HeuristicCountsAttackingPairs(b);
    if !IsSolution(b) {
      var i, j :| 0 <= i < j < |b| && Attacks(b, i, j);
      assert (i, j) in AttackingPairs(b);
    } else {
      assert AttackingPairs(b) == {};
    }
  }

  lemma {:induction false} RowCountBound(b: Board, i: nat, j: nat)
    requires i < |b| && j <= |b|
    ensures RowCount(b, i, j) <= if j > i then j - i - 1 else 0
    decreases j
  {
    if j > i + 1 {
      RowCountBound(b, i, j - 1);
    }
  }

  lemma TrianglePlusRow(c: int, n: int)
    ensures c * (2 * n - c - 1) + 2 * (n - c - 1) == (c + 1) * (2 * n - (c + 1) - 1)
  {
  }

  lemma {:induction false} PairsBeforeBound(b: Board, cols: nat)
    requires cols <= |b|
    ensures 2 * PairsBefore(b, cols) <= cols * (2 * |b| - cols - 1)
  {
    if cols > 0 {
      var n, c := |b|, cols - 1;
      PairsBeforeBound(b, c);
      RowCountBound(b, c, n);
      TrianglePlusRow(c, n);
    }
  }

  /** There are at most n(n-1)/2 attacking pairs. */
  lemma HeuristicBound(b: Board)
    ensures 2 * Heuristic(b) <= |b| * (|b| - 1)
  {
    PairsBeforeBound(b, |b|);
  }

  /** Only a board of two or more columns can have an attacking pair. */
  lemma HeuristicNeedsTwoQueens(b: Board)
    ensures Heuristic(b) > 0 ==> |b| >= 2
  {
    HeuristicBound(b);
  }

  /** The heuristic as the source computes it: a nested loop over the pairs
      i < j that adds one for each pair in the same row or on a diagonal. */
  method ComputeHeuristic(board: Board) returns (h: nat)
    ensures h == Heuristic(board)
    ensures h == |AttackingPairs(board)|
    ensures h == 0 <==> IsSolution(board)
  {
    h := 0;
    var n := |board|;
    for i := 0 to n
      invariant h == PairsBefore(board, i)
    {
      for j := i + 1 to n
        invariant h == PairsBefore(board, i) + RowCount(board, i, j)
      {
        if board[i] == board[j] || Abs(board[i] - board[j]) == Abs(i - j) {
          h := h + 1;
        }
      }
    }
    HeuristicCountsAttackingPairs(board);
    HeuristicZeroIffSolution(board);
  }

  /** Regression values: the diagonal board of size 4 has every pair attacking,
      and [1, 3, 0, 2] solves the 4-queens problem. */
  lemma {:induction false} HeuristicExamples()
    ensures Heuristic([0, 1, 2, 3]) == 6
    ensures Heuristic([1, 3, 0, 2]) == 0
    ensures Heuristic([0]) == 0
  {
    var d: Board := [0, 1, 2, 3];
    assert RowCount(d, 0, 4) == 3;
    assert RowCount(d, 1, 4) == 2;
    assert RowCount(d, 2, 4) == 1;
    var s: Board := [1, 3, 0, 2];
    assert RowCount(s, 0, 4) == 0;
    assert RowCount(s, 1, 4) == 0;
    assert RowCount(s, 2, 4) == 0;
  }
}
