/** The neighbour generator: every board reached by moving one queen to
    another row of its own column, enumerated column by column and, within a
    column, by ascending row. The order decides which neighbour the climbers
    pick among equally good ones. */
module Neighborhood {
  import opened Queens

  /** The boards the inner loop has appended for column col once its row
      counter has reached rows: each row below rows other than the queen's
      own, in ascending order. */
  function ColumnMoves(b: Board, col: nat, rows: nat): seq<Board>
    requires col < |b|
  {
    if rows == 0 then []
    else ColumnMoves(b, col, rows - 1) + (if rows - 1 != b[col] then [b[col := rows - 1]] else [])
  }

  /** The boards appended once the outer loop has reached column cols. */
  function MovesBefore(b: Board, cols: nat): seq<Board>
    requires cols <= |b|
  {
    if cols == 0 then [] else MovesBefore(b, cols - 1) + ColumnMoves(b, cols - 1, |b|)
  }

  /** All neighbours of a board, in the generator's order. */
  function Neighbors(b: Board): seq<Board>
  {
    MovesBefore(b, |b|)
  }

  /** nb is b with the queen of column col moved to a different row in [0, n-1]
      and every other column left as it was. */
  predicate MovedAt(b: Board, nb: Board, col: int)
  {
    0 <= col < |b| && |nb| == |b| && 0 <= nb[col] < |b| && nb[col] != b[col] &&
    forall c :: 0 <= c < |b| && c != col ==> nb[c] == b[c]
  }

  /** nb is b with exactly one queen moved within its column. */
  ghost predicate IsMove(b: Board, nb: Board)
  {
    exists col :: MovedAt(b, nb, col)
  }

  /** Where the move of column col's queen to row sits in the enumeration of
      the neighbours of a board in range: n-1 moves per column before it, then
      the rows of its own column below it other than the queen's. */
  function MoveIndex(b: Board, col: nat, row: int): int
    requires col < |b|
  {
    col * (|b| - 1) + (if row < b[col] then row else row - 1)
  }

  // ---------------------------------------------------------------------
  // One column

  lemma {:induction false} ColumnMovesLength(b: Board, col: nat, rows: nat)
    requires col < |b|
    ensures |ColumnMoves(b, col, rows)| == if 0 <= b[col] < rows then rows - 1 else rows
  {
    if rows > 0 {
      ColumnMovesLength(b, col, rows - 1);
    }
  }

  lemma {:induction false} ColumnMovesAreMoves(b: Board, col: nat, rows: nat)
    requires col < |b| && rows <= |b|
    ensures forall k :: 0 <= k < |ColumnMoves(b, col, rows)| ==> MovedAt(b, ColumnMoves(b, col, rows)[k], col)
  {
    if rows > 0 {
      ColumnMovesAreMoves(b, col, rows - 1);
    }
  }

  lemma {:induction false} ColumnMovesAt(b: Board, col: nat, rows: nat, row: int)
    requires col < |b| && 0 <= b[col]
    requires 0 <= row < rows && row != b[col]
    ensures var slot := if row < b[col] then row else row - 1;
            slot < |ColumnMoves(b, col, rows)| && ColumnMoves(b, col, rows)[slot] == b[col := row]
  {
    ColumnMovesLength(b, col, rows - 1);
    if row < rows - 1 {
      ColumnMovesAt(b, col, rows - 1, row);
    }
  }

  // ---------------------------------------------------------------------
  // All columns

  lemma {:induction false} MovesBeforeLength(b: Board, cols: nat)
    requires cols <= |b|
    ensures cols * (|b| - 1) <= |MovesBefore(b, cols)| <= cols * |b|
    ensures IsBoard(b) ==> |MovesBefore(b, cols)| == cols * (|b| - 1)
  {
    if cols > 0 {
      MovesBeforeLength(b, cols - 1);
      ColumnMovesLength(b, cols - 1, |b|);
      assert cols * (|b| - 1) == (cols - 1) * (|b| - 1) + (|b| - 1);
      assert cols * |b| == (cols - 1) * |b| + |b|;
    }
  }

  lemma {:induction false} MovesBeforeKeeps(b: Board, cols: nat, more: nat, k: nat)
    requires cols <= more <= |b| && k < |MovesBefore(b, cols)|
    ensures k < |MovesBefore(b, more)| && MovesBefore(b, more)[k] == MovesBefore(b, cols)[k]
    decreases more
  {
    if cols < more {
      MovesBeforeKeeps(b, cols, more - 1, k);
      assert MovesBefore(b, more) == MovesBefore(b, more - 1) + ColumnMoves(b, more - 1, |b|);
    }
  }

  lemma {:induction false} MovesBeforeAreMoves(b: Board, cols: nat)
    requires cols <= |b|
    ensures forall k :: 0 <= k < |MovesBefore(b, cols)| ==> IsMove(b, MovesBefore(b, cols)[k])
  {
    if cols > 0 {
      MovesBeforeAreMoves(b, cols - 1);
      ColumnMovesAreMoves(b, cols - 1, |b|);
      var prev, last := MovesBefore(b, cols - 1), ColumnMoves(b, cols - 1, |b|);
      assert MovesBefore(b, cols) == prev + last;
      forall k | 0 <= k < |MovesBefore(b, cols)|
        ensures IsMove(b, MovesBefore(b, cols)[k])
      {
        if k < |prev| {
          assert MovesBefore(b, cols)[k] == prev[k];
          var col :| MovedAt(b, prev[k], col);
        } else {
          assert MovesBefore(b, cols)[k] == last[k - |prev|];
          assert MovedAt(b, last[k - |prev|], cols - 1);
        }
      }
    } else {
      assert MovesBefore(b, cols) == [];
    }
  }

  // ---------------------------------------------------------------------
  // What the generator promises

  /** A board in range has exactly n(n-1) neighbours; any board has at least
      that many. */
  lemma NeighborCount(b: Board)
    ensures |b| * (|b| - 1) <= |Neighbors(b)|
    ensures IsBoard(b) ==> |Neighbors(b)| == |b| * (|b| - 1)
  {
    MovesBeforeLength(b, |b|);
  }

  /** A board of two or more columns has a neighbour. */
  lemma NeighborsNonEmpty(b: Board)
    ensures |b| >= 2 ==> |Neighbors(b)| > 0
  {
    NeighborCount(b);
    if |b| >= 2 {
      assert |b| * (|b| - 1) >= |b| - 1;
    }
  }

  /** Every neighbour moves exactly one queen within its column to another
      row of the board; so no neighbour is the board itself, and the
      neighbours of a board in range are in range. */
  lemma NeighborsAreMoves(b: Board)
    ensures forall k :: 0 <= k < |Neighbors(b)| ==> IsMove(b, Neighbors(b)[k])
    ensures b !in Neighbors(b)
    ensures IsBoard(b) ==> forall k :: 0 <= k < |Neighbors(b)| ==> IsBoard(Neighbors(b)[k]) && |Neighbors(b)[k]| == |b|
  {
    MovesBeforeAreMoves(b, |b|);
    forall k | 0 <= k < |Neighbors(b)| ensures Neighbors(b)[k] != b {
      var col :| MovedAt(b, Neighbors(b)[k], col);
    }
    if IsBoard(b) {
      forall k | 0 <= k < |Neighbors(b)|
        ensures IsBoard(Neighbors(b)[k]) && |Neighbors(b)[k]| == |b|
      {
        var col :| MovedAt(b, Neighbors(b)[k], col);
      }
    }
  }

  /** For a board in range, moving column col's queen to row is the
      MoveIndex(b, col, row)-th neighbour. */
  lemma NeighborOrder(b: Board, col: nat, row: int)
    requires IsBoard(b) && col < |b|
    requires 0 <= row < |b| && row != b[col]
    ensures 0 <= MoveIndex(b, col, row) < |Neighbors(b)|
    ensures Neighbors(b)[MoveIndex(b, col, row)] == b[col := row]
  {
    var n := |b|;
    var slot := if row < b[col] then row else row - 1;
    var before, here := MovesBefore(b, col), ColumnMoves(b, col, n);
    ColumnMovesAt(b, col, n, row);
    MovesBeforeLength(b, col);
    var k := |before| + slot;
    assert MoveIndex(b, col, row) == k;
    var upTo := MovesBefore(b, col + 1);
    assert upTo == before + here;
    assert k < |upTo| && upTo[k] == b[col := row];
    MovesBeforeKeeps(b, col + 1, n, k);
    assert Neighbors(b)[k] == upTo[k];
  }

  /** The enumeration is column-major with rows ascending: a move in an
      earlier column, or in the same column to a lower row, comes first. */
  lemma MoveIndexOrder(b: Board, col1: nat, row1: int, col2: nat, row2: int)
    requires IsBoard(b) && col1 < |b| && col2 < |b|
    requires 0 <= row1 < |b| && row1 != b[col1]
    requires 0 <= row2 < |b| && row2 != b[col2]
    ensures MoveIndex(b, col1, row1) < MoveIndex(b, col2, row2) <==>
            col1 < col2 || (col1 == col2 && row1 < row2)
  {
    var n := |b|;
    var slot1 := if row1 < b[col1] then row1 else row1 - 1;
    var slot2 := if row2 < b[col2] then row2 else row2 - 1;
    assert 0 <= slot1 < n - 1 && 0 <= slot2 < n - 1;
    assert col1 == col2 ==> (slot1 < slot2 <==> row1 < row2);
    SlotOrder(col1, slot1, col2, slot2, n - 1);
  }

  /** Positions c * m + s with 0 <= s < m are ordered by c, then by s. */
  lemma SlotOrder(c1: nat, s1: int, c2: nat, s2: int, m: int)
    requires 0 <= s1 < m && 0 <= s2 < m
    ensures c1 * m + s1 < c2 * m + s2 <==> c1 < c2 || (c1 == c2 && s1 < s2)
  {
    if c1 < c2 {
      MulMonotone(c1 + 1, c2, m);
      assert (c1 + 1) * m == c1 * m + m;
    } else if c2 < c1 {
      MulMonotone(c2 + 1, c1, m);
      assert (c2 + 1) * m == c2 * m + m;
    }
  }

  lemma MulMonotone(x: int, y: int, m: nat)
    requires x <= y
    ensures x * m <= y * m
  {
  }

  /** The neighbour generator as the source runs it: for each column and each
      row other than the queen's, a copy of the board with that column set to
      that row is appended. */
  method GetNeighbors(board: Board) returns (neighbors: seq<Board>)
    ensures neighbors == Neighbors(board)
    ensures IsBoard(board) ==> |neighbors| == |board| * (|board| - 1)
    ensures forall k :: 0 <= k < |neighbors| ==> IsMove(board, neighbors[k])
  {
    neighbors := [];
    var n := |board|;
    for col := 0 to n
      invariant neighbors == MovesBefore(board, col)
    {
      for row := 0 to n
        invariant neighbors == MovesBefore(board, col) + ColumnMoves(board, col, row)
      {
        if row != board[col] {
          var newBoard := board[col := row];
          neighbors := neighbors + [newBoard];
        }
      }
    }
    NeighborCount(board);
    NeighborsAreMoves(board);
  }
}
