/** The move both climbers consider at each step: score every neighbour, take
    the least score with min, and take the first neighbour with that score
    with list.index. Ties are broken by the neighbour generator's order. */
module Steepest {
  import opened Queens
  import opened Neighborhood

  /** The heuristic of each board of a list, in order. */
  function Scores(boards: seq<Board>): (hs: seq<nat>)
    ensures |hs| == |boards|
    ensures forall i :: 0 <= i < |boards| ==> hs[i] == Heuristic(boards[i])
  {
    seq(|boards|, i requires 0 <= i < |boards| => Heuristic(boards[i]))
  }

  /** The first position, among the first k boards of a list, of a board
      of least heuristic. */
  function FirstBest(boards: seq<Board>, k: nat): (i: nat)
    requires 0 < k <= |boards|
    ensures i < k
  {
    if k == 1 then 0
    else
      var i := FirstBest(boards, k - 1);
      if Heuristic(boards[k - 1]) < Heuristic(boards[i]) then k - 1 else i
  }

  /** FirstBest finds a board of least heuristic among the first k, and every
      board before it is strictly worse. */
  lemma {:induction false} FirstBestIsFirstMinimum(boards: seq<Board>, k: nat)
    requires 0 < k <= |boards|
    ensures var i := FirstBest(boards, k);
            (forall j :: 0 <= j < k ==> Heuristic(boards[i]) <= Heuristic(boards[j])) &&
            (forall j :: 0 <= j < i ==> Heuristic(boards[i]) < Heuristic(boards[j]))
  {
    if k > 1 {
      FirstBestIsFirstMinimum(boards, k - 1);
    }
  }

  /** A chosen neighbour: its position in the enumeration, the board and its heuristic. */
  datatype Move = Move(index: nat, board: Board, h: nat)

  /** The steepest move from a board of at least two columns: a neighbour of
      least heuristic, and the first such neighbour in the generator's order. */
  function SteepestMove(b: Board): (m: Move)
    requires |b| >= 2
    ensures m.index < |Neighbors(b)| && m.board == Neighbors(b)[m.index]
    ensures m.h == Heuristic(m.board)
  {
    NeighborsNonEmpty(b);
    var nbs := Neighbors(b);
    var k := FirstBest(nbs, |nbs|);
    Move(k, nbs[k], Heuristic(nbs[k]))
  }

  /** The steepest move goes to a neighbour of least heuristic, and every
      neighbour before it in the generator's order is strictly worse. */
  lemma SteepestMoveIsFirstMinimum(b: Board)
    requires |b| >= 2
    ensures var m := SteepestMove(b);
            (forall j :: 0 <= j < |Neighbors(b)| ==> m.h <= Heuristic(Neighbors(b)[j])) &&
            (forall j :: 0 <= j < m.index ==> m.h < Heuristic(Neighbors(b)[j]))
  {
    NeighborsNonEmpty(b);
    FirstBestIsFirstMinimum(Neighbors(b), |Neighbors(b)|);
  }

  /** The steepest move of a board in range moves one queen within its column
      and leaves a board in range. */
  lemma SteepestMoveIsMove(b: Board)
    requires |b| >= 2
    ensures IsMove(b, SteepestMove(b).board)
    ensures IsBoard(b) ==> IsBoard(SteepestMove(b).board) && |SteepestMove(b).board| == |b|
  {
    NeighborsAreMoves(b);
  }

  /** The list comprehension that scores every neighbour. */
  method ScoreNeighbors(neighbors: seq<Board>) returns (neighborH: seq<nat>)
    ensures neighborH == Scores(neighbors)
  {
    neighborH := [];
    for i := 0 to |neighbors|
      invariant |neighborH| == i
      invariant forall j :: 0 <= j < i ==> neighborH[j] == Heuristic(neighbors[j])
    {
      var h := ComputeHeuristic(neighbors[i]);
      neighborH := neighborH + [h];
    }
  }

  /** The least element of a non-empty list (Python's min). */
  method Min(hs: seq<int>) returns (m: int)
    requires |hs| > 0
    ensures m in hs
    ensures forall j :: 0 <= j < |hs| ==> m <= hs[j]
  {
    m := hs[0];
    for i := 1 to |hs|
      invariant m in hs[..i]
      invariant forall j :: 0 <= j < i ==> m <= hs[j]
    {
      if hs[i] < m {
        m := hs[i];
      }
    }
  }

  /** The first position of a value that the list holds (Python's list.index). */
  method IndexOf(hs: seq<int>, x: int) returns (k: nat)
    requires x in hs
    ensures k < |hs| && hs[k] == x
    ensures forall j :: 0 <= j < k ==> hs[j] != x
  {
    k := 0;
    while hs[k] != x
      invariant k < |hs| && x in hs[k..]
      invariant forall j :: 0 <= j < k ==> hs[j] != x
      decreases |hs| - k
    {
      k := k + 1;
    }
  }

  /** Generate and score the neighbours of a board and take the least score,
      as both climbers do before deciding whether to move. */
  method ScoreNeighborhood(board: Board) returns (neighbors: seq<Board>, neighborH: seq<nat>, minH: nat)
    requires |board| >= 2
    ensures neighbors == Neighbors(board) && neighborH == Scores(neighbors)
    ensures minH == SteepestMove(board).h
    ensures forall j :: 0 <= j < |neighbors| ==> minH <= Heuristic(neighbors[j])
  {
    neighbors := GetNeighbors(board);
    neighborH := ScoreNeighbors(neighbors);
    NeighborsNonEmpty(board);
    SteepestMoveIsFirstMinimum(board);
    var m := Min(neighborH);
    minH := m;
  }

  /** The first neighbour whose score is the least one: the move taken. */
  method FirstAtMinimum(board: Board, neighbors: seq<Board>, neighborH: seq<nat>, minH: nat) returns (best: Board)
    requires |board| >= 2
    requires neighbors == Neighbors(board) && neighborH == Scores(neighbors)
    requires minH == SteepestMove(board).h
    ensures best == SteepestMove(board).board
    ensures Heuristic(best) == minH
  {
    var k := IndexOf(neighborH, minH);
    var m := SteepestMove(board);
    SteepestMoveIsFirstMinimum(board);
    assert neighborH[m.index] == minH;
    best := neighbors[k];
  }
}
