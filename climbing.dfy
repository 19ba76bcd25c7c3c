/** The two local searches. Both check for a solved board at the top of every
    step, move to the steepest neighbour (the first of least heuristic) and
    stop after maxSteps steps. The plain climber stops as soon as no neighbour
    is strictly better; the sideways climber also accepts an equally good
    neighbour, at most maxSideways times in a row. */
module Climbing {
  import opened Queens
  import opened Neighborhood
  import opened Steepest

  /** What a climb returns: the final board, the number of moves made and
      whether the final board was found solved. */
  datatype Outcome = Outcome(board: Board, steps: nat, success: bool)

  /** A board that has an attacking pair and no strictly better neighbour. */
  ghost predicate IsLocalMinimum(b: Board)
  {
    Heuristic(b) > 0 &&
    forall j :: 0 <= j < |Neighbors(b)| ==> Heuristic(b) <= Heuristic(Neighbors(b)[j])
  }

  // ---------------------------------------------------------------------
  // Plain steepest descent

  /** The plain climb from board b, with steps moves already made. */
  function Climb(b: Board, steps: nat, maxSteps: nat): Outcome
    decreases maxSteps - steps
  {
    if steps >= maxSteps then Outcome(b, steps, false)
    else if Heuristic(b) == 0 then Outcome(b, steps, true)
    else
      HeuristicNeedsTwoQueens(b);
      var m := SteepestMove(b);
      if m.h >= Heuristic(b) then Outcome(b, steps, false)
      else Climb(m.board, steps + 1, maxSteps)
  }

  /** The boards the plain climb visits, the first and the last included. */
  ghost function ClimbPath(b: Board, steps: nat, maxSteps: nat): (p: seq<Board>)
    ensures |p| > 0 && p[0] == b
    decreases maxSteps - steps
  {
    if steps >= maxSteps || Heuristic(b) == 0 then [b]
    else
      HeuristicNeedsTwoQueens(b);
      var m := SteepestMove(b);
      if m.h >= Heuristic(b) then [b]
      else [b] + ClimbPath(m.board, steps + 1, maxSteps)
  }

  /** One move of the plain climb: to the steepest neighbour, strictly better. */
  ghost predicate ClimbMove(s: Board, t: Board)
  {
    |s| >= 2 && t == SteepestMove(s).board && Heuristic(t) < Heuristic(s)
  }

  /** The path of the plain climb starts at its board, ends at the climb's
      final board, and has one move per step counted. */
  lemma {:induction false} ClimbPathShape(b: Board, steps: nat, maxSteps: nat)
    requires steps <= maxSteps
    ensures var p, r := ClimbPath(b, steps, maxSteps), Climb(b, steps, maxSteps);
            |p| == r.steps - steps + 1 && p[0] == b && p[|p| - 1] == r.board
    decreases maxSteps - steps
  {
    if steps < maxSteps && Heuristic(b) != 0 {
      HeuristicNeedsTwoQueens(b);
      var m := SteepestMove(b);
      if m.h < Heuristic(b) {
        ClimbPathShape(m.board, steps + 1, maxSteps);
      }
    }
  }

  /** Each move of the plain climb goes to the steepest neighbour and
      strictly lowers the heuristic. */
  lemma {:induction false} ClimbPathDescends(b: Board, steps: nat, maxSteps: nat)
    ensures forall i :: 0 <= i < |ClimbPath(b, steps, maxSteps)| - 1 ==>
              ClimbMove(ClimbPath(b, steps, maxSteps)[i], ClimbPath(b, steps, maxSteps)[i + 1])
    decreases maxSteps - steps
  {
    if steps < maxSteps && Heuristic(b) != 0 {
      HeuristicNeedsTwoQueens(b);
      var m := SteepestMove(b);
      if m.h < Heuristic(b) {
        ClimbPathDescends(m.board, steps + 1, maxSteps);
        var rest := ClimbPath(m.board, steps + 1, maxSteps);
        var p := ClimbPath(b, steps, maxSteps);
        assert p == [b] + rest;
        assert ClimbMove(p[0], p[1]);
        forall i | 0 < i < |p| - 1 ensures ClimbMove(p[i], p[i + 1]) {
          assert p[i] == rest[i - 1] && p[i + 1] == rest[i];
          assert ClimbMove(rest[i - 1], rest[i]);
        }
      }
    }
  }

  /** The plain climb makes at most as many moves as the initial heuristic,
      never more than maxSteps, and never raises the heuristic. */
  lemma {:induction false} ClimbDescends(b: Board, steps: nat, maxSteps: nat)
    requires steps <= maxSteps
    ensures var r := Climb(b, steps, maxSteps);
            steps <= r.steps <= maxSteps && Heuristic(r.board) + (r.steps - steps) <= Heuristic(b)
    decreases maxSteps - steps
  {
    if steps < maxSteps && Heuristic(b) != 0 {
      HeuristicNeedsTwoQueens(b);
      var m := SteepestMove(b);
      if m.h < Heuristic(b) {
        ClimbDescends(m.board, steps + 1, maxSteps);
      }
    }
  }

  /** The plain climb reports success exactly when its final board is solved
      and the step budget was not used up: a board solved by the last
      allowed move is reported as a failure. */
  lemma {:induction false} ClimbSuccess(b: Board, steps: nat, maxSteps: nat)
    requires steps <= maxSteps
    ensures var r := Climb(b, steps, maxSteps);
            r.success <==> Heuristic(r.board) == 0 && r.steps < maxSteps
    decreases maxSteps - steps
  {
    if steps < maxSteps && Heuristic(b) != 0 {
      HeuristicNeedsTwoQueens(b);
      var m := SteepestMove(b);
      if m.h < Heuristic(b) {
        ClimbSuccess(m.board, steps + 1, maxSteps);
      }
    }
  }

  /** A plain climb that fails before its step budget is used up stops at a
      local minimum. */
  lemma {:induction false} ClimbStuck(b: Board, steps: nat, maxSteps: nat)
    requires steps <= maxSteps
    ensures var r := Climb(b, steps, maxSteps);
            !r.success && r.steps < maxSteps ==> IsLocalMinimum(r.board)
    decreases maxSteps - steps
  {
    if steps < maxSteps && Heuristic(b) != 0 {
      HeuristicNeedsTwoQueens(b);
      var m := SteepestMove(b);
      SteepestMoveIsFirstMinimum(b);
      if m.h < Heuristic(b) {
        ClimbStuck(m.board, steps + 1, maxSteps);
      } else {
        ClimbDescends(b, steps, maxSteps);
      }
    }
  }

  /** A plain climb from a board in range ends on a board in range of the
      same size. */
  lemma {:induction false} ClimbKeepsBoard(b: Board, steps: nat, maxSteps: nat)
    requires IsBoard(b)
    ensures IsBoard(Climb(b, steps, maxSteps).board) && |Climb(b, steps, maxSteps).board| == |b|
    decreases maxSteps - steps
  {
    if steps < maxSteps && Heuristic(b) != 0 {
      HeuristicNeedsTwoQueens(b);
      var m := SteepestMove(b);
      if m.h < Heuristic(b) {
        SteepestMoveIsMove(b);
        ClimbKeepsBoard(m.board, steps + 1, maxSteps);
      }
    }
  }

  // ---------------------------------------------------------------------
  // Steepest descent with sideways moves

  /** The sideways climb from board b, with steps moves made so far and the
      last sideways moves of them made at an unchanged heuristic. */
  function ClimbSideways(b: Board, steps: nat, sideways: nat, maxSteps: nat, maxSideways: nat): Outcome
    decreases maxSteps - steps
  {
    if steps >= maxSteps then Outcome(b, steps, false)
    else if Heuristic(b) == 0 then Outcome(b, steps, true)
    else
      HeuristicNeedsTwoQueens(b);
      var m := SteepestMove(b);
      if m.h < Heuristic(b) then ClimbSideways(m.board, steps + 1, 0, maxSteps, maxSideways)
      else if m.h == Heuristic(b) && sideways < maxSideways then
        ClimbSideways(m.board, steps + 1, sideways + 1, maxSteps, maxSideways)
      else Outcome(b, steps, false)
  }

  /** The last element of a non-empty sequence. */
  function Last<T>(s: seq<T>): T
    requires |s| > 0
  {
    s[|s| - 1]
  }

  /** A point of a sideways climb: the board and the sideways counter. */
  datatype SidewaysState = SidewaysState(board: Board, sideways: nat)

  /** The states the sideways climb passes through, the first and the last included. */
  ghost function SidewaysPath(b: Board, steps: nat, sideways: nat, maxSteps: nat, maxSideways: nat): (p: seq<SidewaysState>)
    ensures |p| > 0 && p[0] == SidewaysState(b, sideways)
    decreases maxSteps - steps
  {
    if steps >= maxSteps || Heuristic(b) == 0 then [SidewaysState(b, sideways)]
    else
      HeuristicNeedsTwoQueens(b);
      var m := SteepestMove(b);
      if m.h < Heuristic(b) then
        [SidewaysState(b, sideways)] + SidewaysPath(m.board, steps + 1, 0, maxSteps, maxSideways)
      else if m.h == Heuristic(b) && sideways < maxSideways then
        [SidewaysState(b, sideways)] + SidewaysPath(m.board, steps + 1, sideways + 1, maxSteps, maxSideways)
      else [SidewaysState(b, sideways)]
  }

  /** One move of the sideways climb: to the steepest neighbour, either
      strictly better with the counter reset to 0, or equally good with the
      counter raised by one. */
  ghost predicate SidewaysMove(s: SidewaysState, t: SidewaysState)
  {
    |s.board| >= 2 && t.board == SteepestMove(s.board).board &&
    if Heuristic(t.board) < Heuristic(s.board) then t.sideways == 0
    else Heuristic(t.board) == Heuristic(s.board) && t.sideways == s.sideways + 1
  }

  /** The path of the sideways climb has one move per step counted. */
  lemma {:induction false} SidewaysPathLength(b: Board, steps: nat, sideways: nat, maxSteps: nat, maxSideways: nat)
    requires steps <= maxSteps
    ensures |SidewaysPath(b, steps, sideways, maxSteps, maxSideways)| ==
            ClimbSideways(b, steps, sideways, maxSteps, maxSideways).steps - steps + 1
    decreases maxSteps - steps
  {
    if steps < maxSteps && Heuristic(b) != 0 {
      HeuristicNeedsTwoQueens(b);
      var m := SteepestMove(b);
      if m.h < Heuristic(b) || (m.h == Heuristic(b) && sideways < maxSideways) {
        var next := if m.h < Heuristic(b) then 0 else sideways + 1;
        SidewaysPathLength(m.board, steps + 1, next, maxSteps, maxSideways);
        var rest := SidewaysPath(m.board, steps + 1, next, maxSteps, maxSideways);
        assert SidewaysPath(b, steps, sideways, maxSteps, maxSideways) == [SidewaysState(b, sideways)] + rest;
        assert ClimbSideways(b, steps, sideways, maxSteps, maxSideways) ==
               ClimbSideways(m.board, steps + 1, next, maxSteps, maxSideways);
      }
    }
  }

  /** The path of the sideways climb ends at the climb's final board. */
  lemma {:induction false} SidewaysPathEnds(b: Board, steps: nat, sideways: nat, maxSteps: nat, maxSideways: nat)
    ensures Last(SidewaysPath(b, steps, sideways, maxSteps, maxSideways)).board ==
            ClimbSideways(b, steps, sideways, maxSteps, maxSideways).board
    decreases maxSteps - steps
  {
    if steps < maxSteps && Heuristic(b) != 0 {
      HeuristicNeedsTwoQueens(b);
      var m := SteepestMove(b);
      if m.h < Heuristic(b) || (m.h == Heuristic(b) && sideways < maxSideways) {
        var next := if m.h < Heuristic(b) then 0 else sideways + 1;
        SidewaysPathEnds(m.board, steps + 1, next, maxSteps, maxSideways);
        var rest := SidewaysPath(m.board, steps + 1, next, maxSteps, maxSideways);
        var p := SidewaysPath(b, steps, sideways, maxSteps, maxSideways);
        assert p == [SidewaysState(b, sideways)] + rest;
        assert Last(p) == Last(rest);
        assert ClimbSideways(b, steps, sideways, maxSteps, maxSideways) ==
               ClimbSideways(m.board, steps + 1, next, maxSteps, maxSideways);
      }
    }
  }

  /** Along the sideways climb the counter never exceeds maxSideways. */
  lemma {:induction false} SidewaysPathCounter(b: Board, steps: nat, sideways: nat, maxSteps: nat, maxSideways: nat)
    requires sideways <= maxSideways
    ensures forall i :: 0 <= i < |SidewaysPath(b, steps, sideways, maxSteps, maxSideways)| ==>
              SidewaysPath(b, steps, sideways, maxSteps, maxSideways)[i].sideways <= maxSideways
    decreases maxSteps - steps
  {
    if steps < maxSteps && Heuristic(b) != 0 {
      HeuristicNeedsTwoQueens(b);
      var m := SteepestMove(b);
      var p := SidewaysPath(b, steps, sideways, maxSteps, maxSideways);
      var next := if m.h < Heuristic(b) then 0 else sideways + 1;
      if m.h < Heuristic(b) || (m.h == Heuristic(b) && sideways < maxSideways) {
        SidewaysPathCounter(m.board, steps + 1, next, maxSteps, maxSideways);
        var rest := SidewaysPath(m.board, steps + 1, next, maxSteps, maxSideways);
        assert p == [SidewaysState(b, sideways)] + rest;
        forall i | 0 < i < |p| ensures p[i].sideways <= maxSideways {
          assert p[i] == rest[i - 1];
          assert rest[i - 1].sideways <= maxSideways;
        }
      }
    }
  }

  /** Every move of the sideways climb is a SidewaysMove. */
  lemma {:induction false} SidewaysPathMoves(b: Board, steps: nat, sideways: nat, maxSteps: nat, maxSideways: nat)
    ensures forall i :: 0 <= i < |SidewaysPath(b, steps, sideways, maxSteps, maxSideways)| - 1 ==>
              SidewaysMove(SidewaysPath(b, steps, sideways, maxSteps, maxSideways)[i],
                           SidewaysPath(b, steps, sideways, maxSteps, maxSideways)[i + 1])
    decreases maxSteps - steps
  {
    if steps < maxSteps && Heuristic(b) != 0 {
      HeuristicNeedsTwoQueens(b);
      var m := SteepestMove(b);
      var p := SidewaysPath(b, steps, sideways, maxSteps, maxSideways);
      var next := if m.h < Heuristic(b) then 0 else sideways + 1;
      if m.h < Heuristic(b) || (m.h == Heuristic(b) && sideways < maxSideways) {
        SidewaysPathMoves(m.board, steps + 1, next, maxSteps, maxSideways);
        var rest := SidewaysPath(m.board, steps + 1, next, maxSteps, maxSideways);
        assert p == [SidewaysState(b, sideways)] + rest;
        assert SidewaysMove(p[0], p[1]);
        forall i | 0 < i < |p| - 1 ensures SidewaysMove(p[i], p[i + 1]) {
          assert p[i] == rest[i - 1] && p[i + 1] == rest[i];
          assert SidewaysMove(rest[i - 1], rest[i]);
        }
      }
    }
  }

  /** The most moves a sideways climb can make from heuristic h with a fresh
      counter: h strict moves, and up to maxSideways sideways moves before the
      first of them and after each. */
  function MoveBudget(h: nat, maxSideways: nat): nat
  {
    if h == 0 then maxSideways else MoveBudget(h - 1, maxSideways) + 1 + maxSideways
  }

  /** The budget in closed form: h + (h + 1) * maxSideways moves. */
  lemma {:induction false} MoveBudgetClosedForm(h: nat, maxSideways: nat)
    ensures MoveBudget(h, maxSideways) == h + (h + 1) * maxSideways
  {
    if h > 0 {
      MoveBudgetClosedForm(h - 1, maxSideways);
    }
  }

  /** A strict move to a lower heuristic, after at most maxSideways sideways
      moves, leaves the budget of the lower heuristic for the rest. */
  lemma {:induction false} StrictMoveBudget(h: nat, lower: nat, rest: int, sideways: nat, maxSideways: nat)
    requires lower < h && sideways <= maxSideways
    requires rest <= MoveBudget(lower, maxSideways)
    ensures 1 + rest + sideways <= MoveBudget(h, maxSideways)
  {
    if lower < h - 1 {
      StrictMoveBudget(h - 1, lower, rest, sideways, maxSideways);
    }
  }

  /** The sideways climb never raises the heuristic and never exceeds
      maxSteps. */
  lemma {:induction false} SidewaysBounds(b: Board, steps: nat, sideways: nat, maxSteps: nat, maxSideways: nat)
    requires steps <= maxSteps
    ensures var r := ClimbSideways(b, steps, sideways, maxSteps, maxSideways);
            steps <= r.steps <= maxSteps && Heuristic(r.board) <= Heuristic(b)
    decreases maxSteps - steps
  {
    if steps < maxSteps && Heuristic(b) != 0 {
      HeuristicNeedsTwoQueens(b);
      var m := SteepestMove(b);
      if m.h < Heuristic(b) {
        SidewaysBounds(m.board, steps + 1, 0, maxSteps, maxSideways);
      } else if m.h == Heuristic(b) && sideways < maxSideways {
        SidewaysBounds(m.board, steps + 1, sideways + 1, maxSteps, maxSideways);
      }
    }
  }

  /** The sideways climb makes at most h0 strict moves, with at most
      maxSideways sideways moves before the first of them and after each: at
      most MoveBudget(h0, maxSideways) moves in all from a fresh counter. */
  lemma {:induction false} SidewaysBudget(b: Board, steps: nat, sideways: nat, maxSteps: nat, maxSideways: nat)
    requires steps <= maxSteps && sideways <= maxSideways
    ensures var r := ClimbSideways(b, steps, sideways, maxSteps, maxSideways);
            r.steps - steps + sideways <= MoveBudget(Heuristic(b), maxSideways)
    decreases maxSteps - steps
  {
    var h := Heuristic(b);
    if steps < maxSteps && h != 0 {
      HeuristicNeedsTwoQueens(b);
      var m := SteepestMove(b);
      if m.h < h {
        SidewaysBudget(m.board, steps + 1, 0, maxSteps, maxSideways);
        var r := ClimbSideways(m.board, steps + 1, 0, maxSteps, maxSideways);
        StrictMoveBudget(h, m.h, r.steps - (steps + 1), sideways, maxSideways);
      } else if m.h == h && sideways < maxSideways {
        SidewaysBudget(m.board, steps + 1, sideways + 1, maxSteps, maxSideways);
      }
    }
  }

  /** The sideways climb reports success exactly when its final board is
      solved and the step budget was not used up. */
  lemma {:induction false} SidewaysSuccess(b: Board, steps: nat, sideways: nat, maxSteps: nat, maxSideways: nat)
    requires steps <= maxSteps
    ensures var r := ClimbSideways(b, steps, sideways, maxSteps, maxSideways);
            r.success <==> Heuristic(r.board) == 0 && r.steps < maxSteps
    decreases maxSteps - steps
  {
    if steps < maxSteps && Heuristic(b) != 0 {
      HeuristicNeedsTwoQueens(b);
      var m := SteepestMove(b);
      if m.h < Heuristic(b) {
        SidewaysSuccess(m.board, steps + 1, 0, maxSteps, maxSideways);
      } else if m.h == Heuristic(b) && sideways < maxSideways {
        SidewaysSuccess(m.board, steps + 1, sideways + 1, maxSteps, maxSideways);
      }
    }
  }

  /** A sideways climb that fails before its step budget is used up stops
      where no neighbour is strictly better, and if the best neighbour is
      equally good, only because the counter has reached maxSideways. */
  lemma SidewaysStuck(b: Board, steps: nat, sideways: nat, maxSteps: nat, maxSideways: nat)
    requires steps <= maxSteps
    ensures var r := ClimbSideways(b, steps, sideways, maxSteps, maxSideways);
            !r.success && r.steps < maxSteps ==>
              IsLocalMinimum(r.board) && |r.board| >= 2 &&
              (SteepestMove(r.board).h == Heuristic(r.board) ==>
                 Last(SidewaysPath(b, steps, sideways, maxSteps, maxSideways)).sideways >= maxSideways)
  {
    SidewaysStuckAtMinimum(b, steps, sideways, maxSteps, maxSideways);
    SidewaysStopsOnPlateauOnlyWhenSpent(b, steps, sideways, maxSteps, maxSideways);
    SidewaysPathEnds(b, steps, sideways, maxSteps, maxSideways);
  }

  /** A sideways climb that fails before its step budget is used up stops at
      a local minimum. */
  lemma {:induction false} SidewaysStuckAtMinimum(b: Board, steps: nat, sideways: nat, maxSteps: nat, maxSideways: nat)
    requires steps <= maxSteps
    ensures var r := ClimbSideways(b, steps, sideways, maxSteps, maxSideways);
            !r.success && r.steps < maxSteps ==> IsLocalMinimum(r.board)
    decreases maxSteps - steps
  {
    if steps < maxSteps && Heuristic(b) != 0 {
      HeuristicNeedsTwoQueens(b);
      var m := SteepestMove(b);
      SteepestMoveIsFirstMinimum(b);
      if m.h < Heuristic(b) {
        SidewaysStuckAtMinimum(m.board, steps + 1, 0, maxSteps, maxSideways);
      } else if m.h == Heuristic(b) && sideways < maxSideways {
        SidewaysStuckAtMinimum(m.board, steps + 1, sideways + 1, maxSteps, maxSideways);
      }
    }
  }

  /** The state s is one the sideways climb may stop in without its step
      budget used up: a board with neighbours whose best neighbour is not
      strictly better, and if it is equally good, a counter at maxSideways
      or above. */
  ghost predicate SpentOrStuck(s: SidewaysState, maxSideways: nat)
  {
    |s.board| >= 2 && (SteepestMove(s.board).h == Heuristic(s.board) ==> s.sideways >= maxSideways)
  }

  /** A sideways climb that stops early does so in a SpentOrStuck state: on a
      plateau only once the counter has reached maxSideways, since while
      sideways moves are left it keeps moving. */
  lemma {:induction false} SidewaysStopsOnPlateauOnlyWhenSpent(b: Board, steps: nat, sideways: nat, maxSteps: nat, maxSideways: nat)
    ensures var r := ClimbSideways(b, steps, sideways, maxSteps, maxSideways);
            !r.success && r.steps < maxSteps ==>
              SpentOrStuck(Last(SidewaysPath(b, steps, sideways, maxSteps, maxSideways)), maxSideways)
    decreases maxSteps - steps
  {
    if steps < maxSteps && Heuristic(b) != 0 {
      HeuristicNeedsTwoQueens(b);
      var m := SteepestMove(b);
      var p := SidewaysPath(b, steps, sideways, maxSteps, maxSideways);
      if m.h < Heuristic(b) || (m.h == Heuristic(b) && sideways < maxSideways) {
        var next := if m.h < Heuristic(b) then 0 else sideways + 1;
        SidewaysStopsOnPlateauOnlyWhenSpent(m.board, steps + 1, next, maxSteps, maxSideways);
        var rest := SidewaysPath(m.board, steps + 1, next, maxSteps, maxSideways);
        assert p == [SidewaysState(b, sideways)] + rest;
        assert Last(p) == Last(rest);
        assert ClimbSideways(b, steps, sideways, maxSteps, maxSideways) ==
               ClimbSideways(m.board, steps + 1, next, maxSteps, maxSideways);
      } else {
        assert p == [SidewaysState(b, sideways)];
        assert SpentOrStuck(SidewaysState(b, sideways), maxSideways);
      }
    }
  }

  /** A sideways climb from a board in range ends on a board in range of the
      same size. */
  lemma {:induction false} SidewaysKeepsBoard(b: Board, steps: nat, sideways: nat, maxSteps: nat, maxSideways: nat)
    requires IsBoard(b)
    ensures var r := ClimbSideways(b, steps, sideways, maxSteps, maxSideways);
            IsBoard(r.board) && |r.board| == |b|
    decreases maxSteps - steps
  {
    if steps < maxSteps && Heuristic(b) != 0 {
      HeuristicNeedsTwoQueens(b);
      var m := SteepestMove(b);
      SteepestMoveIsMove(b);
      if m.h < Heuristic(b) {
        SidewaysKeepsBoard(m.board, steps + 1, 0, maxSteps, maxSideways);
      } else if m.h == Heuristic(b) && sideways < maxSideways {
        SidewaysKeepsBoard(m.board, steps + 1, sideways + 1, maxSteps, maxSideways);
      }
    }
  }

  /** With no sideways budget the sideways climb is the plain climb. */
  lemma {:induction false} SidewaysWithoutBudgetIsPlain(b: Board, steps: nat, maxSteps: nat)
    ensures ClimbSideways(b, steps, 0, maxSteps, 0) == Climb(b, steps, maxSteps)
    decreases maxSteps - steps
  {
    if steps < maxSteps && Heuristic(b) != 0 {
      HeuristicNeedsTwoQueens(b);
      var m := SteepestMove(b);
      if m.h < Heuristic(b) {
        SidewaysWithoutBudgetIsPlain(m.board, steps + 1, maxSteps);
      }
    }
  }

  // ---------------------------------------------------------------------
  // What a whole climb from a board in range promises

  /** The plain climb ends on a board in range of the same size, after at
      most maxSteps moves and at most as many moves as the initial heuristic;
      it succeeds exactly when that board is a solution reached within the
      budget, and otherwise, unless the budget ran out, it stopped at a local
      minimum. */
  lemma ClimbOutcome(initial: Board, maxSteps: nat)
    requires IsBoard(initial)
    ensures var r := Climb(initial, 0, maxSteps);
            IsBoard(r.board) && |r.board| == |initial| &&
            r.steps <= maxSteps && r.steps + Heuristic(r.board) <= Heuristic(initial) &&
            (r.success <==> IsSolution(r.board) && r.steps < maxSteps) &&
            (!r.success && r.steps < maxSteps ==> IsLocalMinimum(r.board))
  {
    ClimbDescends(initial, 0, maxSteps);
    ClimbSuccess(initial, 0, maxSteps);
    ClimbStuck(initial, 0, maxSteps);
    ClimbKeepsBoard(initial, 0, maxSteps);
    HeuristicZeroIffSolution(Climb(initial, 0, maxSteps).board);
  }

  /** The sideways climb ends on a board in range of the same size, after at
      most maxSteps moves and at most MoveBudget moves, never above the
      initial heuristic; it succeeds exactly when that board is a solution
      reached within the budget, and otherwise, unless the budget ran out, it
      stopped at a local minimum, and on a plateau only after maxSideways
      sideways moves in a row. */
  lemma SidewaysOutcome(initial: Board, maxSteps: nat, maxSideways: nat)
    requires IsBoard(initial)
    ensures var r := ClimbSideways(initial, 0, 0, maxSteps, maxSideways);
            IsBoard(r.board) && |r.board| == |initial| &&
            r.steps <= maxSteps && Heuristic(r.board) <= Heuristic(initial) &&
            r.steps <= MoveBudget(Heuristic(initial), maxSideways) &&
            (r.success <==> IsSolution(r.board) && r.steps < maxSteps) &&
            (!r.success && r.steps < maxSteps ==> IsLocalMinimum(r.board)) &&
            (!r.success && r.steps < maxSteps ==>
               |r.board| >= 2 &&
               (SteepestMove(r.board).h == Heuristic(r.board) ==>
                  Last(SidewaysPath(initial, 0, 0, maxSteps, maxSideways)).sideways == maxSideways))
  {
    SidewaysPathCounter(initial, 0, 0, maxSteps, maxSideways);
    var p := SidewaysPath(initial, 0, 0, maxSteps, maxSideways);
    assert Last(p) == p[|p| - 1];
    SidewaysBounds(initial, 0, 0, maxSteps, maxSideways);
    SidewaysBudget(initial, 0, 0, maxSteps, maxSideways);
    SidewaysSuccess(initial, 0, 0, maxSteps, maxSideways);
    SidewaysStuck(initial, 0, 0, maxSteps, maxSideways);
    SidewaysKeepsBoard(initial, 0, 0, maxSteps, maxSideways);
    HeuristicZeroIffSolution(ClimbSideways(initial, 0, 0, maxSteps, maxSideways).board);
  }

  // ---------------------------------------------------------------------
  // The climbers as the source runs them

  /** Plain hill climbing from an initial board in range. */
  method HillClimb(initial: Board, maxSteps: nat) returns (board: Board, steps: nat, success: bool)
    requires IsBoard(initial)
    ensures Outcome(board, steps, success) == Climb(initial, 0, maxSteps)
  {
    board, steps, success := initial, 0, false;
    while steps < maxSteps
      invariant steps <= maxSteps && !success
      invariant Climb(board, steps, maxSteps) == Climb(initial, 0, maxSteps)
      decreases maxSteps - steps
    {
      var currentH := ComputeHeuristic(board);
      if currentH == 0 {
        success := true;
        break;
      }
      HeuristicNeedsTwoQueens(board);
      var neighbors, neighborH, minH := ScoreNeighborhood(board);
      if minH >= currentH {
        break;
      }
      board := FirstAtMinimum(board, neighbors, neighborH, minH);
      steps := steps + 1;
    }
  }

  /** Hill climbing with at most maxSideways equal-cost moves in a row, from
      an initial board in range. */
  method HillClimbSideways(initial: Board, maxSteps: nat, maxSideways: nat) returns (board: Board, steps: nat, success: bool)
    requires IsBoard(initial)
    ensures Outcome(board, steps, success) == ClimbSideways(initial, 0, 0, maxSteps, maxSideways)
  {
    board, steps, success := initial, 0, false;
    var sidewaysMoves: nat := 0;
    ghost var target := ClimbSideways(initial, 0, 0, maxSteps, maxSideways);
    while steps < maxSteps
      invariant steps <= maxSteps && sidewaysMoves <= maxSideways && !success
      invariant ClimbSideways(board, steps, sidewaysMoves, maxSteps, maxSideways) == target
      decreases maxSteps - steps
    {
      var currentH := ComputeHeuristic(board);
      if currentH == 0 {
        success := true;
        break;
      }
      HeuristicNeedsTwoQueens(board);
      var neighbors, neighborH, minH := ScoreNeighborhood(board);
      var counter: nat;
      if minH < currentH {
        counter := 0;
      } else if minH == currentH && sidewaysMoves < maxSideways {
        counter := sidewaysMoves + 1;
      } else {
        break;
      }
      board := FirstAtMinimum(board, neighbors, neighborH, minH);
      sidewaysMoves := counter;
      steps := steps + 1;
    }
  }
}
