/** The random-restart driver: run one of the climbers from fresh boards
    until a climb succeeds or the restart budget is spent, adding up the
    steps of every climb. The random boards are an input here: boards[i] is
    the board the i-th climb starts from. */
module Restarts {
  import opened Queens
  import opened Neighborhood
  import opened Climbing

  /** The step budget of each climb the driver starts. */
  const MaxSteps: nat := 1000

  /** The sideways budget of each sideways climb the driver starts. */
  const MaxSideways: nat := 100

  /** The sideways budget of the driver's climbs: the plain climber is the
      sideways climber without sideways moves (SidewaysWithoutBudgetIsPlain). */
  function SidewaysBudgetFor(allowSideways: bool): nat
  {
    if allowSideways then MaxSideways else 0
  }

  /** One climb as the driver runs it, with the default budgets. */
  function Attempt(allowSideways: bool, b: Board): Outcome
  {
    ClimbSideways(b, 0, 0, MaxSteps, SidewaysBudgetFor(allowSideways))
  }

  /** The driver's climber as a function of the starting board. */
  function Climber(allowSideways: bool): Board -> Outcome
  {
    b => Attempt(allowSideways, b)
  }

  /** The outcomes of the climbs from the first k boards, in order. */
  function Attempts(climb: Board -> Outcome, boards: seq<Board>, k: nat): (outs: seq<Outcome>)
    requires k <= |boards|
    ensures |outs| == k
  {
    if k == 0 then [] else Attempts(climb, boards, k - 1) + [climb(boards[k - 1])]
  }

  /** The i-th outcome is that of the climb from boards[i]. */
  lemma {:induction false} AttemptsAt(climb: Board -> Outcome, boards: seq<Board>, k: nat, i: nat)
    requires i < k <= |boards|
    ensures Attempts(climb, boards, k)[i] == climb(boards[i])
  {
    if i < k - 1 {
      AttemptsAt(climb, boards, k - 1, i);
    }
  }

  /** What the driver returns: the last climb's board, the number of failed
      climbs, the steps of all climbs and whether the last climb succeeded. */
  datatype RestartOutcome = RestartOutcome(board: Board, restarts: nat, totalSteps: nat, success: bool)

  /** The driver over the outcomes of its climbs, one per allowed restart,
      after restarts failed climbs, the last of which ended on last, and
      totalSteps steps so far. */
  function Restart(outs: seq<Outcome>, restarts: nat, totalSteps: nat, last: Board): RestartOutcome
    requires restarts <= |outs|
    decreases |outs| - restarts
  {
    if restarts == |outs| then RestartOutcome(last, restarts, totalSteps, false)
    else if outs[restarts].success then RestartOutcome(outs[restarts].board, restarts, totalSteps + outs[restarts].steps, true)
    else Restart(outs, restarts + 1, totalSteps + outs[restarts].steps, outs[restarts].board)
  }

  /** The steps of the first k climbs together. */
  function StepsSum(outs: seq<Outcome>, k: nat): nat
    requires k <= |outs|
  {
    if k == 0 then 0 else StepsSum(outs, k - 1) + outs[k - 1].steps
  }

  /** After a failed climb the driver goes on with the next one. */
  lemma RestartAfterFailure(outs: seq<Outcome>, restarts: nat, totalSteps: nat, last: Board, r: Outcome)
    requires restarts < |outs| && outs[restarts] == r && !r.success
    ensures Restart(outs, restarts, totalSteps, last) == Restart(outs, restarts + 1, totalSteps + r.steps, r.board)
  {
  }

  /** What one climb of the driver promises: at most MaxSteps steps, success
      exactly when it ends solved within the budget, and a board in range of
      the same size. */
  lemma AttemptOutcome(allowSideways: bool, b: Board)
    requires IsBoard(b)
    ensures var r := Attempt(allowSideways, b);
            r.steps <= MaxSteps && (r.success <==> IsSolution(r.board) && r.steps < MaxSteps) &&
            IsBoard(r.board) && |r.board| == |b|
  {
    var r := Attempt(allowSideways, b);
    var budget := SidewaysBudgetFor(allowSideways);
    SidewaysBounds(b, 0, 0, MaxSteps, budget);
    SidewaysSuccess(b, 0, 0, MaxSteps, budget);
    SidewaysKeepsBoard(b, 0, 0, MaxSteps, budget);
    HeuristicZeroIffSolution(r.board);
  }

  /** The driver stops at the first successful climb, with the number of
      climbs that failed before it, and returns that climb's board; if every
      climb fails, it has counted them all and returns the last climb's board. */
  lemma {:induction false} RestartStopsAtFirstSuccess(outs: seq<Outcome>, restarts: nat, totalSteps: nat, last: Board)
    requires restarts < |outs|
    ensures var o := Restart(outs, restarts, totalSteps, last);
            restarts <= o.restarts <= |outs| &&
            (forall i :: restarts <= i < o.restarts ==> !outs[i].success) &&
            (o.success ==> o.restarts < |outs| && outs[o.restarts].success && o.board == outs[o.restarts].board) &&
            (!o.success ==> o.restarts == |outs| && o.board == outs[|outs| - 1].board)
    decreases |outs| - restarts
  {
    if !outs[restarts].success && restarts + 1 < |outs| {
      RestartStopsAtFirstSuccess(outs, restarts + 1, totalSteps + outs[restarts].steps, outs[restarts].board);
    }
  }

  /** The driver's total is the sum of the steps of every climb it ran. */
  lemma {:induction false} RestartCountsAllSteps(outs: seq<Outcome>, restarts: nat, totalSteps: nat, last: Board)
    requires restarts <= |outs|
    requires totalSteps == StepsSum(outs, restarts)
    ensures var o := Restart(outs, restarts, totalSteps, last);
            o.restarts <= |outs| && (o.success ==> o.restarts < |outs|) &&
            o.totalSteps == StepsSum(outs, if o.success then o.restarts + 1 else o.restarts)
    decreases |outs| - restarts
  {
    if restarts < |outs| && !outs[restarts].success {
      RestartCountsAllSteps(outs, restarts + 1, totalSteps + outs[restarts].steps, outs[restarts].board);
    }
  }

  /** k climbs of at most budget steps each take at most k * budget steps together. */
  lemma {:induction false} StepsSumBound(outs: seq<Outcome>, k: nat, budget: nat)
    requires k <= |outs|
    requires forall i :: 0 <= i < |outs| ==> outs[i].steps <= budget
    ensures StepsSum(outs, k) <= k * budget
  {
    if k > 0 {
      StepsSumBound(outs, k - 1, budget);
    }
  }

  /** One climb of the driver: the sideways climber or the plain one, each
      with its default budgets. */
  method RunClimber(allowSideways: bool, initial: Board) returns (board: Board, steps: nat, success: bool)
    requires IsBoard(initial)
    ensures Outcome(board, steps, success) == Attempt(allowSideways, initial)
  {
    if allowSideways {
      board, steps, success := HillClimbSideways(initial, MaxSteps, MaxSideways);
    } else {
      board, steps, success := HillClimb(initial, MaxSteps);
      SidewaysWithoutBudgetIsPlain(initial, 0, MaxSteps);
    }
  }

  /** The i-th climb of the driver, from boards[i]. */
  method ClimbFrom(allowSideways: bool, boards: seq<Board>, k: nat, i: nat) returns (board: Board, steps: nat, success: bool)
    requires i < k <= |boards| && IsBoard(boards[i])
    ensures Outcome(board, steps, success) == Attempts(Climber(allowSideways), boards, k)[i]
  {
    board, steps, success := RunClimber(allowSideways, boards[i]);
    AttemptsAt(Climber(allowSideways), boards, k, i);
  }

  /** The driver: climb from boards[0], boards[1], ... until a climb succeeds
      or maxRestarts climbs have failed. outs[i] below is the outcome of the
      climb from boards[i] (AttemptsAt). */
  method RandomRestartHillClimb(n: nat, allowSideways: bool, maxRestarts: nat, boards: seq<Board>)
    returns (board: Board, restarts: nat, totalSteps: nat, success: bool)
    requires maxRestarts >= 1 && |boards| >= maxRestarts
    requires forall i :: 0 <= i < maxRestarts ==> IsBoard(boards[i]) && |boards[i]| == n
    ensures var outs := Attempts(Climber(allowSideways), boards, maxRestarts);
            RestartOutcome(board, restarts, totalSteps, success) == Restart(outs, 0, 0, boards[0]) &&
            restarts <= maxRestarts &&
            (forall i :: 0 <= i < restarts ==> !outs[i].success) &&
            (success ==> restarts < maxRestarts && board == outs[restarts].board && IsSolution(board)) &&
            (!success ==> restarts == maxRestarts && board == outs[maxRestarts - 1].board) &&
            IsBoard(board) && |board| == n &&
            totalSteps == StepsSum(outs, if success then restarts + 1 else restarts) &&
            totalSteps <= maxRestarts * MaxSteps
  {
    ghost var outs := Attempts(Climber(allowSideways), boards, maxRestarts);
    board, restarts, totalSteps, success := boards[0], 0, 0, false;
    while restarts < maxRestarts
      invariant restarts <= maxRestarts && !success
      invariant Restart(outs, restarts, totalSteps, board) == Restart(outs, 0, 0, boards[0])
    {
      var steps: nat;
      ghost var last, before := board, totalSteps;
      board, steps, success := ClimbFrom(allowSideways, boards, maxRestarts, restarts);
      totalSteps := totalSteps + steps;
      if success {
        break;
      }
      RestartAfterFailure(outs, restarts, before, last, Outcome(board, steps, success));
      restarts := restarts + 1;
    }
    RestartFacts(n, allowSideways, maxRestarts, boards);
  }

  /** What the driver promises: it stops at the first successful climb and
      returns that climb's solved board, or after maxRestarts failures the
      last climb's board; every board is in range; the total is the sum of
      the climbs' steps and at most maxRestarts step budgets. */
  lemma RestartFacts(n: nat, allowSideways: bool, maxRestarts: nat, boards: seq<Board>)
    requires maxRestarts >= 1 && |boards| >= maxRestarts
    requires forall i :: 0 <= i < maxRestarts ==> IsBoard(boards[i]) && |boards[i]| == n
    ensures var outs := Attempts(Climber(allowSideways), boards, maxRestarts);
            var o := Restart(outs, 0, 0, boards[0]);
            o.restarts <= maxRestarts &&
            (forall i :: 0 <= i < o.restarts ==> !outs[i].success) &&
            (o.success ==> o.restarts < maxRestarts && o.board == outs[o.restarts].board && IsSolution(o.board)) &&
            (!o.success ==> o.restarts == maxRestarts && o.board == outs[maxRestarts - 1].board) &&
            IsBoard(o.board) && |o.board| == n &&
            o.totalSteps == StepsSum(outs, if o.success then o.restarts + 1 else o.restarts) &&
            o.totalSteps <= maxRestarts * MaxSteps
  {
    var outs := Attempts(Climber(allowSideways), boards, maxRestarts);
    forall i | 0 <= i < maxRestarts
      ensures outs[i].steps <= MaxSteps && (outs[i].success <==> IsSolution(outs[i].board) && outs[i].steps < MaxSteps)
      ensures IsBoard(outs[i].board) && |outs[i].board| == n
    {
      AttemptsAt(Climber(allowSideways), boards, maxRestarts, i);
      AttemptOutcome(allowSideways, boards[i]);
    }
    var o := Restart(outs, 0, 0, boards[0]);
    RestartStopsAtFirstSuccess(outs, 0, 0, boards[0]);
    RestartCountsAllSteps(outs, 0, 0, boards[0]);
    var attempts := if o.success then o.restarts + 1 else o.restarts;
    StepsSumBound(outs, attempts, MaxSteps);
    MulMonotone(attempts, maxRestarts, MaxSteps);
  }
}
