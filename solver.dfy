/** The backtracking search: the state the application's `solve` works on
    (the occupancy board, the `solution` path, the `moves` step counter and
    the progress snapshots it hands to the page) and the recursive
    `solveKnightTour` search over it. */
module Solver {
  import opened Wrappers
  import opened Squares
  import opened Knight
  import opened Occupancy

  /** Steps between two progress snapshots. */
  const ReportInterval: nat := 1000

  /** A progress snapshot: a copy of the path and the step counter. */
  datatype Report = Report(path: seq<Pos>, steps: nat)

  /** Every snapshot is taken at a positive multiple of the interval no
      later than `moves`, holds a partial tour, and the snapshots are in
      increasing step order. */
  ghost predicate ReportLog(n: nat, reports: seq<Report>, moves: nat) {
    (forall i :: 0 <= i < |reports| ==>
      0 < reports[i].steps <= moves && reports[i].steps % ReportInterval == 0 &&
      IsPartialTour(n, reports[i].path)) &&
    (forall i, j :: 0 <= i < j < |reports| ==> reports[i].steps < reports[j].steps)
  }

  /** Counting one more step keeps the log valid, and so does a snapshot of
      a partial tour taken at a multiple of the interval. */
  lemma ReportLogStep(n: nat, reports: seq<Report>, moves: nat, path: seq<Pos>)
    requires ReportLog(n, reports, moves) && IsPartialTour(n, path)
    ensures ReportLog(n, reports, moves + 1)
    ensures (moves + 1) % ReportInterval == 0 ==>
      ReportLog(n, reports + [Report(path, moves + 1)], moves + 1)
  {
  }

  /** The number a `Uint8Array` cell holds after storing `v`. */
  function ToUint8(v: int): (b: int)
    ensures 0 <= b < 256
    ensures 0 <= v < 256 ==> b == v
  {
    v % 256
  }

  class KnightSolver {
    /** The side length of the board. */
    const n: nat
    /** The occupancy board, row-major: cell y * n + x is square (x, y). */
    const board: array<int>
    /** The path of the search so far, start square first. */
    var solution: seq<Pos>
    /** Placements plus undone placements since the search started. */
    var moves: nat
    /** The progress snapshots taken so far, oldest first. */
    var reports: seq<Report>
    /** How many placements and how many undos the search has made. */
    ghost var placed: nat
    ghost var undone: nat

    /** The board fits the Uint8 cells: every visit number is at most
        n * n, which is below 256. */
    ghost predicate Valid()
      reads this
    {
      0 < n && n * n < 256 && board.Length == n * n
    }

    /** The invariant of a running search: the board records exactly the
        path, the path is a partial knight's tour, the step counter is the
        number of placements plus the number of undos, and the path is one
        square longer than the placements not undone. */
    ghost predicate Searching()
      reads this, board
    {
      Valid() && solution != [] && |solution| <= n * n &&
      Consistent(n, board[..], solution) && KnightPath(solution) &&
      moves == placed + undone && |solution| + undone == 1 + placed &&
      ReportLog(n, reports, moves)
    }

    constructor (size: nat)
      requires 0 < size && size * size < 256
      ensures Valid() && n == size && fresh(board)
      ensures forall c :: 0 <= c < board.Length ==> board[c] == 0
      ensures solution == [] && moves == 0 && reports == []
    {
      n := size;
      board := new int[size * size](_ => 0);
      solution := [];
      moves := 0;
      reports := [];
      placed, undone := 0, 0;
    }

    /** A square may be visited next exactly when it is on the board and
        the path has not visited it. */
    function IsFree(x: int, y: int): (free: bool)
      reads this, board
      requires Searching()
      ensures free <==> InBounds(n, Pos(x, y)) && Pos(x, y) !in solution
    {
      x >= 0 && y >= 0 && x < n && y < n &&
      (FreeIffUnvisited(n, board[..], solution, Pos(x, y)); board[y * n + x] == 0)
    }

    /** Places the knight on the free square (x, y) as the next square of
        the path: marks it with the new path length, pushes it, counts the
        step and takes a snapshot when the counter reaches a multiple of the
        interval. */
    method Place(x: int, y: int, moveCount: nat)
      requires Searching() && |solution| == moveCount < n * n
      requires InBounds(n, Pos(x, y)) && Pos(x, y) !in solution
      requires IsKnightMove(solution[moveCount - 1], Pos(x, y))
      modifies this, board
      ensures Searching()
      ensures solution == old(solution) + [Pos(x, y)]
      ensures 0 <= Idx(n, Pos(x, y)) < board.Length
      ensures board[..] == old(board[..])[Idx(n, Pos(x, y)) := moveCount + 1]
      ensures moves == old(moves) + 1
      ensures reports == if moves % ReportInterval == 0
                         then old(reports) + [Report(solution, moves)] else old(reports)
    {
      ghost var path, cells, log, steps := solution, board[..], reports, moves;
      var next := Pos(x, y);
      MarkConsistent(n, cells, path, next);
      ConsistentPath(n, cells, path);
      AppendPartialTour(n, path, next);
      ReportLogStep(n, log, steps, path + [next]);
      board[y * n + x] := ToUint8(moveCount + 1);
      solution := solution + [next];
      moves := moves + 1;
      placed := placed + 1;
      if moves % ReportInterval == 0 {
        reports := reports + [Report(solution, moves)];
      }
      assert board[..] == cells[Idx(n, next) := moveCount + 1];
    }

    /** Takes the knight back off (x, y), the last square of the path:
        clears its cell, pops it and counts the step. */
    method Unplace(x: int, y: int)
      requires Searching() && |solution| >= 2 && solution[|solution| - 1] == Pos(x, y)
      modifies this, board
      ensures Searching()
      ensures solution == old(solution)[..|old(solution)| - 1]
      ensures 0 <= Idx(n, Pos(x, y)) < board.Length
      ensures board[..] == old(board[..])[Idx(n, Pos(x, y)) := 0]
      ensures moves == old(moves) + 1 && reports == old(reports)
    {
      ghost var path, cells, log, steps := solution, board[..], reports, moves;
      UnmarkConsistent(n, cells, path);
      assert KnightPath(path[..|path| - 1]);
      assert ReportLog(n, log, steps + 1);
      board[y * n + x] := 0;
      solution := solution[..|solution| - 1];
      moves := moves + 1;
      undone := undone + 1;
      assert board[..] == cells[Idx(n, Pos(x, y)) := 0];
    }

    /** Extends the path, whose last square is (x, y) and whose length is
        `moveCount`, to a full tour by trying the moves in order. On success
        the path is the first tour in that order; on failure the board and
        the path are as they were. */
    method SolveFrom(x: int, y: int, moveCount: nat) returns (found: bool)
      requires Searching()
      requires |solution| == moveCount && solution[moveCount - 1] == Pos(x, y)
      modifies this, board
      decreases n * n - moveCount, 2
      ensures Searching()
      ensures found == Extend(n, old(solution)).Some?
      ensures found ==> solution == Extend(n, old(solution)).value
      ensures !found ==> solution == old(solution) && board[..] == old(board[..])
      ensures moves >= old(moves) && old(reports) <= reports
      ensures !found ==> undone - old(undone) == placed - old(placed)
      ensures found ==> placed - old(placed) == undone - old(undone) + (|solution| - moveCount)
    {
      if moveCount == n * n {
        return true;
      }
      ghost var path, cells := solution, board[..];
      ExtendUnfold(n, path);
      for k := 0 to |Moves|
        invariant Searching() && solution == path
        invariant TryMoves(n, path, k) == Extend(n, path)
        invariant moves >= old(moves) && old(reports) <= reports
        invariant placed - old(placed) == undone - old(undone)
      {
        found := TryMove(x, y, moveCount, k);
        if found {
          return;
        }
      }
      ConsistentUnique(n, board[..], cells, path);
      return false;
    }

    /** Tries the k-th move from (x, y): when its target is free, advances
        to it. Succeeds with the tour the reference search finds through the
        k-th move, and fails, with the path unchanged, exactly when the
        reference search passes over that move. */
    method TryMove(x: int, y: int, moveCount: nat, k: nat) returns (found: bool)
      requires Searching()
      requires |solution| == moveCount < n * n && solution[moveCount - 1] == Pos(x, y)
      requires k < |Moves|
      modifies this, board
      decreases n * n - moveCount, 1
      ensures Searching()
      ensures found ==> TryMoves(n, old(solution), k) == Some(solution)
      ensures !found ==> TryMoves(n, old(solution), k) == TryMoves(n, old(solution), k + 1)
      ensures !found ==> solution == old(solution)
      ensures moves >= old(moves) && old(reports) <= reports
    {
      ghost var path := solution;
      var (dx, dy) := Moves[k];
      var nextX, nextY := x + dx, y + dy;
      ghost var next := Pos(nextX, nextY);
      assert next == Step(path[|path| - 1], k);
      if IsFree(nextX, nextY) {
        StepIsKnightMove(Pos(x, y), k);
        TryMovesTake(n, path, k, next);
        found := Advance(nextX, nextY, moveCount);
      } else {
        TryMovesSkip(n, path, k, next);
        found := false;
      }
    }

    /** Places the knight on the free square (x, y), searches on from it,
        and when that search fails takes the knight back, leaving the board
        and the path exactly as they were. */
    method Advance(x: int, y: int, moveCount: nat) returns (found: bool)
      requires Searching() && |solution| == moveCount < n * n
      requires InBounds(n, Pos(x, y)) && Pos(x, y) !in solution
      requires IsKnightMove(solution[moveCount - 1], Pos(x, y))
      modifies this, board
      decreases n * n - moveCount, 0
      ensures Searching()
      ensures found == Extend(n, old(solution) + [Pos(x, y)]).Some?
      ensures found ==> solution == Extend(n, old(solution) + [Pos(x, y)]).value
      ensures !found ==> solution == old(solution) && board[..] == old(board[..])
      ensures moves >= old(moves) && old(reports) <= reports
    {
      ghost var path, cells := solution, board[..];
      Place(x, y, moveCount);
      found := SolveFrom(x, y, moveCount + 1);
      if !found {
        Unplace(x, y);
        assert solution == path;
        ConsistentUnique(n, board[..], cells, path);
      }
    }

    /** Prepares a fresh search from `start`: clears the board, marks the
        start square with 1, resets the step counter and starts the path and
        the snapshots afresh. */
    method Start(start: Pos)
      requires Valid() && InBounds(n, start)
      modifies this, board
      ensures Searching()
      ensures solution == [start] && board[..] == StartBoard(n, start)
      ensures moves == 0 && reports == []
    {
      forall c | 0 <= c < board.Length {
        board[c] := 0;
      }
      IdxInRange(n, start);
      board[start.y * n + start.x] := 1;
      moves := 0;
      solution := [start];
      reports := [];
      placed, undone := 0, 0;
      assert board[..] == StartBoard(n, start);
    }

    /** Searches for a tour from `start`. On success the path is the first
        tour in move order: it starts at `start`, visits every square once
        and fills every cell of the board. On failure no tour starts at
        `start`, and the board records only the start square. */
    method Solve(start: Pos) returns (success: bool)
      requires Valid() && InBounds(n, start)
      modifies this, board
      ensures Searching()
      ensures success == Extend(n, [start]).Some?
      ensures success ==> solution == Extend(n, [start]).value
      ensures success ==> IsTour(n, solution) && solution[0] == start
      ensures success ==> forall p :: InBounds(n, p) ==> p in solution
      ensures success ==> forall c :: 0 <= c < board.Length ==> board[c] != 0
      ensures !success ==> solution == [start] && board[..] == StartBoard(n, start)
      ensures !success ==> forall t :: IsTour(n, t) ==> t[0] != start
      ensures success ==> placed == undone + (n * n - 1)
      ensures !success ==> placed == undone
    {
      Start(start);
      success := SolveFrom(start.x, start.y, 1);
      SearchFindsTourIffExists(n, [start]);
      if success {
        ExtendSound(n, [start]);
        TourCovers(n, solution);
        FullBoard(n, board[..], solution);
      } else {
        forall t | IsTour(n, t) ensures t[0] != start {
          assert [start] <= t <==> t[0] == start;
        }
      }
    }
  }
}
