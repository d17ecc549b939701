/** The occupancy board: an n * n array of visit numbers in row-major order,
    0 for a free square and i + 1 for the i-th square of the current path. */
module Occupancy {
  import opened Squares
  import opened Knight

  /** `cells` records exactly `path`: the i-th square of the path holds
      i + 1, and every cell that holds a non-zero number is the square of
      the path with that number. */
  ghost predicate Consistent(n: nat, cells: seq<int>, path: seq<Pos>) {
    |cells| == n * n &&
    (forall i :: 0 <= i < |path| ==>
      InBounds(n, path[i]) && 0 <= Idx(n, path[i]) < |cells| && cells[Idx(n, path[i])] == i + 1) &&
    (forall c :: 0 <= c < |cells| && cells[c] != 0 ==>
      1 <= cells[c] <= |path| && Idx(n, path[cells[c] - 1]) == c)
  }

  /** The board as it is at the start of a search: only the start square
      is marked, with 1. */
  function StartBoard(n: nat, start: Pos): (cells: seq<int>)
    requires InBounds(n, start)
    ensures Consistent(n, cells, [start])
  {
    IdxInRange(n, start);
    seq(n * n, c => if c == Idx(n, start) then 1 else 0)
  }

  /** A path recorded on the board stays on the board and has no repeated
      square, and every cell holds a visit number between 0 and the path's
      length. */
  lemma ConsistentPath(n: nat, cells: seq<int>, path: seq<Pos>)
    requires Consistent(n, cells, path)
    ensures AllInBounds(n, path) && Distinct(path)
    ensures forall c :: 0 <= c < |cells| ==> 0 <= cells[c] <= |path|
  {
    forall i, j | 0 <= i < j < |path| ensures path[i] != path[j] {
      assert cells[Idx(n, path[i])] == i + 1;
      assert cells[Idx(n, path[j])] == j + 1;
    }
  }

  /** A square on the board is free on the board exactly when the path does
      not visit it. */
  lemma FreeIffUnvisited(n: nat, cells: seq<int>, path: seq<Pos>, p: Pos)
    requires Consistent(n, cells, path) && InBounds(n, p)
    ensures 0 <= Idx(n, p) < |cells|
    ensures cells[Idx(n, p)] == 0 <==> p !in path
  {
    IdxInRange(n, p);
    var v := cells[Idx(n, p)];
    if v != 0 {
      var q := path[v - 1];
      IdxInjective(n, q, p);
      assert q == p;
    }
  }

  /** Marking a free square with the next visit number records the path
      extended by that square. */
  lemma MarkConsistent(n: nat, cells: seq<int>, path: seq<Pos>, p: Pos)
    requires Consistent(n, cells, path) && InBounds(n, p) && p !in path
    ensures 0 <= Idx(n, p) < |cells|
    ensures Consistent(n, cells[Idx(n, p) := |path| + 1], path + [p])
  {
    FreeIffUnvisited(n, cells, path, p);
    var marked := cells[Idx(n, p) := |path| + 1];
    var longer := path + [p];
    forall i | 0 <= i < |longer|
      ensures InBounds(n, longer[i]) && 0 <= Idx(n, longer[i]) < |marked|
      ensures marked[Idx(n, longer[i])] == i + 1
    {
      if i < |path| {
        assert longer[i] == path[i];
        IdxInjective(n, path[i], p);
      }
    }
    forall c | 0 <= c < |marked| && marked[c] != 0
      ensures 1 <= marked[c] <= |longer| && Idx(n, longer[marked[c] - 1]) == c
    {
      if c != Idx(n, p) {
        assert marked[c] == cells[c];
        assert longer[cells[c] - 1] == path[cells[c] - 1];
      }
    }
  }

  /** Clearing the last square of the path records the path without it:
      unmarking undoes marking. */
  lemma UnmarkConsistent(n: nat, cells: seq<int>, path: seq<Pos>)
    requires Consistent(n, cells, path) && path != []
    ensures 0 <= Idx(n, path[|path| - 1]) < |cells|
    ensures Consistent(n, cells[Idx(n, path[|path| - 1]) := 0], path[..|path| - 1])
  {
    ConsistentPath(n, cells, path);
    var last := path[|path| - 1];
    var cleared := cells[Idx(n, last) := 0];
    var shorter := path[..|path| - 1];
    forall i | 0 <= i < |shorter|
      ensures InBounds(n, shorter[i]) && 0 <= Idx(n, shorter[i]) < |cleared|
      ensures cleared[Idx(n, shorter[i])] == i + 1
    {
      IdxInjective(n, shorter[i], last);
    }
    forall c | 0 <= c < |cleared| && cleared[c] != 0
      ensures 1 <= cleared[c] <= |shorter| && Idx(n, shorter[cleared[c] - 1]) == c
    {
      assert cells[c] != |path|;
    }
  }

  /** The board is determined by the path it records: two boards that
      record the same path are equal. */
  lemma ConsistentUnique(n: nat, cells1: seq<int>, cells2: seq<int>, path: seq<Pos>)
    requires Consistent(n, cells1, path) && Consistent(n, cells2, path)
    ensures cells1 == cells2
  {
    forall c | 0 <= c < |cells1| ensures cells1[c] == cells2[c] {
      if cells1[c] != 0 {
        assert cells2[Idx(n, path[cells1[c] - 1])] == cells1[c];
      }
      if cells2[c] != 0 {
        assert cells1[Idx(n, path[cells2[c] - 1])] == cells2[c];
      }
    }
  }

  /** When the path has n * n squares, no cell of the board is free. */
  lemma FullBoard(n: nat, cells: seq<int>, path: seq<Pos>)
    requires Consistent(n, cells, path) && |path| == n * n
    ensures forall c :: 0 <= c < |cells| ==> cells[c] != 0
  {
    ConsistentPath(n, cells, path);
    CellsSize(n, path);
    RangeFacts(n * n);
    SubsetSize(Cells(n, path), Range(n * n));
    forall c | 0 <= c < |cells| ensures cells[c] != 0 {
      assert c in Cells(n, path);
      var i :| 0 <= i < |path| && Idx(n, path[i]) == c;
    }
  }
}
