/** Knight moves, tours, and the reference depth-first search that the
    solver in module Solver is proved to compute. */
module Knight {
  import opened Wrappers
  import opened Squares

  /** The eight knight offsets (dx, dy) in the fixed order the search tries
      them. The order decides which tour is found first. */
  const Moves: seq<(int, int)> :=
    [(2, 1), (1, 2), (-1, 2), (-2, 1), (-2, -1), (-1, -2), (1, -2), (2, -1)]

  /** The square reached from `p` by the k-th offset: two squares along
      one axis and one along the other. */
  function Step(p: Pos, k: nat): (q: Pos)
    requires k < |Moves|
    ensures IsLShaped(p, q)
  {
    Pos(p.x + Moves[k].0, p.y + Moves[k].1)
  }

  /** `b` is two squares from `a` along one axis and one square along the
      other: the shape of a knight's move on a chessboard. */
  predicate IsLShaped(a: Pos, b: Pos) {
    var dx, dy := b.x - a.x, b.y - a.y;
    ((dx == 1 || dx == -1) && (dy == 2 || dy == -2)) ||
    ((dx == 2 || dx == -2) && (dy == 1 || dy == -1))
  }

  predicate InBounds(n: int, p: Pos) {
    0 <= p.x < n && 0 <= p.y < n
  }

  /** Row-major cell index of a square on an n-by-n board. */
  function Idx(n: int, p: Pos): int {
    p.y * n + p.x
  }

  /** `b` is reached from `a` by one of the offsets of `Moves`. */
  predicate IsKnightMove(a: Pos, b: Pos) {
    exists k :: 0 <= k < |Moves| && Step(a, k) == b
  }

  predicate AllInBounds(n: int, t: seq<Pos>) {
    forall i :: 0 <= i < |t| ==> InBounds(n, t[i])
  }

  predicate Distinct(t: seq<Pos>) {
    forall i, j :: 0 <= i < j < |t| ==> t[i] != t[j]
  }

  predicate KnightPath(t: seq<Pos>) {
    forall i :: 0 < i < |t| ==> IsKnightMove(t[i - 1], t[i])
  }

  /** A non-empty path of knight moves on the board with no square twice. */
  predicate IsPartialTour(n: int, t: seq<Pos>) {
    t != [] && AllInBounds(n, t) && Distinct(t) && KnightPath(t)
  }

  /** An open knight's tour: a partial tour that visits all n * n squares. */
  predicate IsTour(n: int, t: seq<Pos>) {
    IsPartialTour(n, t) && |t| == n * n
  }

  /** The cell indices a path occupies. */
  function Cells(n: int, t: seq<Pos>): set<int> {
    set i | 0 <= i < |t| :: Idx(n, t[i])
  }

  // ---------------------------------------------------------------------
  // The reference search
  // ---------------------------------------------------------------------

  /** The first tour, in depth-first order over `Moves`, that extends
      `path`; `None` when the search tree below `path` holds no tour. A path
      of n * n squares is a tour already. */
  function Extend(n: nat, path: seq<Pos>): (r: Option<seq<Pos>>)
    requires path != [] && |path| <= n * n
    ensures r.Some? ==> path <= r.value && |r.value| == n * n
    decreases n * n - |path|, 1
  {
    if |path| == n * n then Some(path) else TryMoves(n, path, 0)
  }

  /** The first tour found by trying the offsets `Moves[k..]`, in order,
      from the last square of `path`: a candidate is taken when it is on the
      board and not on the path, and the first candidate whose own search
      succeeds wins. */
  function TryMoves(n: nat, path: seq<Pos>, k: nat): (r: Option<seq<Pos>>)
    requires path != [] && |path| < n * n && k <= |Moves|
    ensures r.Some? ==> path <= r.value && |r.value| == n * n
    decreases n * n - |path|, 0, |Moves| - k
  {
    if k == |Moves| then None
    else
      var next := Step(path[|path| - 1], k);
      if InBounds(n, next) && next !in path then
        match Extend(n, path + [next])
        case Some(tour) => assert path <= path + [next]; Some(tour)
        case None => TryMoves(n, path, k + 1)
      else TryMoves(n, path, k + 1)
  }

  // ---------------------------------------------------------------------
  // Cell indices
  // ---------------------------------------------------------------------

  /** Multiplying by a natural number keeps the order. */
  lemma {:induction false} MulMonotone(a: int, b: int, c: nat)
    requires a <= b
    ensures a * c <= b * c
    decreases c
  {
    if c > 0 {
      MulMonotone(a, b, c - 1);
      assert a * c == a * (c - 1) + a;
      assert b * c == b * (c - 1) + b;
    }
  }

  /** A square on the board has a cell index inside the n * n array. */
  lemma IdxInRange(n: int, p: Pos)
    requires InBounds(n, p)
    ensures 0 <= Idx(n, p) < n * n
  {
    MulMonotone(p.y, n - 1, n);
    MulMonotone(0, p.y, n);
    assert (n - 1) * n == n * n - n;
  }

  /** A square on a lower rank has a smaller cell index. */
  lemma IdxOrder(n: int, p: Pos, q: Pos)
    requires InBounds(n, p) && InBounds(n, q) && p.y < q.y
    ensures Idx(n, p) < Idx(n, q)
  {
    MulMonotone(p.y + 1, q.y, n);
    assert (p.y + 1) * n == p.y * n + n;
  }

  /** Different squares on the board have different cell indices. */
  lemma IdxInjective(n: int, p: Pos, q: Pos)
    requires InBounds(n, p) && InBounds(n, q)
    ensures Idx(n, p) == Idx(n, q) <==> p == q
  {
    if p.y < q.y {
      IdxOrder(n, p, q);
    } else if q.y < p.y {
      IdxOrder(n, q, p);
    }
  }

  // ---------------------------------------------------------------------
  // Counting squares
  // ---------------------------------------------------------------------

  /** The cell indices 0 .. m - 1. */
  function Range(m: nat): set<int> {
    if m == 0 then {} else Range(m - 1) + {m - 1}
  }

  lemma {:induction false} RangeFacts(m: nat)
    ensures |Range(m)| == m
    ensures forall c :: c in Range(m) <==> 0 <= c < m
  {
    if m > 0 {
      RangeFacts(m - 1);
    }
  }

  /** A subset is no larger than its superset, and equals it when it is as
      large. */
  lemma SubsetSize(a: set<int>, b: set<int>)
    requires a <= b
    ensures |a| <= |b|
    ensures |a| == |b| ==> a == b
  {
    assert a + (b - a) == b;
    assert a * (b - a) == {};
  }

  /** A path without repeats on the board occupies as many cells as it has
      squares, all of them inside the board's array. */
  lemma {:induction false} CellsSize(n: int, t: seq<Pos>)
    requires AllInBounds(n, t) && Distinct(t)
    ensures |Cells(n, t)| == |t|
    ensures n >= 0 ==> Cells(n, t) <= Range(n * n)
  {
    if t != [] {
      var s := t[..|t| - 1];
      var last := t[|t| - 1];
      CellsSize(n, s);
      assert Cells(n, t) == Cells(n, s) + {Idx(n, last)};
      forall i | 0 <= i < |s| ensures Idx(n, s[i]) != Idx(n, last) {
        IdxInjective(n, s[i], last);
      }
      IdxInRange(n, last);
      RangeFacts(n * n);
    }
  }

  /** A path without repeats on an n-by-n board has at most n * n squares. */
  lemma PartialTourFits(n: nat, t: seq<Pos>)
    requires AllInBounds(n, t) && Distinct(t)
    ensures |t| <= n * n
  {
    CellsSize(n, t);
    RangeFacts(n * n);
    SubsetSize(Cells(n, t), Range(n * n));
  }

  /** A tour occupies every cell of the board. */
  lemma TourFillsCells(n: nat, t: seq<Pos>)
    requires IsTour(n, t)
    ensures Cells(n, t) == Range(n * n)
  {
    CellsSize(n, t);
    RangeFacts(n * n);
    SubsetSize(Cells(n, t), Range(n * n));
  }

  /** A tour visits every square of the board. */
  lemma TourCovers(n: nat, t: seq<Pos>)
    requires IsTour(n, t)
    ensures forall p :: InBounds(n, p) ==> p in t
  {
    TourFillsCells(n, t);
    RangeFacts(n * n);
    forall p | InBounds(n, p) ensures p in t {
      IdxInRange(n, p);
      assert Idx(n, p) in Cells(n, t);
      var i :| 0 <= i < |t| && Idx(n, t[i]) == Idx(n, p);
      IdxInjective(n, t[i], p);
    }
  }

  // ---------------------------------------------------------------------
  // Soundness and completeness of the reference search
  // ---------------------------------------------------------------------

  /** The offsets of `Moves` are the eight knight's moves, each listed
      once: a square is one move of `Moves` away exactly when it is an
      L-shaped jump away. */
  lemma MovesAreKnightMoves(a: Pos, b: Pos)
    ensures forall i, j :: 0 <= i < j < |Moves| ==> Moves[i] != Moves[j]
    ensures IsKnightMove(a, b) <==> IsLShaped(a, b)
  {
    var dx, dy := b.x - a.x, b.y - a.y;
    if IsLShaped(a, b) {
      var k :=
        if dx == 2 && dy == 1 then 0
        else if dx == 1 && dy == 2 then 1
        else if dx == -1 && dy == 2 then 2
        else if dx == -2 && dy == 1 then 3
        else if dx == -2 && dy == -1 then 4
        else if dx == -1 && dy == -2 then 5
        else if dx == 1 && dy == -2 then 6
        else 7;
      assert Step(a, k) == b;
    }
  }

  /** Every offset of `Moves` is a knight move. */
  lemma StepIsKnightMove(p: Pos, k: nat)
    requires k < |Moves|
    ensures IsKnightMove(p, Step(p, k))
  {
  }

  /** Appending a knight move to a free square on the board keeps a
      partial tour a partial tour. */
  lemma AppendPartialTour(n: int, path: seq<Pos>, next: Pos)
    requires IsPartialTour(n, path)
    requires InBounds(n, next) && next !in path && IsKnightMove(path[|path| - 1], next)
    ensures IsPartialTour(n, path + [next])
  {
    var t := path + [next];
    forall i, j | 0 <= i < j < |t| ensures t[i] != t[j] {
      if j == |path| {
        assert t[i] == path[i];
      }
    }
  }

  /** A candidate that is off the board or already on the path is passed
      over. */
  lemma TryMovesSkip(n: nat, path: seq<Pos>, k: nat, next: Pos)
    requires path != [] && |path| < n * n && k < |Moves|
    requires next == Step(path[|path| - 1], k) && !(InBounds(n, next) && next !in path)
    ensures TryMoves(n, path, k) == TryMoves(n, path, k + 1)
  {
  }

  /** A free candidate wins when its own search finds a tour, and is passed
      over otherwise. */
  lemma TryMovesTake(n: nat, path: seq<Pos>, k: nat, next: Pos)
    requires path != [] && |path| < n * n && k < |Moves|
    requires next == Step(path[|path| - 1], k) && InBounds(n, next) && next !in path
    ensures Extend(n, path + [next]).Some? ==> TryMoves(n, path, k) == Extend(n, path + [next])
    ensures Extend(n, path + [next]).None? ==> TryMoves(n, path, k) == TryMoves(n, path, k + 1)
  {
  }

  /** A path shorter than the board is extended by trying the moves from
      the first one on. */
  lemma ExtendUnfold(n: nat, path: seq<Pos>)
    requires path != [] && |path| < n * n
    ensures Extend(n, path) == TryMoves(n, path, 0)
  {
  }

  /** Whatever the search returns is a tour that begins with the path it
      started from. */
  lemma {:induction false} ExtendSound(n: nat, path: seq<Pos>)
    requires IsPartialTour(n, path)
    ensures |path| <= n * n
    ensures Extend(n, path).Some? ==> IsTour(n, Extend(n, path).value)
    ensures Extend(n, path).Some? ==> path <= Extend(n, path).value
    decreases n * n - |path|, 1
  {
    PartialTourFits(n, path);
    if |path| < n * n {
      TryMovesSound(n, path, 0);
    }
  }

  lemma {:induction false} TryMovesSound(n: nat, path: seq<Pos>, k: nat)
    requires IsPartialTour(n, path) && |path| < n * n && k <= |Moves|
    ensures TryMoves(n, path, k).Some? ==> IsTour(n, TryMoves(n, path, k).value)
    ensures TryMoves(n, path, k).Some? ==> path <= TryMoves(n, path, k).value
    decreases n * n - |path|, 0, |Moves| - k
  {
    if k < |Moves| {
      var next := Step(path[|path| - 1], k);
      if InBounds(n, next) && next !in path {
        StepIsKnightMove(path[|path| - 1], k);
        AppendPartialTour(n, path, next);
        ExtendSound(n, path + [next]);
        if Extend(n, path + [next]).Some? {
          var tour := Extend(n, path + [next]).value;
          assert path <= path + [next] <= tour;
        }
      }
      TryMovesSound(n, path, k + 1);
    }
  }

  /** The search is exhaustive: if some tour begins with `path`, the search
      from `path` finds a tour. */
  lemma {:induction false} ExtendComplete(n: nat, path: seq<Pos>, tour: seq<Pos>)
    requires IsTour(n, tour) && path != [] && path <= tour
    ensures Extend(n, path).Some?
    decreases n * n - |path|, 1
  {
    if |path| < n * n {
      var last := path[|path| - 1];
      var next := tour[|path|];
      assert IsKnightMove(tour[|path| - 1], next);
      var k :| 0 <= k < |Moves| && Step(last, k) == next;
      TryMovesComplete(n, path, 0, tour, k);
    }
  }

  lemma {:induction false} TryMovesComplete(n: nat, path: seq<Pos>, j: nat, tour: seq<Pos>, k: nat)
    requires IsTour(n, tour) && path != [] && path <= tour && |path| < n * n
    requires j <= k < |Moves| && Step(path[|path| - 1], k) == tour[|path|]
    ensures TryMoves(n, path, j).Some?
    decreases n * n - |path|, 0, |Moves| - j
  {
    var next := Step(path[|path| - 1], j);
    if j < k {
      if !(InBounds(n, next) && next !in path && Extend(n, path + [next]).Some?) {
        TryMovesComplete(n, path, j + 1, tour, k);
      }
    } else {
      assert next == tour[|path|];
      assert path + [next] <= tour;
      forall i | 0 <= i < |path| ensures path[i] != next {
        assert tour[i] == path[i];
      }
      ExtendComplete(n, path + [next], tour);
    }
  }

  /** The search finds a tour from `path` exactly when one exists. */
  lemma SearchFindsTourIffExists(n: nat, path: seq<Pos>)
    requires IsPartialTour(n, path)
    ensures |path| <= n * n
    ensures Extend(n, path).Some? <==> exists t :: IsTour(n, t) && path <= t
  {
    PartialTourFits(n, path);
    if Extend(n, path).Some? {
      ExtendSound(n, path);
      assert IsTour(n, Extend(n, path).value) && path <= Extend(n, path).value;
    }
    if exists t :: IsTour(n, t) && path <= t {
      var t :| IsTour(n, t) && path <= t;
      ExtendComplete(n, path, t);
    }
  }
}
