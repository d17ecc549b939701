# Knight's tour search

This project models the knight's-tour search of the Springer web
application (`vite-project/src/App.tsx`). The user clicks a square. `solve`
then runs a depth-first backtracking search from that square for an open
knight's tour: a sequence of knight moves that visits every square of the
board exactly once.

The search works on three pieces of state:

- an occupancy board, a `Uint8Array` of `BOARD_SIZE * BOARD_SIZE` cells in
  row-major order (cell `y * 8 + x`), where 0 means free and `i + 1` means
  "the i-th square of the path";
- the `solution` path stack;
- the `moves` step counter, which counts placements and undone placements.

It tries the eight knight offsets of `MOVES` in a fixed order. The first
recursive success wins. A failed candidate is unmarked and popped. Every
1000th step that is a placement hands a copy of the path and the counter to
the page.

The model has five modules:

- `Wrappers`: the `Option` type.
- `Squares`: `BOARD_SIZE`, square coordinates `Pos`, and the label
  conversions `posToSquare` / `squareToPos` with their round-trip lemmas.
- `Knight`: the `MOVES` table and knight paths and tours. It also holds
  `Extend` / `TryMoves`, a pure reference definition of the same
  depth-first search over a path. Lemmas prove that what the search returns
  is a tour extending its starting path (`ExtendSound`), and that it fails
  only when no such tour exists (`ExtendComplete`). Also here: counting
  lemmas showing that a tour covers every square.
- `Occupancy`: the relation between the board and the path
  (`Consistent`). Lemmas show that marking and unmarking keep it, that
  "free on the board" means "not on the path", and that the board is
  determined by the path.
- `Solver`: class `KnightSolver`. Its fields are the board (an
  `array<int>`), `solution` (a `seq<Pos>`), `moves`, and the log of
  progress snapshots. `SolveFrom` is the recursive `solveKnightTour` with
  its `for` loop over `MOVES`. Its contract says it computes exactly
  `Extend`. On failure the board and the path are what they were on entry.
  `Solve` is the entry point. Because the search is specified by a
  function of the start square, its result is deterministic. Every tour
  property is stated under the condition that the search returned `true`.

The board side length is a constructor parameter `n` (8 in the
application). It is limited to `n * n < 256` because the cells are
`Uint8Array` bytes (see `ToUint8`).

## Model

| member | source | states |
|---|---|---|
| `Squares.PosToSquare` | vite-project/src/App.tsx:19 | the label of an on-board square is one file letter 'a'..'h' followed by one rank digit '1'..'8' |
| `Squares.SquareToPos` | vite-project/src/App.tsx:20 | a label yields coordinates exactly when its second character is a decimal digit (otherwise the rank is `NaN`); the rank it yields is between -1 and 8 |
| `Squares.PosRoundTrip` | vite-project/src/App.tsx:19-20 | converting an on-board square to its label and back gives the square |
| `Squares.LabelRoundTrip` | vite-project/src/App.tsx:19-20 | every board label converts to an on-board square whose label is the original label |
| `Squares.PosToSquareInjective` | vite-project/src/App.tsx:19 | two on-board squares have the same label exactly when they are the same square |
| `Knight.MovesAreKnightMoves` | vite-project/src/App.tsx:5-8 | the eight offsets of `MOVES` are pairwise different, and a square is one of them away exactly when it is two squares along one axis and one along the other: the table lists every knight's move once |
| `Knight.Step` | vite-project/src/App.tsx:36-38 | the candidate `(x + dx, y + dy)` for any offset of `MOVES` is an L-shaped knight's jump from `(x, y)` |
| `Knight.Extend` | vite-project/src/App.tsx:33-34 | the reference search: whatever tour it returns begins with the path it started from and has exactly n * n squares |
| `Knight.TryMoves` | vite-project/src/App.tsx:36-61 | the reference loop over the offsets from the k-th on: whatever tour it returns begins with the path and has exactly n * n squares |
| `Knight.IdxInRange` | vite-project/src/App.tsx:31 | the cell `y * n + x` of an on-board square lies inside the n * n board, so `isValid` never reads out of bounds |
| `Knight.IdxInjective` | vite-project/src/App.tsx:41 | two on-board squares share a cell exactly when they are the same square |
| `Knight.PartialTourFits` | vite-project/src/App.tsx:34 | a path on the board without repeats has at most n * n squares, so a partial tour never exceeds the board and the search from it is defined |
| `Knight.TourFillsCells` | vite-project/src/App.tsx:34 | the cells of a tour of n * n squares are all n * n cells of the board |
| `Knight.TourCovers` | vite-project/src/App.tsx:34 | a tour visits every square of the board |
| `Knight.AppendPartialTour` | vite-project/src/App.tsx:40-42 | pushing a free on-board square one knight move away keeps the path a partial tour |
| `Knight.ExtendSound` | vite-project/src/App.tsx:33-62 | a partial tour fits the board, and whatever the search returns from it is a full tour that begins with that partial tour |
| `Knight.TryMovesSound` | vite-project/src/App.tsx:36-61 | whatever the loop over the moves from the k-th on returns is a full tour extending the path |
| `Knight.ExtendComplete` | vite-project/src/App.tsx:33-62 | the search is exhaustive: if any tour begins with the path, the search from the path succeeds |
| `Knight.TryMovesComplete` | vite-project/src/App.tsx:36-61 | if a tour continues the path through the k-th move, the loop started at any move up to k succeeds |
| `Knight.SearchFindsTourIffExists` | vite-project/src/App.tsx:33-62 | the search from a partial tour succeeds if and only if some tour begins with that partial tour |
| `Occupancy.Consistent` | vite-project/src/App.tsx:41-42 | the board/path invariant: the i-th square of the path holds i + 1, and every non-zero cell is the square of the path with that number |
| `Occupancy.StartBoard` | vite-project/src/App.tsx:24-26 | the cleared board with only the start square marked 1 records the one-square path |
| `Occupancy.ConsistentPath` | vite-project/src/App.tsx:26-28 | a path the board records is on the board and has no repeated square, and every cell holds 0 or a visit number up to the path length |
| `Occupancy.FreeIffUnvisited` | vite-project/src/App.tsx:30-31 | an on-board square's cell is 0 exactly when the path does not visit the square |
| `Occupancy.MarkConsistent` | vite-project/src/App.tsx:41-42 | storing `moveCount + 1` in a free square's cell and pushing the square keeps board and path consistent |
| `Occupancy.UnmarkConsistent` | vite-project/src/App.tsx:55-56 | clearing the last square's cell and popping it keeps board and path consistent |
| `Occupancy.ConsistentUnique` | vite-project/src/App.tsx:55-56 | two boards that record the same path are equal, so undo restores the board exactly |
| `Occupancy.FullBoard` | vite-project/src/App.tsx:34 | once the path has n * n squares, no cell of the board is 0 |
| `Solver.ReportLogStep` | vite-project/src/App.tsx:43-49 | counting a step keeps the snapshot log valid, and so does a snapshot of a partial tour taken at a multiple of 1000 |
| `Solver.ToUint8` | vite-project/src/App.tsx:41 | a `Uint8Array` cell holds a value in 0..255, and a value already in that range is stored unchanged |
| `Solver.KnightSolver.constructor` | vite-project/src/App.tsx:17 | a fresh n * n board of zeros |
| `Solver.KnightSolver.IsFree` | vite-project/src/App.tsx:30-31 | `isValid(x, y)` holds exactly when (x, y) is on the board and not on the path |
| `Solver.KnightSolver.Place` | vite-project/src/App.tsx:41-49 | marks the cell with `moveCount + 1`, pushes the square, adds one step, and appends a snapshot exactly when the counter is then a multiple of 1000; the search invariant is kept |
| `Solver.KnightSolver.Unplace` | vite-project/src/App.tsx:55-57 | clears the cell, pops the square and adds one step; the search invariant is kept |
| `Solver.KnightSolver.Advance` | vite-project/src/App.tsx:41-57 | succeeds exactly when the reference search from the extended path succeeds, with its tour as the path; on failure board and path are exactly as on entry |
| `Solver.KnightSolver.TryMove` | vite-project/src/App.tsx:36-58 | one iteration of the loop: on success the path is the reference loop's result at move k; on failure the path is unchanged and the reference loop passes over move k |
| `Solver.KnightSolver.SolveFrom` | vite-project/src/App.tsx:33-62 | returns exactly whether the reference search finds a tour, leaves that first tour as the path, restores board and path exactly on failure, never decreases the step counter, and on failure has undone every placement it made |
| `Solver.KnightSolver.Start` | vite-project/src/App.tsx:23-28 | clears the board, marks the start with 1, and starts the path, counter and snapshots afresh |
| `Solver.KnightSolver.Solve` | vite-project/src/App.tsx:23-66 | on success the path is the first tour in move order from the start, visits every square, and leaves no cell 0; on failure no tour starts at the start square and only the start is marked |

## Left out

- The search is specified for any board side `n` with `n * n < 256`. The application fixes `n` at `BOARD_SIZE = 8`. Larger boards would wrap the `Uint8Array` visit numbers and are not modelled.
- `solution` holds labels (`posToSquare(nextX, nextY)`) in the application and `Pos` values here. `Squares.PosRoundTrip` and `Squares.LabelRoundTrip` show that the two are interchangeable for on-board squares.
- Squares.PosToSquare: requires an on-board square. Its only caller pushes a square that `isValid` accepted. Labels of off-board coordinates (other letters, two-digit ranks) are not modelled.
- Squares.SquareToPos: a `NaN` rank is represented as `None`. JavaScript's `charCodeAt` returns UTF-16 code units, while a Dafny `char` is a Unicode scalar value. The two differ only for characters outside the Basic Multilingual Plane, which no board label contains.
- Solver.KnightSolver.Solve: takes the start as a `Pos`. The application reads it from the clicked label with `squareToPos(knights[0])` (lines 25 and 28). It requires the start to be on the board: the code does not reject an off-board start, and the square always comes from a click on the board.
- The application does not check for double marking or for unmarking a free cell either. `Place` requires a free square and `Unplace` requires the path's last square, which is what the search's callers guarantee.
- A snapshot is taken only when the counter reaches a multiple of 1000 through a placement (line 45 follows the increment at line 43). A multiple reached by an undo (line 57) produces no snapshot. The model follows the code.
- Cooperative yielding is not modelled: `await microDelay()`, `setTimeout`, and the async/await structure (lines 11, 48, 51). A snapshot is recorded as an entry in the `reports` log instead of a `setKnights` / `setTotalMoves` call. The model assumes the search owns the board and the path exclusively while it yields.
- Interleaving with the page during a yield is not modelled. The Reset Board button stays enabled while solving (`vite-project/src/chessboard/chessboard.tsx:133`). `handleResetBoard` (lines 81-86) clears the same `Uint8Array` the running search uses (lines 17, 23, 85). Once the search resumes, `isValid` treats squares already on `solution` as free, so a reported "success" can contain repeated squares. Placing a knight and starting a second `solve` on the same board during a yield is not modelled either. None of the model's contracts hold under such interleavings.
- React state and UI are not modelled: `useState`, `useRef`, `useCallback`, `setSolving`, the final `setKnights(solution)` / `setTotalMoves(moves)` (lines 64-69), the `alert` on failure (lines 71-73), `handlePlaceKnight` and `handleResetBoard`. The final path and counter are the solver's `solution` and `moves` fields.
- `vite-project/src/chessboard/chessboard.tsx` is not part of this model. It renders squares, arrows and the progress bar.
- `moves` is a JavaScript number, exact only up to 2^53. It is modelled as an unbounded `nat`, which assumes the search takes fewer than 2^53 steps. That bound is not proved.
- Whether a tour exists from a particular square, for example the a1 tour the application finds, is a computed fact. It is not proved. The success properties are stated under the condition that the search returned `true`.
