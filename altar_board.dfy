/**
 * The 7x7 altar board: each cell is open or closed, and a 5x3 core
 * (rows 2..4, columns 1..5) is open from the start and can never be
 * closed. Cells are opened next to an already open cell and closed only if
 * the open cells stay connected through 4-neighbour steps.
 *
 * The page keeps the board as a grid of flags and edits a private copy of
 * it before publishing the copy; here a board is a value and an edit
 * produces a new value.
 */
module AltarBoard {

  /** Side length of the board. */
  const Size: int := 7

  datatype Cell = Cell(row: int, col: int)

  type Board = seq<seq<bool>>

  predicate InBounds(c: Cell) {
    0 <= c.row < Size && 0 <= c.col < Size
  }

  /** The pinned core: rows 2..4, columns 1..5. */
  predicate IsCore(c: Cell) {
    2 <= c.row <= 4 && 1 <= c.col <= 5
  }

  predicate IsGrid(b: Board) {
    |b| == Size && forall r :: 0 <= r < Size ==> |b[r]| == Size
  }

  /** Cell c is on the board and open. Anything off the board reads as closed. */
  predicate IsOpen(b: Board, c: Cell) {
    InBounds(c) && c.row < |b| && c.col < |b[c.row]| && b[c.row][c.col]
  }

  /** The board the page starts from: exactly the core is open. */
  function InitialBoard(): (b: Board)
    ensures IsGrid(b)
    ensures forall c :: IsOpen(b, c) <==> IsCore(c)
  {
    var closed := [false, false, false, false, false, false, false];
    var middle := [false, true, true, true, true, true, false];
    [closed, closed, middle, middle, middle, closed, closed]
  }

  /** The board with cell c set to v. */
  function SetCell(b: Board, c: Cell, v: bool): (r: Board)
    requires IsGrid(b) && InBounds(c)
    ensures IsGrid(r)
    ensures IsOpen(r, c) == v
    ensures forall d :: d != c ==> IsOpen(r, d) == IsOpen(b, d)
  {
    b[c.row := b[c.row][c.col := v]]
  }

  /** The set of open cells. */
  function OpenSet(b: Board): (s: set<Cell>)
    ensures forall c :: c in s <==> IsOpen(b, c)
  {
    set r, c | 0 <= r < Size && 0 <= c < Size && IsOpen(b, Cell(r, c)) :: Cell(r, c)
  }

  /** Position of a cell in row-major order. */
  function Index(c: Cell): int {
    c.row * Size + c.col
  }

  /** The cells appear in strictly increasing row-major order. */
  predicate RowMajor(s: seq<Cell>) {
    forall i, j :: 0 <= i < j < |s| ==> Index(s[i]) < Index(s[j])
  }

  predicate Adjacent(x: Cell, y: Cell) {
    || (x.row == y.row && (x.col == y.col + 1 || y.col == x.col + 1))
    || (x.col == y.col && (x.row == y.row + 1 || y.row == x.row + 1))
  }

  /** The four directions, in the order up, down, left, right. */
  function Neighbour(c: Cell, d: int): (n: Cell)
    requires 0 <= d < 4
    ensures Adjacent(c, n)
  {
    if d == 0 then Cell(c.row - 1, c.col)
    else if d == 1 then Cell(c.row + 1, c.col)
    else if d == 2 then Cell(c.row, c.col - 1)
    else Cell(c.row, c.col + 1)
  }

  lemma AdjacentIsNeighbour(c: Cell, n: Cell)
    requires Adjacent(c, n)
    ensures n == Neighbour(c, 0) || n == Neighbour(c, 1) || n == Neighbour(c, 2) || n == Neighbour(c, 3)
  {
  }

  /** Some in-bounds 4-neighbour of c is open. */
  function HasAdjacentOpen(b: Board, c: Cell): (r: bool)
    ensures r <==> exists n :: Adjacent(c, n) && IsOpen(b, n)
  {
    var r := IsOpen(b, Neighbour(c, 0)) || IsOpen(b, Neighbour(c, 1))
             || IsOpen(b, Neighbour(c, 2)) || IsOpen(b, Neighbour(c, 3));
    assert (exists n :: Adjacent(c, n) && IsOpen(b, n)) ==> r by {
      if n :| Adjacent(c, n) && IsOpen(b, n) {
        AdjacentIsNeighbour(c, n);
      }
    }
    r
  }

  /** A walk through open cells by 4-neighbour steps. */
  ghost predicate IsPath(b: Board, p: seq<Cell>) {
    && |p| > 0
    && (forall i :: 0 <= i < |p| ==> IsOpen(b, p[i]))
    && (forall i :: 0 <= i < |p| - 1 ==> Adjacent(p[i], p[i + 1]))
  }

  ghost predicate Reachable(b: Board, x: Cell, y: Cell) {
    exists p :: IsPath(b, p) && p[0] == x && p[|p| - 1] == y
  }

  /** Every open cell reaches every other open cell. */
  ghost predicate Connected(b: Board) {
    forall x, y :: IsOpen(b, x) && IsOpen(b, y) ==> Reachable(b, x, y)
  }

  /** The board invariant: a grid whose open cells are connected and include the core. */
  ghost predicate Valid(b: Board) {
    && IsGrid(b)
    && Connected(b)
    && forall c :: IsCore(c) ==> IsOpen(b, c)
  }

  lemma ReachableRefl(b: Board, x: Cell)
    requires IsOpen(b, x)
    ensures Reachable(b, x, x)
  {
    assert IsPath(b, [x]);
  }

  lemma ReachableSym(b: Board, x: Cell, y: Cell)
    requires Reachable(b, x, y)
    ensures Reachable(b, y, x)
  {
    var p :| IsPath(b, p) && p[0] == x && p[|p| - 1] == y;
    var q := seq(|p|, i requires 0 <= i < |p| => p[|p| - 1 - i]);
    forall i | 0 <= i < |q| - 1
      ensures Adjacent(q[i], q[i + 1])
    {
      assert Adjacent(p[|p| - 1 - i - 1], p[|p| - 1 - i]);
    }
    assert IsPath(b, q);
  }

  lemma ReachableTrans(b: Board, x: Cell, y: Cell, z: Cell)
    requires Reachable(b, x, y) && Reachable(b, y, z)
    ensures Reachable(b, x, z)
  {
    var p :| IsPath(b, p) && p[0] == x && p[|p| - 1] == y;
    var q :| IsPath(b, q) && q[0] == y && q[|q| - 1] == z;
    var r := p + q[1..];
    assert forall i :: 0 <= i < |r| - 1 ==> Adjacent(r[i], r[i + 1]) by {
      forall i | 0 <= i < |r| - 1
        ensures Adjacent(r[i], r[i + 1])
      {
        if i < |p| - 1 {
        } else {
          assert r[i] == q[i - |p| + 1];
          assert r[i + 1] == q[i - |p| + 2];
        }
      }
    }
    assert IsPath(b, r);
  }

  lemma ReachableStep(b: Board, x: Cell, y: Cell, z: Cell)
    requires Reachable(b, x, y) && Adjacent(y, z) && IsOpen(b, z)
    ensures Reachable(b, x, z)
  {
    var p :| IsPath(b, p) && p[0] == x && p[|p| - 1] == y;
    assert IsPath(b, p + [z]);
  }

  /** Opening cells keeps every walk. */
  lemma ReachableMono(b: Board, b': Board, x: Cell, y: Cell)
    requires Reachable(b, x, y)
    requires forall c :: IsOpen(b, c) ==> IsOpen(b', c)
    ensures Reachable(b', x, y)
  {
    var p :| IsPath(b, p) && p[0] == x && p[|p| - 1] == y;
    assert IsPath(b', p);
  }

  /** Reachability from x is the same as reachability via any cell x reaches. */
  lemma ConnectedVia(b: Board, s: Cell)
    requires IsOpen(b, s)
    requires forall y :: IsOpen(b, y) ==> Reachable(b, s, y)
    ensures Connected(b)
  {
    forall x, y | IsOpen(b, x) && IsOpen(b, y)
      ensures Reachable(b, x, y)
    {
      ReachableSym(b, s, x);
      ReachableTrans(b, x, s, y);
    }
  }

  /**
   * Opening a closed cell that has an open neighbour keeps a connected
   * board connected.
   */
  lemma OpenKeepsConnected(b: Board, c: Cell)
    requires IsGrid(b) && InBounds(c) && Connected(b) && HasAdjacentOpen(b, c)
    ensures Connected(SetCell(b, c, true))
  {
    var b' := SetCell(b, c, true);
    var n :| Adjacent(c, n) && IsOpen(b, n);
    assert IsOpen(b', n);
    assert Adjacent(n, c);
    forall y | IsOpen(b', y)
      ensures Reachable(b', n, y)
    {
      if y == c {
        ReachableRefl(b', n);
        ReachableStep(b', n, n, c);
      } else {
        ReachableMono(b, b', n, y);
      }
    }
    ConnectedVia(b', n);
  }

  /**
   * A walk that starts inside a set of cells and ends outside it leaves the
   * set through some step from an open cell inside to an adjacent open cell
   * outside.
   */
  lemma {:induction false} Escape(b: Board, vis: set<Cell>, p: seq<Cell>)
    requires IsPath(b, p) && p[0] in vis && p[|p| - 1] !in vis
    ensures exists u, w :: u in vis && w !in vis && Adjacent(u, w) && IsOpen(b, w)
    decreases |p|
  {
    if p[1] !in vis {
      assert Adjacent(p[0], p[1]) && IsOpen(b, p[1]);
    } else {
      Escape(b, vis, p[1..]);
    }
  }

  /** A sequence without repetitions has as many distinct members as entries. */
  lemma {:induction false} DistinctCard(s: seq<Cell>)
    requires forall i, j :: 0 <= i < j < |s| ==> s[i] != s[j]
    ensures |set x | x in s| == |s|
  {
    if |s| > 0 {
      var t := s[..|s| - 1];
      DistinctCard(t);
      assert (set x | x in s) == (set x | x in t) + {s[|s| - 1]};
      assert s[|s| - 1] !in (set x | x in t);
    }
  }

  lemma SubsetEqualCard<T>(a: set<T>, b: set<T>)
    requires a <= b && |a| == |b|
    ensures a == b
  {
    assert b == a + (b - a);
    assert |b - a| == 0;
    assert b - a == {};
  }

  lemma Progress<T>(all: set<T>, vis0: set<T>, vis: set<T>)
    requires vis0 <= vis <= all
    ensures vis == vis0 || |all - vis| < |all - vis0|
  {
    if vis != vis0 {
      ProperSubsetCard(all - vis, all - vis0);
    }
  }

  lemma ProperSubsetCard<T>(a: set<T>, b: set<T>)
    requires a < b
    ensures |a| < |b|
  {
    var x :| x in b && x !in a;
    assert b == a + (b - a);
    assert x in b - a;
  }

  /** The open cells, in row-major order. */
  method OpenCellsRowMajor(b: Board) returns (cells: seq<Cell>)
    requires IsGrid(b)
    ensures RowMajor(cells)
    ensures forall c :: c in cells <==> IsOpen(b, c)
  {
    cells := [];
    var row := 0;
    while row < Size
      invariant 0 <= row <= Size
      invariant RowMajor(cells)
      invariant forall c :: c in cells <==> IsOpen(b, c) && c.row < row
      invariant forall i :: 0 <= i < |cells| ==> Index(cells[i]) < row * Size
    {
      var col := 0;
      while col < Size
        invariant 0 <= col <= Size
        invariant RowMajor(cells)
        invariant forall c :: c in cells <==> IsOpen(b, c) && (c.row < row || (c.row == row && c.col < col))
        invariant forall i :: 0 <= i < |cells| ==> Index(cells[i]) < row * Size + col
      {
        if b[row][col] {
          cells := cells + [Cell(row, col)];
        }
        col := col + 1;
      }
      row := row + 1;
    }
  }

  /**
   * Breadth-first search from the first open cell in row-major order:
   * the board counts as connected when the search reaches as many cells as
   * there are open cells. A board without open cells counts as connected.
   */
  method IsAllConnected(b: Board) returns (connected: bool)
    requires IsGrid(b)
    ensures connected <==> Connected(b)
  {
    var visited := new bool[Size, Size]((_, _) => false);
    var openCells := OpenCellsRowMajor(b);
    if |openCells| == 0 {
      assert forall c :: !IsOpen(b, c) by {
        forall c | IsOpen(b, c) ensures c in openCells {}
      }
      return true;
    }
    var start := openCells[0];
    assert IsOpen(b, start);
    var queue := [start];
    visited[start.row, start.col] := true;
    var connectedCount := 1;
    ghost var vis := {start};
    ReachableRefl(b, start);
    assert SearchInv(b, start, queue, vis);
    ghost var all := OpenSet(b);
    assert forall v :: v in all <==> IsOpen(b, v);
    while |queue| > 0
      invariant forall r, c :: 0 <= r < Size && 0 <= c < Size ==> (visited[r, c] <==> Cell(r, c) in vis)
      invariant vis <= all
      invariant forall v :: v in vis ==> IsOpen(b, v)
      invariant connectedCount == |vis|
      invariant SearchInv(b, start, queue, vis)
      decreases |all - vis|, |queue|
    {
      var cur := queue[0];
      ghost var queue0, vis0 := queue, vis;
      queue := queue[1..];
      queue, connectedCount, vis := VisitNeighbours(b, visited, cur, queue, connectedCount, vis);
      SearchStep(b, start, queue0, vis0, queue, vis);
      Progress(all, vis0, vis);
    }
    assert forall v :: v in vis ==> Reachable(b, start, v) && NeighboursIn(b, v, vis);
    connected := connectedCount == |openCells|;
    SearchOutcome(b, openCells, start, vis);
  }

  /**
   * What the search keeps: `start` is visited, every visited cell is
   * reachable from it, queued cells are visited, and a visited cell that has
   * left the queue has all its open neighbours visited.
   */
  ghost predicate SearchInv(b: Board, start: Cell, queue: seq<Cell>, vis: set<Cell>) {
    && start in vis
    && (forall v :: v in queue ==> v in vis)
    && (forall v :: v in vis ==> Reachable(b, start, v))
    && (forall v :: v in vis ==> v in queue || NeighboursIn(b, v, vis))
  }

  /** Taking the head off the queue and visiting its neighbours keeps SearchInv. */
  lemma SearchStep(b: Board, start: Cell, queue0: seq<Cell>, vis0: set<Cell>, queue: seq<Cell>, vis: set<Cell>)
    requires |queue0| > 0 && SearchInv(b, start, queue0, vis0)
    requires vis0 <= vis && forall v :: v in vis ==> IsOpen(b, v)
    requires forall v :: v in queue <==> v in queue0[1..] || v in vis - vis0
    requires forall v :: v in vis - vis0 ==> Adjacent(queue0[0], v)
    requires NeighboursIn(b, queue0[0], vis)
    ensures SearchInv(b, start, queue, vis)
  {
    var cur := queue0[0];
    assert forall v :: v in queue0 <==> v == cur || v in queue0[1..];
    forall v | v in vis - vis0
      ensures Reachable(b, start, v)
    {
      ReachableStep(b, start, cur, v);
    }
  }

  /** Marks an open, unvisited cell as visited and queues it; any other cell changes nothing. */
  method VisitCell(b: Board, visited: array2<bool>, next: Cell, queue: seq<Cell>, count: int, ghost vis: set<Cell>)
    returns (queue': seq<Cell>, count': int, ghost vis': set<Cell>)
    requires IsGrid(b) && visited.Length0 == Size && visited.Length1 == Size
    requires forall r, c :: 0 <= r < Size && 0 <= c < Size ==> (visited[r, c] <==> Cell(r, c) in vis)
    requires count == |vis|
    modifies visited
    ensures forall r, c :: 0 <= r < Size && 0 <= c < Size ==> (visited[r, c] <==> Cell(r, c) in vis')
    ensures count' == |vis'|
    ensures IsOpen(b, next) ==> next in vis'
    ensures || (vis' == vis && queue' == queue)
            || (next !in vis && IsOpen(b, next) && vis' == vis + {next} && queue' == queue + [next])
  {
    queue', count', vis' := queue, count, vis;
    if 0 <= next.row < Size && 0 <= next.col < Size {
      assert next == Cell(next.row, next.col);
      if !visited[next.row, next.col] && b[next.row][next.col] {
        visited[next.row, next.col] := true;
        queue' := queue' + [next];
        count' := count' + 1;
        vis' := vis' + {next};
      }
    }
  }

  /** One step of the search: marks and enqueues every open, unvisited 4-neighbour of cur. */
  method VisitNeighbours(
    b: Board, visited: array2<bool>, cur: Cell, queue: seq<Cell>, count: int, ghost vis: set<Cell>)
    returns (queue': seq<Cell>, count': int, ghost vis': set<Cell>)
    requires IsGrid(b) && visited.Length0 == Size && visited.Length1 == Size
    requires forall r, c :: 0 <= r < Size && 0 <= c < Size ==> (visited[r, c] <==> Cell(r, c) in vis)
    requires forall v :: v in vis ==> IsOpen(b, v)
    requires count == |vis|
    modifies visited
    ensures forall r, c :: 0 <= r < Size && 0 <= c < Size ==> (visited[r, c] <==> Cell(r, c) in vis')
    ensures vis <= vis' && forall v :: v in vis' ==> IsOpen(b, v)
    ensures count' == |vis'|
    ensures forall v :: v in queue' <==> v in queue || v in vis' - vis
    ensures forall v :: v in vis' - vis ==> Adjacent(cur, v)
    ensures NeighboursIn(b, cur, vis')
    ensures vis' == vis ==> queue' == queue
  {
    queue', count', vis' := queue, count, vis;
    var d := 0;
    ghost var done: set<Cell> := {};
    while d < 4
      invariant 0 <= d <= 4
      invariant forall r, c :: 0 <= r < Size && 0 <= c < Size ==> (visited[r, c] <==> Cell(r, c) in vis')
      invariant vis <= vis' && forall v :: v in vis' ==> IsOpen(b, v)
      invariant count' == |vis'|
      invariant forall v :: v in queue' <==> v in queue || v in vis' - vis
      invariant forall v :: v in vis' - vis ==> Adjacent(cur, v)
      invariant done == set e | 0 <= e < d :: Neighbour(cur, e)
      invariant forall n :: n in done && IsOpen(b, n) ==> n in vis'
      invariant vis' == vis ==> queue' == queue
    {
      var next := Neighbour(cur, d);
      queue', count', vis' := VisitCell(b, visited, next, queue', count', vis');
      done := done + {next};
      d := d + 1;
    }
    forall n | Adjacent(cur, n) && IsOpen(b, n)
      ensures n in vis'
    {
      AdjacentIsNeighbour(cur, n);
    }
  }

  /**
   * When a search from `start` has visited a set closed under open
   * neighbours, every member of which it reaches, the board is connected
   * exactly when the visited set is as large as the list of open cells.
   */
  lemma SearchOutcome(b: Board, openCells: seq<Cell>, start: Cell, vis: set<Cell>)
    requires RowMajor(openCells) && forall c :: c in openCells <==> IsOpen(b, c)
    requires start in vis && vis <= OpenSet(b)
    requires forall v :: v in vis ==> Reachable(b, start, v)
    requires forall v :: v in vis ==> NeighboursIn(b, v, vis)
    ensures |vis| == |openCells| <==> Connected(b)
  {
    forall i, j | 0 <= i < j < |openCells|
      ensures openCells[i] != openCells[j]
    {
      assert Index(openCells[i]) < Index(openCells[j]);
    }
    DistinctCard(openCells);
    assert (set x | x in openCells) == OpenSet(b);
    if |vis| == |openCells| {
      SubsetEqualCard(vis, OpenSet(b));
      ConnectedVia(b, start);
    } else {
      SubsetEqualCardConverse(vis, OpenSet(b));
      NotConnected(b, start, vis);
    }
  }

  /** An open cell outside a neighbour-closed set containing `start` cannot be reached from `start`. */
  lemma NotConnected(b: Board, start: Cell, vis: set<Cell>)
    requires start in vis && IsOpen(b, start)
    requires forall v :: v in vis ==> NeighboursIn(b, v, vis)
    requires exists y :: y in OpenSet(b) && y !in vis
    ensures !Connected(b)
  {
    var y :| y in OpenSet(b) && y !in vis;
    if Reachable(b, start, y) {
      var p :| IsPath(b, p) && p[0] == start && p[|p| - 1] == y;
      Escape(b, vis, p);
      assert false;
    }
    assert IsOpen(b, y);
  }

  lemma SubsetEqualCardConverse<T>(a: set<T>, b: set<T>)
    requires a <= b && |a| != |b|
    ensures exists x :: x in b && x !in a
  {
    assert b == a + (b - a) && a * (b - a) == {};
    assert |b - a| != 0;
    var x :| x in b - a;
  }

  /** Every open neighbour of v is in s. */
  ghost predicate NeighboursIn(b: Board, v: Cell, s: set<Cell>) {
    forall n :: Adjacent(v, n) && IsOpen(b, n) ==> n in s
  }

  /** Closing an open cell and opening it again restores the board. */
  lemma CloseThenReopen(b: Board, c: Cell)
    requires IsGrid(b) && IsOpen(b, c)
    ensures SetCell(SetCell(b, c, false), c, true) == b
  {
    var r := SetCell(SetCell(b, c, false), c, true);
    assert r[c.row] == b[c.row];
  }

  /** The in-bounds closed cells. */
  function ClosedSet(b: Board): (s: set<Cell>)
    ensures forall c :: c in s <==> InBounds(c) && !IsOpen(b, c)
  {
    set r, c | 0 <= r < Size && 0 <= c < Size && !IsOpen(b, Cell(r, c)) :: Cell(r, c)
  }

  /** Opening a closed cell leaves one closed cell fewer. */
  lemma OpeningShrinksClosed(b: Board, c: Cell)
    requires IsGrid(b) && InBounds(c) && !IsOpen(b, c)
    ensures |ClosedSet(SetCell(b, c, true))| == |ClosedSet(b)| - 1
  {
    assert ClosedSet(SetCell(b, c, true)) == ClosedSet(b) - {c};
  }

  /** Closing an open cell leaves one open cell fewer. */
  lemma ClosingShrinksOpen(b: Board, c: Cell)
    requires IsGrid(b) && IsOpen(b, c)
    ensures |OpenSet(SetCell(b, c, false))| == |OpenSet(b)| - 1
  {
    assert OpenSet(SetCell(b, c, false)) == OpenSet(b) - {c};
  }

  /** The initial board satisfies the board invariant. */
  lemma InitialValid()
    ensures Valid(InitialBoard())
  {
    var b := InitialBoard();
    var s := Cell(2, 1);
    ReachableRefl(b, s);
    forall y | IsOpen(b, y)
      ensures Reachable(b, s, y)
    {
      // Along row 2 to the column of y, then down to its row.
      var col := 1;
      while col < y.col
        invariant 1 <= col <= y.col
        invariant Reachable(b, s, Cell(2, col))
      {
        ReachableStep(b, s, Cell(2, col), Cell(2, col + 1));
        col := col + 1;
      }
      var row := 2;
      while row < y.row
        invariant 2 <= row <= y.row
        invariant Reachable(b, s, Cell(row, y.col))
      {
        ReachableStep(b, s, Cell(row, y.col), Cell(row + 1, y.col));
        row := row + 1;
      }
    }
    ConnectedVia(b, s);
  }

  datatype ClickOutcome =
    | CoreCell            // a core cell: ignored
    | Opened
    | Closed
    | NeedsOpenNeighbour  // rejected: no adjacent cell is open
    | WouldIsolate        // rejected: closing would split the open cells

  /**
   * A click on a cell. Core cells are ignored. A closed cell opens only
   * next to an open cell; an open cell closes only if the open cells stay
   * connected. A rejected click leaves the board as it was, and an
   * accepted one flips exactly the clicked cell; either way the board
   * invariant is kept.
   */
  method CellClick(board: Board, c: Cell) returns (newBoard: Board, outcome: ClickOutcome)
    requires IsGrid(board) && InBounds(c)
    ensures IsCore(c) ==> newBoard == board && outcome == CoreCell
    ensures !IsCore(c) && !IsOpen(board, c) ==>
              if HasAdjacentOpen(board, c) then newBoard == SetCell(board, c, true) && outcome == Opened
              else newBoard == board && outcome == NeedsOpenNeighbour
    ensures !IsCore(c) && IsOpen(board, c) ==>
              if Connected(SetCell(board, c, false)) then newBoard == SetCell(board, c, false) && outcome == Closed
              else newBoard == board && outcome == WouldIsolate
    ensures Valid(board) ==> Valid(newBoard)
  {
    if IsCore(c) {
      return board, CoreCell;
    }
    newBoard := board;
    var currentState := board[c.row][c.col];
    if !currentState {
      if !HasAdjacentOpen(newBoard, c) {
        return board, NeedsOpenNeighbour;
      }
      if Valid(board) {
        OpenKeepsConnected(board, c);
      }
      newBoard := SetCell(newBoard, c, true);
      outcome := Opened;
    } else {
      newBoard := SetCell(newBoard, c, false);
      var connected := IsAllConnected(newBoard);
      if !connected {
        return board, WouldIsolate;
      }
      outcome := Closed;
    }
  }

  /** Distance of a cell from the core rectangle, in steps. */
  function CoreDistance(c: Cell): nat {
    (if c.row < 2 then 2 - c.row else 0) + (if c.row > 4 then c.row - 4 else 0)
    + (if c.col < 1 then 1 - c.col else 0) + (if c.col > 5 then c.col - 5 else 0)
  }

  /**
   * If the core is open and no closed cell outside it has an open
   * neighbour, every cell is open: a closed cell's neighbour toward the
   * core is either open or closed and nearer the core.
   */
  lemma {:induction false} SaturatedIsFull(b: Board, x: Cell)
    requires IsGrid(b) && forall c :: IsCore(c) ==> IsOpen(b, c)
    requires Saturated(b) && InBounds(x)
    ensures IsOpen(b, x)
    decreases CoreDistance(x)
  {
    if !IsCore(x) {
      var y :=
        if x.row < 2 then Cell(x.row + 1, x.col)
        else if x.row > 4 then Cell(x.row - 1, x.col)
        else if x.col < 1 then Cell(x.row, x.col + 1)
        else Cell(x.row, x.col - 1);
      assert Adjacent(x, y) && InBounds(y) && CoreDistance(y) < CoreDistance(x);
      SaturatedIsFull(b, y);
    }
  }

  /** nb arises from b by opening cells outside the core only. */
  ghost predicate OnlyOpens(b: Board, nb: Board) {
    && IsGrid(nb)
    && (forall c :: IsOpen(b, c) ==> IsOpen(nb, c))
    && (forall c :: IsCore(c) ==> IsOpen(nb, c) == IsOpen(b, c))
  }

  /** nb arises from b by closing cells outside the core only. */
  ghost predicate OnlyCloses(b: Board, nb: Board) {
    && IsGrid(nb)
    && (forall c :: IsOpen(nb, c) ==> IsOpen(b, c))
    && (forall c :: IsCore(c) ==> IsOpen(nb, c) == IsOpen(b, c))
  }

  /** No closed cell outside the core can be opened by a click. */
  ghost predicate Saturated(b: Board) {
    forall c :: InBounds(c) && !IsCore(c) && !IsOpen(b, c) ==> !HasAdjacentOpen(b, c)
  }

  /** No open cell outside the core can be closed by a click. */
  ghost predicate Tight(b: Board)
    requires IsGrid(b)
  {
    forall c :: !IsCore(c) && IsOpen(b, c) ==> !Connected(SetCell(b, c, false))
  }

  /**
   * "Open all": sweeps the board in row-major order, opening every closed
   * cell outside the core that has an open neighbour at the moment it is
   * scanned, and repeats until a sweep opens nothing. The result opens no
   * core cell, keeps every open cell open, and no click could open any
   * further cell; on a board whose core is open it opens every cell.
   */
  method OpenAll(board: Board) returns (newBoard: Board, changed: bool)
    requires IsGrid(board)
    ensures OnlyOpens(board, newBoard)
    ensures Saturated(newBoard)
    ensures changed <==> newBoard != board
    ensures Valid(board) ==> Valid(newBoard)
    ensures (forall c :: IsCore(c) ==> IsOpen(board, c)) ==> forall c :: InBounds(c) ==> IsOpen(newBoard, c)
  {
    newBoard := board;
    changed := false;
    var hasMore := true;
    while hasMore
      invariant OnlyOpens(board, newBoard)
      invariant changed ==> |ClosedSet(newBoard)| < |ClosedSet(board)|
      invariant !changed ==> newBoard == board
      invariant Connected(board) ==> Connected(newBoard)
      invariant !hasMore ==> Saturated(newBoard)
      decreases |ClosedSet(newBoard)| + (if hasMore then 1 else 0)
    {
      newBoard, hasMore := OpenSweep(newBoard);
      if hasMore {
        changed := true;
      }
    }
    if forall c :: IsCore(c) ==> IsOpen(board, c) {
      forall x | InBounds(x)
        ensures IsOpen(newBoard, x)
      {
        SaturatedIsFull(newBoard, x);
      }
    }
  }

  /**
   * One row-major sweep of "open all". Reports whether it opened a cell;
   * a sweep that opens nothing has found the board saturated.
   */
  method OpenSweep(b: Board) returns (nb: Board, didOpen: bool)
    requires IsGrid(b)
    ensures OnlyOpens(b, nb)
    ensures Connected(b) ==> Connected(nb)
    ensures didOpen ==> |ClosedSet(nb)| < |ClosedSet(b)|
    ensures !didOpen ==> nb == b && Saturated(b)
  {
    nb := b;
    didOpen := false;
    var row := 0;
    while row < Size
      invariant 0 <= row <= Size
      invariant OnlyOpens(b, nb)
      invariant Connected(b) ==> Connected(nb)
      invariant |ClosedSet(nb)| <= |ClosedSet(b)|
      invariant didOpen ==> |ClosedSet(nb)| < |ClosedSet(b)|
      invariant !didOpen ==> nb == b && SaturatedBefore(b, row * Size)
    {
      var col := 0;
      while col < Size
        invariant 0 <= col <= Size
        invariant OnlyOpens(b, nb)
        invariant Connected(b) ==> Connected(nb)
        invariant |ClosedSet(nb)| <= |ClosedSet(b)|
        invariant didOpen ==> |ClosedSet(nb)| < |ClosedSet(b)|
        invariant !didOpen ==> nb == b && SaturatedBefore(b, row * Size + col)
      {
        var c := Cell(row, col);
        if !IsCore(c) && !nb[row][col] && HasAdjacentOpen(nb, c) {
          OpenStep(b, nb, c);
          nb := SetCell(nb, c, true);
          didOpen := true;
        } else if !didOpen {
          SaturatedAdvance(b, c);
        }
        col := col + 1;
      }
      row := row + 1;
    }
  }

  /** Saturated as far as the cells before row-major position k. */
  ghost predicate SaturatedBefore(b: Board, k: int) {
    forall c :: InBounds(c) && Index(c) < k && !IsCore(c) && !IsOpen(b, c) ==> !HasAdjacentOpen(b, c)
  }

  /** Opening one more cell outside the core keeps the sweep's invariants. */
  lemma OpenStep(b: Board, nb: Board, c: Cell)
    requires IsGrid(b) && OnlyOpens(b, nb) && InBounds(c) && !IsCore(c)
    requires !IsOpen(nb, c) && HasAdjacentOpen(nb, c)
    requires |ClosedSet(nb)| <= |ClosedSet(b)|
    requires Connected(b) ==> Connected(nb)
    ensures OnlyOpens(b, SetCell(nb, c, true))
    ensures |ClosedSet(SetCell(nb, c, true))| < |ClosedSet(b)|
    ensures Connected(b) ==> Connected(SetCell(nb, c, true))
  {
    OpeningShrinksClosed(nb, c);
    if Connected(b) {
      OpenKeepsConnected(nb, c);
    }
  }

  /** A cell the sweep passes over without opening extends the saturated prefix. */
  lemma SaturatedAdvance(b: Board, c: Cell)
    requires InBounds(c) && SaturatedBefore(b, Index(c))
    requires IsCore(c) || IsOpen(b, c) || !HasAdjacentOpen(b, c)
    ensures SaturatedBefore(b, Index(c) + 1)
  {
    forall d | InBounds(d) && Index(d) < Index(c) + 1 && !IsCore(d) && !IsOpen(b, d)
      ensures !HasAdjacentOpen(b, d)
    {
      if Index(d) == Index(c) {
        IndexInjective(c, d);
      }
    }
  }

  /** Row-major positions of on-board cells are distinct. */
  lemma IndexInjective(x: Cell, y: Cell)
    requires InBounds(x) && InBounds(y) && Index(x) == Index(y)
    ensures x == y
  {
  }

  /**
   * "Close all": each sweep lists the open cells outside the core in
   * row-major order and tries them in reverse, closing a cell for good only
   * if the open cells stay connected; sweeps repeat until one closes
   * nothing. The result closes no core cell, opens nothing, keeps a
   * connected board connected, and no click could close any further cell.
   */
  method CloseAll(board: Board) returns (newBoard: Board, changed: bool)
    requires IsGrid(board)
    ensures OnlyCloses(board, newBoard)
    ensures Tight(newBoard)
    ensures changed <==> newBoard != board
    ensures Connected(board) ==> Connected(newBoard)
    ensures Valid(board) ==> Valid(newBoard)
  {
    newBoard := board;
    changed := false;
    var hasMore := true;
    while hasMore
      invariant OnlyCloses(board, newBoard)
      invariant changed ==> |OpenSet(newBoard)| < |OpenSet(board)|
      invariant !changed ==> newBoard == board
      invariant Connected(board) ==> Connected(newBoard)
      invariant !hasMore ==> Tight(newBoard)
      decreases |OpenSet(newBoard)| + (if hasMore then 1 else 0)
    {
      newBoard, hasMore := CloseSweep(newBoard);
      if hasMore {
        changed := true;
      }
    }
  }

  /**
   * One sweep of "close all": the open cells outside the core, listed
   * row-major, are tried from last to first. Reports whether it closed a
   * cell; a sweep that closes nothing has found the board tight.
   */
  method CloseSweep(b: Board) returns (nb: Board, closed: bool)
    requires IsGrid(b)
    ensures OnlyCloses(b, nb)
    ensures Connected(b) ==> Connected(nb)
    ensures closed ==> |OpenSet(nb)| < |OpenSet(b)|
    ensures !closed ==> nb == b && Tight(b)
  {
    var cellsToCheck := OpenOutsideCore(b);
    nb := b;
    closed := false;
    var i := |cellsToCheck|;
    while i > 0
      invariant 0 <= i <= |cellsToCheck|
      invariant OnlyCloses(b, nb)
      invariant Connected(b) ==> Connected(nb)
      invariant forall j :: 0 <= j < i ==> IsOpen(nb, cellsToCheck[j])
      invariant |OpenSet(nb)| <= |OpenSet(b)|
      invariant closed ==> |OpenSet(nb)| < |OpenSet(b)|
      invariant !closed ==> nb == b && TightFrom(b, cellsToCheck, i)
    {
      i := i - 1;
      var c := cellsToCheck[i];
      assert c in cellsToCheck;
      DistinctBefore(cellsToCheck, i);
      ghost var before := nb;
      nb := SetCell(nb, c, false);
      var connected := IsAllConnected(nb);
      if connected {
        CloseStep(b, before, c);
        closed := true;
      } else {
        nb := SetCell(nb, c, true);
        CloseThenReopen(before, c);
      }
    }
    if !closed {
      forall c | !IsCore(c) && IsOpen(b, c)
        ensures !Connected(SetCell(b, c, false))
      {
        assert c in cellsToCheck;
      }
    }
  }

  /** Closing any of the cells from position i of the list disconnects b. */
  ghost predicate TightFrom(b: Board, cells: seq<Cell>, i: int)
    requires IsGrid(b)
    requires forall c :: c in cells ==> InBounds(c)
  {
    forall j :: 0 <= i <= j < |cells| ==> !Connected(SetCell(b, cells[j], false))
  }

  /** Closing one more cell outside the core keeps the sweep's invariants. */
  lemma CloseStep(b: Board, nb: Board, c: Cell)
    requires IsGrid(b) && OnlyCloses(b, nb) && !IsCore(c) && IsOpen(nb, c)
    requires |OpenSet(nb)| <= |OpenSet(b)|
    ensures OnlyCloses(b, SetCell(nb, c, false))
    ensures |OpenSet(SetCell(nb, c, false))| < |OpenSet(b)|
  {
    ClosingShrinksOpen(nb, c);
  }

  /** In a row-major list, the entries before position i differ from entry i. */
  lemma DistinctBefore(cells: seq<Cell>, i: int)
    requires RowMajor(cells) && 0 <= i < |cells|
    ensures forall j :: 0 <= j < i ==> cells[j] != cells[i]
  {
    forall j | 0 <= j < i
      ensures cells[j] != cells[i]
    {
      assert Index(cells[j]) < Index(cells[i]);
    }
  }

  /** The open cells outside the core, in row-major order. */
  method OpenOutsideCore(b: Board) returns (cells: seq<Cell>)
    requires IsGrid(b)
    ensures RowMajor(cells)
    ensures forall c :: c in cells <==> IsOpen(b, c) && !IsCore(c)
  {
    cells := [];
    var row := 0;
    while row < Size
      invariant 0 <= row <= Size
      invariant RowMajor(cells)
      invariant forall c :: c in cells <==> IsOpen(b, c) && !IsCore(c) && c.row < row
      invariant forall i :: 0 <= i < |cells| ==> Index(cells[i]) < row * Size
    {
      var col := 0;
      while col < Size
        invariant 0 <= col <= Size
        invariant RowMajor(cells)
        invariant forall c :: c in cells <==> IsOpen(b, c) && !IsCore(c) && (c.row < row || (c.row == row && c.col < col))
        invariant forall i :: 0 <= i < |cells| ==> Index(cells[i]) < row * Size + col
      {
        if !IsCore(Cell(row, col)) && b[row][col] {
          cells := cells + [Cell(row, col)];
        }
        col := col + 1;
      }
      row := row + 1;
    }
  }
}
