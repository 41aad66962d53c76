/**
 * The page's own placement search: the pieces are split into those that
 * count for the player's role and the rest, ordered by rarity, and a
 * bounded backtracking search tries, piece by piece, to leave the piece
 * out or to put it at one of its two fitting anchors nearest the board
 * centre, keeping the best-scoring layout it completes.
 */
module PageSearch {
  import opened Wrappers
  import opened AltarBoard
  import opened Pieces
  import opened Layout
  import opened Lists

  /** The search gives up after this many calls. */
  const MaxBacktrackSearch: int := 100000

  // ---------------------------------------------------------------------
  // Partition and orderings
  // ---------------------------------------------------------------------

  predicate HasCoords(p: Piece) {
    p.shape.Some?
  }

  /** The page's role-mismatch test: an 8-cell piece of another role, or a 1..5-cell piece without a role attribute. */
  predicate IsNonMatching(p: Piece, job: Role) {
    if p.size == 8 then p.tag != ForRole(job) && p.tag != AllRoles
    else p.size <= 5 && !(p.tag.Attr? && p.tag.attribute in JobAttributes(job))
  }

  /**
   * The pieces with coordinates, split into those that count for the role
   * and those that do not, each side sorted by rarity, then size, descending.
   */
  function Partition(pieces: seq<Piece>, job: Role): (r: (seq<Piece>, seq<Piece>))
  {
    var all := Filter(pieces, HasCoords);
    (SortBy(Filter(all, p => IsMatching(p, job)), RarityKey),
     SortBy(Filter(all, p => IsNonMatching(p, job)), RarityKey))
  }

  /**
   * Each side holds exactly the pieces with coordinates that pass its test,
   * no piece is on both sides, a piece with coordinates is on one side
   * exactly when it has 8 cells or at most 5, and both sides are ordered
   * by rarity, then size.
   */
  lemma PartitionSplits(pieces: seq<Piece>, job: Role, p: Piece)
    ensures p in Partition(pieces, job).0 <==> p in pieces && HasCoords(p) && IsMatching(p, job)
    ensures p in Partition(pieces, job).1 <==> p in pieces && HasCoords(p) && IsNonMatching(p, job)
    ensures !(p in Partition(pieces, job).0 && p in Partition(pieces, job).1)
    ensures p in pieces && HasCoords(p) ==>
              (p in Partition(pieces, job).0 || p in Partition(pieces, job).1 <==> p.size == 8 || p.size <= 5)
    ensures SortedBy(Partition(pieces, job).0, RarityKey) && SortedBy(Partition(pieces, job).1, RarityKey)
  {
    var all := Filter(pieces, HasCoords);
    SortByMembership(Filter(all, q => IsMatching(q, job)), RarityKey, p);
    SortByMembership(Filter(all, q => IsNonMatching(q, job)), RarityKey, p);
  }

  /** Rarity first, then size, both descending. */
  function RarityKey(p: Piece): Key {
    Key(-RarityOrder(p.rarity), -p.size, 0, 0)
  }

  /** Pieces carrying a role attribute first, then by rarity key. */
  function TargetKey(p: Piece, job: Role): Key {
    Key(if p.tag.Attr? && p.tag.attribute in JobAttributes(job) then 0 else 1, -RarityOrder(p.rarity), -p.size, 0)
  }

  /** Manhattan distance to the centre cell (3, 3). */
  function CentreDistance(c: Cell): nat {
    (if c.row >= 3 then c.row - 3 else 3 - c.row) + (if c.col >= 3 then c.col - 3 else 3 - c.col)
  }

  function DistanceKey(c: Cell): Key {
    Key(CentreDistance(c), 0, 0, 0)
  }

  /** The open cells at which the piece fits, in the order given. */
  function Anchors(b: Board, p: Piece, openCells: seq<Cell>, used: set<Cell>): (r: seq<Cell>)
    ensures forall c :: c in r <==> c in openCells && CanPlace(b, p, c, used)
  {
    Filter(openCells, c => CanPlace(b, p, c, used))
  }

  /** Scans the open cells and collects those where the piece fits. */
  method PossiblePositions(b: Board, p: Piece, openCells: seq<Cell>, used: set<Cell>) returns (positions: seq<Cell>)
    requires IsGrid(b)
    ensures positions == Anchors(b, p, openCells, used)
  {
    positions := [];
    var i := 0;
    while i < |openCells|
      invariant 0 <= i <= |openCells|
      invariant positions == Anchors(b, p, openCells[..i], used)
    {
      var c := openCells[i];
      var fits := CanPlacePiece(b, p, c.row, c.col, used);
      FilterSnoc(openCells[..i], c, x => CanPlace(b, p, x, used));
      assert openCells[..i + 1] == openCells[..i] + [c];
      if fits {
        positions := positions + [c];
      }
      i := i + 1;
    }
    assert openCells[..i] == openCells;
  }

  lemma {:induction false} FilterSnoc<T(!new)>(s: seq<T>, x: T, f: T -> bool)
    ensures Filter(s + [x], f) == Filter(s, f) + (if f(x) then [x] else [])
  {
    if |s| > 0 {
      assert (s + [x])[1..] == s[1..] + [x];
      FilterSnoc(s[1..], x, f);
    } else {
      assert (s + [x])[1..] == [];
    }
  }

  /** The fitting anchors, nearest the centre first; ties keep row-major order. */
  function SortedAnchors(b: Board, p: Piece, openCells: seq<Cell>, used: set<Cell>): (r: seq<Cell>)
    ensures forall c :: c in r <==> c in openCells && CanPlace(b, p, c, used)
    ensures forall i, j :: 0 <= i < j < |r| ==> CentreDistance(r[i]) <= CentreDistance(r[j])
  {
    var r := SortBy(Anchors(b, p, openCells, used), DistanceKey);
    assert SortedBy(r, DistanceKey);
    forall c ensures c in r <==> c in Anchors(b, p, openCells, used) {
      SortByMembership(Anchors(b, p, openCells, used), DistanceKey, c);
    }
    r
  }

  // ---------------------------------------------------------------------
  // Backtracking
  // ---------------------------------------------------------------------

  /**
   * The placements are taken from pieces at strictly increasing indices
   * below bound, recorded in idx: no piece is placed twice.
   */
  ghost predicate DrawnFrom(placed: seq<Placement>, idx: seq<int>, pieces: seq<Piece>, bound: int) {
    && |idx| == |placed|
    && (forall k :: 0 <= k < |idx| ==> 0 <= idx[k] < bound && idx[k] < |pieces| && placed[k].piece == pieces[idx[k]])
    && (forall k, l :: 0 <= k < l < |idx| ==> idx[k] < idx[l])
  }

  /** Placements drawn from a list of pieces with distinct ids have distinct ids. */
  lemma DrawnDistinct(placed: seq<Placement>, idx: seq<int>, pieces: seq<Piece>, bound: int)
    requires DrawnFrom(placed, idx, pieces, bound) && DistinctIds(pieces)
    ensures DistinctIds(PiecesOf(placed))
  {
    forall k, l | 0 <= k < l < |placed| ensures PieceId(PiecesOf(placed)[k]) != PieceId(PiecesOf(placed)[l]) {
      assert idx[k] < idx[l];
    }
  }

  lemma DrawnExtend(placed: seq<Placement>, idx: seq<int>, pieces: seq<Piece>, bound: int, pl: Placement)
    requires DrawnFrom(placed, idx, pieces, bound) && 0 <= bound < |pieces| && pl.piece == pieces[bound]
    ensures DrawnFrom(placed + [pl], idx + [bound], pieces, bound + 1)
  {
  }

  /**
   * Placing the next piece where it fits keeps the layout safe, adds its
   * cells to the used ones, counts it if it is unique, and records its index.
   */
  lemma PlaceStep(b: Board, placed: seq<Placement>, idx: seq<int>, pieces: seq<Piece>, k: int, a: Cell)
    requires 0 <= k < |pieces| && DrawnFrom(placed, idx, pieces, k)
    requires SafeLayout(b, placed) && CanPlace(b, pieces[k], a, CellsOf(placed))
    ensures var p := pieces[k];
            var placed' := placed + [Placement(p, a, Translate(p.shape.value, a))];
            && SafeLayout(b, placed')
            && CellsOf(placed') == CellsOf(placed) + Elements(Translate(p.shape.value, a))
            && UniqueCount(PiecesOf(placed')) == UniqueCount(PiecesOf(placed)) + (if p.rarity == Unique then 1 else 0)
            && DrawnFrom(placed', idx + [k], pieces, k + 1)
  {
    var p := pieces[k];
    var pl := Placement(p, a, Translate(p.shape.value, a));
    ExtendSafe(b, placed, p, a);
    UniqueCountAppend(PiecesOf(placed), p);
    PiecesOfAppend(placed, pl);
    DrawnExtend(placed, idx, pieces, k, pl);
  }

  /** The search state: the best layout so far, its score, and the call count. */
  class BacktrackSearch {
    const board: Board
    const openCells: seq<Cell>
    const pieces: seq<Piece>
    const job: Role
    var bestPlaced: seq<Placement>
    var bestScore: int
    var searchCount: int
    ghost var bestIdx: seq<int>

    /** The best layout is safe, has at most one unique piece, and bestScore is its score. */
    ghost predicate Valid()
      reads this
    {
      && IsGrid(board)
      && SafeLayout(board, bestPlaced)
      && UniqueCount(PiecesOf(bestPlaced)) <= 1
      && DrawnFrom(bestPlaced, bestIdx, pieces, |pieces|)
      && bestScore == TotalScore(PiecesOf(bestPlaced), job)
    }

    constructor (b: Board, cells: seq<Cell>, sorted: seq<Piece>, role: Role)
      requires IsGrid(b)
      ensures board == b && openCells == cells && pieces == sorted && job == role
      ensures bestPlaced == [] && bestScore == 0 && searchCount == 0
      ensures Valid()
    {
      board := b;
      openCells := cells;
      pieces := sorted;
      job := role;
      bestPlaced := [];
      bestScore := 0;
      searchCount := 0;
      bestIdx := [];
      new;
      BonusScoreBounds([], role);
    }

    /**
     * Explores the pieces from pieceIndex on, given the layout placed so
     * far, its used cells and its number of unique pieces. The best layout
     * stays safe, its score never drops and it is replaced only by a
     * strictly higher one; the number of calls grows by at least one and
     * passes the limit by at most one per remaining piece.
     */
    method Backtrack(pieceIndex: int, currentPlaced: seq<Placement>, ghost currentIdx: seq<int>,
                     localUsed: UsedCells, usedUnique: int)
      requires Valid()
      requires 0 <= pieceIndex <= |pieces|
      requires SafeLayout(board, currentPlaced) && localUsed.cells == CellsOf(currentPlaced)
      requires usedUnique == UniqueCount(PiecesOf(currentPlaced)) && usedUnique <= 1
      requires DrawnFrom(currentPlaced, currentIdx, pieces, pieceIndex)
      modifies this
      ensures Valid()
      ensures bestScore >= old(bestScore)
      ensures bestPlaced != old(bestPlaced) ==> bestScore > old(bestScore)
      ensures old(searchCount) < searchCount
      ensures searchCount <= Max(old(searchCount), MaxBacktrackSearch) + (|pieces| - pieceIndex) + 1
      decreases |pieces| - pieceIndex, 2
    {
      searchCount := searchCount + 1;
      if searchCount > MaxBacktrackSearch {
        return;
      }
      if pieceIndex >= |pieces| {
        RecordLayout(currentPlaced, currentIdx);
        return;
      }
      var piece := pieces[pieceIndex];
      if piece.rarity == Unique && usedUnique >= 1 {
        Backtrack(pieceIndex + 1, currentPlaced, currentIdx, localUsed, usedUnique);
        return;
      }
      var candidates := PossiblePositions(board, piece, openCells, localUsed.cells);
      var positions := SortBy(candidates, DistanceKey);
      assert positions == SortedAnchors(board, piece, openCells, localUsed.cells);
      // Leave the piece out, then try it at the nearest anchors.
      Backtrack(pieceIndex + 1, currentPlaced, currentIdx, localUsed, usedUnique);
      TryPositions(pieceIndex, currentPlaced, currentIdx, localUsed, usedUnique, positions);
    }

    /** A complete layout replaces the best one only when it scores strictly higher. */
    method RecordLayout(currentPlaced: seq<Placement>, ghost currentIdx: seq<int>)
      requires Valid()
      requires SafeLayout(board, currentPlaced) && UniqueCount(PiecesOf(currentPlaced)) <= 1
      requires DrawnFrom(currentPlaced, currentIdx, pieces, |pieces|)
      modifies this
      ensures Valid() && searchCount == old(searchCount)
      ensures TotalScore(PiecesOf(currentPlaced), job) > old(bestScore) ==>
                bestPlaced == currentPlaced && bestScore == TotalScore(PiecesOf(currentPlaced), job)
      ensures TotalScore(PiecesOf(currentPlaced), job) <= old(bestScore) ==>
                bestPlaced == old(bestPlaced) && bestScore == old(bestScore)
    {
      var score := CalculateScore(PiecesOf(currentPlaced), job);
      if score.total > bestScore {
        bestScore := score.total;
        bestPlaced := currentPlaced;
        bestIdx := currentIdx;
      }
    }

    /**
     * Puts the piece at each of the (at most) two first anchors in turn and
     * explores the rest of the pieces from there, until the call limit is passed.
     */
    method TryPositions(pieceIndex: int, currentPlaced: seq<Placement>, ghost currentIdx: seq<int>,
                        localUsed: UsedCells, usedUnique: int, positions: seq<Cell>)
      requires Valid()
      requires 0 <= pieceIndex < |pieces|
      requires SafeLayout(board, currentPlaced) && localUsed.cells == CellsOf(currentPlaced)
      requires usedUnique == UniqueCount(PiecesOf(currentPlaced)) && usedUnique <= 1
      requires pieces[pieceIndex].rarity == Unique ==> usedUnique == 0
      requires DrawnFrom(currentPlaced, currentIdx, pieces, pieceIndex)
      requires forall c :: c in positions ==> CanPlace(board, pieces[pieceIndex], c, CellsOf(currentPlaced))
      requires searchCount <= MaxBacktrackSearch + (|pieces| - pieceIndex)
      modifies this
      ensures Valid()
      ensures bestScore >= old(bestScore)
      ensures bestPlaced != old(bestPlaced) ==> bestScore > old(bestScore)
      ensures old(searchCount) <= searchCount <= MaxBacktrackSearch + (|pieces| - pieceIndex)
      decreases |pieces| - pieceIndex, 1
    {
      var maxPositions := if 2 < |positions| then 2 else |positions|;
      var i := 0;
      while i < maxPositions
        invariant 0 <= i <= maxPositions
        invariant Valid()
        invariant bestScore >= old(bestScore)
        invariant bestPlaced != old(bestPlaced) ==> bestScore > old(bestScore)
        invariant old(searchCount) <= searchCount <= MaxBacktrackSearch + (|pieces| - pieceIndex)
      {
        if searchCount > MaxBacktrackSearch {
          break;
        }
        assert positions[i] in positions;
        PlaceAt(pieceIndex, currentPlaced, currentIdx, localUsed, usedUnique, positions[i]);
        i := i + 1;
      }
    }

    /**
     * Places the piece at anchor on a copy of the used cells and explores
     * the rest of the pieces from the extended layout.
     */
    method PlaceAt(pieceIndex: int, currentPlaced: seq<Placement>, ghost currentIdx: seq<int>,
                   localUsed: UsedCells, usedUnique: int, anchor: Cell)
      requires Valid()
      requires 0 <= pieceIndex < |pieces|
      requires SafeLayout(board, currentPlaced) && localUsed.cells == CellsOf(currentPlaced)
      requires usedUnique == UniqueCount(PiecesOf(currentPlaced)) && usedUnique <= 1
      requires pieces[pieceIndex].rarity == Unique ==> usedUnique == 0
      requires DrawnFrom(currentPlaced, currentIdx, pieces, pieceIndex)
      requires CanPlace(board, pieces[pieceIndex], anchor, CellsOf(currentPlaced))
      modifies this
      ensures Valid()
      ensures bestScore >= old(bestScore)
      ensures bestPlaced != old(bestPlaced) ==> bestScore > old(bestScore)
      ensures old(searchCount) < searchCount
      ensures searchCount <= Max(old(searchCount), MaxBacktrackSearch) + (|pieces| - pieceIndex)
      decreases |pieces| - pieceIndex, 0
    {
      var piece := pieces[pieceIndex];
      var newUsed := new UsedCells(localUsed.cells);
      var placedCells := newUsed.Place(piece, anchor);
      var newPlaced := currentPlaced + [Placement(piece, anchor, placedCells)];
      PlaceStep(board, currentPlaced, currentIdx, pieces, pieceIndex, anchor);
      var newUsedUnique := usedUnique + (if piece.rarity == Unique then 1 else 0);
      Backtrack(pieceIndex + 1, newPlaced, currentIdx + [pieceIndex], newUsed, newUsedUnique);
    }
  }

  /**
   * Orders the pieces (role-attribute pieces first, then by rarity and
   * size), runs the bounded backtracking search from an empty board and
   * returns the best layout found: safe, with at most one unique piece,
   * every piece taken from the input and none placed twice.
   */
  method SolveWithBacktracking(b: Board, job: Role, piecesToPlace: seq<Piece>) returns (placed: seq<Placement>)
    requires IsGrid(b)
    ensures SafeLayout(b, placed)
    ensures UniqueCount(PiecesOf(placed)) <= 1
    ensures forall k :: 0 <= k < |placed| ==> placed[k].piece in piecesToPlace
    ensures DistinctIds(piecesToPlace) ==> DistinctIds(PiecesOf(placed))
  {
    var openCells := OpenCellsRowMajor(b);
    var sorted := SortBy(piecesToPlace, p => TargetKey(p, job));
    var search := new BacktrackSearch(b, openCells, sorted, job);
    var initialUsed := new UsedCells({});
    search.Backtrack(0, [], [], initialUsed, 0);
    placed := search.bestPlaced;
    forall k | 0 <= k < |placed| ensures placed[k].piece in piecesToPlace {
      SortByMembership(piecesToPlace, p => TargetKey(p, job), placed[k].piece);
    }
    if DistinctIds(piecesToPlace) {
      SortByKeepsDistinct(piecesToPlace, p => TargetKey(p, job), PieceId);
      DrawnDistinct(placed, search.bestIdx, sorted, |sorted|);
    }
  }

}
