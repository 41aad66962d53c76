/**
 * The strategic placement search. The target pieces chosen by the
 * strategy are placed by a bounded backtracking search that prunes every
 * branch whose optimistic estimate cannot reach the best score; the
 * cells it leaves open are then filled first-fit with the pieces that
 * were not used.
 */
module StrategicSearch {
  import opened Wrappers
  import opened AltarBoard
  import opened Pieces
  import opened Layout
  import opened Lists
  import opened PageSearch
  import opened Strategy

  /** The search gives up after this many calls. */
  const MaxSearch: int := 1000000

  // ---------------------------------------------------------------------
  // Anchor budget and skipping
  // ---------------------------------------------------------------------

  /** A piece of 1 to 5 cells whose attribute belongs to the role. */
  predicate RoleAttributePiece(p: Piece, job: Role) {
    p.size <= 5 && p.tag.Attr? && p.tag.attribute in JobAttributes(job)
  }

  predicate Near(n: int, threshold: int) {
    -3 <= n - threshold <= 3
  }

  /** The count lies within three cells of one of the bonus thresholds. */
  predicate NearThreshold(n: int) {
    Near(n, 9) || Near(n, 12) || Near(n, 15) || Near(n, 18) || Near(n, 21)
  }

  /** The five windows overlap into one: 6 to 24 cells. */
  lemma NearThresholdRange(n: int)
    ensures NearThreshold(n) <==> 6 <= n <= 24
  {
  }

  /**
   * How many of the nearest anchors the search tries for a piece: eight
   * for an 8-cell piece, ten for a role-attribute piece whose placement
   * brings its count near a threshold, seven for other role-attribute
   * pieces, five otherwise; never more than there are anchors.
   */
  function AnchorLimit(p: Piece, counts: map<Attribute, int>, available: nat, job: Role): (m: nat)
    ensures m <= available && m <= 10
    ensures m >= Min(5, available)
    ensures m == available || m == 5 || m == 7 || m == 8 || m == 10
  {
    var wanted :=
      if p.size == 8 then 8
      else if RoleAttributePiece(p, job) then
        (if NearThreshold(CountOf(counts, p.tag.attribute) + p.size) then 10 else 7)
      else 5;
    if wanted < available then wanted else available
  }

  /** Only a piece that gets the largest budget can be tried at ten anchors. */
  lemma TenAnchorsOnlyNearThreshold(p: Piece, counts: map<Attribute, int>, available: nat, job: Role)
    requires AnchorLimit(p, counts, available, job) == 10
    ensures RoleAttributePiece(p, job) && p.size != 8
    ensures 6 <= CountOf(counts, p.tag.attribute) + p.size <= 24
  {
    NearThresholdRange(CountOf(counts, p.tag.attribute) + p.size);
  }

  /**
   * After trying its anchors, the search also leaves the piece out when it
   * is not an 8-cell piece and either does not count for the role or is a
   * rare piece with something already placed.
   */
  predicate MaySkip(p: Piece, isMatchingPiece: bool, placedCount: int) {
    p.size != 8 && (!isMatchingPiece || (p.rarity == Rare && placedCount > 0))
  }

  /** The counts hold the role attributes' cells in the pieces. */
  ghost predicate CountsMatch(counts: map<Attribute, int>, ps: seq<Piece>, job: Role) {
    forall a :: a in JobAttributes(job) ==> CountOf(counts, a) == AttributeCount(ps, a)
  }

  /**
   * When the current layout scores above the best one and no size is
   * negative, the estimate does not prune it.
   */
  lemma ImprovementSurvives(currentScore: int, remaining: seq<Piece>, remainingCells: int,
                            counts: map<Attribute, int>, usedUnique: int, job: Role,
                            bestScore: int, isPhase1: bool)
    requires NonNegativeSizes(remaining) && 0 <= bestScore < currentScore
    ensures !Pruned(UpperBoundOf(currentScore, remaining, remainingCells, counts, usedUnique, job), bestScore, isPhase1)
  {
    UpperBoundAtLeastCurrent(currentScore, remaining, remainingCells, counts, usedUnique, job);
    ImprovementNotPruned(UpperBoundOf(currentScore, remaining, remainingCells, counts, usedUnique, job),
                         currentScore, bestScore, isPhase1);
  }

  // ---------------------------------------------------------------------
  // Backtracking over the target pieces
  // ---------------------------------------------------------------------

  /** The search state: the best layout so far, its score, and the call count. */
  class Search {
    const board: Board
    const openCells: seq<Cell>
    const totalOpenCells: int
    const targets: seq<Piece>
    const matchingIds: set<int>
    const attributeTargets: map<Attribute, int>
    const job: Role
    const isPhase1: bool
    var bestScore: int
    var bestPlacement: seq<Placement>
    var searchCount: int
    ghost var bestIdx: seq<int>

    /** The best layout is safe, has at most one unique piece, and bestScore is its score. */
    ghost predicate Valid()
      reads this
    {
      && IsGrid(board)
      && SafeLayout(board, bestPlacement)
      && UniqueCount(PiecesOf(bestPlacement)) <= 1
      && DrawnFrom(bestPlacement, bestIdx, targets, |targets|)
      && bestScore == TotalScore(PiecesOf(bestPlacement), job)
      && bestScore >= 0
    }

    constructor (b: Board, cells: seq<Cell>, total: int, pieces: seq<Piece>, ids: set<int>,
                 goals: map<Attribute, int>, role: Role, phase1: bool)
      requires IsGrid(b)
      ensures board == b && openCells == cells && totalOpenCells == total && targets == pieces
      ensures matchingIds == ids && attributeTargets == goals && job == role && isPhase1 == phase1
      ensures bestPlacement == [] && bestScore == 0 && searchCount == 0
      ensures Valid()
    {
      board := b;
      openCells := cells;
      totalOpenCells := total;
      targets := pieces;
      matchingIds := ids;
      attributeTargets := goals;
      job := role;
      isPhase1 := phase1;
      bestScore := 0;
      bestPlacement := [];
      searchCount := 0;
      bestIdx := [];
      new;
      BonusScoreBounds([], role);
    }

    /**
     * Explores the target pieces from pieceIndex on, given the layout
     * placed so far, its used cells, its role-attribute counts and its
     * number of unique pieces. The best layout stays safe and is replaced
     * only by a strictly higher one; the call count grows and passes the
     * limit by at most one per remaining piece. Pruning is sound: when the
     * call is made before the limit and no size is negative, the best
     * score afterwards is at least the current layout's.
     */
    method Backtrack(pieceIndex: int, currentPlaced: seq<Placement>, ghost currentIdx: seq<int>,
                     localUsed: UsedCells, counts: map<Attribute, int>, usedUnique: int)
      requires Valid()
      requires 0 <= pieceIndex <= |targets|
      requires SafeLayout(board, currentPlaced) && localUsed.cells == CellsOf(currentPlaced)
      requires CountsMatch(counts, PiecesOf(currentPlaced), job)
      requires usedUnique == UniqueCount(PiecesOf(currentPlaced)) && usedUnique <= 1
      requires DrawnFrom(currentPlaced, currentIdx, targets, pieceIndex)
      modifies this
      ensures Valid()
      ensures bestScore >= old(bestScore)
      ensures bestPlacement != old(bestPlacement) ==> bestScore > old(bestScore)
      ensures old(searchCount) < searchCount
      ensures old(searchCount) >= MaxSearch ==> searchCount == old(searchCount) + 1
      ensures searchCount <= Max(old(searchCount), MaxSearch) + (|targets| - pieceIndex) + 1
      ensures old(searchCount) < MaxSearch && NonNegativeSizes(targets) ==>
                bestScore >= TotalScore(PiecesOf(currentPlaced), job)
      decreases |targets| - pieceIndex, 4
    {
      searchCount := searchCount + 1;
      if searchCount > MaxSearch {
        return;
      }
      var score := CalculateScore(PiecesOf(currentPlaced), job);
      var currentScore := score.total;
      var remainingCells := totalOpenCells - |localUsed.cells|;
      var upperBound := UpperBound(currentScore, targets[pieceIndex..], remainingCells, counts, usedUnique, job);
      assert NonNegativeSizes(targets) && currentScore > bestScore ==> !Pruned(upperBound, bestScore, isPhase1) by {
        if NonNegativeSizes(targets) && currentScore > bestScore {
          assert NonNegativeSizes(targets[pieceIndex..]);
          ImprovementSurvives(currentScore, targets[pieceIndex..], remainingCells, counts, usedUnique, job,
                              bestScore, isPhase1);
        }
      }
      if Pruned(upperBound, bestScore, isPhase1) {
        return;
      }
      Record(currentPlaced, currentIdx, pieceIndex, currentScore);
      if pieceIndex >= |targets| || remainingCells <= 0 {
        return;
      }
      Branch(pieceIndex, currentPlaced, currentIdx, localUsed, counts, usedUnique);
    }

    /** A layout scoring strictly above the best one replaces it; otherwise nothing changes. */
    method Record(currentPlaced: seq<Placement>, ghost currentIdx: seq<int>, ghost pieceIndex: int, currentScore: int)
      requires Valid()
      requires 0 <= pieceIndex <= |targets|
      requires SafeLayout(board, currentPlaced) && UniqueCount(PiecesOf(currentPlaced)) <= 1
      requires DrawnFrom(currentPlaced, currentIdx, targets, pieceIndex)
      requires currentScore == TotalScore(PiecesOf(currentPlaced), job)
      modifies this
      ensures Valid() && searchCount == old(searchCount)
      ensures currentScore > old(bestScore) ==> bestPlacement == currentPlaced && bestScore == currentScore
      ensures currentScore <= old(bestScore) ==> bestPlacement == old(bestPlacement) && bestScore == old(bestScore)
    {
      if currentScore > bestScore {
        bestScore := currentScore;
        bestPlacement := currentPlaced;
        bestIdx := currentIdx;
        assert DrawnFrom(bestPlacement, bestIdx, targets, |targets|);
      }
    }

    /**
     * The choices for the next piece: pass over it when a unique piece is
     * already placed or its attribute has reached its target, or when it
     * fits nowhere; otherwise try it at its nearest anchors, then leave it
     * out when MaySkip allows.
     */
    method Branch(pieceIndex: int, currentPlaced: seq<Placement>, ghost currentIdx: seq<int>,
                  localUsed: UsedCells, counts: map<Attribute, int>, usedUnique: int)
      requires Valid()
      requires 0 <= pieceIndex < |targets|
      requires SafeLayout(board, currentPlaced) && localUsed.cells == CellsOf(currentPlaced)
      requires CountsMatch(counts, PiecesOf(currentPlaced), job)
      requires usedUnique == UniqueCount(PiecesOf(currentPlaced)) && usedUnique <= 1
      requires DrawnFrom(currentPlaced, currentIdx, targets, pieceIndex)
      requires searchCount <= MaxSearch
      modifies this
      ensures Valid()
      ensures bestScore >= old(bestScore)
      ensures bestPlacement != old(bestPlacement) ==> bestScore > old(bestScore)
      ensures old(searchCount) <= searchCount <= MaxSearch + (|targets| - pieceIndex) + 1
      decreases |targets| - pieceIndex, 3
    {
      var piece := targets[pieceIndex];
      if piece.rarity == Unique && usedUnique >= 1 {
        Backtrack(pieceIndex + 1, currentPlaced, currentIdx, localUsed, counts, usedUnique);
        return;
      }
      if RoleAttributePiece(piece, job) {
        var attr := piece.tag.attribute;
        if attr in attributeTargets && CountOf(counts, attr) >= attributeTargets[attr] {
          Backtrack(pieceIndex + 1, currentPlaced, currentIdx, localUsed, counts, usedUnique);
          return;
        }
      }
      Place(pieceIndex, currentPlaced, currentIdx, localUsed, counts, usedUnique);
    }

    /**
     * Passes over the piece when it fits nowhere; otherwise tries it at its
     * nearest anchors, then leaves it out when MaySkip allows and the call
     * limit was not passed among the anchors.
     */
    method Place(pieceIndex: int, currentPlaced: seq<Placement>, ghost currentIdx: seq<int>,
                 localUsed: UsedCells, counts: map<Attribute, int>, usedUnique: int)
      requires Valid()
      requires 0 <= pieceIndex < |targets|
      requires SafeLayout(board, currentPlaced) && localUsed.cells == CellsOf(currentPlaced)
      requires CountsMatch(counts, PiecesOf(currentPlaced), job)
      requires usedUnique == UniqueCount(PiecesOf(currentPlaced)) && usedUnique <= 1
      requires targets[pieceIndex].rarity == Unique ==> usedUnique == 0
      requires DrawnFrom(currentPlaced, currentIdx, targets, pieceIndex)
      requires searchCount <= MaxSearch
      modifies this
      ensures Valid()
      ensures bestScore >= old(bestScore)
      ensures bestPlacement != old(bestPlacement) ==> bestScore > old(bestScore)
      ensures old(searchCount) <= searchCount <= MaxSearch + (|targets| - pieceIndex) + 1
      decreases |targets| - pieceIndex, 2
    {
      var piece := targets[pieceIndex];
      var candidates := PossiblePositions(board, piece, openCells, localUsed.cells);
      if |candidates| == 0 {
        Backtrack(pieceIndex + 1, currentPlaced, currentIdx, localUsed, counts, usedUnique);
        return;
      }
      var positions := SortBy(candidates, DistanceKey);
      assert positions == SortedAnchors(board, piece, openCells, localUsed.cells);
      var maxPositions := AnchorLimit(piece, counts, |positions|, job);
      var stopped := TryAnchors(pieceIndex, currentPlaced, currentIdx, localUsed, counts, usedUnique,
                                positions, maxPositions);
      if stopped {
        return;
      }
      if MaySkip(piece, piece.id in matchingIds, |currentPlaced|) {
        Backtrack(pieceIndex + 1, currentPlaced, currentIdx, localUsed, counts, usedUnique);
      }
    }

    /**
     * Puts the piece at each of the first maxPositions anchors in turn and
     * explores the rest of the pieces from there; stops, and reports it,
     * once the call limit is passed.
     */
    method TryAnchors(pieceIndex: int, currentPlaced: seq<Placement>, ghost currentIdx: seq<int>,
                      localUsed: UsedCells, counts: map<Attribute, int>, usedUnique: int,
                      positions: seq<Cell>, maxPositions: int)
      returns (stopped: bool)
      requires Valid()
      requires 0 <= pieceIndex < |targets|
      requires SafeLayout(board, currentPlaced) && localUsed.cells == CellsOf(currentPlaced)
      requires CountsMatch(counts, PiecesOf(currentPlaced), job)
      requires usedUnique == UniqueCount(PiecesOf(currentPlaced)) && usedUnique <= 1
      requires targets[pieceIndex].rarity == Unique ==> usedUnique == 0
      requires DrawnFrom(currentPlaced, currentIdx, targets, pieceIndex)
      requires 0 <= maxPositions <= |positions|
      requires forall c :: c in positions ==> CanPlace(board, targets[pieceIndex], c, CellsOf(currentPlaced))
      requires searchCount <= MaxSearch + (|targets| - pieceIndex)
      modifies this
      ensures Valid()
      ensures bestScore >= old(bestScore)
      ensures bestPlacement != old(bestPlacement) ==> bestScore > old(bestScore)
      ensures old(searchCount) <= searchCount <= MaxSearch + (|targets| - pieceIndex)
      ensures stopped ==> searchCount > MaxSearch
      decreases |targets| - pieceIndex, 1
    {
      stopped := false;
      var i := 0;
      while i < maxPositions
        invariant 0 <= i <= maxPositions
        invariant Valid()
        invariant bestScore >= old(bestScore)
        invariant bestPlacement != old(bestPlacement) ==> bestScore > old(bestScore)
        invariant old(searchCount) <= searchCount <= MaxSearch + (|targets| - pieceIndex)
        invariant !stopped
      {
        if searchCount > MaxSearch {
          stopped := true;
          return;
        }
        assert positions[i] in positions;
        PlaceAt(pieceIndex, currentPlaced, currentIdx, localUsed, counts, usedUnique, positions[i]);
        i := i + 1;
      }
    }

    /**
     * Places the piece at anchor on a copy of the used cells, adds its
     * cells to its attribute's count and explores the rest of the pieces
     * from the extended layout.
     */
    method PlaceAt(pieceIndex: int, currentPlaced: seq<Placement>, ghost currentIdx: seq<int>,
                   localUsed: UsedCells, counts: map<Attribute, int>, usedUnique: int, anchor: Cell)
      requires Valid()
      requires 0 <= pieceIndex < |targets|
      requires SafeLayout(board, currentPlaced) && localUsed.cells == CellsOf(currentPlaced)
      requires CountsMatch(counts, PiecesOf(currentPlaced), job)
      requires usedUnique == UniqueCount(PiecesOf(currentPlaced)) && usedUnique <= 1
      requires targets[pieceIndex].rarity == Unique ==> usedUnique == 0
      requires DrawnFrom(currentPlaced, currentIdx, targets, pieceIndex)
      requires CanPlace(board, targets[pieceIndex], anchor, CellsOf(currentPlaced))
      modifies this
      ensures Valid()
      ensures bestScore >= old(bestScore)
      ensures bestPlacement != old(bestPlacement) ==> bestScore > old(bestScore)
      ensures old(searchCount) < searchCount
      ensures searchCount <= Max(old(searchCount), MaxSearch) + (|targets| - pieceIndex)
      decreases |targets| - pieceIndex, 0
    {
      var piece := targets[pieceIndex];
      var newUsed := new UsedCells(localUsed.cells);
      var placedCells := newUsed.Place(piece, anchor);
      var placement := Placement(piece, anchor, placedCells);
      var newPlaced := currentPlaced + [placement];
      PlaceStep(board, currentPlaced, currentIdx, targets, pieceIndex, anchor);
      PiecesOfAppend(currentPlaced, placement);
      var newCounts := AddAttributeCells(counts, map[], PiecesOf(currentPlaced), piece, job);
      var newUsedUnique := usedUnique + (if piece.rarity == Unique then 1 else 0);
      Backtrack(pieceIndex + 1, newPlaced, currentIdx + [pieceIndex], newUsed, newCounts, newUsedUnique);
    }
  }

  // ---------------------------------------------------------------------
  // First-fit filling (the second phase and the post-processing)
  // ---------------------------------------------------------------------

  /** The index of the first cell, in the order given, at which the piece fits; |cells| when none. */
  function FirstFitIndex(b: Board, p: Piece, cells: seq<Cell>, used: set<Cell>): (i: nat)
    ensures i <= |cells|
    ensures i < |cells| ==> CanPlace(b, p, cells[i], used)
    ensures forall j :: 0 <= j < i ==> !CanPlace(b, p, cells[j], used)
    decreases |cells|
  {
    if |cells| == 0 || CanPlace(b, p, cells[0], used) then 0
    else 1 + FirstFitIndex(b, p, cells[1..], used)
  }

  /** Scans the open cells for the first one at which the piece fits. */
  method FindFirstFit(b: Board, p: Piece, cells: seq<Cell>, used: set<Cell>) returns (i: nat)
    requires IsGrid(b)
    ensures i == FirstFitIndex(b, p, cells, used)
  {
    i := 0;
    while i < |cells|
      invariant 0 <= i <= |cells|
      invariant forall j :: 0 <= j < i ==> !CanPlace(b, p, cells[j], used)
    {
      var fits := CanPlacePiece(b, p, cells[i].row, cells[i].col, used);
      if fits {
        return;
      }
      i := i + 1;
    }
  }

  /**
   * One step of the fill: the piece goes at its first fitting open cell
   * unless the used cells plus its size would pass the number of open
   * cells or it fits nowhere. With guardUnique, a unique piece is also
   * passed over once the layout holds one.
   */
  function FillNext(b: Board, openCells: seq<Cell>, total: int, p: Piece,
                    placed: seq<Placement>, guardUnique: bool): seq<Placement>
  {
    var used := CellsOf(placed);
    var i := FirstFitIndex(b, p, openCells, used);
    if |used| + p.size > total || (guardUnique && p.rarity == Unique && UniqueCount(PiecesOf(placed)) >= 1)
       || i == |openCells|
    then placed
    else placed + [Placement(p, openCells[i], Translate(p.shape.value, openCells[i]))]
  }

  /** The pieces in order, each given one FillNext step. */
  function FirstFitFill(b: Board, openCells: seq<Cell>, total: int, ps: seq<Piece>,
                        placed: seq<Placement>, guardUnique: bool): seq<Placement>
    decreases |ps|
  {
    if |ps| == 0 then placed
    else FirstFitFill(b, openCells, total, ps[1..], FillNext(b, openCells, total, ps[0], placed, guardUnique), guardUnique)
  }

  /**
   * A step keeps a safe layout safe and either leaves it alone or appends
   * the piece; with guardUnique it never brings the unique pieces above one.
   */
  lemma FillNextSafe(b: Board, openCells: seq<Cell>, total: int, p: Piece, placed: seq<Placement>, guardUnique: bool)
    requires SafeLayout(b, placed)
    ensures var r := FillNext(b, openCells, total, p, placed, guardUnique);
            && SafeLayout(b, r)
            && (r == placed || (|r| == |placed| + 1 && r[..|placed|] == placed && r[|placed|].piece == p))
            && (guardUnique && UniqueCount(PiecesOf(placed)) <= 1 ==> UniqueCount(PiecesOf(r)) <= 1)
            && (r != placed ==> p.shape.Some? && |CellsOf(placed)| + p.size <= total
                                && |CellsOf(r)| <= |CellsOf(placed)| + |p.shape.value|)
  {
    var used := CellsOf(placed);
    var i := FirstFitIndex(b, p, openCells, used);
    var r := FillNext(b, openCells, total, p, placed, guardUnique);
    if |used| + p.size > total || (guardUnique && p.rarity == Unique && UniqueCount(PiecesOf(placed)) >= 1)
       || i == |openCells| {
      assert r == placed;
    } else {
      var a := openCells[i];
      assert CanPlace(b, p, a, used);
      var pl := Placement(p, a, Translate(p.shape.value, a));
      assert r == placed + [pl];
      ExtendSafe(b, placed, p, a);
      UniqueCountAppend(PiecesOf(placed), p);
      PiecesOfAppend(placed, pl);
      assert r[..|placed|] == placed;
      ElementsCard(Translate(p.shape.value, a));
    }
  }

  /**
   * The fill keeps a safe layout safe, only appends, appends only pieces
   * from ps, and with guardUnique never brings the unique pieces above one.
   */
  lemma {:induction false} FillKeepsSafe(b: Board, openCells: seq<Cell>, total: int, ps: seq<Piece>,
                                         placed: seq<Placement>, guardUnique: bool)
    requires SafeLayout(b, placed)
    ensures var r := FirstFitFill(b, openCells, total, ps, placed, guardUnique);
            && SafeLayout(b, r)
            && |placed| <= |r| && r[..|placed|] == placed
            && (forall k :: |placed| <= k < |r| ==> r[k].piece in ps)
            && (guardUnique && UniqueCount(PiecesOf(placed)) <= 1 ==> UniqueCount(PiecesOf(r)) <= 1)
    decreases |ps|
  {
    if |ps| > 0 {
      var next := FillNext(b, openCells, total, ps[0], placed, guardUnique);
      FillNextSafe(b, openCells, total, ps[0], placed, guardUnique);
      FillKeepsSafe(b, openCells, total, ps[1..], next, guardUnique);
      var r := FirstFitFill(b, openCells, total, ps[1..], next, guardUnique);
      assert r[..|placed|] == r[..|next|][..|placed|];
      forall k | |placed| <= k < |r| ensures r[k].piece in ps {
        if k >= |next| {
          assert r[k].piece in ps[1..];
        } else {
          assert r[k] == next[k];
        }
      }
    }
  }

  /**
   * The cell budget of the fill: a piece is appended only while the used
   * cells plus its size stay within total, so when no shape has more cells
   * than its piece's size (the shape table gives each size its shapes) the
   * fill never takes the used cells above total, or above what was
   * already used.
   */
  lemma {:induction false} FillWithinTotal(b: Board, openCells: seq<Cell>, total: int, ps: seq<Piece>,
                                           placed: seq<Placement>, guardUnique: bool)
    requires SafeLayout(b, placed)
    requires forall p :: p in ps && p.shape.Some? ==> |p.shape.value| <= p.size
    ensures |CellsOf(FirstFitFill(b, openCells, total, ps, placed, guardUnique))| <= Max(total, |CellsOf(placed)|)
    decreases |ps|
  {
    if |ps| > 0 {
      var next := FillNext(b, openCells, total, ps[0], placed, guardUnique);
      FillNextSafe(b, openCells, total, ps[0], placed, guardUnique);
      FillWithinTotal(b, openCells, total, ps[1..], next, guardUnique);
    }
  }

  /** A step that appends the piece keeps ids distinct when the piece's id is new. */
  lemma FillNextDistinct(b: Board, openCells: seq<Cell>, total: int, p: Piece, placed: seq<Placement>, guardUnique: bool)
    requires DistinctIds(PiecesOf(placed))
    requires forall x :: x in PiecesOf(placed) ==> x.id != p.id
    ensures var r := FillNext(b, openCells, total, p, placed, guardUnique);
            && DistinctIds(PiecesOf(r))
            && (forall x :: x in PiecesOf(r) ==> x in PiecesOf(placed) || x == p)
  {
    var r := FillNext(b, openCells, total, p, placed, guardUnique);
    if r != placed {
      var pl := r[|placed|];
      assert r == placed + [pl];
      PiecesOfAppend(placed, pl);
      AppendDistinct(PiecesOf(placed), [p], PieceId);
    }
  }

  /**
   * When the pieces to add have distinct ids, none shared with the layout,
   * and the layout's ids are distinct, the filled layout's ids are distinct.
   */
  lemma {:induction false} FillKeepsDistinct(b: Board, openCells: seq<Cell>, total: int, ps: seq<Piece>,
                                             placed: seq<Placement>, guardUnique: bool)
    requires DistinctIds(PiecesOf(placed)) && DistinctIds(ps)
    requires forall x, y :: x in PiecesOf(placed) && y in ps ==> x.id != y.id
    ensures DistinctIds(PiecesOf(FirstFitFill(b, openCells, total, ps, placed, guardUnique)))
    decreases |ps|
  {
    if |ps| > 0 {
      var p := ps[0];
      var next := FillNext(b, openCells, total, p, placed, guardUnique);
      FillNextDistinct(b, openCells, total, p, placed, guardUnique);
      assert DistinctIds(ps[1..]) by {
        forall i, j | 0 <= i < j < |ps[1..]| ensures PieceId(ps[1..][i]) != PieceId(ps[1..][j]) {
          assert ps[1..][i] == ps[i + 1] && ps[1..][j] == ps[j + 1];
        }
      }
      forall x, y | x in PiecesOf(next) && y in ps[1..] ensures x.id != y.id {
        var j :| 0 <= j < |ps[1..]| && ps[1..][j] == y;
        assert ps[j + 1] == y;
        if x !in PiecesOf(placed) {
          assert PieceId(ps[0]) != PieceId(ps[j + 1]);
        }
      }
      FillKeepsDistinct(b, openCells, total, ps[1..], next, guardUnique);
    }
  }

  /** A set of cells has no more elements than the list it is taken from. */
  lemma {:induction false} ElementsCard(cells: seq<Cell>)
    ensures |Elements(cells)| <= |cells|
  {
    if |cells| > 0 {
      var last := cells[|cells| - 1];
      var front := cells[..|cells| - 1];
      assert cells == front + [last];
      assert Elements(cells) == Elements(front) + {last};
      ElementsCard(front);
    }
  }

  /**
   * Walks the pieces and puts each at its first fitting open cell, as
   * FirstFitFill describes; counts the added pieces and their base points.
   */
  method FirstFitLoop(b: Board, openCells: seq<Cell>, total: int, ps: seq<Piece>,
                      placed0: seq<Placement>, used: UsedCells, guardUnique: bool)
    returns (placed: seq<Placement>, filled: int, addedScore: int)
    requires IsGrid(b)
    requires used.cells == CellsOf(placed0)
    modifies used
    ensures placed == FirstFitFill(b, openCells, total, ps, placed0, guardUnique)
    ensures used.cells == CellsOf(placed)
    ensures |placed0| <= |placed| && placed[..|placed0|] == placed0
    ensures filled == |placed| - |placed0|
    ensures addedScore == BaseScore(PiecesOf(placed)[|placed0|..])
  {
    placed := placed0;
    filled := 0;
    addedScore := 0;
    var i := 0;
    while i < |ps|
      invariant 0 <= i <= |ps|
      invariant used.cells == CellsOf(placed)
      invariant FirstFitFill(b, openCells, total, ps[i..], placed, guardUnique)
                == FirstFitFill(b, openCells, total, ps, placed0, guardUnique)
      invariant |placed0| <= |placed| && placed[..|placed0|] == placed0
      invariant filled == |placed| - |placed0|
      invariant addedScore == BaseScore(PiecesOf(placed)[|placed0|..])
    {
      FillUnfold(b, openCells, total, ps, i, placed, guardUnique);
      placed, filled, addedScore := FillOne(b, openCells, total, ps[i], placed0, placed, filled, addedScore, used, guardUnique);
      i := i + 1;
    }
    assert ps[i..] == [];
  }

  /** One step of FirstFitLoop: the step itself, and the count and points of the added pieces. */
  method FillOne(b: Board, openCells: seq<Cell>, total: int, piece: Piece, placed0: seq<Placement>,
                 placed: seq<Placement>, filled0: int, addedScore0: int, used: UsedCells, guardUnique: bool)
    returns (next: seq<Placement>, filled: int, addedScore: int)
    requires IsGrid(b)
    requires used.cells == CellsOf(placed)
    requires |placed0| <= |placed| && placed[..|placed0|] == placed0
    requires filled0 == |placed| - |placed0|
    requires addedScore0 == BaseScore(PiecesOf(placed)[|placed0|..])
    modifies used
    ensures next == FillNext(b, openCells, total, piece, placed, guardUnique)
    ensures used.cells == CellsOf(next)
    ensures |placed0| <= |next| && next[..|placed0|] == placed0
    ensures filled == |next| - |placed0|
    ensures addedScore == BaseScore(PiecesOf(next)[|placed0|..])
  {
    var added;
    next, added := PlaceFirstFit(b, openCells, total, piece, placed, used, guardUnique);
    filled, addedScore := filled0, addedScore0;
    if added {
      AddedScoreStep(placed, |placed0|, next[|placed|]);
      assert next == placed + [next[|placed|]];
      assert next[..|placed0|] == placed[..|placed0|];
      filled := filled + 1;
      addedScore := addedScore + RarityScore(piece.rarity) * piece.size;
    }
  }

  /** One step of the fill on the used cells: FillNext, reporting whether the piece was added. */
  method PlaceFirstFit(b: Board, openCells: seq<Cell>, total: int, piece: Piece,
                       placed: seq<Placement>, used: UsedCells, guardUnique: bool)
    returns (next: seq<Placement>, added: bool)
    requires IsGrid(b)
    requires used.cells == CellsOf(placed)
    modifies used
    ensures next == FillNext(b, openCells, total, piece, placed, guardUnique)
    ensures used.cells == CellsOf(next)
    ensures !added ==> next == placed
    ensures added ==> |next| == |placed| + 1 && next[..|placed|] == placed && next[|placed|].piece == piece
  {
    next, added := placed, false;
    if |used.cells| + piece.size > total {
      return;
    }
    if guardUnique && piece.rarity == Unique && UniqueCount(PiecesOf(placed)) >= 1 {
      return;
    }
    var k := FindFirstFit(b, piece, openCells, used.cells);
    if k < |openCells| {
      var anchor := openCells[k];
      var cells := used.Place(piece, anchor);
      var pl := Placement(piece, anchor, cells);
      CellsOfSnoc(placed, pl);
      next, added := placed + [pl], true;
      assert next[..|placed|] == placed;
    }
  }

  lemma FillUnfold(b: Board, openCells: seq<Cell>, total: int, ps: seq<Piece>, i: int,
                   placed: seq<Placement>, guardUnique: bool)
    requires 0 <= i < |ps|
    ensures FirstFitFill(b, openCells, total, ps[i..], placed, guardUnique)
            == FirstFitFill(b, openCells, total, ps[i + 1..], FillNext(b, openCells, total, ps[i], placed, guardUnique), guardUnique)
  {
    assert ps[i..][1..] == ps[i + 1..];
  }

  lemma AddedScoreStep(placed: seq<Placement>, from: int, pl: Placement)
    requires 0 <= from <= |placed|
    ensures BaseScore(PiecesOf(placed + [pl])[from..])
            == BaseScore(PiecesOf(placed)[from..]) + RarityScore(pl.piece.rarity) * pl.piece.size
  {
    PiecesOfAppend(placed, pl);
    var s := PiecesOf(placed)[from..];
    assert PiecesOf(placed + [pl])[from..] == s + [pl.piece];
    BaseScoreSnoc(s, pl.piece);
  }

  lemma CellsOfSnoc(placed: seq<Placement>, pl: Placement)
    ensures CellsOf(placed + [pl]) == CellsOf(placed) + Elements(pl.cells)
  {
    assert (placed + [pl])[..|placed|] == placed;
  }

  lemma BaseScoreSnoc(s: seq<Piece>, p: Piece)
    ensures BaseScore(s + [p]) == BaseScore(s) + RarityScore(p.rarity) * p.size
  {
    assert (s + [p])[..|s|] == s;
  }
  // ---------------------------------------------------------------------
  // The second phase
  // ---------------------------------------------------------------------

  function IdIn(ids: set<int>): Piece -> bool {
    (p: Piece) => PieceId(p) in ids
  }

  /**
   * The second phase would place the target pieces that do not count for
   * the role; every target piece is a role piece, so there are none.
   */
  lemma NoNonMatchingTargets(targetPieces: seq<Piece>, matching: seq<Piece>)
    requires forall p :: p in targetPieces ==> p in matching
    ensures Filter(targetPieces, IdNotIn(IdSet(matching))) == []
    ensures Filter(targetPieces, IdIn(IdSet(matching))) == targetPieces
  {
    forall p | p in targetPieces ensures PieceId(p) in IdSet(matching) {
      assert p in matching;
    }
    FilterNone(targetPieces, IdNotIn(IdSet(matching)));
    FilterAll(targetPieces, IdIn(IdSet(matching)));
  }

  lemma {:induction false} FilterAll(s: seq<Piece>, p: Piece -> bool)
    requires forall x :: x in s ==> p(x)
    ensures Filter(s, p) == s
  {
    if |s| > 0 {
      assert s[0] in s;
      assert forall x :: x in s[1..] ==> x in s;
      FilterAll(s[1..], p);
      assert s == [s[0]] + s[1..];
    }
  }

  /**
   * The second phase: when the first phase left cells open, some target
   * pieces do not count for the role and the layout is not empty, and one
   * of those pieces is no larger than the cells left, they are added
   * first-fit by rarity, then size. The result replaces the first phase's
   * only when its score, the first phase's plus each added piece's base
   * points, is higher.
   */
  method PhaseTwo(b: Board, openCells: seq<Cell>, total: int, phase1: seq<Placement>, phase1Score: int,
                  nonMatchingTargets: seq<Piece>)
    returns (placed: seq<Placement>, score: int)
    requires IsGrid(b) && SafeLayout(b, phase1)
    ensures SafeLayout(b, placed)
    ensures |phase1| <= |placed| && placed[..|phase1|] == phase1
    ensures forall k :: |phase1| <= k < |placed| ==> placed[k].piece in nonMatchingTargets
    ensures score == phase1Score + BaseScore(PiecesOf(placed)[|phase1|..])
    ensures score >= phase1Score
    ensures placed != phase1 ==> score > phase1Score
    ensures placed != phase1 ==>
              placed == FirstFitFill(b, openCells, total, SortBy(nonMatchingTargets, ScoreKey), phase1, false)
  {
    placed, score := phase1, phase1Score;
    assert PiecesOf(placed)[|phase1|..] == [];
    var usedCount := |CellsOf(phase1)|;
    if usedCount < total && |nonMatchingTargets| > 0 && |phase1| > 0 {
      var remaining := total - usedCount;
      var canFitMore := exists p :: p in nonMatchingTargets && p.size <= remaining;
      if canFitMore && remaining > 0 {
        placed, score := PhaseTwoFill(b, openCells, total, phase1, phase1Score, nonMatchingTargets);
      }
    }
  }

  /** The second phase's fill and its comparison with the first phase. */
  method PhaseTwoFill(b: Board, openCells: seq<Cell>, total: int, phase1: seq<Placement>, phase1Score: int,
                      nonMatchingTargets: seq<Piece>)
    returns (placed: seq<Placement>, score: int)
    requires IsGrid(b) && SafeLayout(b, phase1)
    ensures SafeLayout(b, placed)
    ensures |phase1| <= |placed| && placed[..|phase1|] == phase1
    ensures forall k :: |phase1| <= k < |placed| ==> placed[k].piece in nonMatchingTargets
    ensures score == phase1Score + BaseScore(PiecesOf(placed)[|phase1|..])
    ensures score >= phase1Score
    ensures placed != phase1 ==> score > phase1Score
    ensures placed != phase1 ==>
              placed == FirstFitFill(b, openCells, total, SortBy(nonMatchingTargets, ScoreKey), phase1, false)
  {
    placed, score := phase1, phase1Score;
    assert PiecesOf(placed)[|phase1|..] == [];
    var used := new UsedCells(CellsOf(phase1));
    var sorted := SortBy(nonMatchingTargets, ScoreKey);
    var phase2, added, addedScore := FirstFitLoop(b, openCells, total, sorted, phase1, used, false);
    if phase1Score + addedScore > phase1Score {
      FillKeepsSafe(b, openCells, total, sorted, phase1, false);
      forall k | |phase1| <= k < |phase2| ensures phase2[k].piece in nonMatchingTargets {
        SortByMembership(nonMatchingTargets, ScoreKey, phase2[k].piece);
      }
      placed, score := phase2, phase1Score + addedScore;
    }
  }

  // ---------------------------------------------------------------------
  // Post-processing
  // ---------------------------------------------------------------------

  /**
   * Pieces no larger than the cells left first, then role pieces, then
   * by rarity descending, then by size ascending.
   */
  function PostKey(p: Piece, remaining: int, matching: seq<Piece>): Key {
    Key(if p.size <= remaining then 0 else 1, if p in matching then 0 else 1, -RarityScore(p.rarity), p.size)
  }

  function PostKeyFor(remaining: int, matching: seq<Piece>): Piece -> Key {
    (p: Piece) => PostKey(p, remaining, matching)
  }

  /** The pieces not in the layout, role pieces listed first, in post-processing order. */
  function PostOrder(matching: seq<Piece>, nonMatching: seq<Piece>, usedIds: set<int>, remaining: int): seq<Piece> {
    SortBy(Filter(matching + nonMatching, IdNotIn(usedIds)), PostKeyFor(remaining, matching))
  }

  /**
   * The order holds exactly the pieces of either list whose id is unused,
   * a piece that fits in the cells left never follows one that does not,
   * and among those that fit alike role pieces come first.
   */
  lemma PostOrderProperties(matching: seq<Piece>, nonMatching: seq<Piece>, usedIds: set<int>, remaining: int)
    ensures var r := PostOrder(matching, nonMatching, usedIds, remaining);
            && (forall p :: p in r <==> (p in matching || p in nonMatching) && p.id !in usedIds)
            && (forall i, j :: 0 <= i < j < |r| && r[j].size <= remaining ==> r[i].size <= remaining)
            && (forall i, j :: 0 <= i < j < |r| && (r[i].size <= remaining <==> r[j].size <= remaining) && r[j] in matching
                  ==> r[i] in matching)
  {
    var s := Filter(matching + nonMatching, IdNotIn(usedIds));
    var r := PostOrder(matching, nonMatching, usedIds, remaining);
    forall p ensures p in r <==> (p in matching || p in nonMatching) && p.id !in usedIds {
      SortByMembership(s, PostKeyFor(remaining, matching), p);
    }
    assert SortedBy(r, PostKeyFor(remaining, matching));
    forall i, j | 0 <= i < j < |r| ensures KeyLe(PostKey(r[i], remaining, matching), PostKey(r[j], remaining, matching)) {
      assert PostKeyFor(remaining, matching)(r[i]) == PostKey(r[i], remaining, matching);
    }
  }

  /**
   * The layout after post-processing: the first-fit fill of the cells
   * left. The source fills without guardUnique; with it, a unique piece is
   * passed over once the layout holds one.
   */
  function PostFill(b: Board, openCells: seq<Cell>, total: int, matching: seq<Piece>, nonMatching: seq<Piece>,
                    best: seq<Placement>, guardUnique: bool): seq<Placement>
  {
    var remaining := total - |CellsOf(best)|;
    if remaining > 0 then
      FirstFitFill(b, openCells, total, PostOrder(matching, nonMatching, IdSet(PiecesOf(best)), remaining), best,
                   guardUnique)
    else best
  }

  /**
   * Fills the cells the search left open with the unused pieces in
   * post-processing order and rescores the layout when anything was added.
   */
  method PostProcess(b: Board, openCells: seq<Cell>, total: int, matching: seq<Piece>, nonMatching: seq<Piece>,
                     best: seq<Placement>, bestScore: int, job: Role, guardUnique: bool)
    returns (placed: seq<Placement>, score: int)
    requires IsGrid(b) && bestScore == TotalScore(PiecesOf(best), job)
    ensures placed == PostFill(b, openCells, total, matching, nonMatching, best, guardUnique)
    ensures score == TotalScore(PiecesOf(placed), job)
  {
    var usedIds := IdSet(PiecesOf(best));
    var usedCount := |CellsOf(best)|;
    var remaining := total - usedCount;
    placed, score := best, bestScore;
    if remaining > 0 {
      placed, score := FillLeftCells(b, openCells, total, PostOrder(matching, nonMatching, usedIds, remaining),
                                     best, bestScore, job, guardUnique);
    }
  }

  /** Adds the unused pieces first-fit and rescores when anything was added. */
  method FillLeftCells(b: Board, openCells: seq<Cell>, total: int, unused: seq<Piece>,
                       best: seq<Placement>, bestScore: int, job: Role, guardUnique: bool)
    returns (placed: seq<Placement>, score: int)
    requires IsGrid(b) && bestScore == TotalScore(PiecesOf(best), job)
    ensures placed == FirstFitFill(b, openCells, total, unused, best, guardUnique)
    ensures score == TotalScore(PiecesOf(placed), job)
  {
    var used := new UsedCells(CellsOf(best));
    var filled, addedScore;
    placed, filled, addedScore := FirstFitLoop(b, openCells, total, unused, best, used, guardUnique);
    if filled > 0 {
      var finalScore := CalculateScore(PiecesOf(placed), job);
      score := finalScore.total;
    } else {
      assert placed == placed[..|best|] == best;
      score := bestScore;
    }
  }

  /**
   * Post-processing keeps the layout safe, only appends, appends only
   * unused pieces of either list, and keeps ids distinct when the two
   * lists together have distinct ids. With the unique guard it also keeps
   * at most one unique piece.
   */
  lemma PostFillProperties(b: Board, openCells: seq<Cell>, total: int, matching: seq<Piece>, nonMatching: seq<Piece>,
                           best: seq<Placement>, guardUnique: bool)
    requires SafeLayout(b, best) && UniqueCount(PiecesOf(best)) <= 1
    ensures var r := PostFill(b, openCells, total, matching, nonMatching, best, guardUnique);
            && SafeLayout(b, r) && (guardUnique ==> UniqueCount(PiecesOf(r)) <= 1)
            && |best| <= |r| && r[..|best|] == best
            && (forall k :: |best| <= k < |r| ==> (r[k].piece in matching || r[k].piece in nonMatching)
                                                  && r[k].piece.id !in IdSet(PiecesOf(best)))
            && (DistinctIds(PiecesOf(best)) && DistinctIds(matching + nonMatching) ==> DistinctIds(PiecesOf(r)))
  {
    var remaining := total - |CellsOf(best)|;
    if remaining > 0 {
      var usedIds := IdSet(PiecesOf(best));
      var order := PostOrder(matching, nonMatching, usedIds, remaining);
      FillKeepsSafe(b, openCells, total, order, best, guardUnique);
      PostOrderProperties(matching, nonMatching, usedIds, remaining);
      if DistinctIds(PiecesOf(best)) && DistinctIds(matching + nonMatching) {
        FilterKeepsDistinct(matching + nonMatching, IdNotIn(usedIds), PieceId);
        SortByKeepsDistinct(Filter(matching + nonMatching, IdNotIn(usedIds)), PostKeyFor(remaining, matching), PieceId);
        forall x, y | x in PiecesOf(best) && y in order ensures x.id != y.id {
          assert x.id in usedIds;
        }
        FillKeepsDistinct(b, openCells, total, order, best, guardUnique);
      }
    }
  }
  // ---------------------------------------------------------------------
  // A second unique piece in post-processing
  // ---------------------------------------------------------------------

  /** Every cell open: what the page's "open all" gives from any board whose core is open. */
  function FullBoard(): (b: Board)
    ensures IsGrid(b)
  {
    seq(Size, r => seq(Size, c => true))
  }

  /** All 49 cells in row-major order. */
  function FullCells(): seq<Cell> {
    seq(Size * Size, i => Cell(i / Size, i % Size))
  }

  /** A grid with every cell open is FullBoard, so "open all" on a valid board ends there. */
  lemma AllOpenIsFullBoard(b: Board)
    requires IsGrid(b) && forall c :: InBounds(c) ==> IsOpen(b, c)
    ensures b == FullBoard()
  {
    forall r | 0 <= r < Size ensures b[r] == FullBoard()[r] {
      forall c | 0 <= c < Size ensures b[r][c] {
        assert IsOpen(b, Cell(r, c));
      }
    }
  }

  /** FullCells is the row-major list of FullBoard's open cells, as OpenCellsRowMajor returns it. */
  lemma FullCellsAreOpen()
    ensures RowMajor(FullCells())
    ensures forall c :: c in FullCells() <==> IsOpen(FullBoard(), c)
    ensures |FullCells()| == 49 && FullCells()[0] == Cell(0, 0)
  {
    var cells := FullCells();
    forall i | 0 <= i < |cells| ensures Index(cells[i]) == i {
    }
    forall c ensures c in cells <==> IsOpen(FullBoard(), c) {
      if IsOpen(FullBoard(), c) {
        var i := c.row * Size + c.col;
        assert cells[i] == c;
      }
    }
  }

  /** Two rows of four cells. */
  function BlockShape(): seq<Offset> {
    [Offset(0, 0), Offset(0, 1), Offset(0, 2), Offset(0, 3), Offset(1, 0), Offset(1, 1), Offset(1, 2), Offset(1, 3)]
  }

  /** A Dealer unique piece covering rows 2 and 3, columns 0 to 3. */
  function DealerUniqueLayout(): seq<Placement> {
    [Placement(Piece(1, Unique, 8, ForRole(Dealer), Some(BlockShape())), Cell(2, 0), Translate(BlockShape(), Cell(2, 0)))]
  }

  /** An unused unique piece for every role. */
  function AllRolesUnique(): Piece {
    Piece(2, Unique, 8, AllRoles, Some(BlockShape()))
  }

  lemma DealerUniqueLayoutFacts()
    ensures SafeLayout(FullBoard(), DealerUniqueLayout())
    ensures UniqueCount(PiecesOf(DealerUniqueLayout())) == 1
    ensures |CellsOf(DealerUniqueLayout())| <= 8
    ensures CanPlace(FullBoard(), AllRolesUnique(), Cell(0, 0), CellsOf(DealerUniqueLayout()))
  {
    var lower := Translate(BlockShape(), Cell(2, 0));
    BlockCells();
    assert DealerUniqueLayout()[..0] == [];
    assert CellsOf(DealerUniqueLayout()) == Elements(lower);
    ElementsCard(lower);
    LowerBlockOpen();
    UpperBlockFits();
  }

  lemma BlockCells()
    ensures Translate(BlockShape(), Cell(2, 0))
            == [Cell(2, 0), Cell(2, 1), Cell(2, 2), Cell(2, 3), Cell(3, 0), Cell(3, 1), Cell(3, 2), Cell(3, 3)]
    ensures Translate(BlockShape(), Cell(0, 0))
            == [Cell(0, 0), Cell(0, 1), Cell(0, 2), Cell(0, 3), Cell(1, 0), Cell(1, 1), Cell(1, 2), Cell(1, 3)]
  {
  }

  lemma LowerBlockOpen()
    ensures forall c :: c in Translate(BlockShape(), Cell(2, 0)) ==> IsOpen(FullBoard(), c)
  {
    BlockCells();
  }

  /** The block anchored at a covers two rows from a.row and four columns from a.col. */
  lemma BlockSpan(a: Cell)
    ensures forall c :: c in Translate(BlockShape(), a) ==>
              a.row <= c.row <= a.row + 1 && a.col <= c.col <= a.col + 3
  {
    var cells := Translate(BlockShape(), a);
    forall c | c in cells ensures a.row <= c.row <= a.row + 1 && a.col <= c.col <= a.col + 3 {
      var i :| 0 <= i < |cells| && cells[i] == c;
      assert BlockShape()[i] in BlockShape();
    }
  }

  lemma UpperBlockFits()
    ensures CanPlace(FullBoard(), AllRolesUnique(), Cell(0, 0), Elements(Translate(BlockShape(), Cell(2, 0))))
  {
    var upper := Translate(BlockShape(), Cell(0, 0));
    var lower := Translate(BlockShape(), Cell(2, 0));
    BlockSpan(Cell(0, 0));
    BlockSpan(Cell(2, 0));
    forall c | c in upper ensures InBounds(c) && IsOpen(FullBoard(), c) && c !in Elements(lower) {
    }
  }

  /** The all-roles unique piece first fits at the corner cell (0, 0). */
  lemma FirstFitAtCorner()
    ensures FirstFitIndex(FullBoard(), AllRolesUnique(), FullCells(), CellsOf(DealerUniqueLayout())) == 0
  {
    DealerUniqueLayoutFacts();
    FullCellsAreOpen();
  }

  /** Without the guard, the fill step adds the second unique piece at (0, 0). */
  lemma UnguardedStepAdds()
    ensures FillNext(FullBoard(), FullCells(), 49, AllRolesUnique(), DealerUniqueLayout(), false)
            == DealerUniqueLayout() + [Placement(AllRolesUnique(), Cell(0, 0), Translate(BlockShape(), Cell(0, 0)))]
  {
    DealerUniqueLayoutFacts();
    FirstFitAtCorner();
    FullCellsAreOpen();
  }

  /** With the guard, the fill step passes the second unique piece over. */
  lemma GuardedStepSkips()
    ensures FillNext(FullBoard(), FullCells(), 49, AllRolesUnique(), DealerUniqueLayout(), true)
            == DealerUniqueLayout()
  {
    DealerUniqueLayoutFacts();
  }

  /** A fill over a single piece is one fill step. */
  lemma FillSingle(b: Board, openCells: seq<Cell>, total: int, p: Piece, placed: seq<Placement>, guardUnique: bool)
    ensures FirstFitFill(b, openCells, total, [p], placed, guardUnique) == FillNext(b, openCells, total, p, placed, guardUnique)
  {
    assert [p][1..] == [];
  }

  /** The post-processing order of a single unused role piece is that piece. */
  lemma PostOrderSingle(p: Piece, usedIds: set<int>, remaining: int)
    requires p.id !in usedIds
    ensures PostOrder([p], [], usedIds, remaining) == [p]
  {
    assert [p] + [] == [p];
    var f := Filter([p], IdNotIn(usedIds));
    assert p in f;
    SortByMembership(f, PostKeyFor(remaining, [p]), p);
  }

  /**
   * As written, post-processing checks only the cell count, so it adds an
   * unused unique piece to a layout that already holds one: on the fully
   * open board, with the search's layout a Dealer unique piece covering
   * rows 2 and 3, columns 0 to 3, the unused all-roles unique piece first
   * fits at (0, 0) in rows 0 and 1. With the guard it is passed over.
   */
  lemma PostFillAllowsSecondUnique()
    ensures RowMajor(FullCells()) && forall c :: c in FullCells() <==> IsOpen(FullBoard(), c)
    ensures SafeLayout(FullBoard(), DealerUniqueLayout()) && UniqueCount(PiecesOf(DealerUniqueLayout())) == 1
    ensures UniqueCount(PiecesOf(PostFill(FullBoard(), FullCells(), 49, [AllRolesUnique()], [],
                                          DealerUniqueLayout(), false))) == 2
    ensures PostFill(FullBoard(), FullCells(), 49, [AllRolesUnique()], [], DealerUniqueLayout(), true)
            == DealerUniqueLayout()
  {
    var b := FullBoard();
    var cells := FullCells();
    var placed := DealerUniqueLayout();
    var second := AllRolesUnique();
    var pl := Placement(second, Cell(0, 0), Translate(BlockShape(), Cell(0, 0)));
    FullCellsAreOpen();
    DealerUniqueLayoutFacts();
    var usedIds := IdSet(PiecesOf(placed));
    assert PiecesOf(placed) == [placed[0].piece];
    assert second.id !in usedIds;
    PostOrderSingle(second, usedIds, 49 - |CellsOf(placed)|);
    FillSingle(b, cells, 49, second, placed, false);
    FillSingle(b, cells, 49, second, placed, true);
    UnguardedStepAdds();
    GuardedStepSkips();
    UniqueCountAppend(PiecesOf(placed), second);
    PiecesOfAppend(placed, pl);
  }

  // ---------------------------------------------------------------------
  // The whole search
  // ---------------------------------------------------------------------

  /**
   * The strategic search end to end, as the program runs it: the open
   * cells in row-major order, the role and leftover pieces, the strategy's
   * target pieces, the bounded backtracking over the target pieces that
   * count for the role, then post-processing of the cells left, which has
   * no unique check. The result is safe, takes every piece from the input
   * and none twice, and the score returned is the layout's score. The
   * search's layout is its prefix and holds at most one unique piece;
   * every piece after it is one the search did not use.
   */
  method FindBestCombination(b: Board, pieces: seq<Piece>, job: Role)
    returns (placed: seq<Placement>, score: int, ghost searched: seq<Placement>)
    requires IsGrid(b)
    ensures SafeLayout(b, placed)
    ensures |searched| <= |placed| && placed[..|searched|] == searched && UniqueCount(PiecesOf(searched)) <= 1
    ensures forall k :: |searched| <= k < |placed| ==> placed[k].piece.id !in IdSet(PiecesOf(searched))
    ensures forall k :: 0 <= k < |placed| ==> placed[k].piece in pieces
    ensures DistinctIds(pieces) ==> DistinctIds(PiecesOf(placed))
    ensures score == TotalScore(PiecesOf(placed), job)
  {
    placed, score, searched := SearchAndFill(b, pieces, job, false);
  }

  /**
   * The search with the unique guard in post-processing: the final layout
   * then holds at most one unique piece, as the backtracking promises for
   * its own layouts.
   */
  method FindBestCombinationOneUnique(b: Board, pieces: seq<Piece>, job: Role) returns (placed: seq<Placement>, score: int)
    requires IsGrid(b)
    ensures SafeLayout(b, placed)
    ensures UniqueCount(PiecesOf(placed)) <= 1
    ensures forall k :: 0 <= k < |placed| ==> placed[k].piece in pieces
    ensures DistinctIds(pieces) ==> DistinctIds(PiecesOf(placed))
    ensures score == TotalScore(PiecesOf(placed), job)
  {
    ghost var searched;
    placed, score, searched := SearchAndFill(b, pieces, job, true);
  }

  /** The search followed by post-processing, with or without the unique guard. */
  method SearchAndFill(b: Board, pieces: seq<Piece>, job: Role, guardUnique: bool)
    returns (placed: seq<Placement>, score: int, ghost searched: seq<Placement>)
    requires IsGrid(b)
    ensures SafeLayout(b, placed)
    ensures |searched| <= |placed| && placed[..|searched|] == searched && UniqueCount(PiecesOf(searched)) <= 1
    ensures forall k :: |searched| <= k < |placed| ==> placed[k].piece.id !in IdSet(PiecesOf(searched))
    ensures guardUnique ==> UniqueCount(PiecesOf(placed)) <= 1
    ensures forall k :: 0 <= k < |placed| ==> placed[k].piece in pieces
    ensures DistinctIds(pieces) ==> DistinctIds(PiecesOf(placed))
    ensures score == TotalScore(PiecesOf(placed), job)
  {
    var openCells := OpenCellsRowMajor(b);
    var total := |openCells|;
    var matching := MatchingPieces(pieces, job);
    var nonMatching := NonMatchingPieces(pieces, job);
    var strategy := CalculateOptimalStrategy(matching, job, total);
    var matchingIds := IdSet(matching);
    var phase1Targets := Filter(strategy.targetPieces, IdIn(matchingIds));
    // Every target piece counts for the role: the second phase has nothing to place.
    NoNonMatchingTargets(strategy.targetPieces, matching);
    var isPhase1 := forall p :: p in phase1Targets ==> p.id in matchingIds;
    var best, bestScore, bestIdx := SearchTargets(b, openCells, total, phase1Targets, matchingIds,
                                                  strategy.attributeTargets, job, isPhase1);
    placed, score := PostProcess(b, openCells, total, matching, nonMatching, best, bestScore, job, guardUnique);
    SearchOutcome(b, openCells, total, pieces, job, matching, nonMatching, strategy.targetPieces, best, bestIdx,
                  guardUnique);
    searched := best;
  }

  /**
   * Phase 1: a fresh search over the targets from the empty layout, with
   * zero attribute counts and no unique piece used. The best layout it
   * returns is safe, holds at most one unique piece, takes the targets in
   * order, and comes with its own score.
   */
  method SearchTargets(b: Board, openCells: seq<Cell>, total: int, targets: seq<Piece>, matchingIds: set<int>,
                       goals: map<Attribute, int>, job: Role, isPhase1: bool)
    returns (best: seq<Placement>, bestScore: int, ghost bestIdx: seq<int>)
    requires IsGrid(b)
    ensures SafeLayout(b, best) && UniqueCount(PiecesOf(best)) <= 1
    ensures DrawnFrom(best, bestIdx, targets, |targets|)
    ensures bestScore == TotalScore(PiecesOf(best), job) && bestScore >= 0
  {
    var search := new Search(b, openCells, total, targets, matchingIds, goals, job, isPhase1);
    var initialUsed := new UsedCells({});
    var initialCounts := map a | a in AllAttributes :: 0;
    search.Backtrack(0, [], [], initialUsed, initialCounts, 0);
    best, bestScore, bestIdx := search.bestPlacement, search.bestScore, search.bestIdx;
  }

  /** What the search and post-processing together guarantee about the final layout. */
  lemma SearchOutcome(b: Board, openCells: seq<Cell>, total: int, pieces: seq<Piece>, job: Role,
                      matching: seq<Piece>, nonMatching: seq<Piece>, targets: seq<Piece>,
                      best: seq<Placement>, idx: seq<int>, guardUnique: bool)
    requires matching == MatchingPieces(pieces, job) && nonMatching == NonMatchingPieces(pieces, job)
    requires forall p :: p in targets ==> p in matching
    requires DistinctIds(matching) ==> DistinctIds(targets)
    requires SafeLayout(b, best) && UniqueCount(PiecesOf(best)) <= 1
    requires DrawnFrom(best, idx, targets, |targets|)
    ensures var r := PostFill(b, openCells, total, matching, nonMatching, best, guardUnique);
            && SafeLayout(b, r) && (guardUnique ==> UniqueCount(PiecesOf(r)) <= 1)
            && |best| <= |r| && r[..|best|] == best
            && (forall k :: |best| <= k < |r| ==> r[k].piece.id !in IdSet(PiecesOf(best)))
            && (forall k :: 0 <= k < |r| ==> r[k].piece in pieces)
            && (DistinctIds(pieces) ==> DistinctIds(PiecesOf(r)))
  {
    var r := PostFill(b, openCells, total, matching, nonMatching, best, guardUnique);
    PostFillProperties(b, openCells, total, matching, nonMatching, best, guardUnique);
    BestFromPieces(best, idx, targets, matching, pieces, job);
    ExtendedFromPieces(r, best, matching, nonMatching, pieces, job);
    if DistinctIds(pieces) {
      PartitionDistinct(pieces, job);
      DrawnDistinct(best, idx, targets, |targets|);
    }
  }

  /** The search's layout takes its pieces from the targets, hence from the input. */
  lemma BestFromPieces(best: seq<Placement>, idx: seq<int>, targets: seq<Piece>, matching: seq<Piece>,
                       pieces: seq<Piece>, job: Role)
    requires matching == MatchingPieces(pieces, job)
    requires forall p :: p in targets ==> p in matching
    requires DrawnFrom(best, idx, targets, |targets|)
    ensures forall k :: 0 <= k < |best| ==> best[k].piece in pieces
  {
    forall k | 0 <= k < |best| ensures best[k].piece in pieces {
      assert best[k].piece in targets;
    }
  }

  /** A layout extending one drawn from the input with pieces of either list is drawn from the input. */
  lemma ExtendedFromPieces(r: seq<Placement>, best: seq<Placement>, matching: seq<Piece>, nonMatching: seq<Piece>,
                           pieces: seq<Piece>, job: Role)
    requires matching == MatchingPieces(pieces, job) && nonMatching == NonMatchingPieces(pieces, job)
    requires |best| <= |r| && r[..|best|] == best
    requires forall k :: 0 <= k < |best| ==> best[k].piece in pieces
    requires forall k :: |best| <= k < |r| ==> r[k].piece in matching || r[k].piece in nonMatching
    ensures forall k :: 0 <= k < |r| ==> r[k].piece in pieces
  {
    forall k | 0 <= k < |r| ensures r[k].piece in pieces {
      if k < |best| {
        assert r[k] == r[..|best|][k];
      }
    }
  }
}
