/**
 * The strategic optimiser's planning stages: the split of the pieces into
 * those that count for the role and the rest, the per-attribute priority
 * estimate, the target combination built in four stages (the best unique
 * piece, up to 21 cells per role attribute, the attributes taken in order
 * of expected score while cells remain, then a fill of the remaining cells
 * with further role pieces) and the upper bound that prunes the search.
 */
module Strategy {
  import opened Wrappers
  import opened Pieces
  import opened Lists
  import opened Layout
  import opened PageSearch

  /** The cell count that earns the last attribute bonus. */
  const AttributeCap: int := 21

  // ---------------------------------------------------------------------
  // Partition
  // ---------------------------------------------------------------------

  /** The pieces with coordinates that count for the role. */
  function MatchingPieces(pieces: seq<Piece>, job: Role): (r: seq<Piece>)
    ensures forall p :: p in r <==> p in pieces && HasCoords(p) && IsMatching(p, job)
  {
    Filter(Filter(pieces, HasCoords), p => IsMatching(p, job))
  }

  /** A piece that does not count for the role and is not an 8-cell piece. */
  predicate IsLeftOver(p: Piece, job: Role) {
    p.size != 8 && !IsMatching(p, job)
  }

  /** The pieces with coordinates that do not count for the role; 8-cell pieces of other roles are dropped. */
  function NonMatchingPieces(pieces: seq<Piece>, job: Role): (r: seq<Piece>)
    ensures forall p :: p in r <==> p in pieces && HasCoords(p) && IsLeftOver(p, job)
  {
    Filter(Filter(pieces, HasCoords), p => IsLeftOver(p, job))
  }

  /**
   * The two sides share no piece, the second holds no 8-cell piece, and
   * between them they hold every piece with coordinates except the 8-cell
   * pieces of other roles.
   */
  lemma PartitionProperties(pieces: seq<Piece>, job: Role, p: Piece)
    ensures p in NonMatchingPieces(pieces, job) ==> p.size != 8
    ensures !(p in MatchingPieces(pieces, job) && p in NonMatchingPieces(pieces, job))
    ensures p in pieces && HasCoords(p) ==>
              (p in MatchingPieces(pieces, job) || p in NonMatchingPieces(pieces, job) <==>
               p.size != 8 || p.tag == ForRole(job) || p.tag == AllRoles)
  {
  }

  /** With distinct ids on input, the two sides and their concatenation have distinct ids. */
  lemma PartitionDistinct(pieces: seq<Piece>, job: Role)
    requires DistinctIds(pieces)
    ensures DistinctIds(MatchingPieces(pieces, job)) && DistinctIds(NonMatchingPieces(pieces, job))
    ensures DistinctIds(MatchingPieces(pieces, job) + NonMatchingPieces(pieces, job))
  {
    var all := Filter(pieces, HasCoords);
    FilterKeepsDistinct(pieces, HasCoords, PieceId);
    FilterKeepsDistinct(all, p => IsMatching(p, job), PieceId);
    FilterKeepsDistinct(all, p => IsLeftOver(p, job), PieceId);
    var m := MatchingPieces(pieces, job);
    var n := NonMatchingPieces(pieces, job);
    forall x, y | x in m && y in n ensures PieceId(x) != PieceId(y) {
      if PieceId(x) == PieceId(y) {
        SameKeySame(pieces, PieceId, x, y);
      }
    }
    AppendDistinct(m, n, PieceId);
  }

  // ---------------------------------------------------------------------
  // Cell sums and the greedy fill
  // ---------------------------------------------------------------------

  /** Rarity score, then size, both descending. */
  function ScoreKey(p: Piece): Key {
    Key(-RarityScore(p.rarity), -p.size, 0, 0)
  }

  function SizeSum(ps: seq<Piece>): int {
    if |ps| == 0 then 0 else ps[0].size + SizeSum(ps[1..])
  }

  lemma {:induction false} SizeSumAppend(a: seq<Piece>, b: seq<Piece>)
    ensures SizeSum(a + b) == SizeSum(a) + SizeSum(b)
  {
    if |a| > 0 {
      assert (a + b)[1..] == a[1..] + b;
      SizeSumAppend(a[1..], b);
    } else {
      assert a + b == b;
    }
  }

  predicate NonNegativeSizes(ps: seq<Piece>) {
    forall p :: p in ps ==> p.size >= 0
  }

  lemma {:induction false} SizeSumNonNegative(ps: seq<Piece>)
    requires NonNegativeSizes(ps)
    ensures SizeSum(ps) >= 0
  {
    if |ps| > 0 {
      assert ps[0] in ps;
      assert NonNegativeSizes(ps[1..]) by {
        forall p | p in ps[1..] ensures p.size >= 0 {
          assert p in ps;
        }
      }
      SizeSumNonNegative(ps[1..]);
    }
  }

  /**
   * Takes the pieces in order, adding each one whose cells still fit under
   * cap; with stopAtCap, stops as soon as the cap is reached.
   */
  function GreedyFill(ps: seq<Piece>, cells: int, cap: int, stopAtCap: bool): seq<Piece>
    decreases |ps|
  {
    if |ps| == 0 || (stopAtCap && cells >= cap) then []
    else if cells + ps[0].size <= cap then [ps[0]] + GreedyFill(ps[1..], cells + ps[0].size, cap, stopAtCap)
    else GreedyFill(ps[1..], cells, cap, stopAtCap)
  }

  /** Starting under the cap, the filled cells stay under the cap. */
  lemma {:induction false} GreedyFillFits(ps: seq<Piece>, cells: int, cap: int, stopAtCap: bool)
    requires cells <= cap
    ensures cells + SizeSum(GreedyFill(ps, cells, cap, stopAtCap)) <= cap
  {
    if |ps| > 0 && !(stopAtCap && cells >= cap) {
      if cells + ps[0].size <= cap {
        GreedyFillFits(ps[1..], cells + ps[0].size, cap, stopAtCap);
        assert ([ps[0]] + GreedyFill(ps[1..], cells + ps[0].size, cap, stopAtCap))[1..] ==
               GreedyFill(ps[1..], cells + ps[0].size, cap, stopAtCap);
      } else {
        GreedyFillFits(ps[1..], cells, cap, stopAtCap);
      }
    }
  }

  /** The fill takes its pieces from the list, and keeps the ids distinct. */
  lemma {:induction false} GreedyFillFrom(ps: seq<Piece>, cells: int, cap: int, stopAtCap: bool)
    ensures forall p :: p in GreedyFill(ps, cells, cap, stopAtCap) ==> p in ps
    ensures DistinctIds(ps) ==> DistinctIds(GreedyFill(ps, cells, cap, stopAtCap))
  {
    if |ps| > 0 && !(stopAtCap && cells >= cap) {
      var c' := if cells + ps[0].size <= cap then cells + ps[0].size else cells;
      GreedyFillFrom(ps[1..], c', cap, stopAtCap);
      var rest := GreedyFill(ps[1..], c', cap, stopAtCap);
      if DistinctIds(ps) {
        assert DistinctIds(ps[1..]) by {
          FilterKeepsDistinct(ps, p => true, PieceId);
          assert forall i, j :: 0 <= i < j < |ps| - 1 ==> ps[1..][i] == ps[i + 1] && ps[1..][j] == ps[j + 1];
        }
        if cells + ps[0].size <= cap {
          forall x, y | x in [ps[0]] && y in rest ensures PieceId(x) != PieceId(y) {
            var k :| 0 <= k < |ps| - 1 && ps[1..][k] == y;
            assert ps[k + 1] == y;
          }
          AppendDistinct([ps[0]], rest, PieceId);
        }
      }
    }
  }

  /**
   * With sizes that are not negative, a piece the capped fill passed over
   * while it never reached the cap still does not fit on top of the final
   * total.
   */
  lemma {:induction false} GreedyRejected(ps: seq<Piece>, cells: int, cap: int, x: Piece)
    requires NonNegativeSizes(ps)
    requires x in ps && x !in GreedyFill(ps, cells, cap, true)
    requires cells + SizeSum(GreedyFill(ps, cells, cap, true)) < cap
    ensures cells + SizeSum(GreedyFill(ps, cells, cap, true)) + x.size > cap
  {
    var r := GreedyFill(ps, cells, cap, true);
    assert cells < cap;
    assert NonNegativeSizes(ps[1..]) by {
      forall p | p in ps[1..] ensures p.size >= 0 {
        assert p in ps;
      }
    }
    assert ps[0] in ps;
    if cells + ps[0].size <= cap {
      var rest := GreedyFill(ps[1..], cells + ps[0].size, cap, true);
      assert r == [ps[0]] + rest && r[1..] == rest;
      assert x in ps[1..];
      GreedyRejected(ps[1..], cells + ps[0].size, cap, x);
    } else if x == ps[0] {
      GreedyFillFrom(ps[1..], cells, cap, true);
      assert NonNegativeSizes(r);
      SizeSumNonNegative(r);
    } else {
      assert x in ps[1..];
      GreedyRejected(ps[1..], cells, cap, x);
    }
  }

  /** When no piece fits on top of the current total, the fill adds nothing. */
  lemma {:induction false} GreedyNothingFits(ps: seq<Piece>, cells: int, cap: int, stopAtCap: bool)
    requires forall p :: p in ps ==> cells + p.size > cap
    ensures GreedyFill(ps, cells, cap, stopAtCap) == []
  {
    if |ps| > 0 {
      assert ps[0] in ps;
      assert forall p :: p in ps[1..] ==> p in ps;
      GreedyNothingFits(ps[1..], cells, cap, stopAtCap);
    }
  }

  // ---------------------------------------------------------------------
  // Stage 1: the unique piece
  // ---------------------------------------------------------------------

  function UniqueValue(p: Piece): int {
    RarityScore(p.rarity) * p.size
  }

  /** Keeps the first piece whose value is strictly above the best so far. */
  function ScanBest(ps: seq<Piece>, best: int, chosen: Option<Piece>): (int, Option<Piece>)
    decreases |ps|
  {
    if |ps| == 0 then (best, chosen)
    else if UniqueValue(ps[0]) > best then ScanBest(ps[1..], UniqueValue(ps[0]), Some(ps[0]))
    else ScanBest(ps[1..], best, chosen)
  }

  /**
   * The scan either keeps what it started with, or picks the first piece
   * whose value is the largest and beats the starting value; no piece
   * exceeds the final value.
   */
  lemma {:induction false} ScanBestFirstMax(ps: seq<Piece>, best: int, chosen: Option<Piece>)
    ensures ScanBest(ps, best, chosen).0 >= best
    ensures forall p :: p in ps ==> UniqueValue(p) <= ScanBest(ps, best, chosen).0
    ensures ScanBest(ps, best, chosen) == (best, chosen) ||
            exists k :: 0 <= k < |ps| && ScanBest(ps, best, chosen) == (UniqueValue(ps[k]), Some(ps[k])) &&
                        UniqueValue(ps[k]) > best &&
                        forall j :: 0 <= j < k ==> UniqueValue(ps[j]) < UniqueValue(ps[k])
  {
    if |ps| > 0 {
      var r := ScanBest(ps, best, chosen);
      var b' := if UniqueValue(ps[0]) > best then UniqueValue(ps[0]) else best;
      var c' := if UniqueValue(ps[0]) > best then Some(ps[0]) else chosen;
      ScanBestFirstMax(ps[1..], b', c');
      assert r == ScanBest(ps[1..], b', c');
      forall p | p in ps ensures UniqueValue(p) <= r.0 {
        if p != ps[0] {
          assert p in ps[1..];
        }
      }
      if r != (b', c') {
        var k :| 0 <= k < |ps| - 1 && r == (UniqueValue(ps[1..][k]), Some(ps[1..][k])) &&
                 UniqueValue(ps[1..][k]) > b' &&
                 forall j :: 0 <= j < k ==> UniqueValue(ps[1..][j]) < UniqueValue(ps[1..][k]);
        assert ps[k + 1] == ps[1..][k];
        forall j | 0 <= j < k + 1 ensures UniqueValue(ps[j]) < UniqueValue(ps[k + 1]) {
          if j > 0 {
            assert ps[j] == ps[1..][j - 1];
          }
        }
      } else if UniqueValue(ps[0]) > best {
        assert r == (UniqueValue(ps[0]), Some(ps[0]));
      }
    }
  }

  lemma {:induction false} ScanBestAppend(a: seq<Piece>, b: seq<Piece>, best: int, chosen: Option<Piece>)
    ensures ScanBest(a + b, best, chosen) == ScanBest(b, ScanBest(a, best, chosen).0, ScanBest(a, best, chosen).1)
  {
    if |a| > 0 {
      assert (a + b)[1..] == a[1..] + b;
      var b' := if UniqueValue(a[0]) > best then UniqueValue(a[0]) else best;
      var c' := if UniqueValue(a[0]) > best then Some(a[0]) else chosen;
      ScanBestAppend(a[1..], b, b', c');
    } else {
      assert a + b == b;
    }
  }

  /** The 8-cell role pieces: those of the player's role first, then those for all roles. */
  function UniqueCandidates(matching: seq<Piece>, job: Role): seq<Piece> {
    Filter(matching, (p: Piece) => p.size == 8 && p.tag == ForRole(job)) +
    Filter(matching, (p: Piece) => p.size == 8 && p.tag == AllRoles)
  }

  /**
   * Scans the role's own 8-cell pieces, then the all-role ones, keeping the
   * first of strictly largest value: the chosen piece is a candidate, no
   * candidate is worth more, and every candidate before it is worth less.
   */
  method ChooseUnique(matching: seq<Piece>, job: Role) returns (unique: Option<Piece>, uniqueScore: int)
    ensures (uniqueScore, unique) == ScanBest(UniqueCandidates(matching, job), 0, None)
    ensures unique.Some? ==> unique.value in matching && unique.value.size == 8
  {
    var own := Filter(matching, (p: Piece) => p.size == 8 && p.tag == ForRole(job));
    var shared := Filter(matching, (p: Piece) => p.size == 8 && p.tag == AllRoles);
    uniqueScore, unique := 0, None;
    var i := 0;
    while i < |own|
      invariant 0 <= i <= |own|
      invariant ScanBest(own[i..], uniqueScore, unique) == ScanBest(own, 0, None)
    {
      assert own[i..][1..] == own[i + 1..];
      if UniqueValue(own[i]) > uniqueScore {
        uniqueScore, unique := UniqueValue(own[i]), Some(own[i]);
      }
      i := i + 1;
    }
    i := 0;
    while i < |shared|
      invariant 0 <= i <= |shared|
      invariant ScanBest(shared[i..], uniqueScore, unique) == ScanBest(shared, ScanBest(own, 0, None).0, ScanBest(own, 0, None).1)
    {
      assert shared[i..][1..] == shared[i + 1..];
      if UniqueValue(shared[i]) > uniqueScore {
        uniqueScore, unique := UniqueValue(shared[i]), Some(shared[i]);
      }
      i := i + 1;
    }
    ScanBestAppend(own, shared, 0, None);
    ScanBestFirstMax(own + shared, 0, None);
  }

  // ---------------------------------------------------------------------
  // Per-attribute priority estimate
  // ---------------------------------------------------------------------

  /** The role pieces of 1..5 cells carrying attribute a, by rarity score then size. */
  function AttributePieces(matching: seq<Piece>, a: Attribute, usedIds: set<int>): seq<Piece> {
    SortBy(Filter(matching, (p: Piece) => p.size <= 5 && p.tag == Attr(a) && p.id !in usedIds), ScoreKey)
  }

  /** Counts cells up to the cap, taking only the part of the last piece that fits. */
  function CappedCells(ps: seq<Piece>, cells: int): int
    decreases |ps|
  {
    if |ps| == 0 || cells >= AttributeCap then cells
    else CappedCells(ps[1..], cells + Min(ps[0].size, AttributeCap - cells))
  }

  function CappedScore(ps: seq<Piece>, cells: int): int
    decreases |ps|
  {
    if |ps| == 0 || cells >= AttributeCap then 0
    else
      var add := Min(ps[0].size, AttributeCap - cells);
      RarityScore(ps[0].rarity) * add + CappedScore(ps[1..], cells + add)
  }

  /** With sizes that are not negative, the capped count is the total size, cut at the cap. */
  lemma {:induction false} CappedCellsIsMin(ps: seq<Piece>, cells: int)
    requires NonNegativeSizes(ps) && cells <= AttributeCap
    ensures CappedCells(ps, cells) == Min(AttributeCap, cells + SizeSum(ps))
  {
    SizeSumNonNegative(ps);
    if |ps| > 0 && cells < AttributeCap {
      assert ps[0] in ps;
      assert NonNegativeSizes(ps[1..]) by {
        forall p | p in ps[1..] ensures p.size >= 0 {
          assert p in ps;
        }
      }
      CappedCellsIsMin(ps[1..], cells + Min(ps[0].size, AttributeCap - cells));
      SizeSumNonNegative(ps[1..]);
    }
  }

  datatype Priority = Priority(totalScore: int, totalCells: int, pieces: seq<Piece>)

  /** The bonus as the source's chain of conditions, from the highest threshold down. */
  function ChainBonus(cells: int): (b: int)
    ensures b == ThresholdBonus(cells)
  {
    if cells >= 21 then 265 * 5
    else if cells >= 18 then 265 * 4
    else if cells >= 15 then 265 * 3
    else if cells >= 12 then 265 * 2
    else if cells >= 9 then 265
    else 0
  }

  /**
   * The estimate for one attribute: its pieces counted up to 21 cells
   * (the last one in part), their score, plus the threshold bonus.
   */
  method AttributePriority(matching: seq<Piece>, a: Attribute) returns (info: Priority)
    ensures info.pieces == AttributePieces(matching, a, {})
    ensures info.totalCells == CappedCells(info.pieces, 0) <= AttributeCap
    ensures info.totalScore == CappedScore(info.pieces, 0) + ThresholdBonus(info.totalCells)
  {
    var attrPieces := AttributePieces(matching, a, {});
    var totalCells := 0;
    var totalScore := 0;
    var i := 0;
    while i < |attrPieces|
      invariant 0 <= i <= |attrPieces|
      invariant totalCells <= AttributeCap
      invariant CappedCells(attrPieces[i..], totalCells) == CappedCells(attrPieces, 0)
      invariant totalScore + CappedScore(attrPieces[i..], totalCells) == CappedScore(attrPieces, 0)
    {
      if totalCells >= AttributeCap {
        break;
      }
      assert attrPieces[i..][1..] == attrPieces[i + 1..];
      var cellsToAdd := Min(attrPieces[i].size, AttributeCap - totalCells);
      totalCells := totalCells + cellsToAdd;
      totalScore := totalScore + RarityScore(attrPieces[i].rarity) * cellsToAdd;
      i := i + 1;
    }
    var bonusScore := 0;
    if totalCells >= 9 { bonusScore := bonusScore + 265; }
    if totalCells >= 12 { bonusScore := bonusScore + 265; }
    if totalCells >= 15 { bonusScore := bonusScore + 265; }
    if totalCells >= 18 { bonusScore := bonusScore + 265; }
    if totalCells >= 21 { bonusScore := bonusScore + 265; }
    FiveThresholds(totalCells);
    info := Priority(totalScore + bonusScore, totalCells, attrPieces);
  }

  // ---------------------------------------------------------------------
  // Stage 2: up to 21 cells per role attribute
  // ---------------------------------------------------------------------

  datatype AttrInfo = AttrInfo(attr: Attribute, totalScore: int, baseScore: int, bonusScore: int,
                               cells: int, pieces: seq<Piece>, highRarityCells: int)

  function InfoAttr(info: AttrInfo): Attribute {
    info.attr
  }

  function IdSet(ps: seq<Piece>): set<int> {
    set p | p in ps :: p.id
  }

  predicate IsHighRarity(p: Piece) {
    p.rarity == SuperEpic || p.rarity == Unique
  }

  /** The cells of super-epic and unique pieces. */
  function HighCells(ps: seq<Piece>): int {
    if |ps| == 0 then 0
    else HighCells(ps[..|ps| - 1]) + (if IsHighRarity(ps[|ps| - 1]) then ps[|ps| - 1].size else 0)
  }

  /** The test that a piece's id is not among ids. */
  function IdNotIn(ids: set<int>): Piece -> bool {
    (p: Piece) => PieceId(p) !in ids
  }

  /**
   * The pieces chosen for one attribute: a first pass that adds what fits
   * under 21 cells and stops once 21 are reached, then, short of 21, a
   * second pass over the pieces the first did not take.
   */
  function TwoPassFill(attrPieces: seq<Piece>): seq<Piece> {
    var first := GreedyFill(attrPieces, 0, AttributeCap, true);
    if SizeSum(first) < AttributeCap then
      first + GreedyFill(Filter(attrPieces, IdNotIn(IdSet(first))), SizeSum(first), AttributeCap, false)
    else first
  }

  /**
   * The two passes stay under 21 cells and take distinct pieces of the
   * list; with sizes that are not negative, the second pass adds nothing.
   */
  lemma TwoPassProperties(attrPieces: seq<Piece>)
    ensures SizeSum(TwoPassFill(attrPieces)) <= AttributeCap
    ensures forall p :: p in TwoPassFill(attrPieces) ==> p in attrPieces
    ensures DistinctIds(attrPieces) ==> DistinctIds(TwoPassFill(attrPieces))
    ensures NonNegativeSizes(attrPieces) ==> TwoPassFill(attrPieces) == GreedyFill(attrPieces, 0, AttributeCap, true)
  {
    var first := GreedyFill(attrPieces, 0, AttributeCap, true);
    GreedyFillFits(attrPieces, 0, AttributeCap, true);
    GreedyFillFrom(attrPieces, 0, AttributeCap, true);
    if SizeSum(first) < AttributeCap {
      var rest := Filter(attrPieces, IdNotIn(IdSet(first)));
      var second := GreedyFill(rest, SizeSum(first), AttributeCap, false);
      GreedyFillFits(rest, SizeSum(first), AttributeCap, false);
      GreedyFillFrom(rest, SizeSum(first), AttributeCap, false);
      SizeSumAppend(first, second);
      if DistinctIds(attrPieces) {
        FilterKeepsDistinct(attrPieces, IdNotIn(IdSet(first)), PieceId);
        forall x, y | x in first && y in second ensures PieceId(x) != PieceId(y) {
          assert PieceId(x) in IdSet(first);
        }
        AppendDistinct(first, second, PieceId);
      }
      if NonNegativeSizes(attrPieces) {
        forall p | p in rest ensures SizeSum(first) + p.size > AttributeCap {
          assert p !in first by {
            assert PieceId(p) !in IdSet(first);
            assert forall q :: q in first ==> PieceId(q) in IdSet(first);
          }
          GreedyRejected(attrPieces, 0, AttributeCap, p);
        }
        GreedyNothingFits(rest, SizeSum(first), AttributeCap, false);
        assert first + [] == first;
      }
    }
  }

  /** What the source records for one attribute, computed from its pieces. */
  ghost predicate InfoFor(info: AttrInfo, matching: seq<Piece>, a: Attribute, usedIds: set<int>) {
    && info.attr == a
    && info.pieces == TwoPassFill(AttributePieces(matching, a, usedIds))
    && info.cells == SizeSum(info.pieces)
    && info.baseScore == BaseScore(info.pieces)
    && info.bonusScore == ThresholdBonus(info.cells)
    && info.totalScore == info.baseScore + info.bonusScore
    && info.highRarityCells == HighCells(info.pieces)
  }

  /**
   * The facts the later stages rely on: at most 21 cells, all pieces role
   * pieces of this attribute, none already used, ids distinct.
   */
  ghost predicate WellChosen(info: AttrInfo, matching: seq<Piece>, usedIds: set<int>) {
    && info.cells == SizeSum(info.pieces) <= AttributeCap
    && (forall p :: p in info.pieces ==> p in matching && p.tag == Attr(info.attr) && p.size <= 5 && p.id !in usedIds)
    && (DistinctIds(matching) ==> DistinctIds(info.pieces))
  }

  lemma InfoIsWellChosen(info: AttrInfo, matching: seq<Piece>, a: Attribute, usedIds: set<int>)
    requires InfoFor(info, matching, a, usedIds)
    ensures WellChosen(info, matching, usedIds)
  {
    var candidates := Filter(matching, (p: Piece) => p.size <= 5 && p.tag == Attr(a) && p.id !in usedIds);
    var attrPieces := AttributePieces(matching, a, usedIds);
    TwoPassProperties(attrPieces);
    forall p | p in info.pieces ensures p in matching && p.tag == Attr(a) && p.size <= 5 && p.id !in usedIds {
      SortByMembership(candidates, ScoreKey, p);
    }
    if DistinctIds(matching) {
      FilterKeepsDistinct(matching, (p: Piece) => p.size <= 5 && p.tag == Attr(a) && p.id !in usedIds, PieceId);
      SortByKeepsDistinct(candidates, ScoreKey, PieceId);
    }
  }

  /**
   * The target for one attribute: its unused role pieces by rarity score
   * and size, filled up to 21 cells in two passes, with base score, bonus
   * and super-epic-or-better cells.
   */
  method AttributeTarget(matching: seq<Piece>, a: Attribute, usedIds: set<int>) returns (info: AttrInfo)
    ensures InfoFor(info, matching, a, usedIds)
    ensures WellChosen(info, matching, usedIds)
  {
    var attrPieces := AttributePieces(matching, a, usedIds);
    var chosen, cells, baseScore, highRarityCells := FillPass(attrPieces, [], 0, 0, 0, true);
    ghost var first := GreedyFill(attrPieces, 0, AttributeCap, true);
    assert chosen == first by {
      assert [] + first == first;
    }
    if cells < AttributeCap {
      var usedHere := IdSet(chosen);
      var remaining := Filter(attrPieces, IdNotIn(usedHere));
      chosen, cells, baseScore, highRarityCells := FillPass(remaining, chosen, cells, baseScore, highRarityCells, false);
    }
    assert chosen == TwoPassFill(attrPieces);
    var bonusScore := ChainBonus(cells);
    info := AttrInfo(a, baseScore + bonusScore, baseScore, bonusScore, cells, chosen, highRarityCells);
    InfoIsWellChosen(info, matching, a, usedIds);
  }

  /**
   * One pass over the attribute's pieces: each piece that still fits under
   * 21 cells is added, with its score and its super-epic-or-better cells;
   * with stopAtCap the pass ends once 21 cells are reached.
   */
  method FillPass(ps: seq<Piece>, chosen0: seq<Piece>, cells0: int, base0: int, high0: int, stopAtCap: bool)
    returns (chosen: seq<Piece>, cells: int, baseScore: int, highRarityCells: int)
    requires cells0 == SizeSum(chosen0) && base0 == BaseScore(chosen0) && high0 == HighCells(chosen0)
    ensures chosen == chosen0 + GreedyFill(ps, cells0, AttributeCap, stopAtCap)
    ensures cells == SizeSum(chosen) && baseScore == BaseScore(chosen) && highRarityCells == HighCells(chosen)
  {
    chosen, cells, baseScore, highRarityCells := chosen0, cells0, base0, high0;
    var i := 0;
    while i < |ps|
      invariant 0 <= i <= |ps|
      invariant chosen + GreedyFill(ps[i..], cells, AttributeCap, stopAtCap) == chosen0 + GreedyFill(ps, cells0, AttributeCap, stopAtCap)
      invariant cells == SizeSum(chosen) && baseScore == BaseScore(chosen) && highRarityCells == HighCells(chosen)
    {
      if stopAtCap && cells >= AttributeCap {
        break;
      }
      var piece := ps[i];
      FillAdvance(ps, i, chosen, cells, AttributeCap, stopAtCap);
      if cells + piece.size <= AttributeCap {
        ScoreAppend(chosen, piece, Radiance);
        HighCellsSnoc(chosen, piece);
        cells := cells + piece.size;
        baseScore := baseScore + RarityScore(piece.rarity) * piece.size;
        if IsHighRarity(piece) {
          highRarityCells := highRarityCells + piece.size;
        }
        chosen := chosen + [piece];
      }
      i := i + 1;
    }
  }

  /** One step of the fill from position i, when it has not stopped. */
  lemma FillStep(ps: seq<Piece>, i: int, cells: int, cap: int, stopAtCap: bool)
    requires 0 <= i < |ps| && !(stopAtCap && cells >= cap)
    ensures GreedyFill(ps[i..], cells, cap, stopAtCap) ==
              if cells + ps[i].size <= cap then [ps[i]] + GreedyFill(ps[i + 1..], cells + ps[i].size, cap, stopAtCap)
              else GreedyFill(ps[i + 1..], cells, cap, stopAtCap)
  {
    assert ps[i..][1..] == ps[i + 1..];
  }

  /** One step of a fill that has not stopped at the cap: the piece is taken exactly when it fits. */
  lemma FillAdvance(ps: seq<Piece>, i: int, partial: seq<Piece>, cells: int, cap: int, stopAtCap: bool)
    requires 0 <= i < |ps| && cells == SizeSum(partial) && !(stopAtCap && cells >= cap)
    ensures cells + ps[i].size <= cap ==>
              && partial + GreedyFill(ps[i..], cells, cap, stopAtCap) ==
                 (partial + [ps[i]]) + GreedyFill(ps[i + 1..], cells + ps[i].size, cap, stopAtCap)
              && SizeSum(partial + [ps[i]]) == cells + ps[i].size
    ensures cells + ps[i].size > cap ==>
              partial + GreedyFill(ps[i..], cells, cap, stopAtCap) == partial + GreedyFill(ps[i + 1..], cells, cap, stopAtCap)
  {
    FillStep(ps, i, cells, cap, stopAtCap);
    SizeSumAppend(partial, [ps[i]]);
    assert partial + ([ps[i]] + GreedyFill(ps[i + 1..], cells + ps[i].size, cap, stopAtCap)) ==
           (partial + [ps[i]]) + GreedyFill(ps[i + 1..], cells + ps[i].size, cap, stopAtCap);
  }

  /** Appending a piece adds its score and, when it is super epic or better, its cells. */
  lemma HighCellsSnoc(ps: seq<Piece>, p: Piece)
    ensures HighCells(ps + [p]) == HighCells(ps) + (if IsHighRarity(p) then p.size else 0)
  {
    assert (ps + [p])[..|ps|] == ps;
  }

  /** The target of every role attribute, in the role's attribute order. */
  method AttributeTargets(matching: seq<Piece>, job: Role, usedIds: set<int>) returns (infos: seq<AttrInfo>)
    ensures |infos| == |JobAttributes(job)|
    ensures forall k :: 0 <= k < |infos| ==> InfoFor(infos[k], matching, JobAttributes(job)[k], usedIds)
    ensures forall info :: info in infos ==> WellChosen(info, matching, usedIds) && info.attr in JobAttributes(job)
    ensures DistinctBy(infos, InfoAttr)
  {
    var attrs := JobAttributes(job);
    infos := [];
    var i := 0;
    while i < |attrs|
      invariant 0 <= i <= |attrs|
      invariant |infos| == i
      invariant forall k :: 0 <= k < i ==> InfoFor(infos[k], matching, attrs[k], usedIds)
    {
      var info := AttributeTarget(matching, attrs[i], usedIds);
      InfosSnoc(infos, info, matching, attrs, usedIds);
      infos := infos + [info];
      i := i + 1;
    }
    InfosWellChosen(infos, matching, job, usedIds);
    InfosDistinct(infos, matching, job, usedIds);
  }

  /** Appending the next attribute's target keeps the targets in the attributes' order. */
  lemma InfosSnoc(infos: seq<AttrInfo>, info: AttrInfo, matching: seq<Piece>, attrs: seq<Attribute>, usedIds: set<int>)
    requires |infos| < |attrs|
    requires forall k :: 0 <= k < |infos| ==> InfoFor(infos[k], matching, attrs[k], usedIds)
    requires InfoFor(info, matching, attrs[|infos|], usedIds)
    ensures forall k :: 0 <= k < |infos + [info]| ==> InfoFor((infos + [info])[k], matching, attrs[k], usedIds)
  {
    forall k | 0 <= k < |infos + [info]| ensures InfoFor((infos + [info])[k], matching, attrs[k], usedIds) {
      if k < |infos| {
        assert (infos + [info])[k] == infos[k];
      }
    }
  }

  /** Every target built by AttributeTarget is well chosen and belongs to a role attribute. */
  lemma InfosWellChosen(infos: seq<AttrInfo>, matching: seq<Piece>, job: Role, usedIds: set<int>)
    requires |infos| == |JobAttributes(job)|
    requires forall k :: 0 <= k < |infos| ==> InfoFor(infos[k], matching, JobAttributes(job)[k], usedIds)
    ensures forall info :: info in infos ==> WellChosen(info, matching, usedIds) && info.attr in JobAttributes(job)
  {
    forall info | info in infos ensures WellChosen(info, matching, usedIds) && info.attr in JobAttributes(job) {
      var k :| 0 <= k < |infos| && infos[k] == info;
      InfoIsWellChosen(info, matching, JobAttributes(job)[k], usedIds);
    }
  }

  /** One target per role attribute, in order: no attribute has two. */
  lemma InfosDistinct(infos: seq<AttrInfo>, matching: seq<Piece>, job: Role, usedIds: set<int>)
    requires |infos| == |JobAttributes(job)|
    requires forall k :: 0 <= k < |infos| ==> InfoFor(infos[k], matching, JobAttributes(job)[k], usedIds)
    ensures DistinctBy(infos, InfoAttr)
  {
    JobAttributesDistinct(job);
    forall i, j | 0 <= i < j < |infos| ensures InfoAttr(infos[i]) != InfoAttr(infos[j]) {
      assert infos[i].attr == JobAttributes(job)[i] && infos[j].attr == JobAttributes(job)[j];
    }
  }

  lemma JobAttributesDistinct(job: Role)
    ensures forall i, j :: 0 <= i < j < |JobAttributes(job)| ==> JobAttributes(job)[i] != JobAttributes(job)[j]
  {
  }

  // ---------------------------------------------------------------------
  // Stage 3: the attributes in order of expected score
  // ---------------------------------------------------------------------

  /** The first bonus threshold: a partial target must reach it. */
  const MinTargetCells: int := 9

  /** Expected score, then super-epic-or-better cells, both descending. */
  function EfficiencyKey(info: AttrInfo): Key {
    Key(-info.totalScore, -info.highRarityCells, 0, 0)
  }

  /** The target pieces chosen so far and the target cell count per attribute. */
  datatype Plan = Plan(pieces: seq<Piece>, targets: map<Attribute, int>)

  /**
   * Takes the attributes in order. One without pieces is passed over; one
   * whose cells exceed the remaining cells contributes, when at least 9
   * cells remain, the pieces that fit into them, provided they reach 9
   * cells; otherwise all its pieces are taken, and the stage ends once
   * fewer than 9 cells remain.
   */
  function Pursue(infos: seq<AttrInfo>, total: int, plan: Plan): Plan
    decreases |infos|
  {
    if |infos| == 0 then plan
    else
      var info := infos[0];
      var remaining := total - SizeSum(plan.pieces);
      if info.cells == 0 then Pursue(infos[1..], total, plan)
      else if info.cells > remaining then
        var partial := GreedyFill(info.pieces, 0, remaining, false);
        if remaining >= MinTargetCells && SizeSum(partial) >= MinTargetCells then
          Pursue(infos[1..], total, Plan(plan.pieces + partial, plan.targets[info.attr := SizeSum(partial)]))
        else Pursue(infos[1..], total, plan)
      else
        var next := Plan(plan.pieces + info.pieces, plan.targets[info.attr := info.cells]);
        if SizeSum(next.pieces) + MinTargetCells > total then next else Pursue(infos[1..], total, next)
  }

  function IdSetAppend(a: seq<Piece>, b: seq<Piece>): (r: set<int>)
    ensures r == IdSet(a + b) && r == IdSet(a) + IdSet(b)
  {
    assert forall p :: p in a + b <==> p in a || p in b;
    IdSet(a + b)
  }

  /** Appends the block to the target pieces, recording its ids and its cells. */
  method AddPieces(target0: seq<Piece>, ids0: set<int>, used0: int, block: seq<Piece>)
    returns (target: seq<Piece>, ids: set<int>, used: int)
    ensures target == target0 + block
    ensures ids == ids0 + IdSet(block)
    ensures used == used0 + SizeSum(block)
  {
    target, ids, used := target0, ids0, used0;
    var i := 0;
    while i < |block|
      invariant 0 <= i <= |block|
      invariant target == target0 + block[..i]
      invariant ids == ids0 + IdSet(block[..i])
      invariant used == used0 + SizeSum(block[..i])
    {
      var piece := block[i];
      assert block[..i + 1] == block[..i] + [piece];
      SizeSumAppend(block[..i], [piece]);
      assert SizeSum([piece]) == piece.size by {
        assert [piece][1..] == [];
      }
      ghost var r := IdSetAppend(block[..i], [piece]);
      target := target + [piece];
      ids := ids + {piece.id};
      used := used + piece.size;
      i := i + 1;
    }
    assert block[..i] == block;
  }

  /** The pieces, in order, that fit into cap cells, and their cells. */
  method PartialFill(ps: seq<Piece>, cap: int) returns (partial: seq<Piece>, partialCells: int)
    ensures partial == GreedyFill(ps, 0, cap, false)
    ensures partialCells == SizeSum(partial)
  {
    partial, partialCells := [], 0;
    var i := 0;
    while i < |ps|
      invariant 0 <= i <= |ps|
      invariant partial + GreedyFill(ps[i..], partialCells, cap, false) == GreedyFill(ps, 0, cap, false)
      invariant partialCells == SizeSum(partial)
    {
      var piece := ps[i];
      FillAdvance(ps, i, partial, partialCells, cap, false);
      if partialCells + piece.size <= cap {
        partial := partial + [piece];
        partialCells := partialCells + piece.size;
      }
      i := i + 1;
    }
    assert partial + [] == partial;
  }

  /**
   * Stage 3 as the source runs it: the target pieces, ids and cell total
   * after going through the attributes in order, and the target per attribute.
   */
  method PursueTargets(sorted: seq<AttrInfo>, total: int, target0: seq<Piece>, ids0: set<int>, used0: int)
    returns (target: seq<Piece>, ids: set<int>, used: int, targets: map<Attribute, int>)
    requires used0 == SizeSum(target0) && ids0 == IdSet(target0)
    ensures Plan(target, targets) == Pursue(sorted, total, Plan(target0, map[]))
    ensures used == SizeSum(target) && ids == IdSet(target)
  {
    target, ids, used, targets := target0, ids0, used0, map[];
    var i := 0;
    while i < |sorted|
      invariant 0 <= i <= |sorted|
      invariant Pursue(sorted[i..], total, Plan(target, targets)) == Pursue(sorted, total, Plan(target0, map[]))
      invariant used == SizeSum(target) && ids == IdSet(target)
    {
      var info := sorted[i];
      assert sorted[i..][1..] == sorted[i + 1..];
      var remaining := total - used;
      if info.cells == 0 {
        // no pieces for this attribute
      } else if info.cells > remaining {
        if remaining >= MinTargetCells {
          var partial, partialCells := PartialFill(info.pieces, remaining);
          if partialCells >= MinTargetCells {
            targets := targets[info.attr := partialCells];
            ghost var r := IdSetAppend(target, partial);
            SizeSumAppend(target, partial);
            target, ids, used := AddPieces(target, ids, used, partial);
          }
        }
      } else {
        targets := targets[info.attr := info.cells];
        ghost var r := IdSetAppend(target, info.pieces);
        SizeSumAppend(target, info.pieces);
        target, ids, used := AddPieces(target, ids, used, info.pieces);
        if used + MinTargetCells > total {
          break;
        }
      }
      i := i + 1;
    }
  }

  /** Stage 3 only appends and stays within the open cells. */
  lemma {:induction false} PursueBounds(infos: seq<AttrInfo>, total: int, plan: Plan)
    requires forall info :: info in infos ==> info.cells == SizeSum(info.pieces)
    ensures var r := Pursue(infos, total, plan);
            && plan.pieces <= r.pieces
            && SizeSum(r.pieces) <= Max(total, SizeSum(plan.pieces))
    decreases |infos|
  {
    if |infos| > 0 {
      var info := infos[0];
      assert info in infos;
      assert forall i :: i in infos[1..] ==> i in infos;
      var remaining := total - SizeSum(plan.pieces);
      if info.cells == 0 {
        PursueBounds(infos[1..], total, plan);
      } else if info.cells > remaining {
        var partial := GreedyFill(info.pieces, 0, remaining, false);
        if remaining >= MinTargetCells && SizeSum(partial) >= MinTargetCells {
          var next := Plan(plan.pieces + partial, plan.targets[info.attr := SizeSum(partial)]);
          GreedyFillFits(info.pieces, 0, remaining, false);
          PursueBounds(infos[1..], total, next);
          ExtendWithin(plan.pieces, partial, Pursue(infos[1..], total, next).pieces, total);
        } else {
          PursueBounds(infos[1..], total, plan);
        }
      } else {
        var next := Plan(plan.pieces + info.pieces, plan.targets[info.attr := info.cells]);
        if SizeSum(next.pieces) + MinTargetCells <= total {
          PursueBounds(infos[1..], total, next);
          ExtendWithin(plan.pieces, info.pieces, Pursue(infos[1..], total, next).pieces, total);
        } else {
          ExtendWithin(plan.pieces, info.pieces, next.pieces, total);
        }
      }
    }
  }

  /** Extending the plan with pieces that fit the open cells, then with more that stay within them. */
  lemma ExtendWithin(pieces: seq<Piece>, extra: seq<Piece>, r: seq<Piece>, total: int)
    requires SizeSum(pieces) + SizeSum(extra) <= total
    requires pieces + extra <= r && SizeSum(r) <= Max(total, SizeSum(pieces + extra))
    ensures pieces <= r && SizeSum(r) <= Max(total, SizeSum(pieces))
  {
    SizeSumAppend(pieces, extra);
    assert pieces <= pieces + extra;
  }

  /** Stage 3 takes its pieces from the attributes' targets. */
  lemma {:induction false} PursueSources(infos: seq<AttrInfo>, total: int, plan: Plan)
    ensures var r := Pursue(infos, total, plan);
            forall p :: p in r.pieces ==> p in plan.pieces || exists info :: info in infos && p in info.pieces
    decreases |infos|
  {
    if |infos| > 0 {
      var info := infos[0];
      assert info in infos;
      assert forall i :: i in infos[1..] ==> i in infos;
      var remaining := total - SizeSum(plan.pieces);
      if info.cells == 0 {
        PursueSources(infos[1..], total, plan);
      } else if info.cells > remaining {
        var partial := GreedyFill(info.pieces, 0, remaining, false);
        if remaining >= MinTargetCells && SizeSum(partial) >= MinTargetCells {
          var next := Plan(plan.pieces + partial, plan.targets[info.attr := SizeSum(partial)]);
          GreedyFillFrom(info.pieces, 0, remaining, false);
          assert forall p :: p in next.pieces ==> p in plan.pieces || p in partial;
          PursueSources(infos[1..], total, next);
        } else {
          PursueSources(infos[1..], total, plan);
        }
      } else {
        var next := Plan(plan.pieces + info.pieces, plan.targets[info.attr := info.cells]);
        assert forall p :: p in next.pieces ==> p in plan.pieces || p in info.pieces;
        if SizeSum(next.pieces) + MinTargetCells <= total {
          PursueSources(infos[1..], total, next);
        }
      }
    }
  }

  /** Stage 3 sets targets only for the attributes it goes through, and at most 21 cells each. */
  lemma {:induction false} PursueTargetCells(infos: seq<AttrInfo>, total: int, plan: Plan)
    requires forall info :: info in infos ==> info.cells == SizeSum(info.pieces) <= AttributeCap
    ensures var r := Pursue(infos, total, plan);
            && (forall a :: a in r.targets ==> a in plan.targets || exists info :: info in infos && info.attr == a)
            && (forall a :: a in r.targets ==> (a in plan.targets && r.targets[a] == plan.targets[a]) || r.targets[a] <= AttributeCap)
    decreases |infos|
  {
    if |infos| > 0 {
      var info := infos[0];
      assert info in infos;
      assert forall i :: i in infos[1..] ==> i in infos;
      var remaining := total - SizeSum(plan.pieces);
      if info.cells == 0 {
        PursueTargetCells(infos[1..], total, plan);
      } else if info.cells > remaining {
        var partial := GreedyFill(info.pieces, 0, remaining, false);
        if remaining >= MinTargetCells && SizeSum(partial) >= MinTargetCells {
          var next := Plan(plan.pieces + partial, plan.targets[info.attr := SizeSum(partial)]);
          GreedyFillFits(info.pieces, 0, remaining, false);
          PursueTargetCells(infos[1..], total, next);
        } else {
          PursueTargetCells(infos[1..], total, plan);
        }
      } else {
        var next := Plan(plan.pieces + info.pieces, plan.targets[info.attr := info.cells]);
        if SizeSum(next.pieces) + MinTargetCells <= total {
          PursueTargetCells(infos[1..], total, next);
        }
      }
    }
  }

  /** The pieces of one attribute's target. */
  ghost predicate PiecesOfAttr(info: AttrInfo, matching: seq<Piece>) {
    forall p :: p in info.pieces ==> p in matching && p.tag == Attr(info.attr)
  }

  /**
   * With distinct ids among the role pieces, the targets of distinct
   * attributes share no piece, so stage 3 keeps the target ids distinct.
   */
  lemma {:induction false} PursueDistinct(infos: seq<AttrInfo>, total: int, plan: Plan, matching: seq<Piece>)
    requires DistinctIds(matching) && DistinctBy(infos, InfoAttr)
    requires forall info :: info in infos ==> PiecesOfAttr(info, matching) && DistinctIds(info.pieces)
    requires DistinctIds(plan.pieces)
    requires forall info, p, q :: info in infos && p in plan.pieces && q in info.pieces ==> p.id != q.id
    ensures DistinctIds(Pursue(infos, total, plan).pieces)
    decreases |infos|
  {
    if |infos| > 0 {
      var info := infos[0];
      var rest := infos[1..];
      assert forall i :: i in rest ==> i in infos;
      var remaining := total - SizeSum(plan.pieces);
      var partial := GreedyFill(info.pieces, 0, remaining, false);
      GreedyFillFrom(info.pieces, 0, remaining, false);
      assert DistinctBy(rest, InfoAttr) by {
        forall i, j | 0 <= i < j < |rest| ensures InfoAttr(rest[i]) != InfoAttr(rest[j]) {
          assert rest[i] == infos[i + 1] && rest[j] == infos[j + 1];
        }
      }
      if info.cells == 0 {
        PursueDistinct(rest, total, plan, matching);
      } else if info.cells > remaining {
        if remaining >= MinTargetCells && SizeSum(partial) >= MinTargetCells {
          AddBlock(infos, plan.pieces, partial, matching);
          PursueDistinct(rest, total, Plan(plan.pieces + partial, plan.targets[info.attr := SizeSum(partial)]), matching);
        } else {
          PursueDistinct(rest, total, plan, matching);
        }
      } else {
        AddBlock(infos, plan.pieces, info.pieces, matching);
        var next := Plan(plan.pieces + info.pieces, plan.targets[info.attr := info.cells]);
        if SizeSum(next.pieces) + MinTargetCells <= total {
          PursueDistinct(rest, total, next, matching);
        }
      }
    }
  }

  /**
   * Adding a block of the first attribute's pieces keeps the target ids
   * distinct, and keeps them apart from the pieces of the later attributes.
   */
  lemma AddBlock(infos: seq<AttrInfo>, pieces: seq<Piece>, block: seq<Piece>, matching: seq<Piece>)
    requires |infos| > 0 && DistinctIds(matching) && DistinctBy(infos, InfoAttr)
    requires forall info :: info in infos ==> PiecesOfAttr(info, matching)
    requires DistinctIds(pieces) && DistinctIds(block)
    requires forall p :: p in block ==> p in infos[0].pieces
    requires forall info, p, q :: info in infos && p in pieces && q in info.pieces ==> p.id != q.id
    ensures DistinctIds(pieces + block)
    ensures forall info, p, q :: info in infos[1..] && p in pieces + block && q in info.pieces ==> p.id != q.id
  {
    assert infos[0] in infos;
    forall x, y | x in pieces && y in block ensures PieceId(x) != PieceId(y) {
    }
    AppendDistinct(pieces, block, PieceId);
    forall info, p, q | info in infos[1..] && p in pieces + block && q in info.pieces ensures p.id != q.id {
      var j :| 0 <= j < |infos| - 1 && infos[1..][j] == info;
      assert infos[j + 1] == info && info in infos;
      if p in block {
        assert InfoAttr(infos[0]) != InfoAttr(infos[j + 1]);
        assert p.tag != q.tag;
        DifferentKeys(matching, PieceId, p, q);
      }
    }
  }

  // ---------------------------------------------------------------------
  // Stage 4: the remaining cells
  // ---------------------------------------------------------------------

  /** No target is raised above this cell count by stage 4. */
  const RaisedTargetCap: int := 30

  /** The role pieces not yet in the target, by rarity score then size. */
  function UnusedRolePieces(matching: seq<Piece>, ids: set<int>): seq<Piece> {
    SortBy(Filter(matching, IdNotIn(ids)), ScoreKey)
  }

  /** A 1..5-cell piece raises its attribute's target, if it has one, by its size up to 30. */
  function Raise(targets: map<Attribute, int>, p: Piece): map<Attribute, int> {
    if p.size <= 5 && p.tag.Attr? && p.tag.attribute in targets
    then targets[p.tag.attribute := Min(targets[p.tag.attribute] + p.size, RaisedTargetCap)]
    else targets
  }

  function RaiseAll(targets: map<Attribute, int>, ps: seq<Piece>): map<Attribute, int> {
    if |ps| == 0 then targets else Raise(RaiseAll(targets, ps[..|ps| - 1]), ps[|ps| - 1])
  }

  lemma RaiseAllSnoc(targets: map<Attribute, int>, ps: seq<Piece>, p: Piece)
    ensures RaiseAll(targets, ps + [p]) == Raise(RaiseAll(targets, ps), p)
  {
    assert (ps + [p])[..|ps|] == ps;
  }

  /**
   * Raising keeps the attributes that have a target, never lowers a target
   * of at most 30, and never lifts one past 30.
   */
  lemma {:induction false} RaiseAllProperties(targets: map<Attribute, int>, ps: seq<Piece>)
    ensures forall a :: a in RaiseAll(targets, ps) <==> a in targets
    ensures forall a :: a in targets ==> RaiseAll(targets, ps)[a] <= Max(targets[a], RaisedTargetCap)
    ensures NonNegativeSizes(ps) ==>
              forall a :: a in targets && targets[a] <= RaisedTargetCap ==> RaiseAll(targets, ps)[a] >= targets[a]
  {
    if |ps| > 0 {
      var init := ps[..|ps| - 1];
      RaiseAllProperties(targets, init);
      assert NonNegativeSizes(ps) ==> NonNegativeSizes(init) && ps[|ps| - 1].size >= 0 by {
        assert forall p :: p in init ==> p in ps;
        assert ps[|ps| - 1] in ps;
      }
    }
  }

  /**
   * Fills the remaining cells with the unused role pieces, best first,
   * passing over any piece that no longer fits, and raises the attribute
   * targets by the pieces added.
   */
  method FillRemaining(matching: seq<Piece>, ids: set<int>, remaining: int, targets0: map<Attribute, int>)
    returns (added: seq<Piece>, targets: map<Attribute, int>)
    ensures added == GreedyFill(UnusedRolePieces(matching, ids), 0, remaining, false)
    ensures targets == RaiseAll(targets0, added)
  {
    var unused := SortBy(Filter(matching, IdNotIn(ids)), ScoreKey);
    added, targets := FillAndRaise(unused, remaining, targets0);
  }

  /** The greedy fill of the remaining cells, raising the targets piece by piece. */
  method FillAndRaise(unused: seq<Piece>, remaining: int, targets0: map<Attribute, int>)
    returns (added: seq<Piece>, targets: map<Attribute, int>)
    ensures added == GreedyFill(unused, 0, remaining, false)
    ensures targets == RaiseAll(targets0, added)
  {
    added, targets := [], targets0;
    var filled := 0;
    var i := 0;
    while i < |unused|
      invariant 0 <= i <= |unused|
      invariant added + GreedyFill(unused[i..], filled, remaining, false) == GreedyFill(unused, 0, remaining, false)
      invariant filled == SizeSum(added)
      invariant targets == RaiseAll(targets0, added)
    {
      var piece := unused[i];
      FillAdvance(unused, i, added, filled, remaining, false);
      if filled + piece.size > remaining {
        // does not fit any more
      } else {
        RaiseAllSnoc(targets0, added, piece);
        added := added + [piece];
        filled := filled + piece.size;
        targets := RaiseTarget(targets, piece);
      }
      i := i + 1;
    }
    assert added + [] == added;
  }

  /** Raises the target of the piece's attribute, when it has one, by the piece's cells, up to 30. */
  method RaiseTarget(targets0: map<Attribute, int>, piece: Piece) returns (targets: map<Attribute, int>)
    ensures targets == Raise(targets0, piece)
  {
    targets := targets0;
    if piece.size <= 5 && piece.tag.Attr? {
      var attr := piece.tag.attribute;
      if attr in targets {
        targets := targets[attr := Min(targets[attr] + piece.size, RaisedTargetCap)];
      }
    }
  }

  // ---------------------------------------------------------------------
  // The strategy
  // ---------------------------------------------------------------------

  /**
   * The target combination (the unique piece first), the chosen unique
   * piece, the target cell count per attribute, and the pieces stage 4 added.
   */
  datatype Strategy = Strategy(targetPieces: seq<Piece>, uniquePiece: Option<Piece>,
                               attributeTargets: map<Attribute, int>, remainingPieces: seq<Piece>)

  /**
   * The four planning stages. The target takes only role pieces, none
   * twice when their ids are distinct, starts with the best unique piece,
   * needs no more cells than are open (beyond the unique piece itself),
   * and sets targets of at most 30 cells for role attributes only.
   */
  method CalculateOptimalStrategy(matching: seq<Piece>, job: Role, totalOpen: int) returns (s: Strategy)
    ensures s.uniquePiece == ScanBest(UniqueCandidates(matching, job), 0, None).1
    ensures s.uniquePiece.Some? ==> |s.targetPieces| > 0 && s.targetPieces[0] == s.uniquePiece.value
    ensures forall p :: p in s.targetPieces ==> p in matching
    ensures DistinctIds(matching) ==> DistinctIds(s.targetPieces)
    ensures SizeSum(s.targetPieces) <= Max(totalOpen, if s.uniquePiece.Some? then 8 else 0)
    ensures forall a :: a in s.attributeTargets ==> a in JobAttributes(job) && s.attributeTargets[a] <= RaisedTargetCap
    ensures |s.remainingPieces| <= |s.targetPieces|
    ensures s.targetPieces[|s.targetPieces| - |s.remainingPieces|..] == s.remainingPieces
  {
    var unique, target0, ids0, used0 := StageOne(matching, job);
    var target, targets, rest := PlanAttributes(matching, job, totalOpen, target0, ids0, used0);
    s := Strategy(target, unique, targets, rest);
  }

  /** Stage 1: the best unique piece, if any, starts the target and takes 8 cells. */
  method StageOne(matching: seq<Piece>, job: Role)
    returns (unique: Option<Piece>, target: seq<Piece>, ids: set<int>, used: int)
    ensures unique == ScanBest(UniqueCandidates(matching, job), 0, None).1
    ensures unique.None? ==> target == []
    ensures unique.Some? ==> target == [unique.value] && unique.value in matching && unique.value.size == 8
    ensures ids == IdSet(target) && used == SizeSum(target)
  {
    var uniqueScore;
    unique, uniqueScore := ChooseUnique(matching, job);
    target, ids, used := [], {}, 0;
    if unique.Some? {
      target := [unique.value];
      ids := {unique.value.id};
      used := 8;
      assert SizeSum(target) == 8 by {
        assert target[1..] == [];
      }
      assert IdSet(target) == ids by {
        assert forall p :: p in target <==> p == unique.value;
      }
    }
  }

  /**
   * Stages 2 to 4 after the unique piece: the attribute targets, the
   * attributes pursued in order, then the fill of the remaining cells.
   */
  method PlanAttributes(matching: seq<Piece>, job: Role, totalOpen: int, target0: seq<Piece>, ids0: set<int>, used0: int)
    returns (target: seq<Piece>, targets: map<Attribute, int>, rest: seq<Piece>)
    requires target0 == [] || (|target0| == 1 && target0[0] in matching && target0[0].size == 8)
    requires ids0 == IdSet(target0) && used0 == SizeSum(target0)
    ensures target0 <= target
    ensures forall p :: p in target ==> p in matching
    ensures DistinctIds(matching) ==> DistinctIds(target)
    ensures SizeSum(target) <= Max(totalOpen, SizeSum(target0))
    ensures forall a :: a in targets ==> a in JobAttributes(job) && targets[a] <= RaisedTargetCap
    ensures |rest| <= |target| && target[|target| - |rest|..] == rest
  {
    var pursued, ids, used, pursuedTargets := PursueAttributes(matching, job, totalOpen, target0, ids0, used0);
    target, targets, rest := FillCells(matching, totalOpen, pursued, ids, used, pursuedTargets);
    assert target0 <= target by {
      assert target0 == pursued[..|target0|] && pursued == target[..|pursued|];
    }
  }

  /** Stages 2 and 3: the targets per attribute, pursued in order of expected score. */
  method PursueAttributes(matching: seq<Piece>, job: Role, totalOpen: int, target0: seq<Piece>, ids0: set<int>, used0: int)
    returns (target: seq<Piece>, ids: set<int>, used: int, targets: map<Attribute, int>)
    requires target0 == [] || (|target0| == 1 && target0[0] in matching && target0[0].size == 8)
    requires ids0 == IdSet(target0) && used0 == SizeSum(target0)
    ensures ids == IdSet(target) && used == SizeSum(target)
    ensures target0 <= target
    ensures SizeSum(target) <= Max(totalOpen, SizeSum(target0))
    ensures forall p :: p in target ==> p in matching
    ensures DistinctIds(matching) ==> DistinctIds(target)
    ensures forall a :: a in targets ==> a in JobAttributes(job) && targets[a] <= AttributeCap
  {
    var infos := AttributeTargets(matching, job, ids0);
    var sorted := SortBy(infos, EfficiencyKey);
    target, ids, used, targets := PursueTargets(sorted, totalOpen, target0, ids0, used0);
    StageThree(matching, job, infos, totalOpen, target0);
  }

  /** Stage 4: the remaining cells filled with unused role pieces, raising the targets. */
  method FillCells(matching: seq<Piece>, totalOpen: int, target0: seq<Piece>, ids: set<int>, used: int,
                   targets0: map<Attribute, int>)
    returns (target: seq<Piece>, targets: map<Attribute, int>, rest: seq<Piece>)
    requires ids == IdSet(target0) && used == SizeSum(target0)
    requires forall p :: p in target0 ==> p in matching
    requires forall a :: a in targets0 ==> targets0[a] <= AttributeCap
    ensures target == target0 + rest
    ensures forall p :: p in target ==> p in matching
    ensures DistinctIds(matching) && DistinctIds(target0) ==> DistinctIds(target)
    ensures SizeSum(target) <= Max(totalOpen, SizeSum(target0))
    ensures forall a :: a in targets <==> a in targets0
    ensures forall a :: a in targets ==> targets[a] <= RaisedTargetCap
  {
    var remaining := totalOpen - used;
    rest, targets := [], targets0;
    if remaining > 0 {
      rest, targets := FillRemaining(matching, ids, remaining, targets0);
      StageFour(matching, target0, remaining, targets0, rest);
    } else {
      assert target0 + rest == target0;
    }
    target := target0 + rest;
  }

  /** What stage 3 guarantees, starting from the unique piece (if any) and the stage-2 targets. */
  lemma StageThree(matching: seq<Piece>, job: Role, infos: seq<AttrInfo>, total: int, target0: seq<Piece>)
    requires target0 == [] || (|target0| == 1 && target0[0] in matching && target0[0].size == 8)
    requires forall info :: info in infos ==> WellChosen(info, matching, IdSet(target0)) && info.attr in JobAttributes(job)
    requires forall info :: info in infos ==> InfoFor(info, matching, info.attr, IdSet(target0))
    requires DistinctBy(infos, InfoAttr)
    ensures var r := Pursue(SortBy(infos, EfficiencyKey), total, Plan(target0, map[]));
            && target0 <= r.pieces
            && SizeSum(r.pieces) <= Max(total, SizeSum(target0))
            && (forall p :: p in r.pieces ==> p in matching)
            && (DistinctIds(matching) ==> DistinctIds(r.pieces))
            && (forall a :: a in r.targets ==> a in JobAttributes(job) && r.targets[a] <= AttributeCap)
  {
    var sorted := SortBy(infos, EfficiencyKey);
    forall info | info in sorted ensures info in infos {
      SortByMembership(infos, EfficiencyKey, info);
    }
    PursueBounds(sorted, total, Plan(target0, map[]));
    PursueSources(sorted, total, Plan(target0, map[]));
    PursueTargetCells(sorted, total, Plan(target0, map[]));
    if DistinctIds(matching) {
      SortByKeepsDistinct(infos, EfficiencyKey, InfoAttr);
      forall info, p, q | info in sorted && p in target0 && q in info.pieces ensures p.id != q.id {
        assert p.id in IdSet(target0);
      }
      PursueDistinct(sorted, total, Plan(target0, map[]), matching);
    }
  }

  /** What stage 4 adds: unused role pieces, within the remaining cells, with ids new to the target. */
  lemma StageFour(matching: seq<Piece>, target: seq<Piece>, remaining: int, targets: map<Attribute, int>,
                  rest: seq<Piece>)
    requires remaining > 0 && rest == GreedyFill(UnusedRolePieces(matching, IdSet(target)), 0, remaining, false)
    requires forall a :: a in targets ==> targets[a] <= AttributeCap
    ensures SizeSum(target + rest) <= SizeSum(target) + remaining
    ensures forall p :: p in rest ==> p in matching && p.id !in IdSet(target)
    ensures DistinctIds(matching) && DistinctIds(target) ==> DistinctIds(target + rest)
    ensures forall a :: a in RaiseAll(targets, rest) <==> a in targets
    ensures forall a :: a in RaiseAll(targets, rest) ==> RaiseAll(targets, rest)[a] <= RaisedTargetCap
  {
    var filtered := Filter(matching, IdNotIn(IdSet(target)));
    var unused := UnusedRolePieces(matching, IdSet(target));
    GreedyFillFits(unused, 0, remaining, false);
    GreedyFillFrom(unused, 0, remaining, false);
    SizeSumAppend(target, rest);
    forall p | p in rest ensures p in matching && p.id !in IdSet(target) {
      SortByMembership(filtered, ScoreKey, p);
    }
    if DistinctIds(matching) && DistinctIds(target) {
      FilterKeepsDistinct(matching, IdNotIn(IdSet(target)), PieceId);
      SortByKeepsDistinct(filtered, ScoreKey, PieceId);
      forall x, y | x in target && y in rest ensures PieceId(x) != PieceId(y) {
        assert x.id in IdSet(target);
      }
      AppendDistinct(target, rest, PieceId);
    }
    RaiseAllProperties(targets, rest);
  }

  // ---------------------------------------------------------------------
  // The upper bound used for pruning
  // ---------------------------------------------------------------------

  /** A missing attribute counts as zero cells. */
  function CountOf(counts: map<Attribute, int>, a: Attribute): int {
    if a in counts then counts[a] else 0
  }

  /**
   * The pieces the estimate takes, in order: a unique piece is passed over
   * once one is counted, and a piece that no longer fits the cells is
   * passed over.
   */
  function EstimatePieces(ps: seq<Piece>, cellsUsed: int, cap: int, uniques: int): seq<Piece>
    decreases |ps|
  {
    if |ps| == 0 then []
    else
      var p := ps[0];
      if p.rarity == Unique && uniques >= 1 then EstimatePieces(ps[1..], cellsUsed, cap, uniques)
      else if cellsUsed + p.size > cap then EstimatePieces(ps[1..], cellsUsed, cap, uniques)
      else [p] + EstimatePieces(ps[1..], cellsUsed + p.size, cap, uniques + (if p.rarity == Unique then 1 else 0))
  }

  /** The bonus of the listed attributes on the counts so far plus the estimated pieces. */
  function EstimatedBonus(attrs: seq<Attribute>, counts: map<Attribute, int>, chosen: seq<Piece>): int {
    if |attrs| == 0 then 0
    else
      var a := attrs[|attrs| - 1];
      EstimatedBonus(attrs[..|attrs| - 1], counts, chosen) + ThresholdBonus(CountOf(counts, a) + AttributeCount(chosen, a))
  }

  /**
   * The optimistic estimate: the current score, plus the points of the
   * remaining pieces that the estimate takes, plus the bonus of the role
   * attributes on the counts so far and those pieces' cells; with no piece
   * or no cell left, the current score.
   */
  function UpperBoundOf(currentScore: int, remaining: seq<Piece>, remainingCells: int,
                        counts: map<Attribute, int>, usedUnique: int, job: Role): int {
    if |remaining| == 0 || remainingCells <= 0 then currentScore
    else
      var chosen := EstimatePieces(remaining, 0, remainingCells, usedUnique);
      currentScore + BaseScore(chosen) + EstimatedBonus(JobAttributes(job), counts, chosen)
  }

  lemma EstimateAdvance(ps: seq<Piece>, i: int, chosen: seq<Piece>, cellsUsed: int, cap: int, uniques: int)
    requires 0 <= i < |ps|
    ensures var p := ps[i];
            !(p.rarity == Unique && uniques >= 1) && cellsUsed + p.size <= cap ==>
              chosen + EstimatePieces(ps[i..], cellsUsed, cap, uniques) ==
              (chosen + [p]) + EstimatePieces(ps[i + 1..], cellsUsed + p.size, cap,
                                               uniques + (if p.rarity == Unique then 1 else 0))
    ensures var p := ps[i];
            (p.rarity == Unique && uniques >= 1) || cellsUsed + p.size > cap ==>
              chosen + EstimatePieces(ps[i..], cellsUsed, cap, uniques) ==
              chosen + EstimatePieces(ps[i + 1..], cellsUsed, cap, uniques)
  {
    assert ps[i..][1..] == ps[i + 1..];
    var p := ps[i];
    var rest := EstimatePieces(ps[i + 1..], cellsUsed + p.size, cap, uniques + (if p.rarity == Unique then 1 else 0));
    assert chosen + ([p] + rest) == (chosen + [p]) + rest;
  }

  /** The source's upper bound, computed piece by piece and then attribute by attribute. */
  method UpperBound(currentScore: int, remaining: seq<Piece>, remainingCells: int,
                    counts: map<Attribute, int>, usedUnique: int, job: Role) returns (ub: int)
    ensures ub == UpperBoundOf(currentScore, remaining, remainingCells, counts, usedUnique, job)
  {
    if |remaining| == 0 || remainingCells <= 0 {
      return currentScore;
    }
    var estimatedScore, estimatedCounts := EstimateScore(currentScore, remaining, remainingCells, counts, usedUnique, job);
    ghost var chosen := EstimatePieces(remaining, 0, remainingCells, usedUnique);
    var bonusScore := EstimateBonus(estimatedCounts, counts, chosen, job);
    ub := estimatedScore + bonusScore;
  }

  /** The estimate's pass over the role attributes: the threshold bonus on each estimated count. */
  method EstimateBonus(estimatedCounts: map<Attribute, int>, ghost counts: map<Attribute, int>,
                       ghost chosen: seq<Piece>, job: Role) returns (bonusScore: int)
    requires forall a :: a in JobAttributes(job) ==>
               CountOf(estimatedCounts, a) == CountOf(counts, a) + AttributeCount(chosen, a)
    ensures bonusScore == EstimatedBonus(JobAttributes(job), counts, chosen)
  {
    var jobAttributes := JobAttributes(job);
    bonusScore := 0;
    var k := 0;
    while k < |jobAttributes|
      invariant 0 <= k <= |jobAttributes|
      invariant bonusScore == EstimatedBonus(jobAttributes[..k], counts, chosen)
    {
      var attr := jobAttributes[k];
      var count := CountOf(estimatedCounts, attr);
      assert jobAttributes[..k + 1][..k] == jobAttributes[..k];
      bonusScore := bonusScore + ChainBonus(count);
      k := k + 1;
    }
    assert jobAttributes[..k] == jobAttributes;
  }

  /**
   * The estimate's pass over the remaining pieces: the score with the
   * points of the pieces it takes, and the role attribute counts with their cells.
   */
  method EstimateScore(currentScore: int, remaining: seq<Piece>, remainingCells: int,
                       counts: map<Attribute, int>, usedUnique: int, job: Role)
    returns (estimatedScore: int, estimatedCounts: map<Attribute, int>)
    ensures var chosen := EstimatePieces(remaining, 0, remainingCells, usedUnique);
            && estimatedScore == currentScore + BaseScore(chosen)
            && forall a :: a in JobAttributes(job) ==> CountOf(estimatedCounts, a) == CountOf(counts, a) + AttributeCount(chosen, a)
  {
    estimatedScore, estimatedCounts := currentScore, counts;
    var estimatedUnique := usedUnique;
    var cellsUsed := 0;
    ghost var chosen: seq<Piece> := [];
    var i := 0;
    while i < |remaining|
      invariant 0 <= i <= |remaining|
      invariant chosen + EstimatePieces(remaining[i..], cellsUsed, remainingCells, estimatedUnique) ==
                EstimatePieces(remaining, 0, remainingCells, usedUnique)
      invariant estimatedScore == currentScore + BaseScore(chosen)
      invariant forall a :: a in JobAttributes(job) ==> CountOf(estimatedCounts, a) == CountOf(counts, a) + AttributeCount(chosen, a)
    {
      var piece := remaining[i];
      EstimateAdvance(remaining, i, chosen, cellsUsed, remainingCells, estimatedUnique);
      if piece.rarity == Unique && estimatedUnique >= 1 {
        // only one unique piece counts
      } else if cellsUsed + piece.size > remainingCells {
        // does not fit
      } else {
        ScoreAppend(chosen, piece, Radiance);
        estimatedScore := estimatedScore + RarityScore(piece.rarity) * piece.size;
        cellsUsed := cellsUsed + piece.size;
        estimatedCounts := AddAttributeCells(estimatedCounts, counts, chosen, piece, job);
        if piece.rarity == Unique {
          estimatedUnique := estimatedUnique + 1;
        }
        chosen := chosen + [piece];
      }
      i := i + 1;
    }
    assert chosen + [] == chosen;
  }

  /** Adds the piece's cells to its attribute's count when it is a 1..5-cell piece of a role attribute. */
  method AddAttributeCells(estimated0: map<Attribute, int>, ghost counts: map<Attribute, int>, ghost chosen: seq<Piece>,
                           piece: Piece, job: Role)
    returns (estimated: map<Attribute, int>)
    requires forall a :: a in JobAttributes(job) ==> CountOf(estimated0, a) == CountOf(counts, a) + AttributeCount(chosen, a)
    ensures forall a :: a in JobAttributes(job) ==> CountOf(estimated, a) == CountOf(counts, a) + AttributeCount(chosen + [piece], a)
  {
    estimated := estimated0;
    if piece.size <= 5 && piece.tag.Attr? && piece.tag.attribute in JobAttributes(job) {
      var attr := piece.tag.attribute;
      estimated := estimated[attr := CountOf(estimated, attr) + piece.size];
    }
    forall a | a in JobAttributes(job)
      ensures CountOf(estimated, a) == CountOf(counts, a) + AttributeCount(chosen + [piece], a)
    {
      ScoreAppend(chosen, piece, a);
    }
  }

  /** The estimate stays within the cells and counts at most one unique piece, none if one is already placed. */
  lemma {:induction false} EstimateWithin(ps: seq<Piece>, cellsUsed: int, cap: int, uniques: int)
    requires cellsUsed <= cap && uniques >= 0
    ensures var chosen := EstimatePieces(ps, cellsUsed, cap, uniques);
            && cellsUsed + SizeSum(chosen) <= cap
            && (uniques >= 1 ==> forall p :: p in chosen ==> p.rarity != Unique)
            && forall i, j :: 0 <= i < j < |chosen| && chosen[i].rarity == Unique ==> chosen[j].rarity != Unique
    decreases |ps|
  {
    if |ps| > 0 {
      var p := ps[0];
      if p.rarity == Unique && uniques >= 1 {
        EstimateWithin(ps[1..], cellsUsed, cap, uniques);
      } else if cellsUsed + p.size > cap {
        EstimateWithin(ps[1..], cellsUsed, cap, uniques);
      } else {
        var u' := uniques + (if p.rarity == Unique then 1 else 0);
        var rest := EstimatePieces(ps[1..], cellsUsed + p.size, cap, u');
        EstimateWithin(ps[1..], cellsUsed + p.size, cap, u');
        var chosen := [p] + rest;
        assert chosen[1..] == rest;
        forall i, j | 0 <= i < j < |chosen| && chosen[i].rarity == Unique ensures chosen[j].rarity != Unique {
          assert chosen[j] == rest[j - 1] && chosen[j] in rest;
          if i > 0 {
            assert chosen[i] == rest[i - 1];
          }
        }
      }
    }
  }

  /** The estimate takes its pieces from the list. */
  lemma {:induction false} EstimateFrom(ps: seq<Piece>, cellsUsed: int, cap: int, uniques: int)
    ensures forall p :: p in EstimatePieces(ps, cellsUsed, cap, uniques) ==> p in ps
    decreases |ps|
  {
    if |ps| > 0 {
      var p := ps[0];
      assert forall q :: q in ps[1..] ==> q in ps;
      var u' := uniques + (if p.rarity == Unique then 1 else 0);
      EstimateFrom(ps[1..], cellsUsed, cap, uniques);
      EstimateFrom(ps[1..], cellsUsed + p.size, cap, u');
    }
  }

  lemma {:induction false} BaseScoreNonNegative(ps: seq<Piece>)
    requires NonNegativeSizes(ps)
    ensures BaseScore(ps) >= 0
  {
    if |ps| > 0 {
      assert ps[|ps| - 1] in ps;
      assert forall p :: p in ps[..|ps| - 1] ==> p in ps;
      BaseScoreNonNegative(ps[..|ps| - 1]);
    }
  }

  lemma {:induction false} EstimatedBonusNonNegative(attrs: seq<Attribute>, counts: map<Attribute, int>, chosen: seq<Piece>)
    ensures EstimatedBonus(attrs, counts, chosen) >= 0
  {
    if |attrs| > 0 {
      EstimatedBonusNonNegative(attrs[..|attrs| - 1], counts, chosen);
    }
  }

  /**
   * With sizes that are not negative, the bound is never below the current
   * score; with no pieces or no cells left it is the current score.
   */
  lemma UpperBoundAtLeastCurrent(currentScore: int, remaining: seq<Piece>, remainingCells: int,
                                 counts: map<Attribute, int>, usedUnique: int, job: Role)
    requires NonNegativeSizes(remaining)
    ensures UpperBoundOf(currentScore, remaining, remainingCells, counts, usedUnique, job) >= currentScore
    ensures |remaining| == 0 || remainingCells <= 0 ==>
              UpperBoundOf(currentScore, remaining, remainingCells, counts, usedUnique, job) == currentScore
  {
    if |remaining| > 0 && remainingCells > 0 {
      var chosen := EstimatePieces(remaining, 0, remainingCells, usedUnique);
      assert forall p :: p in chosen ==> p in remaining by {
        EstimateFrom(remaining, 0, remainingCells, usedUnique);
      }
      BaseScoreNonNegative(chosen);
      EstimatedBonusNonNegative(JobAttributes(job), counts, chosen);
    }
  }

  /**
   * The pruning test: the first phase, on role pieces only, gives up on a
   * branch only when its bound is below 95% of the best score, the second
   * when it is below the best score itself.
   */
  predicate Pruned(upperBound: int, bestScore: int, isPhase1: bool) {
    if isPhase1 then 20 * upperBound < 19 * bestScore else upperBound < bestScore
  }

  /** A branch whose current score beats the best is never pruned when its bound covers the current score. */
  lemma ImprovementNotPruned(upperBound: int, currentScore: int, bestScore: int, isPhase1: bool)
    requires 0 <= bestScore < currentScore <= upperBound
    ensures !Pruned(upperBound, bestScore, isPhase1)
  {
  }
}
