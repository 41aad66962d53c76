/**
 * Sugar-glass pieces and the altar score. A piece has a rarity, a size in
 * cells, an attribute (pieces of 1 to 5 cells) or a role (8-cell pieces),
 * and a shape given as cell offsets. The score of a set of placed pieces is
 * a per-cell rarity score plus a bonus for every attribute of the player's
 * role that is covered by enough cells.
 */
module Pieces {
  import opened Wrappers

  datatype Rarity = Rare | Epic | SuperEpic | Unique

  /** The seven attributes, in the page's order. */
  datatype Attribute = Radiance | Piercing | Elemental | Shattering | Blessing | Branding | Regeneration

  datatype Role = Dealer | Striker | Supporter

  /**
   * The piece's attribute field: an attribute for pieces of 1 to 5 cells,
   * a role or "every role" for 8-cell pieces, or nothing at all.
   */
  datatype Tag = NoTag | Attr(attribute: Attribute) | ForRole(role: Role) | AllRoles

  /** Offset of one cell of a shape from the shape's top-left corner. */
  datatype Offset = Offset(dr: int, dc: int)

  /** A piece as the user entered it; `shape` is None when no coordinates are set. */
  datatype Piece = Piece(id: int, rarity: Rarity, size: int, tag: Tag, shape: Option<seq<Offset>>)

  /** Points per cell of each rarity. */
  function RarityScore(r: Rarity): (s: int)
    ensures 30 <= s <= 250
  {
    match r
    case Rare => 30
    case Epic => 60
    case SuperEpic => 120
    case Unique => 250
  }

  /** The rank used when pieces are ordered by rarity. */
  function RarityOrder(r: Rarity): (o: int)
    ensures 1 <= o <= 4
  {
    match r
    case Rare => 1
    case Epic => 2
    case SuperEpic => 3
    case Unique => 4
  }

  /** Ranking rarities by rank or by per-cell score gives the same order. */
  lemma OrderAgreesWithScore(a: Rarity, b: Rarity)
    ensures RarityOrder(a) < RarityOrder(b) <==> RarityScore(a) < RarityScore(b)
    ensures RarityOrder(a) == RarityOrder(b) <==> a == b
  {
  }

  const AllAttributes: seq<Attribute> :=
    [Radiance, Piercing, Elemental, Shattering, Blessing, Branding, Regeneration]

  lemma AllAttributesComplete()
    ensures forall a :: a in AllAttributes
  {
    forall a ensures a in AllAttributes {
      match a
      case Radiance => assert AllAttributes[0] == a;
      case Piercing => assert AllAttributes[1] == a;
      case Elemental => assert AllAttributes[2] == a;
      case Shattering => assert AllAttributes[3] == a;
      case Blessing => assert AllAttributes[4] == a;
      case Branding => assert AllAttributes[5] == a;
      case Regeneration => assert AllAttributes[6] == a;
    }
  }

  /** The attributes whose bonus counts for a role. */
  function JobAttributes(role: Role): (attrs: seq<Attribute>)
    ensures |attrs| >= 2
  {
    match role
    case Dealer => [Radiance, Piercing]
    case Striker => [Elemental, Shattering]
    case Supporter => [Blessing, Branding, Regeneration]
  }

  /** Every attribute belongs to exactly one role. */
  lemma AttributeHasOneRole(a: Attribute)
    ensures exists role :: a in JobAttributes(role)
    ensures forall r1, r2 :: a in JobAttributes(r1) && a in JobAttributes(r2) ==> r1 == r2
  {
    if a == Radiance || a == Piercing {
      assert a in JobAttributes(Dealer);
    } else if a == Elemental || a == Shattering {
      assert a in JobAttributes(Striker);
    } else {
      assert a in JobAttributes(Supporter);
    }
  }

  /** The rarities the page offers for a piece of the given size. */
  function AvailableRarities(size: int): (rs: seq<Rarity>)
    ensures |rs| > 0
    ensures forall i, j :: 0 <= i < j < |rs| ==> RarityOrder(rs[i]) < RarityOrder(rs[j])
    ensures (Unique in rs) <==> !(1 <= size <= 5)
    ensures size == 8 ==> rs == [Unique]
  {
    if size == 8 then [Unique]
    else if size == 5 then [SuperEpic]
    else if size == 4 then [Epic, SuperEpic]
    else if 1 <= size <= 3 then [Rare, Epic, SuperEpic]
    else [Rare, Epic, SuperEpic, Unique]
  }

  /** A piece counts for the role: a role or every-role 8-cell piece, or a 1..5-cell piece of one of its attributes. */
  predicate IsMatching(p: Piece, job: Role) {
    if p.size == 8 then p.tag == ForRole(job) || p.tag == AllRoles
    else p.size <= 5 && p.tag.Attr? && p.tag.attribute in JobAttributes(job)
  }

  predicate HasAttribute(p: Piece, a: Attribute) {
    p.tag == Attr(a)
  }

  // ---------------------------------------------------------------------
  // Shapes
  // ---------------------------------------------------------------------

  /** The offsets of the 1 entries in columns 0..n-1 of line, which is row r. */
  function RowOnes(line: seq<int>, r: int, n: int): seq<Offset>
    requires 0 <= n <= |line|
  {
    if n == 0 then []
    else RowOnes(line, r, n - 1) + (if line[n - 1] == 1 then [Offset(r, n - 1)] else [])
  }

  /** Row-major order on offsets. */
  predicate Before(a: Offset, b: Offset) {
    a.dr < b.dr || (a.dr == b.dr && a.dc < b.dc)
  }

  /** The offsets of the 1 entries of rows 0..n-1, in row-major order. */
  function RawCoords(shape: seq<seq<int>>, n: int): seq<Offset>
    requires 0 <= n <= |shape|
  {
    if n == 0 then []
    else RawCoords(shape, n - 1) + RowOnes(shape[n - 1], n - 1, |shape[n - 1]|)
  }

  lemma {:induction false} RowOnesProperties(line: seq<int>, r: int, n: int)
    requires 0 <= n <= |line|
    ensures var s := RowOnes(line, r, n);
            && (forall o :: o in s <==> o.dr == r && 0 <= o.dc < n && line[o.dc] == 1)
            && (forall i, j :: 0 <= i < j < |s| ==> s[i].dc < s[j].dc)
            && (forall i :: 0 <= i < |s| ==> s[i].dr == r && 0 <= s[i].dc < n)
  {
    if n > 0 {
      RowOnesProperties(line, r, n - 1);
    }
  }

  /** RawCoords lists exactly the 1 entries of the first n rows, in row-major order. */
  lemma {:induction false} RawCoordsProperties(shape: seq<seq<int>>, n: int)
    requires 0 <= n <= |shape|
    ensures var s := RawCoords(shape, n);
            && (forall o :: o in s <==> 0 <= o.dr < n && 0 <= o.dc < |shape[o.dr]| && shape[o.dr][o.dc] == 1)
            && (forall i, j :: 0 <= i < j < |s| ==> Before(s[i], s[j]))
            && (forall i :: 0 <= i < |s| ==> 0 <= s[i].dr < n)
  {
    if n > 0 {
      RawCoordsProperties(shape, n - 1);
      RowOnesProperties(shape[n - 1], n - 1, |shape[n - 1]|);
      var front := RawCoords(shape, n - 1);
      var line := RowOnes(shape[n - 1], n - 1, |shape[n - 1]|);
      assert RawCoords(shape, n) == front + line;
      assert forall o :: o in front + line <==> o in front || o in line;
    }
  }

  function MinRow(s: seq<Offset>): (m: int)
    requires |s| > 0
    ensures exists i :: 0 <= i < |s| && s[i].dr == m
    ensures forall i :: 0 <= i < |s| ==> m <= s[i].dr
  {
    if |s| == 1 then s[0].dr
    else
      var m := MinRow(s[1..]);
      assert forall i :: 1 <= i < |s| ==> s[i] == s[1..][i - 1];
      if s[0].dr <= m then s[0].dr else m
  }

  function MinCol(s: seq<Offset>): (m: int)
    requires |s| > 0
    ensures exists i :: 0 <= i < |s| && s[i].dc == m
    ensures forall i :: 0 <= i < |s| ==> m <= s[i].dc
  {
    if |s| == 1 then s[0].dc
    else
      var m := MinCol(s[1..]);
      assert forall i :: 1 <= i < |s| ==> s[i] == s[1..][i - 1];
      if s[0].dc <= m then s[0].dc else m
  }

  /** The offsets shifted so that the smallest row and the smallest column are 0. */
  function Normalise(s: seq<Offset>): (r: seq<Offset>)
    ensures |r| == |s|
  {
    if |s| == 0 then []
    else
      var mr := MinRow(s);
      var mc := MinCol(s);
      seq(|s|, i requires 0 <= i < |s| => Offset(s[i].dr - mr, s[i].dc - mc))
  }

  /** The normalised offsets of the 1 entries of a 0/1 drawing. */
  function ShapeCoords(shape: seq<seq<int>>): seq<Offset> {
    Normalise(RawCoords(shape, |shape|))
  }

  /**
   * Converts a 0/1 drawing of a shape into cell offsets: one offset per
   * 1 entry, in row-major order, shifted to the top-left corner.
   */
  method Shape2DToCoords(shape: seq<seq<int>>) returns (coords: seq<Offset>)
    ensures coords == ShapeCoords(shape)
  {
    coords := [];
    var row := 0;
    while row < |shape|
      invariant 0 <= row <= |shape|
      invariant coords == RawCoords(shape, row)
    {
      var col := 0;
      while col < |shape[row]|
        invariant 0 <= col <= |shape[row]|
        invariant coords == RawCoords(shape, row) + RowOnes(shape[row], row, col)
      {
        if shape[row][col] == 1 {
          coords := coords + [Offset(row, col)];
        }
        col := col + 1;
      }
      row := row + 1;
    }
    if |coords| == 0 {
      return [];
    }
    var minRow := MinRow(coords);
    var minCol := MinCol(coords);
    coords := seq(|coords|, i requires 0 <= i < |coords| => Offset(coords[i].dr - minRow, coords[i].dc - minCol));
  }

  /** Every 1 entry of the drawing yields an offset: the entry's position shifted to the corner. */
  lemma ShapeCoordsCoverOnes(shape: seq<seq<int>>, r: int, c: int)
    requires 0 <= r < |shape| && 0 <= c < |shape[r]| && shape[r][c] == 1
    ensures var raw := RawCoords(shape, |shape|);
            |raw| > 0 && Offset(r - MinRow(raw), c - MinCol(raw)) in ShapeCoords(shape)
  {
    var raw := RawCoords(shape, |shape|);
    assert Offset(r, c) in raw by {
      RawCoordsProperties(shape, |shape|);
    }
    var k :| 0 <= k < |raw| && raw[k] == Offset(r, c);
    NormaliseAt(raw, k);
  }

  lemma NormaliseAt(s: seq<Offset>, k: int)
    requires 0 <= k < |s|
    ensures Normalise(s)[k] == Offset(s[k].dr - MinRow(s), s[k].dc - MinCol(s))
  {
  }

  /** Every offset comes from a 1 entry, shifted by the same amount as all the others. */
  lemma ShapeCoordsFromOnes(shape: seq<seq<int>>, i: int)
    requires 0 <= i < |ShapeCoords(shape)|
    ensures var raw := RawCoords(shape, |shape|);
            && 0 <= raw[i].dr < |shape| && 0 <= raw[i].dc < |shape[raw[i].dr]|
            && shape[raw[i].dr][raw[i].dc] == 1
            && ShapeCoords(shape)[i] == Offset(raw[i].dr - MinRow(raw), raw[i].dc - MinCol(raw))
  {
    var raw := RawCoords(shape, |shape|);
    RawCoordsProperties(shape, |shape|);
    assert raw[i] in raw;
  }

  /** No offset appears twice. */
  lemma ShapeCoordsDistinct(shape: seq<seq<int>>)
    ensures forall i, j :: 0 <= i < j < |ShapeCoords(shape)| ==> ShapeCoords(shape)[i] != ShapeCoords(shape)[j]
  {
    var raw := RawCoords(shape, |shape|);
    RawCoordsProperties(shape, |shape|);
    var coords := ShapeCoords(shape);
    forall i, j | 0 <= i < j < |coords| ensures coords[i] != coords[j] {
      assert Before(raw[i], raw[j]);
    }
  }

  /** A non-empty shape touches row 0 and column 0 and has no negative offset. */
  lemma ShapeCoordsAnchored(shape: seq<seq<int>>)
    ensures var coords := ShapeCoords(shape);
            |coords| > 0 ==>
              && (exists i :: 0 <= i < |coords| && coords[i].dr == 0)
              && (exists j :: 0 <= j < |coords| && coords[j].dc == 0)
              && (forall i :: 0 <= i < |coords| ==> coords[i].dr >= 0 && coords[i].dc >= 0)
  {
    var raw := RawCoords(shape, |shape|);
    var coords := ShapeCoords(shape);
    if |coords| > 0 {
      var i :| 0 <= i < |raw| && raw[i].dr == MinRow(raw);
      assert coords[i].dr == 0;
      var j :| 0 <= j < |raw| && raw[j].dc == MinCol(raw);
      assert coords[j].dc == 0;
    }
  }

  /** A drawing without 1 entries (or with no rows) yields no offsets, and only such a drawing does. */
  lemma ShapeCoordsEmpty(shape: seq<seq<int>>)
    ensures ShapeCoords(shape) == [] <==>
              forall r, c :: 0 <= r < |shape| && 0 <= c < |shape[r]| ==> shape[r][c] != 1
  {
    var raw := RawCoords(shape, |shape|);
    RawCoordsProperties(shape, |shape|);
    if |raw| > 0 {
      assert raw[0] in raw;
    }
    if r, c :| 0 <= r < |shape| && 0 <= c < |shape[r]| && shape[r][c] == 1 {
      assert Offset(r, c) in raw;
    }
  }

  // ---------------------------------------------------------------------
  // Score
  // ---------------------------------------------------------------------

  /** The bonus cell counts: 265 points for each of 9, 12, 15, 18 and 21 cells reached. */
  function ThresholdBonus(count: int): (b: int)
    ensures 0 <= b <= 1325
    ensures b % 265 == 0
  {
    if count < 9 then 0
    else if count >= 21 then 1325
    else 265 * ((count - 9) / 3 + 1)
  }

  /** The bonus is 265 for each of the thresholds 9, 12, 15, 18 and 21 that the count reaches. */
  lemma FiveThresholds(count: int)
    ensures ThresholdBonus(count) ==
              (if count >= 9 then 265 else 0) + (if count >= 12 then 265 else 0) + (if count >= 15 then 265 else 0)
              + (if count >= 18 then 265 else 0) + (if count >= 21 then 265 else 0)
  {
  }

  lemma ThresholdBonusValues()
    ensures ThresholdBonus(21) == 1325 && ThresholdBonus(100) == 1325
    ensures ThresholdBonus(8) == 0 && ThresholdBonus(9) == 265 && ThresholdBonus(11) == 265
    ensures ThresholdBonus(12) == 530 && ThresholdBonus(20) == 1060
  {
  }

  /** More cells never earn a smaller bonus. */
  lemma ThresholdBonusMonotone(m: int, n: int)
    requires m <= n
    ensures ThresholdBonus(m) <= ThresholdBonus(n)
  {
  }

  /** The per-cell rarity points of the pieces. */
  function BaseScore(ps: seq<Piece>): int {
    if |ps| == 0 then 0
    else BaseScore(ps[..|ps| - 1]) + RarityScore(ps[|ps| - 1].rarity) * ps[|ps| - 1].size
  }

  /** The cells that the pieces of 1 to 5 cells contribute to attribute a. */
  function AttributeCount(ps: seq<Piece>, a: Attribute): int {
    if |ps| == 0 then 0
    else
      var p := ps[|ps| - 1];
      AttributeCount(ps[..|ps| - 1], a) + (if p.size <= 5 && HasAttribute(p, a) then p.size else 0)
  }

  /** The bonus over the listed attributes that belong to the role. */
  function BonusOver(attrs: seq<Attribute>, ps: seq<Piece>, job: Role): int {
    if |attrs| == 0 then 0
    else
      var a := attrs[|attrs| - 1];
      BonusOver(attrs[..|attrs| - 1], ps, job)
      + (if a in JobAttributes(job) then ThresholdBonus(AttributeCount(ps, a)) else 0)
  }

  function BonusScore(ps: seq<Piece>, job: Role): int {
    BonusOver(AllAttributes, ps, job)
  }

  function TotalScore(ps: seq<Piece>, job: Role): int {
    BaseScore(ps) + BonusScore(ps, job)
  }

  /** The score record: base, bonus, their sum, and the per-attribute cell counts. */
  datatype Score = Score(base: int, bonus: int, total: int, counts: map<Attribute, int>)

  /**
   * The page's score: every piece earns its rarity's points per cell, and
   * each role attribute earns the threshold bonus on the cells of the
   * 1..5-cell pieces carrying it.
   */
  method CalculateScore(placed: seq<Piece>, job: Role) returns (score: Score)
    ensures score.base == BaseScore(placed)
    ensures score.bonus == BonusScore(placed, job)
    ensures score.total == score.base + score.bonus
    ensures forall a :: a in score.counts && score.counts[a] == AttributeCount(placed, a)
  {
    var baseScore, counts := TallyPieces(placed);
    var bonusScore := TallyBonus(placed, counts, job);
    return Score(baseScore, bonusScore, baseScore + bonusScore, counts);
  }

  /** The first pass: the base points, and the cells of the 1..5-cell pieces per attribute. */
  method TallyPieces(placed: seq<Piece>) returns (baseScore: int, counts: map<Attribute, int>)
    ensures baseScore == BaseScore(placed)
    ensures forall a :: a in counts && counts[a] == AttributeCount(placed, a)
  {
    baseScore := 0;
    counts := map a | a in AllAttributes :: 0;
    AllAttributesComplete();
    var i := 0;
    while i < |placed|
      invariant 0 <= i <= |placed|
      invariant baseScore == BaseScore(placed[..i])
      invariant forall a :: a in counts && counts[a] == AttributeCount(placed[..i], a)
    {
      var piece := placed[i];
      assert placed[..i + 1][..i] == placed[..i];
      baseScore := baseScore + RarityScore(piece.rarity) * piece.size;
      if piece.size <= 5 && piece.tag.Attr? {
        counts := counts[piece.tag.attribute := counts[piece.tag.attribute] + piece.size];
      }
      i := i + 1;
    }
    assert placed[..i] == placed;
  }

  /** The second pass: 265 per threshold reached, over the role's attributes. */
  method TallyBonus(placed: seq<Piece>, counts: map<Attribute, int>, job: Role) returns (bonusScore: int)
    requires forall a :: a in counts && counts[a] == AttributeCount(placed, a)
    ensures bonusScore == BonusScore(placed, job)
  {
    bonusScore := 0;
    var jobAttributes := JobAttributes(job);
    var k := 0;
    while k < |AllAttributes|
      invariant 0 <= k <= |AllAttributes|
      invariant bonusScore == BonusOver(AllAttributes[..k], placed, job)
    {
      var attr := AllAttributes[k];
      var count := counts[attr];
      assert AllAttributes[..k + 1][..k] == AllAttributes[..k];
      if attr in jobAttributes {
        var gain := 0;
        if count >= 9 { gain := gain + 265; }
        if count >= 12 { gain := gain + 265; }
        if count >= 15 { gain := gain + 265; }
        if count >= 18 { gain := gain + 265; }
        if count >= 21 { gain := gain + 265; }
        FiveThresholds(count);
        bonusScore := bonusScore + gain;
      }
      k := k + 1;
    }
    assert AllAttributes[..k] == AllAttributes;
  }

  /** Appending a piece adds its points to the base and its cells to its attribute only. */
  lemma ScoreAppend(ps: seq<Piece>, p: Piece, a: Attribute)
    ensures BaseScore(ps + [p]) == BaseScore(ps) + RarityScore(p.rarity) * p.size
    ensures AttributeCount(ps + [p], a) ==
              AttributeCount(ps, a) + (if p.size <= 5 && HasAttribute(p, a) then p.size else 0)
  {
    assert (ps + [p])[..|ps|] == ps;
  }

  /** How many of the listed attributes belong to the role. */
  function RoleShare(attrs: seq<Attribute>, job: Role): nat {
    if |attrs| == 0 then 0
    else RoleShare(attrs[..|attrs| - 1], job) + (if attrs[|attrs| - 1] in JobAttributes(job) then 1 else 0)
  }

  /** Each listed attribute of the role earns at most 1325; with no pieces, none earns anything. */
  lemma {:induction false} BonusOverBounds(attrs: seq<Attribute>, ps: seq<Piece>, job: Role)
    ensures 0 <= BonusOver(attrs, ps, job) <= 1325 * RoleShare(attrs, job)
    ensures BonusOver(attrs, [], job) == 0
  {
    if |attrs| > 0 {
      BonusOverBounds(attrs[..|attrs| - 1], ps, job);
    }
  }

  /** The bonus is at most 1325 per attribute of the role and is zero with no piece placed. */
  lemma BonusScoreBounds(ps: seq<Piece>, job: Role)
    ensures 0 <= BonusScore(ps, job) <= 1325 * |JobAttributes(job)|
    ensures BonusScore([], job) == 0
  {
    BonusOverBounds(AllAttributes, ps, job);
    RoleShareAll(job);
  }

  /** The attribute list's prefixes, as RoleShare walks them. */
  lemma AttributePrefixes()
    ensures AllAttributes[..|AllAttributes| - 1] == AllAttributes[..6]
    ensures AllAttributes[..6][..5] == AllAttributes[..5] && AllAttributes[..5][..4] == AllAttributes[..4]
    ensures AllAttributes[..4][..3] == AllAttributes[..3] && AllAttributes[..3][..2] == AllAttributes[..2]
    ensures AllAttributes[..2][..1] == AllAttributes[..1] && AllAttributes[..1][..0] == []
    ensures AllAttributes[..6] == [Radiance, Piercing, Elemental, Shattering, Blessing, Branding]
    ensures AllAttributes[..3] == [Radiance, Piercing, Elemental]
    ensures AllAttributes[..1] == [Radiance]
  {
    var all := AllAttributes;
    assert all[..6] == [Radiance, Piercing, Elemental, Shattering, Blessing, Branding];
    assert all[..5] == [Radiance, Piercing, Elemental, Shattering, Blessing];
    assert all[..4] == [Radiance, Piercing, Elemental, Shattering];
    assert all[..3] == [Radiance, Piercing, Elemental];
    assert all[..2] == [Radiance, Piercing];
    assert all[..1] == [Radiance];
  }

  /** Every attribute of the role appears once in the full attribute list. */
  lemma RoleShareAll(job: Role)
    ensures RoleShare(AllAttributes, job) == |JobAttributes(job)|
  {
    AttributePrefixes();
    var all := AllAttributes;
    match job {
      case Dealer =>
        assert RoleShare(all[..1], job) == 1;
        assert RoleShare(all[..2], job) == 2;
        assert RoleShare(all[..3], job) == 2;
        assert RoleShare(all[..4], job) == 2;
        assert RoleShare(all[..5], job) == 2;
        assert RoleShare(all[..6], job) == 2;
      case Striker =>
        assert RoleShare(all[..1], job) == 0;
        assert RoleShare(all[..2], job) == 0;
        assert RoleShare(all[..3], job) == 1;
        assert RoleShare(all[..4], job) == 2;
        assert RoleShare(all[..5], job) == 2;
        assert RoleShare(all[..6], job) == 2;
      case Supporter =>
        assert RoleShare(all[..1], job) == 0;
        assert RoleShare(all[..2], job) == 0;
        assert RoleShare(all[..3], job) == 0;
        assert RoleShare(all[..4], job) == 0;
        assert RoleShare(all[..5], job) == 1;
        assert RoleShare(all[..6], job) == 2;
    }
    assert RoleShare(all, job) == |JobAttributes(job)|;
  }
}
