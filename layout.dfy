/**
 * Putting pieces on the altar. A piece is placed by its top-left anchor;
 * it fits when every translated cell is on the board, open, and not used
 * by another piece. The searches keep the used cells in a mutable set
 * that they copy before each tentative placement.
 */
module Layout {
  import opened Wrappers
  import opened AltarBoard
  import opened Pieces
  import opened Lists

  /** A placed piece: the piece, its anchor and the cells it covers. */
  datatype Placement = Placement(piece: Piece, anchor: Cell, cells: seq<Cell>)

  /** The board cells a shape covers when anchored at a. */
  function Translate(shape: seq<Offset>, a: Cell): (cells: seq<Cell>)
    ensures |cells| == |shape|
  {
    seq(|shape|, i requires 0 <= i < |shape| => Cell(a.row + shape[i].dr, a.col + shape[i].dc))
  }

  function Elements(cells: seq<Cell>): set<Cell> {
    set c | c in cells
  }

  /** Every cell is on the board, open, and not used yet. */
  predicate FitsAt(b: Board, cells: seq<Cell>, used: set<Cell>) {
    forall c :: c in cells ==> InBounds(c) && IsOpen(b, c) && c !in used
  }

  /** The piece has coordinates and fits at anchor a. */
  predicate CanPlace(b: Board, p: Piece, a: Cell, used: set<Cell>) {
    p.shape.Some? && FitsAt(b, Translate(p.shape.value, a), used)
  }

  /** The set of used cells that a search fills piece by piece. */
  class UsedCells {
    var cells: set<Cell>

    constructor (initial: set<Cell>)
      ensures cells == initial
    {
      cells := initial;
    }

    /** Marks the piece's cells at anchor a as used and returns them in shape order. */
    method Place(p: Piece, a: Cell) returns (placed: seq<Cell>)
      requires p.shape.Some?
      modifies this
      ensures placed == Translate(p.shape.value, a)
      ensures cells == old(cells) + Elements(placed)
    {
      var shape := p.shape.value;
      placed := [];
      var i := 0;
      while i < |shape|
        invariant 0 <= i <= |shape|
        invariant placed == Translate(shape, a)[..i]
        invariant cells == old(cells) + Elements(placed)
      {
        var cell := Cell(a.row + shape[i].dr, a.col + shape[i].dc);
        cells := cells + {cell};
        placed := placed + [cell];
        i := i + 1;
      }
    }

    /** Frees the given cells. */
    method Remove(placed: seq<Cell>)
      modifies this
      ensures cells == old(cells) - Elements(placed)
    {
      var i := 0;
      while i < |placed|
        invariant 0 <= i <= |placed|
        invariant cells == old(cells) - Elements(placed[..i])
      {
        assert Elements(placed[..i + 1]) == Elements(placed[..i]) + {placed[i]};
        cells := cells - {placed[i]};
        i := i + 1;
      }
      assert placed[..i] == placed;
    }
  }

  /** Freeing what a fitting placement used gives back the used set from before it. */
  lemma RemoveUndoesPlace(b: Board, p: Piece, a: Cell, used: set<Cell>)
    requires CanPlace(b, p, a, used)
    ensures (used + Elements(Translate(p.shape.value, a))) - Elements(Translate(p.shape.value, a)) == used
  {
  }

  /**
   * The page's fit test: walks the piece's offsets and rejects the first
   * one that leaves the board, lands on a closed cell or on a used cell.
   */
  method CanPlacePiece(b: Board, p: Piece, row: int, col: int, used: set<Cell>) returns (ok: bool)
    requires IsGrid(b)
    ensures ok == CanPlace(b, p, Cell(row, col), used)
  {
    if p.shape.None? {
      return false;
    }
    var shape := p.shape.value;
    ghost var cells := Translate(shape, Cell(row, col));
    var i := 0;
    while i < |shape|
      invariant 0 <= i <= |shape|
      invariant FitsAt(b, cells[..i], used)
    {
      var r := row + shape[i].dr;
      var c := col + shape[i].dc;
      assert cells[i] == Cell(r, c) && cells[i] in cells;
      if r < 0 || r >= Size || c < 0 || c >= Size {
        return false;
      }
      if !b[r][c] {
        return false;
      }
      if Cell(r, c) in used {
        return false;
      }
      assert cells[..i + 1] == cells[..i] + [cells[i]];
      i := i + 1;
    }
    assert cells[..i] == cells;
    return true;
  }

  // ---------------------------------------------------------------------
  // Safety of a layout
  // ---------------------------------------------------------------------

  /** The placement covers exactly its piece's shape at its anchor, on open cells. */
  predicate PlacedOn(b: Board, pl: Placement) {
    && pl.piece.shape.Some?
    && pl.cells == Translate(pl.piece.shape.value, pl.anchor)
    && forall c :: c in pl.cells ==> IsOpen(b, c)
  }

  /** No two placements share a cell. */
  predicate NoOverlap(ps: seq<Placement>) {
    forall i, j, c :: 0 <= i < j < |ps| && c in ps[i].cells ==> c !in ps[j].cells
  }

  /** All placements lie on open cells and none overlap. */
  predicate SafeLayout(b: Board, ps: seq<Placement>) {
    (forall i :: 0 <= i < |ps| ==> PlacedOn(b, ps[i])) && NoOverlap(ps)
  }

  /** The cells covered by the placements. */
  function CellsOf(ps: seq<Placement>): set<Cell> {
    if |ps| == 0 then {} else CellsOf(ps[..|ps| - 1]) + Elements(ps[|ps| - 1].cells)
  }

  /** The pieces of the placements, in order. */
  function PiecesOf(ps: seq<Placement>): (r: seq<Piece>)
    ensures |r| == |ps|
    ensures forall i :: 0 <= i < |ps| ==> r[i] == ps[i].piece
  {
    seq(|ps|, i requires 0 <= i < |ps| => ps[i].piece)
  }

  function UniqueCount(ps: seq<Piece>): nat {
    if |ps| == 0 then 0
    else UniqueCount(ps[..|ps| - 1]) + (if ps[|ps| - 1].rarity == Unique then 1 else 0)
  }

  function PieceId(p: Piece): int {
    p.id
  }

  /** No piece id occurs twice. */
  predicate DistinctIds(ps: seq<Piece>) {
    DistinctBy(ps, PieceId)
  }

  lemma {:induction false} CellsOfMembership(ps: seq<Placement>, c: Cell)
    ensures c in CellsOf(ps) <==> exists i :: 0 <= i < |ps| && c in ps[i].cells
  {
    if |ps| > 0 {
      var init := ps[..|ps| - 1];
      CellsOfMembership(init, c);
      if c in CellsOf(init) {
        var i :| 0 <= i < |init| && c in init[i].cells;
        assert ps[i] == init[i];
      }
      if i :| 0 <= i < |ps| && c in ps[i].cells {
        if i < |ps| - 1 {
          assert init[i] == ps[i];
        }
      }
    }
  }

  /** Every covered cell of a safe layout is open. */
  lemma SafeCellsOpen(b: Board, ps: seq<Placement>)
    requires SafeLayout(b, ps)
    ensures forall c :: c in CellsOf(ps) ==> IsOpen(b, c)
  {
    forall c | c in CellsOf(ps) ensures IsOpen(b, c) {
      CellsOfMembership(ps, c);
    }
  }

  /**
   * Placing a piece where it fits, given the cells of a safe layout as the
   * used set, extends the layout safely and adds exactly the piece's cells.
   */
  lemma ExtendSafe(b: Board, ps: seq<Placement>, p: Piece, a: Cell)
    requires SafeLayout(b, ps) && CanPlace(b, p, a, CellsOf(ps))
    ensures SafeLayout(b, ps + [Placement(p, a, Translate(p.shape.value, a))])
    ensures CellsOf(ps + [Placement(p, a, Translate(p.shape.value, a))]) ==
              CellsOf(ps) + Elements(Translate(p.shape.value, a))
  {
    var pl := Placement(p, a, Translate(p.shape.value, a));
    var ps' := ps + [pl];
    assert ps'[..|ps|] == ps;
    forall i, j, c | 0 <= i < j < |ps'| && c in ps'[i].cells
      ensures c !in ps'[j].cells
    {
      if j == |ps| {
        CellsOfMembership(ps, c);
        assert ps[i] == ps'[i];
      }
    }
  }

  /** Appending a piece counts it as unique exactly when it is. */
  lemma UniqueCountAppend(ps: seq<Piece>, p: Piece)
    ensures UniqueCount(ps + [p]) == UniqueCount(ps) + (if p.rarity == Unique then 1 else 0)
  {
    assert (ps + [p])[..|ps|] == ps;
  }

  lemma PiecesOfAppend(ps: seq<Placement>, pl: Placement)
    ensures PiecesOf(ps + [pl]) == PiecesOf(ps) + [pl.piece]
  {
  }
}
