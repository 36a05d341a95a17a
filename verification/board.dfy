/** The 8x8 board as a flat store of 64 cells indexed by x + y*8, with the
    accessors of the board class and the in-place move/undo pair the search uses. */
module Board {
  import opened Types

  const Side: int := 8
  const CellCount: int := 64

  type Board = b: seq<Piece> | |b| == CellCount witness seq(64, _ => Empty)

  datatype Tile = WhiteTile | BlackTile

  predicate InBounds(c: Coord)
  {
    0 <= c.x < Side && 0 <= c.y < Side
  }

  /** The flat index of an in-bounds cell. */
  function Index(c: Coord): (i: nat)
    requires InBounds(c)
    ensures i < CellCount
  {
    c.x + c.y * Side
  }

  /** The column and row of a cell are recovered from its flat index. */
  lemma IndexParts(c: Coord)
    requires InBounds(c)
    ensures Index(c) % Side == c.x && Index(c) / Side == c.y
  {
  }

  /** The cell stored at flat index `i`: the inverse of `Index`. */
  function Cell(i: int): (c: Coord)
    requires 0 <= i < CellCount
    ensures InBounds(c) && Index(c) == i
  {
    Coord(i % Side, i / Side)
  }

  /** `Index` is a bijection from the in-bounds cells onto 0..63. */
  lemma IndexBijective(c: Coord, d: Coord)
    requires InBounds(c) && InBounds(d)
    ensures Cell(Index(c)) == c
    ensures Index(c) == Index(d) <==> c == d
  {
  }

  /** A fresh board: 64 cells, none occupied. */
  function NewBoard(): (b: Board)
    ensures forall i :: 0 <= i < CellCount ==> b[i] == Empty
  {
    seq(CellCount, _ => Empty)
  }

  function GetPiece(b: Board, c: Coord): Piece
    requires InBounds(c)
  {
    b[Index(c)]
  }

  /** Overwrites one cell; every other cell keeps its content. */
  function SetPiece(b: Board, c: Coord, p: Piece): (r: Board)
    requires InBounds(c)
    ensures GetPiece(r, c) == p
    ensures forall d :: InBounds(d) && d != c ==> GetPiece(r, d) == GetPiece(b, d)
  {
    b[Index(c) := p]
  }

  /** Tile colour as the board displays it: the tile palette indexed by (x + y) mod 2. */
  function TileColor(c: Coord): Tile
    requires InBounds(c)
  {
    [WhiteTile, BlackTile][(c.x + c.y) % 2]
  }

  /** A tile is white exactly when its coordinates sum to an even number. */
  lemma TileColorParity(c: Coord)
    requires InBounds(c)
    ensures TileColor(c) == WhiteTile <==> (c.x + c.y) % 2 == 0
  {
  }

  /** The palette gives a checkerboard: stepping one cell along a row or a column
      always changes the colour. */
  lemma TileColorsAlternate(c: Coord, d: Coord)
    requires InBounds(c) && InBounds(d)
    requires Abs(c.x - d.x) + Abs(c.y - d.y) == 1
    ensures TileColor(c) != TileColor(d)
  {
    TileColorParity(c);
    TileColorParity(d);
  }

  /** All 64 cells in row-major order: the row y in the outer loop, x in the inner one. */
  method Coordinates() returns (cs: seq<Coord>)
    ensures |cs| == CellCount
    ensures forall k :: 0 <= k < |cs| ==> InBounds(cs[k]) && Index(cs[k]) == k
  {
    cs := [];
    var y := 0;
    while y < Side
      invariant 0 <= y <= Side
      invariant |cs| == y * Side
      invariant forall k :: 0 <= k < |cs| ==> InBounds(cs[k]) && Index(cs[k]) == k
    {
      var x := 0;
      while x < Side
        invariant 0 <= x <= Side
        invariant |cs| == y * Side + x
        invariant forall k :: 0 <= k < |cs| ==> InBounds(cs[k]) && Index(cs[k]) == k
      {
        cs := cs + [Coord(x, y)];
        x := x + 1;
      }
      y := y + 1;
    }
  }

  /** The piece on `from` goes to `to` and `from` is emptied: the start cell is cleared
      first, then the target written, so a move with from == to leaves the board alone. */
  function DoMove(b: Board, m: Move): (r: Board)
    requires InBounds(m.from) && InBounds(m.to)
    ensures GetPiece(r, m.to) == GetPiece(b, m.from)
    ensures m.from != m.to ==> GetPiece(r, m.from) == Empty
    ensures forall c :: InBounds(c) && c != m.from && c != m.to ==> GetPiece(r, c) == GetPiece(b, c)
  {
    var pieceToMove := GetPiece(b, m.from);
    var cleared := SetPiece(b, m.from, Empty);
    SetPiece(cleared, m.to, pieceToMove)
  }

  /** The piece on `to` goes back to `from` and `to` is emptied. */
  function UndoMove(b: Board, m: Move): (r: Board)
    requires InBounds(m.from) && InBounds(m.to)
    ensures GetPiece(r, m.to) == Empty
    ensures m.from != m.to ==> GetPiece(r, m.from) == GetPiece(b, m.to)
    ensures forall c :: InBounds(c) && c != m.from && c != m.to ==> GetPiece(r, c) == GetPiece(b, c)
  {
    var pieceToMove := GetPiece(b, m.to);
    var restored := SetPiece(b, m.from, pieceToMove);
    SetPiece(restored, m.to, Empty)
  }

  /** What the move generator guarantees of every move it returns, and what makes
      `UndoMove` an inverse of `DoMove`: two distinct in-bounds cells, the target empty. */
  predicate Reversible(b: Board, m: Move)
  {
    InBounds(m.from) && InBounds(m.to) && m.from != m.to && GetPiece(b, m.to) == Empty
  }

  lemma BoardsEqual(b: Board, b': Board)
    requires forall c :: InBounds(c) ==> GetPiece(b, c) == GetPiece(b', c)
    ensures b == b'
  {
    forall i | 0 <= i < CellCount
      ensures b[i] == b'[i]
    {
      assert GetPiece(b, Cell(i)) == GetPiece(b', Cell(i));
    }
  }

  /** Undoing a move right after doing it restores the board cell for cell. */
  lemma UndoAfterDo(b: Board, m: Move)
    requires Reversible(b, m)
    ensures UndoMove(DoMove(b, m), m) == b
  {
    BoardsEqual(UndoMove(DoMove(b, m), m), b);
  }

  /** Doing a move right after undoing it restores the board when `from` was empty. */
  lemma DoAfterUndo(b: Board, m: Move)
    requires InBounds(m.from) && InBounds(m.to) && m.from != m.to
    requires GetPiece(b, m.from) == Empty
    ensures DoMove(UndoMove(b, m), m) == b
  {
    BoardsEqual(DoMove(UndoMove(b, m), m), b);
  }

  /** Without an empty target the pair is not an inverse: a piece standing on `to` is lost. */
  lemma UndoLosesOccupiedTarget(b: Board, m: Move)
    requires InBounds(m.from) && InBounds(m.to) && m.from != m.to
    requires GetPiece(b, m.to) != Empty
    ensures UndoMove(DoMove(b, m), m) != b
  {
    assert GetPiece(UndoMove(DoMove(b, m), m), m.to) == Empty;
  }
}
