/** The game as the page plays it: a board plus the side to move, a position loaded
    from a FEN-like string, the human's move attempts and the AI's replies. */
module Interactive {
  import opened Types
  import opened Board
  import opened Moves
  import Evaluation
  import Search

  // ---------------------------------------------------------------------------
  // Splitting the position string into rows
  // ---------------------------------------------------------------------------

  const Separator: char := '/'

  /** The rows of `s` between separators, as string splitting on '/' yields them: an
      empty string is one empty row, and two adjacent separators give an empty row. */
  function Split(s: string): (rows: seq<string>)
    ensures |rows| >= 1
    ensures forall i :: 0 <= i < |rows| ==> Separator !in rows[i]
    decreases |s|
  {
    if s == [] then [[]]
    else
      var rest := Split(s[1..]);
      if s[0] == Separator then [[]] + rest
      else [[s[0]] + rest[0]] + rest[1..]
  }

  /** The rows glued back together with a separator between neighbours. */
  function Join(rows: seq<string>): string
    requires |rows| >= 1
    decreases |rows|
  {
    if |rows| == 1 then rows[0] else rows[0] + [Separator] + Join(rows[1..])
  }

  /** Splitting loses nothing: joining the rows gives back the string. */
  lemma {:induction false} JoinSplit(s: string)
    ensures Join(Split(s)) == s
    decreases |s|
  {
    if s != [] {
      var rest := Split(s[1..]);
      JoinSplit(s[1..]);
      if s[0] == Separator {
        assert Split(s)[1..] == rest;
      } else {
        var rows := Split(s);
        assert rows[1..] == rest[1..];
        if |rest| == 1 {
          assert Join(rows) == [s[0]] + rest[0];
        } else {
          assert Join(rows) == ([s[0]] + rest[0]) + [Separator] + Join(rest[1..]);
        }
      }
    }
  }

  /** Splitting a string that starts with a non-separator adds that character to the
      first row. */
  lemma SplitCons(c: char, s: string)
    requires c != Separator
    ensures Split([c] + s) == [[c] + Split(s)[0]] + Split(s)[1..]
  {
    assert ([c] + s)[1..] == s;
  }

  /** Joining separator-free rows and splitting again gives back the rows. */
  lemma {:induction false} SplitJoin(rows: seq<string>)
    requires |rows| >= 1
    requires forall i :: 0 <= i < |rows| ==> Separator !in rows[i]
    ensures Split(Join(rows)) == rows
    decreases |rows|, |rows[0]|
  {
    var first := rows[0];
    if first == [] {
      if |rows| > 1 {
        SplitJoin(rows[1..]);
        assert Join(rows) == [Separator] + Join(rows[1..]);
        assert Join(rows)[1..] == Join(rows[1..]);
      }
    } else {
      var shorter := rows[0 := first[1..]];
      assert Separator !in first[1..] by {
        assert forall c :: c in first[1..] ==> c in first;
      }
      SplitJoin(shorter);
      assert Join(rows) == [first[0]] + Join(shorter) by {
        if |rows| > 1 {
          assert rows[1..] == shorter[1..];
        }
      }
      assert first[0] in first;
      SplitCons(first[0], Join(shorter));
      assert [first[0]] + first[1..] == first;
      assert [first] + shorter[1..] == rows;
    }
  }

  // ---------------------------------------------------------------------------
  // Loading a position
  // ---------------------------------------------------------------------------

  /** The column counter of the loader: a number, or NaN once a character that is
      neither a piece nor a digit has been added to it. */
  datatype Column = At(x: nat) | NotANumber

  /** Integer parsing of a one-character string: a decimal digit, or NaN. */
  function DigitValue(c: char): (v: Column)
    ensures v.At? <==> '0' <= c <= '9'
    ensures v.At? ==> v.x <= 9
  {
    if '0' <= c <= '9' then At(c as int - '0' as int) else NotANumber
  }

  /** Number addition where NaN absorbs everything. */
  function Advance(x: Column, d: Column): (r: Column)
    ensures r.At? <==> x.At? && d.At?
    ensures r.At? ==> r.x == x.x + d.x
  {
    if x.At? && d.At? then At(x.x + d.x) else NotANumber
  }

  /** The page's guarded placement: the piece is written at flat index x + 8y only when
      that index holds an empty cell. A NaN column or an index past the last cell reads
      as no piece, which is not the empty marker, so nothing is written either. */
  function PlacePiece(b: Board, x: Column, y: nat, piece: Piece): Board
  {
    if x.At? && x.x + Side * y < CellCount && b[x.x + Side * y] == Empty
    then b[x.x + Side * y := piece]
    else b
  }

  /** The guard of `PlacePiece`: an occupied cell is never overwritten, no cell but
      x + 8y is touched, and an empty cell x + 8y on the board receives the piece. */
  lemma PlaceGuarded(b: Board, x: Column, y: nat, piece: Piece)
    ensures forall i :: 0 <= i < CellCount && b[i] != Empty ==> PlacePiece(b, x, y, piece)[i] == b[i]
    ensures forall i :: 0 <= i < CellCount && !(x.At? && i == x.x + Side * y) ==>
      PlacePiece(b, x, y, piece)[i] == b[i]
    ensures x.At? && x.x + Side * y < CellCount && b[x.x + Side * y] == Empty ==>
      PlacePiece(b, x, y, piece)[x.x + Side * y] == piece
  {
  }

  /** One row of the loader: 'P' places a white piece and 'p' a black one, each moving
      one column on; any other character moves on by its integer value. */
  function LoadRow(b: Board, row: string, x: Column, y: nat): Board
    decreases |row|
  {
    if row == [] then b
    else if row[0] == 'P' then LoadRow(PlacePiece(b, x, y, Occupied(White)), row[1..], Advance(x, At(1)), y)
    else if row[0] == 'p' then LoadRow(PlacePiece(b, x, y, Occupied(Black)), row[1..], Advance(x, At(1)), y)
    else LoadRow(b, row[1..], Advance(x, DigitValue(row[0])), y)
  }

  /** The rows in order, the first at y; each row restarts at column 0. */
  function LoadRows(b: Board, rows: seq<string>, y: nat): Board
    decreases |rows|
  {
    if rows == [] then b else LoadRows(LoadRow(b, rows[0], At(0), y), rows[1..], y + 1)
  }

  /** Loading a position string onto a board. */
  function LoadFen(b: Board, fen: string): Board
  {
    LoadRows(b, Split(fen), 0)
  }

  // ---------------------------------------------------------------------------
  // The reference reading of a position string
  // ---------------------------------------------------------------------------

  predicate RowChar(c: char)
  {
    c == 'P' || c == 'p' || '0' <= c <= '9'
  }

  predicate WellFormedRow(row: string)
  {
    forall i :: 0 <= i < |row| ==> RowChar(row[i])
  }

  /** A run of `n` empty cells. */
  function Blank(n: nat): (r: seq<Piece>)
    ensures |r| == n && forall i :: 0 <= i < n ==> r[i] == Empty
  {
    seq(n, _ => Empty)
  }

  /** The cells one character stands for. */
  function ExpandChar(c: char): seq<Piece>
    requires RowChar(c)
  {
    if c == 'P' then [Occupied(White)]
    else if c == 'p' then [Occupied(Black)]
    else Blank(c as int - '0' as int)
  }

  /** The cells a row stands for, left to right. */
  function Expand(row: string): seq<Piece>
    requires WellFormedRow(row)
    decreases |row|
  {
    if row == [] then [] else ExpandChar(row[0]) + Expand(row[1..])
  }

  /** A position string of at most eight rows, each of pieces and digits, none wider
      than the board. */
  predicate WellFormedFen(fen: string)
  {
    var rows := Split(fen);
    |rows| <= Side && RowsFit(rows)
  }

  /** Every row is made of pieces and digits and is no wider than the board. */
  predicate RowsFit(rows: seq<string>)
  {
    forall j :: 0 <= j < |rows| ==> WellFormedRow(rows[j]) && |Expand(rows[j])| <= Side
  }

  /** What the reference reading puts on cell (x, y): the x-th cell of row y when the
      row reaches that far, empty otherwise. */
  function FenCell(rows: seq<string>, x: nat, y: nat): Piece
    requires forall j :: 0 <= j < |rows| ==> WellFormedRow(rows[j])
  {
    if y < |rows| && x < |Expand(rows[y])| then Expand(rows[y])[x] else Empty
  }

  /** Cells lo .. hi-1 are empty. */
  predicate EmptyRange(b: Board, lo: nat, hi: nat)
  {
    forall i :: lo <= i < hi && i < CellCount ==> b[i] == Empty
  }

  lemma EmptyRangeWithin(b: Board, lo: nat, hi: nat, lo2: nat, hi2: nat)
    requires EmptyRange(b, lo, hi) && lo <= lo2 && hi2 <= hi
    ensures EmptyRange(b, lo2, hi2)
  {
  }

  /** How many cells one character of a row covers. */
  function CharWidth(c: char): nat
    requires RowChar(c)
  {
    if c == 'P' || c == 'p' then 1 else c as int - '0' as int
  }

  /** How many cells a row covers. */
  function Width(row: string): nat
    requires WellFormedRow(row)
    decreases |row|
  {
    if row == [] then 0 else CharWidth(row[0]) + Width(row[1..])
  }

  /** Cell k of a row's reading, found character by character. */
  function RowAt(row: string, k: nat): Piece
    requires WellFormedRow(row)
    decreases |row|
  {
    if row == [] then Empty
    else if k < CharWidth(row[0]) then (if '0' <= row[0] <= '9' then Empty else PieceOf(row[0]))
    else RowAt(row[1..], k - CharWidth(row[0]))
  }

  /** The reading character by character agrees with the expansion of the row. */
  lemma {:induction false} ExpandIsRowAt(row: string)
    requires WellFormedRow(row)
    ensures |Expand(row)| == Width(row)
    ensures forall k :: 0 <= k < Width(row) ==> Expand(row)[k] == RowAt(row, k)
    decreases |row|
  {
    if row != [] {
      TailWellFormed(row);
      ExpandIsRowAt(row[1..]);
      var head := ExpandChar(row[0]);
      assert |head| == CharWidth(row[0]);
      forall k | 0 <= k < Width(row)
        ensures Expand(row)[k] == RowAt(row, k)
      {
        if k < |head| {
          assert Expand(row)[k] == head[k];
        } else {
          assert Expand(row)[k] == Expand(row[1..])[k - |head|];
        }
      }
    }
  }

  /** What cell i holds once `row` is written onto b from flat index `base`. */
  function Written(b: Board, base: nat, row: string, i: nat): Piece
    requires WellFormedRow(row) && i < CellCount
  {
    if base <= i < base + Width(row) then RowAt(row, i - base) else b[i]
  }

  /** A well-formed row written from flat index x0 + 8y onto empty cells puts its
      reading there, cell for cell, and touches nothing else. */
  lemma {:induction false} LoadRowCell(b: Board, row: string, x0: nat, y: nat, i: nat)
    requires WellFormedRow(row) && x0 + Side * y + Width(row) <= CellCount
    requires EmptyRange(b, x0 + Side * y, x0 + Side * y + Width(row)) && i < CellCount
    ensures LoadRow(b, row, At(x0), y)[i] == Written(b, x0 + Side * y, row, i)
    decreases |row|, 1
  {
    if row != [] {
      TailWellFormed(row);
      LoadRowStep(b, row, x0, y);
      if row[0] == 'P' || row[0] == 'p' {
        PieceCell(b, row, x0, y, i);
      } else {
        DigitCell(b, row, x0, y, i);
      }
    }
  }

  /** The step of `LoadRowCell` for a piece character. */
  lemma {:induction false} PieceCell(b: Board, row: string, x0: nat, y: nat, i: nat)
    requires row != [] && (row[0] == 'P' || row[0] == 'p')
    requires WellFormedRow(row) && RowChar(row[0]) && WellFormedRow(row[1..])
    requires x0 + Side * y + Width(row) <= CellCount
    requires EmptyRange(b, x0 + Side * y, x0 + Side * y + Width(row)) && i < CellCount
    ensures LoadRow(PlacePiece(b, At(x0), y, PieceOf(row[0])), row[1..], At(x0 + 1), y)[i] ==
      Written(b, x0 + Side * y, row, i)
    decreases |row|, 0
  {
    PlaceOnEmpty(b, x0, y, PieceOf(row[0]), Width(row));
    LoadRowCell(PlacePiece(b, At(x0), y, PieceOf(row[0])), row[1..], x0 + 1, y, i);
    WrittenPiece(b, x0, y, row, i);
  }

  /** The step of `LoadRowCell` for a digit. */
  lemma {:induction false} DigitCell(b: Board, row: string, x0: nat, y: nat, i: nat)
    requires row != [] && '0' <= row[0] <= '9'
    requires WellFormedRow(row) && RowChar(row[0]) && WellFormedRow(row[1..])
    requires x0 + Side * y + Width(row) <= CellCount
    requires EmptyRange(b, x0 + Side * y, x0 + Side * y + Width(row)) && i < CellCount
    ensures LoadRow(b, row[1..], At(x0 + CharWidth(row[0])), y)[i] == Written(b, x0 + Side * y, row, i)
    decreases |row|, 0
  {
    var base := x0 + Side * y;
    EmptyRangeWithin(b, base, base + Width(row), base + CharWidth(row[0]), base + Width(row));
    LoadRowCell(b, row[1..], x0 + CharWidth(row[0]), y, i);
    WrittenDigit(b, x0, y, row, i);
  }

  lemma TailWellFormed(row: string)
    requires WellFormedRow(row) && row != []
    ensures RowChar(row[0]) && WellFormedRow(row[1..])
    ensures Expand(row) == ExpandChar(row[0]) + Expand(row[1..])
  {
    assert forall i :: 0 <= i < |row| - 1 ==> row[1..][i] == row[i + 1];
  }

  /** One character of the loader: a piece is placed at the column, then the column
      moves on by one; a digit only moves the column on. */
  lemma LoadRowStep(b: Board, row: string, x0: nat, y: nat)
    requires row != [] && RowChar(row[0])
    ensures row[0] == 'P' || row[0] == 'p' ==>
      LoadRow(b, row, At(x0), y) ==
      LoadRow(PlacePiece(b, At(x0), y, PieceOf(row[0])), row[1..], At(x0 + 1), y)
    ensures '0' <= row[0] <= '9' ==>
      LoadRow(b, row, At(x0), y) == LoadRow(b, row[1..], At(x0 + CharWidth(row[0])), y)
  {
  }

  /** Placing a piece on the first of a run of empty cells writes just that cell. */
  lemma PlaceOnEmpty(b: Board, x0: nat, y: nat, piece: Piece, n: nat)
    requires 1 <= n && x0 + Side * y + n <= CellCount
    requires EmptyRange(b, x0 + Side * y, x0 + Side * y + n)
    ensures PlacePiece(b, At(x0), y, piece) == b[x0 + Side * y := piece]
    ensures EmptyRange(PlacePiece(b, At(x0), y, piece), x0 + Side * y + 1, x0 + Side * y + n)
  {
    assert b[x0 + Side * y] == Empty;
  }

  /** A piece character writes its cell, then the rest of the row from the next one. */
  lemma WrittenPiece(b: Board, x0: nat, y: nat, row: string, i: nat)
    requires row != [] && (row[0] == 'P' || row[0] == 'p')
    requires WellFormedRow(row) && RowChar(row[0]) && WellFormedRow(row[1..])
    requires x0 + Side * y + Width(row) <= CellCount && i < CellCount
    ensures Written(b[x0 + Side * y := PieceOf(row[0])], x0 + 1 + Side * y, row[1..], i) ==
      Written(b, x0 + Side * y, row, i)
  {
  }

  /** A digit leaves its run of cells empty, and the rest of the row follows the run. */
  lemma WrittenDigit(b: Board, x0: nat, y: nat, row: string, i: nat)
    requires row != [] && '0' <= row[0] <= '9'
    requires WellFormedRow(row) && RowChar(row[0]) && WellFormedRow(row[1..])
    requires x0 + Side * y + Width(row) <= CellCount && i < CellCount
    requires EmptyRange(b, x0 + Side * y, x0 + Side * y + Width(row))
    ensures Written(b, x0 + CharWidth(row[0]) + Side * y, row[1..], i) == Written(b, x0 + Side * y, row, i)
  {
    var base := x0 + Side * y;
    if base <= i < base + CharWidth(row[0]) {
      assert b[i] == Empty;
    }
  }

  /** Rows loaded from row y down onto a board whose rows from y on are empty put the
      reference reading on each cell from row y on and leave the cells above alone. */
  lemma {:induction false} LoadRowsCell(b: Board, rows: seq<string>, y: nat, c: Coord)
    requires y + |rows| <= Side && RowsFit(rows)
    requires EmptyRange(b, Side * y, CellCount) && InBounds(c)
    ensures GetPiece(LoadRows(b, rows, y), c) ==
      if y <= c.y then FenCell(rows, c.x, c.y - y) else GetPiece(b, c)
    decreases |rows|, 1
  {
    if rows == [] {
      assert y <= c.y ==> Index(c) >= Side * y;
    } else {
      NextRowsCell(b, rows, y, c);
    }
  }

  /** The step of `LoadRowsCell`: the first row, then the rest from the next row on. */
  lemma {:induction false} NextRowsCell(b: Board, rows: seq<string>, y: nat, c: Coord)
    requires rows != [] && y + |rows| <= Side && RowsFit(rows)
    requires EmptyRange(b, Side * y, CellCount) && InBounds(c)
    ensures GetPiece(LoadRows(b, rows, y), c) ==
      if y <= c.y then FenCell(rows, c.x, c.y - y) else GetPiece(b, c)
    decreases |rows|, 0
  {
    FirstRowCell(b, rows, y, c);
    LoadRowsCell(LoadRow(b, rows[0], At(0), y), rows[1..], y + 1, c);
    if y < c.y {
      assert FenCell(rows[1..], c.x, c.y - (y + 1)) == FenCell(rows, c.x, c.y - y);
    }
  }

  /** Loading the first of the rows onto row y puts its reading on row y, leaves the
      other rows alone, and so leaves the rows below empty. */
  lemma FirstRowCell(b: Board, rows: seq<string>, y: nat, c: Coord)
    requires rows != [] && y < Side && RowsFit(rows)
    requires EmptyRange(b, Side * y, CellCount) && InBounds(c)
    ensures EmptyRange(LoadRow(b, rows[0], At(0), y), Side * (y + 1), CellCount)
    ensures GetPiece(LoadRow(b, rows[0], At(0), y), c) ==
      if c.y == y then FenCell(rows, c.x, 0) else GetPiece(b, c)
  {
    var base := Side * y;
    ExpandIsRowAt(rows[0]);
    EmptyRangeWithin(b, base, CellCount, base, base + Width(rows[0]));
    forall i | base + Side <= i < CellCount
      ensures LoadRow(b, rows[0], At(0), y)[i] == Empty
    {
      LoadRowCell(b, rows[0], 0, y, i);
    }
    LoadRowCell(b, rows[0], 0, y, Index(c));
  }

  /** Loading a well-formed position onto a fresh board yields the reference reading:
      cell (x, y) holds the x-th cell of row y. */
  lemma LoadFenIsReference(fen: string)
    requires WellFormedFen(fen)
    ensures forall c :: InBounds(c) ==> GetPiece(LoadFen(NewBoard(), fen), c) == FenCell(Split(fen), c.x, c.y)
  {
    var rows := Split(fen);
    var empty := NewBoard();
    assert EmptyRange(empty, 0, CellCount);
    assert |rows| <= Side && RowsFit(rows);
    forall c | InBounds(c)
      ensures GetPiece(LoadRows(empty, rows, 0), c) == FenCell(rows, c.x, c.y)
    {
      LoadRowsCell(empty, rows, 0, c);
    }
  }

  /** Loading never removes or replaces a piece already on the board. */
  lemma {:induction false} LoadRowKeepsPieces(b: Board, row: string, x: Column, y: nat)
    ensures forall i :: 0 <= i < CellCount && b[i] != Empty ==> LoadRow(b, row, x, y)[i] == b[i]
    decreases |row|
  {
    if row != [] {
      if row[0] == 'P' {
        PlaceGuarded(b, x, y, Occupied(White));
        LoadRowKeepsPieces(PlacePiece(b, x, y, Occupied(White)), row[1..], Advance(x, At(1)), y);
      } else if row[0] == 'p' {
        PlaceGuarded(b, x, y, Occupied(Black));
        LoadRowKeepsPieces(PlacePiece(b, x, y, Occupied(Black)), row[1..], Advance(x, At(1)), y);
      } else {
        LoadRowKeepsPieces(b, row[1..], Advance(x, DigitValue(row[0])), y);
      }
    }
  }

  lemma {:induction false} LoadRowsKeepPieces(b: Board, rows: seq<string>, y: nat)
    ensures forall i :: 0 <= i < CellCount && b[i] != Empty ==> LoadRows(b, rows, y)[i] == b[i]
    decreases |rows|
  {
    if rows != [] {
      LoadRowKeepsPieces(b, rows[0], At(0), y);
      LoadRowsKeepPieces(LoadRow(b, rows[0], At(0), y), rows[1..], y + 1);
    }
  }

  /** Whatever the string, a piece already on the board survives loading. */
  lemma LoadFenKeepsPieces(b: Board, fen: string)
    ensures forall i :: 0 <= i < CellCount && b[i] != Empty ==> LoadFen(b, fen)[i] == b[i]
  {
    LoadRowsKeepPieces(b, Split(fen), 0);
  }

  /** A character that is neither a piece nor a digit turns the column into NaN, after
      which nothing more is placed in that row. */
  lemma {:induction false} NaNRowPlacesNothing(b: Board, row: string, y: nat)
    ensures LoadRow(b, row, NotANumber, y) == b
    decreases |row|
  {
    if row != [] {
      NaNRowPlacesNothing(b, row[1..], y);
    }
  }

  // ---------------------------------------------------------------------------
  // Playing: the human's moves and the AI's replies
  // ---------------------------------------------------------------------------

  /** The board on the page and the side whose turn it is. */
  datatype GameState = GameState(board: Board, turn: Player)

  /** The page starts with an empty board and white to move. */
  function NewGame(): (s: GameState)
    ensures s.turn == White
    ensures forall c :: InBounds(c) ==> GetPiece(s.board, c) == Empty
  {
    GameState(NewBoard(), White)
  }

  /** The page's own move: the target is written first with the piece on the start
      cell, then the start cell is emptied. */
  function ApplyMove(b: Board, m: Move): (r: Board)
    requires InBounds(m.from) && InBounds(m.to)
    ensures GetPiece(r, m.from) == Empty
    ensures m.from != m.to ==> GetPiece(r, m.to) == GetPiece(b, m.from)
    ensures forall c :: InBounds(c) && c != m.from && c != m.to ==> GetPiece(r, c) == GetPiece(b, c)
  {
    var moved := SetPiece(b, m.to, GetPiece(b, m.from));
    SetPiece(moved, m.from, Empty)
  }

  /** For a move between two distinct cells the page's update and the engine's agree;
      for a move onto its own start cell the page would lose the piece, which the
      engine's order of writes keeps. */
  lemma ApplyMoveIsDoMove(b: Board, m: Move)
    requires InBounds(m.from) && InBounds(m.to)
    ensures m.from != m.to ==> ApplyMove(b, m) == DoMove(b, m)
    ensures m.from == m.to ==> GetPiece(ApplyMove(b, m), m.from) == Empty
    ensures m.from == m.to ==> GetPiece(DoMove(b, m), m.from) == GetPiece(b, m.from)
  {
    if m.from != m.to {
      BoardsEqual(ApplyMove(b, m), DoMove(b, m));
    }
  }

  /** The page's undo as written: both writes go through the guarded placement, so the
      piece is put back on `from` only when `from` is empty, and `to` is cleared only
      when it is already empty. */
  function PageUndoMove(b: Board, m: Move): Board
    requires InBounds(m.from) && InBounds(m.to)
  {
    var pieceToMove := GetPiece(b, m.to);
    var restored := PlacePiece(b, At(m.from.x), m.from.y, pieceToMove);
    PlacePiece(restored, At(m.to.x), m.to.y, Empty)
  }

  /** Undoing a generated move with the page's undo copies the piece back to `from` but
      leaves it on `to` as well: the board gains a piece instead of being restored. */
  lemma PageUndoDuplicates(b: Board, m: Move)
    requires Reversible(b, m) && GetPiece(b, m.from) != Empty
    ensures GetPiece(PageUndoMove(DoMove(b, m), m), m.from) == GetPiece(b, m.from)
    ensures GetPiece(PageUndoMove(DoMove(b, m), m), m.to) == GetPiece(b, m.from)
    ensures PageUndoMove(DoMove(b, m), m) != b
  {
    IndexBijective(m.from, m.to);
    var after := DoMove(b, m);
    var restored := PlacePiece(after, At(m.from.x), m.from.y, GetPiece(after, m.to));
    assert restored == after[Index(m.from) := GetPiece(b, m.from)];
    assert PageUndoMove(after, m) == restored;
  }

  /** A move between distinct cells onto an empty one keeps every piece: the board's
      contents as a multiset do not change. */
  lemma DoMoveKeepsPieces(b: Board, m: Move)
    requires Reversible(b, m)
    ensures multiset(DoMove(b, m)) == multiset(b)
  {
    var i := Index(m.from);
    var j := Index(m.to);
    IndexBijective(m.from, m.to);
    var cleared := b[i := Empty];
    assert multiset(cleared) == multiset(b) - multiset{b[i]} + multiset{Empty};
    assert cleared[j] == Empty;
    assert multiset(cleared[j := b[i]]) == multiset(cleared) - multiset{Empty} + multiset{b[i]};
  }

  /** The first move of `ms` that ends on `target`, if any. */
  function FindTarget(ms: seq<Move>, target: Coord): (r: Option<Move>)
    ensures r.Some? ==> r.value in ms && r.value.to == target
    ensures r.None? <==> target !in Targets(ms)
    decreases |ms|
  {
    if ms == [] then None
    else if ms[0].to == target then Some(ms[0])
    else
      var r := FindTarget(ms[1..], target);
      assert Targets(ms) == {ms[0].to} + Targets(ms[1..]) by {
        assert forall m :: m in ms <==> m == ms[0] || m in ms[1..];
      }
      r
  }

  /** How a move attempt ends: the start cell does not hold a piece of the side to move;
      the start cell was clicked again, which only deselects it; no generated move of the
      piece reaches the target, which plays the error sound; or the move is played. */
  datatype Attempt = NotYours | Deselected | NoSuchMove | Played(state: GameState, move: Move)

  /** A human move attempt from `start` to `target`. A played move is the generated move
      of the start piece that reaches the target, and the turn passes to the other side. */
  function TryMove(s: GameState, start: Coord, target: Coord): (r: Attempt)
    requires InBounds(start)
    ensures r.NotYours? <==> GetPiece(s.board, start) != Occupied(s.turn)
    ensures r.Deselected? <==> GetPiece(s.board, start) == Occupied(s.turn) && start == target
    ensures r.Played? ==>
      && r.move in FromTile(s.board, start) && r.move.to == target
      && r.state.turn == Opponent(s.turn)
      && Reversible(s.board, r.move) && r.state.board == DoMove(s.board, r.move)
  {
    if GetPiece(s.board, start) != Occupied(s.turn) then NotYours
    else if start == target then Deselected
    else
      match FindTarget(FromTile(s.board, start), target)
      case None => NoSuchMove
      case Some(m) =>
        LegalIsReversible(s.board, start, m);
        ApplyMoveIsDoMove(s.board, m);
        Played(GameState(ApplyMove(s.board, m), Opponent(s.turn)), m)
  }

  /** A move attempt is played exactly when the side to move owns the start piece and
      some legal move of that piece ends on the target; the move played is legal and no
      legal move to the same target is shorter. */
  lemma TryMoveIsLegal(s: GameState, start: Coord, target: Coord)
    requires InBounds(start)
    ensures TryMove(s, start, target).Played? <==>
      GetPiece(s.board, start) == Occupied(s.turn) && exists m :: LegalMove(s.board, start, m) && m.to == target
    ensures TryMove(s, start, target).NoSuchMove? <==>
      && GetPiece(s.board, start) == Occupied(s.turn) && start != target
      && forall m :: LegalMove(s.board, start, m) ==> m.to != target
    ensures TryMove(s, start, target).Played? ==>
      var played := TryMove(s, start, target).move;
      && LegalMove(s.board, start, played)
      && forall m :: LegalMove(s.board, start, m) && m.to == target ==> |played.path| <= |m.path|
  {
    var r := TryMove(s, start, target);
    if exists m :: LegalMove(s.board, start, m) && m.to == target {
      var m :| LegalMove(s.board, start, m) && m.to == target;
      LegalIsReversible(s.board, start, m);
      FromTileComplete(s.board, start, m);
    }
    if r.Played? {
      forall m | LegalMove(s.board, start, m) && m.to == target
        ensures |r.move.path| <= |m.path|
      {
        FromTileShortest(s.board, start, r.move, m);
      }
    }
  }

  /** The AI's reply as the page receives it: the turn passes back in any case, and the
      board changes only when a move arrived. */
  function ReceiveAiMove(s: GameState, move: Option<Move>): (r: GameState)
    requires move.Some? ==> InBounds(move.value.from) && InBounds(move.value.to)
    ensures r.turn == Opponent(s.turn)
    ensures move.None? ==> r.board == s.board
    ensures move.Some? ==> GetPiece(r.board, move.value.from) == Empty
    ensures move.Some? ==> forall c :: InBounds(c) && c != move.value.from && c != move.value.to ==>
      GetPiece(r.board, c) == GetPiece(s.board, c)
    ensures move.Some? && move.value.from != move.value.to ==>
      r.board == DoMove(s.board, move.value)
  {
    var turn := if s.turn == Black then White else Black;
    match move
    case None => GameState(s.board, turn)
    case Some(m) =>
      ApplyMoveIsDoMove(s.board, m);
      GameState(ApplyMove(s.board, m), turn)
  }

  /** One AI turn: the engine picks a move for the side to move and the page applies it.
      The turn passes; the board stays as it was exactly when the side to move has
      already won or has no move, and otherwise it is the engine's move done on it. */
  function AiTurn(s: GameState, difficulty: Difficulty, roll: nat): (r: GameState)
    ensures r.turn == Opponent(s.turn)
    ensures r.board == s.board <==>
      Evaluation.Finished(s.board, s.turn) || AllMoves(s.board, s.turn) == []
    ensures r.board != s.board ==>
      exists m :: m in AllMoves(s.board, s.turn) && Reversible(s.board, m) && r.board == DoMove(s.board, m)
    ensures multiset(r.board) == multiset(s.board)
  {
    var decision := Search.FindMove(s.board, s.turn, difficulty, roll);
    match decision.move
    case None => ReceiveAiMove(s, None)
    case Some(m) =>
      AllMovesReversible(s.board, s.turn);
      assert Reversible(s.board, m);
      assert GetPiece(s.board, m.from) == Occupied(s.turn);
      DoMoveKeepsPieces(s.board, m);
      var r := ReceiveAiMove(s, Some(m));
      assert GetPiece(r.board, m.from) != GetPiece(s.board, m.from);
      r
  }

  /** A played human move keeps every piece on the board, and after the AI's reply the
      turn is back with the human. */
  lemma RoundKeepsPieces(s: GameState, start: Coord, target: Coord, difficulty: Difficulty, roll: nat)
    requires InBounds(start) && TryMove(s, start, target).Played?
    ensures multiset(TryMove(s, start, target).state.board) == multiset(s.board)
    ensures AiTurn(TryMove(s, start, target).state, difficulty, roll).turn == s.turn
    ensures multiset(AiTurn(TryMove(s, start, target).state, difficulty, roll).board) == multiset(s.board)
  {
    var played := TryMove(s, start, target);
    TryMoveIsLegal(s, start, target);
    LegalIsReversible(s.board, start, played.move);
    DoMoveKeepsPieces(s.board, played.move);
  }

  // ---------------------------------------------------------------------------
  // The starting position
  // ---------------------------------------------------------------------------

  /** The position the page loads at start-up, 4pppp/5ppp/6pp/7p/P/PP/PPP/PPPP: its
      eight rows joined with the separator. */
  const StartFen: string := Join(StartRowList)

  /** What the starting position holds on cell (x, y): black in the four-row triangle
      at the top-right corner, white in the one at the bottom-left corner. */
  function StartCell(x: int, y: int): Piece
  {
    if y <= 3 && x >= 4 + y then Occupied(Black)
    else if y >= 4 && x <= y - 4 then Occupied(White)
    else Empty
  }

  /** A row of the form "<n><k piece characters>": n skipped cells (none when n is 0),
      then k pieces. */
  function PieceRow(n: nat, k: nat, c: char): string
    requires n <= 9
  {
    (if n == 0 then [] else [('0' as int + n) as char]) + Repeat(k, c)
  }

  /** k copies of `x`. */
  function Repeat<T>(k: nat, x: T): (r: seq<T>)
    ensures |r| == k && forall i :: 0 <= i < k ==> r[i] == x
  {
    seq(k, _ => x)
  }

  function PieceOf(c: char): Piece
  {
    if c == 'P' then Occupied(White) else Occupied(Black)
  }

  lemma {:induction false} PiecesExpand(k: nat, c: char)
    requires c == 'P' || c == 'p'
    ensures WellFormedRow(Repeat(k, c))
    ensures Expand(Repeat(k, c)) == Repeat(k, PieceOf(c))
    decreases k
  {
    if k > 0 {
      var row := Repeat(k, c);
      assert row[1..] == Repeat(k - 1, c);
      PiecesExpand(k - 1, c);
      TailWellFormed(row);
    }
  }

  lemma PieceRowExpands(n: nat, k: nat, c: char)
    requires n <= 9 && (c == 'P' || c == 'p')
    ensures WellFormedRow(PieceRow(n, k, c))
    ensures Expand(PieceRow(n, k, c)) == Blank(n) + Repeat(k, PieceOf(c))
  {
    PiecesExpand(k, c);
    var row := PieceRow(n, k, c);
    if n > 0 {
      assert row[1..] == Repeat(k, c);
      TailWellFormed(row);
      assert Expand(row) == ExpandChar(row[0]) + Repeat(k, PieceOf(c));
      assert row[0] as int - '0' as int == n;
    } else {
      assert row == Repeat(k, c);
    }
  }

  /** Row y of the starting position. */
  function StartRow(y: nat): string
  {
    if y <= 3 then PieceRow(4 + y, 4 - y, 'p') else PieceRow(0, y - 3, 'P')
  }

  const StartRowList: seq<string> := ["4pppp", "5ppp", "6pp", "7p", "P", "PP", "PPP", "PPPP"]

  lemma StartFenRows()
    ensures Split(StartFen) == StartRowList
  {
    SplitJoin(StartRowList);
  }

  lemma StartRowShape(y: nat)
    requires y < Side
    ensures StartRowList[y] == StartRow(y)
  {
    var row := StartRow(y);
    if y <= 3 {
      assert row[0] == StartRowList[y][0];
      forall i | 1 <= i < |row|
        ensures row[i] == 'p'
      {
        assert row[i] == Repeat(4 - y, 'p')[i - 1];
      }
    }
  }

  lemma StartRows() returns (rows: seq<string>)
    ensures rows == Split(StartFen)
    ensures |rows| == Side && forall y :: 0 <= y < Side ==> rows[y] == StartRow(y)
  {
    rows := StartRowList;
    StartFenRows();
    forall y | 0 <= y < Side
      ensures rows[y] == StartRow(y)
    {
      StartRowShape(y);
    }
  }

  lemma StartCellIsRow(rows: seq<string>, c: Coord)
    requires |rows| == Side && forall y :: 0 <= y < Side ==> rows[y] == StartRow(y)
    requires InBounds(c)
    ensures WellFormedRow(rows[c.y]) && |Expand(rows[c.y])| <= Side
    ensures (forall j :: 0 <= j < |rows| ==> WellFormedRow(rows[j])) ==> FenCell(rows, c.x, c.y) == StartCell(c.x, c.y)
  {
    if c.y <= 3 {
      PieceRowExpands(4 + c.y, 4 - c.y, 'p');
    } else {
      PieceRowExpands(0, c.y - 3, 'P');
    }
  }

  /** Loading the start-up position string gives the two corner triangles. */
  lemma StartPosition()
    ensures forall c :: InBounds(c) ==> GetPiece(LoadFen(NewBoard(), StartFen), c) == StartCell(c.x, c.y)
  {
    var rows := StartRows();
    forall j | 0 <= j < |rows|
      ensures WellFormedRow(rows[j]) && |Expand(rows[j])| <= Side
    {
      StartCellIsRow(rows, Coord(0, j));
    }
    LoadFenIsReference(StartFen);
    forall c | InBounds(c)
      ensures FenCell(rows, c.x, c.y) == StartCell(c.x, c.y)
    {
      StartCellIsRow(rows, c);
    }
  }
}
