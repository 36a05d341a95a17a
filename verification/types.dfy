/** Shared vocabulary of the corners engine: players, cell contents, coordinates,
    moves and the difficulty setting. */
module Types {

  /** The two sides. White starts in the bottom-left corner, black in the top-right one. */
  datatype Player = Black | White

  /** What a cell holds: nothing, or a piece of one side. Pieces carry no identity. */
  datatype Piece = Empty | Occupied(owner: Player)

  /** A cell address; the board only ever reads cells with 0 <= x, y <= 7. */
  datatype Coord = Coord(x: int, y: int)

  /** One turn of one piece: where it starts, where it ends and every cell it visits,
      start and end included. */
  datatype Move = Move(from: Coord, to: Coord, path: seq<Coord>)

  datatype Difficulty = Easy | Medium | Hard

  /** An optional value; `None` is the engine's "no move". */
  datatype Option<+T> = None | Some(value: T)

  function Opponent(p: Player): (q: Player)
    ensures q != p
  {
    if p == Black then White else Black
  }

  function Abs(n: int): nat
  {
    if n < 0 then -n else n
  }

  function Last<T>(s: seq<T>): T
    requires |s| > 0
  {
    s[|s| - 1]
  }
}
