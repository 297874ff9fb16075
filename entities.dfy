/** Value types of the maze: cell tags, board positions and rooms. */
module Entities {

  /** The tag of one board cell. `Empty` is the tag a board is created
      with, before the first clear turns every cell into `Wall`. */
  datatype Cell = Empty | Wall | Floor | Key | Locked | Unlocked

  /** A board coordinate; the board is indexed `board[x][y]`. Player,
      key and door positions are plain positions held by the board. */
  datatype Pos = Pos(x: int, y: int)

  /** The "not on the board" position: before a level is placed, and the
      key's position once it has been collected. */
  const Offboard: Pos := Pos(-1, -1)

  /** Python's `int(n / 2)` on the small sizes the game halves: halving
      that truncates toward zero. */
  function HalfTowardZero(n: int): (h: int)
    ensures 0 <= n ==> 0 <= n - 2 * h <= 1
    ensures n < 0 ==> 0 <= 2 * h - n <= 1
  {
    if n >= 0 then n / 2 else -((-n) / 2)
  }

  /** A rectangular room: anchor (x, y), width w along x, height h along
      y, and its centre (cx, cy), computed once when the room is made. */
  datatype Room = Room(x: int, y: int, w: int, h: int, cx: int, cy: int)

  /** The room with anchor (x, y), width w and height h. Its centre lies
      inside the rectangle and splits it as evenly as integers allow. */
  function MakeRoom(x: int, y: int, w: int, h: int): (r: Room)
    ensures r.x == x && r.y == y && r.w == w && r.h == h
    ensures w > 0 ==> x <= r.cx < x + w && w - 1 <= 2 * (r.cx - x) <= w
    ensures h > 0 ==> y <= r.cy < y + h && h - 1 <= 2 * (r.cy - y) <= h
  {
    Room(x, y, w, h, x + HalfTowardZero(w), y + HalfTowardZero(h))
  }

  /** The centre of a room as a board position. */
  function Centre(r: Room): Pos
  {
    Pos(r.cx, r.cy)
  }

  /** Whether cell (x, y) lies in the rectangle of room r. */
  predicate InRoom(r: Room, x: int, y: int)
  {
    r.x <= x < r.x + r.w && r.y <= y < r.y + r.h
  }
}
