/** The game board: a width x width grid of cell tags indexed
    grid[x, y], the rooms of the current level, the player, key and door
    positions, and whether the door is locked. */
module Maze {
  import opened Entities
  import opened Layout

  class Board {
    const width: nat
    const grid: array2<Cell>
    var rooms: seq<Room>
    var player: Pos
    var key: Pos
    var door: Pos
    /** The door's lock flag. */
    var locked: bool

    ghost predicate Valid()
    {
      grid.Length0 == width && grid.Length1 == width
    }

    predicate InBounds(p: Pos)
    {
      0 <= p.x < width && 0 <= p.y < width
    }

    /** The state a level keeps while it is played: the player stands on a
        cell that is not a wall, the door's cell shows its lock state, the
        key is on the board, on its own cell, exactly while the door is
        locked. */
    ghost predicate Consistent()
      reads this, grid
    {
      && Valid()
      && InBounds(player) && grid[player.x, player.y] != Wall
      && InBounds(door) && grid[door.x, door.y] == (if locked then Locked else Unlocked)
      && (locked <==> key != Offboard)
      && (key != Offboard ==> InBounds(key) && key != door && grid[key.x, key.y] == Key)
    }

    /** A new board: every cell Empty, no rooms, the player, key and door
        off the board and the door locked. */
    constructor (iwidth: nat)
      ensures Valid() && width == iwidth && fresh(grid)
      ensures forall x, y :: 0 <= x < width && 0 <= y < width ==> grid[x, y] == Empty
      ensures rooms == [] && player == Offboard && key == Offboard && door == Offboard
      ensures locked
    {
      width := iwidth;
      grid := new Cell[iwidth, iwidth]((_, _) => Empty);
      rooms := [];
      key := Offboard;
      door := Offboard;
      locked := true;
      player := Offboard;
    }

    /** Turns every cell into a wall and takes the player, key and door
        off the board; the lock flag and the room list are kept. */
    method Clear()
      requires Valid()
      modifies grid, this`player, this`key, this`door
      ensures forall x, y :: 0 <= x < width && 0 <= y < width ==> grid[x, y] == Wall
      ensures player == Offboard && key == Offboard && door == Offboard
      ensures locked == old(locked) && rooms == old(rooms)
    {
      var r := 0;
      while r < width
        invariant 0 <= r <= width
        invariant forall x, y :: 0 <= x < r && 0 <= y < width ==> grid[x, y] == Wall
      {
        var c := 0;
        while c < width
          invariant 0 <= c <= width
          invariant forall x, y :: 0 <= x < r && 0 <= y < width ==> grid[x, y] == Wall
          invariant forall y :: 0 <= y < c ==> grid[r, y] == Wall
        {
          grid[r, c] := Wall;
          c := c + 1;
        }
        r := r + 1;
      }
      player := Offboard;
      key := Offboard;
      door := Offboard;
    }

    /** The interact command; the result is true when the level is
        complete. Standing on the key collects it and unlocks the door;
        standing on the door completes the level exactly when it is
        unlocked; anywhere else nothing happens. */
    method Interact() returns (complete: bool)
      requires Valid()
      requires player == key ==> InBounds(key) && InBounds(door)
      modifies grid, this`key, this`locked
      ensures old(player == key) ==>
        && !complete && key == Offboard && !locked
        && forall x, y :: 0 <= x < width && 0 <= y < width ==>
             grid[x, y] == if Pos(x, y) == door then Unlocked
                           else if Pos(x, y) == old(key) then Floor
                           else old(grid[x, y])
      ensures old(player != key) ==>
        && complete == (player == door && !locked)
        && key == old(key) && locked == old(locked) && unchanged(grid)
      ensures old(Consistent()) ==> Consistent()
    {
      if key == player {
        grid[key.x, key.y] := Floor;
        key := Offboard;
        locked := false;
        grid[door.x, door.y] := Unlocked;
        return false;
      }
      if door == player {
        if locked {
          return false;
        }
        return true;
      }
      return false;
    }

    /** Stamps the rectangle with anchor (x, y), width w and height h as
        floor and appends the room to the room list. */
    method PlaceRoom(x: int, y: int, h: int, w: int)
      requires Valid()
      requires w > 0 && h > 0 ==> 0 <= x && x + w <= width && 0 <= y && y + h <= width
      modifies grid, this`rooms
      ensures rooms == old(rooms) + [MakeRoom(x, y, w, h)]
      ensures forall i, j :: 0 <= i < width && 0 <= j < width ==>
        grid[i, j] == if InRoom(MakeRoom(x, y, w, h), i, j) then Floor else old(grid[i, j])
    {
      var r := x;
      while r < x + w
        modifies grid
        invariant x <= r <= Max(x, x + w)
        invariant forall i, j :: 0 <= i < width && 0 <= j < width ==>
          grid[i, j] == if x <= i < r && y <= j < y + h then Floor else old(grid[i, j])
      {
        var c := y;
        while c < y + h
          modifies grid
          invariant y <= c <= Max(y, y + h)
          invariant forall i, j :: 0 <= i < width && 0 <= j < width ==>
            grid[i, j] == if (x <= i < r && y <= j < y + h) || (i == r && y <= j < c) then Floor
                          else old(grid[i, j])
        {
          grid[r, c] := Floor;
          c := c + 1;
        }
        r := r + 1;
      }
      rooms := rooms + [MakeRoom(x, y, w, h)];
    }

    method PlacePlayer(x: int, y: int)
      modifies this`player
      ensures player == Pos(x, y)
    {
      player := Pos(x, y);
    }

    /** Puts the door at (x, y) and marks its cell locked. */
    method PlaceDoor(x: int, y: int)
      requires Valid() && InBounds(Pos(x, y))
      modifies grid, this`door
      ensures door == Pos(x, y)
      ensures forall i, j :: 0 <= i < width && 0 <= j < width ==>
        grid[i, j] == if Pos(i, j) == door then Locked else old(grid[i, j])
    {
      door := Pos(x, y);
      grid[x, y] := Locked;
    }

    /** Puts the key at (x, y) and marks its cell as holding the key. */
    method PlaceKey(x: int, y: int)
      requires Valid() && InBounds(Pos(x, y))
      modifies grid, this`key
      ensures key == Pos(x, y)
      ensures forall i, j :: 0 <= i < width && 0 <= j < width ==>
        grid[i, j] == if Pos(i, j) == key then Key else old(grid[i, j])
    {
      key := Pos(x, y);
      grid[x, y] := Key;
    }

    /** Carves the L-shaped corridor from rm1 to rm2 as floor: the row
        through rm1's centre, then the column through rm2's centre. The
        two centres are then joined by a walk over floor cells. */
    method ConnectRooms(rm1: Room, rm2: Room)
      requires Valid()
      requires InBounds(Centre(rm1)) && InBounds(Centre(rm2))
      modifies grid
      ensures forall i, j :: 0 <= i < width && 0 <= j < width ==>
        grid[i, j] == if OnCorridor(rm1, rm2, i, j) then Floor else old(grid[i, j])
      ensures forall p :: p in Route(rm1, rm2) ==> InBounds(p) && grid[p.x, p.y] == Floor
    {
      var x := Min(rm1.cx, rm2.cx);
      while x < Max(rm1.cx, rm2.cx) + 1
        invariant Min(rm1.cx, rm2.cx) <= x <= Max(rm1.cx, rm2.cx) + 1
        invariant forall i, j :: 0 <= i < width && 0 <= j < width ==>
          grid[i, j] == if j == rm1.cy && Min(rm1.cx, rm2.cx) <= i < x then Floor else old(grid[i, j])
      {
        grid[x, rm1.cy] := Floor;
        x := x + 1;
      }
      var y := Min(rm1.cy, rm2.cy);
      while y < Max(rm1.cy, rm2.cy) + 1
        invariant Min(rm1.cy, rm2.cy) <= y <= Max(rm1.cy, rm2.cy) + 1
        invariant forall i, j :: 0 <= i < width && 0 <= j < width ==>
          grid[i, j] == if (j == rm1.cy && Between(rm1.cx, i, rm2.cx))
                           || (i == rm2.cx && Min(rm1.cy, rm2.cy) <= j < y) then Floor
                        else old(grid[i, j])
      {
        grid[rm2.cx, y] := Floor;
        y := y + 1;
      }
      RouteIsCorridorWalk(rm1, rm2);
    }

    /** The room loop of level generation: pops the blocks one by one
        from the end of the shuffled list and stamps a room of the drawn
        size at each block's anchor. */
    method StampRooms(blocks: seq<Block>, sizes: seq<(int, int)>)
      requires Valid() && MinBoardWidth <= width
      requires IsShuffle(blocks) && SizesValid(sizes)
      modifies grid, this`rooms
      ensures rooms == GeneratedRooms(blocks, sizes)
      ensures forall i, j :: 0 <= i < width && 0 <= j < width ==>
        grid[i, j] == if InSomeRoom(rooms, i, j) then Floor else old(grid[i, j])
    {
      var remaining := blocks;
      rooms := [];
      while |remaining| > 0
        invariant |remaining| <= |blocks| && remaining == blocks[..|remaining|]
        invariant |rooms| == |blocks| - |remaining|
        invariant forall k :: 0 <= k < |rooms| ==> rooms[k] == RoomFor(blocks[|blocks| - 1 - k], sizes[k])
        invariant forall i, j :: 0 <= i < width && 0 <= j < width ==>
          grid[i, j] == if InSomeRoom(rooms, i, j) then Floor else old(grid[i, j])
      {
        var thisBlock := remaining[|remaining| - 1];
        remaining := remaining[..|remaining| - 1];
        assert IsBlock(thisBlock);
        var rw, rh := sizes[|rooms|].0, sizes[|rooms|].1;
        var rx, ry := thisBlock.0 * BlockPitch + 1, thisBlock.1 * BlockPitch + 1;
        InSomeRoomAppend(rooms, MakeRoom(rx, ry, rw, rh));
        PlaceRoom(rx, ry, rh, rw);
      }
      assert rooms == GeneratedRooms(blocks, sizes);
    }

    /** The corridor loop of level generation: joins each room to the
        next one in list order. */
    method ConnectAll()
      requires Valid() && |rooms| > 0
      requires forall k :: 0 <= k < |rooms| ==> InBounds(Centre(rooms[k]))
      modifies grid
      ensures forall i, j :: 0 <= i < width && 0 <= j < width ==>
        grid[i, j] == if Linked(rooms, |rooms| - 1, i, j) then Floor else old(grid[i, j])
    {
      var r := 0;
      while r < |rooms| - 1
        invariant 0 <= r <= |rooms| - 1
        invariant forall i, j :: 0 <= i < width && 0 <= j < width ==>
          grid[i, j] == if Linked(rooms, r, i, j) then Floor else old(grid[i, j])
      {
        ConnectRooms(rooms[r], rooms[r + 1]);
        r := r + 1;
      }
    }

    /** Generates a level on a cleared board. The random choices are
        parameters: blocks is the shuffled block list, consumed from its
        end; sizes[i] is the (width, height) drawn for the i-th room; and
        doorRoom picks the door's room among rooms 1 to 7. Afterwards the
        player, door and key stand on three distinct room centres, and one
        walk over non-wall cells leads from the player past the door to
        the key. */
    method NewLevel(blocks: seq<Block>, sizes: seq<(int, int)>, doorRoom: int)
      requires Valid() && MinBoardWidth <= width
      requires IsShuffle(blocks) && SizesValid(sizes) && 1 <= doorRoom <= 7
      modifies grid, this`rooms, this`player, this`door, this`key, this`locked
      ensures rooms == GeneratedRooms(blocks, sizes)
      ensures player == Centre(rooms[0]) && door == Centre(rooms[doorRoom]) && key == Centre(rooms[8])
      ensures locked
      ensures forall i, j :: 0 <= i < width && 0 <= j < width ==>
        grid[i, j] == if Pos(i, j) == key then Key
                      else if Pos(i, j) == door then Locked
                      else if Carved(rooms, i, j) then Floor
                      else old(grid[i, j])
      ensures player != door && player != key && door != key
      ensures InBounds(player) && grid[player.x, player.y] == Floor
      ensures Consistent()
      ensures var tour := Tour(rooms, 8);
        && IsWalk(tour) && tour[0] == player && tour[|tour| - 1] == key && door in tour
        && forall p :: p in tour ==> InBounds(p) && grid[p.x, p.y] != Wall
    {
      StampRooms(blocks, sizes);
      ghost var rs := rooms;
      GeneratedRoomsInBlocks(blocks, sizes);
      GeneratedCentresDistinct(blocks, sizes);
      forall k | 0 <= k < 9
        ensures InBounds(Centre(rs[k])) && InRoom(rs[k], rs[k].cx, rs[k].cy)
      {
      }
      ConnectAll();
      assert forall i, j :: 0 <= i < width && 0 <= j < width ==>
        grid[i, j] == if Carved(rs, i, j) then Floor else old(grid[i, j]);
      PlaceEntities(doorRoom);
      GeneratedLevelConsistent(rs, doorRoom);
      GeneratedLevelTour(rs, doorRoom);
    }

    /** What a generated level guarantees, given where the rooms are and
        which cells generation carved: the player, door and key on three
        distinct centres, the player on floor, and the level consistent. */
    lemma GeneratedLevelConsistent(rs: seq<Room>, doorRoom: int)
      requires Valid() && |rs| == 9 && 1 <= doorRoom <= 7
      requires forall k :: 0 <= k < 9 ==> InBounds(Centre(rs[k])) && InRoom(rs[k], rs[k].cx, rs[k].cy)
      requires forall i, j :: 0 <= i < j < 9 ==> Centre(rs[i]) != Centre(rs[j])
      requires player == Centre(rs[0]) && door == Centre(rs[doorRoom]) && key == Centre(rs[8]) && locked
      requires forall i, j :: 0 <= i < width && 0 <= j < width && Carved(rs, i, j) ==>
        grid[i, j] == if Pos(i, j) == key then Key else if Pos(i, j) == door then Locked else Floor
      ensures player != door && player != key && door != key
      ensures InBounds(player) && grid[player.x, player.y] == Floor
      ensures Consistent()
    {
      assert Centre(rs[0]) != Centre(rs[doorRoom]) && Centre(rs[doorRoom]) != Centre(rs[8]);
      InSomeRoomIff(rs, player.x, player.y);
      InSomeRoomIff(rs, door.x, door.y);
      InSomeRoomIff(rs, key.x, key.y);
    }

    /** The tour of a generated level runs from the player past the door
        to the key, over cells of the board that are not walls. */
    lemma GeneratedLevelTour(rs: seq<Room>, doorRoom: int)
      requires Valid() && 1 < |rs| && 0 < doorRoom < |rs| - 1
      requires forall k :: 0 <= k < |rs| ==> InBounds(Centre(rs[k]))
      requires player == Centre(rs[0]) && door == Centre(rs[doorRoom]) && key == Centre(rs[|rs| - 1])
      requires forall i, j :: 0 <= i < width && 0 <= j < width && Carved(rs, i, j) ==>
        grid[i, j] == if Pos(i, j) == key then Key else if Pos(i, j) == door then Locked else Floor
      ensures var tour := Tour(rs, |rs| - 1);
        && IsWalk(tour) && tour[0] == player && tour[|tour| - 1] == key && door in tour
        && forall p :: p in tour ==> InBounds(p) && grid[p.x, p.y] != Wall
    {
      var tour := Tour(rs, |rs| - 1);
      TourOnBoard(rs, width, doorRoom);
      forall p | p in tour
        ensures InBounds(p) && grid[p.x, p.y] != Wall
      {
        assert Carved(rs, p.x, p.y);
      }
    }

    /** The placement step of level generation: the player at the first
        room's centre, the door at the centre of room doorRoom, the key at
        the last room's centre, and the door locked. */
    method PlaceEntities(doorRoom: int)
      requires Valid() && |rooms| == 9 && 1 <= doorRoom <= 7
      requires forall k :: 0 <= k < |rooms| ==> InBounds(Centre(rooms[k]))
      modifies grid, this`player, this`door, this`key, this`locked
      ensures player == Centre(rooms[0]) && door == Centre(rooms[doorRoom]) && key == Centre(rooms[8])
      ensures locked
      ensures forall i, j :: 0 <= i < width && 0 <= j < width ==>
        grid[i, j] == if Pos(i, j) == key then Key
                      else if Pos(i, j) == door then Locked
                      else old(grid[i, j])
    {
      PlacePlayer(rooms[0].cx, rooms[0].cy);
      var randRoom := rooms[doorRoom];
      PlaceDoor(randRoom.cx, randRoom.cy);
      PlaceKey(rooms[|rooms| - 1].cx, rooms[|rooms| - 1].cy);
      locked := true;
    }

    /** The move command: steps the player by (dx, dy). The result is
        false when the destination is off the board, and true otherwise,
        including when a wall blocks the step; the player moves only onto
        a cell on the board that is not a wall. */
    method Move(dx: int, dy: int) returns (ok: bool)
      requires Valid()
      modifies this`player
      ensures var dest := Pos(old(player).x + dx, old(player).y + dy);
        && ok == InBounds(dest)
        && player == if InBounds(dest) && grid[dest.x, dest.y] != Wall then dest else old(player)
      ensures old(Consistent()) ==> Consistent()
    {
      if player.y + dy < 0 {
        return false;
      }
      if player.y + dy >= width {
        return false;
      }
      if player.x + dx < 0 {
        return false;
      }
      if player.x + dx >= width {
        return false;
      }
      if grid[player.x + dx, player.y + dy] == Wall {
      } else {
        player := Pos(player.x + dx, player.y + dy);
      }
      return true;
    }
  }

  /** A caller that feeds the steps of a walk to the move command, one
      4-neighbour step at a time, brings the player to the walk's end
      when no cell of the walk is a wall. */
  method FollowWalk(b: Board, path: seq<Pos>)
    requires b.Valid() && |path| > 0 && b.player == path[0] && IsWalk(path)
    requires forall p :: p in path ==> b.InBounds(p) && b.grid[p.x, p.y] != Wall
    modifies b`player
    ensures b.player == path[|path| - 1]
  {
    var k := 0;
    while k < |path| - 1
      invariant 0 <= k < |path| && b.player == path[k]
    {
      assert path[k + 1] in path;
      var moved := b.Move(path[k + 1].x - path[k].x, path[k + 1].y - path[k].y);
      k := k + 1;
    }
  }

  /** Every generated level can be completed: after clearing and
      generating, moving along the tour reaches the key, interacting
      there unlocks the door, walking the tour back reaches the door, and
      interacting there reports the level complete. */
  method CompleteLevel(b: Board, blocks: seq<Block>, sizes: seq<(int, int)>, doorRoom: int)
    returns (complete: bool)
    requires b.Valid() && MinBoardWidth <= b.width
    requires IsShuffle(blocks) && SizesValid(sizes) && 1 <= doorRoom <= 7
    modifies b.grid, b`rooms, b`player, b`door, b`key, b`locked
    ensures complete
  {
    b.Clear();
    b.NewLevel(blocks, sizes, doorRoom);
    complete := PlayTour(b, Tour(b.rooms, 8));
  }

  /** Plays a level along a tour that starts at the player, passes the
      door and ends at the key, over cells that are not walls. */
  method PlayTour(b: Board, tour: seq<Pos>) returns (complete: bool)
    requires b.Consistent() && b.locked
    requires IsWalk(tour) && |tour| > 0 && tour[0] == b.player && tour[|tour| - 1] == b.key
    requires b.door in tour
    requires forall p :: p in tour ==> b.InBounds(p) && b.grid[p.x, p.y] != Wall
    modifies b.grid, b`player, b`key, b`locked
    ensures complete
  {
    FollowWalk(b, tour);
    var unlocked := b.Interact();
    var k :| 0 <= k < |tour| && tour[k] == b.door;
    var back := Reverse(tour[k..]);
    assert IsWalk(tour[k..]) by {
      forall j | 0 <= j < |tour[k..]| - 1
        ensures Adjacent(tour[k..][j], tour[k..][j + 1])
      {
        assert tour[k..][j] == tour[k + j] && tour[k..][j + 1] == tour[k + j + 1];
      }
    }
    ReverseIsWalk(tour[k..]);
    forall p | p in back
      ensures b.InBounds(p) && b.grid[p.x, p.y] != Wall
    {
      assert p in tour;
    }
    FollowWalk(b, back);
    complete := b.Interact();
  }

  /** Interacting at an unlocked door is repeatable: both calls report the
      level complete and neither changes the board, the key or the lock. */
  method InteractTwiceAtOpenDoor(b: Board) returns (first: bool, second: bool)
    requires b.Valid() && b.player == b.door && b.player != b.key && !b.locked
    modifies b.grid, b`key, b`locked
    ensures first && second
    ensures b.key == old(b.key) && !b.locked && unchanged(b.grid)
  {
    first := b.Interact();
    second := b.Interact();
  }
}
