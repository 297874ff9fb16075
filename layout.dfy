/** The geometry of level generation, as values: which blocks the rooms
    go in, where each room lies, the L-shaped corridors between
    consecutive rooms, and the walk those corridors make through the
    whole level. The board class stamps exactly these cells. */
module Layout {
  import opened Entities

  /** A macro-block of the 3x3 partition, as (column, row). */
  type Block = (int, int)

  /** The nine macro-blocks, in the order the generator lists them
      before shuffling. */
  const BlockLocations: seq<Block> :=
    [(0, 0), (0, 1), (0, 2), (1, 0), (1, 1), (1, 2), (2, 0), (2, 1), (2, 2)]

  /** Distance between the anchors of neighbouring blocks. */
  const BlockPitch: int := 20
  /** Bounds of the random room width and height. */
  const MinRoomSide: int := 5
  const MaxRoomSide: int := 19
  /** The smallest board the generator never writes outside of: the
      last cell a room can cover is 2 * 20 + 1 + 19 - 1 = 59. */
  const MinBoardWidth: int := 60

  predicate IsBlock(b: Block)
  {
    0 <= b.0 < 3 && 0 <= b.1 < 3
  }

  predicate Distinct(s: seq<Block>)
  {
    forall i, j :: 0 <= i < j < |s| ==> s[i] != s[j]
  }

  /** A shuffle of the block list: nine pairwise distinct blocks (which
      ShuffleIsPermutation shows is the same as a permutation of
      BlockLocations). */
  predicate IsShuffle(blocks: seq<Block>)
  {
    && |blocks| == |BlockLocations|
    && (forall i :: 0 <= i < |blocks| ==> IsBlock(blocks[i]))
    && Distinct(blocks)
  }

  lemma {:induction false} DistinctMultiplicity(s: seq<Block>, e: Block)
    requires Distinct(s)
    ensures multiset(s)[e] == if e in s then 1 else 0
  {
    if s != [] {
      var front := s[..|s| - 1];
      assert s == front + [s[|s| - 1]];
      assert Distinct(front);
      DistinctMultiplicity(front, e);
    }
  }

  lemma {:induction false} DistinctSetSize(s: seq<Block>)
    requires Distinct(s)
    ensures |set x | x in s| == |s|
  {
    if s != [] {
      var front := s[..|s| - 1];
      var last := s[|s| - 1];
      assert Distinct(front);
      DistinctSetSize(front);
      assert s == front + [last];
      assert (set x | x in s) == (set x | x in front) + {last};
    }
  }

  /** The generator's block list holds each of the nine blocks once. */
  lemma AllBlocks()
    ensures forall b :: IsBlock(b) <==> b in BlockLocations
    ensures Distinct(BlockLocations)
    ensures |set x | x in BlockLocations| == 9
  {
    DistinctSetSize(BlockLocations);
  }

  lemma RepeatedTwice(s: seq<Block>, i: int, j: int)
    requires 0 <= i < j < |s| && s[i] == s[j]
    ensures multiset(s)[s[i]] >= 2
  {
    assert s == s[..j] + s[j..];
    assert s[i] in s[..j];
    assert s[j..][0] == s[j];
  }

  /** A block list satisfies IsShuffle exactly when it holds the same
      blocks as the generator's list, each as often: it is a permutation. */
  lemma ShuffleIsPermutation(blocks: seq<Block>)
    ensures IsShuffle(blocks) <==> multiset(blocks) == multiset(BlockLocations)
  {
    if IsShuffle(blocks) {
      ShuffleToPermutation(blocks);
    }
    if multiset(blocks) == multiset(BlockLocations) {
      PermutationToShuffle(blocks);
    }
  }

  lemma SameSizeSubset(small: set<Block>, big: set<Block>)
    requires small <= big && |small| == |big|
    ensures small == big
  {
    var rest := big - small;
    assert big == small + rest && small * rest == {};
    assert |rest| == 0;
  }

  /** Nine distinct blocks leave none of the nine out. */
  lemma ShuffleCoversAllBlocks(blocks: seq<Block>)
    requires IsShuffle(blocks)
    ensures forall b :: b in BlockLocations ==> b in blocks
  {
    AllBlocks();
    var used := set x | x in blocks;
    DistinctSetSize(blocks);
    forall x | x in used
      ensures x in BlockLocations
    {
      var i :| 0 <= i < |blocks| && blocks[i] == x;
      assert IsBlock(blocks[i]);
    }
    var all := set x | x in BlockLocations;
    SameSizeSubset(used, all);
    forall b | b in BlockLocations
      ensures b in blocks
    {
      assert b in all;
    }
  }

  lemma ShuffleMultiplicity(blocks: seq<Block>, e: Block)
    requires IsShuffle(blocks)
    requires forall b :: b in BlockLocations ==> b in blocks
    ensures multiset(blocks)[e] == multiset(BlockLocations)[e]
  {
    AllBlocks();
    DistinctMultiplicity(blocks, e);
    DistinctMultiplicity(BlockLocations, e);
    if e in blocks {
      var i :| 0 <= i < |blocks| && blocks[i] == e;
      assert IsBlock(blocks[i]);
    }
  }

  lemma ShuffleToPermutation(blocks: seq<Block>)
    requires IsShuffle(blocks)
    ensures multiset(blocks) == multiset(BlockLocations)
  {
    ShuffleCoversAllBlocks(blocks);
    forall e
      ensures multiset(blocks)[e] == multiset(BlockLocations)[e]
    {
      ShuffleMultiplicity(blocks, e);
    }
  }

  lemma PermutationToShuffle(blocks: seq<Block>)
    requires multiset(blocks) == multiset(BlockLocations)
    ensures IsShuffle(blocks)
  {
    AllBlocks();
    assert |blocks| == |multiset(blocks)| == |multiset(BlockLocations)| == |BlockLocations|;
    forall i | 0 <= i < |blocks|
      ensures IsBlock(blocks[i])
    {
      assert blocks[i] in multiset(blocks);
      assert blocks[i] in BlockLocations;
    }
    forall i, j | 0 <= i < j < |blocks|
      ensures blocks[i] != blocks[j]
    {
      if blocks[i] == blocks[j] {
        RepeatedTwice(blocks, i, j);
        DistinctMultiplicity(BlockLocations, blocks[i]);
      }
    }
  }

  /** One (width, height) draw per room, each side in [5, 19]. */
  predicate SizesValid(sizes: seq<(int, int)>)
  {
    && |sizes| == |BlockLocations|
    && forall i :: 0 <= i < |sizes| ==>
         MinRoomSide <= sizes[i].0 <= MaxRoomSide && MinRoomSide <= sizes[i].1 <= MaxRoomSide
  }

  /** The anchor coordinate of block index b on one axis. */
  function Anchor(b: int): int
  {
    b * BlockPitch + 1
  }

  /** The room generated in block b with the drawn (width, height). */
  function RoomFor(b: Block, size: (int, int)): Room
  {
    MakeRoom(Anchor(b.0), Anchor(b.1), size.0, size.1)
  }

  /** The rooms of a level, in the order they are appended: the block
      list is consumed from its end, so room i is in block
      blocks[|blocks| - 1 - i], sized by the i-th draw. */
  function GeneratedRooms(blocks: seq<Block>, sizes: seq<(int, int)>): seq<Room>
    requires |sizes| == |blocks|
  {
    seq(|blocks|, i requires 0 <= i < |blocks| => RoomFor(blocks[|blocks| - 1 - i], sizes[i]))
  }

  /** Room r lies inside block b: from the block's anchor to at most the
      cell before the next block's border line. */
  predicate RoomInBlock(r: Room, b: Block)
  {
    && 0 < r.w && Anchor(b.0) == r.x && r.x + r.w <= Anchor(b.0) + MaxRoomSide
    && 0 < r.h && Anchor(b.1) == r.y && r.y + r.h <= Anchor(b.1) + MaxRoomSide
  }

  /** Room r is non-empty and lies inside a board of the given width. */
  predicate RoomOnBoard(r: Room, width: int)
  {
    0 < r.w && 0 <= r.x && r.x + r.w <= width && 0 < r.h && 0 <= r.y && r.y + r.h <= width
  }

  lemma GeneratedRoomsInBlocks(blocks: seq<Block>, sizes: seq<(int, int)>)
    requires IsShuffle(blocks) && SizesValid(sizes)
    ensures var rs := GeneratedRooms(blocks, sizes);
      && |rs| == 9
      && (forall i :: 0 <= i < 9 ==> RoomInBlock(rs[i], blocks[8 - i]))
      && (forall i :: 0 <= i < 9 ==> RoomOnBoard(rs[i], MinBoardWidth))
  {
    var rs := GeneratedRooms(blocks, sizes);
    forall i | 0 <= i < 9
      ensures RoomInBlock(rs[i], blocks[8 - i]) && RoomOnBoard(rs[i], MinBoardWidth)
    {
      assert IsBlock(blocks[8 - i]);
    }
  }

  /** The rectangles of r1 and r2 are apart along at least one axis. */
  predicate Separated(r1: Room, r2: Room)
  {
    r1.x + r1.w <= r2.x || r2.x + r2.w <= r1.x || r1.y + r1.h <= r2.y || r2.y + r2.h <= r1.y
  }

  /** No two generated rooms share a cell, and no room covers a cell of
      the block border lines 0, 20 and 40 on either axis. */
  lemma GeneratedRoomsDisjoint(blocks: seq<Block>, sizes: seq<(int, int)>)
    requires IsShuffle(blocks) && SizesValid(sizes)
    ensures var rs := GeneratedRooms(blocks, sizes);
      && (forall i, j :: 0 <= i < j < 9 ==> Separated(rs[i], rs[j]))
      && (forall i, j, x, y :: 0 <= i < j < 9 && InRoom(rs[i], x, y) ==> !InRoom(rs[j], x, y))
      && (forall i, k, v :: 0 <= i < 9 && 0 <= k < 3 ==>
            !InRoom(rs[i], k * BlockPitch, v) && !InRoom(rs[i], v, k * BlockPitch))
  {
    var rs := GeneratedRooms(blocks, sizes);
    GeneratedRoomsInBlocks(blocks, sizes);
    forall i, j | 0 <= i < j < 9
      ensures Separated(rs[i], rs[j])
    {
      assert blocks[8 - j] != blocks[8 - i];
      assert IsBlock(blocks[8 - i]) && IsBlock(blocks[8 - j]);
    }
  }

  /** Distinct generated rooms have distinct centres. */
  lemma GeneratedCentresDistinct(blocks: seq<Block>, sizes: seq<(int, int)>)
    requires IsShuffle(blocks) && SizesValid(sizes)
    ensures var rs := GeneratedRooms(blocks, sizes);
      forall i, j :: 0 <= i < j < 9 ==> Centre(rs[i]) != Centre(rs[j])
  {
    var rs := GeneratedRooms(blocks, sizes);
    GeneratedRoomsInBlocks(blocks, sizes);
    GeneratedRoomsDisjoint(blocks, sizes);
    forall i, j | 0 <= i < j < 9
      ensures Centre(rs[i]) != Centre(rs[j])
    {
      assert InRoom(rs[i], rs[i].cx, rs[i].cy);
      assert InRoom(rs[j], rs[j].cx, rs[j].cy);
    }
  }

  /** Cell (x, y) is inside one of the rooms rs, read as the rooms appended
      so far: the last one or one of those before it. */
  predicate InSomeRoom(rs: seq<Room>, x: int, y: int)
    decreases |rs|
  {
    |rs| > 0 && (InSomeRoom(rs[..|rs| - 1], x, y) || InRoom(rs[|rs| - 1], x, y))
  }

  lemma {:induction false} InSomeRoomIff(rs: seq<Room>, x: int, y: int)
    ensures InSomeRoom(rs, x, y) <==> exists i :: 0 <= i < |rs| && InRoom(rs[i], x, y)
    decreases |rs|
  {
    if |rs| > 0 {
      var front := rs[..|rs| - 1];
      InSomeRoomIff(front, x, y);
      if InSomeRoom(front, x, y) {
        var i :| 0 <= i < |front| && InRoom(front[i], x, y);
        assert rs[i] == front[i];
      }
      if i :| 0 <= i < |rs| && InRoom(rs[i], x, y) {
        if i < |rs| - 1 {
          assert front[i] == rs[i];
        }
      }
    }
  }

  lemma InSomeRoomAppend(rs: seq<Room>, r: Room)
    ensures forall x, y :: InSomeRoom(rs + [r], x, y) <==> InSomeRoom(rs, x, y) || InRoom(r, x, y)
  {
    assert (rs + [r])[..|rs|] == rs;
  }

  function Min(a: int, b: int): int
  {
    if a <= b then a else b
  }

  function Max(a: int, b: int): int
  {
    if a <= b then b else a
  }

  /** v lies between a and b, whichever of the two is smaller. */
  predicate Between(a: int, v: int, b: int)
  {
    Min(a, b) <= v <= Max(a, b)
  }

  /** Cell (x, y) is on the corridor that joins room r1 to room r2: the
      row through r1's centre between the two centre columns, or the
      column through r2's centre between the two centre rows. */
  predicate OnCorridor(r1: Room, r2: Room, x: int, y: int)
  {
    (y == r1.cy && Between(r1.cx, x, r2.cx)) || (x == r2.cx && Between(r1.cy, y, r2.cy))
  }

  /** Cell (x, y) is on one of the first n corridors, corridor k joining
      room k to room k + 1. */
  predicate Linked(rs: seq<Room>, n: nat, x: int, y: int)
    decreases n
  {
    0 < n < |rs| && (Linked(rs, n - 1, x, y) || OnCorridor(rs[n - 1], rs[n], x, y))
  }

  /** Cell (x, y) is carved out by generation: in a room or on a corridor
      between consecutive rooms. */
  predicate Carved(rs: seq<Room>, x: int, y: int)
  {
    InSomeRoom(rs, x, y) || (|rs| > 0 && Linked(rs, |rs| - 1, x, y))
  }

  /** When every room centre is on a board of the given width, so is every
      corridor cell. */
  lemma {:induction false} LinkedOnBoard(rs: seq<Room>, n: nat, x: int, y: int, width: int)
    requires forall k :: 0 <= k < |rs| ==> 0 <= rs[k].cx < width && 0 <= rs[k].cy < width
    requires Linked(rs, n, x, y)
    ensures 0 <= x < width && 0 <= y < width
    decreases n
  {
    if !OnCorridor(rs[n - 1], rs[n], x, y) {
      LinkedOnBoard(rs, n - 1, x, y, width);
    }
  }

  /** p and q are 4-neighbours: one step apart along exactly one axis. */
  predicate Adjacent(p: Pos, q: Pos)
  {
    || (p.x == q.x && (p.y == q.y + 1 || q.y == p.y + 1))
    || (p.y == q.y && (p.x == q.x + 1 || q.x == p.x + 1))
  }

  /** Every cell of the path is a 4-neighbour of the next. */
  predicate IsWalk(path: seq<Pos>)
  {
    forall k :: 0 <= k < |path| - 1 ==> Adjacent(path[k], path[k + 1])
  }

  lemma JoinWalks(a: seq<Pos>, b: seq<Pos>)
    requires |a| > 0 && |b| > 0 && a[|a| - 1] == b[0]
    requires IsWalk(a) && IsWalk(b)
    ensures IsWalk(a + b[1..])
  {
    var c := a + b[1..];
    forall k | 0 <= k < |c| - 1
      ensures Adjacent(c[k], c[k + 1])
    {
      if k < |a| - 1 {
        assert c[k] == a[k] && c[k + 1] == a[k + 1];
      } else {
        assert c[k] == b[k - |a| + 1] && c[k + 1] == b[k - |a| + 2];
      }
    }
  }

  function Abs(n: int): nat
  {
    if n < 0 then -n else n
  }

  /** One step from a toward b. */
  function Toward(a: int, b: int): int
  {
    if a < b then a + 1 else if a > b then a - 1 else a
  }

  function Distance(a: Pos, b: Pos): nat
  {
    Abs(a.x - b.x) + Abs(a.y - b.y)
  }

  /** The straight run of cells from a to b, both ends included. */
  function Segment(a: Pos, b: Pos): (s: seq<Pos>)
    requires a.x == b.x || a.y == b.y
    ensures |s| == Distance(a, b) + 1
    ensures s[0] == a && s[|s| - 1] == b
    decreases Distance(a, b)
  {
    if a == b then [a] else [a] + Segment(Pos(Toward(a.x, b.x), Toward(a.y, b.y)), b)
  }

  lemma {:induction false} SegmentIsWalk(a: Pos, b: Pos)
    requires a.x == b.x || a.y == b.y
    ensures IsWalk(Segment(a, b))
    ensures forall p :: p in Segment(a, b) ==> Between(a.x, p.x, b.x) && Between(a.y, p.y, b.y)
    decreases Distance(a, b)
  {
    if a != b {
      var next := Pos(Toward(a.x, b.x), Toward(a.y, b.y));
      SegmentIsWalk(next, b);
      var s := Segment(a, b);
      assert s == [a] + Segment(next, b);
      assert Adjacent(a, next);
      forall k | 0 <= k < |s| - 1
        ensures Adjacent(s[k], s[k + 1])
      {
        if k > 0 {
          assert s[k] == Segment(next, b)[k - 1];
        }
      }
    }
  }

  /** The path walked backwards. */
  function Reverse(path: seq<Pos>): (r: seq<Pos>)
    ensures |r| == |path| && forall k :: 0 <= k < |path| ==> r[k] == path[|path| - 1 - k]
  {
    if path == [] then [] else Reverse(path[1..]) + [path[0]]
  }

  lemma ReverseIsWalk(path: seq<Pos>)
    requires IsWalk(path)
    ensures IsWalk(Reverse(path))
  {
    var r := Reverse(path);
    forall k | 0 <= k < |r| - 1
      ensures Adjacent(r[k], r[k + 1])
    {
      assert Adjacent(path[|path| - 2 - k], path[|path| - 1 - k]);
    }
  }

  /** The corner of the L-shaped corridor from r1 to r2. */
  function Corner(r1: Room, r2: Room): Pos
  {
    Pos(r2.cx, r1.cy)
  }

  /** The corridor from r1 to r2 as a path: along r1's centre row to the
      corner, then along r2's centre column. */
  function Route(r1: Room, r2: Room): (route: seq<Pos>)
    ensures |route| > 0 && route[0] == Centre(r1) && route[|route| - 1] == Centre(r2)
  {
    var s1 := Segment(Centre(r1), Corner(r1, r2));
    var s2 := Segment(Corner(r1, r2), Centre(r2));
    assert |s2| == 1 ==> s2[0] == s2[|s2| - 1];
    s1 + s2[1..]
  }

  /** The corridor path is a 4-adjacent walk from centre to centre through
      the corner, and every cell of it is on the corridor. */
  lemma RouteIsCorridorWalk(r1: Room, r2: Room)
    ensures var route := Route(r1, r2);
      && IsWalk(route)
      && Corner(r1, r2) in route
      && forall p :: p in route ==> OnCorridor(r1, r2, p.x, p.y)
  {
    var s1 := Segment(Centre(r1), Corner(r1, r2));
    var s2 := Segment(Corner(r1, r2), Centre(r2));
    SegmentIsWalk(Centre(r1), Corner(r1, r2));
    SegmentIsWalk(Corner(r1, r2), Centre(r2));
    JoinWalks(s1, s2);
    assert s1[|s1| - 1] in Route(r1, r2);
    forall p | p in Route(r1, r2)
      ensures OnCorridor(r1, r2, p.x, p.y)
    {
      if p !in s1 {
        assert p in s2;
      }
    }
  }

  /** The walk through rooms 0 .. n of rs, following corridor k from room
      k to room k + 1. */
  function Tour(rs: seq<Room>, n: nat): (t: seq<Pos>)
    requires n < |rs|
    ensures |t| > 0 && t[0] == Centre(rs[0]) && t[|t| - 1] == Centre(rs[n])
  {
    if n == 0 then [Centre(rs[0])] else Tour(rs, n - 1) + Route(rs[n - 1], rs[n])[1..]
  }

  /** The tour is a 4-adjacent walk, it visits every centre from room 0 to
      room n, and every cell of it is on one of the first n corridors. */
  lemma {:induction false} TourIsWalk(rs: seq<Room>, n: nat)
    requires n < |rs|
    ensures IsWalk(Tour(rs, n))
    ensures forall k :: 0 <= k <= n ==> Centre(rs[k]) in Tour(rs, n)
    ensures 0 < n ==> forall p :: p in Tour(rs, n) ==> Linked(rs, n, p.x, p.y)
  {
    if n > 0 {
      var front := Tour(rs, n - 1);
      var route := Route(rs[n - 1], rs[n]);
      var t := Tour(rs, n);
      TourIsWalk(rs, n - 1);
      RouteIsCorridorWalk(rs[n - 1], rs[n]);
      JoinWalks(front, route);
      assert t[|t| - 1] == Centre(rs[n]);
      forall k | 0 <= k <= n
        ensures Centre(rs[k]) in t
      {
        if k < n {
          assert Centre(rs[k]) in front;
        }
      }
      forall p | p in t
        ensures Linked(rs, n, p.x, p.y)
      {
        if p in front && n > 1 {
          assert Linked(rs, n - 1, p.x, p.y);
        } else if p in front {
          assert p == Centre(rs[0]) == route[0];
        } else {
          assert p in route;
        }
      }
    }
  }

  /** When every room centre is on a board of the given width, the tour
      through all the rooms is a walk from the first centre to the last,
      it passes the centre of every room in between, and it stays on
      that board, over carved cells. */
  lemma TourOnBoard(rs: seq<Room>, width: int, d: int)
    requires 1 < |rs| && 0 <= d < |rs|
    requires forall k :: 0 <= k < |rs| ==> 0 <= rs[k].cx < width && 0 <= rs[k].cy < width
    ensures var tour := Tour(rs, |rs| - 1);
      && IsWalk(tour) && tour[0] == Centre(rs[0]) && tour[|tour| - 1] == Centre(rs[|rs| - 1])
      && Centre(rs[d]) in tour
      && forall p :: p in tour ==> 0 <= p.x < width && 0 <= p.y < width && Carved(rs, p.x, p.y)
  {
    var n := |rs| - 1;
    TourIsWalk(rs, n);
    forall p | p in Tour(rs, n)
      ensures 0 <= p.x < width && 0 <= p.y < width && Carved(rs, p.x, p.y)
    {
      LinkedOnBoard(rs, n, p.x, p.y, width);
    }
  }
}
