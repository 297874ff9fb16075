# Maze Runner board, in Dafny

This project models the game board of Maze Runner, a tile maze game
written in Python with pygame. The board is a square grid of cell tags
(wall, floor, key, locked door, unlocked door). It holds a list of
rectangular rooms, the player's position, the key's position, the
door's position and whether the door is locked.

- A new level is generated by shuffling the nine blocks of a 3x3
  partition of the board and stamping one room of random size in each.
- Each room is joined to the next by an L-shaped corridor.
- The player is placed at the centre of the first room, the key at the
  centre of the last room, and the locked door at the centre of one of
  the rooms in between.
- The player moves one tile at a time and cannot walk through walls.
- Interacting on the key picks it up and unlocks the door.
- Interacting on the unlocked door completes the level.
- The renderer shows a square view of the board around the player. The
  zoom keys step through a fixed list of view sizes.

The model is in four modules:

- `Entities` (entities.dfy) holds the value types: cell tags, positions
  and rooms.
- `Layout` (layout.dfy) holds the geometry of generation, as pure
  values: which block each room goes in, the room rectangles, the
  corridors, and the walk through the whole level.
- `Maze` (board.dfy) holds the `Board` class over an `array2<Cell>`.
  Its methods update the grid and the positions in place, as the
  Python methods do. The generation methods (`PlaceRoom`,
  `ConnectRooms`, `StampRooms`, `ConnectAll`, `NewLevel`) are proved
  against the `Layout` definitions.
- `Viewport` (viewport.dfy) holds the render-origin clamp and the zoom
  keys.

The main results:

- Every generated level can be completed. `Maze.Board.NewLevel`
  proves that a walk over non-wall cells leads from the player, past
  the door, to the key. `Maze.CompleteLevel` drives the real `Move` and
  `Interact` methods along that walk and back to the door, and proves
  that the last interaction reports the level complete.
- The block list is a shuffle exactly when it is a permutation of the
  nine blocks.
- The rooms of a level never share a cell.
- The player, key and door stand on three distinct cells.
- Moving and interacting keep the board consistent: the player is never
  on a wall, and the key is on the board exactly while the door is
  locked.
- Every tile the renderer reads is on the board, at every zoom level.

## Model

All paths are in `Daniel_Krause_CSE_120_Final.py`.

| member | source | states |
|---|---|---|
| Entities.HalfTowardZero | Daniel_Krause_CSE_120_Final.py:88-89 | Python's `int(n / 2)` for the room sizes and view widths the game passes: the half of n, truncated toward zero, for either sign of n |
| Entities.MakeRoom | Daniel_Krause_CSE_120_Final.py:82-89 | a room keeps its anchor and size; its centre lies inside the rectangle and splits each side as evenly as integers allow |
| Maze.Board.constructor | Daniel_Krause_CSE_120_Final.py:97-134 | a new board is width x width with every cell empty, no rooms, and the player, key and door off the board |
| Maze.Board.Clear | Daniel_Krause_CSE_120_Final.py:136-148 | every cell becomes a wall; the player, key and door go off the board; the lock flag and rooms are kept |
| Maze.Board.Interact | Daniel_Krause_CSE_120_Final.py:154-181 | on the key: the key's cell becomes floor, the door's cell becomes unlocked, the key leaves the board, and the result is false. Otherwise the result is true exactly when the player is on an unlocked door, and nothing changes. Consistency is preserved |
| Maze.Board.PlaceRoom | Daniel_Krause_CSE_120_Final.py:220-225 | exactly the room's rectangle becomes floor, and the room is appended to the room list |
| Maze.Board.PlacePlayer | Daniel_Krause_CSE_120_Final.py:227-229 | the player is at (x, y) |
| Maze.Board.PlaceDoor | Daniel_Krause_CSE_120_Final.py:231-234 | the door is at (x, y), and only that cell changes, to locked |
| Maze.Board.PlaceKey | Daniel_Krause_CSE_120_Final.py:236-239 | the key is at (x, y), and only that cell changes, to key |
| Maze.Board.ConnectRooms | Daniel_Krause_CSE_120_Final.py:241-245 | exactly the cells of the L-shaped corridor become floor, and the corridor's walk from centre to centre lies on the board over floor |
| Maze.Board.StampRooms | Daniel_Krause_CSE_120_Final.py:193-203 | popping the shuffled blocks from the end produces exactly the generated rooms, and exactly their cells become floor |
| Maze.Board.ConnectAll | Daniel_Krause_CSE_120_Final.py:206-207 | exactly the cells on the corridors between consecutive rooms become floor |
| Maze.Board.PlaceEntities | Daniel_Krause_CSE_120_Final.py:210-218 | the player, door and key are at the centres of the first room, the chosen middle room and the last room; the door is locked; only the door and key cells change |
| Maze.Board.NewLevel | Daniel_Krause_CSE_120_Final.py:183-218 | the level has the generated rooms, and its cells are carved exactly as generation says. The player, door and key are on three distinct centres, and the board is consistent. A walk over non-wall cells leads from the player past the door to the key |
| Maze.Board.GeneratedLevelConsistent | Daniel_Krause_CSE_120_Final.py:210-218 | for rooms on distinct centres and a board carved by generation, the player, door and key are distinct, the player is on floor, and the board is consistent |
| Maze.Board.GeneratedLevelTour | Daniel_Krause_CSE_120_Final.py:206-218 | for a board carved by generation, the tour of the rooms is a walk from the player past the door to the key, over non-wall cells on the board |
| Maze.Board.Move | Daniel_Krause_CSE_120_Final.py:256-288 | the result is false exactly when the destination is off the board; the player moves exactly when the destination is on the board and not a wall; consistency is preserved |
| Maze.FollowWalk | Daniel_Krause_CSE_120_Final.py:416-423 | feeding the steps of a walk over non-wall cells to the move command brings the player to the walk's end |
| Maze.PlayTour | Daniel_Krause_CSE_120_Final.py:416-426 | walking a tour to the key, interacting, walking back to the door and interacting again reports the level complete |
| Maze.CompleteLevel | Daniel_Krause_CSE_120_Final.py:368-382 | after clearing and generating a level, playing its tour completes it |
| Maze.InteractTwiceAtOpenDoor | Daniel_Krause_CSE_120_Final.py:168-177 | interacting twice at an unlocked door reports completion both times and changes nothing |
| Layout.ShuffleIsPermutation | Daniel_Krause_CSE_120_Final.py:186-191 | a block list is nine distinct blocks of the 3x3 partition exactly when it is a permutation of the generator's block list |
| Layout.ShuffleToPermutation | Daniel_Krause_CSE_120_Final.py:186-191 | nine distinct blocks form a permutation of the block list |
| Layout.PermutationToShuffle | Daniel_Krause_CSE_120_Final.py:186-191 | a permutation of the block list is nine distinct blocks |
| Layout.ShuffleCoversAllBlocks | Daniel_Krause_CSE_120_Final.py:186-191 | nine distinct blocks leave none of the nine out |
| Layout.AllBlocks | Daniel_Krause_CSE_120_Final.py:186-190 | the generator's block list holds each block of the 3x3 partition exactly once |
| Layout.GeneratedRoomsInBlocks | Daniel_Krause_CSE_120_Final.py:196-203 | there are nine rooms; room i lies in the i-th block popped from the end of the list; every room lies on a board of width 60 |
| Layout.GeneratedRoomsDisjoint | Daniel_Krause_CSE_120_Final.py:196-203 | no two rooms share a cell, and no room covers a block border line |
| Layout.GeneratedCentresDistinct | Daniel_Krause_CSE_120_Final.py:196-203 | the nine room centres are pairwise distinct |
| Layout.InSomeRoomIff | Daniel_Krause_CSE_120_Final.py:220-225 | a cell is in the stamped rooms exactly when some room contains it |
| Layout.LinkedOnBoard | Daniel_Krause_CSE_120_Final.py:241-245 | when every room centre is on the board, so is every corridor cell |
| Layout.Segment | Daniel_Krause_CSE_120_Final.py:242-245 | a straight run of cells has one more cell than the distance between its ends, and it starts and ends at them |
| Layout.SegmentIsWalk | Daniel_Krause_CSE_120_Final.py:242-245 | a straight run is a 4-adjacent walk inside the bounding box of its ends |
| Layout.Route | Daniel_Krause_CSE_120_Final.py:241-245 | the corridor's walk runs from the first room's centre to the second's |
| Layout.RouteIsCorridorWalk | Daniel_Krause_CSE_120_Final.py:241-245 | the corridor's walk is 4-adjacent, passes the corner, and stays on the corridor's cells |
| Layout.Tour | Daniel_Krause_CSE_120_Final.py:206-207 | the tour through rooms 0 to n runs from the centre of room 0 to the centre of room n |
| Layout.TourIsWalk | Daniel_Krause_CSE_120_Final.py:206-207 | the tour is 4-adjacent, visits every room centre, and stays on the corridors |
| Viewport.ViewOrigin | Daniel_Krause_CSE_120_Final.py:538-567 | for a player on the map and a view no wider than the map, the view lies on the map and contains the player |
| Viewport.ViewCentresPlayer | Daniel_Krause_CSE_120_Final.py:550-553 | away from the edges, the player is in the middle of the view |
| Viewport.TileLookupInBounds | Daniel_Krause_CSE_120_Final.py:573-579 | every tile the render loop reads is on the map, for every view size the zoom keys offer |
| Viewport.ZoomIn | Daniel_Krause_CSE_120_Final.py:404-409 | the zoom index stays in range and the view does not grow; the index is unchanged exactly at the smallest view |
| Viewport.ZoomOut | Daniel_Krause_CSE_120_Final.py:410-415 | the zoom index stays in range and the view does not shrink; the index is unchanged exactly at the largest view |
| Viewport.InitialViewInRange | Daniel_Krause_CSE_120_Final.py:322-326 | the starting zoom index is in range and its view fits on the map |
| Viewport.ZoomRoundTrip | Daniel_Krause_CSE_120_Final.py:404-415 | zooming in then out, or out then in, returns to the same index, except where the first key did nothing |

Where the code and its documentation disagree, the model follows the
code:

- `move` returns true when a wall blocks the step, although its doc
  comment says a failed move returns false. Only leaving the board
  returns false. `Maze.Board.Move` states this.
- `move` and `player_interaction` return a plain boolean. There is no
  three-way tagged result.
- Rooms cannot overlap. The largest room (19 cells) anchored one cell
  past a block border ends on the cell before the next border.
  `Layout.GeneratedRoomsDisjoint` proves that no two rooms share a
  cell.

## Left out

- Randomness: `random.shuffle`, `random.randint` and `random.choice`
  are modelled as the parameters of `Maze.Board.NewLevel`:
  - `blocks` is any permutation of the block list;
  - `sizes` is one (width, height) pair per room, each side in [5, 19];
  - `doorRoom` is any index of the rooms between the first and the last.
- pygame is left out: the window, fonts, drawing, the event queue, the
  menu text and pixel sizes such as `tile_width`.
- Logging (`log`, `enable_log`) and the timestamps it prints are left
  out.
- Colours are left out: the board's colour table and the player's
  colour.
- The render loop's branch for a "DOOR" cell tag is left out, because
  the board never writes that tag.
- `Player`, `Key` and `Door` are not separate objects. They are
  positions held by the board, and `Door.locked` is the board's
  `locked` field. The board owns these objects and never shares them,
  so no aliasing is lost.
- Maze.Board.Interact: requires the key and door to be on the board
  when the player stands on the key, because Python's negative list
  indices, which wrap around, are not modelled. Before the first
  level, the player, key and door all sit at (-1, -1), and Python would
  then write to the last row and column. The game never does this,
  because it generates a level first.
- Entities.HalfTowardZero: is exact integer halving. Python's
  `int(n / 2)` goes through a float and differs from it once |n| nears
  2^54. The game only halves room sizes up to 19 and view widths up to
  45, where the two agree.
- Maze.Board.NewLevel: requires a board at least 60 wide. The game
  always uses 61.
- `Board.__init__` builds the grid with list-append loops. The model
  allocates the array in one step, with every cell set to the empty
  tag.
- The engine's other state (`running`, `new_frame`, the screen size) is
  left out. The engine's key dispatch appears only in the clients
  `Maze.FollowWalk`, `Maze.PlayTour` and `Maze.CompleteLevel`. The
  zoom keys are functions on the zoom index.
- Maze.CompleteLevel, Maze.PlayTour and Maze.FollowWalk: these show that
  one sequence of moves completes each level. They do not model the
  game loop that reads the keys.
