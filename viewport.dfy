/** The arithmetic of the render loop that picks the part of the board
    the screen shows, and of the zoom keys that pick its size. */
module Viewport {
  import opened Entities

  /** The side of the map, in tiles. */
  const MapWidth: int := 61
  /** The view sizes, in tiles, that the zoom keys step through; each is
      odd so that the player can be drawn in the middle. */
  const ViewscreenOptions: seq<int> := [5, 9, 15, 25, 45]
  /** The view size shown when the game starts. */
  const InitialViewscreenIndex: int := 1

  /** The first board column (or row) on screen, for the player at p on
      that axis, a view of vs tiles and a map of mapWidth tiles: the
      player in the middle when far enough from the edges, otherwise the
      view pushed against the near edge. The whole view then lies on the
      map and contains the player. */
  function ViewOrigin(p: int, vs: int, mapWidth: int): (s: int)
    ensures 1 <= vs <= mapWidth && 0 <= p < mapWidth ==>
      0 <= s <= mapWidth - vs && s <= p < s + vs
  {
    var offset := HalfTowardZero(vs);
    if p - offset < 0 then 0
    else if p + offset > mapWidth - 1 then mapWidth - vs
    else p - offset
  }

  /** Away from the edges of the map, the player is as far from the
      first tile on screen as from the last one. */
  lemma ViewCentresPlayer(p: int, vs: int, mapWidth: int)
    requires 1 <= vs && vs % 2 == 1
    requires HalfTowardZero(vs) <= p && p + HalfTowardZero(vs) <= mapWidth - 1
    ensures p - ViewOrigin(p, vs, mapWidth) == ViewOrigin(p, vs, mapWidth) + vs - 1 - p
  {
  }

  /** Every tile the render loop looks up, board[sx + x][sy + y], is on
      the board, for every view size the zoom keys offer. */
  lemma TileLookupInBounds(px: int, py: int, index: int, x: int, y: int)
    requires 0 <= index < |ViewscreenOptions|
    requires 0 <= px < MapWidth && 0 <= py < MapWidth
    requires 0 <= x < ViewscreenOptions[index] && 0 <= y < ViewscreenOptions[index]
    ensures var vs := ViewscreenOptions[index];
      && 0 <= ViewOrigin(px, vs, MapWidth) + x < MapWidth
      && 0 <= ViewOrigin(py, vs, MapWidth) + y < MapWidth
  {
    assert 1 <= ViewscreenOptions[index] <= MapWidth;
  }

  /** The zoom-in key: one step toward a smaller view, none at the
      smallest. */
  function ZoomIn(index: int): (i: int)
    ensures 0 <= index < |ViewscreenOptions| ==>
      0 <= i < |ViewscreenOptions| && ViewscreenOptions[i] <= ViewscreenOptions[index]
    ensures i == index <==> index <= 0
  {
    if index > 0 then index - 1 else index
  }

  /** The zoom-out key: one step toward a larger view, none at the
      largest. */
  function ZoomOut(index: int): (i: int)
    ensures 0 <= index < |ViewscreenOptions| ==>
      0 <= i < |ViewscreenOptions| && ViewscreenOptions[index] <= ViewscreenOptions[i]
    ensures i == index <==> index >= |ViewscreenOptions| - 1
  {
    if index < |ViewscreenOptions| - 1 then index + 1 else index
  }

  /** The game starts on a view size the zoom list offers; with ZoomIn and
      ZoomOut keeping the index in range, every index the keys reach is
      a valid one. */
  lemma InitialViewInRange()
    ensures 0 <= InitialViewscreenIndex < |ViewscreenOptions|
    ensures ViewscreenOptions[InitialViewscreenIndex] <= MapWidth
  {
  }

  /** Zooming in then out, or out then in, returns to the same view,
      except at the end of the list where the first key did nothing. */
  lemma ZoomRoundTrip(index: int)
    requires 0 <= index < |ViewscreenOptions|
    ensures 0 < index ==> ZoomOut(ZoomIn(index)) == index
    ensures index < |ViewscreenOptions| - 1 ==> ZoomIn(ZoomOut(index)) == index
  {
  }
}
