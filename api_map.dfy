/** Map lookups and moves of `CharacterAPI` (work/api.py): the nearest
    tile holding some content, and the guard that skips a move to where the
    character already stands. The map query and the move itself are remote
    calls; their results come in as inputs. */
module MapSearch {
  import opened Wrappers

  /** One map tile as the maps query returns it. */
  datatype Tile = Tile(x: int, y: int, contentCode: string)

  /** The Manhattan distance from the character to a tile. */
  function Distance(t: Tile, charX: int, charY: int): (d: nat)
    ensures d == 0 <==> t.x == charX && t.y == charY
  {
    Abs(t.x - charX) + Abs(t.y - charY)
  }

  /** Tile `i` holds the content, no matching tile is nearer, and every
      matching tile before it is strictly farther away. */
  predicate ClosestAt(tiles: seq<Tile>, contentCode: string, charX: int, charY: int, i: int)
  {
    0 <= i < |tiles| && tiles[i].contentCode == contentCode &&
    (forall j | 0 <= j < |tiles| && tiles[j].contentCode == contentCode ::
       Distance(tiles[i], charX, charY) <= Distance(tiles[j], charX, charY)) &&
    (forall j | 0 <= j < i && tiles[j].contentCode == contentCode ::
       Distance(tiles[i], charX, charY) < Distance(tiles[j], charX, charY))
  }

  /** `find_closest_content`: a running minimum over the tiles that hold
      `contentCode`, replaced only by a strictly smaller distance, so the
      earliest of the nearest tiles wins; `(None, None)` is `None`. */
  method FindClosestContent(tiles: seq<Tile>, contentCode: string, charX: int, charY: int)
    returns (found: Option<(int, int)>)
    ensures found.None? <==> forall j | 0 <= j < |tiles| :: tiles[j].contentCode != contentCode
    ensures found.Some? ==>
              exists i | 0 <= i < |tiles| :: ClosestAt(tiles, contentCode, charX, charY, i) &&
                found.value == (tiles[i].x, tiles[i].y)
  {
    found := None;
    ghost var best: int := -1;
    var closest: nat := 0;
    var k := 0;
    while k < |tiles|
      invariant 0 <= k <= |tiles|
      invariant found.None? <==> forall j | 0 <= j < k :: tiles[j].contentCode != contentCode
      invariant found.None? ==> best == -1
      invariant found.Some? ==>
                  ClosestAt(tiles[..k], contentCode, charX, charY, best) &&
                  closest == Distance(tiles[best], charX, charY) &&
                  found.value == (tiles[best].x, tiles[best].y)
    {
      var tile := tiles[k];
      if tile.contentCode == contentCode {
        var distance := Distance(tile, charX, charY);
        if found.None? || distance < closest {
          closest := distance;
          found := Some((tile.x, tile.y));
          best := k;
        }
      }
      k := k + 1;
    }
    assert tiles[..k] == tiles;
  }

  /** `move_character`: the move request sent, or None when the character
      already stands on (x, y). */
  function MoveRequest(posX: int, posY: int, x: int, y: int): (r: Option<(int, int)>)
    ensures r.None? <==> posX == x && posY == y
    ensures r.Some? ==> r.value == (x, y)
  {
    if posX == x && posY == y then None else Some((x, y))
  }
}
