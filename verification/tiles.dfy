/**
 * The tile lifecycle of the viewer (main.cpp): the `Tile` record with its
 * `wip` / `released` / `current_lod` fields and two texture slots, the
 * destructor, `release_tile`, the state effects of `upload_texture`, and the
 * two checkpoints of `build_tile`.
 *
 * All live tiles sit in one `World` together with the build task in flight for
 * each tile (its stage says which upload it will do next), the owner of every
 * texture not yet deleted, and logs of deleted textures and destroyed tiles.
 * Texture names come from a counter, like the fresh names `glGenTextures`
 * returns (0 is never a texture); tile ids come from a counter too.
 */
module Tiles {
  import opened Geometry
  import opened Sequences

  type TileId = nat

  type TexId = nat

  /** GL's "no texture" name, used for unfilled slots. */
  const NoTexture: TexId := 0

  /** The number of texture slots, `texture[2]`: one per level of detail. */
  const Lods: nat := 2

  datatype Tile = Tile(pos: Vec2, wip: bool, released: bool, currentLod: int, texture: seq<TexId>)

  /** What the build task of a tile will upload at its next checkpoint: the
      quarter-resolution image, or the full-resolution one. */
  datatype Stage = Coarse | Fine

  datatype World = World(
    tiles: map<TileId, Tile>,
    tasks: map<TileId, Stage>,
    owner: map<TexId, TileId>,
    freed: seq<TexId>,
    destroyed: seq<TileId>,
    nextTile: nat,
    nextTex: nat)

  /** The slots and level of a tile are in range. */
  predicate WellFormed(t: Tile) {
    |t.texture| == Lods && -1 <= t.currentLod < Lods
  }

  /** The textures a tile holds: slots `0 .. current_lod`. */
  function Uploaded(t: Tile): (up: seq<TexId>)
    requires WellFormed(t)
    ensures |up| == t.currentLod + 1
    ensures forall i :: 0 <= i <= t.currentLod ==> up[i] == t.texture[i]
  {
    t.texture[..t.currentLod + 1]
  }

  function World0(): World {
    World(map[], map[], map[], [], [], 0, 1)
  }

  predicate AllWellFormed(w: World) {
    forall id :: id in w.tiles ==> WellFormed(w.tiles[id])
  }

  /** Every live tile's id was handed out by the counter. */
  predicate FreshIds(w: World) {
    forall id :: id in w.tiles ==> id < w.nextTile
  }

  /** Tiles: every live tile is well formed and has a fresh-range id, a tile is
      `wip` exactly while a build task for it is in flight, and only a `wip`
      tile can be marked released. The task's stage matches the tile's level. */
  predicate TilesInv(w: World) {
    && AllWellFormed(w)
    && FreshIds(w)
    && (forall id :: id in w.tasks ==> id in w.tiles && w.tiles[id].wip)
    && (forall id :: id in w.tiles && w.tiles[id].wip ==> id in w.tasks)
    && (forall id :: id in w.tiles && w.tiles[id].released ==> w.tiles[id].wip)
    && (forall id :: id in w.tasks && w.tasks[id] == Coarse ==> w.tiles[id].currentLod == -1)
    && (forall id :: id in w.tasks && w.tasks[id] == Fine ==> w.tiles[id].currentLod == 0)
  }

  /** Destruction: each tile id ever handed out is either live or destroyed,
      never both, and no tile is destroyed twice. */
  predicate DestroyInv(w: World) {
    && NoDuplicates(w.destroyed)
    && (forall i :: 0 <= i < |w.destroyed| ==> w.destroyed[i] < w.nextTile && w.destroyed[i] !in w.tiles)
    && (forall id :: 0 <= id < w.nextTile ==> id in w.tiles || id in w.destroyed)
  }

  /** Every uploaded slot of a live tile holds a texture that tile owns. */
  predicate SlotsOwned(w: World) {
    forall id, i :: id in w.tiles && 0 <= i <= w.tiles[id].currentLod && 0 <= i < |w.tiles[id].texture| ==>
      w.tiles[id].texture[i] in w.owner && w.owner[w.tiles[id].texture[i]] == id
  }

  /** The two levels of a fully built tile are different textures. */
  predicate LodsDistinct(w: World) {
    forall id :: id in w.tiles && w.tiles[id].currentLod == 1 && |w.tiles[id].texture| == 2 ==>
      w.tiles[id].texture[0] != w.tiles[id].texture[1]
  }

  /** Every owned texture was handed out, and sits in an uploaded slot of the
      live tile that owns it. */
  predicate OwnersLive(w: World) {
    forall x :: x in w.owner ==>
      && NoTexture < x < w.nextTex
      && w.owner[x] in w.tiles
      && (WellFormed(w.tiles[w.owner[x]]) ==> x in Uploaded(w.tiles[w.owner[x]]))
  }

  /** The deleted textures: each deleted once, handed out before, and owned by
      nobody any more. */
  predicate FreedLog(w: World) {
    && NoDuplicates(w.freed)
    && (forall i :: 0 <= i < |w.freed| ==> NoTexture < w.freed[i] < w.nextTex && w.freed[i] !in w.owner)
  }

  /** Every texture handed out is still owned or has been deleted. */
  predicate Covered(w: World) {
    forall x :: NoTexture < x < w.nextTex ==> x in w.owner || x in w.freed
  }

  /** Textures: every texture name handed out is owned by exactly the live tile
      holding it in an uploaded slot, or has been deleted, once. */
  predicate TexInv(w: World) {
    w.nextTex > NoTexture && SlotsOwned(w) && LodsDistinct(w) && OwnersLive(w) && FreedLog(w) && Covered(w)
  }

  predicate WorldInv(w: World) {
    TilesInv(w) && DestroyInv(w) && TexInv(w)
  }

  lemma InitialWorld()
    ensures WorldInv(World0())
  {
  }

  /** `new_obj<Tile>` followed by `wip = true` and the push of `build_tile`: a
      fresh tile with no texture yet, and its build task waiting for the coarse
      upload. */
  function SpawnTile(w: World, pos: Vec2): (r: (TileId, World))
    ensures r.0 in r.1.tiles && r.1.tasks == w.tasks[r.0 := Coarse]
    ensures r.1.tiles == w.tiles[r.0 := Tile(pos, true, false, -1, [NoTexture, NoTexture])]
    ensures r.1.owner == w.owner && r.1.freed == w.freed && r.1.destroyed == w.destroyed
    ensures r.0 == w.nextTile && r.1.nextTex == w.nextTex && r.1.nextTile > w.nextTile
    ensures FreshIds(w) ==> r.0 !in w.tiles && FreshIds(r.1)
  {
    var id := w.nextTile;
    var t := Tile(pos, true, false, -1, [NoTexture, NoTexture]);
    (id, w.(tiles := w.tiles[id := t], tasks := w.tasks[id := Coarse], nextTile := id + 1))
  }

  lemma SpawnKeepsTextures(w: World, pos: Vec2)
    requires FreshIds(w) && AllWellFormed(w) && TexInv(w)
    ensures TexInv(SpawnTile(w, pos).1)
  {
    var r := SpawnTile(w, pos).1;
    assert SlotsOwned(r);
    forall x | x in r.owner
      ensures WellFormed(r.tiles[r.owner[x]]) ==> x in Uploaded(r.tiles[r.owner[x]])
    {
      assert x in Uploaded(w.tiles[w.owner[x]]);
    }
  }

  lemma SpawnKeepsTiles(w: World, pos: Vec2)
    requires TilesInv(w)
    ensures TilesInv(SpawnTile(w, pos).1)
  {
  }

  lemma SpawnKeepsDestroyLog(w: World, pos: Vec2)
    requires DestroyInv(w) && FreshIds(w)
    ensures var r := SpawnTile(w, pos); r.0 !in w.destroyed && DestroyInv(r.1)
  {
  }

  /** A new tile keeps the world consistent, and its id was never used before. */
  lemma SpawnPreservesInv(w: World, pos: Vec2)
    requires WorldInv(w)
    ensures var r := SpawnTile(w, pos);
      r.0 !in w.tiles && r.0 !in w.destroyed && WorldInv(r.1)
  {
    SpawnKeepsTextures(w, pos);
    SpawnKeepsTiles(w, pos);
    SpawnKeepsDestroyLog(w, pos);
  }

  /** `del_obj(t)`: the destructor deletes exactly the textures of slots
      `0 .. current_lod`, then the tile is gone. */
  function DestroyTile(w: World, id: TileId): (r: World)
    requires id in w.tiles && WellFormed(w.tiles[id])
    ensures id !in r.tiles && r.tiles == w.tiles - {id}
    ensures r.destroyed == w.destroyed + [id]
    ensures |r.freed| == |w.freed| + w.tiles[id].currentLod + 1
    ensures r.freed[..|w.freed|] == w.freed && r.freed[|w.freed|..] == Uploaded(w.tiles[id])
    ensures r.tasks == w.tasks && r.nextTile == w.nextTile && r.nextTex == w.nextTex
  {
    var up := Uploaded(w.tiles[id]);
    w.(tiles := w.tiles - {id},
       owner := w.owner - (set x | x in up),
       freed := w.freed + up,
       destroyed := w.destroyed + [id])
  }

  /** `release_tile`: a tile under construction is only marked released and
      stays alive for its build task to finish off; any other tile is destroyed
      on the spot. */
  function ReleaseTile(w: World, id: TileId): (r: World)
    requires id in w.tiles && WellFormed(w.tiles[id])
    ensures var t := w.tiles[id];
      && (t.wip ==> (r.tiles == w.tiles[id := t.(released := true)]
                     && r.freed == w.freed && r.destroyed == w.destroyed && r.owner == w.owner))
      && (!t.wip ==> (id !in r.tiles && r.tiles == w.tiles - {id}
                      && r.destroyed == w.destroyed + [id] && r.freed == w.freed + Uploaded(t)))
    ensures r.tasks == w.tasks && r.nextTile == w.nextTile && r.nextTex == w.nextTex
  {
    var t := w.tiles[id];
    if t.wip then w.(tiles := w.tiles[id := t.(released := true)])
    else DestroyTile(w, id)
  }

  /** The result of `upload_texture`: the world afterwards and whether the tile
      is still alive. */
  datatype Upload = Upload(world: World, alive: bool)

  /** The state effects of `upload_texture(t, data, size, finalize)`: a fresh
      texture goes into the next level's slot, `wip` is cleared when finalizing,
      and a tile released meanwhile is destroyed (answer `false`), otherwise the
      answer is `true`. A failed upload is only logged, so it changes nothing here. */
  function UploadTexture(w: World, id: TileId, finalize: bool): (r: Upload)
    requires id in w.tiles && WellFormed(w.tiles[id]) && w.tiles[id].currentLod < Lods - 1
    ensures var t := w.tiles[id];
      var t' := t.(currentLod := t.currentLod + 1,
                   texture := t.texture[t.currentLod + 1 := w.nextTex],
                   wip := t.wip && !finalize);
      && (r.alive <==> !t.released)
      && (r.alive ==> (r.world.tiles == w.tiles[id := t'] && r.world.freed == w.freed
                       && r.world.destroyed == w.destroyed && r.world.owner == w.owner[w.nextTex := id]))
      && (!r.alive ==> (r.world.tiles == w.tiles - {id} && r.world.destroyed == w.destroyed + [id]
                        && r.world.freed == w.freed + Uploaded(t) + [w.nextTex]))
    ensures r.world.nextTex == w.nextTex + 1 && r.world.tasks == w.tasks && r.world.nextTile == w.nextTile
  {
    var t := w.tiles[id];
    var lod := t.currentLod + 1;
    var t' := t.(currentLod := lod, texture := t.texture[lod := w.nextTex], wip := if finalize then false else t.wip);
    var w1 := w.(tiles := w.tiles[id := t'], owner := w.owner[w.nextTex := id], nextTex := w.nextTex + 1);
    assert Uploaded(t') == Uploaded(t) + [w.nextTex];
    if t'.released then Upload(DestroyTile(w1, id), false)
    else Upload(w1, true)
  }

  /** One checkpoint of `build_tile`, run on the main thread: at the coarse
      stage the first upload, after which the task goes on to the full image only
      if the tile survived; at the fine stage the finalizing upload, after which
      the task ends. */
  function Checkpoint(w: World, id: TileId): (r: World)
    requires id in w.tasks && id in w.tiles && WellFormed(w.tiles[id]) && w.tiles[id].currentLod < Lods - 1
    ensures w.tasks[id] == Coarse && !w.tiles[id].released ==> r.tasks == w.tasks[id := Fine]
    ensures w.tasks[id] == Fine || w.tiles[id].released ==> r.tasks == w.tasks - {id}
    ensures w.tiles[id].released <==> id !in r.tiles
  {
    match w.tasks[id]
    case Coarse =>
      var u := UploadTexture(w, id, false);
      if u.alive then u.world.(tasks := w.tasks[id := Fine])
      else u.world.(tasks := w.tasks - {id})
    case Fine =>
      var u := UploadTexture(w, id, true);
      u.world.(tasks := w.tasks - {id})
  }

  /** In a consistent world every build task's tile is alive and has a free
      slot for its next upload, so a checkpoint never touches a destroyed tile
      and `current_lod` never passes 1. */
  lemma TaskTileAlive(w: World, id: TileId)
    requires WorldInv(w) && id in w.tasks
    ensures id in w.tiles && WellFormed(w.tiles[id]) && w.tiles[id].currentLod < Lods - 1
  {
  }

  /** The texture an uploaded slot holds is not held by any other tile. */
  lemma NotUploadedElsewhere(w: World, id: TileId, x: TexId)
    requires SlotsOwned(w) && id in w.tiles && WellFormed(w.tiles[id])
    requires x in w.owner && w.owner[x] != id
    ensures x !in Uploaded(w.tiles[id])
  {
    var up := Uploaded(w.tiles[id]);
    forall j | 0 <= j < |up|
      ensures up[j] != x
    {
      assert w.owner[up[j]] == id;
    }
  }

  lemma DestroyKeepsOwners(w: World, id: TileId)
    requires TilesInv(w) && TexInv(w) && id in w.tiles
    ensures var r := DestroyTile(w, id);
      forall x :: x in r.owner ==> x in w.owner && w.owner[x] != id && r.owner[x] == w.owner[x]
  {
    var r := DestroyTile(w, id);
    forall x | x in r.owner
      ensures x in w.owner && w.owner[x] != id && r.owner[x] == w.owner[x]
    {
      assert x in Uploaded(w.tiles[w.owner[x]]);
    }
  }

  lemma DestroyKeepsSlots(w: World, id: TileId)
    requires TilesInv(w) && TexInv(w) && id in w.tiles
    ensures var r := DestroyTile(w, id);
      SlotsOwned(r) && LodsDistinct(r) && OwnersLive(r)
  {
    var r := DestroyTile(w, id);
    DestroyKeepsOwners(w, id);
    forall id', i | id' in r.tiles && 0 <= i <= r.tiles[id'].currentLod && 0 <= i < |r.tiles[id'].texture|
      ensures r.tiles[id'].texture[i] in r.owner && r.owner[r.tiles[id'].texture[i]] == id'
    {
      var x := w.tiles[id'].texture[i];
      NotUploadedElsewhere(w, id, x);
    }
  }

  lemma AppendNoDuplicates(a: seq<TexId>, b: seq<TexId>)
    requires NoDuplicates(a) && NoDuplicates(b)
    requires forall i, j :: 0 <= i < |a| && 0 <= j < |b| ==> a[i] != b[j]
    ensures NoDuplicates(a + b)
  {
    var c := a + b;
    forall i, j | 0 <= i < j < |c|
      ensures c[i] != c[j]
    {
      if i >= |a| {
        assert c[i] == b[i - |a|] && c[j] == b[j - |a|];
      } else if j >= |a| {
        assert c[j] == b[j - |a|];
      }
    }
  }

  /** A fully built tile's two textures are distinct, so its uploaded
      textures are too. */
  lemma UploadedDistinct(w: World, id: TileId)
    requires id in w.tiles && WellFormed(w.tiles[id]) && LodsDistinct(w)
    ensures NoDuplicates(Uploaded(w.tiles[id]))
  {
    var t := w.tiles[id];
    var up := Uploaded(t);
    if |up| == 2 {
      assert up[0] == t.texture[0] && up[1] == t.texture[1];
    }
  }

  lemma DestroyKeepsFreedLog(w: World, id: TileId)
    requires id in w.tiles && WellFormed(w.tiles[id])
    requires SlotsOwned(w) && LodsDistinct(w) && OwnersLive(w) && FreedLog(w)
    ensures FreedLog(DestroyTile(w, id))
  {
    var r := DestroyTile(w, id);
    var up := Uploaded(w.tiles[id]);
    var n := |w.freed|;
    assert forall k :: 0 <= k < |up| ==> up[k] in w.owner;
    UploadedDistinct(w, id);
    AppendNoDuplicates(w.freed, up);
    forall i | 0 <= i < |r.freed|
      ensures NoTexture < r.freed[i] < r.nextTex && r.freed[i] !in r.owner
    {
      if i < n {
        assert r.freed[i] == w.freed[i];
      } else {
        assert r.freed[i] == up[i - n];
      }
    }
  }

  lemma DestroyKeepsCovered(w: World, id: TileId)
    requires TilesInv(w) && TexInv(w) && id in w.tiles
    ensures Covered(DestroyTile(w, id))
  {
    var r := DestroyTile(w, id);
    var up := Uploaded(w.tiles[id]);
    forall x | NoTexture < x < r.nextTex && x !in r.owner && x !in w.freed
      ensures x in r.freed
    {
      assert x in up;
      var j :| 0 <= j < |up| && up[j] == x;
      assert r.freed[|w.freed| + j] == x;
    }
  }

  lemma DestroyKeepsDestroyLog(w: World, id: TileId)
    requires DestroyInv(w) && id in w.tiles && WellFormed(w.tiles[id]) && id < w.nextTile
    ensures DestroyInv(DestroyTile(w, id))
  {
    var r := DestroyTile(w, id);
    forall i | 0 <= i < |r.destroyed|
      ensures r.destroyed[i] < r.nextTile && r.destroyed[i] !in r.tiles
    {
      if i < |w.destroyed| {
        assert r.destroyed[i] == w.destroyed[i];
      }
    }
    forall id' | 0 <= id' < r.nextTile && id' !in r.tiles && id' != id
      ensures id' in r.destroyed
    {
      assert id' in w.destroyed;
    }
  }

  /** Destroying a live tile that has no build task keeps the world consistent. */
  lemma DestroyPreservesInv(w: World, id: TileId)
    requires WorldInv(w) && id in w.tiles && id !in w.tasks
    ensures WorldInv(DestroyTile(w, id))
  {
    DestroyKeepsSlots(w, id);
    DestroyKeepsFreedLog(w, id);
    DestroyKeepsCovered(w, id);
    DestroyKeepsDestroyLog(w, id);
  }

  /** Marking a tile released changes no texture and no id. */
  lemma MarkReleasedKeepsTextures(w: World, id: TileId)
    requires AllWellFormed(w) && TexInv(w) && DestroyInv(w) && id in w.tiles
    ensures var r := w.(tiles := w.tiles[id := w.tiles[id].(released := true)]);
      AllWellFormed(r) && TexInv(r) && DestroyInv(r)
  {
    var r := w.(tiles := w.tiles[id := w.tiles[id].(released := true)]);
    assert SlotsOwned(r) && LodsDistinct(r);
    forall x | x in r.owner
      ensures WellFormed(r.tiles[r.owner[x]]) ==> x in Uploaded(r.tiles[r.owner[x]])
    {
      assert x in Uploaded(w.tiles[w.owner[x]]);
    }
  }

  lemma MarkReleasedKeepsTiles(w: World, id: TileId)
    requires TilesInv(w) && id in w.tiles && w.tiles[id].wip
    ensures TilesInv(w.(tiles := w.tiles[id := w.tiles[id].(released := true)]))
  {
  }

  /** `release_tile` keeps the world consistent. */
  lemma ReleasePreservesInv(w: World, id: TileId)
    requires WorldInv(w) && id in w.tiles
    ensures WorldInv(ReleaseTile(w, id))
  {
    if !w.tiles[id].wip {
      DestroyPreservesInv(w, id);
    } else {
      var r := w.(tiles := w.tiles[id := w.tiles[id].(released := true)]);
      MarkReleasedKeepsTextures(w, id);
      MarkReleasedKeepsTiles(w, id);
      assert ReleaseTile(w, id) == r;
    }
  }

  /** The tile after its next upload: one level more, the fresh texture in the
      new level's slot, and still under construction unless the task `ends`
      (a released tile that is about to be destroyed counts as settled). */
  function Uploading(w: World, id: TileId, ends: bool): (t': Tile)
    requires id in w.tiles && WellFormed(w.tiles[id]) && w.tiles[id].currentLod < Lods - 1
    ensures WellFormed(t') && t'.currentLod == w.tiles[id].currentLod + 1
    ensures Uploaded(t') == Uploaded(w.tiles[id]) + [w.nextTex]
  {
    var t := w.tiles[id];
    var t' := t.(currentLod := t.currentLod + 1, texture := t.texture[t.currentLod + 1 := w.nextTex],
                 wip := !ends, released := t.released && !ends);
    assert Uploaded(t') == Uploaded(t) + [w.nextTex];
    t'
  }

  /** The world right after an upload, before any destruction. */
  function AfterUpload(w: World, id: TileId, ends: bool): World
    requires id in w.tiles && WellFormed(w.tiles[id]) && w.tiles[id].currentLod < Lods - 1
  {
    w.(tiles := w.tiles[id := Uploading(w, id, ends)],
       owner := w.owner[w.nextTex := id],
       nextTex := w.nextTex + 1,
       tasks := if ends then w.tasks - {id} else w.tasks[id := Fine])
  }

  lemma UploadKeepsSlots(w: World, id: TileId, ends: bool)
    requires WorldInv(w) && id in w.tasks
    ensures SlotsOwned(AfterUpload(w, id, ends)) && LodsDistinct(AfterUpload(w, id, ends))
  {
    var r := AfterUpload(w, id, ends);
    var t := w.tiles[id];
    var t' := Uploading(w, id, ends);
    forall id', i | id' in r.tiles && 0 <= i <= r.tiles[id'].currentLod && 0 <= i < |r.tiles[id'].texture|
      ensures r.tiles[id'].texture[i] in r.owner && r.owner[r.tiles[id'].texture[i]] == id'
    {
      if id' != id {
        assert r.tiles[id'].texture[i] in w.owner;
      } else if i < t'.currentLod {
        assert t'.texture[i] == t.texture[i];
      }
    }
    if t'.currentLod == 1 {
      assert t.texture[0] in w.owner;
    }
  }

  lemma UploadKeepsOwners(w: World, id: TileId, ends: bool)
    requires WorldInv(w) && id in w.tasks
    ensures OwnersLive(AfterUpload(w, id, ends)) && FreedLog(AfterUpload(w, id, ends))
    ensures Covered(AfterUpload(w, id, ends))
  {
    var r := AfterUpload(w, id, ends);
    var t := w.tiles[id];
    forall x | x in r.owner && x != w.nextTex
      ensures WellFormed(r.tiles[r.owner[x]]) ==> x in Uploaded(r.tiles[r.owner[x]])
    {
      assert x in Uploaded(w.tiles[w.owner[x]]);
    }
  }

  /** The intermediate world of a checkpoint, after its upload and before any
      destruction, is consistent, with the build task moved on to the fine
      stage, or ended (`ends`). */
  lemma AfterUploadKeepsInv(w: World, id: TileId, ends: bool)
    requires WorldInv(w) && id in w.tasks
    requires !ends ==> w.tasks[id] == Coarse
    ensures WorldInv(AfterUpload(w, id, ends))
  {
    UploadKeepsSlots(w, id, ends);
    UploadKeepsOwners(w, id, ends);
  }

  /** A checkpoint is an upload, followed by the destruction of a tile that
      was released meanwhile. */
  lemma CheckpointSteps(w: World, id: TileId)
    requires id in w.tasks && id in w.tiles && WellFormed(w.tiles[id]) && w.tiles[id].currentLod < Lods - 1
    requires w.tiles[id].wip
    ensures w.tiles[id].released ==> Checkpoint(w, id) == DestroyTile(AfterUpload(w, id, true), id)
    ensures !w.tiles[id].released ==> Checkpoint(w, id) == AfterUpload(w, id, w.tasks[id] == Fine)
  {
    var t := w.tiles[id];
    var ends := t.released || w.tasks[id] == Fine;
    var w1 := AfterUpload(w, id, ends);
    var u := UploadTexture(w, id, w.tasks[id] == Fine);
    var c := Checkpoint(w, id);
    if t.released {
      var r := DestroyTile(w1, id);
      assert c.tiles == r.tiles;
      assert c.freed == r.freed;
      assert c.owner == r.owner;
    } else {
      assert c.tiles == w1.tiles;
    }
  }

  /** A checkpoint keeps the world consistent. */
  lemma CheckpointPreservesInv(w: World, id: TileId)
    requires WorldInv(w) && id in w.tasks
    ensures WorldInv(Checkpoint(w, id))
  {
    var t := w.tiles[id];
    var ends := t.released || w.tasks[id] == Fine;
    AfterUploadKeepsInv(w, id, ends);
    TaskTileAlive(w, id);
    CheckpointSteps(w, id);
    if t.released {
      DestroyPreservesInv(AfterUpload(w, id, ends), id);
    }
  }

  /** A build checkpoint touches only its own tile: any other tile keeps its
      entry, and its own tile keeps position and release mark, or is gone when
      it had been released. */
  lemma CheckpointFrame(w: World, id: TileId)
    requires WorldInv(w) && id in w.tasks
    ensures var r := Checkpoint(w, id);
      && (forall x :: x in r.tiles <==> x in w.tiles && (x != id || !w.tiles[id].released))
      && (forall x :: x in r.tiles ==> r.tiles[x].pos == w.tiles[x].pos && r.tiles[x].released == w.tiles[x].released)
  {
    TaskTileAlive(w, id);
  }

  /** `upload_texture` called by a build task keeps the world consistent once the
      task has taken its answer into account: it answers `true` exactly for a
      tile nobody released, and the task then goes on to the full image after the
      coarse upload and ends after the finalizing one; on `false` the task ends. */
  lemma UploadTextureKeepsInv(w: World, id: TileId)
    requires WorldInv(w) && id in w.tasks
    ensures id in w.tiles && WellFormed(w.tiles[id]) && w.tiles[id].currentLod < Lods - 1
    ensures var fin := w.tasks[id] == Fine;
      var u := UploadTexture(w, id, fin);
      && (u.alive <==> !w.tiles[id].released)
      && WorldInv(u.world.(tasks := if u.alive && !fin then w.tasks[id := Fine] else w.tasks - {id}))
  {
    TaskTileAlive(w, id);
    CheckpointPreservesInv(w, id);
  }

  /** A tile released while its build task is in flight is destroyed at that
      task's next checkpoint, all its textures deleted, and the task ends. */
  lemma ReleasedDiesAtNextCheckpoint(w: World, id: TileId)
    requires WorldInv(w) && id in w.tasks && w.tiles[id].released
    ensures var r := Checkpoint(w, id);
      && id !in r.tiles && id !in r.tasks
      && r.destroyed == w.destroyed + [id]
      && |r.freed| == |w.freed| + w.tiles[id].currentLod + 2
  {
  }

  /** A tile nobody releases reaches the full level of detail after its two
      checkpoints, and is then no longer under construction. */
  lemma UnreleasedTileSettles(w: World, id: TileId)
    requires WorldInv(w) && id in w.tasks && w.tasks[id] == Coarse && !w.tiles[id].released
    ensures var w1 := Checkpoint(w, id);
      && id in w1.tasks && w1.tasks[id] == Fine
      && w1.tiles[id].currentLod == 0 && w1.tiles[id].wip
      && var w2 := Checkpoint(w1, id);
      && id in w2.tiles && id !in w2.tasks
      && w2.tiles[id].currentLod == 1 && !w2.tiles[id].wip
  {
    CheckpointPreservesInv(w, id);
  }

  /** Once no tile is alive, every texture ever created has been deleted
      exactly once, and every tile ever created has been destroyed exactly once. */
  lemma NothingLeaks(w: World)
    requires WorldInv(w) && w.tiles == map[]
    ensures forall x :: NoTexture < x < w.nextTex ==> x in w.freed
    ensures forall i :: 0 <= i < |w.freed| ==> NoTexture < w.freed[i] < w.nextTex
    ensures NoDuplicates(w.freed)
    ensures forall id :: 0 <= id < w.nextTile ==> id in w.destroyed
    ensures NoDuplicates(w.destroyed)
  {
  }
}
