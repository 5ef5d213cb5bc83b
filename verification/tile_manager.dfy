/**
 * `TileManager` (main.cpp): the list of tiles the viewer currently shows and
 * `update`, which lines that list up with the window of grid cells around the
 * screen rectangle: tiles that left the window are released, every window cell
 * without a tile gets a fresh one under construction. `reset` and the destructor
 * release the whole list.
 *
 * The `BitArray` of marked cells is a set of bit offsets, and `tiles`, a
 * `Vector<Tile*>`, is a sequence of tile ids into the world of the Tiles module.
 */
module TileManager {
  import opened Arith
  import opened Geometry
  import opened Sequences
  import opened Tiles

  datatype Manager = Manager(tileSize: Vec2, screenOffset: Vec2, list: seq<TileId>)

  /** The window `update` works on: the tile size, the grid cell of the screen's
      top-left corner (`base`) and the window size in cells (`vis`). */
  datatype Window = Window(ts: Vec2, base: Vec2, vis: Vec2)

  /** `vis = s.size() / tile_size + Vec2i(2)` and `base = floor_div(s.top_left(), tile_size)`. */
  function WindowOf(s: Rect, ts: Vec2): (win: Window)
    requires Positive(ts)
    ensures win.ts == ts
    ensures forall c :: Visible(win, c) <==> 0 <= c.x < win.vis.x && 0 <= c.y < win.vis.y
  {
    var win := Window(ts, FloorDivVec(TopLeft(s), ts), Add(DivVec(Size(s), ts), Splat(2)));
    assert forall c :: Visible(win, c) <==> 0 <= c.x < win.vis.x && 0 <= c.y < win.vis.y by {
      forall c {
        ContainsInWindow(win.vis, c);
      }
    }
    win
  }

  /** One axis of `ScreenInWindow`: a coordinate `p` in `[lo, hi]` lies in grid
      cell `floor_div(p, t)`, which is at most `(hi - lo + 1) / t + 1` cells past
      the cell of `lo`. */
  lemma AxisInWindow(lo: int, hi: int, p: int, t: int)
    requires t > 0 && lo <= p <= hi
    ensures 0 <= FloorDiv(p, t) - FloorDiv(lo, t) < TruncDiv(hi - lo + 1, t) + 2
  {
    var qp, ql, k := FloorDiv(p, t), FloorDiv(lo, t), TruncDiv(hi - lo + 1, t);
    assert (qp + 1) * t == qp * t + t;
    CancelFactor(ql, qp + 1, t);
    assert (ql + k + 2) * t == ql * t + k * t + 2 * t;
    CancelFactor(qp, ql + k + 2, t);
  }

  /** The cell of a screen point, `floor_div(p, tile_size) - base`, is visible. */
  lemma ScreenCellVisible(s: Rect, ts: Vec2, p: Vec2)
    requires Positive(ts) && ContainsPoint(s, p)
    ensures Visible(WindowOf(s, ts), Sub(FloorDivVec(p, ts), WindowOf(s, ts).base))
  {
    AxisInWindow(s.min.x, s.max.x, p.x, ts.x);
    AxisInWindow(s.min.y, s.max.y, p.y, ts.y);
  }

  /** The tile placed for the cell of `p` holds `p`. */
  lemma CellTileHolds(win: Window, p: Vec2)
    requires Positive(win.ts)
    ensures ContainsPoint(RectWH(At(win, Sub(FloorDivVec(p, win.ts), win.base)), win.ts), p)
  {
    var q := FloorDivVec(p, win.ts);
    assert At(win, Sub(q, win.base)) == Mul(q, win.ts);
  }

  /** The window covers the screen: every point of `s` lies in a visible cell,
      namely `floor_div(p, tile_size) - base`, and the tile `update` places for
      that cell at `(base + c) * tile_size` holds the point. The two cells added
      to `s.size() / tile_size` are what makes this hold for a screen that does
      not start on a cell boundary. */
  lemma ScreenInWindow(s: Rect, ts: Vec2, p: Vec2)
    requires Positive(ts) && ContainsPoint(s, p)
    ensures var win := WindowOf(s, ts);
      var c := Sub(FloorDivVec(p, ts), win.base);
      Visible(win, c) && ContainsPoint(RectWH(At(win, c), ts), p)
  {
    ScreenCellVisible(s, ts, p);
    CellTileHolds(WindowOf(s, ts), p);
  }

  /** `t->pos / tile_size - base`: the window cell of a tile position. */
  function Index(win: Window, p: Vec2): Vec2
    requires Positive(win.ts)
  {
    Sub(DivVec(p, win.ts), win.base)
  }

  /** `contains(visrect, index)` with `visrect = Rect_WH(Vec2i(0), vis)`. */
  predicate Visible(win: Window, c: Vec2) {
    ContainsPoint(RectWH(Vec2(0, 0), win.vis), c)
  }

  /** The bit of a window cell: `index.y * vis.x + index.x`. */
  function Offset(win: Window, c: Vec2): int {
    c.y * win.vis.x + c.x
  }

  /** The position of a new tile for window cell `c`: `(base + c) * tile_size`. */
  function At(win: Window, c: Vec2): Vec2 {
    Mul(Add(win.base, c), win.ts)
  }

  /** A position on the tile grid: a multiple of the tile size. */
  predicate Aligned(p: Vec2, ts: Vec2)
    requires Positive(ts)
  {
    p.x % ts.x == 0 && p.y % ts.y == 0
  }

  /** Cells before `(x, y)` in the row-major order of `update`'s second loop. */
  predicate Before(c: Vec2, x: int, y: int) {
    c.y < y || (c.y == y && c.x < x)
  }

  /** Distinct visible cells have distinct bits. */
  lemma OffsetInjective(win: Window, c1: Vec2, c2: Vec2)
    requires Positive(win.ts)
    requires 0 <= c1.x < win.vis.x && 0 <= c2.x < win.vis.x
    requires Offset(win, c1) == Offset(win, c2)
    ensures c1 == c2
  {
    assert (c1.y - c2.y) * win.vis.x == c2.x - c1.x;
    ZeroMultiple(c1.y - c2.y, win.vis.x);
  }

  /** A new tile lands on the grid, in the cell it was made for. */
  lemma AtIndex(win: Window, c: Vec2)
    requires Positive(win.ts)
    ensures Aligned(At(win, c), win.ts) && Index(win, At(win, c)) == c
  {
    TruncDivExact(win.base.x + c.x, win.ts.x);
    TruncDivExact(win.base.y + c.y, win.ts.y);
    MultipleMod(win.base.x + c.x, win.ts.x);
    MultipleMod(win.base.y + c.y, win.ts.y);
  }

  /** A grid position is determined by its cell. */
  lemma IndexAt(win: Window, p: Vec2)
    requires Positive(win.ts) && Aligned(p, win.ts)
    ensures At(win, Index(win, p)) == p
  {
    TruncDivOfMultiple(p.x, win.ts.x);
    TruncDivOfMultiple(p.y, win.ts.y);
  }

  function PosOf(w: World, id: TileId): Vec2
    requires id in w.tiles
  {
    w.tiles[id].pos
  }

  /** The positions of the tiles in `l`. */
  function Positions(w: World, l: seq<TileId>): (ps: set<Vec2>)
    requires forall i :: 0 <= i < |l| ==> l[i] in w.tiles
  {
    if |l| == 0 then {} else Positions(w, l[..|l| - 1]) + {PosOf(w, l[|l| - 1])}
  }

  /** The bits `update`'s first loop sets for the tiles in `l`. */
  function Bits(w: World, win: Window, l: seq<TileId>): set<int>
    requires Positive(win.ts)
    requires forall i :: 0 <= i < |l| ==> l[i] in w.tiles
  {
    if |l| == 0 then {} else Bits(w, win, l[..|l| - 1]) + {Offset(win, Index(win, PosOf(w, l[|l| - 1])))}
  }

  /** A position is in `Positions` exactly when some tile of `l` sits there. */
  lemma {:induction false} PositionsMembers(w: World, l: seq<TileId>, p: Vec2)
    requires forall i :: 0 <= i < |l| ==> l[i] in w.tiles
    ensures p in Positions(w, l) <==> exists i :: 0 <= i < |l| && PosOf(w, l[i]) == p
  {
    if |l| > 0 {
      var front := l[..|l| - 1];
      PositionsMembers(w, front, p);
      if p in Positions(w, front) {
        var i :| 0 <= i < |front| && PosOf(w, front[i]) == p;
        assert l[i] == front[i];
      }
      if i :| 0 <= i < |l| && PosOf(w, l[i]) == p {
        if i < |front| {
          assert front[i] == l[i];
        }
      }
    }
  }

  /** Positions only depend on where the listed tiles are. */
  lemma {:induction false} PositionsFrame(w1: World, w2: World, l: seq<TileId>)
    requires forall i :: 0 <= i < |l| ==> l[i] in w1.tiles && l[i] in w2.tiles && PosOf(w1, l[i]) == PosOf(w2, l[i])
    ensures Positions(w1, l) == Positions(w2, l)
  {
    if |l| > 0 {
      PositionsFrame(w1, w2, l[..|l| - 1]);
    }
  }

  lemma {:induction false} BitsFrame(w1: World, w2: World, win: Window, l: seq<TileId>)
    requires Positive(win.ts)
    requires forall i :: 0 <= i < |l| ==> l[i] in w1.tiles && l[i] in w2.tiles && PosOf(w1, l[i]) == PosOf(w2, l[i])
    ensures Bits(w1, win, l) == Bits(w2, win, l)
  {
    if |l| > 0 {
      BitsFrame(w1, w2, win, l[..|l| - 1]);
    }
  }

  /** The positions of a prefix are among those of the whole list. */
  lemma PositionsPrefix(w: World, l: seq<TileId>, k: int)
    requires forall i :: 0 <= i < |l| ==> l[i] in w.tiles
    requires 0 <= k <= |l|
    ensures Positions(w, l[..k]) <= Positions(w, l)
  {
    forall p | p in Positions(w, l[..k])
      ensures p in Positions(w, l)
    {
      PositionsMembers(w, l[..k], p);
      var i :| 0 <= i < k && PosOf(w, l[..k][i]) == p;
      PositionsMembers(w, l, p);
      assert PosOf(w, l[i]) == p;
    }
  }

  lemma VisibleCells(win: Window)
    ensures forall c :: Visible(win, c) <==> 0 <= c.x < win.vis.x && 0 <= c.y < win.vis.y
  {
    forall c {
      ContainsInWindow(win.vis, c);
    }
  }

  /** Every tile of `l` has its bit set. */
  lemma {:induction false} BitsCover(w: World, win: Window, l: seq<TileId>, i: int)
    requires Positive(win.ts)
    requires forall j :: 0 <= j < |l| ==> l[j] in w.tiles
    requires 0 <= i < |l|
    ensures Offset(win, Index(win, PosOf(w, l[i]))) in Bits(w, win, l)
  {
    if i < |l| - 1 {
      BitsCover(w, win, l[..|l| - 1], i);
    }
  }

  /** A set bit of a visible cell means a tile of `l` sits at that cell's grid
      position, when all of `l` is on the grid and visible. */
  lemma {:induction false} BitsMeanTile(w: World, win: Window, l: seq<TileId>, c: Vec2)
    requires Positive(win.ts)
    requires forall j :: 0 <= j < |l| ==> l[j] in w.tiles
    requires forall j :: 0 <= j < |l| ==> Aligned(PosOf(w, l[j]), win.ts)
    requires forall j :: 0 <= j < |l| ==> 0 <= Index(win, PosOf(w, l[j])).x < win.vis.x
    requires 0 <= c.x < win.vis.x
    requires Offset(win, c) in Bits(w, win, l)
    ensures At(win, c) in Positions(w, l)
  {
    var front := l[..|l| - 1];
    var p := PosOf(w, l[|l| - 1]);
    if Offset(win, c) == Offset(win, Index(win, p)) {
      OffsetInjective(win, c, Index(win, p));
      IndexAt(win, p);
    } else {
      BitsMeanTile(w, win, front, c);
    }
  }

  /** The list the manager keeps: no tile twice, every listed tile alive, not
      released and on the grid, and no two listed tiles at the same place. */
  predicate Tracked(w: World, l: seq<TileId>, ts: Vec2)
    requires Positive(ts)
  {
    && NoDuplicates(l)
    && (forall id :: id in l ==> id in w.tiles && !w.tiles[id].released && Aligned(w.tiles[id].pos, ts))
    && (forall a, b :: a in l && b in l && a != b ==> w.tiles[a].pos != w.tiles[b].pos)
  }

  /** Every live tile nobody released is on the list. */
  predicate Complete(w: World, l: seq<TileId>) {
    forall id :: id in w.tiles && !w.tiles[id].released ==> id in l
  }

  predicate ManagerInv(w: World, m: Manager) {
    Positive(m.tileSize) && Tracked(w, m.list, m.tileSize) && Complete(w, m.list)
  }

  /** `tiles.quick_remove(i)`: the last element takes the place of the removed one. */
  function QuickRemove(l: seq<TileId>, i: int): (r: seq<TileId>)
    requires 0 <= i < |l|
    ensures |r| == |l| - 1 && r[..i] == l[..i]
    ensures NoDuplicates(l) ==> NoDuplicates(r) && forall id :: id in r <==> id in l && id != l[i]
  {
    var r := l[i := l[|l| - 1]][..|l| - 1];
    assert forall j :: 0 <= j < |r| ==> r[j] == if j == i then l[|l| - 1] else l[j];
    if NoDuplicates(l) then
      assert forall id :: id in l && id != l[i] ==> id in r by {
        forall id | id in l && id != l[i]
          ensures id in r
        {
          var j :| 0 <= j < |l| && l[j] == id;
          if j == |l| - 1 {
            assert r[i] == id;
          } else {
            assert r[j] == id;
          }
        }
      }
      r
    else
      r
  }

  /** The world and list of `update`'s first loop, starting from world `w`
      and list `list`: the kept tiles are untouched, the dropped ones released. */
  predicate SweptWorld(w: World, list: seq<TileId>, win: Window, w': World, kept: seq<TileId>)
    requires Positive(win.ts)
  {
    && (forall id :: id in list ==> id in w.tiles)
    && AllWellFormed(w') && Tracked(w', kept, win.ts) && Complete(w', kept)
    && (forall id :: id in kept ==> id in list && id in w.tiles && w'.tiles[id] == w.tiles[id])
    && (forall id :: id in list && Visible(win, Index(win, PosOf(w, id))) ==> id in kept)
    && (forall id :: id in list && id !in kept && id in w'.tiles ==> w'.tiles[id].released)
    && (forall id :: id in w'.tiles ==> id in w.tiles && (id !in list ==> w'.tiles[id] == w.tiles[id]))
    && (forall id :: id in w.tiles && id !in list ==> id in w'.tiles)
    && w'.nextTile == w.nextTile && w'.tasks == w.tasks
  }

  /** The scan of `update`'s first loop after it has looked at `kept[..i]`: those
      tiles are visible and have marked their bits. */
  predicate Swept(w: World, list: seq<TileId>, win: Window, w': World, kept: seq<TileId>, i: int, bits: set<int>)
    requires Positive(win.ts)
  {
    && SweptWorld(w, list, win, w', kept)
    && 0 <= i <= |kept|
    && (forall j :: 0 <= j < i ==> Visible(win, Index(win, PosOf(w, kept[j]))))
    && bits == Bits(w, win, kept[..i])
  }

  /** `release_tile` touches only the tile released: it ends up released or gone. */
  lemma ReleaseFrame(w: World, t: TileId)
    requires t in w.tiles && WellFormed(w.tiles[t])
    ensures var r := ReleaseTile(w, t);
      && (forall id :: id in r.tiles ==> id in w.tiles && (id != t ==> r.tiles[id] == w.tiles[id]))
      && (forall id :: id in w.tiles && id != t ==> id in r.tiles)
      && (t in r.tiles ==> r.tiles[t].released && r.tiles[t].pos == w.tiles[t].pos)
      && (AllWellFormed(w) ==> AllWellFormed(r))
      && r.nextTile == w.nextTile && r.tasks == w.tasks
  {
  }

  lemma ReleaseKeepsTracked(w': World, kept: seq<TileId>, i: int, ts: Vec2)
    requires Positive(ts) && Tracked(w', kept, ts) && Complete(w', kept) && 0 <= i < |kept|
    requires WellFormed(w'.tiles[kept[i]])
    ensures Tracked(ReleaseTile(w', kept[i]), QuickRemove(kept, i), ts)
    ensures Complete(ReleaseTile(w', kept[i]), QuickRemove(kept, i))
  {
    ReleaseFrame(w', kept[i]);
  }

  lemma ReleaseStepWorld(w: World, list: seq<TileId>, win: Window, w': World, kept: seq<TileId>, i: int)
    requires Positive(win.ts) && SweptWorld(w, list, win, w', kept) && 0 <= i < |kept|
    requires !Visible(win, Index(win, PosOf(w', kept[i])))
    ensures SweptWorld(w, list, win, ReleaseTile(w', kept[i]), QuickRemove(kept, i))
  {
    var t := kept[i];
    ReleaseFrame(w', t);
    ReleaseKeepsTracked(w', kept, i, win.ts);
  }

  lemma ReleaseStep(w: World, list: seq<TileId>, win: Window, w': World, kept: seq<TileId>, i: int, bits: set<int>)
    requires Positive(win.ts) && Swept(w, list, win, w', kept, i, bits) && i < |kept|
    requires !Visible(win, Index(win, PosOf(w', kept[i])))
    ensures Swept(w, list, win, ReleaseTile(w', kept[i]), QuickRemove(kept, i), i, bits)
  {
    ReleaseStepWorld(w, list, win, w', kept, i);
    var k2 := QuickRemove(kept, i);
    assert forall j :: 0 <= j < i ==> k2[j] == kept[j];
  }

  lemma MarkStep(w: World, list: seq<TileId>, win: Window, w': World, kept: seq<TileId>, i: int, bits: set<int>)
    requires Positive(win.ts) && Swept(w, list, win, w', kept, i, bits) && i < |kept|
    requires Visible(win, Index(win, PosOf(w', kept[i])))
    ensures Swept(w, list, win, w', kept, i + 1, bits + {Offset(win, Index(win, PosOf(w', kept[i])))})
  {
    assert kept[..i + 1][..i] == kept[..i];
  }

  /** The scan starts with the whole list kept and no bit marked. */
  lemma SweepStart(w: World, list: seq<TileId>, win: Window)
    requires Positive(win.ts) && AllWellFormed(w) && Tracked(w, list, win.ts) && Complete(w, list)
    ensures Swept(w, list, win, w, list, 0, {})
  {
    assert list[..0] == [];
  }

  /** The scan is over once it has looked at every kept tile. */
  lemma SweepDone(w: World, list: seq<TileId>, win: Window, w': World, kept: seq<TileId>, bits: set<int>)
    requires Positive(win.ts) && Swept(w, list, win, w', kept, |kept|, bits)
    ensures Tracked(w', kept, win.ts) && Complete(w', kept)
    ensures forall id :: id in kept <==> id in list && Visible(win, Index(win, PosOf(w, id)))
    ensures forall id :: id in kept ==> id in w.tiles && w'.tiles[id] == w.tiles[id]
    ensures forall id :: id in list && id !in kept && id in w'.tiles ==> w'.tiles[id].released
    ensures forall id :: id in w'.tiles ==> id in w.tiles && (id !in list ==> w'.tiles[id] == w.tiles[id])
    ensures forall id :: id in w.tiles && id !in list ==> id in w'.tiles
    ensures forall id :: id in kept ==> Visible(win, Index(win, PosOf(w', id)))
    ensures bits == Bits(w', win, kept)
    ensures w'.nextTile == w.nextTile && w'.tasks == w.tasks
  {
    assert kept[..|kept|] == kept;
    BitsFrame(w, w', win, kept);
  }

  /** The first loop of `update`: every listed tile outside the window is taken
      off the list and released, every other one keeps its place and marks its
      cell's bit. */
  method ReleaseOutside(w: World, list: seq<TileId>, win: Window) returns (w': World, kept: seq<TileId>, bits: set<int>)
    requires Positive(win.ts) && WorldInv(w) && Tracked(w, list, win.ts) && Complete(w, list)
    ensures WorldInv(w') && Tracked(w', kept, win.ts) && Complete(w', kept)
    ensures forall id :: id in kept <==> id in list && Visible(win, Index(win, PosOf(w, id)))
    ensures forall id :: id in kept ==> id in w.tiles && w'.tiles[id] == w.tiles[id]
    ensures forall id :: id in list && id !in kept && id in w'.tiles ==> w'.tiles[id].released
    ensures forall id :: id in w'.tiles ==> id in w.tiles && (id !in list ==> w'.tiles[id] == w.tiles[id])
    ensures forall id :: id in w.tiles && id !in list ==> id in w'.tiles
    ensures forall id :: id in kept ==> Visible(win, Index(win, PosOf(w', id)))
    ensures bits == Bits(w', win, kept)
    ensures w'.nextTile == w.nextTile && w'.tasks == w.tasks
  {
    SweepStart(w, list, win);
    w', kept, bits := w, list, {};
    var i := 0;
    while i < |kept|
      invariant Swept(w, list, win, w', kept, i, bits)
      invariant WorldInv(w')
      decreases |kept| - i
    {
      var t := kept[i];
      var index := Index(win, PosOf(w', t));
      if !Visible(win, index) {
        ReleaseStep(w, list, win, w', kept, i, bits);
        ReleasePreservesInv(w', t);
        kept := QuickRemove(kept, i);
        w' := ReleaseTile(w', t);
      } else {
        MarkStep(w, list, win, w', kept, i, bits);
        bits := bits + {Offset(win, index)};
        i := i + 1;
      }
    }
    SweepDone(w, list, win, w', kept, bits);
  }

  /** A tile `update`'s second loop made for a visible cell whose bit was
      clear: fresh, under construction, its build task waiting for the coarse
      upload. */
  predicate Made(w0: World, bits: set<int>, win: Window, wc: World, id: TileId)
    requires Positive(win.ts)
  {
    && id !in w0.tiles && id >= w0.nextTile
    && id in wc.tiles && id in wc.tasks && wc.tasks[id] == Coarse && wc.tiles[id].wip
    && Visible(win, Index(win, wc.tiles[id].pos))
    && Offset(win, Index(win, wc.tiles[id].pos)) !in bits
  }

  /** The world and list of `update`'s second loop, started on world `w0` with
      the list `kept` and the `bits` of the first loop: the tiles of `w0` are
      untouched and the list only grew by fresh tiles. */
  predicate FilledWorld(w0: World, kept: seq<TileId>, bits: set<int>, win: Window, wc: World, l: seq<TileId>)
    requires Positive(win.ts)
  {
    && FreshIds(wc) && Tracked(wc, l, win.ts) && Complete(wc, l)
    && |kept| <= |l| && l[..|kept|] == kept
    && (forall id :: id in w0.tiles ==> id in wc.tiles && wc.tiles[id] == w0.tiles[id])
    && (forall id :: id in w0.tasks ==> id in w0.tiles && id in wc.tasks && wc.tasks[id] == w0.tasks[id])
    && (forall id :: id in wc.tiles ==> id in w0.tiles || id in l)
    && wc.nextTile >= w0.nextTile
    && (forall j :: 0 <= j < |kept| ==> kept[j] in w0.tiles && Visible(win, Index(win, PosOf(w0, kept[j]))))
    && (forall j :: |kept| <= j < |l| ==> Made(w0, bits, win, wc, l[j]))
    && bits == Bits(w0, win, kept)
  }

  /** The second loop at cell `(x, y)`: the tiles made so far are for cells
      before it, and every visible cell before it holds a tile. */
  ghost predicate Filled(w0: World, kept: seq<TileId>, bits: set<int>, win: Window, wc: World, l: seq<TileId>, x: int, y: int)
    requires Positive(win.ts)
  {
    && FilledWorld(w0, kept, bits, win, wc, l)
    && (forall j :: |kept| <= j < |l| ==> Before(Index(win, PosOf(wc, l[j])), x, y))
    && (forall c :: Visible(win, c) && Before(c, x, y) ==> At(win, c) in Positions(wc, l))
  }

  /** A clear bit: the cell is free, so the new tile's position differs from
      every listed one. */
  lemma CellFree(w0: World, kept: seq<TileId>, bits: set<int>, win: Window, wc: World, l: seq<TileId>, x: int, y: int)
    requires Positive(win.ts) && Filled(w0, kept, bits, win, wc, l, x, y)
    requires Offset(win, Vec2(x, y)) !in bits
    ensures forall a :: a in l ==> Index(win, PosOf(wc, a)) != Vec2(x, y)
  {
    forall a | a in l
      ensures Index(win, PosOf(wc, a)) != Vec2(x, y)
    {
      var j :| 0 <= j < |l| && l[j] == a;
      if j < |kept| {
        assert l[j] == kept[j];
        BitsCover(w0, win, kept, j);
      }
    }
  }

  lemma SpawnStepWorld(w0: World, kept: seq<TileId>, bits: set<int>, win: Window, wc: World, l: seq<TileId>, x: int, y: int)
    requires Positive(win.ts) && Filled(w0, kept, bits, win, wc, l, x, y)
    requires 0 <= x < win.vis.x && 0 <= y < win.vis.y && Offset(win, Vec2(x, y)) !in bits
    ensures var sp := SpawnTile(wc, At(win, Vec2(x, y)));
      FilledWorld(w0, kept, bits, win, sp.1, l + [sp.0])
  {
    var c := Vec2(x, y);
    var sp := SpawnTile(wc, At(win, c));
    var l' := l + [sp.0];
    AtIndex(win, c);
    VisibleCells(win);
    CellFree(w0, kept, bits, win, wc, l, x, y);
    SpawnKeepsTracked(wc, l, win, c);
    assert l'[..|kept|] == kept by {
      assert l'[..|l|] == l;
    }
    SpawnMade(w0, bits, win, wc, l, |kept|, c);
  }

  lemma SpawnMade(w0: World, bits: set<int>, win: Window, wc: World, l: seq<TileId>, k: int, c: Vec2)
    requires Positive(win.ts) && FreshIds(wc) && 0 <= k <= |l|
    requires forall id :: id in w0.tiles ==> id in wc.tiles
    requires wc.nextTile >= w0.nextTile
    requires forall j :: k <= j < |l| ==> Made(w0, bits, win, wc, l[j])
    requires Visible(win, c) && Offset(win, c) !in bits
    ensures var sp := SpawnTile(wc, At(win, c));
      forall j :: k <= j < |l| + 1 ==> Made(w0, bits, win, sp.1, (l + [sp.0])[j])
  {
    AtIndex(win, c);
    var sp := SpawnTile(wc, At(win, c));
    var l' := l + [sp.0];
    assert l'[|l|] == sp.0;
    assert forall j :: k <= j < |l| ==> l'[j] == l[j];
  }

  /** A tile made for a free cell keeps the list well kept. */
  lemma SpawnKeepsTracked(wc: World, l: seq<TileId>, win: Window, c: Vec2)
    requires Positive(win.ts) && FreshIds(wc) && Tracked(wc, l, win.ts) && Complete(wc, l)
    requires forall a :: a in l ==> Index(win, PosOf(wc, a)) != c
    ensures var sp := SpawnTile(wc, At(win, c));
      Tracked(sp.1, l + [sp.0], win.ts) && Complete(sp.1, l + [sp.0]) && FreshIds(sp.1)
  {
    AtIndex(win, c);
  }

  lemma SpawnCovers(wc: World, l: seq<TileId>, win: Window, x: int, y: int)
    requires Positive(win.ts) && FreshIds(wc)
    requires forall i :: 0 <= i < |l| ==> l[i] in wc.tiles
    requires forall c :: Visible(win, c) && Before(c, x, y) ==> At(win, c) in Positions(wc, l)
    ensures var sp := SpawnTile(wc, At(win, Vec2(x, y)));
      forall c :: Visible(win, c) && Before(c, x + 1, y) ==> At(win, c) in Positions(sp.1, l + [sp.0])
  {
    var sp := SpawnTile(wc, At(win, Vec2(x, y)));
    var l' := l + [sp.0];
    assert l'[..|l|] == l;
    PositionsFrame(wc, sp.1, l);
    var ps := Positions(sp.1, l');
    assert ps == Positions(wc, l) + {At(win, Vec2(x, y))};
    forall c | Visible(win, c) && Before(c, x + 1, y)
      ensures At(win, c) in ps
    {
      if c != Vec2(x, y) {
        assert Before(c, x, y);
      }
    }
  }

  lemma SpawnStep(w0: World, kept: seq<TileId>, bits: set<int>, win: Window, wc: World, l: seq<TileId>, x: int, y: int)
    requires Positive(win.ts) && Filled(w0, kept, bits, win, wc, l, x, y)
    requires 0 <= x < win.vis.x && 0 <= y < win.vis.y && Offset(win, Vec2(x, y)) !in bits
    ensures var sp := SpawnTile(wc, At(win, Vec2(x, y)));
      Filled(w0, kept, bits, win, sp.1, l + [sp.0], x + 1, y)
  {
    SpawnStepWorld(w0, kept, bits, win, wc, l, x, y);
    SpawnCovers(wc, l, win, x, y);
    var sp := SpawnTile(wc, At(win, Vec2(x, y)));
    var l' := l + [sp.0];
    AtIndex(win, Vec2(x, y));
    assert forall j :: |kept| <= j < |l| ==> l'[j] == l[j] && PosOf(sp.1, l[j]) == PosOf(wc, l[j]);
  }

  lemma SkipStep(w0: World, kept: seq<TileId>, bits: set<int>, win: Window, wc: World, l: seq<TileId>, x: int, y: int)
    requires Positive(win.ts) && Filled(w0, kept, bits, win, wc, l, x, y)
    requires 0 <= x < win.vis.x && 0 <= y < win.vis.y && Offset(win, Vec2(x, y)) in bits
    ensures Filled(w0, kept, bits, win, wc, l, x + 1, y)
  {
    var c := Vec2(x, y);
    VisibleCells(win);
    forall j | 0 <= j < |kept|
      ensures 0 <= Index(win, PosOf(w0, kept[j])).x < win.vis.x
      ensures Aligned(PosOf(w0, kept[j]), win.ts)
    {
      assert kept[j] == l[j];
    }
    BitsMeanTile(w0, win, kept, c);
    PositionsFrame(w0, wc, kept);
    PositionsPrefix(wc, l, |kept|);
  }

  lemma RowDone(w0: World, kept: seq<TileId>, bits: set<int>, win: Window, wc: World, l: seq<TileId>, x: int, y: int)
    requires Positive(win.ts) && Filled(w0, kept, bits, win, wc, l, x, y) && x >= win.vis.x
    ensures Filled(w0, kept, bits, win, wc, l, 0, y + 1)
  {
    VisibleCells(win);
  }

  /** The inner loop of `update`'s second loop, over row `y`. */
  method FillRow(w0: World, kept: seq<TileId>, bits: set<int>, win: Window, wc: World, l: seq<TileId>, y: int)
    returns (wc': World, l': seq<TileId>)
    requires Positive(win.ts) && 0 <= y < win.vis.y && Filled(w0, kept, bits, win, wc, l, 0, y)
    requires WorldInv(wc)
    ensures Filled(w0, kept, bits, win, wc', l', 0, y + 1) && WorldInv(wc')
  {
    wc', l' := wc, l;
    var x := 0;
    while x < win.vis.x
      invariant 0 <= x && Filled(w0, kept, bits, win, wc', l', x, y) && WorldInv(wc')
    {
      if Offset(win, Vec2(x, y)) !in bits {
        SpawnStep(w0, kept, bits, win, wc', l', x, y);
        SpawnPreservesInv(wc', At(win, Vec2(x, y)));
        var sp := SpawnTile(wc', At(win, Vec2(x, y)));
        wc', l' := sp.1, l' + [sp.0];
      } else {
        SkipStep(w0, kept, bits, win, wc', l', x, y);
      }
      x := x + 1;
    }
    RowDone(w0, kept, bits, win, wc', l', x, y);
  }

  /** `update`'s second loop: a fresh tile for every window cell whose bit is clear. */
  method FillWindow(w0: World, kept: seq<TileId>, bits: set<int>, win: Window) returns (w': World, l: seq<TileId>)
    requires Positive(win.ts) && Filled(w0, kept, bits, win, w0, kept, 0, 0) && WorldInv(w0)
    ensures FilledWorld(w0, kept, bits, win, w', l) && WorldInv(w')
    ensures forall c :: Visible(win, c) ==> At(win, c) in Positions(w', l)
  {
    w', l := w0, kept;
    var y := 0;
    while y < win.vis.y
      invariant 0 <= y && Filled(w0, kept, bits, win, w', l, 0, y) && WorldInv(w')
    {
      w', l := FillRow(w0, kept, bits, win, w', l, y);
      y := y + 1;
    }
    VisibleCells(win);
  }

  /** The fill starts from the first loop's result with nothing made yet. */
  lemma FillStart(w0: World, kept: seq<TileId>, bits: set<int>, win: Window)
    requires Positive(win.ts) && FreshIds(w0) && (forall id :: id in w0.tasks ==> id in w0.tiles)
    requires Tracked(w0, kept, win.ts) && Complete(w0, kept)
    requires forall id :: id in kept ==> Visible(win, Index(win, PosOf(w0, id)))
    requires bits == Bits(w0, win, kept)
    ensures Filled(w0, kept, bits, win, w0, kept, 0, 0)
  {
    VisibleCells(win);
  }

  /** Every tile on the list after the fill is visible. */
  lemma FilledVisible(w0: World, kept: seq<TileId>, bits: set<int>, win: Window, wc: World, l: seq<TileId>)
    requires Positive(win.ts) && FilledWorld(w0, kept, bits, win, wc, l)
    ensures forall id :: id in l ==> Visible(win, Index(win, PosOf(wc, id)))
    ensures forall id :: id in l && id !in kept ==> Made(w0, bits, win, wc, id)
  {
    forall id | id in l
      ensures Visible(win, Index(win, PosOf(wc, id)))
      ensures id !in kept ==> Made(w0, bits, win, wc, id)
    {
      var j :| 0 <= j < |l| && l[j] == id;
      if j < |kept| {
        assert kept[j] == id;
      }
    }
  }

  /** `TileManager::update(s)`: the list ends up holding exactly the tiles of
      the window around `s`, one per cell (with `ManagerInv`'s distinct
      positions); tiles that left the window are released, tiles that stayed
      are untouched, and the cells that had no tile get fresh tiles under
      construction whose build tasks wait for their coarse upload. Tiles
      released earlier are left alone. */
  method Update(w: World, m: Manager, s: Rect) returns (w': World, m': Manager)
    requires WorldInv(w) && ManagerInv(w, m)
    ensures WorldInv(w') && ManagerInv(w', m')
    ensures m'.tileSize == m.tileSize && m'.screenOffset == TopLeft(s)
    ensures var win := WindowOf(s, m.tileSize);
      forall c :: Visible(win, c) ==> At(win, c) in Positions(w', m'.list)
    ensures var win := WindowOf(s, m.tileSize);
      forall id :: id in m'.list ==> Visible(win, Index(win, PosOf(w', id)))
    ensures var win := WindowOf(s, m.tileSize);
      forall id :: id in m.list && Visible(win, Index(win, PosOf(w, id))) ==>
        id in m'.list && w'.tiles[id] == w.tiles[id]
    ensures var win := WindowOf(s, m.tileSize);
      forall id :: id in m.list && !Visible(win, Index(win, PosOf(w, id))) ==>
        id !in m'.list && (id in w'.tiles ==> w'.tiles[id].released)
    ensures forall id :: id in m'.list && id !in m.list ==>
      id >= w.nextTile && id in w'.tasks && w'.tasks[id] == Coarse
      && w'.tiles[id].wip && w'.tiles[id].currentLod == -1
    ensures forall id :: id in w.tiles && id !in m.list ==> id in w'.tiles && w'.tiles[id] == w.tiles[id]
    ensures forall id :: id in w'.tiles ==> id in w.tiles || id in m'.list
    ensures w'.nextTile >= w.nextTile
  {
    var win := WindowOf(s, m.tileSize);
    var w1, kept, bits := ReleaseOutside(w, m.list, win);
    FillStart(w1, kept, bits, win);
    var l;
    w', l := FillWindow(w1, kept, bits, win);
    m' := Manager(m.tileSize, TopLeft(s), l);
    FilledVisible(w1, kept, bits, win, w', l);
  }

  /** `for (auto t : tiles) release_tile(t);` over a list of distinct tiles. */
  function ReleaseAll(w: World, l: seq<TileId>): (r: World)
    requires NoDuplicates(l) && forall id :: id in l ==> id in w.tiles && WellFormed(w.tiles[id])
    ensures forall id :: id in l && id in r.tiles ==> r.tiles[id].released
    ensures forall id :: id in l && id in r.tiles ==> r.tiles[id].pos == w.tiles[id].pos
    // a listed tile survives exactly when it is under construction, and then
    // only its `released` mark changes
    ensures forall id :: id in l ==> (id in r.tiles <==> w.tiles[id].wip)
    ensures forall id :: id in l && w.tiles[id].wip ==> r.tiles[id] == w.tiles[id].(released := true)
    ensures forall id :: id !in l ==> (id in r.tiles <==> id in w.tiles)
    ensures forall id :: id !in l && id in w.tiles ==> r.tiles[id] == w.tiles[id]
    ensures r.nextTile == w.nextTile
    decreases |l|
  {
    if |l| == 0 then w
    else
      ReleaseFrame(w, l[0]);
      ReleaseAll(ReleaseTile(w, l[0]), l[1..])
  }

  lemma {:induction false} ReleaseAllPreservesInv(w: World, l: seq<TileId>)
    requires WorldInv(w) && NoDuplicates(l) && forall id :: id in l ==> id in w.tiles
    ensures WorldInv(ReleaseAll(w, l))
    decreases |l|
  {
    if |l| > 0 {
      ReleasePreservesInv(w, l[0]);
      ReleaseFrame(w, l[0]);
      ReleaseAllPreservesInv(ReleaseTile(w, l[0]), l[1..]);
    }
  }

  /** `~TileManager`: every listed tile is released. */
  function Dispose(w: World, m: Manager): (r: World)
    requires ManagerInv(w, m) && forall id :: id in m.list ==> WellFormed(w.tiles[id])
  {
    ReleaseAll(w, m.list)
  }

  /** After the manager is gone, no tile is left that nobody released: each
      remaining tile is marked released and still under construction, owned by
      its build task, which destroys it should it reach another checkpoint. */
  lemma DisposeReleasesEverything(w: World, m: Manager)
    requires WorldInv(w) && ManagerInv(w, m)
    ensures var r := Dispose(w, m);
      && WorldInv(r)
      && (forall id :: id in r.tiles ==> r.tiles[id].released && r.tiles[id].wip && id in r.tasks)
  {
    ReleaseAllPreservesInv(w, m.list);
  }

  /** `TileManager::reset(s)`: the screen rectangle moves to the origin, every
      tile is released, the list is emptied and rebuilt by `update`, so every
      visible cell gets a fresh tile. The view offset and scale are floating
      point and not modelled. */
  method Reset(w: World, m: Manager, s: Rect) returns (w': World, m': Manager, s': Rect)
    requires WorldInv(w) && ManagerInv(w, m)
    ensures s' == RectWH(Vec2(0, 0), Size(s))
    ensures WorldInv(w') && ManagerInv(w', m')
    ensures m'.tileSize == m.tileSize && m'.screenOffset == Vec2(0, 0)
    ensures var win := WindowOf(s', m.tileSize);
      && (forall c :: Visible(win, c) ==> At(win, c) in Positions(w', m'.list))
      && (forall id :: id in m'.list ==> Visible(win, Index(win, PosOf(w', id))))
    ensures forall id :: id in m'.list ==>
      id >= w.nextTile && id in w'.tasks && w'.tasks[id] == Coarse && w'.tiles[id].wip
    ensures forall id :: id in w.tiles && id in w'.tiles ==> w'.tiles[id].released
    // a listed tile survives exactly when it is under construction, marked released
    ensures forall id :: id in m.list ==> (id in w'.tiles <==> w.tiles[id].wip)
    ensures forall id :: id in m.list && w.tiles[id].wip ==> w'.tiles[id] == w.tiles[id].(released := true)
  {
    s' := RectWH(Vec2(0, 0), Size(s));
    ReleaseAllPreservesInv(w, m.list);
    var w1 := ReleaseAll(w, m.list);
    var m1 := m.(list := []);
    w', m' := Update(w1, m1, s');
  }

  /** With the manager's invariant, a list covering the window holds exactly
      one tile per visible cell, at that cell's grid position. */
  lemma OneTilePerCell(w: World, m: Manager, win: Window, c: Vec2)
    requires ManagerInv(w, m) && win.ts == m.tileSize
    requires At(win, c) in Positions(w, m.list)
    ensures exists id :: id in m.list && PosOf(w, id) == At(win, c)
    ensures forall a, b :: a in m.list && b in m.list && Index(win, PosOf(w, a)) == c && Index(win, PosOf(w, b)) == c ==> a == b
  {
    PositionsMembers(w, m.list, At(win, c));
    forall a, b | a in m.list && b in m.list && Index(win, PosOf(w, a)) == c && Index(win, PosOf(w, b)) == c
      ensures a == b
    {
      IndexAt(win, PosOf(w, a));
      IndexAt(win, PosOf(w, b));
    }
  }
  /** The checkpoints the main thread runs between two `update` calls keep the
      manager's invariant: the listed tiles were not released, so each survives
      its checkpoint in place, and no tile loses or gains its release mark. */
  lemma CheckpointKeepsManager(w: World, m: Manager, id: TileId)
    requires WorldInv(w) && ManagerInv(w, m) && id in w.tasks
    ensures ManagerInv(Checkpoint(w, id), m)
  {
    CheckpointFrame(w, id);
  }
}
