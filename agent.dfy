/**
 * The per-session world model and command policy of the game client
 * (client.py, class `Game`): the board of tiles, the owned-unit roster with
 * its iteration order, the enemy roster and the cached base, updated in place
 * by each tick's reports, and the commands computed from them.
 */
module Agent {
  import opened Wrappers
  import opened Entities
  import opened World
  import opened Policy

  /**
   * The tile in row i, column j carries the coordinates x = j, y = i, and all
   * rows have one length.
   */
  ghost predicate Labelled(tiles: seq<seq<Tile>>) {
    && (forall i, j :: 0 <= i < |tiles| && 0 <= j < |tiles[i]| ==> tiles[i][j].x == j && tiles[i][j].y == i)
    && (forall i :: 0 <= i < |tiles| ==> |tiles[i]| == |tiles[0]|)
  }

  /** What `get_nearset_resource` yields, and what one probe of the board finds. */
  datatype Probe =
    | Hit(x: int, y: int)   // a tile holding a resource; its own coordinates
    | Miss                  // nothing found (`None`)
    | IndexError            // an index the board's lists reject (the exception Python raises)

  /** The half-width of the largest square the resource search examines. */
  const Reach := 30

  class Game {
    /** Owned units by id (`self.units`). */
    var units: map<UnitId, Unit>
    /** The order in which the ids were first inserted into `units` (the dictionary's iteration order). */
    var order: seq<UnitId>
    /** The board, a list of rows (`self.tiles`). */
    var tiles: seq<seq<Tile>>
    /** The last seen record of every unit reported on a tile (`self.enemies`). */
    var enemies: map<UnitId, Unit>
    /** The first base reported (`self.base`). */
    var base: Option<Unit>

    /**
     * The board's tiles are labelled with their own row and column (so no
     * tile appears twice) and the roster is keyed by id in a consistent order.
     */
    ghost predicate Valid()
      reads this
    {
      Labelled(tiles) && Keyed(units, order)
    }

    /** The tiles of the board. */
    ghost function Cells(): set<Tile>
      reads this
    {
      set i, j | 0 <= i < |tiles| && 0 <= j < |tiles[i]| :: tiles[i][j]
    }

    /** The number of rows of the board. */
    function Rows(): nat
      reads this
    {
      |tiles|
    }

    /** The length of every row of the board. */
    function Cols(): nat
      reads this
    {
      if tiles == [] then 0 else |tiles[0]|
    }

    /** The owned units in the roster's iteration order (`self.units.values()`). */
    function Roster(): seq<Unit>
      reads this
      requires Valid()
    {
      RosterOf(units, order)
    }

    /** `Game.__init__`: no units, no board, no enemies, no base. */
    constructor ()
      ensures Valid()
      ensures units == map[] && order == [] && tiles == [] && enemies == map[] && base == None
    {
      units := map[];
      order := [];
      tiles := [];
      enemies := map[];
      base := None;
    }

    /**
     * `init_board`: a fresh board of 2*mapHeight+1 rows of 2*mapWidth+1
     * unreported tiles; the tile in row i, column j has x = j and y = i.
     * Nothing but the board changes.
     */
    method InitBoard(mapWidth: int, mapHeight: int)
      requires Valid()
      modifies this`tiles
      ensures Valid()
      ensures |tiles| == Span(mapHeight)
      ensures forall i :: 0 <= i < |tiles| ==> |tiles[i]| == Span(mapWidth)
      ensures forall i, j :: 0 <= i < |tiles| && 0 <= j < |tiles[i]| ==> fresh(tiles[i][j]) && tiles[i][j].View() == Blank
      ensures units == old(units) && order == old(order) && enemies == old(enemies) && base == old(base)
    {
      var height, width := Span(mapHeight), Span(mapWidth);
      var rows: seq<seq<Tile>> := [];
      var i := 0;
      while i < height
        invariant 0 <= i <= height && |rows| == i
        invariant forall r :: 0 <= r < i ==> |rows[r]| == width
        invariant forall r, c :: 0 <= r < i && 0 <= c < |rows[r]| ==>
                    rows[r][c].x == c && rows[r][c].y == r && fresh(rows[r][c]) && rows[r][c].View() == Blank
      {
        var row: seq<Tile> := [];
        var j := 0;
        while j < width
          invariant 0 <= j <= width && |row| == j
          invariant forall c :: 0 <= c < j ==> row[c].x == c && row[c].y == i && fresh(row[c]) && row[c].View() == Blank
          invariant forall r, c :: 0 <= r < i && 0 <= c < |rows[r]| ==> rows[r][c].View() == Blank
        {
          var t := new Tile(j, i);
          row := row + [t];
          j := j + 1;
        }
        rows := rows + [row];
        i := i + 1;
      }
      tiles := rows;
    }

    /**
     * The tile reports of a tick (`get_moves`, lines 106-110): each report
     * overwrites the tile `tiles[x][y]`, so every cell ends in the state
     * `CellAfter` gives it and no other tile changes; every occupant listed on
     * a report is recorded in `enemies` under its id, without an owner filter.
     */
    method ApplyTileUpdates(ds: seq<TileDelta>)
      requires Valid()
      requires forall k :: 0 <= k < |ds| ==> Addressable(ds[k], Rows(), Cols())
      modifies Cells(), this`enemies
      ensures Valid()
      ensures enemies == Record(old(enemies), Listed(ds))
      ensures forall i, j :: 0 <= i < |tiles| && 0 <= j < |tiles[i]| ==>
                tiles[i][j].View() == CellAfter(old(tiles[i][j].View()), ds, Rows(), Cols(), i, j)
    {
      var k := 0;
      while k < |ds|
        invariant 0 <= k <= |ds|
        invariant enemies == Record(old(enemies), Listed(ds[..k]))
        invariant forall i, j :: 0 <= i < |tiles| && 0 <= j < |tiles[i]| ==>
                    tiles[i][j].View() == CellAfter(old(tiles[i][j].View()), ds[..k], Rows(), Cols(), i, j)
      {
        var d := ds[k];
        var a := PyIndex(d.x, |tiles|);
        var b := PyIndex(d.y, |tiles[a]|);
        var t := tiles[a][b];
        label Before:
        t.Update(d);
        assert ds[..k + 1][..k] == ds[..k];
        forall i, j | 0 <= i < |tiles| && 0 <= j < |tiles[i]|
          ensures tiles[i][j].View() == CellAfter(old(tiles[i][j].View()), ds[..k + 1], Rows(), Cols(), i, j)
        {
          if i != a || j != b {
            assert tiles[i][j] != t;
            assert tiles[i][j].View() == old@Before(tiles[i][j].View());
          }
        }
        RecordOccupants(d.units);
        RecordAppend(old(enemies), Listed(ds[..k]), d.units);
        k := k + 1;
      }
      assert ds[..|ds|] == ds;
    }

    /** Records every listed occupant in `enemies` under its id; a later listing of an id wins. */
    method RecordOccupants(cs: seq<UnitConfig>)
      modifies this`enemies
      ensures enemies == Record(old(enemies), cs)
    {
      var n := 0;
      while n < |cs|
        invariant 0 <= n <= |cs|
        invariant enemies == Record(old(enemies), cs[..n])
      {
        enemies := enemies[cs[n].id := NewUnit(cs[n])];
        assert cs[..n + 1][..n] == cs[..n];
        n := n + 1;
      }
      assert cs[..|cs|] == cs;
    }

    /**
     * The unit reports of a tick (`get_moves`, lines 112-118): the base is
     * captured from the first `base` report while none is known, and each
     * report updates the roster entry of its id or inserts a new one at the
     * end of the iteration order.
     */
    method ApplyUnitUpdates(ds: seq<UnitConfig>)
      requires Valid()
      modifies this`units, this`order, this`base
      ensures Valid()
      ensures units == Upsert(old(units), ds)
      ensures order == OrderAfter(old(order), ds)
      ensures base == BaseAfter(old(base), ds)
    {
      var k := 0;
      while k < |ds|
        invariant 0 <= k <= |ds|
        invariant units == Upsert(old(units), ds[..k])
        invariant order == OrderAfter(old(order), ds[..k])
        invariant base == BaseAfter(old(base), ds[..k])
      {
        UpsertKeyed(old(units), old(order), ds[..k]);
        var d := ds[k];
        if base.None? && d.kind == "base" {
          base := Some(NewUnit(d));
        }
        if d.id in units {
          units := units[d.id := UpdateUnit(units[d.id], d)];
        } else {
          units := units[d.id := NewUnit(d)];
          order := order + [d.id];
        }
        assert ds[..k + 1][..k] == ds[..k];
        k := k + 1;
      }
      assert ds[..|ds|] == ds;
      UpsertKeyed(old(units), old(order), ds);
    }

    /**
     * The command phase (`get_moves`, lines 120-143) over the roster's
     * records in iteration order.
     */
    method ComputeCommands(paths: map<UnitId, seq<Pos>>) returns (cmds: seq<Command>)
      requires Valid()
      requires PathsFor(units, paths)
      ensures PathsCover(Roster(), paths) && cmds == Commands(Roster(), paths)
    {
      var us := Roster();
      assert PathsCover(us, paths) by {
        assert forall k :: 0 <= k < |us| ==> us[k] == units[order[k]] && order[k] in units;
      }
      cmds := IssueCommands(us, paths);
    }

    /**
     * One tick (`get_moves`): re-allocate the board when map dimensions are
     * announced, apply the tile reports, then the unit reports, then compute
     * the commands.  `paths` stands for the planned path of each idle worker.
     */
    method GetMoves(info: Option<GameInfo>, tileUpdates: seq<TileDelta>, unitUpdates: seq<UnitConfig>,
                    paths: map<UnitId, seq<Pos>>) returns (cmds: seq<Command>)
      requires Valid()
      requires forall k :: 0 <= k < |tileUpdates| ==> Addressable(tileUpdates[k], RowsAfter(info), ColsAfter(info))
      requires PathsFor(Upsert(units, unitUpdates), paths)
      modifies this, Cells()
      ensures Valid()
      ensures info.Some? ==> |tiles| == Span(info.value.mapHeight)
      ensures info.Some? ==> forall i :: 0 <= i < |tiles| ==> |tiles[i]| == Span(info.value.mapWidth)
      ensures info.Some? ==> forall i, j :: 0 <= i < |tiles| && 0 <= j < |tiles[i]| ==>
                tiles[i][j].View() == CellAfter(Blank, tileUpdates, Rows(), Cols(), i, j)
      ensures info.None? ==> tiles == old(tiles)
      ensures info.None? ==> forall i, j :: 0 <= i < |tiles| && 0 <= j < |tiles[i]| ==>
                tiles[i][j].View() == CellAfter(old(tiles[i][j].View()), tileUpdates, Rows(), Cols(), i, j)
      ensures enemies == Record(old(enemies), Listed(tileUpdates))
      ensures units == Upsert(old(units), unitUpdates)
      ensures order == OrderAfter(old(order), unitUpdates)
      ensures base == BaseAfter(old(base), unitUpdates)
      ensures PathsCover(Roster(), paths) && cmds == Commands(Roster(), paths)
    {
      if info.Some? {
        InitBoard(info.value.mapWidth, info.value.mapHeight);
      }
      ApplyTileUpdates(tileUpdates);
      ApplyUnitUpdates(unitUpdates);
      cmds := ComputeCommands(paths);
    }

    /** The number of rows the board has once `info` is taken into account. */
    function RowsAfter(info: Option<GameInfo>): nat
      reads this
    {
      if info.Some? then Span(info.value.mapHeight) else Rows()
    }

    /** The row length the board has once `info` is taken into account. */
    function ColsAfter(info: Option<GameInfo>): nat
      reads this
    {
      if info.None? then Cols()
      else if Span(info.value.mapHeight) == 0 then 0
      else Span(info.value.mapWidth)
    }

    // ------------------------------------------------ nearest resource

    /** Some tile of the board labelled `(x, y)` holds a resource. */
    ghost predicate ResourceTile(x: int, y: int)
      reads this, Cells()
    {
      exists i, j :: 0 <= i < |tiles| && 0 <= j < |tiles[i]| &&
        tiles[i][j].x == x && tiles[i][j].y == y && tiles[i][j].resources.Some?
    }

    /**
     * Evaluate `self.tiles[ux + xoff][uy + yoff]` and look for a resource
     * there: an index out of Python's range is an error; otherwise the probe
     * misses exactly when the probed tile holds no resource, and a hit names
     * that tile by its own labels.
     */
    function ProbeAt(ux: int, uy: int, xoff: int, yoff: int): (p: Probe)
      reads this, Cells()
      ensures p.IndexError? <==> !InPyRange(ux + xoff, |tiles|) || !InPyRange(uy + yoff, |tiles[PyIndex(ux + xoff, |tiles|)]|)
      ensures p.Hit? ==> ResourceTile(p.x, p.y)
      ensures !p.IndexError? ==>
                var i := PyIndex(ux + xoff, |tiles|);
                var j := PyIndex(uy + yoff, |tiles[i]|);
                && (p.Miss? <==> tiles[i][j].resources.None?)
                && (p.Hit? ==> p == Hit(tiles[i][j].x, tiles[i][j].y))
    {
      var a := ux + xoff;
      if !InPyRange(a, |tiles|) then IndexError
      else
        var i := PyIndex(a, |tiles|);
        var row := tiles[i];
        var b := uy + yoff;
        if !InPyRange(b, |row|) then IndexError
        else
          var j := PyIndex(b, |row|);
          var t := row[j];
          if t.resources.Some? then
            assert tiles[i][j] == t;
            Hit(t.x, t.y)
          else Miss
    }

    /** The inner loop: probe row `yoff` of square `k` from column offset `xoff` to `k`. */
    function ScanRow(ux: int, uy: int, k: int, yoff: int, xoff: int): (p: Probe)
      requires 0 <= k && -k <= xoff <= k + 1
      reads this, Cells()
      ensures p.Hit? ==> ResourceTile(p.x, p.y)
      decreases k + 1 - xoff
    {
      if xoff > k then Miss
      else
        var p := ProbeAt(ux, uy, xoff, yoff);
        if p.Miss? then ScanRow(ux, uy, k, yoff, xoff + 1) else p
    }

    /** The middle loop: scan the rows `yoff` to `k` of square `k`. */
    function ScanSquare(ux: int, uy: int, k: int, yoff: int): (p: Probe)
      requires 0 <= k && -k <= yoff <= k + 1
      reads this, Cells()
      ensures p.Hit? ==> ResourceTile(p.x, p.y)
      decreases k + 1 - yoff
    {
      if yoff > k then Miss
      else
        var p := ScanRow(ux, uy, k, yoff, -k);
        if p.Miss? then ScanSquare(ux, uy, k, yoff + 1) else p
    }

    /** The outer loop: scan the squares `k` to `Reach` in turn. */
    function ScanFrom(ux: int, uy: int, k: int): (p: Probe)
      requires 1 <= k <= Reach + 1
      reads this, Cells()
      ensures p.Hit? ==> ResourceTile(p.x, p.y)
      decreases Reach + 1 - k
    {
      if k > Reach then Miss
      else
        var p := ScanSquare(ux, uy, k, -k);
        if p.Miss? then ScanFrom(ux, uy, k + 1) else p
    }

    /** `get_nearset_resource`: the first resource tile of the growing squares around the unit. */
    function NearestResource(u: Unit): (p: Probe)
      reads this, Cells()
      ensures p.Hit? ==> ResourceTile(p.x, p.y)
    {
      ScanFrom(u.x, u.y, 1)
    }

    /** Every position of the square of half-width `n` around `(ux, uy)` is in range and holds no resource. */
    ghost predicate SquareClear(ux: int, uy: int, n: int)
      reads this, Cells()
    {
      forall yoff, xoff :: -n <= yoff <= n && -n <= xoff <= n ==> ProbeAt(ux, uy, xoff, yoff) == Miss
    }

    /** A row scan stops at its first position that is not a miss, or misses everywhere. */
    lemma {:induction false} ScanRowFirst(ux: int, uy: int, k: int, yoff: int, xoff: int) returns (x: int)
      requires 0 <= k && -k <= xoff <= k + 1
      ensures ScanRow(ux, uy, k, yoff, xoff).Miss? ==>
                forall x' :: xoff <= x' <= k ==> ProbeAt(ux, uy, x', yoff) == Miss
      ensures !ScanRow(ux, uy, k, yoff, xoff).Miss? ==>
                && xoff <= x <= k
                && ScanRow(ux, uy, k, yoff, xoff) == ProbeAt(ux, uy, x, yoff)
                && forall x' :: xoff <= x' < x ==> ProbeAt(ux, uy, x', yoff) == Miss
      decreases k + 1 - xoff
    {
      x := xoff;
      if xoff <= k && ProbeAt(ux, uy, xoff, yoff).Miss? {
        x := ScanRowFirst(ux, uy, k, yoff, xoff + 1);
      }
    }

    /** A square scan stops at its first position, in (yoff, xoff) order, that is not a miss. */
    lemma {:induction false} ScanSquareFirst(ux: int, uy: int, k: int, yoff: int) returns (y: int, x: int)
      requires 0 <= k && -k <= yoff <= k + 1
      ensures ScanSquare(ux, uy, k, yoff).Miss? ==>
                forall y', x' :: yoff <= y' <= k && -k <= x' <= k ==> ProbeAt(ux, uy, x', y') == Miss
      ensures !ScanSquare(ux, uy, k, yoff).Miss? ==>
                && yoff <= y <= k && -k <= x <= k
                && ScanSquare(ux, uy, k, yoff) == ProbeAt(ux, uy, x, y)
                && forall y', x' :: yoff <= y' <= k && -k <= x' <= k && (y' < y || (y' == y && x' < x))
                                ==> ProbeAt(ux, uy, x', y') == Miss
      decreases k + 1 - yoff
    {
      y, x := yoff, 0;
      if yoff <= k {
        x := ScanRowFirst(ux, uy, k, yoff, -k);
        if ScanRow(ux, uy, k, yoff, -k).Miss? {
          y, x := ScanSquareFirst(ux, uy, k, yoff + 1);
        }
      }
    }

    /** The scan from square `k` on stops at the first position of the first square that is not clear. */
    lemma {:induction false} ScanFromFirst(ux: int, uy: int, k: int) returns (n: int, y: int, x: int)
      requires 1 <= k <= Reach + 1
      requires k > 1 ==> SquareClear(ux, uy, k - 1)
      ensures ScanFrom(ux, uy, k).Miss? ==> SquareClear(ux, uy, Reach)
      ensures !ScanFrom(ux, uy, k).Miss? ==>
                && k <= n <= Reach && -n <= y <= n && -n <= x <= n
                && ScanFrom(ux, uy, k) == ProbeAt(ux, uy, x, y)
                && (n > 1 ==> SquareClear(ux, uy, n - 1))
                && forall y', x' :: -n <= y' <= n && -n <= x' <= n && (y' < y || (y' == y && x' < x))
                                ==> ProbeAt(ux, uy, x', y') == Miss
      decreases Reach + 1 - k
    {
      n, y, x := k, 0, 0;
      if k <= Reach {
        y, x := ScanSquareFirst(ux, uy, k, -k);
        if ScanSquare(ux, uy, k, -k).Miss? {
          n, y, x := ScanFromFirst(ux, uy, k + 1);
        }
      }
    }

    /**
     * `get_nearset_resource` finds nothing exactly when every position of the
     * 61 x 61 window around the unit is in range and holds no resource.
     * Otherwise its result is the first position, in (yoff, xoff) order, of
     * the smallest square k (1 <= k <= 30) around the unit that is not clear:
     * all of square k - 1 is clear.  When that position holds a resource, the
     * coordinates returned are its tile's own, x the column and y the row:
     * the position reached as `tiles[ux + xoff][uy + yoff]` comes back as
     * (uy + yoff, ux + xoff), transposed (negative indices wrapped).
     */
    lemma NearestResourceFirstHit(u: Unit) returns (n: int, yoff: int, xoff: int)
      requires Valid()
      ensures NearestResource(u).Miss? <==> SquareClear(u.x, u.y, Reach)
      ensures !NearestResource(u).Miss? ==>
                && 1 <= n <= Reach && -n <= yoff <= n && -n <= xoff <= n
                && NearestResource(u) == ProbeAt(u.x, u.y, xoff, yoff)
                && (n > 1 ==> SquareClear(u.x, u.y, n - 1))
                && forall y', x' :: -n <= y' <= n && -n <= x' <= n && (y' < yoff || (y' == yoff && x' < xoff))
                                ==> ProbeAt(u.x, u.y, x', y') == Miss
      ensures NearestResource(u).Hit? ==>
                && InPyRange(u.x + xoff, Rows()) && InPyRange(u.y + yoff, Cols())
                && NearestResource(u).y == PyIndex(u.x + xoff, Rows())
                && NearestResource(u).x == PyIndex(u.y + yoff, Cols())
                && tiles[NearestResource(u).y][NearestResource(u).x].resources.Some?
    {
      n, yoff, xoff := ScanFromFirst(u.x, u.y, 1);
      if !NearestResource(u).Miss? {
        assert -Reach <= yoff <= Reach && -Reach <= xoff <= Reach && !ProbeAt(u.x, u.y, xoff, yoff).Miss?;
      }
    }
  }
}
