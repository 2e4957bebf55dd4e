/**
 * The entity records of the game client: resources, units and tiles
 * (client.py, classes `Resource`, `Unit` and `Tile`).
 *
 * A `Resource` and a `Unit` are modelled as values.  A `Tile` is modelled as
 * an object: the client allocates every tile once, when the board is built,
 * and afterwards updates its fields in place.
 */
module Entities {
  import opened Wrappers

  type UnitId = int

  /** A resource deposit reported on a tile; it is replaced wholesale, never merged. */
  datatype Resource = Resource(id: int, kind: string, total: int, value: int)

  /**
   * The fields of one unit as the server reports them.  `resource` and
   * `canAttack` may be absent from the report.
   */
  datatype UnitConfig = UnitConfig(
    id: UnitId, playerId: int, x: int, y: int, kind: string, status: string,
    health: int, resource: Option<int>, canAttack: Option<bool>)

  /** A unit record: an owned unit in the roster, an enemy, or a tile occupant. */
  datatype Unit = Unit(
    id: UnitId, playerId: int, x: int, y: int, kind: string, status: string,
    hp: int, resource: Option<int>, attack: Option<bool>)

  /** The mutable attributes of `u` hold what `c` reports. */
  predicate Carries(u: Unit, c: UnitConfig) {
    && u.x == c.x && u.y == c.y && u.kind == c.kind && u.status == c.status
    && u.hp == c.health && u.resource == c.resource && u.attack == c.canAttack
  }

  /** `Unit.__init__`: a fresh record carrying the report's identity and attributes. */
  function NewUnit(c: UnitConfig): (u: Unit)
    ensures u.id == c.id && u.playerId == c.playerId
    ensures Carries(u, c)
  {
    Unit(c.id, c.playerId, c.x, c.y, c.kind, c.status, c.health, c.resource, c.canAttack)
  }

  /** `Unit.update`: keep `id` and `player_id`, take every other attribute from the report. */
  function UpdateUnit(u: Unit, c: UnitConfig): (r: Unit)
    ensures r.id == u.id && r.playerId == u.playerId
    ensures Carries(r, c)
  {
    u.(x := c.x, y := c.y, kind := c.kind, status := c.status, hp := c.health,
       resource := c.resource, attack := c.canAttack)
  }

  /**
   * An updated record agrees with a freshly built one exactly when the report
   * carries the same identity, and taking the same report twice changes
   * nothing more.
   */
  lemma UpdateMatchesNew(u: Unit, c: UnitConfig)
    ensures UpdateUnit(u, c) == NewUnit(c) <==> u.id == c.id && u.playerId == c.playerId
    ensures UpdateUnit(UpdateUnit(u, c), c) == UpdateUnit(u, c)
  {
  }

  /** The report of one tile, addressed by `x` and `y`; absent occupants are `[]`. */
  datatype TileDelta = TileDelta(
    x: int, y: int, visible: bool, blocked: Option<bool>,
    resources: Option<Resource>, units: seq<UnitConfig>)

  /** The mutable state of a tile. */
  datatype TileView = TileView(
    visible: bool, blocked: bool, resources: Option<Resource>, units: seq<Unit>)

  /** The state of a tile that has not been reported yet. */
  const Blank := TileView(false, false, None, [])

  /** The occupant records a tile builds from the reported occupants, in order. */
  function Occupants(cs: seq<UnitConfig>): seq<Unit>
    decreases |cs|
  {
    if cs == [] then [] else Occupants(cs[..|cs| - 1]) + [NewUnit(cs[|cs| - 1])]
  }

  /** The occupant list has one record per reported occupant, at the same position. */
  lemma {:induction false} OccupantsAt(cs: seq<UnitConfig>)
    ensures |Occupants(cs)| == |cs|
    ensures forall k :: 0 <= k < |cs| ==> Occupants(cs)[k] == NewUnit(cs[k])
    decreases |cs|
  {
    if cs != [] {
      OccupantsAt(cs[..|cs| - 1]);
    }
  }

  /**
   * The state a tile has after it takes the report `d`: it overwrites the
   * whole state of the tile, with visibility as reported, blocked only when
   * reported blocked, the resource as reported, and one fresh occupant record
   * per reported occupant.
   */
  function ViewOf(d: TileDelta): (v: TileView)
    ensures v.visible == d.visible
    ensures v.blocked <==> d.blocked == Some(true)
    ensures v.resources == d.resources
    ensures |v.units| == |d.units|
    ensures forall k :: 0 <= k < |d.units| ==> v.units[k] == NewUnit(d.units[k])
  {
    OccupantsAt(d.units);
    TileView(d.visible, d.blocked.GetOr(false), d.resources, Occupants(d.units))
  }

  /** One cell of the board.  Its coordinates are fixed when it is built. */
  class Tile {
    const x: int
    const y: int
    var visible: bool
    var blocked: bool
    var resources: Option<Resource>
    var units: seq<Unit>

    /** The mutable state of this tile as a value. */
    function View(): TileView
      reads this
    {
      TileView(visible, blocked, resources, units)
    }

    /** `Tile.__init__` as the board builder calls it: coordinates only. */
    constructor (x: int, y: int)
      ensures this.x == x && this.y == y
      ensures View() == Blank
    {
      this.x := x;
      this.y := y;
      visible := false;
      blocked := false;
      resources := None;
      units := [];
    }

    /**
     * `Tile.update`: the new state depends on the report alone, so taking
     * the same report twice leaves the tile as taking it once does.  The
     * coordinates are constants and cannot change.
     */
    method Update(d: TileDelta)
      modifies this
      ensures View() == ViewOf(d)
    {
      visible := d.visible;
      blocked := d.blocked.GetOr(false);
      resources := d.resources;
      var occupants: seq<Unit> := [];
      var k := 0;
      while k < |d.units|
        invariant 0 <= k <= |d.units|
        invariant occupants == Occupants(d.units[..k])
      {
        occupants := occupants + [NewUnit(d.units[k])];
        assert d.units[..k + 1][..k] == d.units[..k];
        k := k + 1;
      }
      assert d.units[..|d.units|] == d.units;
      units := occupants;
    }
  }
}
