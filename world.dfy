/**
 * The update phase of a tick, as pure functions over values: how the board's
 * cells, the enemy roster, the owned-unit roster, its iteration order and the
 * cached base evolve under one batch of reports (client.py, `Game.get_moves`,
 * lines 101-118).  The class `Agent.Game` is proved to perform exactly these.
 */
module World {
  import opened Wrappers
  import opened Entities

  /** Map dimensions announced on the first tick. */
  datatype GameInfo = GameInfo(mapWidth: int, mapHeight: int)

  /** `len(range(2 * n + 1))`: the extent of one board axis for a map dimension `n`. */
  function Span(n: int): nat {
    if n < 0 then 0 else 2 * n + 1
  }

  /** A Python list of length `n` accepts the index `i` (negative indices count from the end). */
  predicate InPyRange(i: int, n: nat) {
    -(n as int) <= i < n
  }

  /** The element that Python's `list[i]` selects. */
  function PyIndex(i: int, n: nat): (r: nat)
    requires InPyRange(i, n)
    ensures r < n
    ensures i >= 0 ==> r == i
    ensures i < 0 ==> r == n + i
  {
    if i < 0 then i + n else i
  }

  // ---------------------------------------------------------------- cells

  /** `tiles[d.x][d.y]` can be evaluated on a board of `rows` rows of `cols` tiles. */
  predicate Addressable(d: TileDelta, rows: nat, cols: nat) {
    InPyRange(d.x, rows) && InPyRange(d.y, cols)
  }

  /** `tiles[d.x][d.y]` selects the tile in row `i`, column `j`. */
  predicate Addresses(d: TileDelta, rows: nat, cols: nat, i: int, j: int) {
    Addressable(d, rows, cols) && PyIndex(d.x, rows) == i && PyIndex(d.y, cols) == j
  }

  /** The state of the cell in row `i`, column `j` after the reports `ds`, starting from `v`. */
  function CellAfter(v: TileView, ds: seq<TileDelta>, rows: nat, cols: nat, i: int, j: int): TileView
    decreases |ds|
  {
    if ds == [] then v
    else if Addresses(ds[|ds| - 1], rows, cols, i, j) then ViewOf(ds[|ds| - 1])
    else CellAfter(v, ds[..|ds| - 1], rows, cols, i, j)
  }

  /** A cell that no report addresses keeps its state. */
  lemma {:induction false} CellUntouched(v: TileView, ds: seq<TileDelta>, rows: nat, cols: nat, i: int, j: int)
    requires forall k :: 0 <= k < |ds| ==> !Addresses(ds[k], rows, cols, i, j)
    ensures CellAfter(v, ds, rows, cols, i, j) == v
    decreases |ds|
  {
    if ds != [] {
      CellUntouched(v, ds[..|ds| - 1], rows, cols, i, j);
    }
  }

  /** A cell that some report addresses holds the state the last such report gives it. */
  lemma {:induction false} CellLastWriter(v: TileView, ds: seq<TileDelta>, rows: nat, cols: nat, i: int, j: int, k: int)
    requires 0 <= k < |ds| && Addresses(ds[k], rows, cols, i, j)
    requires forall m :: k < m < |ds| ==> !Addresses(ds[m], rows, cols, i, j)
    ensures CellAfter(v, ds, rows, cols, i, j) == ViewOf(ds[k])
    decreases |ds|
  {
    if k < |ds| - 1 {
      CellLastWriter(v, ds[..|ds| - 1], rows, cols, i, j, k);
    }
  }

  /** Applying the same batch of tile reports twice leaves every cell as applying it once does. */
  lemma CellAfterIdempotent(v: TileView, ds: seq<TileDelta>, rows: nat, cols: nat, i: int, j: int)
    ensures CellAfter(CellAfter(v, ds, rows, cols, i, j), ds, rows, cols, i, j)
         == CellAfter(v, ds, rows, cols, i, j)
  {
    var k := |ds| - 1;
    while k >= 0 && !Addresses(ds[k], rows, cols, i, j)
      invariant -1 <= k < |ds|
      invariant forall m :: k < m < |ds| ==> !Addresses(ds[m], rows, cols, i, j)
    {
      k := k - 1;
    }
    if k < 0 {
      CellUntouched(v, ds, rows, cols, i, j);
      CellUntouched(CellAfter(v, ds, rows, cols, i, j), ds, rows, cols, i, j);
    } else {
      CellLastWriter(v, ds, rows, cols, i, j, k);
      CellLastWriter(CellAfter(v, ds, rows, cols, i, j), ds, rows, cols, i, j, k);
    }
  }

  // -------------------------------------------------------------- enemies

  /** Every occupant listed on the reports `ds`, report by report, in order. */
  function Listed(ds: seq<TileDelta>): seq<UnitConfig>
    decreases |ds|
  {
    if ds == [] then [] else Listed(ds[..|ds| - 1]) + ds[|ds| - 1].units
  }

  /** The enemy roster after recording each of `cs` in turn under its id. */
  function Record(m: map<UnitId, Unit>, cs: seq<UnitConfig>): map<UnitId, Unit>
    decreases |cs|
  {
    if cs == [] then m
    else Record(m, cs[..|cs| - 1])[cs[|cs| - 1].id := NewUnit(cs[|cs| - 1])]
  }

  /** Recording two lists one after the other is recording their concatenation. */
  lemma {:induction false} RecordAppend(m: map<UnitId, Unit>, a: seq<UnitConfig>, b: seq<UnitConfig>)
    ensures Record(m, a + b) == Record(Record(m, a), b)
    decreases |b|
  {
    if b == [] {
      assert a + b == a;
    } else {
      assert (a + b)[..|a + b| - 1] == a + b[..|b| - 1];
      RecordAppend(m, a, b[..|b| - 1]);
    }
  }

  /**
   * The enemy roster only grows: its keys afterwards are the old keys and the
   * ids of the recorded occupants, and an entry whose id is not recorded keeps
   * its value.
   */
  lemma {:induction false} RecordKeys(m: map<UnitId, Unit>, cs: seq<UnitConfig>)
    ensures Record(m, cs).Keys == m.Keys + set c <- cs :: c.id
    ensures forall id :: id in m && (forall k :: 0 <= k < |cs| ==> cs[k].id != id) ==> Record(m, cs)[id] == m[id]
    decreases |cs|
  {
    if cs != [] {
      var init := cs[..|cs| - 1];
      RecordKeys(m, init);
      assert (set c <- cs :: c.id) == (set c <- init :: c.id) + {cs[|cs| - 1].id} by {
        assert cs == init + [cs[|cs| - 1]];
      }
      forall id | id in m && (forall k :: 0 <= k < |cs| ==> cs[k].id != id)
        ensures Record(m, cs)[id] == m[id]
      {
        assert forall k :: 0 <= k < |init| ==> init[k] == cs[k];
      }
    }
  }

  /** An occupant holds the data of the last report that lists it. */
  lemma {:induction false} RecordLastWins(m: map<UnitId, Unit>, cs: seq<UnitConfig>, k: int)
    requires 0 <= k < |cs|
    requires forall n :: k < n < |cs| ==> cs[n].id != cs[k].id
    ensures cs[k].id in Record(m, cs) && Record(m, cs)[cs[k].id] == NewUnit(cs[k])
    decreases |cs|
  {
    if k < |cs| - 1 {
      RecordLastWins(m, cs[..|cs| - 1], k);
    }
  }

  // --------------------------------------------------------- owned units

  /** The owned-unit roster after upserting each report of `ds` in turn. */
  function Upsert(m: map<UnitId, Unit>, ds: seq<UnitConfig>): map<UnitId, Unit>
    decreases |ds|
  {
    if ds == [] then m
    else
      var prev := Upsert(m, ds[..|ds| - 1]);
      var d := ds[|ds| - 1];
      prev[d.id := if d.id in prev then UpdateUnit(prev[d.id], d) else NewUnit(d)]
  }

  /**
   * No key is removed: the keys afterwards are the old keys and the reported
   * ids, and an entry no report names keeps its value.
   */
  lemma {:induction false} UpsertKeys(m: map<UnitId, Unit>, ds: seq<UnitConfig>)
    ensures Upsert(m, ds).Keys == m.Keys + set d <- ds :: d.id
    ensures forall id :: id in m && (forall k :: 0 <= k < |ds| ==> ds[k].id != id) ==> Upsert(m, ds)[id] == m[id]
    decreases |ds|
  {
    if ds != [] {
      var init := ds[..|ds| - 1];
      UpsertKeys(m, init);
      assert (set d <- ds :: d.id) == (set d <- init :: d.id) + {ds[|ds| - 1].id} by {
        assert ds == init + [ds[|ds| - 1]];
      }
      forall id | id in m && (forall k :: 0 <= k < |ds| ==> ds[k].id != id)
        ensures Upsert(m, ds)[id] == m[id]
      {
        assert forall k :: 0 <= k < |init| ==> init[k] == ds[k];
      }
    }
  }

  /** An entry that was in the roster keeps its `id` and `player_id` whatever is reported. */
  lemma {:induction false} UpsertKeepsIdentity(m: map<UnitId, Unit>, ds: seq<UnitConfig>, id: UnitId)
    requires id in m
    ensures id in Upsert(m, ds)
    ensures Upsert(m, ds)[id].id == m[id].id && Upsert(m, ds)[id].playerId == m[id].playerId
    decreases |ds|
  {
    if ds != [] {
      UpsertKeepsIdentity(m, ds[..|ds| - 1], id);
    }
  }

  /** A unit first seen in this batch takes its identity from the first report of it. */
  lemma {:induction false} UpsertFirstIdentity(m: map<UnitId, Unit>, ds: seq<UnitConfig>, k: int)
    requires 0 <= k < |ds| && ds[k].id !in m
    requires forall n :: 0 <= n < k ==> ds[n].id != ds[k].id
    ensures ds[k].id in Upsert(m, ds)
    ensures Upsert(m, ds)[ds[k].id].id == ds[k].id
    ensures Upsert(m, ds)[ds[k].id].playerId == ds[k].playerId
    decreases |ds|
  {
    if k < |ds| - 1 {
      UpsertFirstIdentity(m, ds[..|ds| - 1], k);
    } else {
      UpsertKeys(m, ds[..k]);
      assert ds[k].id !in Upsert(m, ds[..k]);
    }
  }

  /** A reported unit carries the position, type, status, health and flags of its last report. */
  lemma {:induction false} UpsertLastWins(m: map<UnitId, Unit>, ds: seq<UnitConfig>, k: int)
    requires 0 <= k < |ds|
    requires forall n :: k < n < |ds| ==> ds[n].id != ds[k].id
    ensures ds[k].id in Upsert(m, ds) && Carries(Upsert(m, ds)[ds[k].id], ds[k])
    decreases |ds|
  {
    if k < |ds| - 1 {
      UpsertLastWins(m, ds[..|ds| - 1], k);
    }
  }

  /** The roster's iteration order: a new id is appended when it is first inserted. */
  function OrderAfter(o: seq<UnitId>, ds: seq<UnitConfig>): seq<UnitId>
    decreases |ds|
  {
    if ds == [] then o
    else
      var prev := OrderAfter(o, ds[..|ds| - 1]);
      if ds[|ds| - 1].id in prev then prev else prev + [ds[|ds| - 1].id]
  }

  /**
   * The iteration order keeps the old order as a prefix, lists each id at
   * most once, and lists exactly the old ids and the reported ones.
   */
  lemma {:induction false} OrderExtends(o: seq<UnitId>, ds: seq<UnitConfig>)
    requires forall a, b :: 0 <= a < b < |o| ==> o[a] != o[b]
    ensures o <= OrderAfter(o, ds)
    ensures forall a, b :: 0 <= a < b < |OrderAfter(o, ds)| ==> OrderAfter(o, ds)[a] != OrderAfter(o, ds)[b]
    ensures forall id :: id in OrderAfter(o, ds) <==> id in o || exists k :: 0 <= k < |ds| && ds[k].id == id
    decreases |ds|
  {
    if ds != [] {
      var init := ds[..|ds| - 1];
      OrderExtends(o, init);
      forall id
        ensures id in OrderAfter(o, ds) <==> id in o || exists k :: 0 <= k < |ds| && ds[k].id == id
      {
        if exists k :: 0 <= k < |init| && init[k].id == id {
          var k :| 0 <= k < |init| && init[k].id == id;
          assert ds[k].id == id;
        }
        if exists k :: 0 <= k < |ds| && ds[k].id == id {
          var k :| 0 <= k < |ds| && ds[k].id == id;
          if k < |init| {
            assert init[k].id == id;
          }
        }
      }
    }
  }

  /**
   * A roster keyed by id: each entry is stored under its own id, and the
   * iteration order lists every key exactly once.
   */
  ghost predicate Keyed(m: map<UnitId, Unit>, o: seq<UnitId>) {
    && (forall id :: id in m ==> m[id].id == id && id in o)
    && (forall k :: 0 <= k < |o| ==> o[k] in m)
    && (forall a, b :: 0 <= a < b < |o| ==> o[a] != o[b])
  }

  /** Upserting a batch keeps the roster keyed by id, with the order listing every key once. */
  lemma {:induction false} UpsertKeyed(m: map<UnitId, Unit>, o: seq<UnitId>, ds: seq<UnitConfig>)
    requires Keyed(m, o)
    ensures Keyed(Upsert(m, ds), OrderAfter(o, ds))
    decreases |ds|
  {
    if ds != [] {
      UpsertKeyed(m, o, ds[..|ds| - 1]);
    }
  }

  /** The cached base: set from the first `base` report while none is known, then never reassigned. */
  function BaseAfter(b: Option<Unit>, ds: seq<UnitConfig>): Option<Unit>
    decreases |ds|
  {
    if ds == [] then b
    else
      var prev := BaseAfter(b, ds[..|ds| - 1]);
      if prev.None? && ds[|ds| - 1].kind == "base" then Some(NewUnit(ds[|ds| - 1])) else prev
  }

  /** Once a base is known, no report reassigns it. */
  lemma {:induction false} BaseSticky(b: Option<Unit>, ds: seq<UnitConfig>)
    requires b.Some?
    ensures BaseAfter(b, ds) == b
    decreases |ds|
  {
    if ds != [] {
      BaseSticky(b, ds[..|ds| - 1]);
    }
  }

  /**
   * With no base known, the base afterwards is a record built from the first
   * `base` report of the batch, or still none when the batch reports none.
   */
  lemma {:induction false} BaseFromFirstReport(ds: seq<UnitConfig>)
    ensures (forall k :: 0 <= k < |ds| ==> ds[k].kind != "base") ==> BaseAfter(None, ds) == None
    ensures forall k :: 0 <= k < |ds| && ds[k].kind == "base" && (forall n :: 0 <= n < k ==> ds[n].kind != "base")
                    ==> BaseAfter(None, ds) == Some(NewUnit(ds[k]))
    decreases |ds|
  {
    if ds != [] {
      var init := ds[..|ds| - 1];
      BaseFromFirstReport(init);
      forall k | 0 <= k < |ds| && ds[k].kind == "base" && (forall n :: 0 <= n < k ==> ds[n].kind != "base")
        ensures BaseAfter(None, ds) == Some(NewUnit(ds[k]))
      {
        if k < |init| {
          assert init[k] == ds[k];
          assert BaseAfter(None, init) == Some(NewUnit(ds[k]));
          BaseSticky(Some(NewUnit(ds[k])), []);
        } else {
          assert forall n :: 0 <= n < |init| ==> init[n].kind != "base";
        }
      }
    }
  }

  /** The roster's records in its iteration order. */
  function RosterOf(m: map<UnitId, Unit>, o: seq<UnitId>): (r: seq<Unit>)
    requires forall k :: 0 <= k < |o| ==> o[k] in m
    ensures |r| == |o| && forall k :: 0 <= k < |o| ==> r[k] == m[o[k]]
  {
    seq(|o|, k requires 0 <= k < |o| => m[o[k]])
  }

  /**
   * Over a keyed roster, the values in iteration order hold every key's unit
   * exactly once: an id is a key exactly when some position holds its unit,
   * and no two positions hold the same id.
   */
  lemma RosterOfKeyed(m: map<UnitId, Unit>, o: seq<UnitId>)
    requires Keyed(m, o)
    ensures forall id :: id in m <==> exists k :: 0 <= k < |o| && RosterOf(m, o)[k].id == id
    ensures forall a, b :: 0 <= a < b < |o| ==> RosterOf(m, o)[a].id != RosterOf(m, o)[b].id
  {
    var r := RosterOf(m, o);
    forall id | id in m
      ensures exists k :: 0 <= k < |o| && r[k].id == id
    {
      var k :| 0 <= k < |o| && o[k] == id;
      assert r[k].id == id;
    }
  }
}
