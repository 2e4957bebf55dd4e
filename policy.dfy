/**
 * The command phase of a tick (client.py, `Game.get_moves` lines 120-143 and
 * `Game.get_direction`): which commands the roster's units receive, in which
 * order, and which unit-creation requests follow them.
 */
module Policy {
  import opened Wrappers
  import opened Entities

  /** A compass direction as the game server reads it. */
  datatype Dir = N | S | E | W

  /** A board position `(x, y)`. */
  type Pos = (int, int)

  /** A command sent back to the server. */
  datatype Command =
    | Move(unit: UnitId, dir: Dir)
    | Gather(unit: UnitId, dir: Dir)
    | Create(kind: string)

  /**
   * `get_direction`: the direction from the unit at `(ux, uy)` towards
   * `(tx, ty)`.  With the same x, a larger target y is north and anything
   * else south; with a different x, a larger target x is WEST and a smaller
   * one east.
   */
  function Direction(ux: int, uy: int, tx: int, ty: int): (d: Dir)
    ensures d == N <==> ux == tx && ty > uy
    ensures d == S <==> ux == tx && ty <= uy
    ensures d == W <==> ux != tx && tx > ux
    ensures d == E <==> ux != tx && tx < ux
  {
    if ux == tx then
      if uy - ty < 0 then N else S
    else
      if ux - tx < 0 then W else E
  }

  /** The neighbour of `(x, y)` that the client's sign convention names `d`. */
  function Step(x: int, y: int, d: Dir): Pos {
    match d
    case N => (x, y + 1)
    case S => (x, y - 1)
    case W => (x + 1, y)
    case E => (x - 1, y)
  }

  /**
   * `Direction` and `Step` are inverse on the four neighbours of a cell: the
   * direction towards a neighbour is the one that steps onto it, and stepping
   * in the direction of a neighbour reaches it.
   */
  lemma DirectionOfStep(x: int, y: int)
    ensures forall d: Dir :: Direction(x, y, Step(x, y, d).0, Step(x, y, d).1) == d
    ensures forall tx, ty :: (tx == x && (ty == y + 1 || ty == y - 1)) || (ty == y && (tx == x + 1 || tx == x - 1))
                        ==> Step(x, y, Direction(x, y, tx, ty)) == (tx, ty)
  {
  }

  /** The unit holds a resource: its `resource` attribute is present and non-zero (Python truthiness). */
  predicate Carrying(u: Unit) {
    u.resource.Some? && u.resource.value != 0
  }

  /** The unit is one the policy acts on. */
  predicate IdleWorker(u: Unit) {
    u.status == "idle" && u.kind == "worker"
  }

  /**
   * The command an idle worker receives, given the path the client plans for
   * it (towards the base when it carries a resource, towards the nearest
   * resource otherwise).  It always heads for the path's first position: a
   * carrying worker or a worker with more than one position left moves, a
   * worker whose path has one position left gathers.
   *
   * This is the branch of lines 126-136 as evidently intended.  As written it
   * reads the attribute `unit.resources` (line 127), which `Unit` does not
   * have; it calls `get_nearest_resource` (line 131), while the method is
   * named `get_nearset_resource`; it takes `len(shortest_path > 1)` (line 133)
   * for `len(shortest_path) > 1`; and it calls `get_shortest_path`, which the
   * file never defines.
   */
  function WorkerCommand(u: Unit, path: seq<Pos>): (c: Command)
    requires |path| > 0
    ensures c.Move? || c.Gather?
    ensures c.unit == u.id && c.dir == Direction(u.x, u.y, path[0].0, path[0].1)
    ensures c.Gather? <==> !Carrying(u) && |path| == 1
  {
    var dir := Direction(u.x, u.y, path[0].0, path[0].1);
    if Carrying(u) then Move(u.id, dir)
    else if |path| > 1 then Move(u.id, dir)
    else Gather(u.id, dir)
  }

  /** Every idle worker of `us` has a path with at least one position. */
  predicate PathsCover(us: seq<Unit>, paths: map<UnitId, seq<Pos>>) {
    forall k :: 0 <= k < |us| && IdleWorker(us[k]) ==> us[k].id in paths && |paths[us[k].id]| > 0
  }

  /** Every idle worker of the roster `m` has a path with at least one position. */
  predicate PathsFor(m: map<UnitId, Unit>, paths: map<UnitId, seq<Pos>>) {
    forall id :: id in m && IdleWorker(m[id]) ==> id in paths && |paths[id]| > 0
  }

  /** A prefix of a covered roster is covered. */
  lemma PathsCoverPrefix(us: seq<Unit>, paths: map<UnitId, seq<Pos>>, n: int)
    requires PathsCover(us, paths) && 0 <= n <= |us|
    ensures PathsCover(us[..n], paths)
  {
    assert forall k :: 0 <= k < n ==> us[..n][k] == us[k];
  }

  /** The per-unit commands for the roster `us`, in roster order. */
  function UnitCommands(us: seq<Unit>, paths: map<UnitId, seq<Pos>>): seq<Command>
    requires PathsCover(us, paths)
    decreases |us|
  {
    if us == [] then []
    else
      var u := us[|us| - 1];
      assert PathsCover(us[..|us| - 1], paths) by {
        assert forall k :: 0 <= k < |us| - 1 ==> us[..|us| - 1][k] == us[k];
      }
      UnitCommands(us[..|us| - 1], paths) + (if IdleWorker(u) then [WorkerCommand(u, paths[u.id])] else [])
  }

  /** The idle workers of `us`, in order. */
  function IdleWorkers(us: seq<Unit>): seq<Unit>
    decreases |us|
  {
    if us == [] then []
    else IdleWorkers(us[..|us| - 1]) + (if IdleWorker(us[|us| - 1]) then [us[|us| - 1]] else [])
  }

  /**
   * Only idle workers are commanded, each exactly once and in roster order:
   * the k-th per-unit command is the worker command of the k-th idle worker.
   */
  lemma {:induction false} UnitCommandsOfIdleWorkers(us: seq<Unit>, paths: map<UnitId, seq<Pos>>)
    requires PathsCover(us, paths)
    ensures forall u <- IdleWorkers(us) :: u in us && IdleWorker(u)
    ensures |UnitCommands(us, paths)| == |IdleWorkers(us)|
    ensures forall k :: 0 <= k < |IdleWorkers(us)| ==>
              IdleWorkers(us)[k].id in paths && |paths[IdleWorkers(us)[k].id]| > 0 &&
              UnitCommands(us, paths)[k] == WorkerCommand(IdleWorkers(us)[k], paths[IdleWorkers(us)[k].id])
    decreases |us|
  {
    if us != [] {
      var init := us[..|us| - 1];
      assert forall k :: 0 <= k < |init| ==> init[k] == us[k];
      assert PathsCover(init, paths);
      UnitCommandsOfIdleWorkers(init, paths);
    }
  }

  /** How many units of `us` have the type `kind`, whatever their status (`unit_counts[kind]`). */
  function CountKind(us: seq<Unit>, kind: string): nat
    decreases |us|
  {
    if us == [] then 0
    else CountKind(us[..|us| - 1], kind) + (if us[|us| - 1].kind == kind then 1 else 0)
  }

  /** Counting one more unit of the roster adds one to the count of its type only. */
  lemma CountKindSnoc(us: seq<Unit>, k: int)
    requires 0 <= k < |us|
    ensures forall kind :: CountKind(us[..k + 1], kind) == CountKind(us[..k], kind) + (if us[k].kind == kind then 1 else 0)
  {
    assert us[..k + 1][..k] == us[..k];
  }

  /**
   * All commands of one tick: the per-unit commands, then a creation request
   * for a scout while at most 3 exist, for a tank while at most 1 exists and
   * for a worker while at most 5 exist, appended in that order.
   */
  function Commands(us: seq<Unit>, paths: map<UnitId, seq<Pos>>): seq<Command>
    requires PathsCover(us, paths)
  {
    WithRequests(UnitCommands(us, paths),
                 CountKind(us, "scout") <= 3, CountKind(us, "tank") <= 1, CountKind(us, "worker") <= 5)
  }

  /** `cmds` with a scout, a tank and a worker request appended in turn, each when its quota decision holds. */
  function WithRequests(cmds: seq<Command>, scout: bool, tank: bool, worker: bool): seq<Command> {
    var withScout := if scout then cmds + [Create("scout")] else cmds;
    var withTank := if tank then withScout + [Create("tank")] else withScout;
    if worker then withTank + [Create("worker")] else withTank
  }

  /**
   * A creation request for a type is issued exactly when the roster holds at
   * most 3 scouts, 1 tank, 5 workers respectively; requests follow every
   * per-unit command, in the order scout, tank, worker.
   */
  lemma CreatesFollowUnitCommands(us: seq<Unit>, paths: map<UnitId, seq<Pos>>)
    requires PathsCover(us, paths)
    ensures UnitCommands(us, paths) <= Commands(us, paths)
    ensures forall k :: 0 <= k < |UnitCommands(us, paths)| ==> !Commands(us, paths)[k].Create?
    ensures Commands(us, paths)[|UnitCommands(us, paths)|..] == CreateRequests(us)
    ensures Create("scout") in Commands(us, paths) <==> CountKind(us, "scout") <= 3
    ensures Create("tank") in Commands(us, paths) <==> CountKind(us, "tank") <= 1
    ensures Create("worker") in Commands(us, paths) <==> CountKind(us, "worker") <= 5
  {
    var uc := UnitCommands(us, paths);
    assert forall c <- uc :: !c.Create? by {
      UnitCommandsOfIdleWorkers(us, paths);
    }
    RequestsFollow(uc, CountKind(us, "scout") <= 3, CountKind(us, "tank") <= 1, CountKind(us, "worker") <= 5);
  }

  /** The creation requests of a tick, in the order scout, tank, worker. */
  function CreateRequests(us: seq<Unit>): seq<Command> {
    Requests(CountKind(us, "scout") <= 3, CountKind(us, "tank") <= 1, CountKind(us, "worker") <= 5)
  }

  /** The creation requests for the three quota decisions, in the order scout, tank, worker. */
  function Requests(scout: bool, tank: bool, worker: bool): seq<Command> {
    (if scout then [Create("scout")] else [])
    + (if tank then [Create("tank")] else [])
    + (if worker then [Create("worker")] else [])
  }

  /**
   * Appending the requests one by one to commands that request nothing puts
   * exactly the requests of `Requests` after them; each request is present
   * exactly when its quota decision holds.
   */
  lemma RequestsFollow(cmds: seq<Command>, scout: bool, tank: bool, worker: bool)
    requires forall c <- cmds :: !c.Create?
    ensures WithRequests(cmds, scout, tank, worker) == cmds + Requests(scout, tank, worker)
    ensures Create("scout") in WithRequests(cmds, scout, tank, worker) <==> scout
    ensures Create("tank") in WithRequests(cmds, scout, tank, worker) <==> tank
    ensures Create("worker") in WithRequests(cmds, scout, tank, worker) <==> worker
  {
    var r := Requests(scout, tank, worker);
    assert WithRequests(cmds, scout, tank, worker) == cmds + r;
    RequestsContents(scout, tank, worker);
  }

  /** The requests are creations only, and each type is requested exactly when its quota decision holds. */
  lemma RequestsContents(scout: bool, tank: bool, worker: bool)
    ensures forall c <- Requests(scout, tank, worker) :: c.Create?
    ensures Create("scout") in Requests(scout, tank, worker) <==> scout
    ensures Create("tank") in Requests(scout, tank, worker) <==> tank
    ensures Create("worker") in Requests(scout, tank, worker) <==> worker
  {
    assert "scout" != "tank" && "scout" != "worker" && "tank" != "worker";
  }

  /**
   * The command loop of a tick: walk the roster in order, count every unit
   * under its type and command each idle worker; then append the creation
   * requests the counts call for.
   */
  method IssueCommands(us: seq<Unit>, paths: map<UnitId, seq<Pos>>) returns (cmds: seq<Command>)
    requires PathsCover(us, paths)
    ensures cmds == Commands(us, paths)
  {
    var counts;
    cmds, counts := CommandUnits(us, paths);
    if Tally(counts, "scout") <= 3 {
      cmds := cmds + [Create("scout")];
    }
    if Tally(counts, "tank") <= 1 {
      cmds := cmds + [Create("tank")];
    }
    if Tally(counts, "worker") <= 5 {
      cmds := cmds + [Create("worker")];
    }
  }

  /**
   * The walk over the roster: every unit is counted under its type and every
   * idle worker is commanded, in roster order.
   */
  method CommandUnits(us: seq<Unit>, paths: map<UnitId, seq<Pos>>) returns (cmds: seq<Command>, counts: map<string, nat>)
    requires PathsCover(us, paths)
    ensures cmds == UnitCommands(us, paths)
    ensures forall kind :: Tally(counts, kind) == CountKind(us, kind)
  {
    cmds := [];
    counts := map[];
    var k := 0;
    PathsCoverPrefix(us, paths, 0);
    while k < |us|
      invariant 0 <= k <= |us|
      invariant PathsCover(us[..k], paths)
      invariant cmds == UnitCommands(us[..k], paths)
      invariant forall kind :: Tally(counts, kind) == CountKind(us[..k], kind)
    {
      var u := us[k];
      assert us[..k + 1] == us[..k] + [u];
      PathsCoverPrefix(us, paths, k + 1);
      CountKindSnoc(us, k);
      counts := Bump(counts, u.kind);
      if u.status == "idle" && u.kind == "worker" {
        cmds := cmds + [WorkerCommand(u, paths[u.id])];
      }
      k := k + 1;
    }
    assert us[..|us|] == us;
  }

  /** `unit_counts[kind]`: the count recorded for `kind`, zero when none is (a `defaultdict(int)`). */
  function Tally(counts: map<string, nat>, kind: string): nat {
    if kind in counts then counts[kind] else 0
  }

  /** `unit_counts[kind] += 1`: one more unit counted for `kind`, every other count unchanged. */
  function Bump(counts: map<string, nat>, kind: string): (r: map<string, nat>)
    ensures forall t :: Tally(r, t) == Tally(counts, t) + (if t == kind then 1 else 0)
  {
    counts[kind := Tally(counts, kind) + 1]
  }
}
