# Game client world model and command policy, in Dafny

This project models the core of `client.py`, the client of a turn-based
real-time-strategy server. One `Game` object serves one connection. On every
tick, `get_moves` does four things in order:

1. It rebuilds the board when the message announces map dimensions (`init_board`).
2. It applies the tile reports to the board and records every unit seen on a tile as an enemy.
3. It applies the unit reports to the roster of owned units and captures the base.
4. It walks the roster in its iteration order to compute the tick's commands: a `MOVE` or `GATHER` for every idle worker, then a `CREATE` request for each of scout, tank and worker while the roster holds at most 3 scouts, 1 tank and 5 workers respectively.

Files and modules:

- `wrappers.dfy` (`Wrappers`): the `Option` type.
- `entities.dfy` (`Entities`): `Resource`, `Unit` and the report records as values. `Tile` is a class whose fields `Tile.Update` overwrites in place.
- `world.dfy` (`World`): the specification functions for one tick's updates. These are `CellAfter` for one cell of the board, `Record` for the enemy roster, `Upsert` and `OrderAfter` for the owned roster and its dictionary order, and `BaseAfter` for the cached base. The file also holds lemmas about these functions.
- `policy.dfy` (`Policy`): `get_direction`, the worker decision, the per-unit commands and the creation requests. `IssueCommands` runs the command loop with its `defaultdict` of counts, and is proved against `Commands`.
- `agent.dfy` (`Agent`): the `Game` class.
  - Its fields are `units`, `order` (the insertion order of the `units` dictionary), `tiles`, `enemies` and `base`. `order` assumes that `self.units.values()` (line 123) iterates in insertion order, which Python guarantees from version 3.7 on. The file runs only under Python 3 in any case: its parameter annotations (lines 31, 42, 52, 66, 79) do not parse under Python 2.
  - `InitBoard`, `ApplyTileUpdates`, `ApplyUnitUpdates` and `GetMoves` update the state in place. `InitBoard` states the new board outright. `ApplyTileUpdates`, `ApplyUnitUpdates` and `GetMoves` are proved against the specification functions in `World` and `Policy`.
  - `ComputeCommands` changes nothing and returns exactly the commands `Policy.Commands` specifies for the roster.
  - `get_nearset_resource` is modelled as a function over the board, with a lemma that characterises its result.

Python list indexing is modelled exactly. An index `i` into a list of length
`n` is valid when `-n <= i < n`, and a negative index counts from the end.

A `Unit` is a value. The only unit record the client changes in place is the
roster entry `self.units[id]`. Nothing else refers to that record: the base is
a separate `Unit` built from the report at line 114, and enemies and tile
occupants are fresh records. So replacing the map entry has the same effect as
mutating the object.

The model follows the code as written:

- `CREATE` requests are emitted (lines 138-143).
- No direction is chosen at random: `get_moves` never calls `get_random_move`.
- No path-finding exists in the file.
- Nothing re-centres coordinates on the base; a tile report is stored at `self.tiles[x][y]`.
- The board is rebuilt whenever a message carries `game_info`.
- Every unit listed on a tile becomes an enemy, whatever its owner.
- The board has `2*map_height+1` rows of `2*map_width+1` tiles. The tile in row `i`, column `j` is labelled `x = j`, `y = i`, while reports address the board as `tiles[x][y]`. So the nearest-resource scan returns the coordinates of the tile it finds transposed with respect to the offsets it probed (`Agent.Game.NearestResourceFirstHit`).

## Model

| member | source | states |
|---|---|---|
| Entities.NewUnit | client.py:31-40 | A unit built from a report has the report's id and player id, and every other attribute as reported; absent `resource` and `can_attack` become none |
| Entities.UpdateUnit | client.py:42-49 | `Unit.update` keeps `id` and `player_id` and overwrites every other attribute from the report |
| Entities.UpdateMatchesNew | client.py:42-49 | An updated unit equals a freshly built one exactly when the identities agree, and applying the same report twice changes nothing more |
| Entities.OccupantsAt | client.py:73-76 | A tile's occupant list has one fresh unit record per reported occupant, at the same position |
| Entities.ViewOf | client.py:66-76 | After an update, the tile's visibility is as reported, and it is blocked only when reported blocked (absent means not blocked). Its resource is as reported, and its occupants are rebuilt from the report alone |
| Entities.Tile.constructor | client.py:52-64 | A tile built from coordinates only carries them and is invisible, unblocked, without resource and without occupants |
| Entities.Tile.Update | client.py:66-76 | The tile's whole new state is the state the report determines, independent of its previous state |
| World.PyIndex | client.py:107 | A Python list index in range `-n <= i < n` selects position `i`, or position `n + i` when `i` is negative |
| World.CellUntouched | client.py:106-107 | A tile that no report of the tick addresses keeps its state |
| World.CellLastWriter | client.py:106-107 | A tile that some report addresses ends in the state the last such report gives it |
| World.CellAfterIdempotent | client.py:106-107 | Applying the same batch of tile reports a second time leaves every tile as it was after the first |
| World.RecordAppend | client.py:106-110 | Recording the occupants of consecutive reports one report at a time is recording them all in sequence |
| World.RecordKeys | client.py:108-110 | The enemy roster only grows: its ids become the old ids plus every listed occupant's id, and an enemy not listed again keeps its record |
| World.RecordLastWins | client.py:108-110 | An enemy listed several times holds a fresh record of its last listing |
| World.UpsertKeys | client.py:112-118 | Unit reports never remove an owned unit: the roster's ids become the old ids plus the reported ids, and a unit not reported keeps its record |
| World.UpsertKeepsIdentity | client.py:115-116 | A unit already in the roster keeps its id and player id whatever is reported about it |
| World.UpsertFirstIdentity | client.py:117-118 | A unit first seen in a batch takes its id and player id from the first report of it |
| World.UpsertLastWins | client.py:115-118 | Every reported unit carries the position, type, status, health, resource and attack flag of its last report |
| World.OrderExtends | client.py:115-118 | The dictionary's iteration order keeps the old order as a prefix and lists each id once. It lists exactly the old ids and the reported ones |
| World.UpsertKeyed | client.py:115-118 | After any batch of unit reports, every owned unit is stored under its own id, and the iteration order lists every key exactly once |
| World.BaseSticky | client.py:113-114 | Once a base is known, no report replaces it |
| World.BaseFromFirstReport | client.py:113-114 | With no base known, the base afterwards is built from the first report of type `base` in the batch, or is still none when the batch has no such report |
| World.RosterOf | client.py:123 | The roster's values in the dictionary's iteration order: position k holds the unit stored under the k-th key |
| World.RosterOfKeyed | client.py:123 | Over a roster keyed by id, the values hold every key's unit exactly once: an id is a key exactly when some position holds its unit, and no two positions hold the same id |
| Policy.Direction | client.py:159-171 | With the same x, a larger target y gives `N` and any other y gives `S`. With a different x, a larger target x gives `W` and a smaller one `E` (each as an if-and-only-if) |
| Policy.DirectionOfStep | client.py:159-171 | The direction towards any of the four neighbours of a cell and the step in that direction are inverse, in both directions |
| Policy.WorkerCommand | client.py:125-136 | An idle worker receives a `MOVE` or `GATHER` for itself towards the first position of its path. It is a `GATHER` exactly when it carries nothing and only one position is left |
| Policy.UnitCommandsOfIdleWorkers | client.py:123-136 | Only idle workers are commanded, each once and in roster order: the k-th per-unit command is the worker command of the k-th idle worker |
| Policy.CountKindSnoc | client.py:121-124 | Counting one more unit raises the count of its type by one and leaves every other type's count unchanged |
| Policy.CreatesFollowUnitCommands | client.py:138-143 | The creation requests follow every per-unit command, in the order scout, tank, worker. A request for scouts, tanks or workers is issued exactly when the roster holds at most 3, 1 or 5 of them respectively |
| Policy.RequestsFollow | client.py:138-143 | Appending the three conditional requests to commands that request nothing appends exactly the requested types, each present exactly when its condition holds |
| Policy.RequestsContents | client.py:138-143 | The requests are creations only, and each type is requested exactly when its quota decision holds |
| Policy.IssueCommands | client.py:120-143 | The command loop with its `defaultdict` counts returns exactly the specified commands of the roster |
| Policy.CommandUnits | client.py:121-136 | The loop over the roster counts every unit under its type (whatever its status) and commands each idle worker, in roster order |
| Policy.Bump | client.py:124 | `unit_counts[type] += 1` raises that type's count by one and leaves every other count unchanged, a missing count reading as 0 |
| Agent.Game.constructor | client.py:86-91 | A new game has no units, no board, no enemies and no base |
| Agent.Game.InitBoard | client.py:93-99 | The board gets `2*map_height+1` rows of `2*map_width+1` new, unreported tiles, and the tile in row i, column j is labelled x = j, y = i. Units, enemies and base are unchanged |
| Agent.Game.ApplyTileUpdates | client.py:106-110 | Every tile ends in the state that the last report addressing it (as `tiles[x][y]`) gives it, or keeps its state. Every listed occupant is recorded as an enemy, and the board stays labelled |
| Agent.Game.RecordOccupants | client.py:108-110 | Each listed occupant is recorded under its id, and a later listing replaces an earlier one |
| Agent.Game.ApplyUnitUpdates | client.py:112-118 | The roster, its iteration order and the base end as the unit reports determine, and the roster stays keyed by id |
| Agent.Game.ComputeCommands | client.py:120-143 | The tick's commands are the specified commands of the roster in dictionary order |
| Agent.Game.GetMoves | client.py:101-143 | One tick: the board is rebuilt when dimensions are announced; then tile reports, unit reports and commands are applied, with every part of the new state stated |
| Agent.Game.ProbeAt | client.py:154-156 | One probe `tiles[ux+xoff][uy+yoff]` is an `IndexError` exactly when either index is outside Python's range. Otherwise it misses exactly when that tile holds no resource, and a hit returns that tile's own labels `(x, y)` |
| Agent.Game.ScanRow | client.py:153-156 | The innermost loop over `xoff`: a hit it returns names a board tile that holds a resource |
| Agent.Game.ScanSquare | client.py:152-156 | The loop over `yoff` of one square: a hit it returns names a board tile that holds a resource |
| Agent.Game.ScanFrom | client.py:151-156 | The loop over the squares k to 30: a hit it returns names a board tile that holds a resource |
| Agent.Game.NearestResource | client.py:149-156 | `get_nearset_resource`: when it reports a position, that position labels a board tile holding a resource |
| Agent.Game.ScanRowFirst | client.py:153-156 | The innermost loop returns at the first probed position that is not a miss, or probes only misses |
| Agent.Game.ScanSquareFirst | client.py:152-156 | The scan of one square returns at its first non-miss position in (yoff, xoff) order, or the square is clear from its starting row on |
| Agent.Game.ScanFromFirst | client.py:151-156 | Scanning squares k to 30 returns at the first non-miss position of the first square that is not clear |
| Agent.Game.NearestResourceFirstHit | client.py:149-156 | The search finds nothing exactly when all of the 61 x 61 window around the unit is in range and holds no resource. Otherwise its result is the first position of the smallest non-clear square. A hit reports that tile's own labels, so the tile at `tiles[ux+xoff][uy+yoff]` comes back as `(uy+yoff, ux+xoff)`, and that tile holds a resource |

## Left out

- Exceptions: `NetworkHandler.handle` (lines 18-28) catches nothing, so every exception named below leaves it. The server then closes the connection and discards the session's `Game`. The model does not represent that ending; where it excludes or ignores such an error, the line says so.
- The TCP server (`NetworkHandler`, lines 17-28), JSON decoding of requests (line 23) and encoding of responses (lines 145-147), the Python-version check and its printing (lines 9-14), and the server start-up (lines 183-189): this is I/O. Messages arrive as the records `GameInfo`, `TileDelta` and `UnitConfig`, and commands leave as `Command` values.
- JSON truthiness is settled at decoding. An empty `game_info` or `resources` object counts as absent. A missing `units` list is the empty list. `blocked` is a boolean. A missing required key (a `KeyError` in the source) cannot be represented.
- `get_random_move` (lines 173-181) and the `directions` list (line 88): `get_moves` never calls them.
- `get_shortest_path` is called at lines 128 and 132 but defined nowhere in the file. The planned path of every idle worker is a parameter (`paths`). The source would raise `IndexError` at `shortest_path[0]` on an empty path, so `PathsFor` requires a non-empty path for every idle worker.
- Policy.WorkerCommand: models the evidently intended worker decision, not the code as written. As written, line 127 reads `unit.resources`, an attribute `Unit` does not have, so every idle worker raises `AttributeError`. Line 131 calls `get_nearest_resource`, but the method is named `get_nearset_resource`. Line 133 compares a list with an integer before taking `len`. The model reads `unit.resource` with Python truthiness (present and non-zero) and `len(shortest_path) > 1`.
- Agent.Game.GetMoves: the destination of a worker's path is not modelled. The base's position (line 128) and the nearest resource (line 131) only select the path, which arrives as a parameter. So three errors of choosing the destination are not modelled, and `GetMoves` still issues a command for such a worker: a carrying worker with no base known raises `AttributeError` at line 128; a search that finds nothing raises `TypeError` when `None` is unpacked at line 131; and a search whose square runs off the board before it finds a resource raises `IndexError` at line 154 (on the 3 x 3 board of a 1 x 1 map, a worker at (1, 1) probes `tiles[3]` at k = 2, xoff = 2). `Agent.Game.NearestResource` returns that error as its `IndexError` result, but `GetMoves` does not consult it.
- Agent.Game.ApplyTileUpdates: requires every tile report to address the board in Python's index range. An out-of-range report raises `IndexError` in the source and ends the session; the model does not represent that error.
- Entities.Tile.constructor: models only the coordinates-only form that `init_board` uses. The general form that also reads `visible`, `blocked`, `resources` and `units` from its argument is never called with them.
- `Resource` (lines 78-83) is a plain record of id, type, total and value, with no operation of its own.
- Integer widths: Python integers are unbounded, as Dafny's are, so no wrap-around arises.
