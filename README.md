# Spring Challenge 2023 bot: the per-turn planner, in Dafny

This project models the planning core of a bot for the CodinGame Spring
Challenge 2023 ant game (`main.cpp`). It also proves what that core computes.

The board is a fixed graph of cells, and each cell has at most six neighbours.
Cells may hold eggs or crystals, and both sides have ants on cells. Each turn
the bot does four things:

1. It refreshes every cell and both sides from the turn's counts.
2. It values every cell that still holds resources (the *aims*).
3. It computes the enemy's *chain power* for every cell. This is the largest
   ant count the enemy can hold along a connected walk of its own cells from
   one of its bases. The walk's strength is its smallest count.
4. It grows a chain of beacon cells from its own bases toward the aims. Each
   round takes the best cell next to the chain, and each cell costs one free
   ant. Then it writes `BEACON id strength;` for every cell with a beacon,
   followed by `WAIT;`.

The all-pairs distance table used for ranking is built once, by one
breadth-first search per source cell.

## How the model is built

Cells are identified by their index, and pointers become indices. The board
is an adjacency list `seq<seq<nat>>`.

- `Graph` defines `Ball(adj, s, k)`: the cells within `k` edges of `s`.
  Distances are specified against it.
- `Distances` defines the class `DistanceMap`. Its constructor fills an
  `array2<int>` with one search per source (`Explore`). Every entry is proved
  to be the length of a shortest walk, or `INF` when no walk exists. The
  table is proved symmetric on an undirected board, and the triangle
  inequality is proved.
- `Cells` defines the datatype `Cell`, with one field per state member of
  `cell_t`, and the per-cell operations as functions. The cell's id is its
  index, and its neighbour lists are its row of the adjacency list.
- `Players` defines the class `Player`, with `UpdateStep` and `UseAnts`.
- `Valuation` holds the resource totals, the aim list and the egg
  coefficient tiers. Coefficients are carried in half-units.
- `Chain` holds the enemy chain search (`EnemyChain`). Its result is proved to
  be the unique map of best walk strengths, `IsChainMap`.
- `Planner` holds one round of the greedy growth:
  - scoring candidates against the remaining aims;
  - the comparator;
  - the `min_element` selection;
  - `GreedyRun`, which says what a run of rounds means.
- `Actions` holds the output text, with a reader for BEACON commands as its
  inverse.
- `Games` defines the class `Game`. It has the cell array, two players, the
  distance table, the aim list and the output text. Its methods are the steps
  of a turn.

## Model

| member | source | states |
|---|---|---|
| Cells.Cell.Read | main.cpp:134-141 | takes the turn's resources and ant counts, clears value, beacon and chain value to 0, chain depth to -1 and parent to none, and keeps the kind |
| Cells.ReadIdempotent | main.cpp:134-141 | resetting twice with the same counts equals resetting once |
| Cells.Cell.IsEgg | main.cpp:41 | an egg cell (kind 1) that still holds eggs |
| Cells.Cell.SetResourcesValue | main.cpp:143-146 | only the value changes; it is resources times the egg or crystal coefficient (chosen by is_egg), truncated toward zero |
| Cells.TruncHalf | main.cpp:145 | the conversion of x * 0.5 to int lies within 1 of x / 2, on the side of zero |
| Cells.SetResourcesValueIdempotent | main.cpp:143-146 | valuing twice with the same coefficients equals valuing once |
| Cells.Cell.SetMinBeacon | main.cpp:46 | the beacon becomes max(old, v), nothing else changes, and the returned amount is exactly the increase, never negative |
| Cells.Cell.SetChainParent | main.cpp:47 | with no parent only the depth changes, to 0, and the old parent is kept; otherwise the cell gets the parent and the parent's depth plus 1 |
| Players.Player.constructor | main.cpp:172-180 | the side keeps its id and its base list |
| Players.Player.UpdateStep | main.cpp:182-191 | the total is the sum of the side's positive counts, the list is the occupied cells in index order, and the free budget equals the total |
| Players.OccupiedExactly | main.cpp:185-189 | the occupied list holds exactly the cells with a positive count, strictly ascending |
| Players.AntsTotalOverOccupied | main.cpp:183-190 | the total is the sum of the counts of the listed cells, and it is not negative |
| Players.Player.UseAnts | main.cpp:81 | the free budget drops by exactly the amount, unchecked |
| Distances.ImprovedNeighbours | main.cpp:165-167 | queues at distance d + 1 exactly those neighbours whose entry exceeds d + 1 |
| Distances.Explore | main.cpp:155-169 | fills the source's row so that the row is finished (edge-closed, each finite entry realised by a walk) and leaves every other row alone |
| Distances.DistanceMap.constructor | main.cpp:148-170 | the table has one finished row per source cell |
| Distances.DistanceMap.Get | main.cpp:68 | an entry is INF, or the length of a shortest walk; INF means no walk shorter than INF |
| Distances.RowComplete | main.cpp:158-167 | a finished row never exceeds the length of any walk |
| Distances.Shortest | main.cpp:148-170 | every table entry lies in [0, INF] and is the length of a shortest walk, or INF when there is none |
| Distances.Symmetric | main.cpp:148-170 | on an undirected board, dist(i, j) = dist(j, i) |
| Distances.Triangle | main.cpp:148-170 | dist(i, k) <= dist(i, j) + dist(j, k) for every triple |
| Valuation.EggsKoefHalves | main.cpp:248-260 | in half-units, the egg coefficient is twice the number of bases times the tier (10, 2, 3 or 0.5) chosen by the ant comparison and by crystals > 10 * ants |
| Valuation.EggsTierOrder | main.cpp:249-260 | being behind or level in ants gives a strictly higher egg tier than being ahead, with the same crystals |
| Valuation.TotalsSplit | main.cpp:230-237 | egg total plus crystal total is the sum of all positive resources, and both are non-negative |
| Valuation.AimCellsExactly | main.cpp:242-246 | the aims are exactly the cells with resources > 0, strictly ascending |
| Chain.SeedBases | main.cpp:275-278 | the queue holds exactly the bases in order, each with its own count; the recorded cells are exactly the bases; together this establishes the search invariant |
| Chain.RelaxEdges | main.cpp:282-300 | one pop keeps the search invariant and lowers the termination measure by at least the number of cells re-queued |
| Chain.PotentialDrop | main.cpp:289-298 | a strict improvement of a recorded value lowers the termination measure |
| Chain.EnemyChain | main.cpp:267-301 | the result is the chain map: each recorded value is the strength of some walk and no walk beats it or reaches an unrecorded cell; bases keep their own count; other reached cells are occupied and their value is at most their count |
| Chain.SearchDone | main.cpp:281-301 | when the queue is empty, what the search recorded is the chain map |
| Chain.ChainMapUnique | main.cpp:273-301 | there is only one chain map, so the hash map's visiting order cannot change the result |
| Chain.ChainMapBelow | main.cpp:285-288 | with fewer ants on every cell, no new cell is reached and no value rises |
| Chain.ProjectsAntitone | main.cpp:288 | a weaker strength reaches at least the cells a stronger one reaches |
| Planner.Precedes | main.cpp:357-362 | the comparator: a nearer aim always comes first; at equal distance more value comes first; whatever comes first is a different key and is no farther from an aim |
| Planner.PrecedesStrictOrder | main.cpp:356-363 | the comparator is irreflexive, transitive and total on distinct keys |
| Planner.MinAimDist | main.cpp:343-348 | min_dis is at most every aim's distance and equals one of them, or is INF |
| Planner.AimStep | main.cpp:345-350 | one more aim lowers the minimum to its distance when that is smaller, and the value at the minimum restarts, adds or ignores the aim's value |
| Planner.AimScore | main.cpp:343-351 | the loop computes min_dis and the summed value of the aims at exactly that distance |
| Planner.ScoreNeighbour | main.cpp:337-351 | a neighbour off the chain and not yet a candidate is scored and entered; otherwise nothing changes |
| Planner.ScanNeighbours | main.cpp:336-352 | after the scan, every neighbour of the chain cell is on the chain or a scored candidate |
| Planner.CollectCandidates | main.cpp:332-353 | the candidates are exactly the chain's frontier, each scored against the remaining aims and found from an adjacent chain cell |
| Planner.FrontierExactly | main.cpp:333-353 | scored and covered candidates are exactly the frontier |
| Planner.SelectBest | main.cpp:356-363 | min_element picks a candidate that no candidate precedes |
| Planner.ChooseNext | main.cpp:332-365 | nothing is found exactly when the frontier is empty; otherwise the choice is a best frontier cell and its parent is a chain cell adjacent to it |
| Planner.RemainingExactly | main.cpp:370 | the remaining aims are exactly the aims not taken |
| Planner.RemainingStep | main.cpp:370 | taking one more cell erases it from the remaining aims |
| Planner.DistinctExactly | main.cpp:324 | the aim set holds every listed aim once |
| Planner.GreedyRunAt | main.cpp:331-376 | every round of a run began with aims still untaken and added a best frontier cell of the chain grown so far, ranked against the aims not yet taken |
| Planner.GreedyRunFresh | main.cpp:336-337 | a run never adds a seed and never adds the same cell twice |
| Planner.GreedyTakesAdjacentAim | main.cpp:343-363 | when a remaining aim is on the frontier, the round takes an aim |
| Actions.IntStrRoundTrip | main.cpp:114 | reading back the written decimal form of an int gives the int |
| Actions.BeaconCommand | main.cpp:114 | the command starts with "BEACON " and ends with ';' |
| Actions.BeaconRoundTrip | main.cpp:114 | a written BEACON command reads back as its cell and strength |
| Actions.BeaconsTextIsJoin | main.cpp:384-386 | the emitted text is the announced (cell, strength) pairs written in order |
| Actions.BeaconListExactly | main.cpp:384-386 | the pairs are exactly the cells with a positive beacon, with their beacon, strictly ascending |
| Games.ChainTreeExtend | main.cpp:364-366 | hanging a frontier cell below an adjacent chain cell keeps the chain a tree over the bases |
| Games.ChainConnected | main.cpp:47 | in the tree, every added cell has depth at least 1 and is within its depth of some base |
| Games.Game.constructor | main.cpp:193-205 | the cells carry their kinds and starting resources with the other fields at their defaults, the sides get their bases, and the distance table is built |
| Games.Game.BeginTurn | main.cpp:206-216 | the output and the aims are cleared, every cell is reset with its counts, and both sides are updated from the new cells |
| Games.Game.CountResources | main.cpp:230-237 | the two loop totals are the crystal total and the egg total |
| Games.Game.CollectAims | main.cpp:242-246 | the loop collects exactly the cells with resources, in index order |
| Games.Game.ValueAims | main.cpp:264-265 | every aim, and only an aim, gets its value |
| Games.Game.ComputeAims | main.cpp:225-266 | the totals are stored, the cells with resources are appended to the aims, and each aim is valued with the turn's egg coefficient and crystal coefficient 1 |
| Games.Game.ComputeEnemyChain | main.cpp:267-306 | each cell the search reaches gets its chain-map value as its chain value; every other cell is unchanged |
| Games.Game.SeedChain | main.cpp:317-322 | every base joins the path at 1, costs one ant, and gets depth 0 |
| Games.Game.Attach | main.cpp:364-369 | the chosen cell hangs below its parent and one free ant is spent |
| Games.Game.AddToChain | main.cpp:364-370 | one best frontier cell joins the chain, costs one ant and leaves the aims; the loop invariant is kept and the measure drops |
| Games.Game.GreedyRound | main.cpp:332-375 | keeps the loop invariant; a round either finds an empty frontier and spends no ant and adds no cell, or adds exactly one cell for one ant and lowers the measure |
| Games.Game.GreedyRounds | main.cpp:331-376 | keeps the loop invariant (the rounds form a greedy run, each begun with aims left); the budget drops by one per added cell and is not negative after a round; the loop ends with no aims left, free <= 0, or an empty frontier |
| Games.Game.GrowChain | main.cpp:317-376 | the rounds form a greedy run, each begun with aims left; the budget drops by one per base and one per added cell; the loop ends with no aims left, free <= 0, or an empty frontier; the chain fields form a tree over the bases; a base changes only its depth, to 0, so it keeps its parent |
| Games.Game.MarkBeacons | main.cpp:378-382 | every path cell's beacon is raised to at least its path value, with no ants charged |
| Games.Game.MarkChain | main.cpp:378-382 | after the closing loop the chain is still a tree, and the board is Filled against the board before seeding: a base changes only its depth, to 0, and its beacon, to max(old, 1); an added cell changes only its chain fields and its beacon, to max(old, 1); no other cell changes |
| Games.Game.EmitBeacons | main.cpp:384-386 | the text gains one BEACON command per cell with a positive beacon, in index order |
| Games.Game.BuildChain | main.cpp:311-382 | as GrowChain, and the board is Filled: a base changes only its depth, to 0, and its beacon, to max(old, 1); an added cell changes only its chain fields and its beacon, to max(old, 1); no other cell changes |
| Games.Game.FillBeacons | main.cpp:311-387 | as BuildChain, and the output gains the BEACON commands of the final cells |
| Games.Game.SetMinBeacon | main.cpp:389-392 | the beacon becomes max(old, v) and the free budget drops by exactly the increase |
| Games.Game.CommitBeacon | main.cpp:114 | appends the BEACON command |
| Games.Game.CommitWait | main.cpp:116 | appends "WAIT;" |
| Games.Game.Analyse | main.cpp:218-219 | the totals and aims are those of the starting board, every aim is valued, the chain map is that of the starting enemy counts and is written into the chain values, and the resource values are those after valuation |
| Games.Game.Plan | main.cpp:220-221 | as FillBeacons, followed by "WAIT;" |
| Games.Game.PlayStep | main.cpp:217-224 | the totals and aims are those of the starting board; the valued board has every aim valued; the chain map is that of the starting enemy counts; the added cells form a greedy run over the valued board that stops only with no aims, free <= 0 or no frontier; each round began with aims left; the budget drops by one per base and one per added cell; the final board is Filled against the valued board with the chain values written: a base changes only its depth, to 0, and its beacon, to max(old, 1), an added cell only its chain fields and beacon, and no other cell changes; the output is the beacon commands of the final cells followed by "WAIT;" |

## Left out

- Input parsing is replaced by parameters: `cell_t::init`, the stream part of
  `cell_t::read`, `player_t::init`, `read_score` and the score field. The
  constructor and `BeginTurn` take the parsed values instead.
- Timing and telemetry (`start_step_timer`, `stop_step_timer`, the MESSAGE
  command) are left out: they read a clock and use floating point. Writing
  the text to stdout is left out too: the output is the `actionsText` field.
- The endless `main` loop and the compiler pragmas are left out.
- `commit_line` is never called, and the commented-out code is not behaviour.
- Unordered containers are modelled without their iteration order. The
  search and planner maps are `map`s walked with `:|`. The aim set is the
  aim list without repeats, in first-appearance order (`Distinct`). The
  selection is stated as "no candidate precedes the one picked", so no
  particular tie winner is fixed.
- Planner.ChooseNext: the parent is stated only as some chain cell adjacent
  to the chosen cell. The source records the chain cell that found the
  candidate first, which depends on hash order.
- Chain.EnemyChain: the predecessor that the search records for each reached
  cell (the `parent` of `temp_data_t`) is not modelled, because nothing reads
  it. The queue entries keep their cell, as `Link.cell`.
- Integers are unbounded. The source's 32-bit `int` overflow (sums of
  resources and ants, `10 * ants`) is not modelled.
- The double coefficients are modelled exactly as integer half-units, with
  the conversion to `int` as truncation toward zero (`TruncHalf`). This is
  exact because every coefficient is a multiple of 0.5.
- Players.Player.constructor: the source leaves the ant total and the free
  budget uninitialised until the first `update_step`; the model starts them
  at 0.

### Behaviour of this version

- Free ants are charged one per base and one per added cell. The final
  beacon loop raises beacons without charging ants, because it calls the
  cell's own `set_min_beacon`, not the game's.
- The last tie-break is the distance to the first base, not to the nearest
  base.
- Chain power is computed for the enemy side only.
- The egg coefficient comes from four fixed tiers. There is no ratio of
  resource totals, no score-to-win cutoff, no opening book and no line-floor
  sizing.
