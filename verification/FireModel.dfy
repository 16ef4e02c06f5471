/** The fire data in Redis and what each routine does to it: registration with its random cascade
    (server/internal/sio/fire_ignite.go, server/internal/handler/demo_fire.go), the expiry sweep
    (server/internal/engine/cleanup.go) and the stage scan (server/internal/engine/fire_progression.go).
    Times are in milliseconds; registration and sweep read a clock truncated to whole seconds. */
module FireModel {
  import opened Options
  import opened GoText
  import opened Grid

  /** One member of the sorted set `fire:<grid>`. */
  datatype Fire = Fire(grid: string, id: string)

  /** Scores only ever grow by ZINCRBY 1 and INCR, so a score is how often its key was counted. */
  datatype Store = Store(
    fires: map<Fire, int>,               // member -> score, the expiry time
    active: set<string>,                 // active_grids
    total: nat,                          // stats:total_fires
    daily: multiset<int>,                // stats:daily_fires, by day
    ranking: multiset<(int, string)>)    // stats:daily_ranking, by day and member

  /** ZCOUNT fire:<grid> min +inf, both ends included. */
  function Since(fires: map<Fire, int>, grid: string, min: int): set<Fire> {
    set f | f in fires && f.grid == grid && fires[f] >= min
  }

  /** ZREMRANGEBYSCORE fire:<grid> -inf max, both ends included. */
  function Until(fires: map<Fire, int>, grid: string, max: int): set<Fire> {
    set f | f in fires && f.grid == grid && fires[f] <= max
  }

  function On(fires: map<Fire, int>, grid: string): set<Fire> {
    set f | f in fires && f.grid == grid
  }

  // ---- stages (server/internal/model/fire.go) ----

  const STAGE_THRESHOLDS: seq<(int, int)> := [(280, 5), (120, 4), (40, 3), (10, 2), (1, 1), (0, 0)]

  function FirstReached(table: seq<(int, int)>, count: int): int {
    if table == [] then 0
    else if count >= table[0].0 then table[0].1
    else FirstReached(table[1..], count)
  }

  function GetStage(count: int): int { FirstReached(STAGE_THRESHOLDS, count) }

  lemma FirstReachedStep(threshold: int, stage: int, rest: seq<(int, int)>, count: int)
    ensures FirstReached([(threshold, stage)] + rest, count)
            == if count >= threshold then stage else FirstReached(rest, count)
  {
    assert ([(threshold, stage)] + rest)[1..] == rest;
  }

  /** The table read as intervals: a stage lasts from its threshold up to the next one, and only a grid
      without a fire has none. */
  lemma StageMeaning(count: int)
    ensures GetStage(count) == if count >= 280 then 5 else if count >= 120 then 4 else if count >= 40 then 3
                               else if count >= 10 then 2 else if count >= 1 then 1 else 0
  {
    var t0 := [(0, 0)] + [];
    var t1 := [(1, 1)] + t0;
    var t2 := [(10, 2)] + t1;
    var t3 := [(40, 3)] + t2;
    var t4 := [(120, 4)] + t3;
    assert STAGE_THRESHOLDS == [(280, 5)] + t4;
    FirstReachedStep(280, 5, t4, count);
    FirstReachedStep(120, 4, t3, count);
    FirstReachedStep(40, 3, t2, count);
    FirstReachedStep(10, 2, t1, count);
    FirstReachedStep(1, 1, t0, count);
    FirstReachedStep(0, 0, [], count);
  }

  // ---- registration ----

  const SPREAD_THRESHOLD := 500
  const MAX_HOPS: nat := 8

  /** One draw of rand.Intn(8). */
  type Choice = c: nat | c < 8

  datatype Walked = Walked(grid: string, path: seq<(string, string)>)

  /** The walk leaves a full grid whose id it can parse. */
  predicate Spreads(fires: map<Fire, int>, now: int, grid: string) {
    |Since(fires, grid, now)| >= SPREAD_THRESHOLD && NeighborIDs(grid).Some?
  }

  /** The cascade loop with these draws still to be used. */
  function Walk(fires: map<Fire, int>, now: int, grid: string, choices: seq<Choice>): Walked
    decreases choices
  {
    if choices == [] || !Spreads(fires, now, grid) then Walked(grid, [])
    else
      var next := NeighborIDs(grid).value[choices[0]];
      var w := Walk(fires, now, next, choices[1..]);
      Walked(w.grid, [(grid, next)] + w.path)
  }

  /** Which Redis command of a registration fails, if any; ZINCRBY failures are ignored by the source. */
  datatype Faults = Faults(countAt: Option<nat>, add: bool, index: bool, total: bool, daily: bool, ranking: bool,
                           final: bool)

  const NO_FAULTS := Faults(None, false, false, false, false, false, false)

  datatype Request = Request(grid: string, id: string, expireAt: int, now: int, day: int)

  datatype Registration = Registration(grid: string, activeCount: nat, path: seq<(string, string)>)

  /** The walk issues its count command at turn n. */
  predicate CountsAt(fires: map<Fire, int>, r: Request, choices: seq<Choice>, n: nat)
    requires |choices| == MAX_HOPS
  {
    n < MAX_HOPS && n <= |Walk(fires, r.now, r.grid, choices).path|
  }

  /** What the commands after the walk leave behind. */
  function Landed(st: Store, w: Walked, r: Request, member: string, x: Faults): (Store, Option<Registration>) {
    var st1 := st.(fires := st.fires[Fire(w.grid, r.id) := r.expireAt]);
    var st2 := st1.(active := st1.active + {w.grid});
    var st3 := st2.(total := st2.total + 1);
    var st4 := st3.(daily := st3.daily + multiset{r.day});
    var st5 := if x.ranking then st4 else st4.(ranking := st4.ranking + multiset{(r.day, member)});
    if x.add then (st, None)
    else if x.index then (st1, None)
    else if x.total then (st2, None)
    else if x.daily then (st3, None)
    else if x.final then (st5, None)
    else (st5, Some(Registration(w.grid, |Since(st5.fires, w.grid, r.now)|, w.path)))
  }

  function Registered(st: Store, r: Request, choices: seq<Choice>, member: string, x: Faults)
    : (Store, Option<Registration>)
    requires |choices| == MAX_HOPS
  {
    if x.countAt.Some? && CountsAt(st.fires, r, choices, x.countAt.value) then (st, None)
    else Landed(st, Walk(st.fires, r.now, r.grid, choices), r, member, x)
  }

  // ---- sweep and scan ----

  datatype Entry =
    | Broadcast(grid: string, count: nat, newStage: int, prevStage: int)
    | Spawn(grid: string, count: nat)   // firefighter:spawn
    | Reset(grid: string)      // the sweep drops the grid's stage, silently

  datatype Message =
    | FireUpdate(grid: string, count: nat, stage: int)
    | StageTransition(grid: string, count: nat, prevStage: int, newStage: int)
    | FirefighterSpawn(grid: string, stage: int, removePerSweep: nat)

  /** One broadcast, to a room or to the whole namespace. */
  datatype Emission = Emission(room: Option<string>, message: Message)

  /** How many fires a firefighter removes per sweep; only stages 4 and 5 have one. */
  function RemoveCount(stage: int): nat { if stage == 5 then 3 else if stage == 4 then 2 else 0 }

  function ToRoomAndAll(grid: string, message: Message): seq<Emission> {
    [Emission(Some(grid), message), Emission(None, message)]
  }

  /** What goes over the wire for one entry of the log. */
  function Emitted(e: Entry): seq<Emission> {
    match e
    case Broadcast(g, count, newStage, prevStage) =>
      ToRoomAndAll(g, FireUpdate(g, count, GetStage(count)))
      + ToRoomAndAll(g, StageTransition(g, count, prevStage, newStage))
    case Spawn(g, count) =>
      var stage := GetStage(count);
      ToRoomAndAll(g, FirefighterSpawn(g, stage, if RemoveCount(stage) < 1 then 1 else RemoveCount(stage)))
    case Reset(_) => []
  }

  function EmittedAll(log: seq<Entry>): seq<Emission> {
    if log == [] then [] else EmittedAll(log[..|log| - 1]) + Emitted(log[|log| - 1])
  }

  lemma EmittedMore(log: seq<Entry>, e: Entry)
    ensures EmittedAll(log + [e]) == EmittedAll(log) + Emitted(e)
  {
    assert (log + [e])[..|log|] == log;
  }

  datatype Core = Core(st: Store, stages: map<string, int>, log: seq<Entry>, cleaned: nat)

  function StageOf(stages: map<string, int>, grid: string): int {
    if grid in stages then stages[grid] else 0
  }

  datatype SweepFaults = SweepFaults(range: bool, card: bool, del: bool, srem: bool)

  /** The sweep of one grid at time `now`. */
  function Swept(c: Core, grid: string, now: int, x: SweepFaults): Core {
    if x.range then c
    else
      var gone := Until(c.st.fires, grid, now);
      var fires := c.st.fires - gone;
      var c1 := c.(st := c.st.(fires := fires), cleaned := c.cleaned + |gone|);
      if x.card || On(fires, grid) != {} then c1
      else c1.(st := c1.st.(active := if x.srem then c1.st.active else c1.st.active - {grid}),
               stages := c1.stages - {grid}, log := c1.log + [Reset(grid)])
  }

  datatype ScanFaults = ScanFaults(count: bool, srem: bool)

  /** The scan of one grid at time `now`. */
  function Scanned(c: Core, grid: string, now: int, x: ScanFaults): Core {
    if x.count then c
    else
      var count := |Since(c.st.fires, grid, now)|;
      var stage, prev := GetStage(count), StageOf(c.stages, grid);
      var c1 := if stage == prev then c
                else c.(stages := c.stages[grid := stage],
                        log := c.log + [Broadcast(grid, count, stage, prev)]
                            + if stage >= 4 then [Spawn(grid, count)] else []);
      if stage == 0
      then c1.(stages := c1.stages - {grid},
               st := c1.st.(active := if x.srem then c1.st.active else c1.st.active - {grid}))
      else c1
  }

  function SweptAll(c: Core, grids: seq<string>, now: int, x: string -> SweepFaults): Core {
    if grids == [] then c
    else var last := grids[|grids| - 1]; Swept(SweptAll(c, grids[..|grids| - 1], now, x), last, now, x(last))
  }

  function ScannedAll(c: Core, grids: seq<string>, now: int, x: string -> ScanFaults): Core {
    if grids == [] then c
    else var last := grids[|grids| - 1]; Scanned(ScannedAll(c, grids[..|grids| - 1], now, x), last, now, x(last))
  }
}
