/** Whole runs of the fire engine: registrations, sweeps, scans and a clock that never goes back. A registration,
    one grid's sweep and one grid's scan are single steps; a pass reads its clock and its list of grids when it
    begins, so a step may meet a grid that is no longer indexed. */
module FireCycle {
  import opened Options
  import opened FireModel

  datatype World = World(core: Core, clock: nat, scanNow: nat, sweepNow: nat, used: set<string>)

  datatype Action =
    | Tick(ms: nat)
    | Register(grid: string, id: string, expireAt: int, day: int, member: string, choices: seq<Choice>, faults: Faults)
    | BeginScan
    | ScanGrid(grid: string, scanFaults: ScanFaults)
    | BeginSweep
    | SweepGrid(grid: string, sweepFaults: SweepFaults)

  const Start := World(Core(Store(map[], {}, 0, multiset{}, multiset{}), map[], [], 0), 0, 0, 0, {})

  function Seconds(ms: nat): nat { ms / 1000 * 1000 }

  /** Event ids are random and taken to be fresh; a registration that would repeat one is no step. */
  function Step(w: World, a: Action): World {
    match a
    case Tick(ms) => w.(clock := w.clock + ms)
    case Register(grid, id, expireAt, day, member, choices, faults) =>
      if id in w.used || |choices| != MAX_HOPS then w
      else
        var r := Request(grid, id, expireAt, Seconds(w.clock), day);
        w.(core := w.core.(st := Registered(w.core.st, r, choices, member, faults).0), used := w.used + {id})
    case BeginScan => w.(scanNow := w.clock)
    case ScanGrid(grid, x) => w.(core := Scanned(w.core, grid, w.scanNow, x))
    case BeginSweep => w.(sweepNow := Seconds(w.clock))
    case SweepGrid(grid, x) => w.(core := Swept(w.core, grid, w.sweepNow, x))
  }

  function Run(w: World, acts: seq<Action>): World
    decreases acts
  {
    if acts == [] then w else Run(Step(w, acts[0]), acts[1..])
  }

  // ---- what holds in every reachable world ----

  predicate Clocks(w: World) { w.scanNow <= w.clock && w.sweepNow <= w.clock }

  /** Every stored fire that the latest scan could still count lies on an indexed grid. */
  predicate Indexed(w: World) {
    forall f :: f in w.core.st.fires && w.core.st.fires[f] >= w.scanNow ==> f.grid in w.core.st.active
  }

  predicate StagesTracked(w: World) {
    forall g :: g in w.core.stages ==> 1 <= w.core.stages[g] <= 5 && g in w.core.st.active
  }

  predicate IdsUsed(w: World) {
    forall f :: f in w.core.st.fires ==> f.id in w.used
  }

  /** The stage the log leaves a grid at: that of its last broadcast, none after a reset or before the first. */
  function LastStage(log: seq<Entry>, grid: string): int {
    if log == [] then 0
    else
      match log[|log| - 1]
      case Broadcast(g, _, stage, _) => if g == grid then stage else LastStage(log[..|log| - 1], grid)
      case Reset(g) => if g == grid then 0 else LastStage(log[..|log| - 1], grid)
      case Spawn(_, _) => LastStage(log[..|log| - 1], grid)
  }

  /** Each broadcast is a change, from the stage the earlier log leaves the grid at to the stage of its count. */
  predicate Faithful(log: seq<Entry>) {
    forall i :: 0 <= i < |log| && log[i].Broadcast? ==>
                  && log[i].prevStage != log[i].newStage
                  && log[i].prevStage == LastStage(log[..i], log[i].grid)
                  && log[i].newStage == GetStage(log[i].count)
  }

  ghost predicate History(w: World) {
    Faithful(w.core.log) && forall g :: StageOf(w.core.stages, g) == LastStage(w.core.log, g)
  }

  lemma LogAppend(log: seq<Entry>, e: Entry)
    requires Faithful(log)
    requires e.Broadcast?
             ==> e.prevStage != e.newStage && e.prevStage == LastStage(log, e.grid) && e.newStage == GetStage(e.count)
    ensures Faithful(log + [e])
    ensures forall g :: LastStage(log + [e], g) ==
                        if e.Broadcast? && e.grid == g then e.newStage
                        else if e.Reset? && e.grid == g then 0
                        else LastStage(log, g)
  {
    var log' := log + [e];
    assert log'[..|log|] == log;
    forall i | 0 <= i < |log'| && log'[i].Broadcast?
      ensures log'[i].prevStage != log'[i].newStage && log'[i].prevStage == LastStage(log'[..i], log'[i].grid)
      ensures log'[i].newStage == GetStage(log'[i].count)
    {
      if i < |log| {
        assert log'[..i] == log[..i];
      }
    }
  }

  lemma ScanLog(c: Core, grid: string, now: int, x: ScanFaults)
    requires Faithful(c.log) && (forall g :: StageOf(c.stages, g) == LastStage(c.log, g))
    ensures var d := Scanned(c, grid, now, x);
            Faithful(d.log) && forall g :: StageOf(d.stages, g) == LastStage(d.log, g)
  {
    var count := |Since(c.st.fires, grid, now)|;
    var stage, prev := GetStage(count), StageOf(c.stages, grid);
    if !x.count && stage != prev {
      var d := Scanned(c, grid, now, x);
      var told := c.log + [Broadcast(grid, count, stage, prev)];
      LogAppend(c.log, Broadcast(grid, count, stage, prev));
      LogAppend(told, Spawn(grid, count));
      assert told + [] == told;
      assert d.log == told || d.log == told + [Spawn(grid, count)];
      forall g ensures StageOf(d.stages, g) == LastStage(d.log, g) {
        assert StageOf(d.stages, g) == if g == grid then stage else StageOf(c.stages, g);
      }
    }
  }

  lemma StepKeepsHistory(w: World, a: Action)
    requires History(w)
    ensures History(Step(w, a))
  {
    match a
    case ScanGrid(grid, x) => ScanLog(w.core, grid, w.scanNow, x);
    case SweepGrid(grid, _) => LogAppend(w.core.log, Reset(grid));
    case _ =>
  }

  /** A registration whose SADD fails after its ZADD leaves a fire outside the index. */
  predicate IndexSafe(a: Action) { a.Register? ==> !a.faults.index }

  lemma StepKeepsIndex(w: World, a: Action)
    requires Clocks(w) && Indexed(w) && IndexSafe(a)
    ensures Clocks(Step(w, a)) && Indexed(Step(w, a))
  {
    hide Walk, GetStage;
    var w' := Step(w, a);
    if a.ScanGrid? && w'.core.st != w.core.st {
      StageMeaning(|Since(w.core.st.fires, a.grid, w.scanNow)|);
      assert Since(w.core.st.fires, a.grid, w.scanNow) == {};
      forall f | f in w'.core.st.fires && w'.core.st.fires[f] >= w'.scanNow ensures f.grid in w'.core.st.active {
        assert f !in Since(w.core.st.fires, a.grid, w.scanNow);
      }
    } else if a.SweepGrid? && w'.core.st.active != w.core.st.active {
      forall f | f in w'.core.st.fires && w'.core.st.fires[f] >= w'.scanNow ensures f.grid in w'.core.st.active {
        assert f !in On(w'.core.st.fires, a.grid);
      }
    }
  }

  lemma StepKeepsStages(w: World, a: Action)
    requires Indexed(w) && StagesTracked(w) && IndexSafe(a)
    ensures StagesTracked(Step(w, a))
  {
    if a.ScanGrid? && !a.scanFaults.count {
      var live := Since(w.core.st.fires, a.grid, w.scanNow);
      StageMeaning(|live|);
      if live != {} {
        var f :| f in live;
        assert f.grid in w.core.st.active;
      }
    }
  }

  // ---- main results ----

  /** For every run: the index covers every stored fire the latest scan could count, so every fire not yet expired;
      the stage map holds stages 1 to 5 and only indexed grids; and the broadcast history is faithful. */
  lemma {:induction false} EveryRun(w: World, acts: seq<Action>)
    requires Clocks(w) && Indexed(w) && StagesTracked(w) && History(w)
    requires forall a :: a in acts ==> IndexSafe(a)
    ensures var v := Run(w, acts); Clocks(v) && Indexed(v) && StagesTracked(v) && History(v)
    decreases acts
  {
    if acts != [] {
      StepKeepsIndex(w, acts[0]);
      StepKeepsStages(w, acts[0]);
      StepKeepsHistory(w, acts[0]);
      EveryRun(Step(w, acts[0]), acts[1..]);
    }
  }

  /** The history is faithful even when Redis commands fail. */
  lemma {:induction false} HistoryInEveryRun(w: World, acts: seq<Action>)
    requires History(w)
    ensures History(Run(w, acts))
    decreases acts
  {
    if acts != [] {
      StepKeepsHistory(w, acts[0]);
      HistoryInEveryRun(Step(w, acts[0]), acts[1..]);
    }
  }

  lemma FromTheStart(acts: seq<Action>)
    requires forall a :: a in acts ==> IndexSafe(a)
    ensures var v := Run(Start, acts);
            && StagesTracked(v) && History(v)
            && (forall f :: f in v.core.st.fires && v.core.st.fires[f] >= v.clock ==> f.grid in v.core.st.active)
  {
    EveryRun(Start, acts);
  }

  /** Right after a grid's scan its tracked stage is that of the count at the scan's clock. */
  lemma ScanSetsStage(w: World, grid: string, srem: bool)
    ensures StageOf(Step(w, ScanGrid(grid, ScanFaults(false, srem))).core.stages, grid)
            == GetStage(|Since(w.core.st.fires, grid, w.scanNow)|)
  {
  }

  /** Losing only the SADD breaks the index agreement exactly when the landing grid is not indexed yet
      and the fire is one the latest scan could count. */
  lemma LostIndexWrite(w: World, a: Action)
    requires Clocks(w) && Indexed(w) && a.Register? && a.id !in w.used && |a.choices| == MAX_HOPS
    requires a.faults == NO_FAULTS.(index := true)
    requires IdsUsed(w)
    ensures var r := Request(a.grid, a.id, a.expireAt, Seconds(w.clock), a.day);
            Indexed(Step(w, a)) <==> a.expireAt < w.scanNow
                                     || Walk(w.core.st.fires, r.now, a.grid, a.choices).grid in w.core.st.active
  {
    var r := Request(a.grid, a.id, a.expireAt, Seconds(w.clock), a.day);
    var fire := Fire(Walk(w.core.st.fires, r.now, a.grid, a.choices).grid, a.id);
    var w' := Step(w, a);
    assert w'.core.st.fires == w.core.st.fires[fire := a.expireAt];
    assert fire in w'.core.st.fires;
  }

  // ---- firefighters ----

  /** A firefighter is sent right after every change to stage 4 or 5, to that grid, and at no other time. */
  predicate SpawnsMatch(log: seq<Entry>) {
    && (forall i :: 0 <= i < |log| && log[i].Broadcast? && log[i].newStage >= 4 ==>
          i + 1 < |log| && log[i + 1] == Spawn(log[i].grid, log[i].count))
    && (forall i :: 0 <= i < |log| && log[i].Spawn? ==>
          i > 0 && log[i - 1].Broadcast? && log[i - 1].newStage >= 4
          && log[i] == Spawn(log[i - 1].grid, log[i - 1].count))
  }

  lemma ChangeKeepsSpawns(log: seq<Entry>, grid: string, count: nat, stage: int, prev: int)
    requires SpawnsMatch(log)
    ensures SpawnsMatch(log + [Broadcast(grid, count, stage, prev)] + if stage >= 4 then [Spawn(grid, count)] else [])
  {
    var log' := log + [Broadcast(grid, count, stage, prev)] + if stage >= 4 then [Spawn(grid, count)] else [];
    assert forall i :: 0 <= i < |log| ==> log'[i] == log[i];
    assert log'[|log|] == Broadcast(grid, count, stage, prev);
  }

  lemma ResetKeepsSpawns(log: seq<Entry>, grid: string)
    requires SpawnsMatch(log)
    ensures SpawnsMatch(log + [Reset(grid)])
  {
  }

  lemma StepKeepsSpawns(w: World, a: Action)
    requires SpawnsMatch(w.core.log)
    ensures SpawnsMatch(Step(w, a).core.log)
  {
    hide SpawnsMatch, GetStage, Registered;
    match a
    case ScanGrid(grid, _) =>
      var count := |Since(w.core.st.fires, grid, w.scanNow)|;
      ChangeKeepsSpawns(w.core.log, grid, count, GetStage(count), StageOf(w.core.stages, grid));
    case SweepGrid(grid, _) => ResetKeepsSpawns(w.core.log, grid);
    case _ =>
  }

  lemma {:induction false} SpawnsInEveryRun(w: World, acts: seq<Action>)
    requires SpawnsMatch(w.core.log)
    ensures SpawnsMatch(Run(w, acts).core.log)
    decreases acts
  {
    if acts != [] {
      StepKeepsSpawns(w, acts[0]);
      SpawnsInEveryRun(Step(w, acts[0]), acts[1..]);
    }
  }

  /** Time passes in milliseconds; a scan reads it as it is and a sweep in whole seconds, once per pass. */
  lemma PassesReadTheClock(w: World, ms: nat)
    ensures Step(w, Tick(ms)) == w.(clock := w.clock + ms)
    ensures Step(w, BeginScan) == w.(scanNow := w.clock)
    ensures Step(w, BeginSweep) == w.(sweepNow := w.clock - w.clock % 1000)
  {
  }

  // ---- sums over the index ----

  function SumLive(fires: map<Fire, int>, grids: seq<string>, now: int): nat {
    if grids == [] then 0 else |Since(fires, grids[0], now)| + SumLive(fires, grids[1..], now)
  }

  lemma {:induction false} SumLiveCounts(fires: map<Fire, int>, grids: seq<string>, now: int)
    requires Distinct(grids)
    ensures SumLive(fires, grids, now) == |set f | f in fires && f.grid in grids && fires[f] >= now|
  {
    var all := set f | f in fires && f.grid in grids && fires[f] >= now;
    if grids != [] {
      SumLiveCounts(fires, grids[1..], now);
      var rest := set f | f in fires && f.grid in grids[1..] && fires[f] >= now;
      assert all == Since(fires, grids[0], now) + rest;
      assert Since(fires, grids[0], now) !! rest;
    }
  }

  /** Adding up ZCOUNT over the index, in any order, counts every unexpired fire in the store exactly once. */
  lemma IndexSumIsTotal(acts: seq<Action>, grids: seq<string>)
    requires forall a :: a in acts ==> IndexSafe(a)
    requires Distinct(grids) && (set g | g in grids) == Run(Start, acts).core.st.active
    ensures var v := Run(Start, acts);
            SumLive(v.core.st.fires, grids, v.clock) == |set f | f in v.core.st.fires && v.core.st.fires[f] >= v.clock|
  {
    FromTheStart(acts);
    var v := Run(Start, acts);
    SumLiveCounts(v.core.st.fires, grids, v.clock);
    forall f | f in v.core.st.fires && v.core.st.fires[f] >= v.clock ensures f.grid in grids {
      assert f.grid in (set g | g in grids);
    }
    assert (set f | f in v.core.st.fires && f.grid in grids && v.core.st.fires[f] >= v.clock)
        == (set f | f in v.core.st.fires && v.core.st.fires[f] >= v.clock);
  }

  // ---- conservation ----

  /** Nothing is counted that was not stored, and everything stored or swept was counted unless a command failed. */
  predicate Conserved(w: World) {
    var st := w.core.st;
    |st.ranking| <= |st.daily| <= st.total <= |st.fires| + w.core.cleaned
  }

  predicate Exact(w: World) {
    var st := w.core.st;
    |st.ranking| == |st.daily| == st.total == |st.fires| + w.core.cleaned
  }

  predicate Counted(a: Action) {
    a.Register? ==> a.faults.(final := false) == NO_FAULTS
  }

  lemma MapMinus(m: map<Fire, int>, s: set<Fire>)
    requires s <= m.Keys
    ensures |m - s| == |m| - |s|
  {
    assert (m - s).Keys == m.Keys - s;
    assert |m| == |m.Keys| && |m - s| == |(m - s).Keys|;
  }

  lemma SweepConserves(c: Core, grid: string, now: int, x: SweepFaults)
    ensures var d := Swept(c, grid, now, x);
            && |d.st.fires| + d.cleaned == |c.st.fires| + c.cleaned && d.st.total == c.st.total
            && d.st.fires.Keys <= c.st.fires.Keys
            && d.st.ranking == c.st.ranking && d.st.daily == c.st.daily
  {
    MapMinus(c.st.fires, Until(c.st.fires, grid, now));
  }

  lemma LandingCounts(st: Store, w: Walked, r: Request, member: string, x: Faults)
    requires Fire(w.grid, r.id) !in st.fires
    ensures var d := Landed(st, w, r, member, x).0;
            && |d.fires| == |st.fires| + (if x.add then 0 else 1)
            && d.total == st.total + (if x.add || x.index || x.total then 0 else 1)
            && |d.daily| == |st.daily| + (if x.add || x.index || x.total || x.daily then 0 else 1)
            && |d.ranking| == |st.ranking| + (if x.add || x.index || x.total || x.daily || x.ranking then 0 else 1)
  {
    assert |st.fires[Fire(w.grid, r.id) := r.expireAt]| == |st.fires| + 1;
    assert |st.daily + multiset{r.day}| == |st.daily| + 1;
    assert |st.ranking + multiset{(r.day, member)}| == |st.ranking| + 1;
  }

  lemma RegisterConserves(w: World, a: Action)
    requires IdsUsed(w) && Conserved(w) && a.Register?
    ensures IdsUsed(Step(w, a)) && Conserved(Step(w, a))
    ensures Exact(w) && Counted(a) ==> Exact(Step(w, a))
  {
    if a.id !in w.used && |a.choices| == MAX_HOPS {
      var st := w.core.st;
      var r := Request(a.grid, a.id, a.expireAt, Seconds(w.clock), a.day);
      var walked := Walk(st.fires, r.now, a.grid, a.choices);
      assert Fire(walked.grid, a.id) !in st.fires;
      LandingCounts(st, walked, r, a.member, a.faults);
    }
  }

  lemma StepConserves(w: World, a: Action)
    requires IdsUsed(w) && Conserved(w)
    ensures IdsUsed(Step(w, a)) && Conserved(Step(w, a))
    ensures Exact(w) && Counted(a) ==> Exact(Step(w, a))
  {
    hide Registered, Swept, Scanned;
    match a
    case Register(_, _, _, _, _, _, _) => RegisterConserves(w, a);
    case SweepGrid(grid, x) => SweepConserves(w.core, grid, w.sweepNow, x);
    case ScanGrid(grid, x) => ScanConserves(w.core, grid, w.scanNow, x);
    case _ =>
  }

  lemma ScanConserves(c: Core, grid: string, now: int, x: ScanFaults)
    ensures var d := Scanned(c, grid, now, x); d.cleaned == c.cleaned && d.st == c.st.(active := d.st.active)
  {
    hide GetStage;
  }

  /** For every run: stats:total_fires equals the fires still stored plus those swept, and the sum of all daily
      ranking scores, when no registration command failed; with failures each of these falls short only downwards. */
  lemma {:induction false} ConservationInEveryRun(w: World, acts: seq<Action>)
    requires IdsUsed(w) && Conserved(w)
    ensures Conserved(Run(w, acts))
    ensures Exact(w) && (forall a :: a in acts ==> Counted(a)) ==> Exact(Run(w, acts))
    decreases acts
  {
    if acts != [] {
      StepConserves(w, acts[0]);
      ConservationInEveryRun(Step(w, acts[0]), acts[1..]);
    }
  }

  // ---- what clients last heard ----

  /** The stage clients were last told for a grid; the sweep's reset tells them nothing. */
  function Heard(log: seq<Entry>, grid: string): int {
    if log == [] then 0
    else
      var e := log[|log| - 1];
      if e.Broadcast? && e.grid == grid then e.newStage else Heard(log[..|log| - 1], grid)
  }

  lemma {:induction false} HeardIsLastTold(log: seq<Entry>, grid: string, i: nat)
    requires i < |log| && log[i].Broadcast? && log[i].grid == grid
    requires forall j :: i < j < |log| && log[j].Broadcast? ==> log[j].grid != grid
    ensures Heard(log, grid) == log[i].newStage
    decreases log
  {
    if i < |log| - 1 {
      HeardIsLastTold(log[..|log| - 1], grid, i);
    }
  }

  lemma {:induction false} NothingHeard(log: seq<Entry>, grid: string)
    requires forall i :: 0 <= i < |log| && log[i].Broadcast? ==> log[i].grid != grid
    ensures Heard(log, grid) == 0
    decreases log
  {
    if log != [] {
      NothingHeard(log[..|log| - 1], grid);
    }
  }

  /** When clients and the stage map agree about a grid, its sweep keeps them agreeing exactly when a fire is left
      on it or its stage was none already: otherwise the fire went out without a broadcast. */
  lemma SweepIsSilent(w: World, grid: string)
    requires History(w) && Heard(w.core.log, grid) == StageOf(w.core.stages, grid)
    ensures var v := Step(w, SweepGrid(grid, SweepFaults(false, false, false, false)));
            Heard(v.core.log, grid) == StageOf(v.core.stages, grid)
            <==> On(v.core.st.fires, grid) != {} || StageOf(w.core.stages, grid) == 0
  {
    var log' := w.core.log + [Reset(grid)];
    assert log'[..|w.core.log|] == w.core.log;
  }

  // ---- whole passes ----

  const NO_SWEEP_FAULTS: string -> SweepFaults := _ => SweepFaults(false, false, false, false)
  const NO_SCAN_FAULTS: string -> ScanFaults := _ => ScanFaults(false, false)

  function Expired(fires: map<Fire, int>, grids: seq<string>, now: int): set<Fire> {
    set f | f in fires && f.grid in grids && fires[f] <= now
  }

  function Emptied(fires: map<Fire, int>, grids: seq<string>, now: int): set<string> {
    set g | g in grids && forall f :: f in fires && f.grid == g ==> fires[f] <= now
  }

  lemma ExpiredStep(fires: map<Fire, int>, before: seq<string>, g: string, now: int)
    requires g !in before
    ensures Until(fires - Expired(fires, before, now), g, now) == Until(fires, g, now)
    ensures Expired(fires, before + [g], now) == Expired(fires, before, now) + Until(fires, g, now)
    ensures Expired(fires, before, now) !! Until(fires, g, now)
  {
  }

  lemma EmptiedStep(fires: map<Fire, int>, before: seq<string>, g: string, now: int)
    ensures var left := On(fires - Expired(fires, before + [g], now), g);
            Emptied(fires, before + [g], now) == Emptied(fires, before, now) + if left == {} then {g} else {}
  {
    var left := On(fires - Expired(fires, before + [g], now), g);
    forall f | f in fires && f.grid == g ensures f in left <==> fires[f] > now {
      assert f.grid in before + [g];
    }
    if left != {} {
      var f :| f in left;
      assert f in fires && f.grid == g && fires[f] > now;
    }
  }

  lemma MinusTwice<K, V>(m: map<K, V>, a: set<K>, b: set<K>)
    ensures m - a - b == m - (a + b)
  {
  }

  lemma DistinctPrefix(grids: seq<string>)
    requires grids != [] && Distinct(grids)
    ensures Distinct(grids[..|grids| - 1]) && grids[|grids| - 1] !in grids[..|grids| - 1]
  {
  }

  lemma NothingSwept(c: Core, now: int)
    ensures Expired(c.st.fires, [], now) == {} && Emptied(c.st.fires, [], now) == {}
    ensures c.st.fires - {} == c.st.fires && c.stages - {} == c.stages && c.st.active - {} == c.st.active
  {
  }

  lemma SweptFields(c: Core, g: string, now: int)
    ensures var d := Swept(c, g, now, SweepFaults(false, false, false, false));
            var fires := c.st.fires - Until(c.st.fires, g, now);
            var gone := if On(fires, g) == {} then {g} else {};
            && d.st == c.st.(fires := fires, active := c.st.active - gone)
            && d.stages == c.stages - gone
            && d.cleaned == c.cleaned + |Until(c.st.fires, g, now)|
  {
  }

  /** A sweep over any list of grids, in any order: exactly the expired fires of those grids go and are counted once
      each, exactly the grids left empty leave the index and the stage map, and the counters stay. */
  lemma {:induction false} SweepPass(c: Core, grids: seq<string>, now: int)
    requires Distinct(grids)
    ensures var d := SweptAll(c, grids, now, NO_SWEEP_FAULTS);
            var gone := Emptied(c.st.fires, grids, now);
            && d.st == c.st.(fires := c.st.fires - Expired(c.st.fires, grids, now), active := c.st.active - gone)
            && d.stages == c.stages - gone
            && d.cleaned == c.cleaned + |Expired(c.st.fires, grids, now)|
  {
    hide On, Until, Swept, Distinct, Expired, Emptied;
    if grids == [] {
      NothingSwept(c, now);
    } else {
      DistinctPrefix(grids);
      var n := |grids| - 1;
      var g, before := grids[n], grids[..n];
      assert grids == before + [g];
      SweepPass(c, before, now);
      var fires := c.st.fires;
      var gone, more := Emptied(fires, before, now), On(fires - Expired(fires, grids, now), g);
      ExpiredStep(fires, before, g, now);
      EmptiedStep(fires, before, g, now);
      MinusTwice(fires, Expired(fires, before, now), Until(fires, g, now));
      MinusTwice(c.stages, gone, if more == {} then {g} else {});
      SweptFields(SweptAll(c, before, now, NO_SWEEP_FAULTS), g, now);
    }
  }

  /** The sweep of one grid under any failures: members with a score up to now, the end included, go and are counted;
      a grid seen to be left empty leaves the stage map and, unless that command fails, the index. */
  lemma SweptExactly(c: Core, grid: string, now: int, x: SweepFaults)
    ensures var d := Swept(c, grid, now, x);
            var gone := set f | f in c.st.fires && f.grid == grid && c.st.fires[f] <= now;
            var left := exists f :: f in c.st.fires && f.grid == grid && c.st.fires[f] > now;
            && (x.range ==> d == c)
            && (!x.range ==>
                  && d.st.fires == c.st.fires - gone && d.cleaned == c.cleaned + |gone|
                  && (if x.card || left then d.stages == c.stages && d.log == c.log && d.st.active == c.st.active
                      else && d.stages == c.stages - {grid} && d.log == c.log + [Reset(grid)]
                           && d.st.active == if x.srem then c.st.active else c.st.active - {grid})
                  && (d.st.total, d.st.daily, d.st.ranking) == (c.st.total, c.st.daily, c.st.ranking))
  {
    var fires := c.st.fires - Until(c.st.fires, grid, now);
    assert Until(c.st.fires, grid, now) == set f | f in c.st.fires && f.grid == grid && c.st.fires[f] <= now;
    assert On(fires, grid) != {} <==> exists f :: f in c.st.fires && f.grid == grid && c.st.fires[f] > now by {
      if f :| f in c.st.fires && f.grid == grid && c.st.fires[f] > now {
        assert f in On(fires, grid);
      }
      if On(fires, grid) != {} {
        var f :| f in On(fires, grid);
        assert c.st.fires[f] > now;
      }
    }
  }

  function Quenched(fires: map<Fire, int>, grids: seq<string>, now: int): set<string> {
    set g | g in grids && |Since(fires, g, now)| == 0
  }

  /** The scan of one grid under any failures: a changed stage is stored and told with its count, and a firefighter
      follows from stage 4 on; a grid without an active fire is no longer tracked and, unless that command fails,
      leaves the index. No fire moves. */
  lemma ScannedExactly(c: Core, grid: string, now: int, x: ScanFaults)
    ensures var d := Scanned(c, grid, now, x);
            var count := |set f | f in c.st.fires && f.grid == grid && c.st.fires[f] >= now|;
            var stage, prev := GetStage(count), if grid in c.stages then c.stages[grid] else 0;
            && (x.count ==> d == c)
            && (!x.count ==>
                  && d.cleaned == c.cleaned && d.st == c.st.(active := d.st.active)
                  && d.st.active == (if count == 0 && !x.srem then c.st.active - {grid} else c.st.active)
                  && (count == 0 ==> d.stages == c.stages - {grid})
                  && (count > 0 && stage != prev ==> d.stages == c.stages[grid := stage])
                  && (count > 0 && stage == prev ==> d.stages == c.stages)
                  && d.log == c.log + (if stage == prev then [] else [Broadcast(grid, count, stage, prev)])
                              + (if stage != prev && count >= 120 then [Spawn(grid, count)] else []))
  {
    hide GetStage;
    assert Since(c.st.fires, grid, now) == set f | f in c.st.fires && f.grid == grid && c.st.fires[f] >= now;
    StageMeaning(|Since(c.st.fires, grid, now)|);
    assert c.log + [] + [] == c.log && forall e: Entry :: c.log + [e] + [] == c.log + [e];
  }

  /** What goes over the wire, to the grid's room and then to everybody: the new count and stage and the transition
      for a change, and a firefighter that removes two fires per sweep at stage 4 and three at stage 5. */
  lemma EmissionsExactly(grid: string, count: nat, newStage: int, prevStage: int)
    ensures Emitted(Broadcast(grid, count, newStage, prevStage)) ==
            [Emission(Some(grid), FireUpdate(grid, count, GetStage(count))),
             Emission(None, FireUpdate(grid, count, GetStage(count))),
             Emission(Some(grid), StageTransition(grid, count, prevStage, newStage)),
             Emission(None, StageTransition(grid, count, prevStage, newStage))]
    ensures count >= 280 ==> Emitted(Spawn(grid, count)) == [Emission(Some(grid), FirefighterSpawn(grid, 5, 3)),
                                                             Emission(None, FirefighterSpawn(grid, 5, 3))]
    ensures 120 <= count < 280 ==> Emitted(Spawn(grid, count)) == [Emission(Some(grid), FirefighterSpawn(grid, 4, 2)),
                                                                   Emission(None, FirefighterSpawn(grid, 4, 2))]
    ensures Emitted(Reset(grid)) == []
  {
    hide GetStage;
    StageMeaning(count);
  }

  /** A scan over any list of grids, in any order: no fire moves, exactly the grids without an active fire leave the
      index, and every scanned grid is tracked at the stage of its own count. */
  lemma {:induction false} ScanPass(c: Core, grids: seq<string>, now: int)
    ensures var d := ScannedAll(c, grids, now, NO_SCAN_FAULTS);
            && d.st == c.st.(active := c.st.active - Quenched(c.st.fires, grids, now))
            && d.cleaned == c.cleaned
            && forall g :: StageOf(d.stages, g) ==
                           if g in grids then GetStage(|Since(c.st.fires, g, now)|) else StageOf(c.stages, g)
  {
    if grids != [] {
      var n := |grids| - 1;
      var g, before := grids[n], grids[..n];
      ScanPass(c, before, now);
      assert forall h :: h in grids <==> h in before || h == g;
      StageMeaning(|Since(c.st.fires, g, now)|);
      assert Quenched(c.st.fires, grids, now)
          == Quenched(c.st.fires, before, now) + if |Since(c.st.fires, g, now)| == 0 then {g} else {};
    }
  }
}
