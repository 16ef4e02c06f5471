/** The routines as written, statement by statement, against a Redis client whose commands may fail. */
module FireRoutines {
  import opened Options
  import opened Grid
  import opened FireModel

  /** The Redis commands the fire engine issues (server/internal/redis/fire.go). */
  class Redis {
    var fires: map<Fire, int>
    var active: set<string>
    var total: nat
    var daily: multiset<int>
    var ranking: multiset<(int, string)>

    ghost function View(): Store
      reads this
    {
      Store(fires, active, total, daily, ranking)
    }

    constructor ()
      ensures View() == Store(map[], {}, 0, multiset{}, multiset{})
    {
      fires, active, total, daily, ranking := map[], {}, 0, multiset{}, multiset{};
    }

    method ZCount(grid: string, min: int, fail: bool) returns (r: Option<nat>)
      ensures r == if fail then None else Some(|Since(fires, grid, min)|)
      ensures r.Some? ==> r.value == |set f | f in fires && f.grid == grid && fires[f] >= min|
    {
      return if fail then None else Some(|Since(fires, grid, min)|);
    }

    method ZCard(grid: string, fail: bool) returns (r: Option<nat>)
      ensures r == if fail then None else Some(|On(fires, grid)|)
      ensures r.Some? ==> r.value == |set f | f in fires && f.grid == grid|
    {
      return if fail then None else Some(|On(fires, grid)|);
    }

    method ZAdd(grid: string, score: int, member: string, fail: bool) returns (ok: bool)
      modifies this
      ensures ok == !fail
      ensures View() == if fail then old(View()) else old(View()).(fires := old(fires)[Fire(grid, member) := score])
    {
      if fail { return false; }
      fires := fires[Fire(grid, member) := score];
      return true;
    }

    method SAdd(grid: string, fail: bool) returns (ok: bool)
      modifies this
      ensures ok == !fail
      ensures View() == if fail then old(View()) else old(View()).(active := old(active) + {grid})
    {
      if fail { return false; }
      active := active + {grid};
      return true;
    }

    method SRem(grid: string, fail: bool) returns (ok: bool)
      modifies this
      ensures ok == !fail
      ensures View() == if fail then old(View()) else old(View()).(active := old(active) - {grid})
    {
      if fail { return false; }
      active := active - {grid};
      return true;
    }

    method IncrTotal(fail: bool) returns (ok: bool)
      modifies this
      ensures ok == !fail
      ensures View() == if fail then old(View()) else old(View()).(total := old(total) + 1)
    {
      if fail { return false; }
      total := total + 1;
      return true;
    }

    method IncrDaily(day: int, fail: bool) returns (ok: bool)
      modifies this
      ensures ok == !fail
      ensures View() == if fail then old(View()) else old(View()).(daily := old(daily) + multiset{day})
    {
      if fail { return false; }
      daily := daily + multiset{day};
      return true;
    }

    method ZIncrRanking(day: int, member: string, fail: bool) returns (ok: bool)
      modifies this
      ensures ok == !fail
      ensures View() == if fail then old(View()) else old(View()).(ranking := old(ranking) + multiset{(day, member)})
    {
      if fail { return false; }
      ranking := ranking + multiset{(day, member)};
      return true;
    }

    method ZRemRangeByScore(grid: string, max: int, fail: bool) returns (removed: Option<nat>)
      modifies this
      ensures removed == if fail then None else Some(|Until(old(fires), grid, max)|)
      ensures View() == if fail then old(View()) else old(View()).(fires := old(fires) - Until(old(fires), grid, max))
      ensures removed.Some? ==>
                && (forall f :: f in fires <==> f in old(fires) && !(f.grid == grid && old(fires)[f] <= max))
                && removed.value == |set f | f in old(fires) && f.grid == grid && old(fires)[f] <= max|
    {
      if fail { return None; }
      var gone := Until(fires, grid, max);
      fires := fires - gone;
      return Some(|gone|);
    }

    method Del(grid: string, fail: bool) returns (ok: bool)
      modifies this
      ensures ok == !fail
      ensures View() == if fail then old(View()) else old(View()).(fires := old(fires) - On(old(fires), grid))
      ensures ok ==> forall f :: f in fires <==> f in old(fires) && f.grid != grid
    {
      if fail { return false; }
      fires := fires - On(fires, grid);
      return true;
    }
  }

  /** After i hops the walk stands on `grid` with `path` behind it. */
  ghost predicate Underway(fires: map<Fire, int>, r: Request, choices: seq<Choice>, i: nat, grid: string,
                           path: seq<(string, string)>)
    requires i <= |choices|
  {
    var whole, rest := Walk(fires, r.now, r.grid, choices), Walk(fires, r.now, grid, choices[i..]);
    |path| == i && whole.grid == rest.grid && whole.path == path + rest.path
  }

  lemma {:induction false} WalkUnfolds(fires: map<Fire, int>, now: int, choices: seq<Choice>, i: nat, grid: string,
                                       next: string)
    requires i < |choices| && Spreads(fires, now, grid) && NeighborIDs(grid).value[choices[i]] == next
    ensures var rest := Walk(fires, now, next, choices[i + 1..]);
            Walk(fires, now, grid, choices[i..]) == Walked(rest.grid, [(grid, next)] + rest.path)
  {
    assert choices[i..][1..] == choices[i + 1..];
  }

  lemma Appended(whole: seq<(string, string)>, path: seq<(string, string)>, x: (string, string),
                 rest: seq<(string, string)>)
    requires whole == path + ([x] + rest)
    ensures whole == path + [x] + rest
  {
  }

  lemma {:induction false} Hops(fires: map<Fire, int>, r: Request, choices: seq<Choice>, i: nat, grid: string,
                                path: seq<(string, string)>, next: string)
    requires i < |choices| && Underway(fires, r, choices, i, grid, path)
    requires Spreads(fires, r.now, grid) && NeighborIDs(grid).value[choices[i]] == next
    ensures Underway(fires, r, choices, i + 1, next, path + [(grid, next)])
  {
    WalkUnfolds(fires, r.now, choices, i, grid, next);
    Appended(Walk(fires, r.now, r.grid, choices).path, path, (grid, next),
             Walk(fires, r.now, next, choices[i + 1..]).path);
  }

  lemma {:induction false} Stops(fires: map<Fire, int>, r: Request, choices: seq<Choice>, i: nat, grid: string,
                                 path: seq<(string, string)>)
    requires i <= |choices| && Underway(fires, r, choices, i, grid, path)
    requires i == |choices| || !Spreads(fires, r.now, grid)
    ensures Walk(fires, r.now, r.grid, choices) == Walked(grid, path)
  {
  }

  /** The cascade loop; None when a count command fails. */
  method Cascade(redis: Redis, r: Request, choices: seq<Choice>, failAt: Option<nat>) returns (w: Option<Walked>)
    requires |choices| == MAX_HOPS
    ensures var whole := Walk(redis.fires, r.now, r.grid, choices);
            w == if failAt.Some? && failAt.value < MAX_HOPS && failAt.value <= |whole.path| then None else Some(whole)
  {
    var currentGrid := r.grid;
    var spreadPath: seq<(string, string)> := [];
    var i: nat := 0;
    while i < MAX_HOPS
      invariant 0 <= i <= MAX_HOPS
      invariant failAt.Some? ==> i <= failAt.value
      invariant Underway(redis.fires, r, choices, i, currentGrid, spreadPath)
    {
      var count := redis.ZCount(currentGrid, r.now, failAt.Some? && failAt.value == i);
      if count.None? { return None; }
      if count.value < SPREAD_THRESHOLD { break; }
      var neighbors := GetNeighbors8(currentGrid);
      if neighbors.None? { break; }
      var nextGrid := neighbors.value[choices[i]];
      Hops(redis.fires, r, choices, i, currentGrid, spreadPath, nextGrid);
      spreadPath := spreadPath + [(currentGrid, nextGrid)];
      currentGrid := nextGrid;
      i := i + 1;
    }
    Stops(redis.fires, r, choices, i, currentGrid, spreadPath);
    return Some(Walked(currentGrid, spreadPath));
  }

  /** The commands after the loop. */
  method Land(redis: Redis, w: Walked, r: Request, resolve: string -> string, x: Faults)
    returns (reg: Option<Registration>)
    modifies redis
    ensures (redis.View(), reg) == Landed(old(redis.View()), w, r, resolve(w.grid), x)
  {
    var ok := redis.ZAdd(w.grid, r.expireAt, r.id, x.add);
    if !ok { return None; }
    ok := redis.SAdd(w.grid, x.index);
    if !ok { return None; }
    ok := redis.IncrTotal(x.total);
    if !ok { return None; }
    ok := redis.IncrDaily(r.day, x.daily);
    if !ok { return None; }
    ok := redis.ZIncrRanking(r.day, resolve(w.grid), x.ranking);
    var activeCount := redis.ZCount(w.grid, r.now, x.final);
    if activeCount.None? { return None; }
    return Some(Registration(w.grid, activeCount.value, w.path));
  }

  /** registerFireEvent of server/internal/sio/fire_ignite.go; registerFire of
      server/internal/handler/demo_fire.go issues the same commands in the same order. */
  method RegisterFireEvent(redis: Redis, r: Request, choices: seq<Choice>, resolve: string -> string, x: Faults)
    returns (reg: Option<Registration>)
    requires |choices| == MAX_HOPS
    modifies redis
    ensures var w := Walk(old(redis.fires), r.now, r.grid, choices);
            (redis.View(), reg) == Registered(old(redis.View()), r, choices, resolve(w.grid), x)
  {
    var w := Cascade(redis, r, choices, x.countAt);
    if w.None? { return None; }
    reg := Land(redis, w.value, r, resolve, x);
  }

  /** FireProgressionEngine: the stage map, and everything it broadcast; `log` records what the broadcasts are about
      and when the sweep cleared a stage. */
  class ProgressionEngine {
    const redis: Redis
    var gridStages: map<string, int>
    var sent: seq<Emission>
    ghost var log: seq<Entry>

    ghost predicate Valid()
      reads this
    {
      sent == EmittedAll(log)
    }

    ghost function View(cleaned: nat): Core
      reads this, redis
    {
      Core(redis.View(), gridStages, log, cleaned)
    }

    constructor (redis: Redis)
      ensures Valid() && this.redis == redis && gridStages == map[] && log == []
    {
      this.redis := redis;
      gridStages, sent, log := map[], [], [];
    }

    method SetGridStage(grid: string, stage: int)
      modifies this`gridStages
      ensures gridStages == if stage == 0 then old(gridStages) - {grid} else old(gridStages)[grid := stage]
    {
      if stage == 0 {
        gridStages := gridStages - {grid};
      } else {
        gridStages := gridStages[grid := stage];
      }
    }

    /** How the sweep clears a grid's stage: nothing is broadcast. */
    method RemoveStage(grid: string)
      requires Valid()
      modifies this
      ensures Valid() && sent == old(sent)
      ensures gridStages == old(gridStages) - {grid} && log == old(log) + [Reset(grid)]
    {
      EmittedMore(log, Reset(grid));
      SetGridStage(grid, 0);
      log := log + [Reset(grid)];
    }

    method Emit(room: Option<string>, message: Message)
      modifies this`sent
      ensures sent == old(sent) + [Emission(room, message)]
    {
      sent := sent + [Emission(room, message)];
    }

    method BroadcastStageChange(grid: string, count: nat, newStage: int, prevStage: int)
      requires Valid()
      modifies this
      ensures Valid() && log == old(log) + [Broadcast(grid, count, newStage, prevStage)] && unchanged(`gridStages)
    {
      hide GetStage, EmittedAll;
      EmittedMore(log, Broadcast(grid, count, newStage, prevStage));
      var update := FireUpdate(grid, count, GetStage(count));
      Emit(Some(grid), update);
      Emit(None, update);
      var transition := StageTransition(grid, count, prevStage, newStage);
      Emit(Some(grid), transition);
      Emit(None, transition);
      log := log + [Broadcast(grid, count, newStage, prevStage)];
    }

    method BroadcastFirefighterSpawn(grid: string, count: nat)
      requires Valid()
      modifies this
      ensures Valid() && unchanged(`gridStages)
      ensures log == old(log) + if GetStage(count) >= 4 then [Spawn(grid, count)] else []
    {
      hide GetStage, EmittedAll;
      EmittedMore(log, Spawn(grid, count));
      var stage := GetStage(count);
      if stage < 4 { return; }
      var removePerSweep := RemoveCount(stage);
      if removePerSweep < 1 { removePerSweep := 1; }
      var spawn := FirefighterSpawn(grid, stage, removePerSweep);
      Emit(Some(grid), spawn);
      Emit(None, spawn);
      log := log + [Spawn(grid, count)];
    }

    /** scanAndUpdateStages over the grids SMEMBERS returned, in the order it returned them. */
    method ScanAndUpdateStages(gridIDs: seq<string>, now: int, x: string -> ScanFaults)
      requires Valid()
      modifies this, redis
      ensures Valid() && View(0) == ScannedAll(old(View(0)), gridIDs, now, x)
    {
      hide Scanned;
      for i := 0 to |gridIDs|
        invariant Valid() && View(0) == ScannedAll(old(View(0)), gridIDs[..i], now, x)
      {
        assert gridIDs[..i + 1][..i] == gridIDs[..i];
        ScanGrid(gridIDs[i], now, x(gridIDs[i]));
      }
      assert gridIDs[..|gridIDs|] == gridIDs;
    }

    /** The body of the loop. */
    method ScanGrid(grid: string, now: int, x: ScanFaults)
      requires Valid()
      modifies this, redis
      ensures Valid() && View(0) == Scanned(old(View(0)), grid, now, x)
    {
      hide GetStage, EmittedAll, Since;
      var count := redis.ZCount(grid, now, x.count);
      if count.None? { return; }
      var newStage := GetStage(count.value);
      var prevStage := StageOf(gridStages, grid);
      if newStage != prevStage {
        gridStages := gridStages[grid := newStage];
        BroadcastStageChange(grid, count.value, newStage, prevStage);
        if newStage >= 4 {
          BroadcastFirefighterSpawn(grid, count.value);
        }
      }
      if newStage == 0 {
        gridStages := gridStages - {grid};
        var _ := redis.SRem(grid, x.srem);
      }
    }
  }

  /** RunCleanup over the grids SMEMBERS returned; returns how many fires it removed. */
  method RunCleanup(redis: Redis, tracker: ProgressionEngine, gridIDs: seq<string>, now: int, x: string -> SweepFaults)
    returns (cleaned: nat)
    requires tracker.redis == redis && tracker.Valid()
    modifies redis, tracker
    ensures tracker.Valid() && tracker.sent == old(tracker.sent)
    ensures tracker.View(cleaned) == SweptAll(old(tracker.View(0)), gridIDs, now, x)
  {
    cleaned := 0;
    for i := 0 to |gridIDs|
      invariant tracker.Valid() && tracker.sent == old(tracker.sent)
      invariant tracker.View(cleaned) == SweptAll(old(tracker.View(0)), gridIDs[..i], now, x)
    {
      var grid := gridIDs[i];
      assert gridIDs[..i + 1][..i] == gridIDs[..i];
      ghost var before := tracker.View(cleaned);
      var removed := redis.ZRemRangeByScore(grid, now, x(grid).range);
      if removed.None? { continue; }
      if removed.value > 0 {
        cleaned := cleaned + removed.value;
      }
      var remaining := redis.ZCard(grid, x(grid).card);
      if remaining.None? { continue; }
      if remaining.value == 0 {
        assert redis.fires - On(redis.fires, grid) == redis.fires;
        var _ := redis.Del(grid, x(grid).del);
        var _ := redis.SRem(grid, x(grid).srem);
        tracker.RemoveStage(grid);
      }
      assert tracker.View(cleaned) == Swept(before, grid, now, x(grid));
    }
    assert gridIDs[..|gridIDs|] == gridIDs;
  }
}
