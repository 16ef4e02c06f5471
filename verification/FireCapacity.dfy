/** Registrations, the sweep and the scan at the granularity of single Redis commands, interleaved freely, with at
    most `limit` registrations in flight, one sweep, one scan and a clock that never goes back
    (server/internal/sio/fire_ignite.go:267-301, server/internal/engine/cleanup.go:179-204,
    server/internal/engine/fire_progression.go:195-227). */
module FireCapacity {
  import opened Options
  import opened Grid
  import opened FireModel
  import opened FireWalk
  import opened GoText

  /** Why a walk ended: its last count found room, all hops were used, or the grid id does not parse. */
  datatype Reason = HasRoom | HopsUsed | Unparsable

  datatype Phase = Counting(hops: nat) | Adding(why: Reason) | Indexing

  datatype Proc = Proc(grid: string, id: string, expireAt: int, now: nat, phase: Phase)

  datatype State = State(
    clock: nat,
    fires: map<Fire, int>,
    active: set<string>,
    procs: map<nat, Proc>,
    landedBy: map<Fire, Reason>,    // how the registration that last added a fire ended its walk
    sweeping: Option<string>,       // the sweep read ZCARD 0 for this grid and has not yet issued DEL
    unlisting: Option<string>,      // the sweep issued DEL for this grid and has not yet issued SREM
    dropping: Option<string>)       // the scan read ZCOUNT 0 for this grid and has not yet issued SREM

  datatype Action =
    | Tick(ms: nat)
    | Begin(pid: nat, grid: string, id: string, expireAt: int)
    | Count(pid: nat, choice: Choice)   // ZCOUNT, and the hop it leads to
    | Add(pid: nat)                     // ZADD
    | Index(pid: nat)                   // SADD; the counters that follow are not part of this model
    | Fail(pid: nat)                    // any of its commands fails
    | SweepRange(grid: string, max: nat)
    | SweepCard(grid: string)
    | SweepDel(ok: bool)                // a failed command is logged and the next one issued
    | SweepUnlist(ok: bool)             // SREM
    | ScanCount(grid: string, min: nat)
    | ScanDrop(ok: bool)                // SREM

  function Start(): State { State(0, map[], {}, map[], map[], None, None, None) }

  /** What the cascade does with one count. */
  function Counted(fires: map<Fire, int>, p: Proc, choice: Choice): Proc
    requires p.phase.Counting?
  {
    if |Since(fires, p.grid, p.now)| < SPREAD_THRESHOLD then p.(phase := Adding(HasRoom))
    else
      match NeighborIDs(p.grid)
      case None => p.(phase := Adding(Unparsable))
      case Some(ids) =>
        p.(grid := ids[choice],
           phase := if p.phase.hops + 1 == MAX_HOPS then Adding(HopsUsed) else Counting(p.phase.hops + 1))
  }

  function Step(limit: nat, s: State, a: Action): State {
    match a
    case Tick(ms) => s.(clock := s.clock + ms)
    case Begin(pid, grid, id, expireAt) =>
      if pid in s.procs || |s.procs| >= limit then s
      else s.(procs := s.procs[pid := Proc(grid, id, expireAt, s.clock / 1000 * 1000, Counting(0))])
    case Count(pid, choice) =>
      if pid in s.procs && s.procs[pid].phase.Counting?
      then s.(procs := s.procs[pid := Counted(s.fires, s.procs[pid], choice)])
      else s
    case Add(pid) =>
      if pid in s.procs && s.procs[pid].phase.Adding? then
        var p := s.procs[pid];
        var fire := Fire(p.grid, p.id);
        s.(fires := s.fires[fire := p.expireAt], procs := s.procs[pid := p.(phase := Indexing)],
           landedBy := s.landedBy[fire := p.phase.why])
      else s
    case Index(pid) =>
      if pid in s.procs && s.procs[pid].phase.Indexing?
      then s.(active := s.active + {s.procs[pid].grid}, procs := s.procs - {pid})
      else s
    case Fail(pid) => s.(procs := s.procs - {pid})
    case SweepRange(grid, max) =>
      if max <= s.clock && Resting(s) then s.(fires := s.fires - Until(s.fires, grid, max)) else s
    case SweepCard(grid) => if Resting(s) && On(s.fires, grid) == {} then s.(sweeping := Some(grid)) else s
    case SweepDel(ok) =>
      (match s.sweeping
       case None => s
       case Some(g) =>
         s.(fires := if ok then s.fires - On(s.fires, g) else s.fires, sweeping := None, unlisting := Some(g)))
    case SweepUnlist(ok) =>
      (match s.unlisting
       case None => s
       case Some(g) => s.(active := if ok then s.active - {g} else s.active, unlisting := None))
    case ScanCount(grid, min) =>
      if min <= s.clock && s.dropping.None? && Since(s.fires, grid, min) == {} then s.(dropping := Some(grid)) else s
    case ScanDrop(ok) =>
      (match s.dropping
       case None => s
       case Some(g) => s.(active := if ok then s.active - {g} else s.active, dropping := None))
  }

  /** The sweep is between two grids: it goes through its commands for one grid before it turns to the next. */
  predicate Resting(s: State) { s.sweeping.None? && s.unlisting.None? }

  function Run(limit: nat, s: State, acts: seq<Action>): State
    decreases acts
  {
    if acts == [] then s else Run(limit, Step(limit, s, acts[0]), acts[1..])
  }

  // ---- the capacity bound ----

  /** Active fires of a grid whose registration found room there. */
  function Roomy(s: State, grid: string): set<Fire> {
    set f | f in Since(s.fires, grid, s.clock) && f in s.landedBy && s.landedBy[f] == HasRoom
  }

  /** Registrations that found room on a grid and have not yet added their fire. */
  function Pending(s: State, grid: string): set<nat> {
    set pid | pid in s.procs && s.procs[pid].grid == grid && s.procs[pid].phase == Adding(HasRoom)
  }

  predicate Timely(s: State) {
    forall pid :: pid in s.procs ==> s.procs[pid].now <= s.clock
  }

  ghost predicate Bounded(limit: nat, s: State) {
    |s.procs| <= limit && Timely(s) && forall g :: |Roomy(s, g)| + |Pending(s, g)| <= SPREAD_THRESHOLD - 1 + limit
  }

  lemma SubsetSize<T>(a: set<T>, b: set<T>)
    requires a <= b
    ensures |a| <= |b|
  {
    assert b == a + (b - a);
  }

  /** Steps that start no add can only shrink both counts. */
  lemma Shrinks(limit: nat, s: State, t: State)
    requires Bounded(limit, s) && t.procs.Keys <= s.procs.Keys && s.clock <= t.clock
    requires forall f :: f in t.fires ==> f in s.fires && t.fires[f] == s.fires[f]
    requires t.landedBy == s.landedBy && forall pid :: pid in t.procs ==> t.procs[pid] == s.procs[pid]
    ensures Bounded(limit, t)
  {
    SubsetSize(t.procs.Keys, s.procs.Keys);
    assert |t.procs| == |t.procs.Keys| && |s.procs| == |s.procs.Keys|;
    forall g ensures |Roomy(t, g)| + |Pending(t, g)| <= SPREAD_THRESHOLD - 1 + limit {
      SubsetSize(Roomy(t, g), Roomy(s, g));
      SubsetSize(Pending(t, g), Pending(s, g));
    }
  }

  lemma KeysSize<V>(m: map<nat, V>, pid: nat, v: V)
    requires pid in m
    ensures |m[pid := v]| == |m|
  {
    assert m[pid := v].Keys == m.Keys;
    assert |m[pid := v]| == |m[pid := v].Keys| && |m| == |m.Keys|;
  }

  lemma CountKeepsBound(limit: nat, s: State, pid: nat, choice: Choice)
    requires Bounded(limit, s)
    ensures Bounded(limit, Step(limit, s, Count(pid, choice)))
  {
    var t := Step(limit, s, Count(pid, choice));
    if t != s {
      var p := s.procs[pid];
      KeysSize(s.procs, pid, t.procs[pid]);
      forall g ensures |Roomy(t, g)| + |Pending(t, g)| <= SPREAD_THRESHOLD - 1 + limit {
        assert Roomy(t, g) == Roomy(s, g);
        if t.procs[pid].phase == Adding(HasRoom) && g == p.grid {
          SubsetSize(Roomy(s, g), Since(s.fires, g, p.now));
          SubsetSize(Pending(t, g), t.procs.Keys);
          assert |t.procs| == |t.procs.Keys|;
        } else {
          assert Pending(t, g) == Pending(s, g);
        }
      }
    }
  }

  lemma AddedRoomy(limit: nat, s: State, pid: nat, g: string)
    requires pid in s.procs && s.procs[pid].phase.Adding?
    ensures Roomy(Step(limit, s, Add(pid)), g)
            <= Roomy(s, g) + if pid in Pending(s, g) then {Fire(g, s.procs[pid].id)} else {}
  {
  }

  lemma AddedPending(limit: nat, s: State, pid: nat, g: string)
    requires pid in s.procs && s.procs[pid].phase.Adding?
    ensures Pending(Step(limit, s, Add(pid)), g) == Pending(s, g) - {pid}
  {
  }

  lemma AddKeepsBoundAt(limit: nat, s: State, pid: nat, g: string)
    requires pid in s.procs && s.procs[pid].phase.Adding?
    ensures var t := Step(limit, s, Add(pid));
            |Roomy(t, g)| + |Pending(t, g)| <= |Roomy(s, g)| + |Pending(s, g)|
  {
    hide Step, Roomy, Pending;
    AddedRoomy(limit, s, pid, g);
    AddedPending(limit, s, pid, g);
    var t := Step(limit, s, Add(pid));
    SubsetSize(Roomy(t, g), Roomy(s, g) + if pid in Pending(s, g) then {Fire(g, s.procs[pid].id)} else {});
  }

  lemma AddKeepsBound(limit: nat, s: State, pid: nat)
    requires Bounded(limit, s)
    ensures Bounded(limit, Step(limit, s, Add(pid)))
  {
    hide Roomy, Pending;
    var t := Step(limit, s, Add(pid));
    if t != s {
      KeysSize(s.procs, pid, t.procs[pid]);
      forall g ensures |Roomy(t, g)| + |Pending(t, g)| <= SPREAD_THRESHOLD - 1 + limit {
        AddKeepsBoundAt(limit, s, pid, g);
      }
    }
  }

  lemma BeginKeepsBound(limit: nat, s: State, a: Action)
    requires Bounded(limit, s) && a.Begin?
    ensures Bounded(limit, Step(limit, s, a))
  {
    var t := Step(limit, s, a);
    if t != s {
      assert |t.procs| == |s.procs| + 1;
      forall g ensures |Roomy(t, g)| + |Pending(t, g)| <= SPREAD_THRESHOLD - 1 + limit {
        assert Roomy(t, g) == Roomy(s, g) && Pending(t, g) == Pending(s, g);
      }
    }
  }

  predicate StartsNothing(a: Action) { !a.Begin? && !a.Count? && !a.Add? }

  lemma ShrinkingStep(limit: nat, s: State, a: Action)
    requires StartsNothing(a)
    ensures var t := Step(limit, s, a);
            && t.procs.Keys <= s.procs.Keys && s.clock <= t.clock && t.landedBy == s.landedBy
            && (forall f :: f in t.fires ==> f in s.fires && t.fires[f] == s.fires[f])
            && (forall pid :: pid in t.procs ==> t.procs[pid] == s.procs[pid])
  {
  }

  lemma StepKeepsBound(limit: nat, s: State, a: Action)
    requires Bounded(limit, s)
    ensures Bounded(limit, Step(limit, s, a))
  {
    if StartsNothing(a) {
      ShrinkingStep(limit, s, a);
      Shrinks(limit, s, Step(limit, s, a));
    } else if a.Begin? {
      BeginKeepsBound(limit, s, a);
    } else if a.Count? {
      CountKeepsBound(limit, s, a.pid, a.choice);
    } else {
      AddKeepsBound(limit, s, a.pid);
    }
  }

  lemma {:induction false} BoundInEveryRun(limit: nat, s: State, acts: seq<Action>)
    requires Bounded(limit, s)
    ensures Bounded(limit, Run(limit, s, acts))
    decreases acts
  {
    if acts != [] {
      StepKeepsBound(limit, s, acts[0]);
      BoundInEveryRun(limit, Step(limit, s, acts[0]), acts[1..]);
    }
  }

  // ---- which fires are beyond it ----

  /** A walk that stands on a grid of this set moves within it and does not end unparsable. */
  ghost predicate Closed(good: iset<string>) {
    forall fires, p: Proc, choice :: p.phase.Counting? && p.grid in good ==>
      var q := Counted(fires, p, choice);
      q.grid in good && q.phase != Adding(Unparsable)
  }

  ghost predicate Within(s: State, good: iset<string>) {
    && (forall pid :: pid in s.procs ==> s.procs[pid].grid in good && s.procs[pid].phase != Adding(Unparsable))
    && (forall f :: f in s.fires ==> f in s.landedBy)
    && (forall f :: f in s.landedBy ==> s.landedBy[f] != Unparsable)
  }

  lemma StepStaysWithin(limit: nat, s: State, a: Action, good: iset<string>)
    requires Closed(good) && Within(s, good) && (a.Begin? ==> a.grid in good)
    ensures Within(Step(limit, s, a), good)
  {
    if StartsNothing(a) {
      ShrinkingStep(limit, s, a);
    }
  }

  lemma {:induction false} StaysWithin(limit: nat, s: State, acts: seq<Action>, good: iset<string>)
    requires Closed(good) && Within(s, good) && forall a :: a in acts && a.Begin? ==> a.grid in good
    ensures Within(Run(limit, s, acts), good)
    decreases acts
  {
    if acts != [] {
      StepStaysWithin(limit, s, acts[0], good);
      StaysWithin(limit, Step(limit, s, acts[0]), acts[1..], good);
    }
  }

  lemma HopParses(fires: map<Fire, int>, p: Proc, choice: Choice)
    requires p.phase.Counting? && ParseCell(p.grid).Some?
    ensures ParseCell(Counted(fires, p, choice).grid).Some? && Counted(fires, p, choice).phase != Adding(Unparsable)
  {
    if |Since(fires, p.grid, p.now)| >= SPREAD_THRESHOLD {
      var ids := NeighborIDs(p.grid).value;
      var c, i := NeighborIsFormatted(p.grid, ids[choice]);
      var a, b := NeighborIsShift(c, i);
      ParseFormat(Shift(c, a, b));
    }
  }

  lemma ParsableIsClosed() returns (good: iset<string>)
    ensures Closed(good) && forall id :: id in good <==> ParseCell(id).Some?
  {
    good := iset id | ParseCell(id).Some?;
    forall fires, p: Proc, choice | p.phase.Counting? && p.grid in good
      ensures Counted(fires, p, choice).grid in good && Counted(fires, p, choice).phase != Adding(Unparsable)
    {
      HopParses(fires, p, choice);
    }
  }

  /** The active fires of a grid that landed there after using all eight hops. */
  function Overflow(s: State, grid: string): set<Fire> {
    set f | f in Since(s.fires, grid, s.clock) && f in s.landedBy && s.landedBy[f] == HopsUsed
  }

  lemma LandedOneWay(s: State, grid: string, good: iset<string>)
    requires Within(s, good)
    ensures |Since(s.fires, grid, s.clock)| == |Roomy(s, grid)| + |Overflow(s, grid)|
  {
    assert Since(s.fires, grid, s.clock) == Roomy(s, grid) + Overflow(s, grid);
    assert Roomy(s, grid) !! Overflow(s, grid);
  }

  /** In every interleaving no grid ever holds more than 499 + limit active fires, plus one for each of its active
      fires that landed there after using all eight hops. */
  lemma CapacityBound(limit: nat, acts: seq<Action>, grid: string)
    requires forall a :: a in acts && a.Begin? ==> ParseCell(a.grid).Some?
    ensures var s := Run(limit, Start(), acts);
            |Since(s.fires, grid, s.clock)| <= 499 + limit + |Overflow(s, grid)|
  {
    BoundInEveryRun(limit, Start(), acts);
    var good := ParsableIsClosed();
    StaysWithin(limit, Start(), acts, good);
    var s := Run(limit, Start(), acts);
    LandedOneWay(s, grid, good);
    assert |Roomy(s, grid)| + |Pending(s, grid)| <= SPREAD_THRESHOLD - 1 + limit;
  }

  // ---- what the registrations saw on their way ----

  /** One ZCOUNT of a registration: where, what it returned, and the draw that would name the next grid. */
  datatype Look = Look(grid: string, seen: nat, choice: Choice)

  datatype Walker = Walker(start: string, looks: seq<Look>)

  /** An observer's notes: the counts each registration in flight has issued, and those behind each stored fire. */
  datatype Record = Record(walkers: map<nat, Walker>, landed: map<Fire, Walker>)

  const Blank := Record(map[], map[])

  function Noted(limit: nat, s: State, h: Record, a: Action): Record {
    match a
    case Begin(pid, grid, _, _) =>
      if pid in s.procs || |s.procs| >= limit then h else h.(walkers := h.walkers[pid := Walker(grid, [])])
    case Count(pid, choice) =>
      if pid in s.procs && s.procs[pid].phase.Counting? && pid in h.walkers then
        var p, w := s.procs[pid], h.walkers[pid];
        var look := Look(p.grid, |Since(s.fires, p.grid, p.now)|, choice);
        h.(walkers := h.walkers[pid := w.(looks := w.looks + [look])])
      else h
    case Add(pid) =>
      if pid in s.procs && s.procs[pid].phase.Adding? && pid in h.walkers
      then h.(landed := h.landed[Fire(s.procs[pid].grid, s.procs[pid].id) := h.walkers[pid]])
      else h
    case _ => h
  }

  function Notes(limit: nat, s: State, h: Record, acts: seq<Action>): Record
    decreases acts
  {
    if acts == [] then h else Notes(limit, Step(limit, s, acts[0]), Noted(limit, s, h, acts[0]), acts[1..])
  }

  /** Every look saw at least 500 active fires on its grid, which was then left for the neighbour its draw names. */
  predicate HopsTo(start: string, looks: seq<Look>, at: string)
    decreases looks
  {
    if looks == [] then at == start
    else
      var last := looks[|looks| - 1];
      && HopsTo(start, looks[..|looks| - 1], last.grid)
      && last.seen >= 500 && NeighborIDs(last.grid).Some? && at == NeighborIDs(last.grid).value[last.choice]
  }

  /** The looks end at this grid, for this reason. */
  predicate EndsAt(w: Walker, at: string, why: Reason) {
    if why == HopsUsed then |w.looks| == 8 && HopsTo(w.start, w.looks, at)
    else
      && 1 <= |w.looks| <= 8
      && var last := w.looks[|w.looks| - 1];
      && HopsTo(w.start, w.looks[..|w.looks| - 1], at) && last.grid == at
      && if why == HasRoom then last.seen < 500 else last.seen >= 500 && ParseCell(at).None?
  }

  predicate ExplainsProc(p: Proc, w: Walker) {
    match p.phase
    case Counting(n) => n == |w.looks| < 8 && HopsTo(w.start, w.looks, p.grid)
    case Adding(why) => EndsAt(w, p.grid, why)
    case Indexing => true
  }

  ghost predicate Explains(s: State, h: Record) {
    && (forall pid :: pid in s.procs ==> pid in h.walkers && ExplainsProc(s.procs[pid], h.walkers[pid]))
    && (forall f :: f in s.landedBy ==> f in h.landed && EndsAt(h.landed[f], f.grid, s.landedBy[f]))
  }

  lemma OneMoreLook(start: string, looks: seq<Look>, look: Look, at: string)
    ensures HopsTo(start, looks + [look], at) <==>
            && HopsTo(start, looks, look.grid) && look.seen >= 500
            && NeighborIDs(look.grid).Some? && at == NeighborIDs(look.grid).value[look.choice]
  {
    assert (looks + [look])[..|looks|] == looks;
  }

  lemma LookExplained(fires: map<Fire, int>, p: Proc, choice: Choice, w: Walker)
    requires p.phase.Counting? && ExplainsProc(p, w)
    ensures ExplainsProc(Counted(fires, p, choice),
                         w.(looks := w.looks + [Look(p.grid, |Since(fires, p.grid, p.now)|, choice)]))
  {
    hide NeighborIDs, HopsTo;
    var look := Look(p.grid, |Since(fires, p.grid, p.now)|, choice);
    OneMoreLook(w.start, w.looks, look, Counted(fires, p, choice).grid);
    assert (w.looks + [look])[..|w.looks|] == w.looks;
    ParsesOrNot(p.grid);
  }

  lemma ParsesOrNot(id: string)
    ensures NeighborIDs(id).Some? <==> ParseCell(id).Some?
  {
  }

  lemma CountExplained(limit: nat, s: State, h: Record, pid: nat, choice: Choice)
    requires Explains(s, h)
    ensures Explains(Step(limit, s, Count(pid, choice)), Noted(limit, s, h, Count(pid, choice)))
  {
    hide Counted, EndsAt, HopsTo, Since, ExplainsProc;
    if pid in s.procs && s.procs[pid].phase.Counting? {
      LookExplained(s.fires, s.procs[pid], choice, h.walkers[pid]);
    }
  }

  lemma BeginExplained(limit: nat, s: State, h: Record, a: Action)
    requires Explains(s, h) && a.Begin?
    ensures Explains(Step(limit, s, a), Noted(limit, s, h, a))
  {
    hide EndsAt, HopsTo, Since;
    NoLookYet(a.grid);
  }

  lemma AddExplained(limit: nat, s: State, h: Record, pid: nat)
    requires Explains(s, h)
    ensures Explains(Step(limit, s, Add(pid)), Noted(limit, s, h, Add(pid)))
  {
    hide EndsAt, HopsTo, Since;
  }

  lemma QuietExplained(limit: nat, s: State, h: Record, a: Action)
    requires Explains(s, h) && StartsNothing(a)
    ensures Explains(Step(limit, s, a), Noted(limit, s, h, a))
  {
    hide Step, ExplainsProc, EndsAt;
    ShrinkingStep(limit, s, a);
  }

  lemma StepExplained(limit: nat, s: State, h: Record, a: Action)
    requires Explains(s, h)
    ensures Explains(Step(limit, s, a), Noted(limit, s, h, a))
  {
    hide Step, Noted, Explains;
    if a.Count? {
      CountExplained(limit, s, h, a.pid, a.choice);
    } else if a.Begin? {
      BeginExplained(limit, s, h, a);
    } else if a.Add? {
      AddExplained(limit, s, h, a.pid);
    } else {
      QuietExplained(limit, s, h, a);
    }
  }

  lemma NoLookYet(grid: string)
    ensures HopsTo(grid, [], grid)
  {
  }

  /** In every interleaving the reason recorded for a registration and for a stored fire is what its own counts say:
      after all hops means exactly eight counts, each of at least 500 fires on a grid then left for the neighbour
      drawn; room means that the last count saw fewer than 500 on the grid it landed on. */
  lemma {:induction false} ExplainedInEveryRun(limit: nat, s: State, h: Record, acts: seq<Action>)
    requires Explains(s, h)
    ensures Explains(Run(limit, s, acts), Notes(limit, s, h, acts))
    decreases acts
  {
    hide Explains, Step, Noted;
    if acts != [] {
      StepExplained(limit, s, h, acts[0]);
      ExplainedInEveryRun(limit, Step(limit, s, acts[0]), Noted(limit, s, h, acts[0]), acts[1..]);
    }
  }

  /** Active fires of a grid whose registrations hopped eight times, each time off a full grid, and ended there. */
  function EightHops(s: State, h: Record, grid: string): set<Fire> {
    set f | f in Since(s.fires, grid, s.clock) && f in h.landed
            && |h.landed[f].looks| == 8 && HopsTo(h.landed[f].start, h.landed[f].looks, grid)
  }

  /** The capacity bound with the exceptions read off the counts that were issued. */
  lemma CapacityBoundSeen(limit: nat, acts: seq<Action>, grid: string)
    requires forall a :: a in acts && a.Begin? ==> ParseCell(a.grid).Some?
    ensures var s, h := Run(limit, Start(), acts), Notes(limit, Start(), Blank, acts);
            |Since(s.fires, grid, s.clock)| <= 499 + limit + |EightHops(s, h, grid)|
  {
    hide HopsTo, Run, Notes;
    CapacityBound(limit, acts, grid);
    ExplainedInEveryRun(limit, Start(), Blank, acts);
    var s, h := Run(limit, Start(), acts), Notes(limit, Start(), Blank, acts);
    SubsetSize(Overflow(s, grid), EightHops(s, h, grid));
  }

  // ---- a registration that nothing interrupts ----

  function Counts(pid: nat, choices: seq<Choice>): seq<Action>
    decreases choices
  {
    if choices == [] then [] else [Action.Count(pid, choices[0])] + Counts(pid, choices[1..])
  }

  lemma {:induction false} DoneCounting(limit: nat, s: State, pid: nat, choices: seq<Choice>)
    requires pid in s.procs && !s.procs[pid].phase.Counting?
    ensures Run(limit, s, Counts(pid, choices)) == s
    decreases choices
  {
    hide Counted;
    if choices != [] {
      var rest := Counts(pid, choices[1..]);
      RunCons(limit, s, Action.Count(pid, choices[0]), rest);
      DoneCounting(limit, s, pid, choices[1..]);
    }
  }

  /** Why a walk over this store that had some draws left ended where it did. */
  function WhyEnded(fires: map<Fire, int>, now: int, w: Walked, draws: nat): Reason {
    if |w.path| == draws then HopsUsed
    else if |Since(fires, w.grid, now)| < 500 then HasRoom
    else Unparsable
  }

  /** Where a registration stands once its walk is over. */
  function WalkedProc(fires: map<Fire, int>, p: Proc, choices: seq<Choice>): Proc {
    var w := Walk(fires, p.now, p.grid, choices);
    p.(grid := w.grid, phase := Adding(WhyEnded(fires, p.now, w, |choices|)))
  }

  /** One count is the first turn of the walk. */
  lemma CountIsTurn(fires: map<Fire, int>, p: Proc, choices: seq<Choice>)
    requires 0 < |choices| <= 8 && p.phase == Counting(8 - |choices|)
    ensures var q := Counted(fires, p, choices[0]);
            if q.phase.Counting?
            then && |choices| > 1 && q.phase == Counting(8 - |choices[1..]|)
                 && WalkedProc(fires, q, choices[1..]) == WalkedProc(fires, p, choices)
            else q == WalkedProc(fires, p, choices)
  {
    hide Since, NeighborIDs;
    if Spreads(fires, p.now, p.grid) {
      var next := NeighborIDs(p.grid).value[choices[0]];
      var w := Walk(fires, p.now, next, choices[1..]);
      assert Walk(fires, p.now, p.grid, choices) == Walked(w.grid, [(p.grid, next)] + w.path);
      if |choices| == 1 {
        assert choices[1..] == [];
      }
    }
  }

  lemma {:induction false} CountsWalk(limit: nat, s: State, pid: nat, choices: seq<Choice>)
    requires pid in s.procs && 0 < |choices| <= 8 && s.procs[pid].phase == Counting(8 - |choices|)
    ensures Run(limit, s, Counts(pid, choices)) ==
            s.(procs := s.procs[pid := WalkedProc(s.fires, s.procs[pid], choices)])
    decreases choices
  {
    hide Counted, WalkedProc, Run;
    var p, look := s.procs[pid], Action.Count(pid, choices[0]);
    var t := Step(limit, s, look);
    assert t == s.(procs := s.procs[pid := Counted(s.fires, p, choices[0])]);
    CountIsTurn(s.fires, p, choices);
    RunCons(limit, s, look, Counts(pid, choices[1..]));
    if t.procs[pid].phase.Counting? {
      CountsWalk(limit, t, pid, choices[1..]);
      assert t.procs[pid := WalkedProc(s.fires, p, choices)] == s.procs[pid := WalkedProc(s.fires, p, choices)];
    } else {
      DoneCounting(limit, t, pid, choices[1..]);
    }
  }

  /** A registration whose commands run without interruption ends where the walk does, after all hops exactly when the
      walk has eight of them, and leaves the fires and the index of the whole registration. */
  lemma UninterruptedRegistration(limit: nat, s: State, pid: nat, r: Request, choices: seq<Choice>, st: Store,
                                  member: string)
    requires pid !in s.procs && |s.procs| < limit && |choices| == 8 && r.now == s.clock / 1000 * 1000
    requires st.fires == s.fires && st.active == s.active
    ensures var before := [Begin(pid, r.grid, r.id, r.expireAt)] + Counts(pid, choices);
            var t, u := Run(limit, s, before), Run(limit, s, before + ([Add(pid)] + [Index(pid)]));
            var w := Walk(s.fires, r.now, r.grid, choices);
            && pid in t.procs && t.fires == s.fires && t.procs[pid].grid == w.grid && t.procs[pid].phase.Adding?
            && (t.procs[pid].phase == Adding(HopsUsed) <==> |w.path| == 8)
            && var whole := Registered(st, r, choices, member, NO_FAULTS).0;
            u.fires == whole.fires && u.active == whole.active && u.procs == s.procs
  {
    hide Run, Counted, Walk;
    var begin := Begin(pid, r.grid, r.id, r.expireAt);
    var s1 := Step(limit, s, begin);
    RunCons(limit, s, begin, Counts(pid, choices));
    CountsWalk(limit, s1, pid, choices);
    var before := [begin] + Counts(pid, choices);
    var t := Run(limit, s, before);
    RunTwice(limit, s, before, [Add(pid)] + [Index(pid)]);
    RunCons(limit, t, Add(pid), [Index(pid)]);
    RunOne(limit, Step(limit, t, Add(pid)), Index(pid));
    assert Step(limit, Step(limit, t, Add(pid)), Index(pid)).procs == s.procs;
  }

  // ---- passes that nothing interrupts ----

  /** The commands of the sweep for one grid do what its sweep as one step does, whichever of DEL and SREM fails, and
      leave the sweep ready for the next grid. */
  lemma UninterruptedSweep(limit: nat, s: State, grid: string, max: nat, x: SweepFaults, c: Core)
    requires Resting(s) && max <= s.clock && !x.range && !x.card && c.st.fires == s.fires && c.st.active == s.active
    ensures var t := Run(limit, s, [SweepRange(grid, max)] + ([SweepCard(grid)] +
                                     ([SweepDel(!x.del)] + [SweepUnlist(!x.srem)])));
            var whole := Swept(c, grid, max, x).st;
            && t.fires == whole.fires && t.active == whole.active && Resting(t)
            && (t.clock, t.procs, t.landedBy, t.dropping) == (s.clock, s.procs, s.landedBy, s.dropping)
  {
    hide Run, Step, Swept;
    var range, card, del, unlist := SweepRange(grid, max), SweepCard(grid), SweepDel(!x.del), SweepUnlist(!x.srem);
    var s1 := Step(limit, s, range);
    var s2 := Step(limit, s1, card);
    var s3 := Step(limit, s2, del);
    RunCons(limit, s, range, [card] + ([del] + [unlist]));
    RunCons(limit, s1, card, [del] + [unlist]);
    RunCons(limit, s2, del, [unlist]);
    RunOne(limit, s3, unlist);
    RangeRemoves(limit, s, grid, max);
    CardToUnlist(limit, s1, grid, !x.del, !x.srem);
    SweptStore(c, grid, max, x);
  }

  lemma RangeRemoves(limit: nat, s: State, grid: string, max: nat)
    requires Resting(s) && max <= s.clock
    ensures Step(limit, s, SweepRange(grid, max)) == s.(fires := s.fires - Until(s.fires, grid, max))
  {
  }

  lemma CardToUnlist(limit: nat, s: State, grid: string, del: bool, srem: bool)
    requires Resting(s)
    ensures Step(limit, Step(limit, Step(limit, s, SweepCard(grid)), SweepDel(del)), SweepUnlist(srem))
            == if srem && On(s.fires, grid) == {} then s.(active := s.active - {grid}) else s
  {
    hide Counted;
    if On(s.fires, grid) == {} {
      assert s.fires - On(s.fires, grid) == s.fires;
    }
  }

  lemma SweptStore(c: Core, grid: string, now: int, x: SweepFaults)
    requires !x.range && !x.card
    ensures var st, fires := Swept(c, grid, now, x).st, c.st.fires - Until(c.st.fires, grid, now);
            && st.fires == fires
            && st.active == if !x.srem && On(fires, grid) == {} then c.st.active - {grid} else c.st.active
  {
  }

  /** The same for the two commands of the scan that concern the store. */
  lemma UninterruptedScan(limit: nat, s: State, grid: string, min: nat, srem: bool, c: Core)
    requires s.dropping.None? && min <= s.clock && c.st.fires == s.fires && c.st.active == s.active
    ensures var t := Run(limit, s, [ScanCount(grid, min)] + [ScanDrop(!srem)]);
            t == s.(active := Scanned(c, grid, min, ScanFaults(false, srem)).st.active)
  {
    hide Run, Step, Scanned;
    RunCons(limit, s, ScanCount(grid, min), [ScanDrop(!srem)]);
    RunOne(limit, Step(limit, s, ScanCount(grid, min)), ScanDrop(!srem));
    CountToDrop(limit, s, grid, min, !srem);
    ScannedStore(c, grid, min, srem);
  }

  lemma CountToDrop(limit: nat, s: State, grid: string, min: nat, srem: bool)
    requires s.dropping.None? && min <= s.clock
    ensures Step(limit, Step(limit, s, ScanCount(grid, min)), ScanDrop(srem))
            == if srem && Since(s.fires, grid, min) == {} then s.(active := s.active - {grid}) else s
  {
    hide Counted;
  }

  lemma ScannedStore(c: Core, grid: string, now: int, srem: bool)
    ensures Scanned(c, grid, now, ScanFaults(false, srem)).st.active
            == if !srem && Since(c.st.fires, grid, now) == {} then c.st.active - {grid} else c.st.active
  {
    hide GetStage;
    StageMeaning(|Since(c.st.fires, grid, now)|);
  }

  /** Time passes by itself and moves nothing. */
  lemma TimePasses(limit: nat, s: State, ms: nat)
    ensures Step(limit, s, Tick(ms)).clock == s.clock + ms
    ensures Step(limit, s, Tick(ms)).(clock := s.clock) == s
  {
  }

  // ---- the bound is reached ----

  lemma RunOne(limit: nat, s: State, a: Action)
    ensures Run(limit, s, [a]) == Step(limit, s, a)
  {
    assert Run(limit, s, [a]) == Run(limit, Step(limit, s, a), [a][1..]);
  }

  lemma RunCons(limit: nat, s: State, a: Action, rest: seq<Action>)
    ensures Run(limit, s, [a] + rest) == Run(limit, Step(limit, s, a), rest)
  {
    assert ([a] + rest)[1..] == rest;
  }

  lemma {:induction false} RunTwice(limit: nat, s: State, a: seq<Action>, b: seq<Action>)
    ensures Run(limit, s, a + b) == Run(limit, Run(limit, s, a), b)
    decreases a
  {
    if a == [] {
      assert a + b == b;
    } else {
      RunTwice(limit, Step(limit, s, a[0]), a[1..], b);
      assert (a + b)[1..] == a[1..] + b;
    }
  }

  /** The fires with the first n numbers as ids, all expiring at time 1. */
  function Numbered(cell: string, n: nat): map<Fire, int> {
    if n == 0 then map[] else Numbered(cell, n - 1)[Fire(cell, Itoa(n - 1)) := 1]
  }

  lemma {:induction false} NumberedSize(cell: string, n: nat)
    ensures |Since(Numbered(cell, n), cell, 0)| == n
    ensures forall m: int :: m >= n ==> Fire(cell, Itoa(m)) !in Numbered(cell, n)
  {
    if n > 0 {
      NumberedSize(cell, n - 1);
      var last := Fire(cell, Itoa(n - 1));
      assert Since(Numbered(cell, n), cell, 0) == Since(Numbered(cell, n - 1), cell, 0) + {last};
      forall m: int | m >= n ensures Fire(cell, Itoa(m)) !in Numbered(cell, n) {
        if Itoa(m) == Itoa(n - 1) {
          ItoaInjective(m, n - 1);
        }
      }
    }
  }

  function Waiting(cell: string, n: int, phase: Phase): Proc { Proc(cell, Itoa(n), 1, 0, phase) }

  /** `count` fires are stored; registrations lo..hi-1 are in this phase and there is no other. */
  ghost predicate Crowd(s: State, cell: string, count: nat, base: nat, lo: nat, hi: nat, phase: Phase) {
    && s.clock == 0 && s.fires == Numbered(cell, count) && lo <= hi
    && (forall pid :: pid in s.procs <==> lo <= pid < hi)
    && (forall pid :: pid in s.procs ==> s.procs[pid] == Waiting(cell, base + pid, phase))
  }

  lemma {:induction false} CountProcs(procs: map<nat, Proc>, n: nat)
    requires forall pid :: pid in procs ==> pid < n
    ensures |procs| <= n
  {
    if n > 0 {
      var rest := procs - {n - 1};
      CountProcs(rest, n - 1);
      assert procs.Keys <= rest.Keys + {n - 1};
      SubsetSize(procs.Keys, rest.Keys + {n - 1});
      assert |procs| == |procs.Keys| && |rest| == |rest.Keys|;
    }
  }

  lemma StartsUp(limit: nat, s: State, pid: nat, cell: string, n: int)
    requires s.clock == 0 && pid !in s.procs && |s.procs| < limit
    ensures Step(limit, s, Begin(pid, cell, Itoa(n), 1)) == s.(procs := s.procs[pid := Waiting(cell, n, Counting(0))])
  {
  }

  lemma FindsRoom(limit: nat, s: State, pid: nat, cell: string, n: int)
    requires pid in s.procs && s.procs[pid] == Waiting(cell, n, Counting(0))
             && |Since(s.fires, cell, 0)| < SPREAD_THRESHOLD
    ensures Step(limit, s, Action.Count(pid, 0)) == s.(procs := s.procs[pid := Waiting(cell, n, Adding(HasRoom))])
  {
  }

  lemma CrowdFacts(s: State, cell: string, count: nat, waiting: nat)
    requires Crowd(s, cell, count, count, 0, waiting, Adding(HasRoom)) && count <= 499
    ensures s.clock == 0 && waiting !in s.procs && |s.procs| <= waiting && |Since(s.fires, cell, 0)| == count
    ensures Crowd(s.(procs := s.procs[waiting := Waiting(cell, count + waiting, Adding(HasRoom))]),
                  cell, count, count, 0, waiting + 1, Adding(HasRoom))
  {
    hide Numbered, Since, Itoa;
    CountProcs(s.procs, waiting);
    NumberedSize(cell, count);
  }

  /** One more registration starts and finds room. */
  lemma Joins(limit: nat, s: State, cell: string, count: nat, waiting: nat) returns (acts: seq<Action>)
    requires Crowd(s, cell, count, count, 0, waiting, Adding(HasRoom)) && count <= 499 && waiting < limit
    ensures Crowd(Run(limit, s, acts), cell, count, count, 0, waiting + 1, Adding(HasRoom))
  {
    hide Run, Step, Itoa, Since, Crowd;
    CrowdFacts(s, cell, count, waiting);
    var n := count + waiting;
    var s1 := s.(procs := s.procs[waiting := Waiting(cell, n, Counting(0))]);
    var begin, look := Begin(waiting, cell, Itoa(n), 1), Action.Count(waiting, 0);
    acts := [begin] + [look];
    StartsUp(limit, s, waiting, cell, n);
    FindsRoom(limit, s1, waiting, cell, n);
    RunCons(limit, s, begin, [look]);
    RunOne(limit, s1, look);
    assert s1.procs[waiting := Waiting(cell, n, Adding(HasRoom))]
           == s.procs[waiting := Waiting(cell, n, Adding(HasRoom))];
  }

  /** Any number of registrations up to the limit can have found room at once. */
  lemma {:induction false} Gather(limit: nat, s: State, cell: string, count: nat, waiting: nat)
    returns (acts: seq<Action>)
    requires Crowd(s, cell, count, count, 0, 0, Adding(HasRoom)) && count <= 499 && waiting <= limit
    ensures Crowd(Run(limit, s, acts), cell, count, count, 0, waiting, Adding(HasRoom))
    decreases waiting
  {
    if waiting == 0 {
      acts := [];
    } else {
      var first := Gather(limit, s, cell, count, waiting - 1);
      var more := Joins(limit, Run(limit, s, first), cell, count, waiting - 1);
      acts := first + more;
      RunTwice(limit, s, first, more);
    }
  }

  /** The first of the waiting registrations adds its fire and finishes. */
  lemma Lands(limit: nat, s: State, cell: string, count: nat, base: nat, lo: nat, hi: nat) returns (acts: seq<Action>)
    requires Crowd(s, cell, count, base, lo, hi, Adding(HasRoom)) && lo < hi && count == base + lo
    ensures Crowd(Run(limit, s, acts), cell, count + 1, base, lo + 1, hi, Adding(HasRoom))
  {
    hide Run, Step, Itoa, Numbered;
    assert lo in s.procs && s.procs[lo] == Waiting(cell, count, Adding(HasRoom));
    AddsAndIndexes(limit, s, lo, cell, count);
    OneMoreNumbered(cell, count);
    var s1 := Step(limit, s, Add(lo));
    acts := [Add(lo)] + [Index(lo)];
    RunCons(limit, s, Add(lo), [Index(lo)]);
    RunOne(limit, s1, Index(lo));
  }

  lemma AddsAndIndexes(limit: nat, s: State, pid: nat, cell: string, n: int)
    requires pid in s.procs && s.procs[pid] == Waiting(cell, n, Adding(HasRoom))
    ensures var t := Step(limit, Step(limit, s, Add(pid)), Index(pid));
            t.clock == s.clock && t.procs == s.procs - {pid} && t.fires == s.fires[Fire(cell, Itoa(n)) := 1]
  {
    var s1 := Step(limit, s, Add(pid));
    assert s1.procs == s.procs[pid := Waiting(cell, n, Indexing)];
    assert s1.procs - {pid} == s.procs - {pid};
  }

  lemma OneMoreNumbered(cell: string, n: nat)
    ensures Numbered(cell, n + 1) == Numbered(cell, n)[Fire(cell, Itoa(n)) := 1]
  {
  }

  lemma {:induction false} LandAll(limit: nat, s: State, cell: string, count: nat, base: nat, lo: nat, hi: nat)
    returns (acts: seq<Action>)
    requires Crowd(s, cell, count, base, lo, hi, Adding(HasRoom)) && count == base + lo
    ensures Crowd(Run(limit, s, acts), cell, base + hi, base, hi, hi, Adding(HasRoom))
    decreases hi - lo
  {
    if lo == hi {
      acts := [];
    } else {
      var first := Lands(limit, s, cell, count, base, lo, hi);
      var rest := LandAll(limit, Run(limit, s, first), cell, count + 1, base, lo + 1, hi);
      acts := first + rest;
      RunTwice(limit, s, first, rest);
    }
  }

  lemma Regroup(s: State, cell: string, count: nat, base: nat, n: nat, phase: Phase)
    requires Crowd(s, cell, count, base, n, n, phase)
    ensures Crowd(s, cell, count, count, 0, 0, phase)
  {
    assert s.procs == map[];
  }

  lemma {:induction false} FillUp(limit: nat, cell: string, count: nat) returns (acts: seq<Action>)
    requires limit > 0 && count <= 499
    ensures Crowd(Run(limit, Start(), acts), cell, count, count, 0, 0, Adding(HasRoom))
    decreases count
  {
    if count == 0 {
      acts := [];
    } else {
      var before := FillUp(limit, cell, count - 1);
      var s := Run(limit, Start(), before);
      var gather := Gather(limit, s, cell, count - 1, 1);
      var land := LandAll(limit, Run(limit, s, gather), cell, count - 1, count - 1, 0, 1);
      Regroup(Run(limit, Run(limit, s, gather), land), cell, count, count - 1, 1, Adding(HasRoom));
      acts := before + (gather + land);
      RunTwice(limit, Start(), before, gather + land);
      RunTwice(limit, s, gather, land);
    }
  }

  /** For every grid and every limit some interleaving makes the grid hold 499 + limit active fires: the spread
      threshold of 500 is overshot by one less than the number of registrations in flight. */
  lemma BoundIsReached(limit: nat, cell: string) returns (acts: seq<Action>)
    requires limit > 0
    ensures var s := Run(limit, Start(), acts); |Since(s.fires, cell, s.clock)| == 499 + limit
  {
    var fill := FillUp(limit, cell, 499);
    var s := Run(limit, Start(), fill);
    var gather := Gather(limit, s, cell, 499, limit);
    var land := LandAll(limit, Run(limit, s, gather), cell, 499, 499, 0, limit);
    acts := fill + (gather + land);
    RunTwice(limit, Start(), fill, gather + land);
    RunTwice(limit, s, gather, land);
    NumberedSize(cell, 499 + limit);
  }

  // ---- what the whole-step view hides ----

  /** The sweep's DEL is safe as long as the grid it read as empty is still empty. */
  predicate DelSafe(s: State) { s.sweeping.Some? ==> On(s.fires, s.sweeping.value) == {} }

  /** One step breaks that exactly when it adds a fire to the grid about to be deleted. */
  lemma DelBecomesUnsafe(limit: nat, s: State, a: Action)
    requires DelSafe(s)
    ensures DelSafe(Step(limit, s, a)) <==>
            !(a.Add? && a.pid in s.procs && s.procs[a.pid].phase.Adding? && s.sweeping == Some(s.procs[a.pid].grid))
  {
    var t := Step(limit, s, a);
    if a.Add? && t != s {
      var p := s.procs[a.pid];
      if s.sweeping == Some(p.grid) {
        assert Fire(p.grid, p.id) in On(t.fires, p.grid);
      } else if s.sweeping.Some? {
        assert On(t.fires, s.sweeping.value) == On(s.fires, s.sweeping.value);
      }
    } else if t.sweeping.Some? && t.sweeping == s.sweeping {
      assert On(t.fires, t.sweeping.value) <= On(s.fires, t.sweeping.value) by {
        if StartsNothing(a) {
          ShrinkingStep(limit, s, a);
        }
      }
    }
  }

  /** The DEL removes nothing exactly when it is safe. */
  lemma DelRemovesNothing(limit: nat, s: State)
    requires s.sweeping.Some?
    ensures Step(limit, s, SweepDel(true)).fires == s.fires <==> DelSafe(s)
  {
    var g := s.sweeping.value;
    if DelSafe(s) {
      assert s.fires - On(s.fires, g) == s.fires;
    } else {
      var f :| f in On(s.fires, g);
      assert f !in Step(limit, s, SweepDel(true)).fires;
    }
  }

  // ---- when a fire leaves the store, and when the index loses one ----

  /** A stored fire that has not expired survives every command but the sweep's DEL of its grid. */
  lemma SurvivesExactly(limit: nat, s: State, a: Action, f: Fire)
    requires f in s.fires && s.fires[f] > s.clock
    ensures f in Step(limit, s, a).fires <==> !(a.SweepDel? && a.ok && s.sweeping == Some(f.grid))
  {
    hide Counted;
  }

  predicate Active(s: State, f: Fire) { f in s.fires && s.fires[f] >= s.clock }

  /** Every active fire lies on an indexed grid. */
  ghost predicate Covered(s: State) { forall f :: Active(s, f) ==> f.grid in s.active }

  /** The scan's SREM is safe as long as the grid it counted as empty has no active fire. */
  predicate DropSafe(s: State) { s.dropping.Some? ==> Since(s.fires, s.dropping.value, s.clock) == {} }

  /** The same for the sweep's SREM, which comes one command after its DEL. */
  predicate UnlistSafe(s: State) { s.unlisting.Some? ==> Since(s.fires, s.unlisting.value, s.clock) == {} }

  /** The command adds an active fire to this grid. */
  predicate Ignites(s: State, a: Action, grid: Option<string>) {
    && a.Add? && a.pid in s.procs && s.procs[a.pid].phase.Adding?
    && grid == Some(s.procs[a.pid].grid) && s.procs[a.pid].expireAt >= s.clock
  }

  /** What a command can do to the active fires of one grid. */
  lemma ActiveAfter(limit: nat, s: State, a: Action, g: string)
    ensures var t := Step(limit, s, a);
            if Ignites(s, a, Some(g)) then Since(t.fires, g, t.clock) != {}
            else Since(t.fires, g, t.clock) <= Since(s.fires, g, s.clock)
  {
    hide Counted;
    var t := Step(limit, s, a);
    if Ignites(s, a, Some(g)) {
      assert Fire(g, s.procs[a.pid].id) in Since(t.fires, g, t.clock);
    } else if StartsNothing(a) {
      ShrinkingStep(limit, s, a);
    }
  }

  lemma DropBecomesUnsafe(limit: nat, s: State, a: Action)
    requires DropSafe(s)
    ensures DropSafe(Step(limit, s, a)) <==> !Ignites(s, a, s.dropping)
  {
    var t := Step(limit, s, a);
    if s.dropping.Some? {
      ActiveAfter(limit, s, a, s.dropping.value);
    } else if t.dropping.Some? {
      assert Since(t.fires, t.dropping.value, t.clock) <= Since(s.fires, t.dropping.value, a.min);
    }
  }

  /** The sweep's SREM also becomes unsafe when the DEL before it fails on a grid that is no longer empty. */
  lemma UnlistBecomesUnsafe(limit: nat, s: State, a: Action)
    requires UnlistSafe(s)
    ensures UnlistSafe(Step(limit, s, a)) <==>
            !Ignites(s, a, s.unlisting)
            && !(a.SweepDel? && !a.ok && s.sweeping.Some? && Since(s.fires, s.sweeping.value, s.clock) != {})
  {
    var t := Step(limit, s, a);
    if a.SweepDel? && s.sweeping.Some? {
      var g := s.sweeping.value;
      assert a.ok ==> Since(t.fires, g, t.clock) == {};
    } else if s.unlisting.Some? {
      ActiveAfter(limit, s, a, s.unlisting.value);
    }
  }

  lemma CoveredWithout(s: State, g: string)
    requires Covered(s)
    ensures (forall f :: Active(s, f) ==> f.grid in s.active - {g}) <==> Since(s.fires, g, s.clock) == {}
  {
    if Since(s.fires, g, s.clock) != {} {
      var f :| f in Since(s.fires, g, s.clock);
      assert Active(s, f) && f.grid == g;
    } else {
      forall f | Active(s, f) ensures f.grid != g {
        assert f !in Since(s.fires, g, s.clock);
      }
    }
  }

  /** Either SREM keeps every active fire indexed exactly when it is safe. */
  lemma UnlistingKeepsCoveredExactly(limit: nat, s: State)
    requires Covered(s)
    ensures Covered(Step(limit, s, ScanDrop(true))) <==> DropSafe(s)
    ensures Covered(Step(limit, s, SweepUnlist(true))) <==> UnlistSafe(s)
  {
    hide Since;
    var t, u := Step(limit, s, ScanDrop(true)), Step(limit, s, SweepUnlist(true));
    assert forall f :: Active(t, f) == Active(s, f) == Active(u, f);
    if s.dropping.Some? {
      CoveredWithout(s, s.dropping.value);
    }
    if s.unlisting.Some? {
      CoveredWithout(s, s.unlisting.value);
    }
  }

  // ---- the index over whole runs ----

  /** The fire's own registration is between its ZADD and its SADD. */
  ghost predicate Landing(procs: map<nat, Proc>, f: Fire) {
    exists pid :: pid in procs && procs[pid].phase.Indexing? && Fire(procs[pid].grid, procs[pid].id) == f
  }

  /** Every active fire is indexed, or its registration is about to index it. */
  ghost predicate Listed(s: State) {
    forall f :: Active(s, f) ==> f.grid in s.active || Landing(s.procs, f)
  }

  /** The grid a command takes out of the index. */
  function Unlists(s: State, a: Action): Option<string> {
    match a
    case SweepUnlist(ok) => if ok then s.unlisting else None
    case ScanDrop(ok) => if ok then s.dropping else None
    case _ => None
  }

  /** An SREM meets only active fires that are about to be indexed, and a registration that fails after its ZADD leaves
      no active fire outside the index. */
  ghost predicate Harmless(s: State, a: Action) {
    && (Unlists(s, a).Some? ==> forall f :: Active(s, f) && f.grid == Unlists(s, a).value ==> Landing(s.procs, f))
    && (a.Fail? && a.pid in s.procs && s.procs[a.pid].phase.Indexing? ==>
          var f := Fire(s.procs[a.pid].grid, s.procs[a.pid].id);
          Active(s, f) ==> f.grid in s.active || Landing(s.procs - {a.pid}, f))
  }

  /** Registrations about to index a fire go only by indexing it or by failing. */
  lemma LandingAfter(limit: nat, s: State, a: Action, f: Fire)
    requires !a.Index? && !a.Fail?
    ensures Landing(Step(limit, s, a).procs, f) <==> Landing(s.procs, f) || Stores(s, a, f)
  {
    var t := Step(limit, s, a);
    if Landing(s.procs, f) {
      var pid :| pid in s.procs && s.procs[pid].phase.Indexing? && Fire(s.procs[pid].grid, s.procs[pid].id) == f;
      assert t.procs[pid] == s.procs[pid];
    }
    if Stores(s, a, f) {
      assert t.procs[a.pid].phase.Indexing?;
    }
  }

  /** The command adds this fire. */
  predicate Stores(s: State, a: Action, f: Fire) {
    a.Add? && a.pid in s.procs && s.procs[a.pid].phase.Adding? && Fire(s.procs[a.pid].grid, s.procs[a.pid].id) == f
  }

  lemma IndexKeepsListed(limit: nat, s: State, pid: nat)
    requires Listed(s)
    ensures Listed(Step(limit, s, Index(pid)))
  {
    var t := Step(limit, s, Index(pid));
    forall f | Active(t, f) ensures f.grid in t.active || Landing(t.procs, f) {
      assert Active(s, f);
      if f.grid !in t.active {
        var p :| p in s.procs && s.procs[p].phase.Indexing? && Fire(s.procs[p].grid, s.procs[p].id) == f;
        assert p in t.procs && t.procs[p] == s.procs[p];
      }
    }
  }

  lemma FailKeepsListed(limit: nat, s: State, pid: nat)
    requires Listed(s)
    ensures Listed(Step(limit, s, Fail(pid))) <==> Harmless(s, Fail(pid))
  {
    var t := Step(limit, s, Fail(pid));
    if Harmless(s, Fail(pid)) {
      forall f | Active(t, f) ensures f.grid in t.active || Landing(t.procs, f) {
        assert Active(s, f);
        if f.grid !in s.active {
          var p :| p in s.procs && s.procs[p].phase.Indexing? && Fire(s.procs[p].grid, s.procs[p].id) == f;
          assert p != pid ==> p in t.procs && t.procs[p] == s.procs[p];
        }
      }
    } else {
      var f := Fire(s.procs[pid].grid, s.procs[pid].id);
      assert Active(t, f);
    }
  }

  /** The agreement between store and index survives a command exactly when the command is harmless. */
  lemma ListedKeptExactly(limit: nat, s: State, a: Action)
    requires Listed(s)
    ensures Listed(Step(limit, s, a)) <==> Harmless(s, a)
  {
    hide Landing;
    if a.Index? {
      IndexKeepsListed(limit, s, a.pid);
    } else if a.Fail? {
      FailKeepsListed(limit, s, a.pid);
    } else {
      var t := Step(limit, s, a);
      forall f ensures Active(t, f) ==> Active(s, f) || Stores(s, a, f) {
        if StartsNothing(a) {
          ShrinkingStep(limit, s, a);
        }
      }
      forall f ensures Landing(t.procs, f) <==> Landing(s.procs, f) || Stores(s, a, f) {
        LandingAfter(limit, s, a, f);
      }
      if Unlists(s, a).Some? {
        assert forall f :: Active(t, f) == Active(s, f);
      }
    }
  }

  /** Every command of the run is harmless when it comes. */
  ghost predicate HarmlessRun(limit: nat, s: State, acts: seq<Action>)
    decreases acts
  {
    acts == [] || (Harmless(s, acts[0]) && HarmlessRun(limit, Step(limit, s, acts[0]), acts[1..]))
  }

  ghost predicate ListedThroughout(limit: nat, s: State, acts: seq<Action>)
    decreases acts
  {
    Listed(s) && (acts == [] || ListedThroughout(limit, Step(limit, s, acts[0]), acts[1..]))
  }

  /** Over every run of single commands: store and index agree from the first state to the last exactly when every
      command of the run is harmless. */
  lemma {:induction false} ListedThroughoutExactly(limit: nat, s: State, acts: seq<Action>)
    requires Listed(s)
    ensures ListedThroughout(limit, s, acts) <==> HarmlessRun(limit, s, acts)
    decreases acts
  {
    hide Listed, Harmless, Step;
    if acts != [] {
      ListedKeptExactly(limit, s, acts[0]);
      if Harmless(s, acts[0]) {
        ListedThroughoutExactly(limit, Step(limit, s, acts[0]), acts[1..]);
      } else {
        NotListedAtStart(limit, Step(limit, s, acts[0]), acts[1..]);
      }
    }
  }

  lemma NotListedAtStart(limit: nat, s: State, acts: seq<Action>)
    requires !Listed(s)
    ensures !ListedThroughout(limit, s, acts)
  {
  }

  /** An SREM that is safe, and a failure anywhere but between ZADD and SADD. */
  predicate Careful(s: State, a: Action) {
    && (a.ScanDrop? ==> DropSafe(s)) && (a.SweepUnlist? ==> UnlistSafe(s))
    && (a.Fail? && a.pid in s.procs ==> !s.procs[a.pid].phase.Indexing?)
  }

  predicate CarefulRun(limit: nat, s: State, acts: seq<Action>)
    decreases acts
  {
    acts == [] || (Careful(s, acts[0]) && CarefulRun(limit, Step(limit, s, acts[0]), acts[1..]))
  }

  lemma CarefulIsHarmless(s: State, a: Action)
    requires Careful(s, a)
    ensures Harmless(s, a)
  {
    if Unlists(s, a).Some? {
      forall f | Active(s, f) ensures f.grid != Unlists(s, a).value {
        assert f in Since(s.fires, f.grid, s.clock);
      }
    }
  }

  /** In every run whose SREMs are all safe and in which no registration fails between its ZADD and its SADD, every
      active fire is indexed or its registration is about to index it. */
  lemma {:induction false} ListedInEveryCarefulRun(limit: nat, s: State, acts: seq<Action>)
    requires Listed(s) && CarefulRun(limit, s, acts)
    ensures Listed(Run(limit, s, acts))
    decreases acts
  {
    hide Listed, Harmless, Careful, Step;
    if acts != [] {
      CarefulIsHarmless(s, acts[0]);
      ListedKeptExactly(limit, s, acts[0]);
      ListedInEveryCarefulRun(limit, Step(limit, s, acts[0]), acts[1..]);
    }
  }

  // ---- three runs that go wrong ----

  /** One registration that finds room on an empty grid, from start to end. */
  lemma RegisterAlone(s: State, cell: string, id: string)
    requires s.clock == 0 && s.procs == map[] && s.fires == map[]
    ensures var acts := [Begin(0, cell, id, 1)] + ([Action.Count(0, 0)] + ([Add(0)] + [Index(0)]));
            Run(1, s, acts) == s.(fires := map[Fire(cell, id) := 1], active := s.active + {cell},
                                  landedBy := s.landedBy[Fire(cell, id) := HasRoom])
  {
    var s1 := Step(1, s, Begin(0, cell, id, 1));
    assert s1 == s.(procs := map[0 := Proc(cell, id, 1, 0, Counting(0))]);
    assert Since(s1.fires, cell, 0) == {};
    var s2 := Step(1, s1, Action.Count(0, 0));
    assert s2 == s.(procs := map[0 := Proc(cell, id, 1, 0, Adding(HasRoom))]);
    var s3 := Step(1, s2, Add(0));
    assert s3 == s.(fires := map[Fire(cell, id) := 1], procs := map[0 := Proc(cell, id, 1, 0, Indexing)],
                    landedBy := s.landedBy[Fire(cell, id) := HasRoom]);
    RunCons(1, s, Begin(0, cell, id, 1), [Action.Count(0, 0)] + ([Add(0)] + [Index(0)]));
    RunCons(1, s1, Action.Count(0, 0), [Add(0)] + [Index(0)]);
    RunCons(1, s2, Add(0), [Index(0)]);
    RunOne(1, s3, Index(0));
    assert Step(1, s3, Index(0)).procs == map[];
  }

  /** A registration between two commands of a background pass. */
  function Between(first: Action, cell: string, id: string, last: Action): seq<Action> {
    [first] + (([Begin(0, cell, id, 1)] + ([Action.Count(0, 0)] + ([Add(0)] + [Index(0)]))) + [last])
  }

  /** A fire registered between the sweep's ZCARD and its DEL is deleted while it is active. */
  lemma ActiveFireDeleted(cell: string, id: string)
    ensures var s := Run(1, Start(), Between(SweepCard(cell), cell, id, SweepDel(true)));
            s.fires == map[] && s.landedBy == map[Fire(cell, id) := HasRoom] && s.clock == 0
  {
    hide Run;
    var acts := [Begin(0, cell, id, 1)] + ([Action.Count(0, 0)] + ([Add(0)] + [Index(0)]));
    var s1 := Step(1, Start(), SweepCard(cell));
    RunCons(1, Start(), SweepCard(cell), acts + [SweepDel(true)]);
    RegisterAlone(s1, cell, id);
    RunTwice(1, s1, acts, [SweepDel(true)]);
    var s2 := Run(1, s1, acts);
    RunOne(1, s2, SweepDel(true));
    assert s2.sweeping == Some(cell) && On(s2.fires, cell) == {Fire(cell, id)};
    assert Step(1, s2, SweepDel(true)).fires == map[];
  }

  /** A fire registered between the scan's ZCOUNT and its SREM stays stored and active outside the index. */
  lemma ActiveFireUnindexed(cell: string, id: string)
    ensures var s := Run(1, Start(), Between(ScanCount(cell, 0), cell, id, ScanDrop(true)));
            s.fires == map[Fire(cell, id) := 1] && s.clock == 0 && s.active == {}
  {
    hide Run;
    var acts := [Begin(0, cell, id, 1)] + ([Action.Count(0, 0)] + ([Add(0)] + [Index(0)]));
    var s1 := Step(1, Start(), ScanCount(cell, 0));
    RunCons(1, Start(), ScanCount(cell, 0), acts + [ScanDrop(true)]);
    RegisterAlone(s1, cell, id);
    RunTwice(1, s1, acts, [ScanDrop(true)]);
    var s2 := Run(1, s1, acts);
    RunOne(1, s2, ScanDrop(true));
    assert s2.dropping == Some(cell) && s2.active == {cell};
  }

  /** A fire registered between the sweep's DEL, which was safe, and its SREM ends outside the index as well. */
  lemma ActiveFireUnlisted(cell: string, id: string)
    ensures DelSafe(Run(1, Start(), [SweepCard(cell)]))
    ensures var s := Run(1, Start(), [SweepCard(cell)] + Between(SweepDel(true), cell, id, SweepUnlist(true)));
            s.fires == map[Fire(cell, id) := 1] && s.clock == 0 && s.active == {}
  {
    hide Run;
    var acts := [Begin(0, cell, id, 1)] + ([Action.Count(0, 0)] + ([Add(0)] + [Index(0)]));
    var s0 := Step(1, Start(), SweepCard(cell));
    RunOne(1, Start(), SweepCard(cell));
    RunCons(1, Start(), SweepCard(cell), Between(SweepDel(true), cell, id, SweepUnlist(true)));
    var s1 := Step(1, s0, SweepDel(true));
    RunCons(1, s0, SweepDel(true), acts + [SweepUnlist(true)]);
    RegisterAlone(s1, cell, id);
    RunTwice(1, s1, acts, [SweepUnlist(true)]);
    var s2 := Run(1, s1, acts);
    RunOne(1, s2, SweepUnlist(true));
    assert s2.unlisting == Some(cell) && s2.active == {cell};
  }
}
