/** What a registration's cascade guarantees (server/internal/sio/fire_ignite.go:271-289,
    server/internal/handler/demo_fire.go:213-231). */
module FireWalk {
  import opened Options
  import opened GoText
  import opened Grid
  import opened FireModel

  /** A chain of hops from `from` to `to`, each to one of the eight neighbours of a grid that was full when left. */
  predicate Chain(fires: map<Fire, int>, now: int, from: string, to: string, path: seq<(string, string)>)
    decreases path
  {
    if path == [] then from == to
    else
      && path[0].0 == from
      && |Since(fires, from, now)| >= 500
      && NeighborIDs(from).Some? && path[0].1 in NeighborIDs(from).value
      && Chain(fires, now, path[0].1, to, path[1..])
  }

  /** For every store and every draw the path is such a chain, one hop per draw used at most; the walk stops where
      there is room, at a grid it cannot parse, or when the draws are used up. */
  lemma {:induction false} CascadeIsChain(fires: map<Fire, int>, now: int, grid: string, choices: seq<Choice>)
    ensures var w := Walk(fires, now, grid, choices);
            && |w.path| <= |choices|
            && Chain(fires, now, grid, w.grid, w.path)
            && (|w.path| == |choices| || |Since(fires, w.grid, now)| < 500 || ParseCell(w.grid).None?)
    decreases choices
  {
    if choices != [] && Spreads(fires, now, grid) {
      var next := NeighborIDs(grid).value[choices[0]];
      CascadeIsChain(fires, now, next, choices[1..]);
      var w, rest := Walk(fires, now, grid, choices), Walk(fires, now, next, choices[1..]);
      assert w.path[1..] == rest.path;
    }
  }

  /** Each hop goes to the neighbour that its draw names. */
  lemma {:induction false} HopsFollowDraws(fires: map<Fire, int>, now: int, grid: string, choices: seq<Choice>, i: nat)
    requires i < |Walk(fires, now, grid, choices).path| && i < |choices|
    ensures var hop := Walk(fires, now, grid, choices).path[i];
            NeighborIDs(hop.0).Some? && hop.1 == NeighborIDs(hop.0).value[choices[i]]
    decreases choices
  {
    hide NeighborIDs, Since;
    var next := NeighborIDs(grid).value[choices[0]];
    var w, rest := Walk(fires, now, grid, choices), Walk(fires, now, next, choices[1..]);
    assert w.path == [(grid, next)] + rest.path;
    if i > 0 {
      HopsFollowDraws(fires, now, next, choices[1..], i - 1);
    }
  }

  lemma IndexOf(ids: seq<string>, next: string) returns (i: nat)
    requires next in ids
    ensures i < |ids| && ids[i] == next
  {
    i :| 0 <= i < |ids| && ids[i] == next;
  }

  lemma NeighborIsFormatted(id: string, next: string) returns (c: Cell, i: nat)
    requires NeighborIDs(id).Some? && next in NeighborIDs(id).value
    ensures ParseCell(id) == Some(c) && i < 8 && next == Format(NeighborCells(c)[i])
  {
    c := ParseCell(id).value;
    i := IndexOf(NeighborIDs(id).value, next);
  }

  lemma NeighborIsShift(c: Cell, i: nat) returns (dlat: int, dlng: int)
    requires i < 8
    ensures -1 <= dlat <= 1 && -1 <= dlng <= 1 && (dlat, dlng) != (0, 0)
    ensures NeighborCells(c)[i] == Shift(c, dlat, dlng)
  {
    dlat, dlng := Offset(i).0, Offset(i).1;
  }

  lemma ShiftsAdd(c: Cell, a: int, b: int, x: int, y: int)
    ensures Shift(Shift(c, a, b), x, y) == Shift(c, a + x, b + y)
  {
    WrapAdds(c.lat + a, x);
    WrapAdds(c.lng + b, y);
  }

  lemma ShiftFacts(c: Cell, dlat: int, dlng: int)
    ensures InRange(Shift(c, dlat, dlng)) && (InRange(c) ==> Shift(c, 0, 0) == c)
  {
  }

  /** The landing cell lies within Chebyshev distance |path| of the requested one (on the 64-bit torus the source
      computes on), and every grid of the path parses when the requested one does. */
  lemma {:induction false} LandsWithinReach(fires: map<Fire, int>, now: int, from: string, to: string,
                                            path: seq<(string, string)>) returns (dlat: int, dlng: int)
    requires Chain(fires, now, from, to, path) && ParseCell(from).Some?
    ensures -|path| <= dlat <= |path| && -|path| <= dlng <= |path|
    ensures ParseCell(to) == Some(Shift(ParseCell(from).value, dlat, dlng))
    decreases path
  {
    hide ParseCell, Format, NeighborIDs, NeighborCells, Shift, InRange, Since;
    if path == [] {
      dlat, dlng := 0, 0;
      ParsedInRange(from);
      ShiftFacts(ParseCell(from).value, 0, 0);
    } else {
      var c, i := NeighborIsFormatted(from, path[0].1);
      var a, b := NeighborIsShift(c, i);
      ShiftFacts(c, a, b);
      ParseFormat(Shift(c, a, b));
      var x, y := LandsWithinReach(fires, now, path[0].1, to, path[1..]);
      dlat, dlng := a + x, b + y;
      ShiftsAdd(c, a, b, x, y);
    }
  }

  lemma ParsedInRange(id: string)
    requires ParseCell(id).Some?
    ensures InRange(ParseCell(id).value)
  {
  }

  lemma NewFireCounts(fires: map<Fire, int>, fire: Fire, expireAt: int, now: int)
    ensures fire !in fires ==>
              |Since(fires[fire := expireAt], fire.grid, now)| == |Since(fires, fire.grid, now)|
                  + if expireAt >= now then 1 else 0
  {
    if fire !in fires {
      assert Since(fires[fire := expireAt], fire.grid, now)
          == Since(fires, fire.grid, now) + if expireAt >= now then {fire} else {};
    }
  }

  /** A registration that succeeds stores its fire on the landing grid, indexes that grid, moves no other fire, counts
      the fire once, and reports the active fires of that grid, the new one included if it is active. */
  lemma RegistrationStores(st: Store, r: Request, choices: seq<Choice>, member: string, x: Faults)
    requires |choices| == MAX_HOPS && Registered(st, r, choices, member, x).1.Some?
    ensures var (st', reg) := Registered(st, r, choices, member, x);
            var fire := Fire(reg.value.grid, r.id);
            && fire in st'.fires && st'.fires[fire] == r.expireAt
            && st'.fires - {fire} == st.fires - {fire}
            && st'.active == st.active + {reg.value.grid}
            && st'.total == st.total + 1 && st'.daily == st.daily + multiset{r.day}
            && st'.ranking == (if x.ranking then st.ranking else st.ranking + multiset{(r.day, member)})
            && (fire !in st.fires ==>
                  reg.value.activeCount == |Since(st.fires, reg.value.grid, r.now)|
                      + if r.expireAt >= r.now then 1 else 0)
  {
    hide Walk, Since, CountsAt;
    var fire := Fire(Walk(st.fires, r.now, r.grid, choices).grid, r.id);
    NewFireCounts(st.fires, fire, r.expireAt, r.now);
  }

  /** A registration that fails leaves what the commands before the failing one did, in the order count, ZADD, SADD,
      total, daily, ranking, final count; a failing ranking stops nothing. */
  lemma RegistrationFails(st: Store, r: Request, choices: seq<Choice>, member: string, x: Faults)
    requires |choices| == MAX_HOPS && Registered(st, r, choices, member, x).1.None?
    ensures var w := Walk(st.fires, r.now, r.grid, choices);
            var grid := w.grid;
            var fires, ranked := st.fires[Fire(grid, r.id) := r.expireAt], st.ranking + multiset{(r.day, member)};
            Registered(st, r, choices, member, x).0 ==
            if (x.countAt.Some? && x.countAt.value < 8 && x.countAt.value <= |w.path|) || x.add then st
            else if x.index then st.(fires := fires)
            else if x.total then st.(fires := fires, active := st.active + {grid})
            else if x.daily then st.(fires := fires, active := st.active + {grid}, total := st.total + 1)
            else Store(fires, st.active + {grid}, st.total + 1, st.daily + multiset{r.day},
                       if x.ranking then st.ranking else ranked)
  {
    hide Walk;
  }

  /** It succeeds exactly when no command but the ranking one fails, and a failing count is one the walk reaches. */
  lemma RegistrationSucceeds(st: Store, r: Request, choices: seq<Choice>, member: string, x: Faults)
    requires |choices| == MAX_HOPS
    ensures var w, reg := Walk(st.fires, r.now, r.grid, choices), Registered(st, r, choices, member, x).1;
            && (reg.Some? <==> && !(x.countAt.Some? && x.countAt.value < 8 && x.countAt.value <= |w.path|)
                               && !x.add && !x.index && !x.total && !x.daily && !x.final)
            && (reg.Some? ==> reg.value.path == w.path && reg.value.grid == w.grid)
  {
    hide Walk;
  }

  /** Where it lands: after a chain of at most eight hops, with room there unless all eight were used. */
  lemma RegistrationLands(st: Store, r: Request, choices: seq<Choice>, member: string, x: Faults)
    returns (dlat: int, dlng: int)
    requires |choices| == MAX_HOPS && ParseCell(r.grid).Some?
    requires Registered(st, r, choices, member, x).1.Some?
    ensures var g := Registered(st, r, choices, member, x).1.value;
            && Chain(st.fires, r.now, r.grid, g.grid, g.path) && |g.path| <= 8
            && (|g.path| == 8 || |Since(st.fires, g.grid, r.now)| < 500)
            && -|g.path| <= dlat <= |g.path| && -|g.path| <= dlng <= |g.path|
            && ParseCell(g.grid) == Some(Shift(ParseCell(r.grid).value, dlat, dlng))
  {
    CascadeIsChain(st.fires, r.now, r.grid, choices);
    var w := Walk(st.fires, r.now, r.grid, choices);
    dlat, dlng := LandsWithinReach(st.fires, r.now, r.grid, w.grid, w.path);
  }
}
