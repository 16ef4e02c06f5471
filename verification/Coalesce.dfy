/** Fire updates coalesced per grid on the server and replayed on the client's map
    (server/internal/sio/fire_batcher.go, client/src/features/fire-map/stores/fireStore.ts). */
module Coalesce {
  import opened Options

  datatype FireUpdate = FireUpdate(
    gridID: string, activeCount: int, stage: int, eventID: string, timestamp: real,
    lat: Option<real>, lng: Option<real>)

  /** What goes over the wire and what the client stores. */
  datatype FireCell = FireCell(gridId: string, activeCount: int, stage: int, lat: Option<real>, lng: Option<real>)

  function Payload(u: FireUpdate): FireCell { FireCell(u.gridID, u.activeCount, u.stage, u.lat, u.lng) }

  function Payloads(us: seq<FireUpdate>): seq<FireCell> {
    seq(|us|, i requires 0 <= i < |us| => Payload(us[i]))
  }

  // ---- the client's map, one update at a time ----

  function Applied(fires: map<string, FireCell>, cell: FireCell): map<string, FireCell> {
    if cell.activeCount > 0 then fires[cell.gridId := cell] else fires - {cell.gridId}
  }

  function AppliedAll(fires: map<string, FireCell>, cells: seq<FireCell>): map<string, FireCell> {
    if cells == [] then fires
    else Applied(AppliedAll(fires, cells[..|cells| - 1]), cells[|cells| - 1])
  }

  /** The last cell for a grid. */
  function Last(cells: seq<FireCell>, g: string): Option<FireCell> {
    if cells == [] then None
    else if cells[|cells| - 1].gridId == g then Some(cells[|cells| - 1])
    else Last(cells[..|cells| - 1], g)
  }

  function Shown(cell: FireCell): Option<FireCell> {
    if cell.activeCount > 0 then Some(cell) else None
  }

  /** After any list of updates a grid shows its last one, or what it showed before if the list names it nowhere. */
  lemma {:induction false} AppliedAt(fires: map<string, FireCell>, cells: seq<FireCell>, g: string)
    ensures Lookup(AppliedAll(fires, cells), g) ==
            match Last(cells, g) { case None => Lookup(fires, g) case Some(c) => Shown(c) }
    decreases cells
  {
    if cells != [] {
      AppliedAt(fires, cells[..|cells| - 1], g);
    }
  }

  lemma SameEverywhere(m: map<string, FireCell>, n: map<string, FireCell>)
    requires forall g :: Lookup(m, g) == Lookup(n, g)
    ensures m == n
  {
    forall g ensures g in m <==> g in n {
      assert Lookup(m, g) == Lookup(n, g);
    }
    forall g | g in m ensures m[g] == n[g] {
      assert Lookup(m, g) == Lookup(n, g);
    }
  }

  lemma {:induction false} LastIsThere(cells: seq<FireCell>, g: string)
    ensures Last(cells, g).Some? ==> Last(cells, g).value in cells && Last(cells, g).value.gridId == g
    ensures Last(cells, g).None? ==> forall c :: c in cells ==> c.gridId != g
    decreases cells
  {
    if cells != [] {
      LastIsThere(cells[..|cells| - 1], g);
      assert cells == cells[..|cells| - 1] + [cells[|cells| - 1]];
    }
  }

  // ---- the server's pending map ----

  function Pending(us: seq<FireUpdate>): map<string, FireUpdate> {
    if us == [] then map[] else Pending(us[..|us| - 1])[us[|us| - 1].gridID := us[|us| - 1]]
  }

  ghost predicate Keyed(pending: map<string, FireUpdate>) {
    forall g :: g in pending ==> pending[g].gridID == g
  }

  /** A broadcast of the pending updates: each once, in whatever order the map is visited. */
  ghost predicate Lists(sent: seq<FireCell>, pending: map<string, FireUpdate>) {
    && (forall c :: c in sent ==> c.gridId in pending && c == Payload(pending[c.gridId]))
    && (forall g :: g in pending ==> Payload(pending[g]) in sent)
    && (forall i, j :: 0 <= i < j < |sent| ==> sent[i].gridId != sent[j].gridId)
  }

  lemma {:induction false} LastListed(sent: seq<FireCell>, pending: map<string, FireUpdate>, g: string)
    requires Keyed(pending) && Lists(sent, pending)
    ensures Last(sent, g) == if g in pending then Some(Payload(pending[g])) else None
  {
    LastIsThere(sent, g);
    if g in pending {
      assert Payload(pending[g]) in sent;
    }
  }

  // ---- whole runs ----

  /** The server's pending map, the client's map, and the map of a client that had been told everything at once. */
  datatype World = World(pending: map<string, FireUpdate>, client: map<string, FireCell>, direct: map<string, FireCell>)

  datatype Action = Add(u: FireUpdate) | Flush(sent: seq<FireCell>)

  function Step(w: World, a: Action): World {
    match a
    case Add(u) => w.(pending := w.pending[u.gridID := u], direct := Applied(w.direct, Payload(u)))
    case Flush(sent) => w.(pending := map[], client := AppliedAll(w.client, sent))
  }

  ghost predicate Possible(w: World, a: Action) {
    a.Flush? ==> Lists(a.sent, w.pending)
  }

  /** What is pending is exactly what the client still misses. */
  ghost predicate OnlyPendingIsMissing(w: World) {
    && Keyed(w.pending)
    && forall g :: Lookup(w.direct, g) == if g in w.pending then Shown(Payload(w.pending[g])) else Lookup(w.client, g)
  }

  lemma {:induction false} StepKeeps(w: World, a: Action)
    requires OnlyPendingIsMissing(w) && Possible(w, a)
    ensures OnlyPendingIsMissing(Step(w, a))
    ensures a.Flush? ==> Step(w, a).client == w.direct
  {
    if a.Flush? {
      forall g ensures Lookup(AppliedAll(w.client, a.sent), g) == Lookup(w.direct, g) {
        AppliedAt(w.client, a.sent, g);
        LastListed(a.sent, w.pending, g);
      }
      SameEverywhere(AppliedAll(w.client, a.sent), w.direct);
    } else {
      forall g ensures Lookup(Applied(w.direct, Payload(a.u)), g)
                       == if g == a.u.gridID then Shown(Payload(a.u)) else Lookup(w.direct, g) {
      }
    }
  }

  function Run(w: World, acts: seq<Action>): World
    decreases acts
  {
    if acts == [] then w else Step(Run(w, acts[..|acts| - 1]), acts[|acts| - 1])
  }

  ghost predicate PossibleRun(w: World, acts: seq<Action>)
    decreases acts
  {
    acts == [] ||
    (PossibleRun(w, acts[..|acts| - 1]) && Possible(Run(w, acts[..|acts| - 1]), acts[|acts| - 1]))
  }

  /** Every update ever added, in order. */
  function Added(acts: seq<Action>): seq<FireCell>
    decreases acts
  {
    if acts == [] then []
    else Added(acts[..|acts| - 1]) + match acts[|acts| - 1] { case Add(u) => [Payload(u)] case Flush(_) => [] }
  }

  lemma AppliedOneMore(fires: map<string, FireCell>, cells: seq<FireCell>, c: FireCell)
    ensures AppliedAll(fires, cells + [c]) == Applied(AppliedAll(fires, cells), c)
  {
    assert (cells + [c])[..|cells|] == cells;
  }

  lemma {:induction false} DirectIsReplay(fires: map<string, FireCell>, acts: seq<Action>)
    ensures Run(World(map[], fires, fires), acts).direct == AppliedAll(fires, Added(acts))
    decreases acts
  {
    hide AppliedAll, Applied, Payload;
    if acts == [] {
      NothingApplied(fires);
    } else {
      var init := acts[..|acts| - 1];
      DirectIsReplay(fires, init);
      match acts[|acts| - 1]
      case Flush(_) =>
        assert Added(acts) == Added(init);
      case Add(u) =>
        assert Added(acts) == Added(init) + [Payload(u)];
        AppliedOneMore(fires, Added(init), Payload(u));
    }
  }

  lemma NothingApplied(fires: map<string, FireCell>)
    ensures AppliedAll(fires, []) == fires
  {
  }

  lemma {:induction false} MissingInEveryRun(fires: map<string, FireCell>, acts: seq<Action>)
    requires PossibleRun(World(map[], fires, fires), acts)
    ensures OnlyPendingIsMissing(Run(World(map[], fires, fires), acts))
    decreases acts
  {
    if acts != [] {
      MissingInEveryRun(fires, acts[..|acts| - 1]);
      StepKeeps(Run(World(map[], fires, fires), acts[..|acts| - 1]), acts[|acts| - 1]);
    }
  }

  /** However adds and flushes interleave and whatever order each flush visits its map in: right after a flush the
      client shows what replaying every single update in order would show. */
  lemma {:induction false} FlushCatchesUp(fires: map<string, FireCell>, acts: seq<Action>)
    requires PossibleRun(World(map[], fires, fires), acts)
    requires acts != [] && acts[|acts| - 1].Flush?
    ensures Run(World(map[], fires, fires), acts).client == AppliedAll(fires, Added(acts))
    ensures Run(World(map[], fires, fires), acts).pending == map[]
  {
    var init := acts[..|acts| - 1];
    MissingInEveryRun(fires, init);
    StepKeeps(Run(World(map[], fires, fires), init), acts[|acts| - 1]);
    DirectIsReplay(fires, acts);
  }

  /** The last thing added for a grid, as the client should show it. */
  lemma {:induction false} LastAdded(acts: seq<Action>, i: nat)
    requires i < |acts| && acts[i].Add?
    requires forall j :: i < j < |acts| && acts[j].Add? ==> acts[j].u.gridID != acts[i].u.gridID
    ensures var u := acts[i].u;
            Last(Added(acts), u.gridID) == Some(FireCell(u.gridID, u.activeCount, u.stage, u.lat, u.lng))
    decreases acts
  {
    var n := |acts| - 1;
    if i < n {
      LastAdded(acts[..n], i);
    }
    match acts[n]
    case Flush(_) => assert Added(acts) == Added(acts[..n]);
    case Add(u) => LastOneMore(Added(acts[..n]), Payload(u), acts[i].u.gridID);
  }

  lemma LastOneMore(cells: seq<FireCell>, c: FireCell, g: string)
    ensures Last(cells + [c], g) == if c.gridId == g then Some(c) else Last(cells, g)
  {
    assert (cells + [c])[..|cells|] == cells;
  }

  lemma {:induction false} NeverAdded(acts: seq<Action>, g: string)
    requires forall a :: a in acts && a.Add? ==> a.u.gridID != g
    ensures Last(Added(acts), g).None?
    decreases acts
  {
    if acts != [] {
      var n := |acts| - 1;
      NeverAdded(acts[..n], g);
      match acts[n]
      case Flush(_) => assert Added(acts) == Added(acts[..n]);
      case Add(u) =>
        assert u.gridID != g;
        LastOneMore(Added(acts[..n]), Payload(u), g);
    }
  }

  /** After a flush the client has a grid exactly when the last update added for it counts fires, and then shows that
      update's own count, stage and position. */
  lemma FlushShowsLastAdd(fires: map<string, FireCell>, acts: seq<Action>, i: nat)
    requires PossibleRun(World(map[], fires, fires), acts) && acts != [] && acts[|acts| - 1].Flush?
    requires i < |acts| && acts[i].Add?
    requires forall j :: i < j < |acts| && acts[j].Add? ==> acts[j].u.gridID != acts[i].u.gridID
    ensures var u, client := acts[i].u, Run(World(map[], fires, fires), acts).client;
            && (u.gridID in client <==> u.activeCount > 0)
            && (u.gridID in client ==>
                  && client[u.gridID].gridId == u.gridID
                  && client[u.gridID].activeCount == u.activeCount && client[u.gridID].stage == u.stage
                  && client[u.gridID].lat == u.lat && client[u.gridID].lng == u.lng)
  {
    hide Run, Added, Last, AppliedAll;
    FlushCatchesUp(fires, acts);
    LastAdded(acts, i);
    AppliedAt(fires, Added(acts), acts[i].u.gridID);
  }

  /** A grid that nothing was added for is shown as before. */
  lemma FlushKeepsTheRest(fires: map<string, FireCell>, acts: seq<Action>, g: string)
    requires PossibleRun(World(map[], fires, fires), acts) && acts != [] && acts[|acts| - 1].Flush?
    requires forall a :: a in acts && a.Add? ==> a.u.gridID != g
    ensures var client := Run(World(map[], fires, fires), acts).client;
            (g in client <==> g in fires) && (g in fires ==> client[g] == fires[g])
  {
    hide Run, Added, Last, AppliedAll;
    FlushCatchesUp(fires, acts);
    NeverAdded(acts, g);
    AppliedAt(fires, Added(acts), g);
  }

  /** Between flushes the client is behind exactly on the pending grids that would change. */
  lemma {:induction false} BehindExactly(fires: map<string, FireCell>, acts: seq<Action>)
    requires PossibleRun(World(map[], fires, fires), acts)
    ensures var w := Run(World(map[], fires, fires), acts);
            w.client == AppliedAll(fires, Added(acts)) <==>
            forall g :: g in w.pending ==> Lookup(w.client, g) == Shown(Payload(w.pending[g]))
  {
    var w := Run(World(map[], fires, fires), acts);
    MissingInEveryRun(fires, acts);
    DirectIsReplay(fires, acts);
    if forall g :: g in w.pending ==> Lookup(w.client, g) == Shown(Payload(w.pending[g])) {
      SameEverywhere(w.client, w.direct);
    }
  }

  // ---- explosions, which coalescing can swallow ----

  predicate Explodes(cell: FireCell) { cell.activeCount > 0 && cell.stage >= 5 }

  predicate EndsBurntOut(cells: seq<FireCell>, g: string) {
    Last(cells, g).Some? && Explodes(Last(cells, g).value)
  }

  function Explosions(cells: seq<FireCell>): set<string> {
    set c | c in cells && Explodes(c) :: c.gridId
  }

  lemma {:induction false} PendingIsLast(us: seq<FireUpdate>, g: string)
    ensures Keyed(Pending(us))
    ensures (if g in Pending(us) then Some(Payload(Pending(us)[g])) else None) == Last(Payloads(us), g)
    decreases us
  {
    if us != [] {
      PendingIsLast(us[..|us| - 1], g);
      assert Payloads(us)[..|us| - 1] == Payloads(us[..|us| - 1]);
      forall h | h in Pending(us) ensures Pending(us)[h].gridID == h {
        PendingIsLast(us[..|us| - 1], h);
      }
    }
  }

  /** updateFire starts an explosion for every burnt-out cell it is given. A flush starts the same ones as the single
      updates would have exactly when no grid leaves the burnt-out stage again within the batch. */
  lemma {:induction false} ExplosionsKeptExactly(us: seq<FireUpdate>, sent: seq<FireCell>)
    requires Lists(sent, Pending(us))
    ensures Explosions(sent) <= Explosions(Payloads(us))
    ensures Explosions(sent) == Explosions(Payloads(us)) <==>
            forall i :: 0 <= i < |us| && Explodes(Payload(us[i])) ==> EndsBurntOut(Payloads(us), us[i].gridID)
  {
    var all := Payloads(us);
    forall g ensures g in Explosions(sent) <==> EndsBurntOut(all, g) {
      PendingIsLast(us, g);
      LastListed(sent, Pending(us), g);
      LastIsThere(sent, g);
      if g in Explosions(sent) {
        var c :| c in sent && Explodes(c) && c.gridId == g;
      }
    }
    forall g ensures Last(all, g).Some? ==> Last(all, g).value in all && Last(all, g).value.gridId == g {
      LastIsThere(all, g);
    }
    forall i | 0 <= i < |us| ensures Payload(us[i]) in all && Last(all, us[i].gridID).Some? {
      assert all[i] == Payload(us[i]);
      LastIsThere(all, us[i].gridID);
    }
    forall c | c in all ensures exists i :: 0 <= i < |us| && Payload(us[i]) == c {
      var i :| 0 <= i < |all| && all[i] == c;
    }
  }

  // ---- the full list ----

  function Synced(cells: seq<FireCell>): map<string, FireCell> {
    if cells == [] then map[]
    else
      var last := cells[|cells| - 1];
      var init := Synced(cells[..|cells| - 1]);
      if last.activeCount > 0 then init[last.gridId := last] else init
  }

  predicate EndsLit(cells: seq<FireCell>, g: string) {
    Last(cells, g).Some? && Last(cells, g).value.activeCount > 0
  }

  /** After a sync exactly the grids listed with fires are shown, each as it was last listed with fires. */
  lemma {:induction false} SyncShowsLit(cells: seq<FireCell>, i: nat)
    requires i < |cells| && cells[i].activeCount > 0
    requires forall j :: i < j < |cells| && cells[j].activeCount > 0 ==> cells[j].gridId != cells[i].gridId
    ensures Lookup(Synced(cells), cells[i].gridId) == Some(cells[i])
    decreases cells
  {
    var n := |cells| - 1;
    if i < n {
      SyncShowsLit(cells[..n], i);
    }
  }

  lemma {:induction false} SyncedAt(cells: seq<FireCell>, g: string)
    ensures g in Synced(cells) <==> exists c :: c in cells && c.gridId == g && c.activeCount > 0
    ensures EndsLit(cells, g) ==> Lookup(Synced(cells), g) == Last(cells, g)
    decreases cells
  {
    if cells != [] {
      SyncedAt(cells[..|cells| - 1], g);
      assert cells == cells[..|cells| - 1] + [cells[|cells| - 1]];
      if exists c :: c in cells && c.gridId == g && c.activeCount > 0 {
        var c :| c in cells && c.gridId == g && c.activeCount > 0;
        assert c in cells[..|cells| - 1] || c == cells[|cells| - 1];
      }
    }
  }

  /** syncFires shows what applying its cells one by one to an empty map would show, exactly when no grid listed with
      fires is listed last without. */
  lemma {:induction false} SyncIsReplayExactly(cells: seq<FireCell>)
    ensures Synced(cells) == AppliedAll(map[], cells) <==>
            forall c :: c in cells && c.activeCount > 0 ==> EndsLit(cells, c.gridId)
  {
    forall g ensures Last(cells, g).Some? <==> exists c :: c in cells && c.gridId == g {
      LastIsThere(cells, g);
    }
    forall g ensures Lookup(Synced(cells), g) == Lookup(AppliedAll(map[], cells), g) <==>
                     forall c :: c in cells && c.gridId == g && c.activeCount > 0 ==> EndsLit(cells, g) {
      SyncedAt(cells, g);
      AppliedAt(map[], cells, g);
    }
    if forall c :: c in cells && c.activeCount > 0 ==> EndsLit(cells, c.gridId) {
      SameEverywhere(Synced(cells), AppliedAll(map[], cells));
    }
  }

  // ---- the objects ----

  class FireBatcher {
    var pending: map<string, FireUpdate>

    ghost predicate Valid()
      reads this
    {
      Keyed(pending)
    }

    constructor ()
      ensures Valid() && pending == map[]
    {
      pending := map[];
    }

    method Add(update: FireUpdate)
      requires Valid()
      modifies this
      ensures Valid() && pending == old(pending)[update.gridID := update]
    {
      pending := pending[update.gridID := update];
    }

    /** Takes the pending map and broadcasts it; adds that come later wait for the next flush. */
    method Flush() returns (sent: seq<FireCell>)
      requires Valid()
      modifies this
      ensures Valid() && pending == map[] && Lists(sent, old(pending))
      ensures forall c :: c in sent ==>
                c.gridId in old(pending) && var u := old(pending)[c.gridId];
                u.gridID == c.gridId && (c.activeCount, c.stage, c.lat, c.lng) == (u.activeCount, u.stage, u.lat, u.lng)
      ensures forall g :: g in old(pending) ==> exists c :: c in sent && c.gridId == g
    {
      sent := [];
      if |pending| == 0 {
        return;
      }
      var batch := pending;
      pending := map[];
      var todo := batch.Keys;
      while todo != {}
        invariant todo <= batch.Keys
        invariant forall c :: c in sent ==> c.gridId in batch && c == Payload(batch[c.gridId]) && c.gridId !in todo
        invariant forall g :: g in batch && g !in todo ==> Payload(batch[g]) in sent
        invariant forall i, j :: 0 <= i < j < |sent| ==> sent[i].gridId != sent[j].gridId
        decreases todo
      {
        var g :| g in todo;
        var u := batch[g];
        todo := todo - {g};
        sent := sent + [FireCell(u.gridID, u.activeCount, u.stage, u.lat, u.lng)];
      }
    }
  }

  class FireStore {
    var fires: map<string, FireCell>
    var exploded: seq<string>

    constructor ()
      ensures fires == map[] && exploded == []
    {
      fires, exploded := map[], [];
    }

    method UpdateFire(cell: FireCell)
      modifies this
      ensures fires == Applied(old(fires), cell)
      ensures fires == if cell.activeCount > 0 then old(fires)[cell.gridId := cell] else old(fires) - {cell.gridId}
      ensures exploded == old(exploded) + if cell.activeCount > 0 && cell.stage >= 5 then [cell.gridId] else []
    {
      var next := fires;
      if cell.activeCount > 0 {
        next := next[cell.gridId := cell];
        if cell.stage >= 5 {
          exploded := exploded + [cell.gridId];
        }
      } else {
        next := next - {cell.gridId};
      }
      fires := next;
    }

    method SyncFires(cells: seq<FireCell>)
      modifies this`fires
      ensures fires == Synced(cells)
    {
      var next: map<string, FireCell> := map[];
      for i := 0 to |cells|
        invariant next == Synced(cells[..i])
      {
        assert cells[..i + 1][..i] == cells[..i];
        var cell := cells[i];
        if cell.activeCount > 0 {
          next := next[cell.gridId := cell];
        }
      }
      assert cells[..|cells|] == cells;
      fires := next;
    }

    /** The updates of one flush, as they arrive. */
    method Receive(cells: seq<FireCell>)
      modifies this
      ensures fires == AppliedAll(old(fires), cells)
      ensures forall g :: g in exploded <==> g in old(exploded) || g in Explosions(cells)
      ensures forall g :: g in exploded <==>
                g in old(exploded) || exists c :: c in cells && c.activeCount > 0 && c.stage >= 5 && c.gridId == g
    {
      for i := 0 to |cells|
        invariant fires == AppliedAll(old(fires), cells[..i])
        invariant forall g :: g in exploded <==> g in old(exploded) || g in Explosions(cells[..i])
      {
        assert cells[..i + 1][..i] == cells[..i];
        assert cells[..i + 1] == cells[..i] + [cells[i]];
        UpdateFire(cells[i]);
      }
      assert cells[..|cells|] == cells;
    }
  }
}
