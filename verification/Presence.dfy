/** Who is connected and in which room, recorded three times: by the namespace, by its rooms and by the connection
    manager (server/pkg/socketio/namespace.go, server/pkg/socketio/room.go, server/internal/sio/connection_manager.go),
    and what the handlers do to all three. `R` identifies connection records, which the source shares by pointer. */
module Presence {
  import opened Options
  import opened Rooms

  const CHAT_ROOM := "chat:global"
  const HEARTBEAT_TIMEOUT_MS := 30000

  datatype Info = Info(sid: string, user: string, rooms: set<string>, heartbeat: int, reconnects: nat)

  datatype World<!R(==)> = World(
    sockets: set<string>,          // the namespace's connected set
    members: set<Pair>,            // its rooms
    infos: map<R, Info>,           // every record made so far
    conns: map<string, R>,         // the manager's connections
    users: map<string, R>,         // its userSessions
    told: Option<nat>,             // the last users:count sent
    presence: Option<nat>)         // the last chat:presence sent

  function Nobody<R(==)>(): World<R> { World({}, {}, map[], map[], map[], None, None) }

  /** The record a map entry points to. */
  function InfoAt<R(==)>(infos: map<R, Info>, index: map<string, R>, key: string): Option<Info> {
    if key in index && index[key] in infos then Some(infos[index[key]]) else None
  }

  function InChat(members: set<Pair>): set<Pair> { set p | p in members && p.1 == CHAT_ROOM }

  function Entering(sid: string, rooms: set<string>): set<Pair> { set r | r in rooms :: (sid, r) }

  function TrackedRooms<R(==)>(w: World<R>, sid: string): set<string> {
    match InfoAt(w.infos, w.conns, sid)
    case None => {}
    case Some(info) => info.rooms
  }

  function SetRooms<R(==)>(w: World<R>, sid: string, rooms: set<string>): World<R> {
    match InfoAt(w.infos, w.conns, sid)
    case None => w
    case Some(info) => w.(infos := w.infos[w.conns[sid] := info.(rooms := rooms)])
  }

  // ---- the handlers ----

  /** What a returning user brings along: the rooms of the last record and the next reconnect count. */
  function Previous<R(==)>(infos: map<R, Info>, users: map<string, R>, user: string): (set<string>, nat) {
    if user == "" then ({}, 0)
    else
      match InfoAt(infos, users, user)
      case None => ({}, 0)
      case Some(prev) => (prev.rooms, prev.reconnects + 1)
  }

  /** The connect handler for a valid token of `user`; `r` is the new record. */
  function Admitted<R(==)>(w: World<R>, r: R, sid: string, user: string, now: int): World<R> {
    var (rooms, count) := Previous(w.infos, w.users, user);
    var conns := w.conns[sid := r];
    w.(members := w.members + Entering(sid, rooms), infos := w.infos[r := Info(sid, user, rooms, now, count)],
       conns := conns, users := if user == "" then w.users else w.users[user := r], told := Some(|conns|))
  }

  /** HandleConnect: the namespace lists the socket once the handler has accepted it. */
  function Connected<R(==)>(w: World<R>, r: R, sid: string, user: string, now: int): World<R> {
    Admitted(w, r, sid, user, now).(sockets := w.sockets + {sid})
  }

  /** chat:join */
  function ChatJoined<R(==)>(w: World<R>, sid: string): World<R> {
    if sid !in w.conns then w
    else
      var members := w.members + {(sid, CHAT_ROOM)};
      SetRooms(w, sid, TrackedRooms(w, sid) + {CHAT_ROOM}).(members := members, presence := Some(|InChat(members)|))
  }

  /** chat:leave */
  function ChatLeft<R(==)>(w: World<R>, sid: string): World<R> {
    var members := w.members - {(sid, CHAT_ROOM)};
    SetRooms(w, sid, TrackedRooms(w, sid) - {CHAT_ROOM}).(members := members, presence := Some(|InChat(members)|))
  }

  /** subscribe:viewport: every tracked room is left, the chat room included. */
  function Moved<R(==)>(w: World<R>, sid: string, rooms: set<string>): World<R> {
    SetRooms(w, sid, rooms).(members := w.members - Entering(sid, TrackedRooms(w, sid)) + Entering(sid, rooms))
  }

  function Heard<R(==)>(w: World<R>, sid: string, now: int): World<R> {
    match InfoAt(w.infos, w.conns, sid)
    case None => w
    case Some(info) => w.(infos := w.infos[w.conns[sid] := info.(heartbeat := now)])
  }

  /** userSessions once the manager removes sid: its user's entry goes if it still points to this session. */
  function UsersWithout<R(==)>(infos: map<R, Info>, conns: map<string, R>, users: map<string, R>,
                          sid: string): map<string, R> {
    match InfoAt(infos, conns, sid)
    case None => users
    case Some(info) =>
      var current := InfoAt(infos, users, info.user);
      if info.user != "" && current.Some? && current.value.sid == sid then users - {info.user} else users
  }

  /** The disconnect callback, run once the namespace has forgotten the session. */
  function Farewell<R(==)>(w: World<R>, sid: string): World<R> {
    var conns := w.conns - {sid};
    w.(conns := conns, users := UsersWithout(w.infos, w.conns, w.users, sid), told := Some(|conns|),
       presence := if CHAT_ROOM in TrackedRooms(w, sid) then Some(|InChat(w.members)|) else w.presence)
  }

  /** HandleDisconnect: first the namespace and its rooms, then the callback. */
  function Disconnected<R(==)>(w: World<R>, sid: string): World<R> {
    Farewell(w.(sockets := w.sockets - {sid}, members := Without(w.members, sid)), sid)
  }

  /** DisconnectAll: only what the namespace knows is disconnected. */
  function DisconnectedAll<R(==)>(w: World<R>, sid: string): World<R> {
    if sid in w.sockets then Disconnected(w, sid) else w
  }

  predicate IsStale<R(==)>(w: World<R>, sid: string, now: int) {
    var info := InfoAt(w.infos, w.conns, sid);
    info.Some? && now - info.value.heartbeat > HEARTBEAT_TIMEOUT_MS
  }

  /** The manager alone removes the session. */
  function Forgotten<R(==)>(w: World<R>, sid: string): World<R> {
    w.(conns := w.conns - {sid}, users := UsersWithout(w.infos, w.conns, w.users, sid))
  }

  function ReapedOne<R(==)>(w: World<R>, sid: string, fails: set<string>): World<R> {
    if sid in fails then Forgotten(w, sid) else DisconnectedAll(w, sid)
  }

  /** A reap pass; `fails` are the sessions for which the disconnect callback fails or is missing. */
  function Reaped<R(==)>(w: World<R>, stale: seq<string>, fails: set<string>): World<R>
    decreases stale
  {
    if stale == [] then w else Reaped(ReapedOne(w, stale[0], fails), stale[1..], fails)
  }

  // ---- agreement ----

  /** The three records agree, no other session is in any room, every userSessions entry points to a live connection
      of that user, and the last count sent is the live count. */
  ghost predicate Agree<R>(w: World<R>) {
    && w.sockets == w.conns.Keys
    && Recorded(w) && RoomsMatch(w) && UsersLive(w)
    && (w.told.Some? ==> w.told.value == |w.conns|)
  }

  ghost predicate Recorded<R>(w: World<R>) {
    forall s :: s in w.conns ==> w.conns[s] in w.infos && w.infos[w.conns[s]].sid == s
  }

  ghost predicate RoomsMatch<R>(w: World<R>)
    requires Recorded(w)
  {
    && (forall s, r :: s in w.conns ==> ((s, r) in w.members <==> r in w.infos[w.conns[s]].rooms))
    && (forall p :: p in w.members ==> p.0 in w.conns)
  }

  ghost predicate UsersLive<R>(w: World<R>) {
    forall u :: u in w.users ==> u != "" && w.users[u] in w.infos && LiveSession(w, u)
  }

  predicate LiveSession<R(==)>(w: World<R>, u: string)
    requires u in w.users && w.users[u] in w.infos
  {
    var info := w.infos[w.users[u]];
    info.user == u && info.sid in w.conns && w.conns[info.sid] == w.users[u]
  }

  datatype Action<R> =
    | Connect(r: R, sid: string, user: string, now: int)
    | RejectedConnect(sid: string)
    | ChatJoin(sid: string)
    | ChatLeave(sid: string)
    | Viewport(sid: string, rooms: set<string>)
    | Heartbeat(sid: string, now: int)
    | Disconnect(sid: string)
    | CloseTransport(sid: string)
    | Reap(stale: seq<string>, fails: set<string>)

  function Step<R(==)>(w: World<R>, a: Action<R>): World<R> {
    match a
    case Connect(r, sid, user, now) => Connected(w, r, sid, user, now)
    case RejectedConnect(_) => w
    case ChatJoin(sid) => ChatJoined(w, sid)
    case ChatLeave(sid) => ChatLeft(w, sid)
    case Viewport(sid, rooms) => Moved(w, sid, rooms)
    case Heartbeat(sid, now) => Heard(w, sid, now)
    case Disconnect(sid) => Disconnected(w, sid)
    case CloseTransport(sid) => DisconnectedAll(w, sid)
    case Reap(stale, fails) => Reaped(w, stale, fails)
  }

  /** Records are new, session ids are connected once, only connected sessions move their viewport, and no disconnect
      callback of the reaper fails. */
  predicate Orderly<R(==)>(w: World<R>, a: Action<R>) {
    match a
    case Connect(r, sid, _, _) => r !in w.infos && sid !in w.conns
    case Viewport(sid, _) => sid in w.conns
    case Reap(stale, fails) => forall s :: s in stale ==> s !in fails
    case _ => true
  }

  lemma ConnectAgrees<R>(w: World<R>, r: R, sid: string, user: string, now: int)
    requires Agree(w) && r !in w.infos && sid !in w.conns
    ensures Agree(Connected(w, r, sid, user, now))
  {
    hide Previous, RoomsMatch, UsersLive;
    ConnectMatches(w, r, sid, user, now);
    ConnectLives(w, r, sid, user, now);
  }

  lemma ConnectMatches<R>(w: World<R>, r: R, sid: string, user: string, now: int)
    requires Agree(w) && r !in w.infos && sid !in w.conns
    ensures Recorded(Connected(w, r, sid, user, now)) && RoomsMatch(Connected(w, r, sid, user, now))
  {
    hide Connected, UsersLive;
    var v := Connected(w, r, sid, user, now);
    ConnectKeepsOthers(w, r, sid, user, now);
    ConnectOwn(w, r, sid, user, now);
    forall s, room | s in v.conns ensures (s, room) in v.members <==> room in v.infos[v.conns[s]].rooms {
      assert s != sid ==> ((s, room) in w.members <==> room in w.infos[w.conns[s]].rooms);
    }
  }

  lemma ConnectOwn<R>(w: World<R>, r: R, sid: string, user: string, now: int)
    ensures var v, rooms := Connected(w, r, sid, user, now), Previous(w.infos, w.users, user).0;
            && v.conns == w.conns[sid := r] && r in v.infos && v.infos[r].rooms == rooms
            && (forall x :: (sid, x) in v.members <==> (sid, x) in w.members || x in rooms)
  {
    hide Previous;
  }

  lemma ConnectLives<R>(w: World<R>, r: R, sid: string, user: string, now: int)
    requires Agree(w) && r !in w.infos && sid !in w.conns
    ensures UsersLive(Connected(w, r, sid, user, now))
  {
    hide Previous, Entering, RoomsMatch;
    var v := Connected(w, r, sid, user, now);
    forall u | u in v.users ensures u != "" && v.users[u] in v.infos && LiveSession(v, u) {
      if u != user {
        assert LiveSession(w, u);
      }
    }
  }

  /** A change of one connection's rooms, mirrored in the namespace, keeps the agreement. */
  lemma RoomsAgree<R>(w: World<R>, sid: string, rooms: set<string>, members: set<Pair>)
    requires Agree(w) && sid in w.conns
    requires forall p :: p in members <==> if p.0 == sid then p.1 in rooms else p in w.members
    ensures Agree(SetRooms(w, sid, rooms).(members := members))
  {
    var v := SetRooms(w, sid, rooms).(members := members);
    forall s | s in w.conns && s != sid ensures w.conns[s] != w.conns[sid] {
      assert w.infos[w.conns[s]].sid == s && w.infos[w.conns[sid]].sid == sid;
    }
    forall u | u in v.users ensures v.users[u] in v.infos && LiveSession(v, u) {
      assert LiveSession(w, u);
    }
    forall s, r | s in v.conns ensures (s, r) in v.members <==> r in v.infos[v.conns[s]].rooms {
      assert (s, r) in w.members <==> r in w.infos[w.conns[s]].rooms;
    }
  }

  lemma ChatAgrees<R>(w: World<R>, sid: string)
    requires Agree(w)
    ensures Agree(ChatJoined(w, sid)) && Agree(ChatLeft(w, sid))
  {
    if sid in w.conns {
      RoomsAgree(w, sid, TrackedRooms(w, sid) + {CHAT_ROOM}, w.members + {(sid, CHAT_ROOM)});
      RoomsAgree(w, sid, TrackedRooms(w, sid) - {CHAT_ROOM}, w.members - {(sid, CHAT_ROOM)});
    } else {
      assert w.members - {(sid, CHAT_ROOM)} == w.members;
    }
  }

  lemma MoveAgrees<R>(w: World<R>, sid: string, rooms: set<string>)
    requires Agree(w) && sid in w.conns
    ensures Agree(Moved(w, sid, rooms))
  {
    var members := w.members - Entering(sid, TrackedRooms(w, sid)) + Entering(sid, rooms);
    forall p: Pair ensures p in members <==> if p.0 == sid then p.1 in rooms else p in w.members {
      assert (p.0, p.1) == p;
    }
    RoomsAgree(w, sid, rooms, members);
  }

  lemma HeartbeatAgrees<R>(w: World<R>, sid: string, now: int)
    requires Agree(w)
    ensures Agree(Heard(w, sid, now))
  {
    var v := Heard(w, sid, now);
    forall u | u in v.users ensures v.users[u] in v.infos && LiveSession(v, u) {
      assert LiveSession(w, u);
    }
  }

  lemma DisconnectRemoves<R>(w: World<R>, sid: string)
    ensures var v := Disconnected(w, sid);
            && v.conns == w.conns - {sid} && v.infos == w.infos && v.members == Without(w.members, sid)
            && v.sockets == w.sockets - {sid} && v.told == Some(|v.conns|)
            && v.users == UsersWithout(w.infos, w.conns, w.users, sid)
  {
    hide UsersWithout, TrackedRooms, InChat, Without;
  }

  lemma DisconnectFields<R>(w: World<R>, sid: string)
    requires Agree(w)
    ensures var v := Disconnected(w, sid);
            && v.conns == w.conns - {sid} && v.infos == w.infos && v.members == Without(w.members, sid)
            && v.sockets == w.sockets - {sid} && v.told == Some(|v.conns|)
            && v.users.Keys <= w.users.Keys
            && forall u :: u in w.users ==> (u in v.users <==> w.infos[w.users[u]].sid != sid)
                                            && (u in v.users ==> v.users[u] == w.users[u])
  {
    hide Disconnected, UsersWithout, Agree, Without;
    DisconnectRemoves(w, sid);
    RemovalOfUser(w, sid);
  }

  lemma RemovalOfUser<R>(w: World<R>, sid: string)
    requires Agree(w)
    ensures forall u :: u in w.users ==> w.users[u] in w.infos
    ensures var users := UsersWithout(w.infos, w.conns, w.users, sid);
            && users.Keys <= w.users.Keys
            && forall u :: u in w.users ==> (u in users <==> w.infos[w.users[u]].sid != sid)
                                            && (u in users ==> users[u] == w.users[u])
  {
    hide RoomsMatch;
    if sid in w.conns {
      var info := w.infos[w.conns[sid]];
      forall u | u in w.users && w.infos[w.users[u]].sid == sid ensures u == info.user {
        assert LiveSession(w, u);
      }
    } else {
      forall u | u in w.users ensures w.infos[w.users[u]].sid != sid {
        assert LiveSession(w, u);
      }
    }
  }

  /** The part of a state change that DisconnectFields describes is enough for the agreement. */
  lemma RemovalAgrees<R>(w: World<R>, v: World<R>, sid: string)
    requires Agree(w)
    requires v.conns == w.conns - {sid} && v.infos == w.infos && v.members == Without(w.members, sid)
    requires v.sockets == w.sockets - {sid} && v.told == Some(|v.conns|) && v.users.Keys <= w.users.Keys
    requires forall u :: u in w.users ==> (u in v.users <==> w.infos[w.users[u]].sid != sid)
                                          && (u in v.users ==> v.users[u] == w.users[u])
    ensures Agree(v)
  {
    assert Recorded(v);
    assert RoomsMatch(v) by {
      forall s, r | s in v.conns ensures (s, r) in v.members <==> r in v.infos[v.conns[s]].rooms {
        assert (s, r) in w.members <==> r in w.infos[w.conns[s]].rooms;
      }
    }
    forall u | u in v.users ensures u != "" && v.users[u] in v.infos && LiveSession(v, u) {
      assert LiveSession(w, u);
    }
  }

  /** Disconnecting any session, known or not: it is gone everywhere and every other record stays. */
  lemma DisconnectAgrees<R>(w: World<R>, sid: string)
    requires Agree(w)
    ensures var v := Disconnected(w, sid);
            && Agree(v) && v.conns == w.conns - {sid} && v.infos == w.infos && v.members == Without(w.members, sid)
  {
    hide Disconnected, Agree;
    DisconnectFields(w, sid);
    RemovalAgrees(w, Disconnected(w, sid), sid);
  }

  lemma CloseAgrees<R>(w: World<R>, sid: string)
    requires Agree(w)
    ensures var v := DisconnectedAll(w, sid);
            && Agree(v) && v.conns == w.conns - {sid} && v.infos == w.infos && v.members == Without(w.members, sid)
  {
    hide Disconnected;
    DisconnectAgrees(w, sid);
    if sid !in w.sockets {
      assert w.conns - {sid} == w.conns;
      assert Without(w.members, sid) == w.members;
    }
  }

  function Keep(members: set<Pair>, gone: seq<string>): set<Pair> { set p | p in members && p.0 !in gone }

  lemma KeepStep(members: set<Pair>, head: string, tail: seq<string>)
    ensures Keep(Without(members, head), tail) == Keep(members, [head] + tail)
  {
  }

  lemma MinusStep<V>(m: map<string, V>, head: string, tail: seq<string>)
    ensures m - {head} - (set s | s in tail) == m - (set s | s in [head] + tail)
  {
  }

  lemma {:induction false} ReapAgrees<R>(w: World<R>, stale: seq<string>, fails: set<string>)
    requires Agree(w) && forall s :: s in stale ==> s !in fails
    ensures var v := Reaped(w, stale, fails);
            && Agree(v) && v.conns == w.conns - (set s | s in stale) && v.infos == w.infos
            && v.members == Keep(w.members, stale)
    decreases stale
  {
    hide Agree, DisconnectedAll, Keep;
    if stale == [] {
      assert w.members == Keep(w.members, []) by { KeepNone(w.members); }
      assert w.conns - (set s | s in stale) == w.conns;
    } else {
      assert stale == [stale[0]] + stale[1..];
      CloseAgrees(w, stale[0]);
      ReapAgrees(DisconnectedAll(w, stale[0]), stale[1..], fails);
      KeepStep(w.members, stale[0], stale[1..]);
      MinusStep(w.conns, stale[0], stale[1..]);
    }
  }

  lemma KeepNone(members: set<Pair>)
    ensures Keep(members, []) == members
  {
  }

  lemma StepAgrees<R>(w: World<R>, a: Action<R>)
    requires Agree(w) && Orderly(w, a)
    ensures Agree(Step(w, a))
  {
    match a
    case Connect(r, sid, user, now) => ConnectAgrees(w, r, sid, user, now);
    case RejectedConnect(_) =>
    case ChatJoin(sid) => ChatAgrees(w, sid);
    case ChatLeave(sid) => ChatAgrees(w, sid);
    case Viewport(sid, rooms) => MoveAgrees(w, sid, rooms);
    case Heartbeat(sid, now) => HeartbeatAgrees(w, sid, now);
    case Disconnect(sid) => DisconnectAgrees(w, sid);
    case CloseTransport(sid) => CloseAgrees(w, sid);
    case Reap(stale, fails) => ReapAgrees(w, stale, fails);
  }

  function Run<R(==)>(w: World<R>, acts: seq<Action<R>>): World<R>
    decreases acts
  {
    if acts == [] then w else Run(Step(w, acts[0]), acts[1..])
  }

  predicate OrderlyRun<R(==)>(w: World<R>, acts: seq<Action<R>>)
    decreases acts
  {
    acts == [] || (Orderly(w, acts[0]) && OrderlyRun(Step(w, acts[0]), acts[1..]))
  }

  /** In every orderly run of connects, chat joins and leaves, viewport changes, heartbeats, disconnects and reap
      passes the three records agree. */
  lemma {:induction false} AgreeInEveryRun<R>(w: World<R>, acts: seq<Action<R>>)
    requires Agree(w) && OrderlyRun(w, acts)
    ensures Agree(Run(w, acts))
    decreases acts
  {
    if acts != [] {
      StepAgrees(w, acts[0]);
      AgreeInEveryRun(Step(w, acts[0]), acts[1..]);
    }
  }

  lemma FromTheStart<R>(acts: seq<Action<R>>)
    requires OrderlyRun(Nobody(), acts)
    ensures Agree(Run(Nobody(), acts))
  {
    AgreeInEveryRun(Nobody(), acts);
  }

  // ---- what each handler does, and to whom ----

  /** Every other session keeps its socket, its record and its rooms. */
  ghost predicate OthersKept<R>(w: World<R>, v: World<R>, sid: string)
    requires Recorded(w) && Recorded(v)
  {
    && (forall s :: s != sid ==> (s in v.sockets <==> s in w.sockets) && (s in v.conns <==> s in w.conns))
    && (forall s :: s != sid && s in w.conns ==>
          v.conns[s] == w.conns[s] && v.infos[v.conns[s]] == w.infos[w.conns[s]])
    && (forall s, r :: s != sid ==> ((s, r) in v.members <==> (s, r) in w.members))
  }

  lemma RecordsDiffer<R>(w: World<R>, sid: string)
    requires Agree(w) && sid in w.conns
    ensures forall s :: s in w.conns && s != sid ==> w.conns[s] != w.conns[sid]
  {
    forall s | s in w.conns && s != sid ensures w.conns[s] != w.conns[sid] {
      assert w.infos[w.conns[s]].sid == s && w.infos[w.conns[sid]].sid == sid;
    }
  }

  /** A viewport change takes the session out of every room it was in and puts it into exactly the new ones. */
  lemma MoveIsExact<R>(w: World<R>, sid: string, rooms: set<string>)
    requires Agree(w) && sid in w.conns
    ensures var v := Moved(w, sid, rooms);
            && Recorded(v) && OthersKept(w, v, sid)
            && (forall r :: (sid, r) in v.members <==> r in rooms)
            && v.infos[v.conns[sid]] == w.infos[w.conns[sid]].(rooms := rooms)
            && (v.sockets, v.conns, v.users, v.told, v.presence) == (w.sockets, w.conns, w.users, w.told, w.presence)
  {
    RecordsDiffer(w, sid);
    var v := Moved(w, sid, rooms);
    forall r ensures (sid, r) in v.members <==> r in rooms {
      assert (sid, r) in w.members <==> r in w.infos[w.conns[sid]].rooms;
    }
  }

  /** Joining the chat puts a connected session into that room besides its others and sends the size of the room; an
      unknown session changes nothing. */
  lemma ChatJoinIsExact<R>(w: World<R>, sid: string)
    requires Agree(w)
    ensures var v := ChatJoined(w, sid);
            && (sid !in w.conns ==> v == w)
            && (sid in w.conns ==>
                  && Recorded(v) && OthersKept(w, v, sid)
                  && (forall r :: (sid, r) in v.members <==> r == "chat:global" || (sid, r) in w.members)
                  && v.infos[v.conns[sid]].rooms == w.infos[w.conns[sid]].rooms + {"chat:global"}
                  && v.infos[v.conns[sid]] == w.infos[w.conns[sid]].(rooms := v.infos[v.conns[sid]].rooms)
                  && v.presence == Some(|set p | p in v.members && p.1 == "chat:global"|)
                  && (v.sockets, v.conns, v.users, v.told) == (w.sockets, w.conns, w.users, w.told))
  {
    if sid in w.conns {
      RecordsDiffer(w, sid);
      assert InChat(ChatJoined(w, sid).members) == set p | p in ChatJoined(w, sid).members && p.1 == "chat:global";
    }
  }

  /** Leaving the chat takes the session out of that room only, and the size of the room is sent in any case. */
  lemma ChatLeaveIsExact<R>(w: World<R>, sid: string)
    requires Agree(w)
    ensures var v := ChatLeft(w, sid);
            && Recorded(v) && OthersKept(w, v, sid)
            && (forall r :: (sid, r) in v.members <==> r != "chat:global" && (sid, r) in w.members)
            && (sid in w.conns ==>
                  && v.infos[v.conns[sid]].rooms == w.infos[w.conns[sid]].rooms - {"chat:global"}
                  && v.infos[v.conns[sid]] == w.infos[w.conns[sid]].(rooms := v.infos[v.conns[sid]].rooms))
            && v.presence == Some(|set p | p in v.members && p.1 == "chat:global"|)
            && (v.sockets, v.conns, v.users, v.told) == (w.sockets, w.conns, w.users, w.told)
  {
    if sid in w.conns {
      RecordsDiffer(w, sid);
    }
    assert InChat(ChatLeft(w, sid).members) == set p | p in ChatLeft(w, sid).members && p.1 == "chat:global";
  }

  /** A heartbeat is noted for a known session, and nothing else happens. */
  lemma HeartbeatIsExact<R>(w: World<R>, sid: string, now: int)
    requires Agree(w)
    ensures Heard(w, sid, now) == if sid in w.conns
                                  then w.(infos := w.infos[w.conns[sid] := w.infos[w.conns[sid]].(heartbeat := now)])
                                  else w
  {
  }

  /** A session that connects brings along the rooms of its user's last session and one more reconnect; whatever else
      it was in before, it stays in. */
  lemma ConnectIsExact<R>(w: World<R>, r: R, sid: string, user: string, now: int)
    requires Agree(w) && r !in w.infos
    ensures var v, back := Connected(w, r, sid, user, now), user != "" && user in w.users;
            var rooms := if back then w.infos[w.users[user]].rooms else {};
            var count := if back then w.infos[w.users[user]].reconnects + 1 else 0;
            && Recorded(v) && OthersKept(w, v, sid) && sid in v.sockets
            && v.conns == w.conns[sid := r] && v.infos == w.infos[r := Info(sid, user, rooms, now, count)]
            && (forall x :: (sid, x) in v.members <==> (sid, x) in w.members || x in rooms)
            && v.users == (if user == "" then w.users else w.users[user := r])
            && v.told == Some(|v.conns|) && v.presence == w.presence
  {
    hide RoomsMatch, LiveSession, Previous, OthersKept;
    BroughtAlong(w, user);
    ConnectKeepsOthers(w, r, sid, user, now);
  }

  lemma BroughtAlong<R>(w: World<R>, user: string)
    requires UsersLive(w)
    ensures Previous(w.infos, w.users, user) == if user != "" && user in w.users
              then (w.infos[w.users[user]].rooms, w.infos[w.users[user]].reconnects + 1) else ({}, 0)
  {
  }

  lemma ConnectKeepsOthers<R>(w: World<R>, r: R, sid: string, user: string, now: int)
    requires Recorded(w) && r !in w.infos
    ensures var v := Connected(w, r, sid, user, now); Recorded(v) && OthersKept(w, v, sid)
  {
    hide Connected;
    ConnectFields(w, r, sid, user, now);
    OthersEnterNothing(w.members, sid, Previous(w.infos, w.users, user).0);
  }

  lemma ConnectFields<R>(w: World<R>, r: R, sid: string, user: string, now: int)
    ensures var v, (rooms, count) := Connected(w, r, sid, user, now), Previous(w.infos, w.users, user);
            && v.conns == w.conns[sid := r] && v.infos == w.infos[r := Info(sid, user, rooms, now, count)]
            && v.sockets == w.sockets + {sid} && v.members == w.members + Entering(sid, rooms)
  {
    hide Previous, Entering;
  }

  lemma OthersEnterNothing(members: set<Pair>, sid: string, rooms: set<string>)
    ensures forall s, x :: s != sid ==> ((s, x) in members + Entering(sid, rooms) <==> (s, x) in members)
  {
  }

  /** A session that disconnects is in no room, has no record and is nobody's last session; the counts are sent. */
  lemma DisconnectIsExact<R>(w: World<R>, sid: string)
    requires Agree(w)
    ensures var v := Disconnected(w, sid);
            && Recorded(v) && OthersKept(w, v, sid)
            && sid !in v.sockets && sid !in v.conns && (forall r :: (sid, r) !in v.members)
            && (forall u :: u in v.users <==> u in w.users && w.infos[w.users[u]].sid != sid)
            && (forall u :: u in v.users ==> v.users[u] == w.users[u])
            && v.told == Some(|v.conns|)
            && v.presence == if sid in w.conns && "chat:global" in w.infos[w.conns[sid]].rooms
                             then Some(|set p | p in v.members && p.1 == "chat:global"|) else w.presence
  {
    hide Disconnected, OthersKept, RoomsMatch, Without, UsersLive;
    DisconnectFields(w, sid);
    DisconnectTells(w, sid);
    DisconnectKeepsOthers(w, Disconnected(w, sid), sid);
  }

  lemma DisconnectKeepsOthers<R>(w: World<R>, v: World<R>, sid: string)
    requires Recorded(w) && v.infos == w.infos && v.conns == w.conns - {sid}
    requires v.sockets == w.sockets - {sid} && v.members == Without(w.members, sid)
    ensures Recorded(v) && OthersKept(w, v, sid) && forall r :: (sid, r) !in v.members
  {
  }

  lemma DisconnectTells<R>(w: World<R>, sid: string)
    requires Recorded(w)
    ensures var v := Disconnected(w, sid);
            && v.members == Without(w.members, sid)
            && v.presence == if sid in w.conns && "chat:global" in w.infos[w.conns[sid]].rooms
                             then Some(|set p | p in v.members && p.1 == "chat:global"|) else w.presence
  {
    hide UsersWithout, Without;
    assert InChat(Without(w.members, sid)) == set p | p in Without(w.members, sid) && p.1 == "chat:global";
  }

  // ---- exactly when a disorderly step breaks the agreement ----

  /** A viewport change from a session that is not connected puts it into rooms nobody will take it out of:
      the agreement survives exactly when the session is connected or the viewport lists nothing. */
  lemma ViewportAgreesExactly<R>(w: World<R>, sid: string, rooms: set<string>)
    requires Agree(w)
    ensures Agree(Moved(w, sid, rooms)) <==> sid in w.conns || rooms == {}
  {
    if sid in w.conns {
      MoveAgrees(w, sid, rooms);
    } else if rooms != {} {
      var r :| r in rooms;
      assert (sid, r) in Moved(w, sid, rooms).members;
    } else {
      assert w.members - Entering(sid, {}) + Entering(sid, {}) == w.members;
    }
  }

  lemma ReconnectRooms<R>(w: World<R>, r: R, sid: string, user: string, now: int)
    requires Agree(w) && r !in w.infos && sid in w.conns
    ensures var v := Connected(w, r, sid, user, now);
            Recorded(v) && (RoomsMatch(v) <==> TrackedRooms(w, sid) <= Previous(w.infos, w.users, user).0)
  {
    var v := Connected(w, r, sid, user, now);
    var rooms := Previous(w.infos, w.users, user).0;
    forall room ensures (sid, room) in v.members <==> room in TrackedRooms(w, sid) + rooms {
      assert (sid, room) in w.members <==> room in w.infos[w.conns[sid]].rooms;
    }
    if TrackedRooms(w, sid) <= rooms {
      forall s, room | s in v.conns ensures (s, room) in v.members <==> room in v.infos[v.conns[s]].rooms {
        assert s != sid ==> ((s, room) in w.members <==> room in w.infos[w.conns[s]].rooms);
      }
    } else {
      var room :| room in TrackedRooms(w, sid) && room !in rooms;
      assert (sid, room) in v.members && room !in v.infos[v.conns[sid]].rooms;
    }
  }

  lemma ReconnectUsers<R>(w: World<R>, r: R, sid: string, user: string, now: int)
    requires Agree(w) && r !in w.infos && sid in w.conns
    ensures UsersLive(Connected(w, r, sid, user, now))
            <==> forall u :: u in w.users && u != user ==> w.users[u] != w.conns[sid]
  {
    hide Previous, Entering, RoomsMatch, LiveSession;
    var v := Connected(w, r, sid, user, now);
    forall u | u in w.users && u != user
      ensures u in v.users && v.users[u] == w.users[u] && (LiveSession(v, u) <==> w.users[u] != w.conns[sid])
    {
      OtherUserStaysLive(w, r, sid, user, now, u);
    }
    if user != "" {
      NewUserIsLive(w, r, sid, user, now);
    }
  }

  lemma OtherUserStaysLive<R>(w: World<R>, r: R, sid: string, user: string, now: int, u: string)
    requires Agree(w) && r !in w.infos && sid in w.conns && u in w.users && u != user
    ensures var v := Connected(w, r, sid, user, now);
            && u in v.users && v.users[u] == w.users[u] && v.users[u] in v.infos
            && (LiveSession(v, u) <==> w.users[u] != w.conns[sid])
  {
    hide Previous, Entering, RoomsMatch;
    assert LiveSession(w, u);
  }

  lemma NewUserIsLive<R>(w: World<R>, r: R, sid: string, user: string, now: int)
    requires user != ""
    ensures var v := Connected(w, r, sid, user, now);
            user in v.users && v.users[user] in v.infos && LiveSession(v, user)
  {
    hide Previous, Entering;
  }

  /** A second CONNECT on a live session replaces its record. The agreement survives exactly when the rooms it was in
      are all restored and the old record was not some other user's session. */
  lemma ConnectAgreesExactly<R>(w: World<R>, r: R, sid: string, user: string, now: int)
    requires Agree(w) && r !in w.infos
    ensures Agree(Connected(w, r, sid, user, now)) <==>
            sid !in w.conns
            || (TrackedRooms(w, sid) <= Previous(w.infos, w.users, user).0
                && forall u :: u in w.users && u != user ==> w.users[u] != w.conns[sid])
  {
    if sid !in w.conns {
      ConnectAgrees(w, r, sid, user, now);
    } else {
      ReconnectRooms(w, r, sid, user, now);
      ReconnectUsers(w, r, sid, user, now);
      assert Connected(w, r, sid, user, now).sockets == w.conns.Keys;
    }
  }

  // ---- reaping ----

  /** The stale sessions at time now, each listed once in any order or even repeatedly. */
  ghost predicate ListsStale<R>(w: World<R>, now: int, stale: seq<string>) {
    forall s :: s in stale <==> s in w.conns && IsStale(w, s, now)
  }

  /** After a reap pass no remaining connection has a heartbeat older than 30 s, and every other connection keeps its
      record, its user session and its rooms. */
  lemma ReapIsExact<R>(w: World<R>, now: int, stale: seq<string>)
    requires Agree(w) && ListsStale(w, now, stale)
    ensures var v := Reaped(w, stale, {});
            && Agree(v)
            && (forall s :: s in v.conns ==> !IsStale(v, s, now))
            && (forall s :: s in w.conns && !IsStale(w, s, now) ==>
                  && s in v.conns && v.conns[s] == w.conns[s] && v.infos[v.conns[s]] == w.infos[w.conns[s]]
                  && forall r :: (s, r) in v.members <==> (s, r) in w.members)
  {
    ReapAgrees(w, stale, {});
    var v := Reaped(w, stale, {});
    forall s | s in v.conns ensures !IsStale(v, s, now) {
      assert s !in stale;
      assert InfoAt(v.infos, v.conns, s) == InfoAt(w.infos, w.conns, s);
    }
  }

  /** Without the agreement a reap can miss: the pass removes a stale connection exactly when the namespace knows it. */
  lemma ReapNeedsSocket<R>(w: World<R>, sid: string, now: int)
    requires sid in w.conns && IsStale(w, sid, now)
    ensures sid in Reaped(w, [sid], {}).conns <==> sid !in w.sockets
  {
    assert Reaped(w, [sid], {}) == Reaped(DisconnectedAll(w, sid), [sid][1..], {});
  }

  /** A session that only the manager forgets keeps its socket and its rooms, and is nobody's last session. */
  lemma ForgetIsExact<R>(w: World<R>, sid: string)
    requires Agree(w)
    ensures var v := Forgotten(w, sid);
            && v == w.(conns := w.conns - {sid}, users := v.users)
            && (forall u :: u in v.users <==> u in w.users && w.infos[w.users[u]].sid != sid)
            && (forall u :: u in v.users ==> v.users[u] == w.users[u])
  {
    hide UsersWithout, RoomsMatch;
    RemovalOfUser(w, sid);
  }

  /** Whatever callbacks fail, every stale session leaves the manager, and the namespace keeps exactly those whose
      callback failed. */
  lemma {:induction false} ReapForgets<R>(w: World<R>, stale: seq<string>, fails: set<string>)
    requires w.conns.Keys <= w.sockets
    ensures var v := Reaped(w, stale, fails);
            && v.conns == w.conns - (set s | s in stale)
            && v.sockets == w.sockets - (set s | s in stale && s !in fails)
    decreases stale
  {
    hide ReapedOne;
    if stale == [] {
      assert w.conns - (set s | s in stale) == w.conns;
    } else {
      assert stale == [stale[0]] + stale[1..];
      ReapOneForgets(w, stale[0], fails);
      ReapForgets(ReapedOne(w, stale[0], fails), stale[1..], fails);
      MinusStep(w.conns, stale[0], stale[1..]);
      SocketsStep(w.sockets, stale[0], stale[1..], fails);
    }
  }

  lemma ReapOneForgets<R>(w: World<R>, sid: string, fails: set<string>)
    requires w.conns.Keys <= w.sockets
    ensures var v := ReapedOne(w, sid, fails);
            && v.conns == w.conns - {sid} && v.sockets == if sid in fails then w.sockets else w.sockets - {sid}
  {
    hide Disconnected, UsersWithout;
    if sid in w.sockets {
      DisconnectRemoves(w, sid);
    } else {
      assert w.conns - {sid} == w.conns;
    }
  }

  lemma SocketsStep(sockets: set<string>, head: string, tail: seq<string>, fails: set<string>)
    ensures (if head in fails then sockets else sockets - {head}) - (set s | s in tail && s !in fails)
            == sockets - (set s | s in [head] + tail && s !in fails)
  {
  }

  /** So a reap pass keeps the agreement exactly when the callback works for every session it removes. */
  lemma ReapAgreesExactly<R>(w: World<R>, stale: seq<string>, fails: set<string>)
    requires Agree(w) && forall s :: s in stale ==> s in w.conns
    ensures Agree(Reaped(w, stale, fails)) <==> forall s :: s in stale ==> s !in fails
  {
    hide Reaped;
    ReapForgets(w, stale, fails);
    if forall s :: s in stale ==> s !in fails {
      ReapAgrees(w, stale, fails);
    } else {
      var s :| s in stale && s in fails;
      assert s in Reaped(w, stale, fails).sockets;
    }
  }

  /** A heartbeat keeps a connection from being reaped for exactly the timeout, and no other connection. */
  lemma HeartbeatBuysTime<R>(w: World<R>, sid: string, now: int, later: int, other: string)
    requires Agree(w) && sid in w.conns
    ensures IsStale(Heard(w, sid, now), sid, later) <==> later > now + 30000
    ensures other != sid ==> (IsStale(Heard(w, sid, now), other, later) <==> IsStale(w, other, later))
  {
    if other in w.conns && other != sid {
      assert w.infos[w.conns[other]].sid == other && w.infos[w.conns[sid]].sid == sid;
    }
  }

  // ---- reconnecting ----

  /** A user who connects again before the old session is disconnected gets its rooms and the next reconnect count;
      once the old session is disconnected its record is forgotten, and nothing is restored. */
  lemma {:induction false} ReconnectAfterDisconnect<R>(w: World<R>, r: R, gone: string, sid: string, user: string,
                                                       now: int)
    requires Agree(w) && r !in w.infos && user in w.users
    ensures var last := w.infos[w.users[user]];
            var v := Connected(Disconnected(w, gone), r, sid, user, now);
            && TrackedRooms(v, sid) == (if gone == last.sid then {} else last.rooms)
            && v.infos[r].reconnects == (if gone == last.sid then 0 else last.reconnects + 1)
  {
    assert LiveSession(w, user) && user != "";
    DisconnectFields(w, gone);
    hide Disconnected;
  }

  // ---- the chat head count ----

  /** The last chat:presence sent is the size of the chat room. */
  predicate PresenceTold<R(==)>(w: World<R>) {
    w.presence.Some? ==> w.presence.value == |InChat(w.members)|
  }

  /** A viewport change sends no chat:presence although it leaves the chat room: the count clients last saw stays
      right exactly when the session was not in chat or the new rooms put it back. */
  lemma ViewportAndPresence<R>(w: World<R>, sid: string, rooms: set<string>)
    requires Agree(w) && PresenceTold(w) && w.presence.Some? && sid in w.conns
    ensures PresenceTold(Moved(w, sid, rooms)) <==> ((sid, CHAT_ROOM) in w.members <==> CHAT_ROOM in rooms)
  {
    assert (sid, CHAT_ROOM) in w.members <==> CHAT_ROOM in TrackedRooms(w, sid);
    ChatAfterMove(w.members, sid, TrackedRooms(w, sid), rooms);
  }

  lemma ChatAfterMove(members: set<Pair>, sid: string, tracked: set<string>, rooms: set<string>)
    requires (sid, CHAT_ROOM) in members <==> CHAT_ROOM in tracked
    ensures |InChat(members - Entering(sid, tracked) + Entering(sid, rooms))| == |InChat(members)|
            <==> ((sid, CHAT_ROOM) in members <==> CHAT_ROOM in rooms)
  {
    var me := (sid, CHAT_ROOM);
    var before, after := InChat(members), InChat(members - Entering(sid, tracked) + Entering(sid, rooms));
    assert me in after <==> CHAT_ROOM in rooms;
    assert before - {me} == after - {me};
    if me in before && me !in after {
      assert after == before - {me};
    } else if me !in before && me in after {
      assert before == after - {me};
    } else {
      assert before == after;
    }
  }

  /** Nor does a reconnect that restores the chat room. */
  lemma ConnectAndPresence<R>(w: World<R>, r: R, sid: string, user: string, now: int)
    requires Agree(w) && PresenceTold(w) && w.presence.Some? && sid !in w.conns
    ensures PresenceTold(Connected(w, r, sid, user, now)) <==> CHAT_ROOM !in Previous(w.infos, w.users, user).0
  {
    var me := (sid, CHAT_ROOM);
    assert me !in w.members;
    EnteringChat(w.members, sid, Previous(w.infos, w.users, user).0);
  }

  lemma EnteringChat(members: set<Pair>, sid: string, rooms: set<string>)
    requires (sid, CHAT_ROOM) !in members
    ensures |InChat(members + Entering(sid, rooms))| == |InChat(members)| + if CHAT_ROOM in rooms then 1 else 0
  {
    var me := (sid, CHAT_ROOM);
    assert InChat(members + Entering(sid, rooms)) == InChat(members) + if CHAT_ROOM in rooms then {me} else {};
  }

  /** Chat joins, chat leaves and disconnects do keep it right. */
  lemma ChatKeepsPresence<R>(w: World<R>, sid: string)
    requires Agree(w) && PresenceTold(w)
    ensures PresenceTold(ChatJoined(w, sid)) && PresenceTold(ChatLeft(w, sid)) && PresenceTold(Disconnected(w, sid))
  {
    if CHAT_ROOM !in TrackedRooms(w, sid) {
      assert (sid, CHAT_ROOM) !in w.members;
      assert InChat(Without(w.members, sid)) == InChat(w.members);
    }
  }
}
