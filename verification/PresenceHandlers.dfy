/** The objects behind Presence: connection records shared by pointer, the connection manager, the namespace, and the
    handlers that change all of them. Every method's new state is the matching function of Presence applied to the
    old one (server/internal/sio/connection_manager.go, server/internal/sio/handler.go,
    server/internal/sio/subscribe_viewport.go, server/internal/sio/disconnect.go, server/internal/sio/chat_join.go,
    server/internal/sio/chat_leave.go, server/internal/sio/reaper.go, server/pkg/socketio/namespace.go). */
module PresenceHandlers {
  import opened Options
  import opened Presence
  import R = Rooms

  /** The elements of a list, as the set a Go map keyed by them would hold. */
  function Elements(names: seq<string>): set<string> { set s | s in names }

  lemma EnteringOneMore(sid: string, names: seq<string>, i: nat)
    requires i < |names|
    ensures Entering(sid, Elements(names[..i + 1])) == Entering(sid, Elements(names[..i])) + {(sid, names[i])}
  {
    assert names[..i + 1] == names[..i] + [names[i]];
    forall p ensures p in Entering(sid, Elements(names[..i + 1])) <==>
                     p in Entering(sid, Elements(names[..i])) + {(sid, names[i])} {
    }
  }

  lemma NothingEntered(members: set<R.Pair>, sid: string)
    ensures members + Entering(sid, Elements([])) == members
  {
  }

  /** The state between adding the record and giving it its rooms. */
  ghost function Added<C>(w: World<C>, r: C, sid: string, user: string, now: int): World<C> {
    w.(infos := w.infos[r := Info(sid, user, {}, now, Previous(w.infos, w.users, user).1)], conns := w.conns[sid := r],
       users := if user == "" then w.users else w.users[user := r])
  }

  lemma AdmittedInSteps<C>(w: World<C>, r: C, sid: string, user: string, now: int)
    ensures var a := Added(w, r, sid, user, now);
            var rooms := Previous(w.infos, w.users, user).0;
            && TrackedRooms(a, sid) == {} && a.conns == w.conns[sid := r]
            && Admitted(w, r, sid, user, now)
               == SetRooms(a, sid, rooms).(members := a.members + Entering(sid, rooms)).(told := Some(|a.conns|))
  {
    var a := Added(w, r, sid, user, now);
    var rooms := Previous(w.infos, w.users, user).0;
    assert SetRooms(a, sid, rooms).infos == Admitted(w, r, sid, user, now).infos;
  }

  /** A list of the chat room's members is as long as the room is large. */
  lemma {:induction false} CountsChat(names: seq<string>, members: set<R.Pair>)
    requires Distinct(names) && forall s :: s in names <==> (s, CHAT_ROOM) in members
    ensures |names| == |InChat(members)|
    decreases names
  {
    if names == [] {
      assert InChat(members) == {} by {
        forall p: R.Pair ensures p !in InChat(members) {
          assert p.0 !in names && p == (p.0, p.1);
        }
      }
    } else {
      var init, last := names[..|names| - 1], names[|names| - 1];
      var rest := members - {(last, CHAT_ROOM)};
      assert names == init + [last];
      CountsChat(init, rest);
      assert InChat(members) == InChat(rest) + {(last, CHAT_ROOM)};
    }
  }

  method ListOf(rooms: set<string>) returns (names: seq<string>)
    ensures Elements(names) == rooms && Distinct(names)
  {
    names := [];
    var todo := rooms;
    while todo != {}
      invariant todo <= rooms && Elements(names) == rooms - todo && Distinct(names)
      decreases todo
    {
      var room :| room in todo;
      assert room !in Elements(names);
      todo := todo - {room};
      assert Elements(names + [room]) == Elements(names) + {room};
      names := names + [room];
    }
  }

  class ConnectionInfo {
    const sid: string
    const userID: string
    const reconnectCount: nat
    var rooms: set<string>
    var lastHeartbeat: int

    ghost function Value(): Info
      reads this
    {
      Info(sid, userID, rooms, lastHeartbeat, reconnectCount)
    }

    constructor (sid: string, userID: string, now: int, reconnectCount: nat)
      ensures Value() == Info(sid, userID, {}, now, reconnectCount)
    {
      this.sid, this.userID, this.reconnectCount := sid, userID, reconnectCount;
      rooms, lastHeartbeat := {}, now;
    }
  }

  class ConnectionManager {
    var connections: map<string, ConnectionInfo>
    var userSessions: map<string, ConnectionInfo>
    ghost var infos: map<ConnectionInfo, Info>   // every record made so far, and what it holds

    ghost predicate Valid()
      reads this, infos.Keys
    {
      && (forall i :: i in infos ==> infos[i] == i.Value())
      && (forall s :: s in connections ==> connections[s] in infos)
      && (forall u :: u in userSessions ==> userSessions[u] in infos)
    }

    constructor ()
      ensures Valid() && connections == map[] && userSessions == map[] && infos == map[]
    {
      connections, userSessions, infos := map[], map[], map[];
    }

    method Get(sid: string) returns (info: ConnectionInfo?)
      requires Valid()
      ensures info == if sid in connections then connections[sid] else null
    {
      if sid in connections { return connections[sid]; }
      return null;
    }

    method GetPreviousSession(userID: string) returns (info: ConnectionInfo?)
      requires Valid()
      ensures info == if userID in userSessions then userSessions[userID] else null
    {
      if userID in userSessions { return userSessions[userID]; }
      return null;
    }

    method Add(sid: string, userID: string, now: int) returns (info: ConnectionInfo)
      requires Valid()
      modifies this
      ensures Valid() && fresh(info) && info !in old(infos)
      ensures connections == old(connections)[sid := info]
      ensures userSessions == if userID == "" then old(userSessions) else old(userSessions)[userID := info]
      ensures infos == old(infos)[info := Info(sid, userID, {}, now, Previous(old(infos), old(userSessions), userID).1)]
    {
      var reconnectCount := 0;
      if userID != "" && userID in userSessions {
        reconnectCount := userSessions[userID].reconnectCount + 1;
      }
      info := new ConnectionInfo(sid, userID, now, reconnectCount);
      connections := connections[sid := info];
      infos := infos[info := info.Value()];
      if userID != "" {
        userSessions := userSessions[userID := info];
      }
    }

    method Remove(sid: string)
      requires Valid()
      modifies this
      ensures Valid() && infos == old(infos)
      ensures connections == old(connections) - {sid}
      ensures userSessions == UsersWithout(old(infos), old(connections), old(userSessions), sid)
    {
      if sid !in connections {
        assert connections - {sid} == connections;
        return;
      }
      var info := connections[sid];
      connections := connections - {sid};
      if info.userID != "" && info.userID in userSessions && userSessions[info.userID].sid == sid {
        userSessions := userSessions - {info.userID};
      }
    }

    method RecordHeartbeat(sid: string, now: int) returns (known: bool)
      requires Valid()
      modifies this`infos, if sid in connections then {connections[sid]} else {}
      ensures Valid() && known == (sid in connections)
      ensures infos == if known then old(infos)[connections[sid] := old(infos[connections[sid]]).(heartbeat := now)]
                       else old(infos)
    {
      if sid !in connections { return false; }
      var info := connections[sid];
      info.lastHeartbeat := now;
      infos := infos[info := info.Value()];
      return true;
    }

    method SetRooms(sid: string, rooms: seq<string>)
      requires Valid()
      modifies this`infos, if sid in connections then {connections[sid]} else {}
      ensures Valid()
      ensures infos == if sid in connections
                       then old(infos)[connections[sid] := old(infos[connections[sid]]).(rooms := Elements(rooms))]
                       else old(infos)
    {
      if sid in connections {
        var info := connections[sid];
        info.rooms := {};
        for i := 0 to |rooms|
          invariant info.rooms == Elements(rooms[..i])
          invariant infos == old(infos)
          invariant forall k :: k in infos && k != info ==> k.Value() == infos[k]
          invariant info.Value() == old(info.Value()).(rooms := info.rooms)
        {
          info.rooms := info.rooms + {rooms[i]};
        }
        assert rooms[..|rooms|] == rooms;
        infos := infos[info := info.Value()];
      }
    }

    method GetRooms(sid: string) returns (names: seq<string>)
      requires Valid()
      ensures Distinct(names) && Elements(names) == if sid in connections then connections[sid].rooms else {}
    {
      if sid !in connections { return []; }
      names := ListOf(connections[sid].rooms);
    }

    /** The connections are visited in any order. */
    method GetStaleSIDs(now: int) returns (stale: seq<string>)
      requires Valid()
      ensures Distinct(stale)
      ensures forall s :: s in stale <==> s in connections && now - connections[s].lastHeartbeat > HEARTBEAT_TIMEOUT_MS
    {
      stale := [];
      var todo := connections.Keys;
      while todo != {}
        invariant todo <= connections.Keys && Distinct(stale)
        invariant forall s :: s in stale <==>
                              && s in connections && s !in todo
                              && now - connections[s].lastHeartbeat > HEARTBEAT_TIMEOUT_MS
        decreases todo
      {
        var s :| s in todo;
        todo := todo - {s};
        if now - connections[s].lastHeartbeat > HEARTBEAT_TIMEOUT_MS {
          stale := stale + [s];
        }
      }
    }
  }

  class Namespace {
    var sockets: set<string>
    const rooms: R.RoomManager

    constructor ()
      ensures sockets == {} && fresh(rooms) && rooms.Valid() && rooms.Members() == {}
    {
      sockets := {};
      rooms := new R.RoomManager();
    }

    /** Entering several rooms one by one. */
    method EnterRooms(sid: string, names: seq<string>)
      requires rooms.Valid()
      modifies rooms
      ensures rooms.Valid() && rooms.Members() == old(rooms.Members()) + Entering(sid, Elements(names))
    {
      for i := 0 to |names|
        invariant rooms.Valid() && rooms.Members() == old(rooms.Members()) + Entering(sid, Elements(names[..i]))
      {
        EnteringOneMore(sid, names, i);
        rooms.Join(sid, names[i]);
      }
      assert names[..|names|] == names;
    }

    method LeaveRooms(sid: string, names: seq<string>)
      requires rooms.Valid()
      modifies rooms
      ensures rooms.Valid() && rooms.Members() == old(rooms.Members()) - Entering(sid, Elements(names))
    {
      for i := 0 to |names|
        invariant rooms.Valid() && rooms.Members() == old(rooms.Members()) - Entering(sid, Elements(names[..i]))
      {
        EnteringOneMore(sid, names, i);
        rooms.Leave(sid, names[i]);
      }
      assert names[..|names|] == names;
    }

    method ChatCount() returns (n: nat)
      requires rooms.Valid()
      ensures n == |InChat(rooms.Members())|
    {
      var names := rooms.MembersOf(CHAT_ROOM);
      CountsChat(names, rooms.Members());
      return |names|;
    }
  }

  class Handlers {
    const ns: Namespace
    const manager: ConnectionManager
    var usersCount: Option<nat>     // the last users:count broadcast
    var chatPresence: Option<nat>   // the last chat:presence broadcast

    ghost predicate Valid()
      reads this, ns.rooms, manager, manager.infos.Keys
    {
      ns.rooms.Valid() && manager.Valid()
    }

    ghost function State(): World<ConnectionInfo>
      reads this, ns, ns.rooms, manager
    {
      World(ns.sockets, ns.rooms.Members(), manager.infos, manager.connections, manager.userSessions,
            usersCount, chatPresence)
    }

    constructor ()
      ensures Valid() && State() == Nobody()
    {
      ns := new Namespace();
      manager := new ConnectionManager();
      usersCount, chatPresence := None, None;
    }

    method TellUsers()
      requires Valid()
      modifies this
      ensures Valid() && State() == old(State()).(told := Some(|old(State()).conns|))
    {
      usersCount := Some(|manager.connections|);
    }

    method TellPresence()
      requires Valid()
      modifies this
      ensures Valid() && State() == old(State()).(presence := Some(|InChat(old(State()).members)|))
    {
      var count := ns.ChatCount();
      chatPresence := Some(count);
    }

    /** Gives a new session back the rooms of its user's last one. */
    method RestoreRooms(sid: string, names: seq<string>)
      requires Valid() && sid in manager.connections && TrackedRooms(State(), sid) == {}
      modifies ns.rooms, manager, manager.connections[sid]
      ensures Valid()
      ensures var w := old(State());
              State() == SetRooms(w, sid, Elements(names)).(members := w.members + Entering(sid, Elements(names)))
    {
      if |names| > 0 {
        manager.SetRooms(sid, names);
        ns.EnterRooms(sid, names);
      } else {
        ghost var w := State();
        assert Elements(names) == {};
        NothingEntered(w.members, sid);
        assert SetRooms(w, sid, {}).infos == w.infos;
      }
    }

    /** `token` holds the validated user, None a missing or invalid token. */
    method OnConnect(sid: string, token: Option<string>, now: int) returns (info: ConnectionInfo?)
      requires Valid()
      modifies this, ns.rooms, manager
      ensures Valid()
      ensures token.None? ==> info == null && State() == old(State())
      ensures token.Some?
              ==> info != null && fresh(info) && State() == Admitted(old(State()), info, sid, token.value, now)
    {
      if token.None? { return null; }
      ghost var w := State();
      var userID := token.value;
      var previousRooms := [];
      if userID != "" {
        var prev := manager.GetPreviousSession(userID);
        if prev != null {
          previousRooms := ListOf(prev.rooms);
        }
      }
      assert Elements(previousRooms) == Previous(w.infos, w.users, userID).0;
      hide Elements, Entering, Previous, Admitted, SetRooms, TrackedRooms, R.RoomManager.Members, R.RoomManager.Valid;
      info := manager.Add(sid, userID, now);
      AdmittedInSteps(w, info, sid, userID, now);
      assert State() == Added(w, info, sid, userID, now);
      hide Added;
      RestoreRooms(sid, previousRooms);
      TellUsers();
    }

    /** CONNECT: the handler runs before the namespace lists the socket. */
    method HandleConnect(sid: string, token: Option<string>, now: int) returns (info: ConnectionInfo?)
      requires Valid()
      modifies this, ns, ns.rooms, manager
      ensures Valid()
      ensures token.None? ==> info == null && State() == old(State())
      ensures token.Some?
              ==> info != null && fresh(info) && State() == Connected(old(State()), info, sid, token.value, now)
    {
      info := OnConnect(sid, token, now);
      if info != null {
        ns.sockets := ns.sockets + {sid};
      }
    }

    method ChatJoin(sid: string)
      requires Valid()
      modifies this, ns.rooms, manager, manager.infos.Keys
      ensures Valid() && State() == ChatJoined(old(State()), sid)
    {
      var info := manager.Get(sid);
      if info == null { return; }
      ns.rooms.Join(sid, CHAT_ROOM);
      info.rooms := info.rooms + {CHAT_ROOM};
      manager.infos := manager.infos[info := info.Value()];
      TellPresence();
    }

    method ChatLeave(sid: string)
      requires Valid()
      modifies this, ns.rooms, manager, manager.infos.Keys
      ensures Valid() && State() == ChatLeft(old(State()), sid)
    {
      var info := manager.Get(sid);
      ns.rooms.Leave(sid, CHAT_ROOM);
      if info != null {
        info.rooms := info.rooms - {CHAT_ROOM};
        manager.infos := manager.infos[info := info.Value()];
      }
      TellPresence();
    }

    method JoinViewportRooms(sid: string, newRooms: seq<string>)
      requires Valid()
      modifies ns.rooms, manager, manager.infos.Keys
      ensures Valid() && State() == Moved(old(State()), sid, Elements(newRooms))
    {
      var oldRooms := manager.GetRooms(sid);
      assert Elements(oldRooms) == TrackedRooms(State(), sid);
      hide Elements, Entering, TrackedRooms, R.RoomManager.Members, R.RoomManager.Valid;
      ns.LeaveRooms(sid, oldRooms);
      ns.EnterRooms(sid, newRooms);
      manager.SetRooms(sid, newRooms);
    }

    method Heartbeat(sid: string, now: int) returns (known: bool)
      requires Valid()
      modifies manager, manager.infos.Keys
      ensures Valid() && known == (sid in State().conns) && State() == Heard(old(State()), sid, now)
    {
      known := manager.RecordHeartbeat(sid, now);
    }

    method OnDisconnect(sid: string)
      requires Valid()
      modifies this, manager
      ensures Valid() && State() == Farewell(old(State()), sid)
    {
      hide InChat, UsersWithout, R.RoomManager.Members, R.RoomManager.Valid;
      var info := manager.Get(sid);
      var wasInChat := info != null && CHAT_ROOM in info.rooms;
      assert wasInChat == (CHAT_ROOM in TrackedRooms(State(), sid));
      hide TrackedRooms;
      manager.Remove(sid);
      TellUsers();
      if wasInChat {
        TellPresence();
      }
    }

    /** The namespace forgets the socket and its rooms before the callback looks at the tracked rooms. */
    method HandleDisconnect(sid: string)
      requires Valid()
      modifies this, ns, ns.rooms, manager
      ensures Valid() && State() == Disconnected(old(State()), sid)
    {
      ns.sockets := ns.sockets - {sid};
      ns.rooms.LeaveAll(sid);
      OnDisconnect(sid);
    }

    method DisconnectAll(sid: string)
      requires Valid()
      modifies this, ns, ns.rooms, manager
      ensures Valid() && State() == DisconnectedAll(old(State()), sid)
    {
      if sid in ns.sockets {
        HandleDisconnect(sid);
      }
    }

    /** One reap pass. `fails` says for which sessions the disconnect callback fails or is missing; a callback that
        fails has done nothing. */
    method Reap(now: int, fails: set<string>) returns (stale: seq<string>)
      requires Valid()
      modifies this, ns, ns.rooms, manager
      ensures Valid() && State() == Reaped(old(State()), stale, fails) && ListsStale(old(State()), now, stale)
    {
      stale := manager.GetStaleSIDs(now);
      ghost var before := State();
      for i := 0 to |stale|
        invariant Valid()
        invariant Reaped(State(), stale[i..], fails) == Reaped(before, stale, fails)
      {
        assert stale[i..][0] == stale[i] && stale[i..][1..] == stale[i + 1..];
        if stale[i] in fails {
          manager.Remove(stale[i]);
        } else {
          DisconnectAll(stale[i]);
        }
      }
    }
  }
}
