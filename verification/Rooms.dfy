/** Room membership in two nested maps (server/pkg/socketio/room.go), as a refinement of one set of pairs. */
module Rooms {

  type Pair = (string, string)   // session id, room

  datatype Tables = Tables(rooms: map<string, set<string>>, sids: map<string, set<string>>)

  function SetAt(m: map<string, set<string>>, key: string): set<string> {
    if key in m then m[key] else {}
  }

  /** The two maps are inverse to each other and keep no empty inner set. */
  ghost predicate Inverse(t: Tables) {
    && (forall s, r :: r in SetAt(t.sids, s) <==> s in SetAt(t.rooms, r))
    && (forall r :: r in t.rooms ==> t.rooms[r] != {})
    && (forall s :: s in t.sids ==> t.sids[s] != {})
  }

  function Pairs(t: Tables): set<Pair> {
    set s, r | s in t.sids && r in t.sids[s] :: (s, r)
  }

  lemma PairsAt(t: Tables, s: string, r: string)
    ensures (s, r) in Pairs(t) <==> r in SetAt(t.sids, s)
  {
  }

  /** The pairs determine both maps: nothing but membership is stored. */
  lemma PairsDetermineTables(t: Tables, u: Tables)
    requires Inverse(t) && Inverse(u) && Pairs(t) == Pairs(u)
    ensures t == u
  {
    forall s ensures SetAt(t.sids, s) == SetAt(u.sids, s) {
      forall r ensures r in SetAt(t.sids, s) <==> r in SetAt(u.sids, s) {
        PairsAt(t, s, r);
        PairsAt(u, s, r);
      }
    }
    forall r ensures SetAt(t.rooms, r) == SetAt(u.rooms, r) {
      forall s ensures s in SetAt(t.rooms, r) <==> s in SetAt(u.rooms, r) {
        assert r in SetAt(t.sids, s) <==> r in SetAt(u.sids, s);
      }
    }
    SameMap(t.sids, u.sids);
    SameMap(t.rooms, u.rooms);
  }

  lemma SameMap(m: map<string, set<string>>, n: map<string, set<string>>)
    requires forall k :: SetAt(m, k) == SetAt(n, k)
    requires (forall k :: k in m ==> m[k] != {}) && (forall k :: k in n ==> n[k] != {})
    ensures m == n
  {
    forall k ensures k in m <==> k in n {
      assert SetAt(m, k) == SetAt(n, k);
    }
    forall k | k in m ensures m[k] == n[k] {
      assert SetAt(m, k) == SetAt(n, k);
    }
  }

  // ---- the tables after each change ----

  function Added(m: map<string, set<string>>, key: string, x: string): map<string, set<string>> {
    m[key := SetAt(m, key) + {x}]
  }

  function Dropped(m: map<string, set<string>>, key: string, x: string): map<string, set<string>> {
    if key !in m then m
    else if m[key] - {x} == {} then m - {key}
    else m[key := m[key] - {x}]
  }

  lemma AddedAt(m: map<string, set<string>>, key: string, x: string)
    ensures forall k :: SetAt(Added(m, key, x), k) == if k == key then SetAt(m, k) + {x} else SetAt(m, k)
  {
  }

  lemma DroppedAt(m: map<string, set<string>>, key: string, x: string)
    ensures forall k :: SetAt(Dropped(m, key, x), k) == if k == key then SetAt(m, k) - {x} else SetAt(m, k)
    ensures (forall k :: k in m ==> m[k] != {}) ==> forall k :: k in Dropped(m, key, x) ==> Dropped(m, key, x)[k] != {}
  {
  }

  lemma JoinRefines(t: Tables, s: string, r: string)
    requires Inverse(t)
    ensures var u := Tables(Added(t.rooms, r, s), Added(t.sids, s, r));
            Inverse(u) && Pairs(u) == Pairs(t) + {(s, r)}
  {
    var u := Tables(Added(t.rooms, r, s), Added(t.sids, s, r));
    AddedAt(t.rooms, r, s);
    AddedAt(t.sids, s, r);
    forall x, y ensures y in SetAt(u.sids, x) <==> x in SetAt(u.rooms, y) {
      assert y in SetAt(t.sids, x) <==> x in SetAt(t.rooms, y);
    }
    forall p: Pair ensures p in Pairs(u) <==> p in Pairs(t) + {(s, r)} {
      PairsAt(t, p.0, p.1);
      PairsAt(u, p.0, p.1);
    }
  }

  lemma LeaveRefines(t: Tables, s: string, r: string)
    requires Inverse(t)
    ensures var u := Tables(Dropped(t.rooms, r, s), Dropped(t.sids, s, r));
            Inverse(u) && Pairs(u) == Pairs(t) - {(s, r)}
  {
    var u := Tables(Dropped(t.rooms, r, s), Dropped(t.sids, s, r));
    DroppedAt(t.rooms, r, s);
    DroppedAt(t.sids, s, r);
    forall p: Pair ensures p in Pairs(u) <==> p in Pairs(t) - {(s, r)} {
      PairsAt(t, p.0, p.1);
      PairsAt(u, p.0, p.1);
    }
  }

  function Without(pairs: set<Pair>, s: string): set<Pair> { set p | p in pairs && p.0 != s }

  /** Once s is out of every room, dropping its entry completes the removal. */
  lemma LeaveAllRefines(t: Tables, rooms: map<string, set<string>>, s: string)
    requires Inverse(t)
    requires forall r :: SetAt(rooms, r) == SetAt(t.rooms, r) - {s}
    requires forall r :: r in rooms ==> rooms[r] != {}
    ensures var u := Tables(rooms, t.sids - {s}); Inverse(u) && Pairs(u) == Without(Pairs(t), s)
  {
    var u := Tables(rooms, t.sids - {s});
    forall x, r ensures r in SetAt(u.sids, x) <==> x in SetAt(u.rooms, r) {
      assert r in SetAt(t.sids, x) <==> x in SetAt(t.rooms, r);
      assert SetAt(u.sids, x) == if x == s then {} else SetAt(t.sids, x);
    }
    forall p: Pair ensures p in Pairs(u) <==> p in Without(Pairs(t), s) {
      PairsAt(t, p.0, p.1);
      PairsAt(u, p.0, p.1);
    }
  }

  // ---- the class ----

  class RoomManager {
    var rooms: map<string, set<string>>
    var sids: map<string, set<string>>

    ghost function View(): Tables
      reads this
    {
      Tables(rooms, sids)
    }

    ghost predicate Valid()
      reads this
    {
      Inverse(View())
    }

    ghost function Members(): set<Pair>
      reads this
    {
      Pairs(View())
    }

    constructor ()
      ensures Valid() && Members() == {}
    {
      rooms, sids := map[], map[];
    }

    method Join(sid: string, room: string)
      requires Valid()
      modifies this
      ensures Valid() && Members() == old(Members()) + {(sid, room)}
    {
      JoinRefines(View(), sid, room);
      if room !in rooms {
        rooms := rooms[room := {}];
      }
      rooms := rooms[room := rooms[room] + {sid}];
      if sid !in sids {
        sids := sids[sid := {}];
      }
      sids := sids[sid := sids[sid] + {room}];
      assert rooms == Added(old(rooms), room, sid) && sids == Added(old(sids), sid, room);
    }

    method Leave(sid: string, room: string)
      requires Valid()
      modifies this
      ensures Valid() && Members() == old(Members()) - {(sid, room)}
    {
      LeaveRefines(View(), sid, room);
      if room in rooms {
        rooms := rooms[room := rooms[room] - {sid}];
        if rooms[room] == {} {
          rooms := rooms - {room};
        }
      }
      if sid in sids {
        sids := sids[sid := sids[sid] - {room}];
        if sids[sid] == {} {
          sids := sids - {sid};
        }
      }
      assert rooms == Dropped(old(rooms), room, sid) && sids == Dropped(old(sids), sid, room);
    }

    /** The session's rooms are visited in any order. */
    method LeaveAll(sid: string)
      requires Valid()
      modifies this
      ensures Valid() && Members() == Without(old(Members()), sid)
    {
      ghost var before := View();
      if sid !in sids {
        assert Members() == Without(Members(), sid) by {
          forall p | p in Members() ensures p.0 != sid {
            PairsAt(View(), p.0, p.1);
          }
        }
        return;
      }
      var todo := sids[sid];
      while todo != {}
        invariant sids == before.sids && todo <= before.sids[sid]
        invariant forall r :: SetAt(rooms, r) ==
                              if r in before.sids[sid] - todo then SetAt(before.rooms, r) - {sid}
                              else SetAt(before.rooms, r)
        invariant forall r :: r in rooms ==> rooms[r] != {}
        decreases todo
      {
        var room :| room in todo;
        todo := todo - {room};
        if room in rooms {
          rooms := rooms[room := rooms[room] - {sid}];
          if rooms[room] == {} {
            rooms := rooms - {room};
          }
        }
      }
      forall r ensures SetAt(rooms, r) == SetAt(before.rooms, r) - {sid} {
        assert r in SetAt(before.sids, sid) <==> sid in SetAt(before.rooms, r);
      }
      LeaveAllRefines(before, rooms, sid);
      sids := sids - {sid};
    }

    method InRoom(sid: string, room: string) returns (r: bool)
      requires Valid()
      ensures r <==> (sid, room) in Members()
    {
      PairsAt(View(), sid, room);
      assert room in SetAt(sids, sid) <==> sid in SetAt(rooms, room);
      if room !in rooms { return false; }
      return sid in rooms[room];
    }

    /** The members of a room, each once, in any order. */
    method MembersOf(room: string) returns (result: seq<string>)
      requires Valid()
      ensures forall s :: s in result <==> (s, room) in Members()
      ensures forall i, j :: 0 <= i < j < |result| ==> result[i] != result[j]
    {
      result := [];
      var todo := if room in rooms then rooms[room] else {};
      while todo != {}
        invariant forall s :: s in result <==> s in SetAt(rooms, room) - todo
        invariant todo <= SetAt(rooms, room)
        invariant forall i, j :: 0 <= i < j < |result| ==> result[i] != result[j]
        decreases todo
      {
        var s :| s in todo;
        assert s !in result;
        todo := todo - {s};
        result := result + [s];
      }
      forall s ensures s in result <==> (s, room) in Members() {
        PairsAt(View(), s, room);
        assert room in SetAt(sids, s) <==> s in SetAt(rooms, room);
      }
    }
  }

  /** Joining and leaving again restores both maps entry for entry, unless the session was in the room before. */
  lemma LeaveUndoesJoin(t: Tables, s: string, r: string)
    requires Inverse(t)
    ensures var u := Tables(Added(t.rooms, r, s), Added(t.sids, s, r));
            Tables(Dropped(u.rooms, r, s), Dropped(u.sids, s, r)) == t <==> (s, r) !in Pairs(t)
  {
    var u := Tables(Added(t.rooms, r, s), Added(t.sids, s, r));
    var v := Tables(Dropped(u.rooms, r, s), Dropped(u.sids, s, r));
    JoinRefines(t, s, r);
    LeaveRefines(u, s, r);
    if (s, r) !in Pairs(t) {
      assert Pairs(v) == Pairs(t);
      PairsDetermineTables(v, t);
    } else {
      assert (s, r) !in Pairs(v);
    }
  }
}
