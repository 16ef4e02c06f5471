/** Extraction and reinsertion of binary values as the source performs them: maps and slices are objects, rewritten in
    place, and one object may occur in several places (server/pkg/socketio/packet.go:356-410, 464-486, 607-635). What
    the objects hold at one moment is a `Memory`; the facts about extraction are facts about memories. */
module BinaryHeap {
  import opened Options
  import opened BinaryTree

  datatype Value = Leaf(node: Node) | Ref(c: Container)

  /** A map when it has keys, listed in the order `range` visits them; a slice otherwise. The ranks say that no
      container is reachable from itself: what a container holds ranks lower. */
  class Container {
    const keys: Option<seq<string>>
    ghost const rank: nat
    var slots: seq<Value>

    constructor (keys: Option<seq<string>>, slots: seq<Value>, ghost rank: nat)
      ensures this.keys == keys && this.slots == slots && this.rank == rank
    {
      this.keys, this.slots, this.rank := keys, slots, rank;
    }
  }

  type Memory = map<Container, seq<Value>>

  ghost function Mem(u: set<Container>): Memory
    reads u
  {
    map c | c in u :: c.slots
  }

  predicate Scalar(t: Node) { !t.Object? && !t.Array? }

  predicate IsBytes(v: Value) { v.Leaf? && v.node.Binary? }

  /** The rank a container needs to hold the value, before and after extraction. */
  ghost function Level(v: Value): nat {
    match v
    case Leaf(t) => if t.Binary? then 1 else 0
    case Ref(c) => c.rank + 1
  }

  ghost predicate Held(v: Value, m: Memory) {
    match v
    case Leaf(t) => Scalar(t)
    case Ref(c) => c in m
  }

  ghost predicate AllHeld(vs: seq<Value>, m: Memory) {
    forall i :: 0 <= i < |vs| ==> Held(vs[i], m)
  }

  ghost predicate CellOk(c: Container, m: Memory)
    requires c in m
  {
    && (c.keys.Some? ==> |c.keys.value| == |m[c]|)
    && AllHeld(m[c], m) && forall i :: 0 <= i < |m[c]| ==> Level(m[c][i]) <= c.rank
  }

  /** Every reference leads to a container of lower rank within the memory. */
  ghost predicate Closed(m: Memory) {
    forall c :: c in m ==> CellOk(c, m)
  }

  function Zip(keys: seq<string>, nodes: seq<Node>): seq<Field>
    requires |keys| == |nodes|
  {
    seq(|keys|, i requires 0 <= i < |keys| => Field(keys[i], nodes[i]))
  }

  function Whole(keys: Option<seq<string>>, nodes: seq<Node>): Node
    requires keys.Some? ==> |keys.value| == |nodes|
  {
    match keys
    case None => Array(nodes)
    case Some(ks) => Object(Zip(ks, nodes))
  }

  /** The tree a value reads as. */
  ghost function Abs(v: Value, m: Memory): Node
    requires Closed(m) && Held(v, m)
    decreases Level(v)
  {
    match v
    case Leaf(t) => t
    case Ref(c) =>
      assert CellOk(c, m);
      Whole(c.keys, seq(|m[c]|, i requires 0 <= i < |m[c]| => Abs(m[c][i], m)))
  }

  ghost function AbsAll(vs: seq<Value>, m: Memory): (nodes: seq<Node>)
    requires Closed(m) && AllHeld(vs, m)
    ensures |nodes| == |vs|
  {
    seq(|vs|, i requires 0 <= i < |vs| => Abs(vs[i], m))
  }

  lemma AbsRef(c: Container, m: Memory)
    requires Closed(m) && c in m
    ensures CellOk(c, m) && Abs(Ref(c), m) == Whole(c.keys, AbsAll(m[c], m))
  {
    assert AbsAll(m[c], m) == seq(|m[c]|, i requires 0 <= i < |m[c]| => Abs(m[c][i], m));
  }

  /** The containers a value is made of. */
  ghost function Reach(v: Value, m: Memory): set<Container>
    requires Closed(m) && Held(v, m)
    decreases Level(v)
  {
    match v
    case Leaf(_) => {}
    case Ref(c) =>
      assert CellOk(c, m);
      {c} + set i, d | 0 <= i < |m[c]| && d in Reach(m[c][i], m) :: d
  }

  /** No container occurs twice in the value. */
  ghost predicate Unshared(v: Value, m: Memory)
    requires Closed(m) && Held(v, m)
    decreases Level(v)
  {
    match v
    case Leaf(_) => true
    case Ref(c) =>
      assert CellOk(c, m);
      && (forall i :: 0 <= i < |m[c]| ==> Unshared(m[c][i], m))
      && Apart(m[c], m)
  }

  ghost predicate Apart(vs: seq<Value>, m: Memory)
    requires Closed(m) && AllHeld(vs, m)
  {
    forall i, j :: 0 <= i < j < |vs| ==> Reach(vs[i], m) !! Reach(vs[j], m)
  }

  ghost function ReachAll(vs: seq<Value>, m: Memory): set<Container>
    requires Closed(m) && AllHeld(vs, m)
  {
    set i, d | 0 <= i < |vs| && d in Reach(vs[i], m) :: d
  }

  ghost predicate UnsharedAll(vs: seq<Value>, m: Memory)
    requires Closed(m) && AllHeld(vs, m)
  {
    (forall i :: 0 <= i < |vs| ==> Unshared(vs[i], m)) && Apart(vs, m)
  }

  lemma InsideRef(c: Container, m: Memory)
    requires Closed(m) && c in m
    ensures CellOk(c, m) && Reach(Ref(c), m) == {c} + ReachAll(m[c], m)
    ensures Unshared(Ref(c), m) == UnsharedAll(m[c], m)
  {
  }

  lemma SameReachAll(vs: seq<Value>, ws: seq<Value>, m: Memory, m': Memory, within: set<Container>)
    requires Closed(m) && Closed(m') && AllHeld(vs, m) && AllHeld(ws, m') && |vs| == |ws|
    requires forall i :: 0 <= i < |vs| ==> Reach(vs[i], m) == Reach(ws[i], m') * within
    ensures ReachAll(vs, m) == ReachAll(ws, m') * within
  {
    hide Reach;
    forall d ensures d in ReachAll(vs, m) <==> d in ReachAll(ws, m') * within {
      if d in ReachAll(vs, m) {
        var i :| 0 <= i < |vs| && d in Reach(vs[i], m);
        assert d in Reach(ws[i], m') * within;
      }
      if d in ReachAll(ws, m') * within {
        var i :| 0 <= i < |ws| && d in Reach(ws[i], m');
        assert d in Reach(vs[i], m);
      }
    }
  }

  // ---- how extraction changes a memory ----

  ghost predicate PlaceholderAt(p: Container, m: Memory, k: int) {
    p in m && p.keys == Some(["_placeholder", "num"]) && m[p] == [Leaf(Bool(true)), Leaf(Int(k))]
  }

  /** `p` stands for these bytes among the collected buffers. */
  ghost predicate StandsFor(p: Container, bytes: string, m: Memory, all: seq<string>) {
    exists k :: 0 <= k < |all| && all[k] == bytes && PlaceholderAt(p, m, k)
  }

  ghost predicate SlotEvolves(x: Value, y: Value, m: Memory, m': Memory, all: seq<string>) {
    y == x || (IsBytes(x) && y.Ref? && y.c !in m && StandsFor(y.c, x.node.bytes, m', all))
  }

  ghost predicate CellEvolves(c: Container, m: Memory, m': Memory, all: seq<string>)
    requires c in m && c in m'
  {
    |m'[c]| == |m[c]| && forall i :: 0 <= i < |m[c]| ==> SlotEvolves(m[c][i], m'[c][i], m, m', all)
  }

  /** Some byte slices have become new placeholder maps for their bytes, and nothing else has changed. */
  ghost predicate Evolves(m: Memory, m': Memory, all: seq<string>) {
    m.Keys <= m'.Keys && Closed(m') && forall c :: c in m ==> CellEvolves(c, m, m', all)
  }

  ghost predicate Clean(c: Container, m: Memory)
    requires c in m
  {
    forall i :: 0 <= i < |m[c]| ==> !IsBytes(m[c][i])
  }

  /** No container the value was made of holds bytes any more. */
  ghost predicate CleanBelow(cs: set<Container>, m: Memory) {
    forall d :: d in cs ==> d in m && Clean(d, m)
  }

  lemma EvolvesSelf(m: Memory, all: seq<string>)
    requires Closed(m)
    ensures Evolves(m, m, all)
  {
  }

  lemma PlaceholderStays(p: Container, bytes: string, m: Memory, m': Memory, a: seq<string>, b: seq<string>)
    requires StandsFor(p, bytes, m, a) && Evolves(m, m', b) && a <= b
    ensures StandsFor(p, bytes, m', b)
  {
    var k :| 0 <= k < |a| && a[k] == bytes && PlaceholderAt(p, m, k);
    assert CellEvolves(p, m, m', b);
    assert SlotEvolves(m[p][0], m'[p][0], m, m', b) && SlotEvolves(m[p][1], m'[p][1], m, m', b);
    assert m'[p] == m[p];
    assert b[k] == bytes && PlaceholderAt(p, m', k);
  }

  lemma EvolvesTwice(m: Memory, m1: Memory, m2: Memory, a: seq<string>, b: seq<string>)
    requires Evolves(m, m1, a) && Evolves(m1, m2, b) && a <= b
    ensures Evolves(m, m2, b)
  {
    forall c, i | c in m && 0 <= i < |m[c]| ensures |m2[c]| == |m[c]| && SlotEvolves(m[c][i], m2[c][i], m, m2, b) {
      assert CellEvolves(c, m, m1, a) && CellEvolves(c, m1, m2, b);
      assert SlotEvolves(m[c][i], m1[c][i], m, m1, a) && SlotEvolves(m1[c][i], m2[c][i], m1, m2, b);
      if m1[c][i] != m[c][i] {
        PlaceholderStays(m1[c][i].c, m[c][i].node.bytes, m1, m2, a, b);
      }
    }
    forall c | c in m ensures CellEvolves(c, m, m2, b) {
      assert CellEvolves(c, m, m1, a) && CellEvolves(c, m1, m2, b);
    }
  }

  // ---- what a change leaves alone ----

  /** A value is made of containers of the memory, all ranked below its level. */
  lemma {:induction false} ReachWithin(v: Value, m: Memory)
    requires Closed(m) && Held(v, m)
    ensures Reach(v, m) <= m.Keys && forall d :: d in Reach(v, m) ==> d.rank < Level(v)
    decreases Level(v)
  {
    if v.Ref? {
      assert CellOk(v.c, m);
      forall i | 0 <= i < |m[v.c]| ensures Reach(m[v.c][i], m) <= m.Keys
        && forall d :: d in Reach(m[v.c][i], m) ==> d.rank < v.c.rank
      {
        ReachWithin(m[v.c][i], m);
      }
    }
  }

  ghost predicate SameCells(cs: set<Container>, m: Memory, m': Memory) {
    forall d :: d in cs ==> d in m && d in m' && m'[d] == m[d]
  }

  /** A value reads the same wherever its own containers hold the same. */
  lemma {:induction false} Framed(v: Value, m: Memory, m': Memory)
    requires Closed(m) && Closed(m') && Held(v, m) && SameCells(Reach(v, m), m, m')
    ensures Held(v, m') && Abs(v, m') == Abs(v, m) && Reach(v, m') == Reach(v, m)
    ensures Unshared(v, m') == Unshared(v, m)
    decreases Level(v), 0
  {
    hide Reach, Abs, Unshared;
    if v.Ref? {
      InsideRef(v.c, m);
      InsideRef(v.c, m');
      FramedAll(m[v.c], m, m', v.c.rank);
      AbsRef(v.c, m);
      AbsRef(v.c, m');
    } else {
      LeafFacts(v, m);
      LeafFacts(v, m');
    }
  }

  lemma LeafFacts(v: Value, m: Memory)
    requires Closed(m) && Held(v, m) && v.Leaf?
    ensures Abs(v, m) == v.node && Reach(v, m) == {} && Unshared(v, m)
  {
  }

  lemma {:induction false} FramedAll(vs: seq<Value>, m: Memory, m': Memory, rank: nat)
    requires Closed(m) && Closed(m') && AllHeld(vs, m) && SameCells(ReachAll(vs, m), m, m')
    requires forall i :: 0 <= i < |vs| ==> Level(vs[i]) <= rank
    ensures AllHeld(vs, m') && AbsAll(vs, m') == AbsAll(vs, m) && ReachAll(vs, m') == ReachAll(vs, m)
    ensures UnsharedAll(vs, m') == UnsharedAll(vs, m)
    decreases rank, 1
  {
    hide Reach, Abs, Unshared;
    forall i | 0 <= i < |vs|
      ensures Held(vs[i], m') && Abs(vs[i], m') == Abs(vs[i], m) && Reach(vs[i], m') == Reach(vs[i], m)
      ensures Unshared(vs[i], m') == Unshared(vs[i], m)
    {
      assert Reach(vs[i], m) <= ReachAll(vs, m);
      Framed(vs[i], m, m');
    }
  }

  /** Evolution adds containers to a value and takes none away. */
  lemma {:induction false} ReachEvolves(v: Value, m: Memory, m': Memory, all: seq<string>)
    requires Closed(m) && Evolves(m, m', all) && Held(v, m)
    ensures Held(v, m') && Reach(v, m) == Reach(v, m') * m.Keys
    decreases Level(v)
  {
    hide Reach, StandsFor;
    if v.Ref? {
      var c := v.c;
      InsideRef(c, m);
      InsideRef(c, m');
      assert CellEvolves(c, m, m', all);
      forall i | 0 <= i < |m[c]| ensures Reach(m[c][i], m) == Reach(m'[c][i], m') * m.Keys {
        assert SlotEvolves(m[c][i], m'[c][i], m, m', all);
        if m'[c][i] == m[c][i] {
          ReachEvolves(m[c][i], m, m', all);
        } else {
          LeafFacts(m[c][i], m);
          NewReach(m'[c][i].c, m[c][i].node.bytes, m', all);
        }
      }
      SameReachAll(m[c], m'[c], m, m', m.Keys);
    } else {
      LeafFacts(v, m);
      LeafFacts(v, m');
    }
  }

  lemma NewReach(p: Container, bytes: string, m: Memory, all: seq<string>)
    requires Closed(m) && StandsFor(p, bytes, m, all)
    ensures p in m && Reach(Ref(p), m) == {p} && Clean(p, m)
  {
    var k :| 0 <= k < |all| && all[k] == bytes && PlaceholderAt(p, m, k);
    assert m[p][0] == Leaf(Bool(true)) && m[p][1] == Leaf(Int(k));
  }

  /** A value without bytes evolves no further. */
  lemma CleanStays(v: Value, m: Memory, m': Memory, all: seq<string>)
    requires Closed(m) && Evolves(m, m', all) && Held(v, m) && CleanBelow(Reach(v, m), m)
    ensures SameCells(Reach(v, m), m, m')
    ensures Held(v, m') && Abs(v, m') == Abs(v, m) && Reach(v, m') == Reach(v, m) && CleanBelow(Reach(v, m'), m')
  {
    hide Reach, Abs, Unshared, StandsFor;
    forall d | d in Reach(v, m) ensures d in m' && m'[d] == m[d] {
      assert Clean(d, m) && CellEvolves(d, m, m', all);
      forall i | 0 <= i < |m[d]| ensures m'[d][i] == m[d][i] {
        assert SlotEvolves(m[d][i], m'[d][i], m, m', all);
      }
    }
    Framed(v, m, m');
  }

  // ---- deconstructNode ----

  /** The `*[][]byte` that deconstructNode appends to. */
  class BufferList {
    var items: seq<string>

    constructor ()
      ensures items == []
    {
      items := [];
    }
  }

  lemma UnfoldItems(rest: seq<Node>, n: nat)
    requires rest != []
    ensures ItemBuffers(rest) == Buffers(rest[0]) + ItemBuffers(rest[1..])
    ensures TakenItems(rest, n) == [Taken(rest[0], n)] + TakenItems(rest[1..], n + |Buffers(rest[0])|)
  {
  }

  /** One round of the loop: the entry is replaced and its binaries move to the list. */
  lemma NextItem(items: seq<Node>, i: nat, done: seq<Node>, gone: seq<string>, child: Node)
    requires i < |items| && child == Taken(items[i], |gone|)
    ensures var more := gone + Buffers(items[i]);
            && gone + ItemBuffers(items[i..]) == more + ItemBuffers(items[i + 1..])
            && done + TakenItems(items[i..], |gone|) == done + [child] + TakenItems(items[i + 1..], |more|)
  {
    hide Buffers, ItemBuffers, Taken, TakenItems;
    assert items[i..][1..] == items[i + 1..];
    UnfoldItems(items[i..], |gone|);
  }

  lemma NoItems(n: nat)
    ensures ItemBuffers([]) == [] && TakenItems([], n) == []
  {
  }

  /** Each of these buffers has its placeholder among the containers. */
  ghost predicate AllUsed(cs: set<Container>, m: Memory, from: int, to: int) {
    forall k :: from <= k < to ==> HasPlaceholder(cs, m, k)
  }

  ghost predicate HasPlaceholder(cs: set<Container>, m: Memory, k: int) {
    exists p :: p in cs && PlaceholderAt(p, m, k)
  }

  lemma UsedTogether(one: set<Container>, two: set<Container>, all: set<Container>, w: Memory, w1: Memory, w2: Memory,
                     x: int, y: int, z: int)
    requires AllUsed(one, w, x, y) && SameCells(one, w, w2) && one <= all
    requires AllUsed(two, w1, y, z) && SameCells(two, w1, w2) && two <= all
    ensures AllUsed(all, w2, x, z)
  {
    forall k | x <= k < z ensures HasPlaceholder(all, w2, k) {
      if k < y {
        assert HasPlaceholder(one, w, k);
        var p :| p in one && PlaceholderAt(p, w, k);
        assert PlaceholderAt(p, w2, k);
      } else {
        assert HasPlaceholder(two, w1, k);
        var p :| p in two && PlaceholderAt(p, w1, k);
        assert PlaceholderAt(p, w2, k);
      }
    }
  }

  lemma UsedWithin(cs: set<Container>, ds: set<Container>, m: Memory, from: int, to: int)
    requires AllUsed(cs, m, from, to) && cs <= ds
    ensures AllUsed(ds, m, from, to)
  {
    forall k | from <= k < to ensures HasPlaceholder(ds, m, k) {
      assert HasPlaceholder(cs, m, k);
    }
  }

  lemma ReachOneMore(vs: seq<Value>, w: Memory, r: Value, w': Memory)
    requires Closed(w) && Closed(w') && AllHeld(vs, w) && Held(r, w')
    requires forall j :: 0 <= j < |vs| ==> Held(vs[j], w') && Reach(vs[j], w') == Reach(vs[j], w)
    ensures ReachAll(vs + [r], w') == ReachAll(vs, w) + Reach(r, w')
  {
    hide Reach;
    var ws := vs + [r];
    forall d | d in ReachAll(vs, w) + Reach(r, w') ensures d in ReachAll(ws, w') {
      if d in ReachAll(vs, w) {
        var j :| 0 <= j < |vs| && d in Reach(vs[j], w);
        assert d in Reach(ws[j], w');
      } else {
        assert d in Reach(ws[|vs|], w');
      }
    }
    forall d | d in ReachAll(ws, w') ensures d in ReachAll(vs, w) + Reach(r, w') {
      var j :| 0 <= j < |ws| && d in Reach(ws[j], w');
      assert j < |vs| ==> ws[j] == vs[j] && d in Reach(vs[j], w);
    }
  }

  /** What deconstructing `v` into `r` does to the memory and to the buffers. Whether or not containers are shared,
      the memory only evolves, nothing outside the value changes, no bytes are left in it, and every buffer added has
      its placeholder there; a value that shares nothing becomes the extracted tree. */
  ghost predicate Extracted(v: Value, r: Value, m: Memory, m': Memory, a: seq<string>, b: seq<string>)
    requires Closed(m) && Held(v, m)
  {
    && a <= b && Evolves(m, m', b) && Held(r, m') && Level(r) <= Level(v) && SlotEvolves(v, r, m, m', b)
    && !IsBytes(r) && CleanBelow(Reach(r, m'), m') && AllUsed(Reach(r, m'), m', |a|, |b|)
    && SameCells(m.Keys - Reach(v, m), m, m')
    && (Unshared(v, m) ==> Abs(r, m') == Taken(Abs(v, m), |a|) && b == a + Buffers(Abs(v, m)))
  }

  /** The same after the first i entries of c. */
  ghost predicate Halfway(c: Container, i: nat, m: Memory, w: Memory, a: seq<string>, b: seq<string>)
    requires Closed(m) && c in m && CellOk(c, m) && i <= |m[c]|
  {
    && a <= b && Evolves(m, w, b) && |w[c]| == |m[c]| && w[c][i..] == m[c][i..] && CellOk(c, w)
    && (forall j :: 0 <= j < i ==> !IsBytes(w[c][j]) && CleanBelow(Reach(w[c][j], w), w))
    && AllUsed(ReachAll(w[c][..i], w), w, |a|, |b|)
    && SameCells(m.Keys - {c} - ReachAll(m[c][..i], m), m, w)
    && (UnsharedAll(m[c], m) ==>
          var nodes := AbsAll(m[c], m);
          && AbsAll(w[c][..i], w) + TakenItems(nodes[i..], |b|) == TakenItems(nodes, |a|)
          && b + ItemBuffers(nodes[i..]) == a + ItemBuffers(nodes))
  }

  lemma ApartFromEarlier(vs: seq<Value>, m: Memory, i: nat)
    requires Closed(m) && AllHeld(vs, m) && Apart(vs, m) && i < |vs|
    ensures AllHeld(vs[..i], m) && Reach(vs[i], m) !! ReachAll(vs[..i], m)
  {
    forall j | 0 <= j < i ensures Reach(vs[..i][j], m) !! Reach(vs[i], m) {
      assert Reach(vs[j], m) !! Reach(vs[i], m);
    }
  }

  /** The entry to come still reads as it did at the start, when no other entry shares anything with it. */
  lemma StillToCome(c: Container, i: nat, m: Memory, w: Memory, a: seq<string>, b: seq<string>)
    requires Closed(m) && c in m && CellOk(c, m) && i < |m[c]| && Halfway(c, i, m, w, a, b)
    ensures Held(m[c][i], w) && w[c][i] == m[c][i] && c !in Reach(m[c][i], w)
    ensures Reach(m[c][i], m) == Reach(m[c][i], w) * m.Keys
    ensures UnsharedAll(m[c], m) ==> Abs(m[c][i], w) == Abs(m[c][i], m) && Unshared(m[c][i], w)
  {
    hide Reach, Abs, Unshared, StandsFor, AbsAll, TakenItems, ItemBuffers;
    var x := m[c][i];
    assert w[c][i..][0] == m[c][i..][0];
    assert Held(x, m) && Level(x) <= c.rank;
    ReachEvolves(x, m, w, b);
    ReachWithin(x, w);
    ReachWithin(x, m);
    if UnsharedAll(m[c], m) {
      ApartFromEarlier(m[c], m, i);
      Framed(x, m, w);
    }
  }

  /** A value that does not contain c reads the same after a write to c. */
  lemma Written(v: Value, w: Memory, w': Memory, c: Container)
    requires Closed(w) && Closed(w') && Held(v, w) && c !in Reach(v, w)
    requires w.Keys <= w'.Keys && forall d :: d in w && d != c ==> w'[d] == w[d]
    ensures Held(v, w') && Abs(v, w') == Abs(v, w) && Reach(v, w') == Reach(v, w) && SameCells(Reach(v, w), w, w')
  {
    hide Reach, Abs;
    ReachWithin(v, w);
    Framed(v, w, w');
  }

  /** Writing the extracted entry back is one more step of evolution. */
  lemma WriteEvolves(c: Container, i: nat, m: Memory, w: Memory, w1: Memory, r: Value, a: seq<string>, b: seq<string>)
    requires Closed(m) && c in m && CellOk(c, m) && i < |m[c]| && Evolves(m, w, a) && a <= b
    requires Evolves(w, w1, b) && w[c] == w1[c] && i < |w[c]| && w[c][i] == m[c][i] && Held(r, w1) && Level(r) <= c.rank
    requires SlotEvolves(m[c][i], r, w, w1, b)
    ensures Evolves(m, w1[c := w1[c][i := r]], b)
  {
    hide StandsFor;
    var w2 := w1[c := w1[c][i := r]];
    EvolvesTwice(m, w, w1, a, b);
    forall d | d in w2 ensures CellOk(d, w2) {
      assert CellOk(d, w1);
    }
    forall d | d in m ensures CellEvolves(d, m, w2, b) {
      assert CellEvolves(d, m, w1, b);
      forall j | 0 <= j < |m[d]| ensures SlotEvolves(m[d][j], w2[d][j], m, w2, b) {
        assert SlotEvolves(m[d][j], w1[d][j], m, w1, b);
        var y := w2[d][j];
        if y != m[d][j] {
          StandsElsewhere(y.c, m[d][j].node.bytes, w1, w2, c, b);
        }
      }
    }
  }

  lemma StandsElsewhere(p: Container, bytes: string, w: Memory, w': Memory, c: Container, all: seq<string>)
    requires StandsFor(p, bytes, w, all) && p != c && p in w' && (p in w ==> w'[p] == w[p])
    ensures StandsFor(p, bytes, w', all)
  {
    var k :| 0 <= k < |all| && all[k] == bytes && PlaceholderAt(p, w, k);
    assert PlaceholderAt(p, w', k);
  }

  /** The entries already done stay as they are. */
  lemma DoneStays(v: Value, c: Container, w: Memory, w1: Memory, w2: Memory, all: seq<string>)
    requires Closed(w) && Evolves(w, w1, all) && Closed(w2) && Held(v, w) && CleanBelow(Reach(v, w), w)
    requires Level(v) <= c.rank && w1.Keys <= w2.Keys && forall d :: d in w1 && d != c ==> w2[d] == w1[d]
    ensures Held(v, w2) && Abs(v, w2) == Abs(v, w) && CleanBelow(Reach(v, w2), w2)
    ensures Reach(v, w2) == Reach(v, w) && SameCells(Reach(v, w), w, w2)
  {
    hide Reach, Abs, StandsFor;
    CleanStays(v, w, w1, all);
    ReachWithin(v, w1);
    Written(v, w1, w2, c);
  }

  lemma FrameStep(c: Container, i: nat, m: Memory, w: Memory, w1: Memory, w2: Memory)
    requires Closed(m) && Closed(w) && c in m && CellOk(c, m) && i < |m[c]| && Held(m[c][i], w)
    requires SameCells(m.Keys - {c} - ReachAll(m[c][..i], m), m, w)
    requires Reach(m[c][i], m) == Reach(m[c][i], w) * m.Keys
    requires SameCells(w.Keys - Reach(m[c][i], w), w, w1)
    requires w1.Keys <= w2.Keys && forall d :: d in w1 && d != c ==> w2[d] == w1[d]
    ensures SameCells(m.Keys - {c} - ReachAll(m[c][..i + 1], m), m, w2)
  {
    hide Reach;
    forall d | d in m.Keys - {c} - ReachAll(m[c][..i + 1], m) ensures d in w2 && w2[d] == m[d] {
      assert m[c][..i + 1][i] == m[c][i] && forall j :: 0 <= j < i ==> m[c][..i + 1][j] == m[c][..i][j];
      assert d !in Reach(m[c][i], m) && d !in ReachAll(m[c][..i], m);
    }
  }

  lemma ExactStep(nodes: seq<Node>, i: nat, done: seq<Node>, a: seq<string>, b: seq<string>, child: Node)
    requires i < |nodes| && child == Taken(nodes[i], |b|)
    requires done + TakenItems(nodes[i..], |b|) == TakenItems(nodes, |a|)
    requires b + ItemBuffers(nodes[i..]) == a + ItemBuffers(nodes)
    ensures var b1 := b + Buffers(nodes[i]);
            && done + [child] + TakenItems(nodes[i + 1..], |b1|) == TakenItems(nodes, |a|)
            && b1 + ItemBuffers(nodes[i + 1..]) == a + ItemBuffers(nodes)
  {
    NextItem(nodes, i, done, b, child);
  }

  /** Everything Halfway says of the entries already done. */
  ghost predicate Done(vs: seq<Value>, w: Memory, from: int, to: int)
    requires Closed(w) && AllHeld(vs, w)
  {
    && (forall j :: 0 <= j < |vs| ==> !IsBytes(vs[j]) && CleanBelow(Reach(vs[j], w), w))
    && AllUsed(ReachAll(vs, w), w, from, to)
  }

  lemma DoneStep(vs: seq<Value>, c: Container, w: Memory, w1: Memory, w2: Memory, r: Value, all: seq<string>,
                 x: int, y: int, z: int)
    requires Closed(w) && Evolves(w, w1, all) && Closed(w2) && AllHeld(vs, w) && Done(vs, w, x, y)
    requires forall j :: 0 <= j < |vs| ==> Level(vs[j]) <= c.rank
    requires w1.Keys <= w2.Keys && forall d :: d in w1 && d != c ==> w2[d] == w1[d]
    requires Held(r, w1) && Level(r) <= c.rank
    requires !IsBytes(r) && CleanBelow(Reach(r, w1), w1) && AllUsed(Reach(r, w1), w1, y, z)
    ensures AllHeld(vs + [r], w2) && Done(vs + [r], w2, x, z)
    ensures AbsAll(vs + [r], w2) == AbsAll(vs, w) + [Abs(r, w1)]
  {
    hide Reach, ReachAll, Abs, AbsAll, StandsFor, PlaceholderAt, AllUsed;
    forall j | 0 <= j < |vs|
      ensures Held(vs[j], w2) && Abs(vs[j], w2) == Abs(vs[j], w) && CleanBelow(Reach(vs[j], w2), w2)
      ensures Reach(vs[j], w2) == Reach(vs[j], w) && SameCells(Reach(vs[j], w), w, w2)
    {
      DoneStays(vs[j], c, w, w1, w2, all);
    }
    ReachWithin(r, w1);
    Written(r, w1, w2, c);
    OneMoreDone(vs, w, r, w2);
    ReachOneMore(vs, w, r, w2);
    SameOverAll(vs, w, w2);
    UsedTogether(ReachAll(vs, w), Reach(r, w1), ReachAll(vs + [r], w2), w, w1, w2, x, y, z);
  }

  lemma SameOverAll(vs: seq<Value>, w: Memory, w': Memory)
    requires Closed(w) && AllHeld(vs, w)
    requires forall j :: 0 <= j < |vs| ==> SameCells(Reach(vs[j], w), w, w')
    ensures SameCells(ReachAll(vs, w), w, w')
  {
    hide Reach;
  }

  /** Writing one entry leaves the ones before and after it. */
  lemma OneWrite(vs: seq<Value>, before: seq<Value>, i: nat, r: Value)
    requires i < |vs| == |before| && vs[i..] == before[i..]
    ensures vs[i := r][..i + 1] == vs[..i] + [r] && vs[i := r][i + 1..] == before[i + 1..]
  {
    assert vs[i..][1..] == vs[i + 1..] && before[i..][1..] == before[i + 1..];
  }

  lemma HalfwayStep(c: Container, i: nat, m: Memory, w: Memory, w1: Memory, r: Value,
                    a: seq<string>, b: seq<string>, b1: seq<string>)
    requires Closed(m) && c in m && CellOk(c, m) && i < |m[c]| && Halfway(c, i, m, w, a, b)
    requires Held(m[c][i], w) && Extracted(m[c][i], r, w, w1, b, b1)
    ensures c in w1 && |w1[c]| == |m[c]| && Halfway(c, i + 1, m, w1[c := w1[c][i := r]], a, b1)
  {
    hide Reach, ReachAll, Abs, Unshared, StandsFor, TakenItems, ItemBuffers, Taken, Buffers, AbsAll, AllUsed;
    StillToCome(c, i, m, w, a, b);
    assert c in w.Keys - Reach(m[c][i], w);
    var w2 := w1[c := w1[c][i := r]];
    WriteEvolves(c, i, m, w, w1, r, b, b1);
    FrameStep(c, i, m, w, w1, w2);
    OneWrite(w[c], m[c], i, r);
    var vs := w[c][..i];
    assert CellOk(c, w2);
    DoneStep(vs, c, w, w1, w2, r, b1, |a|, |b|, |b1|);
    assert forall j :: 0 <= j < i + 1 ==> w2[c][j] == (vs + [r])[j];
    if UnsharedAll(m[c], m) {
      AllAt(m[c], m, i);
      ExactStep(AbsAll(m[c], m), i, AbsAll(vs, w), a, b, Abs(r, w1));
    }
  }

  lemma AllAt(vs: seq<Value>, m: Memory, i: nat)
    requires Closed(m) && AllHeld(vs, m) && i < |vs|
    ensures AbsAll(vs, m)[i] == Abs(vs[i], m)
  {
  }

  lemma OneMoreDone(vs: seq<Value>, w: Memory, r: Value, w': Memory)
    requires Closed(w) && Closed(w') && AllHeld(vs, w) && Held(r, w')
    requires forall j :: 0 <= j < |vs| ==> Held(vs[j], w') && Abs(vs[j], w') == Abs(vs[j], w)
    ensures AbsAll(vs + [r], w') == AbsAll(vs, w) + [Abs(r, w')]
  {
    hide Abs;
  }

  lemma {:induction false} ZipTaken(keys: seq<string>, nodes: seq<Node>, n: nat)
    requires |keys| == |nodes|
    ensures TakenFields(Zip(keys, nodes), n) == Zip(keys, TakenItems(nodes, n))
    ensures FieldBuffers(Zip(keys, nodes)) == ItemBuffers(nodes)
    decreases keys
  {
    if keys != [] {
      ZipTaken(keys[1..], nodes[1..], n + |Buffers(nodes[0])|);
      assert Zip(keys, nodes)[1..] == Zip(keys[1..], nodes[1..]);
    }
  }

  lemma WholeTaken(keys: Option<seq<string>>, nodes: seq<Node>, n: nat)
    requires keys.Some? ==> |keys.value| == |nodes|
    ensures Taken(Whole(keys, nodes), n) == Whole(keys, TakenItems(nodes, n))
    ensures Buffers(Whole(keys, nodes)) == ItemBuffers(nodes)
  {
    if keys.Some? {
      ZipTaken(keys.value, nodes, n);
    }
  }

  lemma HalfwayStart(c: Container, m: Memory, a: seq<string>)
    requires Closed(m) && c in m && CellOk(c, m)
    ensures Halfway(c, 0, m, m, a, a)
  {
    hide Reach, Abs, Unshared, Taken, Buffers, TakenItems, ItemBuffers;
    EvolvesSelf(m, a);
    assert AbsAll(m[c], m)[0..] == AbsAll(m[c], m);
    assert AbsAll(m[c][..0], m) == [];
  }

  lemma CleanTogether(vs: seq<Value>, w: Memory)
    requires Closed(w) && AllHeld(vs, w) && forall j :: 0 <= j < |vs| ==> CleanBelow(Reach(vs[j], w), w)
    ensures CleanBelow(ReachAll(vs, w), w)
  {
    hide Reach;
  }

  lemma ExactEnd(c: Container, m: Memory, w: Memory, a: seq<string>, b: seq<string>)
    requires Closed(m) && Closed(w) && c in m && c in w && CellOk(c, m) && CellOk(c, w)
    requires AbsAll(w[c], w) == TakenItems(AbsAll(m[c], m), |a|) && b == a + ItemBuffers(AbsAll(m[c], m))
    ensures Abs(Ref(c), w) == Taken(Abs(Ref(c), m), |a|) && b == a + Buffers(Abs(Ref(c), m))
  {
    hide Abs, AbsAll, Taken, Buffers, TakenItems, ItemBuffers;
    WholeTaken(c.keys, AbsAll(m[c], m), |a|);
    AbsRef(c, m);
    AbsRef(c, w);
  }

  lemma HalfwayEnd(c: Container, m: Memory, w: Memory, a: seq<string>, b: seq<string>)
    requires Closed(m) && c in m && CellOk(c, m) && Halfway(c, |m[c]|, m, w, a, b)
    ensures Extracted(Ref(c), Ref(c), m, w, a, b)
  {
    hide Reach, ReachAll, Abs, Unshared, UnsharedAll, Taken, Buffers, TakenItems, ItemBuffers, StandsFor, AbsAll,
         AllUsed;
    InsideRef(c, m);
    InsideRef(c, w);
    assert m[c][..|m[c]|] == m[c] && w[c][..|m[c]|] == w[c];
    UsedWithin(ReachAll(w[c], w), Reach(Ref(c), w), w, |a|, |b|);
    CleanTogether(w[c], w);
    if UnsharedAll(m[c], m) {
      NoItems(|b|);
      assert AbsAll(m[c], m)[|m[c]|..] == [];
      ExactEnd(c, m, w, a, b);
    }
  }

  lemma BytesExtracted(t: Node, p: Container, m: Memory, a: seq<string>)
    requires Closed(m) && t.Binary? && p !in m && p.rank == 0
    requires p.keys == Some(["_placeholder", "num"])
    ensures var m' := m[p := [Leaf(Bool(true)), Leaf(Int(|a|))]];
            Closed(m') && Extracted(Leaf(t), Ref(p), m, m', a, a + [t.bytes])
  {
    var m' := m[p := [Leaf(Bool(true)), Leaf(Int(|a|))]];
    var b := a + [t.bytes];
    assert CellOk(p, m') && forall c :: c in m ==> CellOk(c, m) && CellOk(c, m');
    assert b[|a|] == t.bytes && PlaceholderAt(p, m', |a|);
    assert StandsFor(p, t.bytes, m', b);
    NewReach(p, t.bytes, m', b);
    PlaceholderReads(p, m', |a|);
    LeafFacts(Leaf(t), m);
    assert forall c :: c in m ==> CellEvolves(c, m, m', b);
  }

  lemma PlaceholderReads(p: Container, m: Memory, k: int)
    requires Closed(m) && PlaceholderAt(p, m, k)
    ensures Abs(Ref(p), m) == Placeholder(Int(k))
  {
    AbsRef(p, m);
    assert AbsAll(m[p], m) == [Bool(true), Int(k)];
    assert Zip(["_placeholder", "num"], [Bool(true), Int(k)])
           == [Field("_placeholder", Bool(true)), Field("num", Int(k))];
  }

  lemma ScalarExtracted(t: Node, m: Memory, a: seq<string>)
    requires Closed(m) && Scalar(t) && !t.Binary?
    ensures Extracted(Leaf(t), Leaf(t), m, m, a, a)
  {
    EvolvesSelf(m, a);
    LeafFacts(Leaf(t), m);
  }

  method DeconstructNode(v: Value, buffers: BufferList, ghost u: set<Container>)
    returns (r: Value, ghost u': set<Container>)
    requires Closed(Mem(u)) && Held(v, Mem(u))
    modifies buffers, u
    ensures u <= u' && fresh(u' - u)
    ensures Extracted(v, r, old(Mem(u)), Mem(u'), old(buffers.items), buffers.items)
    decreases Level(v), 0
  {
    hide Extracted, Reach, Abs, Unshared;
    u' := u;
    match v
    case Leaf(node) =>
      if node.Binary? {
        var idx := |buffers.items|;
        buffers.items := buffers.items + [node.bytes];
        var p := new Container(Some(["_placeholder", "num"]), [Leaf(Bool(true)), Leaf(Int(idx))], 0);
        r, u' := Ref(p), u + {p};
        assert Mem(u') == old(Mem(u))[p := p.slots];
        BytesExtracted(node, p, old(Mem(u)), old(buffers.items));
      } else {
        r := v;
        ScalarExtracted(node, Mem(u), buffers.items);
      }
    case Ref(c) =>
      r := v;
      u' := DeconstructSlots(c, buffers, u);
  }

  /** The loop over the entries of a map or a slice: each is replaced by its deconstructed value. */
  method DeconstructSlots(c: Container, buffers: BufferList, ghost u: set<Container>) returns (ghost u': set<Container>)
    requires Closed(Mem(u)) && c in u
    modifies buffers, u
    ensures u <= u' && fresh(u' - u)
    ensures Extracted(Ref(c), Ref(c), old(Mem(u)), Mem(u'), old(buffers.items), buffers.items)
    decreases c.rank, 1
  {
    hide Extracted, Halfway, Reach, Abs, Unshared, Evolves;
    ghost var m, a := Mem(u), buffers.items;
    u' := u;
    assert CellOk(c, m);
    HalfwayStart(c, m, a);
    var n := |c.slots|;
    for i := 0 to n
      invariant u <= u' && fresh(u' - u) && |c.slots| == n
      invariant Halfway(c, i, m, Mem(u'), a, buffers.items)
    {
      ghost var w, b := Mem(u'), buffers.items;
      HalfwayFacts(c, i, m, w, a, b);
      var child;
      ghost var u1;
      child, u1 := DeconstructNode(c.slots[i], buffers, u');
      HalfwayStep(c, i, m, w, Mem(u1), child, a, b, buffers.items);
      ghost var w1 := Mem(u1);
      c.slots := c.slots[i := child];
      u' := u1;
      assert Mem(u') == w1[c := w1[c][i := child]];
    }
    HalfwayEnd(c, m, Mem(u'), a, buffers.items);
  }

  lemma HalfwayFacts(c: Container, i: nat, m: Memory, w: Memory, a: seq<string>, b: seq<string>)
    requires Closed(m) && c in m && CellOk(c, m) && i < |m[c]| && Halfway(c, i, m, w, a, b)
    ensures Closed(w) && c in w && |w[c]| == |m[c]| && w[c][i] == m[c][i] && Held(m[c][i], w)
            && Level(m[c][i]) <= c.rank
  {
    hide Reach, Abs, Unshared, StandsFor, AbsAll, TakenItems, ItemBuffers;
    StillToCome(c, i, m, w, a, b);
  }

  // ---- what extraction means for the trees ----

  lemma WholeExtracts(keys: Option<seq<string>>, xs: seq<Node>, ys: seq<Node>, all: seq<string>)
    requires (keys.Some? ==> |keys.value| == |xs|) && ItemsExtract(xs, ys, all)
    ensures Extracts(Whole(keys, xs), Whole(keys, ys), all)
  {
    hide Extracts;
    if keys.Some? {
      var f, g := Zip(keys.value, xs), Zip(keys.value, ys);
      assert FieldsExtract(f, g, all);
      ObjectExtracts(f, g, all);
    } else {
      ArrayExtracts(xs, ys, all);
    }
  }

  lemma ObjectExtracts(f: seq<Field>, g: seq<Field>, all: seq<string>)
    requires FieldsExtract(f, g, all)
    ensures Extracts(Object(f), Object(g), all)
  {
  }

  lemma ArrayExtracts(xs: seq<Node>, ys: seq<Node>, all: seq<string>)
    requires ItemsExtract(xs, ys, all)
    ensures Extracts(Array(xs), Array(ys), all)
  {
  }

  lemma ScalarExtracts(t: Node, all: seq<string>)
    requires Scalar(t) && !t.Binary?
    ensures Extracts(t, t, all)
  {
  }

  lemma StandsExtracts(p: Container, t: Node, m: Memory, all: seq<string>)
    requires Closed(m) && t.Binary? && StandsFor(p, t.bytes, m, all)
    ensures p in m && Extracts(t, Abs(Ref(p), m), all)
  {
    var k :| 0 <= k < |all| && all[k] == t.bytes && PlaceholderAt(p, m, k);
    PlaceholderReads(p, m, k);
  }

  /** A value without bytes left reads as an extraction of what it read as before. */
  lemma {:induction false} ReadsExtracted(v: Value, m: Memory, m': Memory, all: seq<string>)
    requires Closed(m) && Evolves(m, m', all) && Held(v, m) && Held(v, m')
    requires !IsBytes(v) && CleanBelow(Reach(v, m'), m')
    ensures Extracts(Abs(v, m), Abs(v, m'), all)
    decreases Level(v)
  {
    hide Reach, Abs, Extracts, StandsFor;
    if v.Ref? {
      var c := v.c;
      InsideRef(c, m);
      InsideRef(c, m');
      assert CellEvolves(c, m, m', all) && Clean(c, m');
      var xs, ys := AbsAll(m[c], m), AbsAll(m'[c], m');
      forall i | 0 <= i < |m[c]| ensures Extracts(xs[i], ys[i], all) {
        assert SlotEvolves(m[c][i], m'[c][i], m, m', all);
        if m'[c][i] == m[c][i] {
          assert Reach(m'[c][i], m') <= ReachAll(m'[c], m');
          ReadsExtracted(m[c][i], m, m', all);
        } else {
          LeafFacts(m[c][i], m);
          StandsExtracts(m'[c][i].c, m[c][i].node, m', all);
        }
      }
      WholeExtracts(c.keys, xs, ys, all);
      AbsRef(c, m);
      AbsRef(c, m');
    } else {
      LeafFacts(v, m);
      LeafFacts(v, m');
      ScalarExtracts(v.node, all);
    }
  }

  /** Whatever is shared, the value reads afterwards as an extraction of the tree it read as before. */
  lemma ExtractedReads(v: Value, r: Value, m: Memory, m': Memory, a: seq<string>, b: seq<string>)
    requires Closed(m) && Held(v, m) && Extracted(v, r, m, m', a, b)
    ensures Extracts(Abs(v, m), Abs(r, m'), b)
  {
    hide Reach, Abs, Unshared, Extracts, StandsFor;
    if r == v {
      ReadsExtracted(v, m, m', b);
    } else {
      LeafFacts(v, m);
      StandsExtracts(r.c, v.node, m', b);
    }
  }

  // ---- reading without changing ----

  lemma {:induction false} ZipBinary(keys: seq<string>, nodes: seq<Node>)
    requires |keys| == |nodes|
    ensures FieldsHaveBinary(Zip(keys, nodes)) == ItemsHaveBinary(nodes)
    decreases keys
  {
    if keys != [] {
      ZipBinary(keys[1..], nodes[1..]);
      assert Zip(keys, nodes)[1..] == Zip(keys[1..], nodes[1..]);
    }
  }

  lemma WholeBinary(keys: Option<seq<string>>, nodes: seq<Node>)
    requires keys.Some? ==> |keys.value| == |nodes|
    ensures HasBinary(Whole(keys, nodes)) == ItemsHaveBinary(nodes)
  {
    if keys.Some? {
      ZipBinary(keys.value, nodes);
    }
  }

  lemma {:induction false} LastBinary(init: seq<Node>, last: Node)
    ensures ItemsHaveBinary(init + [last]) == (ItemsHaveBinary(init) || HasBinary(last))
  {
    if init == [] {
      assert !ItemsHaveBinary([last][1..]);
    } else {
      LastBinary(init[1..], last);
      assert (init + [last])[1..] == init[1..] + [last];
    }
  }

  /** hasBinaryValue. */
  function HasBinaryValue(v: Value, ghost u: set<Container>): (b: bool)
    requires Closed(Mem(u)) && Held(v, Mem(u))
    reads u
    ensures b == HasBinary(Abs(v, Mem(u)))
    decreases Level(v), 0
  {
    match v
    case Leaf(node) => node.Binary?
    case Ref(c) =>
      AbsRef(c, Mem(u));
      WholeBinary(c.keys, AbsAll(c.slots, Mem(u)));
      AnyBinary(c.slots, u, c.rank)
  }

  function AnyBinary(vs: seq<Value>, ghost u: set<Container>, ghost rank: nat): (b: bool)
    requires Closed(Mem(u)) && AllHeld(vs, Mem(u)) && forall i :: 0 <= i < |vs| ==> Level(vs[i]) <= rank
    reads u
    ensures b == ItemsHaveBinary(AbsAll(vs, Mem(u)))
    decreases rank, 1, |vs|
  {
    if vs == [] then false
    else
      var n := |vs| - 1;
      LastBinary(AbsAll(vs[..n], Mem(u)), Abs(vs[n], Mem(u)));
      assert AbsAll(vs, Mem(u)) == AbsAll(vs[..n], Mem(u)) + [Abs(vs[n], Mem(u))];
      AnyBinary(vs[..n], u, rank) || HasBinaryValue(vs[n], u)
  }

  /** What an encoder walking the value sees. */
  function Snapshot(v: Value, ghost u: set<Container>): (t: Node)
    requires Closed(Mem(u)) && Held(v, Mem(u))
    reads u
    ensures t == Abs(v, Mem(u))
    decreases Level(v), 0
  {
    match v
    case Leaf(node) => node
    case Ref(c) =>
      AbsRef(c, Mem(u));
      Whole(c.keys, SnapshotAll(c.slots, u, c.rank))
  }

  function SnapshotAll(vs: seq<Value>, ghost u: set<Container>, ghost rank: nat): (nodes: seq<Node>)
    requires Closed(Mem(u)) && AllHeld(vs, Mem(u)) && forall i :: 0 <= i < |vs| ==> Level(vs[i]) <= rank
    reads u
    ensures nodes == AbsAll(vs, Mem(u))
    decreases rank, 1, |vs|
  {
    if vs == [] then []
    else
      var n := |vs| - 1;
      assert AbsAll(vs, Mem(u)) == AbsAll(vs[..n], Mem(u)) + [Abs(vs[n], Mem(u))];
      SnapshotAll(vs[..n], u, rank) + [Snapshot(vs[n], u)]
  }

  // ---- the values of a packet ----

  ghost function Top(vs: seq<Value>): (n: nat)
    ensures forall i :: 0 <= i < |vs| ==> Level(vs[i]) <= n
  {
    if vs == [] then 0
    else
      var n := Top(vs[..|vs| - 1]);
      if Level(vs[|vs| - 1]) > n then Level(vs[|vs| - 1]) else n
  }

  /** A new list reads as its values do. */
  lemma NewList(list: Container, vs: seq<Value>, m: Memory)
    requires Closed(m) && AllHeld(vs, m) && list !in m && list.keys.None? && list.rank == Top(vs)
    ensures var m1 := m[list := vs];
            && Closed(m1) && AllHeld(vs, m1) && AbsAll(vs, m1) == AbsAll(vs, m)
            && UnsharedAll(vs, m1) == UnsharedAll(vs, m)
  {
    hide Abs, Reach, Unshared;
    var m1 := m[list := vs];
    assert CellOk(list, m1) && forall c :: c in m ==> CellOk(c, m) && CellOk(c, m1);
    forall i | 0 <= i < |vs| ensures Reach(vs[i], m) <= m.Keys {
      ReachWithin(vs[i], m);
    }
    FramedAll(vs, m, m1, list.rank);
  }

  /** What a packet's list of values becomes. */
  ghost predicate ListExtracted(vs: seq<Value>, out: seq<Value>, m: Memory, m': Memory, buffers: seq<string>)
    requires Closed(m) && AllHeld(vs, m)
  {
    && Closed(m') && |out| == |vs| && AllHeld(out, m')
    && (forall k :: 0 <= k < |vs| && !IsBytes(vs[k]) ==> out[k] == vs[k])
    && ItemsExtract(AbsAll(vs, m), AbsAll(out, m'), buffers)
    && (forall k :: 0 <= k < |buffers| ==> Mentions(Array(AbsAll(out, m')), k))
    && (UnsharedAll(vs, m) ==> AbsAll(out, m') == TakenItems(AbsAll(vs, m), 0) && buffers == ItemBuffers(AbsAll(vs, m)))
  }

  lemma WholeMentions(keys: Option<seq<string>>, nodes: seq<Node>, i: nat, k: int)
    requires (keys.Some? ==> |keys.value| == |nodes|) && i < |nodes| && Mentions(nodes[i], k)
    ensures Mentions(Whole(keys, nodes), k)
  {
    if keys.Some? {
      assert Mentions(Zip(keys.value, nodes)[i].value, k);
    }
  }

  lemma {:induction false} ReachMentions(v: Value, m: Memory, p: Container, k: int)
    requires Closed(m) && Held(v, m) && p in Reach(v, m) && PlaceholderAt(p, m, k)
    ensures Mentions(Abs(v, m), k)
    decreases Level(v)
  {
    hide Reach, Abs, Mentions;
    if v.Leaf? {
      LeafFacts(v, m);
    } else if v.c == p {
      PlaceholderReads(p, m, k);
      PlaceholderMentions(k);
    } else {
      InsideRef(v.c, m);
      AbsRef(v.c, m);
      var i :| 0 <= i < |m[v.c]| && p in Reach(m[v.c][i], m);
      ReachMentions(m[v.c][i], m, p, k);
      WholeMentions(v.c.keys, AbsAll(m[v.c], m), i, k);
    }
  }

  lemma PlaceholderMentions(k: int)
    ensures Mentions(Placeholder(Int(k)), k)
  {
  }

  lemma ListDone(list: Container, vs: seq<Value>, m: Memory, m': Memory, buffers: seq<string>)
    requires Closed(m) && AllHeld(vs, m) && list !in m && list.keys.None? && list.rank == Top(vs)
    requires Closed(m[list := vs]) && Extracted(Ref(list), Ref(list), m[list := vs], m', [], buffers)
    ensures list in m' && ListExtracted(vs, m'[list], m, m', buffers)
  {
    hide Abs, Reach, Unshared, Mentions, Taken, Buffers, TakenItems, ItemBuffers, StandsFor, Extracts;
    var m1 := m[list := vs];
    var out := m'[list];
    NewList(list, vs, m);
    InsideRef(list, m1);
    InsideRef(list, m');
    AbsRef(list, m1);
    AbsRef(list, m');
    assert CellEvolves(list, m1, m', buffers);
    forall k | 0 <= k < |vs| && !IsBytes(vs[k]) ensures out[k] == vs[k] {
      assert SlotEvolves(m1[list][k], m'[list][k], m1, m', buffers);
    }
    ExtractedReads(Ref(list), Ref(list), m1, m', [], buffers);
    ArrayOfExtracts(AbsAll(vs, m), AbsAll(out, m'), buffers);
    forall k | 0 <= k < |buffers| ensures Mentions(Array(AbsAll(out, m')), k) {
      assert HasPlaceholder(Reach(Ref(list), m'), m', k);
      var p :| p in Reach(Ref(list), m') && PlaceholderAt(p, m', k);
      ReachMentions(Ref(list), m', p, k);
    }
    if UnsharedAll(vs, m) {
      ArrayTaken(AbsAll(vs, m));
    }
  }

  lemma ArrayOfExtracts(xs: seq<Node>, ys: seq<Node>, all: seq<string>)
    requires Extracts(Array(xs), Array(ys), all)
    ensures ItemsExtract(xs, ys, all)
  {
  }

  lemma ArrayTaken(nodes: seq<Node>)
    ensures Taken(Array(nodes), 0) == Array(TakenItems(nodes, 0)) && Buffers(Array(nodes)) == ItemBuffers(nodes)
  {
  }

  /** A list of values deconstructed one after the other, as a packet is built. */
  method DeconstructAll(items: seq<Value>, ghost u: set<Container>)
    returns (out: seq<Value>, buffers: seq<string>, ghost u': set<Container>)
    requires Closed(Mem(u)) && AllHeld(items, Mem(u))
    modifies u
    ensures u <= u' && fresh(u' - u)
    ensures ListExtracted(items, out, old(Mem(u)), Mem(u'), buffers)
  {
    hide Extracted, ListExtracted, Abs, Reach, Unshared, Closed;
    ghost var m := Mem(u);
    var list := new Container(None, items, Top(items));
    var collected := new BufferList();
    NewList(list, items, m);
    assert Mem(u + {list}) == m[list := items];
    u' := DeconstructSlots(list, collected, u + {list});
    ListDone(list, items, m, Mem(u'), collected.items);
    out, buffers := list.slots, collected.items;
  }

  // ---- reconstructNode, on data that shares nothing, as parsed data does not ----

  function Look(keys: seq<string>, vs: seq<Value>, key: string): Option<Value>
    requires |keys| == |vs|
  {
    if keys == [] then None else if keys[0] == key then Some(vs[0]) else Look(keys[1..], vs[1..], key)
  }

  lemma {:induction false} LookIsGet(keys: seq<string>, vs: seq<Value>, m: Memory, nodes: seq<Node>, key: string)
    requires Closed(m) && AllHeld(vs, m) && |keys| == |vs| == |nodes|
    requires forall i :: 0 <= i < |vs| ==> Abs(vs[i], m) == nodes[i]
    ensures match Look(keys, vs, key)
            case None => Get(Zip(keys, nodes), key) == None
            case Some(Leaf(t)) => Get(Zip(keys, nodes), key) == Some(t)
            case Some(Ref(_)) => Get(Zip(keys, nodes), key).Some? && !Scalar(Get(Zip(keys, nodes), key).value)
    decreases keys
  {
    if keys != [] {
      LookIsGet(keys[1..], vs[1..], m, nodes[1..], key);
      assert Zip(keys, nodes)[1..] == Zip(keys[1..], nodes[1..]);
    }
  }

  /** isPlaceholder on a map object. */
  function IsPlaceholder(c: Container, ghost u: set<Container>): (idx: Option<int>)
    requires Closed(Mem(u)) && c in u && c.keys.Some?
    reads u
    ensures CellOk(c, Mem(u)) && idx == PlaceholderIndex(Zip(c.keys.value, AbsAll(c.slots, Mem(u))))
  {
    assert CellOk(c, Mem(u));
    LookIsGet(c.keys.value, c.slots, Mem(u), AbsAll(c.slots, Mem(u)), "_placeholder");
    LookIsGet(c.keys.value, c.slots, Mem(u), AbsAll(c.slots, Mem(u)), "num");
    if Look(c.keys.value, c.slots, "_placeholder") != Some(Leaf(Bool(true))) then None
    else
      match Look(c.keys.value, c.slots, "num")
      case Some(Leaf(Float(whole, _))) => Some(whole)
      case _ => None
  }

  lemma WholeRestored(keys: Option<seq<string>>, nodes: seq<Node>, attachments: seq<string>)
    requires keys.Some? ==> |keys.value| == |nodes|
    requires keys.Some? ==> PlaceholderIndex(Zip(keys.value, nodes)).None?
    ensures Restored(Whole(keys, nodes), attachments) == Whole(keys, RestoredItems(nodes, attachments))
  {
    if keys.Some? {
      assert RestoredFields(Zip(keys.value, nodes), attachments) == Zip(keys.value, RestoredItems(nodes, attachments));
    }
  }

  /** What reconstructing `v` into `r` does. */
  ghost predicate Reconstructed(v: Value, r: Value, m: Memory, m': Memory, attachments: seq<string>)
    requires Closed(m) && Held(v, m)
  {
    && Closed(m') && m'.Keys == m.Keys && Held(r, m') && Level(r) <= Level(v)
    && Abs(r, m') == Restored(Abs(v, m), attachments)
    && Reach(r, m') <= Reach(v, m) && SameCells(m.Keys - Reach(v, m), m, m')
  }

  /** The same after the first i entries of c. */
  ghost predicate Rebuilding(c: Container, i: nat, m: Memory, w: Memory, attachments: seq<string>)
    requires Closed(m) && c in m && CellOk(c, m) && i <= |m[c]|
  {
    && Closed(w) && w.Keys == m.Keys && |w[c]| == |m[c]| && w[c][i..] == m[c][i..] && CellOk(c, w)
    && (forall j :: 0 <= j < i ==>
          && Abs(w[c][j], w) == Restored(Abs(m[c][j], m), attachments)
          && Reach(w[c][j], w) <= Reach(m[c][j], m))
    && SameCells(m.Keys - {c} - ReachAll(m[c][..i], m), m, w)
  }

  lemma NextToRebuild(c: Container, i: nat, m: Memory, w: Memory, attachments: seq<string>)
    requires Closed(m) && c in m && CellOk(c, m) && UnsharedAll(m[c], m)
    requires i < |m[c]| && Rebuilding(c, i, m, w, attachments)
    ensures var x := m[c][i];
            && w[c][i] == x && Held(x, w) && Level(x) <= c.rank && c !in Reach(x, m)
            && Abs(x, w) == Abs(x, m) && Reach(x, w) == Reach(x, m) && Unshared(x, w)
  {
    hide Reach, Abs, Unshared, Restored;
    assert w[c][i..][0] == m[c][i..][0];
    ReachWithin(m[c][i], m);
    ApartFromEarlier(m[c], m, i);
    Framed(m[c][i], m, w);
  }

  lemma RebuiltStays(v: Value, x: Value, c: Container, w: Memory, w1: Memory, w2: Memory)
    requires Closed(w) && Closed(w1) && Closed(w2) && Held(v, w) && Held(x, w) && Level(v) <= c.rank
    requires Reach(v, w) !! Reach(x, w) && SameCells(w.Keys - Reach(x, w), w, w1)
    requires w1.Keys <= w2.Keys && forall d :: d in w1 && d != c ==> w2[d] == w1[d]
    ensures Held(v, w2) && Abs(v, w2) == Abs(v, w) && Reach(v, w2) == Reach(v, w)
  {
    hide Reach, Abs;
    ReachWithin(v, w);
    Framed(v, w, w1);
    Written(v, w1, w2, c);
  }

  lemma WriteKeepsClosed(c: Container, i: nat, m: Memory, r: Value)
    requires Closed(m) && c in m && i < |m[c]| && Held(r, m) && Level(r) <= c.rank
    ensures Closed(m[c := m[c][i := r]]) && CellOk(c, m[c := m[c][i := r]])
  {
    var m1 := m[c := m[c][i := r]];
    forall d | d in m1 ensures CellOk(d, m1) {
      assert CellOk(d, m);
    }
  }

  lemma RebuildingStep(c: Container, i: nat, m: Memory, w: Memory, w1: Memory, r: Value, attachments: seq<string>)
    requires Closed(m) && c in m && CellOk(c, m) && UnsharedAll(m[c], m)
    requires i < |m[c]| && Rebuilding(c, i, m, w, attachments)
    requires Held(m[c][i], w) && Reconstructed(m[c][i], r, w, w1, attachments)
    ensures c in w1 && |w1[c]| == |m[c]| && Rebuilding(c, i + 1, m, w1[c := w1[c][i := r]], attachments)
  {
    hide Reach, ReachAll, Abs, Unshared, Restored;
    var x := m[c][i];
    NextToRebuild(c, i, m, w, attachments);
    assert c in w.Keys - Reach(x, w);
    var w2 := w1[c := w1[c][i := r]];
    WriteKeepsClosed(c, i, w1, r);
    forall j | 0 <= j < i
      ensures Abs(w2[c][j], w2) == Restored(Abs(m[c][j], m), attachments) && Reach(w2[c][j], w2) <= Reach(m[c][j], m)
    {
      assert Reach(m[c][j], m) !! Reach(m[c][i], m);
      RebuiltStays(w[c][j], x, c, w, w1, w2);
    }
    ReachWithin(r, w1);
    Written(r, w1, w2, c);
    ReachWithin(x, m);
    assert Reach(x, m) == Reach(x, w) * m.Keys;
    FrameStep(c, i, m, w, w1, w2);
    OneWrite(w[c], m[c], i, r);
  }

  lemma RebuildingEnd(c: Container, m: Memory, w: Memory, attachments: seq<string>)
    requires Closed(m) && c in m && CellOk(c, m) && UnsharedAll(m[c], m)
    requires Rebuilding(c, |m[c]|, m, w, attachments)
    requires c.keys.Some? ==> PlaceholderIndex(Zip(c.keys.value, AbsAll(m[c], m))).None?
    ensures Reconstructed(Ref(c), Ref(c), m, w, attachments)
  {
    hide Reach, Abs, Unshared, Restored, PlaceholderIndex, RestoredItems;
    InsideRef(c, m);
    InsideRef(c, w);
    AbsRef(c, m);
    AbsRef(c, w);
    assert m[c][..|m[c]|] == m[c];
    WholeRestored(c.keys, AbsAll(m[c], m), attachments);
    assert AbsAll(w[c], w) == RestoredItems(AbsAll(m[c], m), attachments);
    forall d | d in ReachAll(w[c], w) ensures d in ReachAll(m[c], m) {
      var j :| 0 <= j < |w[c]| && d in Reach(w[c][j], w);
      assert d in Reach(m[c][j], m);
    }
  }

  method ReconstructNode(v: Value, attachments: seq<string>, ghost u: set<Container>) returns (r: Value)
    requires Closed(Mem(u)) && Held(v, Mem(u)) && Unshared(v, Mem(u))
    modifies u
    ensures Reconstructed(v, r, old(Mem(u)), Mem(u), attachments)
    decreases Level(v), 0
  {
    hide Reach, Unshared, PlaceholderIndex, RestoredItems, RestoredFields;
    r := v;
    match v
    case Leaf(_) =>
    case Ref(c) =>
      InsideRef(c, Mem(u));
      AbsRef(c, Mem(u));
      if c.keys.Some? {
        var idx := IsPlaceholder(c, u);
        if idx.Some? {
          if 0 <= idx.value < |attachments| {
            r := Leaf(Binary(attachments[idx.value]));
            LeafFacts(r, Mem(u));
          }
          return;
        }
      }
      ReconstructSlots(c, attachments, u);
  }

  /** The loop over the entries of a map or a slice. */
  method ReconstructSlots(c: Container, attachments: seq<string>, ghost u: set<Container>)
    requires Closed(Mem(u)) && c in u && CellOk(c, Mem(u)) && UnsharedAll(c.slots, Mem(u))
    requires c.keys.Some? ==> PlaceholderIndex(Zip(c.keys.value, AbsAll(c.slots, Mem(u)))).None?
    modifies u
    ensures Reconstructed(Ref(c), Ref(c), old(Mem(u)), Mem(u), attachments)
    decreases c.rank, 1
  {
    hide Reconstructed, Rebuilding, Reach, Abs, Unshared, UnsharedAll, Closed, PlaceholderIndex;
    ghost var m := Mem(u);
    RebuildingStart(c, m, attachments);
    var n := |c.slots|;
    for i := 0 to n
      invariant |c.slots| == n && Rebuilding(c, i, m, Mem(u), attachments)
    {
      ghost var w := Mem(u);
      RebuildingFacts(c, i, m, w, attachments);
      var child := ReconstructNode(c.slots[i], attachments, u);
      RebuildingStep(c, i, m, w, Mem(u), child, attachments);
      ghost var w1 := Mem(u);
      c.slots := c.slots[i := child];
      assert Mem(u) == w1[c := w1[c][i := child]];
    }
    RebuildingEnd(c, m, Mem(u), attachments);
  }

  lemma RebuildingStart(c: Container, m: Memory, attachments: seq<string>)
    requires Closed(m) && c in m && CellOk(c, m)
    ensures Rebuilding(c, 0, m, m, attachments)
  {
  }

  lemma RebuildingFacts(c: Container, i: nat, m: Memory, w: Memory, attachments: seq<string>)
    requires Closed(m) && c in m && CellOk(c, m) && UnsharedAll(m[c], m)
    requires i < |m[c]| && Rebuilding(c, i, m, w, attachments)
    ensures Closed(w) && c in w && |w[c]| == |m[c]| && w[c][i] == m[c][i]
    ensures Held(m[c][i], w) && Level(m[c][i]) <= c.rank && Unshared(m[c][i], w)
  {
    NextToRebuild(c, i, m, w, attachments);
  }
}
