/** A packet with binary arguments from sender to receiver: extraction, text frame, binary frames, collection of the
    attachments and reinsertion (server/pkg/socketio/packet.go:260-277, 316-330, 508-604). */
module BinaryWire {
  import opened Options
  import opened GoText
  import opened SocketPacket
  import opened BinaryTree
  import opened BinaryHeap
  import opened WireJson

  // ---- collecting attachments ----

  function Attached(p: Packet, data: string): Packet {
    if IsBinary(p.kind) then p.(payloads := p.payloads + [data]) else p
  }

  predicate IsComplete(p: Packet) { !IsBinary(p.kind) || |p.payloads| >= p.attachments }

  function AttachedAll(p: Packet, frames: seq<string>): Packet
    decreases frames
  {
    if frames == [] then p else AttachedAll(Attached(p, frames[0]), frames[1..])
  }

  /** A packet under collection. */
  class PendingPacket {
    var packet: Packet

    constructor (p: Packet)
      ensures packet == p
    {
      packet := p;
    }

    method AddAttachment(data: string) returns (done: bool)
      modifies this
      ensures packet == Attached(old(packet), data)
      ensures done <==> IsBinary(packet.kind) && IsComplete(packet)
    {
      if packet.kind != BINARY_EVENT && packet.kind != BINARY_ACK { return false; }
      packet := packet.(payloads := packet.payloads + [data]);
      return |packet.payloads| >= packet.attachments;
    }
  }

  /** Collecting keeps the frames in order, and a packet that expects n is complete exactly from the n-th on. */
  lemma {:induction false} CollectsInOrder(p: Packet, frames: seq<string>)
    requires IsBinary(p.kind)
    ensures AttachedAll(p, frames) == p.(payloads := p.payloads + frames)
    ensures IsComplete(AttachedAll(p, frames)) <==> |p.payloads| + |frames| >= p.attachments
    decreases frames
  {
    if frames != [] {
      CollectsInOrder(Attached(p, frames[0]), frames[1..]);
      assert p.payloads + [frames[0]] + frames[1..] == p.payloads + frames;
    }
  }

  // ---- building and reading packets ----

  const EVENT := 2
  const ACK := 3

  function DefaultNamespace(ns: string): string { if ns == [] then "/" else ns }

  /** `out` extracts these items into these buffers, each of which has its placeholder. */
  ghost predicate Carries(items: seq<Node>, out: seq<Node>, buffers: seq<string>) {
    ItemsExtract(items, out, buffers) && forall k :: 0 <= k < |buffers| ==> Mentions(Array(out), k)
  }

  /** The arguments as the caller finds them after they were sent: the maps and slices among them were rewritten in
      place, a byte slice given directly was not. */
  function LeftBehind(items: seq<Node>, out: seq<Node>): (r: seq<Node>)
    requires |out| == |items|
    ensures |r| == |items|
  {
    seq(|items|, k requires 0 <= k < |items| => if items[k].Binary? then items[k] else out[k])
  }

  /** The event name is sent first and then the arguments, which may share maps or slices, with each other or within;
      what shares nothing is sent as the extracted tree. `out` is the list that is marshalled. */
  method NewBinaryEventPacket(c: Codec, ns: string, event: string, id: int, args: seq<Value>, ghost u: set<Container>)
    returns (p: Option<Packet>, ghost out: seq<Node>, ghost buffers: seq<string>, ghost u': set<Container>)
    requires Closed(Mem(u)) && AllHeld(args, Mem(u))
    modifies u
    ensures u <= u' && fresh(u' - u) && Closed(Mem(u')) && AllHeld(args, Mem(u'))
    ensures p.Some? <==> c.marshal(Array(out)).Some?
    ensures p.Some? ==>
              p.value == Packet(if ItemsHaveBinary(AbsAll(args, old(Mem(u)))) then 5 else 2,
                                if ns == "" then "/" else ns, id, c.marshal(Array(out)), |buffers|, buffers)
    ensures |out| == 1 + |args| && out[0] == Text(event)
    ensures var items := AbsAll(args, old(Mem(u)));
            if !ItemsHaveBinary(items) then out[1..] == items && buffers == [] && Mem(u') == old(Mem(u))
            else && Carries(items, out[1..], buffers) && AbsAll(args, Mem(u')) == LeftBehind(items, out[1..])
                 && (UnsharedAll(args, old(Mem(u))) ==>
                       out[1..] == TakenItems(items, 0) && buffers == ItemBuffers(items))
  {
    hide AbsAll, Abs, UnsharedAll, Closed, ItemsExtract, Mentions, TakenItems, ItemBuffers, ItemsHaveBinary;
    ghost var m := Mem(u);
    out, buffers, u' := [Text(event)] + AbsAll(args, m), [], u;
    if !AnyBinary(args, u, Top(args)) {
      var data := c.marshal(Array([Text(event)] + SnapshotAll(args, u, Top(args))));
      p := if data.None? then None else Some(Packet(EVENT, DefaultNamespace(ns), id, data, 0, []));
      return;
    }
    Headed(Text(event), args, m);
    var arr := [Leaf(Text(event))] + args;
    var deconstructed, collected;
    deconstructed, collected, u' := DeconstructAll(arr, u);
    var data := c.marshal(Array(SnapshotAll(deconstructed, u', Top(deconstructed))));
    p := if data.None? then None
         else Some(Packet(BINARY_EVENT, DefaultNamespace(ns), id, data, |collected|, collected));
    out, buffers := AbsAll(deconstructed, Mem(u')), collected;
    SentLeavesBehind(arr, deconstructed, m, Mem(u'), buffers);
    assert arr[1..] == args;
    NameInFront(event, AbsAll(args, m), out, buffers);
  }

  method NewBinaryAckPacket(c: Codec, ns: string, id: int, args: seq<Value>, ghost u: set<Container>)
    returns (p: Option<Packet>, ghost out: seq<Node>, ghost buffers: seq<string>, ghost u': set<Container>)
    requires Closed(Mem(u)) && AllHeld(args, Mem(u))
    modifies u
    ensures u <= u' && fresh(u' - u) && Closed(Mem(u')) && AllHeld(args, Mem(u'))
    ensures p.Some? <==> args == [] || c.marshal(Array(out)).Some?
    ensures p.Some? ==>
              p.value == Packet(if ItemsHaveBinary(AbsAll(args, old(Mem(u)))) then 6 else 3,
                                if ns == "" then "/" else ns, id,
                                if args == [] then None else c.marshal(Array(out)), |buffers|, buffers)
    ensures var items := AbsAll(args, old(Mem(u)));
            if !ItemsHaveBinary(items) then out == items && buffers == [] && Mem(u') == old(Mem(u))
            else && Carries(items, out, buffers) && AbsAll(args, Mem(u')) == LeftBehind(items, out)
                 && (UnsharedAll(args, old(Mem(u))) ==> out == TakenItems(items, 0) && buffers == ItemBuffers(items))
  {
    hide AbsAll, Abs, UnsharedAll, Closed, ItemsExtract, Mentions, TakenItems, ItemBuffers;
    ghost var m := Mem(u);
    ghost var items := AbsAll(args, m);
    out, buffers, u' := items, [], u;
    if !AnyBinary(args, u, Top(args)) {
      if |args| == 0 {
        p := Some(Packet(ACK, DefaultNamespace(ns), id, None, 0, []));
        return;
      }
      var data := c.marshal(Array(SnapshotAll(args, u, Top(args))));
      p := if data.None? then None else Some(Packet(ACK, DefaultNamespace(ns), id, data, 0, []));
      return;
    }
    var deconstructed, collected;
    deconstructed, collected, u' := DeconstructAll(args, u);
    var data := c.marshal(Array(SnapshotAll(deconstructed, u', Top(deconstructed))));
    p := if data.None? then None
         else Some(Packet(BINARY_ACK, DefaultNamespace(ns), id, data, |collected|, collected));
    out, buffers := AbsAll(deconstructed, Mem(u')), collected;
    SentLeavesBehind(args, deconstructed, m, Mem(u'), buffers);
    assert LeftBehind(items, out)[0..] == LeftBehind(items, out) && args[0..] == args;
  }

  /** What holds of the extracted list of an event's name and arguments holds of the arguments alone. */
  lemma NameInFront(event: string, items: seq<Node>, out: seq<Node>, buffers: seq<string>)
    requires Carries([Text(event)] + items, out, buffers)
    ensures |out| == 1 + |items| && out[0] == Text(event) && Carries(items, out[1..], buffers)
    ensures LeftBehind([Text(event)] + items, out)[1..] == LeftBehind(items, out[1..])
    ensures out == TakenItems([Text(event)] + items, 0) && buffers == ItemBuffers([Text(event)] + items) ==>
              out[1..] == TakenItems(items, 0) && buffers == ItemBuffers(items)
  {
    hide Extracts, Mentions, TakenItems, ItemBuffers;
    NameExtracts(event, items, out, buffers);
    NameTaken(event, items);
    forall k | 0 <= k < |buffers| ensures Mentions(Array(out[1..]), k) {
      MentionedLater(event, out, k);
    }
  }

  lemma NameExtracts(event: string, items: seq<Node>, out: seq<Node>, buffers: seq<string>)
    requires ItemsExtract([Text(event)] + items, out, buffers)
    ensures |out| == 1 + |items| && out[0] == Text(event) && ItemsExtract(items, out[1..], buffers)
  {
    var all := [Text(event)] + items;
    assert Extracts(all[0], out[0], buffers);
    assert forall i :: 0 <= i < |items| ==> all[i + 1] == items[i] && out[i + 1] == out[1..][i];
  }

  lemma NameTaken(event: string, items: seq<Node>)
    ensures TakenItems([Text(event)] + items, 0) == [Text(event)] + TakenItems(items, 0)
    ensures ItemBuffers([Text(event)] + items) == ItemBuffers(items)
  {
    assert ([Text(event)] + items)[1..] == items;
  }

  lemma MentionedLater(event: string, out: seq<Node>, k: int)
    requires out != [] && out[0] == Text(event) && Mentions(Array(out), k)
    ensures Mentions(Array(out[1..]), k)
  {
    var i :| 0 <= i < |out| && Mentions(out[i], k);
    assert out[1..][i - 1] == out[i];
  }

  /** Putting a scalar in front. */
  lemma Headed(t: Node, vs: seq<Value>, m: Memory)
    requires Closed(m) && AllHeld(vs, m) && Scalar(t)
    ensures AllHeld([Leaf(t)] + vs, m) && AbsAll([Leaf(t)] + vs, m) == [t] + AbsAll(vs, m)
    ensures UnsharedAll([Leaf(t)] + vs, m) == UnsharedAll(vs, m)
  {
    hide Abs, AbsAll, Reach, Unshared, Apart;
    LeafFacts(Leaf(t), m);
    HeadedApart(Leaf(t), vs, m);
    HeadedReads(Leaf(t), vs, m);
  }

  lemma HeadedReads(v: Value, vs: seq<Value>, m: Memory)
    requires Closed(m) && AllHeld(vs, m) && Held(v, m) && Unshared(v, m)
    ensures var ws := [v] + vs;
            && AllHeld(ws, m) && AbsAll(ws, m) == [Abs(v, m)] + AbsAll(vs, m)
            && ((forall i :: 0 <= i < |ws| ==> Unshared(ws[i], m))
               <==> forall i :: 0 <= i < |vs| ==> Unshared(vs[i], m))
  {
    hide Abs, Unshared;
    var ws := [v] + vs;
    assert forall i :: 0 < i < |ws| ==> ws[i] == vs[i - 1];
    if forall i :: 0 <= i < |ws| ==> Unshared(ws[i], m) {
      forall i | 0 <= i < |vs| ensures Unshared(vs[i], m) {
        assert Unshared(ws[i + 1], m);
      }
    }
  }

  lemma HeadedApart(v: Value, vs: seq<Value>, m: Memory)
    requires Closed(m) && AllHeld(vs, m) && Held(v, m) && Reach(v, m) == {}
    ensures AllHeld([v] + vs, m) && Apart([v] + vs, m) == Apart(vs, m)
  {
    hide Reach;
    var ws := [v] + vs;
    assert forall i :: 0 < i < |ws| ==> ws[i] == vs[i - 1];
    if Apart(ws, m) {
      forall i, j | 0 <= i < j < |vs| ensures Reach(vs[i], m) !! Reach(vs[j], m) {
        assert Reach(ws[i + 1], m) !! Reach(ws[j + 1], m);
      }
    }
  }

  /** A scalar reads as itself and a container as a container. */
  lemma ReadsAs(v: Value, m: Memory)
    requires Closed(m) && Held(v, m)
    ensures if v.Leaf? then Abs(v, m) == v.node else !Scalar(Abs(v, m))
  {
    if v.Ref? {
      AbsRef(v.c, m);
    }
  }

  /** What the caller's list reads as once its values were sent. */
  lemma SentLeavesBehind(vs: seq<Value>, out: seq<Value>, m: Memory, m': Memory, buffers: seq<string>)
    requires Closed(m) && AllHeld(vs, m) && ListExtracted(vs, out, m, m', buffers)
    requires m.Keys <= m'.Keys
    ensures AllHeld(vs, m')
    ensures Closed(m') && AllHeld(out, m')
    ensures forall from :: 0 <= from <= |vs| ==>
              AbsAll(vs[from..], m') == LeftBehind(AbsAll(vs, m), AbsAll(out, m'))[from..]
    ensures Carries(AbsAll(vs, m), AbsAll(out, m'), buffers)
  {
    hide Abs, Mentions, TakenItems, ItemBuffers, UnsharedAll, Extracts;
    var left := LeftBehind(AbsAll(vs, m), AbsAll(out, m'));
    forall k | 0 <= k < |vs| ensures Held(vs[k], m') && Abs(vs[k], m') == left[k] {
      ReadsAs(vs[k], m);
      ReadsAs(vs[k], m');
      if !IsBytes(vs[k]) {
        assert out[k] == vs[k];
      }
    }
  }

  /** Sending rewrites the caller's own maps and slices: they are left as they were exactly when none of them holds a
      binary, and a second packet from the same arguments is a binary one exactly when an argument itself is a byte
      slice. So the binaries inside maps and slices are sent once. */
  lemma SentTwice(items: seq<Node>, out: seq<Node>, buffers: seq<string>)
    requires Carries(items, out, buffers)
    ensures var left := LeftBehind(items, out);
            && (left == items <==> forall k :: 0 <= k < |items| ==> items[k].Binary? || !HasBinary(items[k]))
            && (ItemsHaveBinary(left) <==> exists k :: 0 <= k < |items| && items[k].Binary?)
  {
    var left := LeftBehind(items, out);
    forall k | 0 <= k < |items|
      ensures HasBinary(left[k]) <==> items[k].Binary?
      ensures left[k] == items[k] <==> items[k].Binary? || !HasBinary(items[k])
    {
      ExtractionLeavesNone(items[k], out[k], buffers);
    }
    ItemsHold(left);
  }

  /** ReconstructedData; None when there is no data or it does not parse. */
  function ReadData(c: Codec, p: Packet): Option<Node> {
    if p.data.None? then None
    else
      match c.parse(p.data.value)
      case None => None
      case Some(t) => Some(if IsBinary(p.kind) && IsComplete(p) then Restored(t, p.payloads) else t)
  }

  // ---- reinsertion does not depend on the order of fields ----

  lemma {:induction false} RestoredGet(fields: seq<Field>, all: seq<string>, key: string)
    ensures Get(RestoredFields(fields, all), key) ==
            if Get(fields, key).Some? then Some(Restored(Get(fields, key).value, all)) else None
    decreases fields
  {
    if fields != [] {
      RestoredGet(fields[1..], all, key);
      assert RestoredFields(fields, all)[1..] == RestoredFields(fields[1..], all);
    }
  }

  lemma SameIndex(f: seq<Field>, g: seq<Field>)
    requires Same(Object(f), Object(g))
    ensures PlaceholderIndex(f) == PlaceholderIndex(g)
  {
    assert Get(f, "_placeholder").Some? ==> Same(Get(f, "_placeholder").value, Get(g, "_placeholder").value);
    assert Get(f, "num").Some? ==> Same(Get(f, "num").value, Get(g, "num").value);
  }

  lemma {:induction false} RestoredSame(a: Node, b: Node, all: seq<string>)
    requires Same(a, b)
    ensures Same(Restored(a, all), Restored(b, all))
    decreases a
  {
    match (a, b)
    case (Object(f), Object(g)) =>
      SameIndex(f, g);
      if PlaceholderIndex(f).None? {
        var f', g' := RestoredFields(f, all), RestoredFields(g, all);
        forall k ensures Get(f', k).Some? <==> Get(g', k).Some? {
          RestoredGet(f, all, k);
          RestoredGet(g, all, k);
        }
        forall k | Get(f', k).Some? ensures Same(Get(f', k).value, Get(g', k).value) {
          RestoredGet(f, all, k);
          RestoredGet(g, all, k);
          GetIsField(f, k);
          RestoredSame(Get(f, k).value, Get(g, k).value, all);
        }
      }
    case (Array(xs), Array(ys)) =>
      forall i | 0 <= i < |xs| ensures Same(Restored(xs[i], all), Restored(ys[i], all)) {
        RestoredSame(xs[i], ys[i], all);
      }
    case _ =>
  }

  // ---- the whole way ----

  /** What the codec promises of an extracted list. */
  lemma ExtractedFacts(c: Codec, items: seq<Node>, out: seq<Node>, buffers: seq<string>)
    requires LawfulCodec(c) && ItemsRepresentable(c, items) && Carries(items, out, buffers) && |buffers| <= MAX_EXACT
    ensures WrittenWell(c, Array(out))
  {
    ItemsLeaveNone(items, out, buffers);
    ItemsExtractRepresentable(c, items, out, buffers);
    assert Representable(c, Array(out));
  }

  /** Representable arguments with at most 2^53 binaries can always be marshalled. */
  lemma BuildingSucceeds(c: Codec, items: seq<Node>, out: seq<Node>, buffers: seq<string>)
    requires LawfulCodec(c) && ItemsRepresentable(c, items) && Carries(items, out, buffers) && |buffers| <= MAX_EXACT
    ensures c.marshal(Array(out)).Some?
  {
    ExtractedFacts(c, items, out, buffers);
  }

  /** The packet that carries this list and these buffers, to a namespace and with an id that the format allows. */
  predicate Wraps(c: Codec, p: Packet, out: seq<Node>) {
    && p.data.Some? && p.data == c.marshal(Array(out)) && p.attachments == |p.payloads|
    && -1 <= p.id <= MAX_INT && p.ns != [] && p.ns[0] == '/' && ',' !in p.ns
  }

  lemma SentIsCarriable(c: Codec, p: Packet, items: seq<Node>, out: seq<Node>)
    requires LawfulCodec(c) && ItemsRepresentable(c, items) && Carries(items, out, p.payloads)
    requires Wraps(c, p, out) && IsBinary(p.kind)
    ensures Carriable(c.json, p) <==> |p.payloads| <= MAX_ATTACHMENTS && Depth(Array(out)) <= MAX_DEPTH
  {
    hide Depth, ItemsRepresentable, Carries;
    if |p.payloads| <= MAX_ATTACHMENTS {
      ExtractedFacts(c, items, out, p.payloads);
    }
  }

  /** Whatever binary arguments are sent that JSON can represent, shared maps included, for any namespace and id the
      format allows and whatever order the maps are visited in at either end: the text frame is accepted exactly when
      there are at most 100 buffers and the extracted tree is at most 32 deep; then the packet completes with its last
      frame and not before, and its data reads back as the arguments that were sent exactly when none of their own
      maps is taken for one of the placeholders. */
  lemma BinaryArgumentsArrive(c: Codec, p: Packet, items: seq<Node>, out: seq<Node>)
    requires LawfulCodec(c) && ItemsRepresentable(c, items) && Carries(items, out, p.payloads)
    requires Wraps(c, p, out) && IsBinary(p.kind)
    ensures var buffers, bare := p.payloads, p.(payloads := []);
            var fits := |buffers| <= 100 && Depth(Array(out)) <= 32;
            && (Parse(c.json, Print(p)) == Ok(bare) <==> fits)
            && (fits ==>
                  && AttachedAll(bare, buffers) == p && IsComplete(p)
                  && (forall k :: 0 <= k < |buffers| ==> !IsComplete(AttachedAll(bare, buffers[..k])))
                  && ReadData(c, p).Some?
                  && var sent := Jsonified(Array(items));
                  && (Same(ReadData(c, p).value, sent) <==> Recoverable(sent, |buffers|))
                  && (ItemMarks(items) == [] ==> Recoverable(sent, |buffers|)))
  {
    hide Depth, ItemsRepresentable, Carries, ItemMarks, ReadData, Parse, Print, Same, WrittenWell, Carriable;
    var buffers, bare := p.payloads, p.(payloads := []);
    SentIsCarriable(c, p, items, out);
    SocketPacket.RoundTripExactly(c.json, p);
    assert Received(p) == bare;
    CollectsInOrder(bare, buffers);
    assert [] + buffers == buffers;
    forall k | 0 <= k < |buffers| ensures !IsComplete(AttachedAll(bare, buffers[..k])) {
      CollectsInOrder(bare, buffers[..k]);
    }
    if |buffers| <= MAX_ATTACHMENTS && Depth(Array(out)) <= MAX_DEPTH {
      ReadsBack(c, p, items, out);
    }
  }

  /** Arguments without binaries travel in the text frame alone. */
  lemma PlainArgumentsArrive(c: Codec, p: Packet, items: seq<Node>)
    requires LawfulCodec(c) && ItemsRepresentable(c, items) && !ItemsHaveBinary(items)
    requires Wraps(c, p, items) && 0 <= p.kind < 5 && p.payloads == []
    ensures Parse(c.json, Print(p)) == Ok(p) <==> Depth(Array(items)) <= 32
    ensures Depth(Array(items)) <= 32 ==>
              ReadData(c, p).Some? && Same(ReadData(c, p).value, Jsonified(Array(items)))
  {
    hide Depth, ItemsRepresentable, Parse, Print, Same;
    assert Representable(c, Array(items)) && !HasBinary(Array(items)) && WrittenWell(c, Array(items));
    SocketPacket.RoundTripExactly(c.json, p);
    assert Received(p) == p;
  }

  lemma ReadsBack(c: Codec, p: Packet, items: seq<Node>, out: seq<Node>)
    requires LawfulCodec(c) && ItemsRepresentable(c, items) && Carries(items, out, p.payloads)
    requires IsBinary(p.kind) && IsComplete(p) && p.data.Some? && p.data == c.marshal(Array(out))
    requires |p.payloads| <= MAX_EXACT && Depth(Array(out)) <= MAX_DEPTH
    ensures ReadData(c, p).Some?
    ensures var sent := Jsonified(Array(items));
            && (Same(ReadData(c, p).value, sent) <==> Recoverable(sent, |p.payloads|))
            && (ItemMarks(items) == [] ==> Recoverable(sent, |p.payloads|))
  {
    hide Depth, ItemsRepresentable, Same, Extracts, Recoverable;
    ExtractedFacts(c, items, out, p.payloads);
    var sent, restored := Jsonified(Array(items)), Restored(Jsonified(Array(out)), p.payloads);
    RestoredSame(c.parse(p.data.value).value, Jsonified(Array(out)), p.payloads);
    SameAs(ReadData(c, p).value, restored, sent);
    ArrayExtracts(items, out, p.payloads);
    assert Representable(c, Array(items));
    SameComesBack(c, Array(items), Array(out), p.payloads);
    if ItemMarks(items) == [] {
      UnmarkedIsRecoverable(Array(items), |p.payloads|);
    }
  }

  lemma SameAs(a: Node, b: Node, t: Node)
    requires Same(a, b)
    ensures Same(a, t) <==> Same(b, t)
  {
    SameSymmetric(a, b);
    if Same(a, t) {
      SameTransitive(b, a, t);
    }
    if Same(b, t) {
      SameTransitive(a, b, t);
    }
  }

  // ---- events ----

  datatype NameError = NotAnEvent | NoName | NoArray

  /** EventName: the first item of the data; JSON null reads as the empty string. */
  function EventName(c: Codec, p: Packet): Result<string, NameError> {
    if p.kind != 2 && p.kind != 5 then Err(NotAnEvent)
    else if p.data.None? then Err(NoName)
    else
      match c.parse(p.data.value)
      case Some(Array(items)) =>
        if items == [] then Err(NoName)
        else (match items[0]
              case Text(name) => Ok(name)
              case Null => Ok("")
              case _ => Err(NoName))
      case Some(Null) => Err(NoName)
      case _ => Err(NoArray)
  }

  /** A list that begins with a text is extracted to one that begins with the same text. */
  lemma NameAdded(event: string, items: seq<Node>, out: seq<Node>, buffers: seq<string>)
    requires |out| == 1 + |items| && out[0] == Text(event) && Carries(items, out[1..], buffers)
    ensures Carries([Text(event)] + items, out, buffers)
  {
    hide Extracts, Mentions;
    var all := [Text(event)] + items;
    NameIsItself(event, buffers);
    forall i | 0 <= i < |all| ensures Extracts(all[i], out[i], buffers) {
      assert i > 0 ==> all[i] == items[i - 1] && out[i] == out[1..][i - 1];
    }
    forall k | 0 <= k < |buffers| ensures Mentions(Array(out), k) {
      MentionedEarlier(out, k);
    }
  }

  lemma NameIsItself(event: string, buffers: seq<string>)
    ensures Extracts(Text(event), Text(event), buffers)
  {
  }

  lemma MentionedEarlier(out: seq<Node>, k: int)
    requires out != [] && Mentions(Array(out[1..]), k)
    ensures Mentions(Array(out), k)
  {
    var i :| 0 <= i < |out[1..]| && Mentions(out[1..][i], k);
    assert out[i + 1] == out[1..][i];
  }

  lemma NamedItems(c: Codec, event: string, args: seq<Node>)
    requires ItemsRepresentable(c, args) && ValidText(event)
    ensures var items := [Text(event)] + args;
            && ItemsRepresentable(c, items) && ItemsHaveBinary(items) == ItemsHaveBinary(args)
            && ItemMarks(items) == ItemMarks(args)
            && JsonifiedItems(items) == [Text(event)] + JsonifiedItems(args)
  {
    hide ValidText;
    assert ([Text(event)] + args)[1..] == args;
  }

  lemma NameIsRead(c: Codec, p: Packet, event: string, out: seq<Node>)
    requires WrittenWell(c, Array(out)) && Depth(Array(out)) <= 32 && p.data.Some? && p.data == c.marshal(Array(out))
    requires (p.kind == 2 || p.kind == 5) && out != [] && out[0] == Text(event)
    ensures EventName(c, p) == Ok(event)
  {
    hide Depth;
    var read, expected := c.parse(p.data.value).value, Jsonified(Array(out));
    assert expected.items[0] == Text(event) && Same(read.items[0], expected.items[0]);
  }

  /** The name of the event is what the receiver dispatches on, and the data it reads is the name followed by the
      arguments, under the conditions of the arguments themselves. */
  lemma BinaryEventArrives(c: Codec, p: Packet, event: string, args: seq<Node>, out: seq<Node>)
    requires LawfulCodec(c) && ItemsRepresentable(c, args) && ValidText(event)
    requires |out| == 1 + |args| && out[0] == Text(event) && Wraps(c, p, out)
    requires p.kind == 5 && Carries(args, out[1..], p.payloads)
    ensures var fits := |p.payloads| <= 100 && Depth(Array(out)) <= 32;
            && (Parse(c.json, Print(p)) == Ok(p.(payloads := [])) <==> fits)
            && (fits ==>
                  && AttachedAll(p.(payloads := []), p.payloads) == p && IsComplete(p)
                  && EventName(c, p) == Ok(event) && ReadData(c, p).Some?
                  && var sent := Array([Text(event)] + JsonifiedItems(args));
                  && (Same(ReadData(c, p).value, sent) <==> Recoverable(sent, |p.payloads|))
                  && (ItemMarks(args) == [] ==> Recoverable(sent, |p.payloads|)))
  {
    hide Depth, ItemsRepresentable, Carries, ItemMarks, ReadData, Parse, Print, Same, Recoverable, EventName, ValidText;
    hide AttachedAll, JsonifiedItems, ItemsHaveBinary, LawfulCodec, IsComplete, Extracts, WrittenWell;
    NamedItems(c, event, args);
    NameAdded(event, args, out, p.payloads);
    BinaryArgumentsArrive(c, p, [Text(event)] + args, out);
    assert Jsonified(Array([Text(event)] + args)) == Array([Text(event)] + JsonifiedItems(args));
    if |p.payloads| <= 100 && Depth(Array(out)) <= 32 {
      ExtractedFacts(c, [Text(event)] + args, out, p.payloads);
      NameIsRead(c, p, event, out);
    }
  }

  /** Without binaries nothing else is needed. */
  lemma PlainEventArrives(c: Codec, p: Packet, event: string, args: seq<Node>)
    requires LawfulCodec(c) && ItemsRepresentable(c, args) && ValidText(event) && !ItemsHaveBinary(args)
    requires Wraps(c, p, [Text(event)] + args) && p.kind == 2 && p.payloads == []
    ensures var fits := Depth(Array([Text(event)] + args)) <= 32;
            && (Parse(c.json, Print(p)) == Ok(p) <==> fits)
            && (fits ==>
                  && EventName(c, p) == Ok(event) && ReadData(c, p).Some?
                  && Same(ReadData(c, p).value, Array([Text(event)] + JsonifiedItems(args))))
  {
    hide Depth, ReadData, Parse, Print, Same, EventName, ValidText, ItemsRepresentable, ItemsHaveBinary;
    hide JsonifiedItems, WrittenWell;
    var items := [Text(event)] + args;
    NamedItems(c, event, args);
    PlainArgumentsArrive(c, p, items);
    assert Jsonified(Array(items)) == Array([Text(event)] + JsonifiedItems(args));
    if Depth(Array(items)) <= 32 {
      assert Representable(c, Array(items)) && !HasBinary(Array(items)) && WrittenWell(c, Array(items));
      NameIsRead(c, p, event, items);
    }
  }
}
