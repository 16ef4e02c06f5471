/** Binary values inside Socket.IO payloads: extraction into attachments and reinsertion
    (server/pkg/socketio/packet.go:356-486, 606-635). A Go map is modelled together with the order in which `range`
    visits it, as a sequence of fields; a statement about all trees is thus one about all visiting orders. */
module BinaryTree {
  import opened Options

  /** A parsed JSON or interface{} tree. A float64 is seen through its integer part only; `rest` is what is left. */
  datatype Node =
    | Binary(bytes: string)
    | Object(fields: seq<Field>)
    | Array(items: seq<Node>)
    | Bool(b: bool)
    | Int(n: int)
    | Float(whole: int, rest: string)
    | Text(s: string)
    | Null

  datatype Field = Field(key: string, value: Node)

  function Get(fields: seq<Field>, key: string): Option<Node> {
    if fields == [] then None
    else if fields[0].key == key then Some(fields[0].value)
    else Get(fields[1..], key)
  }

  function Placeholder(num: Node): Node {
    Object([Field("_placeholder", Bool(true)), Field("num", num)])
  }

  /** isPlaceholder: the attachment number, if the map is a placeholder. The number must be a float64. */
  function PlaceholderIndex(fields: seq<Field>): Option<int> {
    if Get(fields, "_placeholder") != Some(Bool(true)) then None
    else
      match Get(fields, "num")
      case Some(Float(whole, _)) => Some(whole)
      case _ => None
  }

  function HasBinary(t: Node): bool {
    match t
    case Binary(_) => true
    case Object(fields) => FieldsHaveBinary(fields)
    case Array(items) => ItemsHaveBinary(items)
    case _ => false
  }

  function FieldsHaveBinary(fields: seq<Field>): bool {
    fields != [] && (HasBinary(fields[0].value) || FieldsHaveBinary(fields[1..]))
  }

  function ItemsHaveBinary(items: seq<Node>): bool {
    items != [] && (HasBinary(items[0]) || ItemsHaveBinary(items[1..]))
  }

  // ---- deconstructNode and reconstructNode as functions ----

  /** The tree with its binaries replaced, when n buffers were collected before it. */
  function Taken(t: Node, n: nat): Node {
    match t
    case Binary(_) => Placeholder(Int(n))
    case Object(fields) => Object(TakenFields(fields, n))
    case Array(items) => Array(TakenItems(items, n))
    case _ => t
  }

  function TakenFields(fields: seq<Field>, n: nat): (r: seq<Field>)
    ensures |r| == |fields|
  {
    if fields == [] then []
    else
      [Field(fields[0].key, Taken(fields[0].value, n))]
      + TakenFields(fields[1..], n + |Buffers(fields[0].value)|)
  }

  function TakenItems(items: seq<Node>, n: nat): (r: seq<Node>)
    ensures |r| == |items|
  {
    if items == [] then [] else [Taken(items[0], n)] + TakenItems(items[1..], n + |Buffers(items[0])|)
  }

  /** The binaries of a tree in visiting order. */
  function Buffers(t: Node): seq<string> {
    match t
    case Binary(b) => [b]
    case Object(fields) => FieldBuffers(fields)
    case Array(items) => ItemBuffers(items)
    case _ => []
  }

  function FieldBuffers(fields: seq<Field>): seq<string> {
    if fields == [] then [] else Buffers(fields[0].value) + FieldBuffers(fields[1..])
  }

  function ItemBuffers(items: seq<Node>): seq<string> {
    if items == [] then [] else Buffers(items[0]) + ItemBuffers(items[1..])
  }

  function Restored(t: Node, attachments: seq<string>): Node {
    match t
    case Object(fields) =>
      (match PlaceholderIndex(fields)
       case Some(i) => if 0 <= i < |attachments| then Binary(attachments[i]) else t
       case None => Object(RestoredFields(fields, attachments)))
    case Array(items) => Array(RestoredItems(items, attachments))
    case _ => t
  }

  function RestoredFields(fields: seq<Field>, attachments: seq<string>): (r: seq<Field>)
    ensures |r| == |fields|
    ensures forall i :: 0 <= i < |fields| ==> r[i] == Field(fields[i].key, Restored(fields[i].value, attachments))
  {
    if fields == [] then []
    else [Field(fields[0].key, Restored(fields[0].value, attachments))] + RestoredFields(fields[1..], attachments)
  }

  function RestoredItems(items: seq<Node>, attachments: seq<string>): (r: seq<Node>)
    ensures |r| == |items|
    ensures forall i :: 0 <= i < |items| ==> r[i] == Restored(items[i], attachments)
  {
    if items == [] then [] else [Restored(items[0], attachments)] + RestoredItems(items[1..], attachments)
  }

  /** A tree written as JSON and read back: every integer comes back as a float64. Binaries, which JSON cannot
      carry, are kept so that trees can be compared. */
  function Jsonified(t: Node): Node {
    match t
    case Object(fields) => Object(JsonifiedFields(fields))
    case Array(items) => Array(JsonifiedItems(items))
    case Int(n) => Float(n, "")
    case _ => t
  }

  function JsonifiedFields(fields: seq<Field>): (r: seq<Field>)
    ensures |r| == |fields|
    ensures forall i :: 0 <= i < |fields| ==> r[i] == Field(fields[i].key, Jsonified(fields[i].value))
  {
    if fields == [] then [] else [Field(fields[0].key, Jsonified(fields[0].value))] + JsonifiedFields(fields[1..])
  }

  function JsonifiedItems(items: seq<Node>): (r: seq<Node>)
    ensures |r| == |items|
    ensures forall i :: 0 <= i < |items| ==> r[i] == Jsonified(items[i])
  {
    if items == [] then [] else [Jsonified(items[0])] + JsonifiedItems(items[1..])
  }

  predicate HasFloat(t: Node) {
    match t
    case Float(_, _) => true
    case Object(fields) => exists i :: 0 <= i < |fields| && HasFloat(fields[i].value)
    case Array(items) => exists i :: 0 <= i < |items| && HasFloat(items[i])
    case _ => false
  }

  predicate HasInt(t: Node) {
    match t
    case Int(_) => true
    case Object(fields) => exists i :: 0 <= i < |fields| && HasInt(fields[i].value)
    case Array(items) => exists i :: 0 <= i < |items| && HasInt(items[i])
    case _ => false
  }

  /** JSON forgets whether a number was an int, and nothing else. */
  lemma {:induction false} JsonLosesNothing(a: Node, b: Node)
    ensures Jsonified(a) == Jsonified(b) && !HasFloat(a) && !HasFloat(b) ==> a == b
    decreases a
  {
    if Jsonified(a) == Jsonified(b) && !HasFloat(a) && !HasFloat(b) {
      match (a, b)
      case (Object(f), Object(g)) =>
        var jf, jg := JsonifiedFields(f), JsonifiedFields(g);
        forall i | 0 <= i < |f| ensures f[i] == g[i] {
          assert jf[i] == jg[i];
          JsonLosesNothing(f[i].value, g[i].value);
        }
      case (Array(xs), Array(ys)) =>
        var jx, jy := JsonifiedItems(xs), JsonifiedItems(ys);
        forall i | 0 <= i < |xs| ensures xs[i] == ys[i] {
          assert jx[i] == jy[i];
          JsonLosesNothing(xs[i], ys[i]);
        }
      case _ =>
    }
  }

  /** A tree is read back as it was exactly when it holds no int. */
  lemma {:induction false} JsonChangesInts(t: Node)
    ensures Jsonified(t) == t <==> !HasInt(t)
    decreases t
  {
    match t
    case Object(fields) =>
      var r := JsonifiedFields(fields);
      forall i | 0 <= i < |fields| ensures r[i] == fields[i] <==> !HasInt(fields[i].value) {
        JsonChangesInts(fields[i].value);
      }
      assert r == fields <==> forall i :: 0 <= i < |fields| ==> r[i] == fields[i];
    case Array(items) =>
      var r := JsonifiedItems(items);
      forall i | 0 <= i < |items| ensures r[i] == items[i] <==> !HasInt(items[i]) {
        JsonChangesInts(items[i]);
      }
      assert r == items <==> forall i :: 0 <= i < |items| ==> r[i] == items[i];
    case _ =>
  }

  // ---- what extraction does ----

  /** No binary is left behind, and there is a buffer exactly when the tree held a binary. */
  lemma {:induction false} ExtractionIsComplete(t: Node, n: nat)
    ensures !HasBinary(Taken(t, n)) && (HasBinary(t) <==> Buffers(t) != [])
    ensures !HasBinary(t) ==> Taken(t, n) == t
    decreases t
  {
    match t
    case Binary(_) =>
      var fields := Placeholder(Int(n)).fields;
      assert fields[1..] == [Field("num", Int(n))];
      assert !FieldsHaveBinary(fields[1..]) && !FieldsHaveBinary(fields);
    case Object(fields) => FieldExtractionIsComplete(fields, n);
    case Array(items) => ItemExtractionIsComplete(items, n);
    case _ =>
  }

  lemma {:induction false} FieldExtractionIsComplete(fields: seq<Field>, n: nat)
    ensures !FieldsHaveBinary(TakenFields(fields, n)) && (FieldsHaveBinary(fields) <==> FieldBuffers(fields) != [])
    ensures !FieldsHaveBinary(fields) ==> TakenFields(fields, n) == fields
    decreases fields
  {
    if fields != [] {
      var next := n + |Buffers(fields[0].value)|;
      ExtractionIsComplete(fields[0].value, n);
      FieldExtractionIsComplete(fields[1..], next);
      assert TakenFields(fields, n)[1..] == TakenFields(fields[1..], next);
    }
  }

  lemma {:induction false} ItemExtractionIsComplete(items: seq<Node>, n: nat)
    ensures !ItemsHaveBinary(TakenItems(items, n)) && (ItemsHaveBinary(items) <==> ItemBuffers(items) != [])
    ensures !ItemsHaveBinary(items) ==> TakenItems(items, n) == items
    decreases items
  {
    if items != [] {
      var next := n + |Buffers(items[0])|;
      ExtractionIsComplete(items[0], n);
      ItemExtractionIsComplete(items[1..], next);
      assert TakenItems(items, n)[1..] == TakenItems(items[1..], next);
    }
  }

  /** The number a map carries when it has the shape of a placeholder, whatever its number type. */
  function Mark(fields: seq<Field>): Option<int> {
    if Get(fields, "_placeholder") != Some(Bool(true)) then None
    else
      match Get(fields, "num")
      case Some(Int(i)) => Some(i)
      case Some(Float(whole, _)) => Some(whole)
      case _ => None
  }

  /** The numbers of all maps shaped like placeholders, in visiting order. */
  function Marks(t: Node): seq<int> {
    match t
    case Object(fields) => if Mark(fields).Some? then [Mark(fields).value] else FieldMarks(fields)
    case Array(items) => ItemMarks(items)
    case _ => []
  }

  function FieldMarks(fields: seq<Field>): seq<int> {
    if fields == [] then [] else Marks(fields[0].value) + FieldMarks(fields[1..])
  }

  function ItemMarks(items: seq<Node>): seq<int> {
    if items == [] then [] else Marks(items[0]) + ItemMarks(items[1..])
  }

  function Range(from: int, count: nat): seq<int> { seq(count, i => from + i) }

  lemma PlaceholderGets(num: Node)
    ensures Get(Placeholder(num).fields, "_placeholder") == Some(Bool(true))
            && Get(Placeholder(num).fields, "num") == Some(num)
  {
    assert Placeholder(num).fields[1..] == [Field("num", num)];
  }

  /** Extraction turns a field into a boolean or a number only where it was one. */
  lemma {:induction false} TakenGet(fields: seq<Field>, n: nat, key: string)
    ensures Get(TakenFields(fields, n), key).Some? <==> Get(fields, key).Some?
    ensures Get(fields, key).Some? ==>
              var a, b := Get(fields, key).value, Get(TakenFields(fields, n), key).value;
              (a.Bool? || a.Int? || a.Float? || b.Bool? || b.Int? || b.Float?) ==> a == b
    decreases fields
  {
    if fields != [] {
      var next := n + |Buffers(fields[0].value)|;
      TakenGet(fields[1..], next, key);
      assert TakenFields(fields, n)[1..] == TakenFields(fields[1..], next);
    }
  }

  lemma TakenMark(fields: seq<Field>, n: nat)
    ensures Mark(TakenFields(fields, n)) == Mark(fields)
  {
    TakenGet(fields, n, "_placeholder");
    TakenGet(fields, n, "num");
  }

  /** Extraction numbers its placeholders n, n+1, ... in visiting order, each number once, when no map of the tree
      already looked like one. */
  lemma {:induction false} NumbersInOrder(t: Node, n: nat)
    requires Marks(t) == []
    ensures Marks(Taken(t, n)) == Range(n, |Buffers(t)|)
    decreases t
  {
    match t
    case Binary(_) => PlaceholderGets(Int(n));
    case Object(fields) =>
      TakenMark(fields, n);
      FieldNumbersInOrder(fields, n);
    case Array(items) => ItemNumbersInOrder(items, n);
    case _ =>
  }

  lemma RangeNone(from: int)
    ensures Range(from, 0) == []
  {
  }

  lemma RangeSplit(from: int, a: nat, b: nat)
    ensures Range(from, a) + Range(from + a, b) == Range(from, a + b)
  {
  }

  lemma {:induction false} FieldNumbersInOrder(fields: seq<Field>, n: nat)
    requires FieldMarks(fields) == []
    ensures FieldMarks(TakenFields(fields, n)) == Range(n, |FieldBuffers(fields)|)
    decreases fields
  {
    hide Range, Marks, Buffers, Taken;
    RangeNone(n);
    if fields != [] {
      var next := n + |Buffers(fields[0].value)|;
      NumbersInOrder(fields[0].value, n);
      FieldNumbersInOrder(fields[1..], next);
      RangeSplit(n, |Buffers(fields[0].value)|, |FieldBuffers(fields[1..])|);
      assert TakenFields(fields, n)[1..] == TakenFields(fields[1..], next);
    }
  }

  lemma {:induction false} ItemNumbersInOrder(items: seq<Node>, n: nat)
    requires ItemMarks(items) == []
    ensures ItemMarks(TakenItems(items, n)) == Range(n, |ItemBuffers(items)|)
    decreases items
  {
    hide Range, Marks, Buffers, Taken;
    RangeNone(n);
    if items != [] {
      var next := n + |Buffers(items[0])|;
      NumbersInOrder(items[0], n);
      ItemNumbersInOrder(items[1..], next);
      RangeSplit(n, |Buffers(items[0])|, |ItemBuffers(items[1..])|);
      assert TakenItems(items, n)[1..] == TakenItems(items[1..], next);
    }
  }

  // ---- the round trip ----

  /** A tree whose own maps survive reinsertion of n attachments: a map that already is a placeholder must point
      outside them and hide no binary. */
  predicate Recoverable(t: Node, n: nat) {
    match t
    case Object(fields) =>
      (match PlaceholderIndex(fields)
       case Some(i) => !(0 <= i < n) && !FieldsHaveBinary(fields)
       case None => FieldsRecoverable(fields, n))
    case Array(items) => ItemsRecoverable(items, n)
    case _ => true
  }

  predicate FieldsRecoverable(fields: seq<Field>, n: nat) {
    fields == [] || (Recoverable(fields[0].value, n) && FieldsRecoverable(fields[1..], n))
  }

  predicate ItemsRecoverable(items: seq<Node>, n: nat) {
    items == [] || (Recoverable(items[0], n) && ItemsRecoverable(items[1..], n))
  }

  lemma {:induction false} JsonGet(fields: seq<Field>, key: string)
    ensures Get(JsonifiedFields(fields), key) ==
            if Get(fields, key).Some? then Some(Jsonified(Get(fields, key).value)) else None
    decreases fields
  {
    if fields != [] {
      JsonGet(fields[1..], key);
      assert JsonifiedFields(fields)[1..] == JsonifiedFields(fields[1..]);
    }
  }

  lemma {:induction false} JsonBinary(t: Node)
    ensures HasBinary(Jsonified(t)) == HasBinary(t)
    decreases t
  {
    match t
    case Object(fields) => JsonFieldBinary(fields);
    case Array(items) => JsonItemBinary(items);
    case _ =>
  }

  lemma {:induction false} JsonFieldBinary(fields: seq<Field>)
    ensures FieldsHaveBinary(JsonifiedFields(fields)) == FieldsHaveBinary(fields)
    decreases fields
  {
    if fields != [] {
      JsonBinary(fields[0].value);
      JsonFieldBinary(fields[1..]);
      assert JsonifiedFields(fields)[1..] == JsonifiedFields(fields[1..]);
    }
  }

  lemma {:induction false} JsonItemBinary(items: seq<Node>)
    ensures ItemsHaveBinary(JsonifiedItems(items)) == ItemsHaveBinary(items)
    decreases items
  {
    if items != [] {
      JsonBinary(items[0]);
      JsonItemBinary(items[1..]);
      assert JsonifiedItems(items)[1..] == JsonifiedItems(items[1..]);
    }
  }

  /** After JSON every placeholder shape is a placeholder. */
  lemma JsonMark(fields: seq<Field>)
    ensures PlaceholderIndex(JsonifiedFields(fields)) == Mark(fields)
  {
    JsonGet(fields, "_placeholder");
    JsonGet(fields, "num");
  }

  /** `all` holds the buffers of t from position n on. */
  predicate Holds(all: seq<string>, n: nat, part: seq<string>) {
    n + |part| <= |all| && all[n..n + |part|] == part
  }

  lemma HoldsSplit(all: seq<string>, n: nat, a: seq<string>, b: seq<string>)
    requires Holds(all, n, a + b)
    ensures Holds(all, n, a) && Holds(all, n + |a|, b)
  {
    assert (a + b)[..|a|] == a && (a + b)[|a|..] == b;
    assert all[n..n + |a + b|][..|a|] == all[n..n + |a|];
    assert all[n..n + |a + b|][|a|..] == all[n + |a|..n + |a| + |b|];
  }

  /** The second tree is the first with every binary replaced by a placeholder for one of the buffers that holds the
      same bytes. One buffer may serve several places, as it does when a map occurs twice. */
  ghost predicate Extracts(t: Node, t': Node, all: seq<string>)
    decreases t
  {
    match t
    case Binary(b) => exists k :: 0 <= k < |all| && all[k] == b && t' == Placeholder(Int(k))
    case Object(fields) => t'.Object? && FieldsExtract(fields, t'.fields, all)
    case Array(items) => t'.Array? && ItemsExtract(items, t'.items, all)
    case _ => t' == t
  }

  ghost predicate FieldsExtract(f: seq<Field>, g: seq<Field>, all: seq<string>)
    decreases f
  {
    |f| == |g| && forall i :: 0 <= i < |f| ==> g[i].key == f[i].key && Extracts(f[i].value, g[i].value, all)
  }

  ghost predicate ItemsExtract(xs: seq<Node>, ys: seq<Node>, all: seq<string>)
    decreases xs
  {
    |xs| == |ys| && forall i :: 0 <= i < |xs| ==> Extracts(xs[i], ys[i], all)
  }

  /** What deconstructNode makes of a tree is such an extraction. */
  lemma {:induction false} TakenExtracts(t: Node, n: nat, all: seq<string>)
    requires Holds(all, n, Buffers(t))
    ensures Extracts(t, Taken(t, n), all)
    decreases t
  {
    match t
    case Binary(b) => assert all[n] == all[n..n + 1][0] == b;
    case Object(fields) => FieldsTakenExtract(fields, n, all);
    case Array(items) => ItemsTakenExtract(items, n, all);
    case _ =>
  }

  lemma FieldExtends(f: seq<Field>, g: seq<Field>, all: seq<string>)
    requires f != [] && g != [] && FieldsExtract(f[1..], g[1..], all)
    requires g[0].key == f[0].key && Extracts(f[0].value, g[0].value, all)
    ensures FieldsExtract(f, g, all)
  {
    hide Extracts;
    assert forall i :: 1 <= i < |f| ==> f[i] == f[1..][i - 1] && g[i] == g[1..][i - 1];
  }

  lemma ItemExtends(xs: seq<Node>, ys: seq<Node>, all: seq<string>)
    requires xs != [] && ys != [] && ItemsExtract(xs[1..], ys[1..], all) && Extracts(xs[0], ys[0], all)
    ensures ItemsExtract(xs, ys, all)
  {
    hide Extracts;
    assert forall i :: 1 <= i < |xs| ==> xs[i] == xs[1..][i - 1] && ys[i] == ys[1..][i - 1];
  }

  lemma {:induction false} FieldsTakenExtract(fields: seq<Field>, n: nat, all: seq<string>)
    requires Holds(all, n, FieldBuffers(fields))
    ensures FieldsExtract(fields, TakenFields(fields, n), all)
    decreases fields
  {
    hide Taken, Buffers, Extracts;
    if fields != [] {
      var next := n + |Buffers(fields[0].value)|;
      HoldsSplit(all, n, Buffers(fields[0].value), FieldBuffers(fields[1..]));
      TakenExtracts(fields[0].value, n, all);
      FieldsTakenExtract(fields[1..], next, all);
      FieldExtends(fields, TakenFields(fields, n), all);
    }
  }

  lemma {:induction false} ItemsTakenExtract(items: seq<Node>, n: nat, all: seq<string>)
    requires Holds(all, n, ItemBuffers(items))
    ensures ItemsExtract(items, TakenItems(items, n), all)
    decreases items
  {
    hide Taken, Buffers, Extracts;
    if items != [] {
      var next := n + |Buffers(items[0])|;
      HoldsSplit(all, n, Buffers(items[0]), ItemBuffers(items[1..]));
      TakenExtracts(items[0], n, all);
      ItemsTakenExtract(items[1..], next, all);
      ItemExtends(items, TakenItems(items, n), all);
    }
  }

  lemma {:induction false} FieldsHold(fields: seq<Field>)
    ensures FieldsHaveBinary(fields) <==> exists i :: 0 <= i < |fields| && HasBinary(fields[i].value)
    decreases fields
  {
    if fields != [] {
      FieldsHold(fields[1..]);
      assert forall i :: 1 <= i < |fields| ==> fields[i] == fields[1..][i - 1];
    }
  }

  lemma {:induction false} ItemsHold(items: seq<Node>)
    ensures ItemsHaveBinary(items) <==> exists i :: 0 <= i < |items| && HasBinary(items[i])
    decreases items
  {
    if items != [] {
      ItemsHold(items[1..]);
      assert forall i :: 1 <= i < |items| ==> items[i] == items[1..][i - 1];
    }
  }

  /** An extraction leaves no binary, and leaves the tree as it was exactly when it held none. */
  lemma {:induction false} ExtractionLeavesNone(t: Node, t': Node, all: seq<string>)
    requires Extracts(t, t', all)
    ensures !HasBinary(t') && (t' == t <==> !HasBinary(t))
    decreases t
  {
    match t
    case Binary(_) =>
      FieldsHold(t'.fields);
      assert forall i :: 0 <= i < |t'.fields| ==> !HasBinary(t'.fields[i].value);
    case Object(f) => FieldsLeaveNone(f, t'.fields, all);
    case Array(xs) => ItemsLeaveNone(xs, t'.items, all);
    case _ =>
  }

  lemma {:induction false} FieldsLeaveNone(f: seq<Field>, g: seq<Field>, all: seq<string>)
    requires FieldsExtract(f, g, all)
    ensures !FieldsHaveBinary(g) && (g == f <==> !FieldsHaveBinary(f))
    decreases f
  {
    forall i | 0 <= i < |f|
      ensures !HasBinary(g[i].value) && (g[i].value == f[i].value <==> !HasBinary(f[i].value))
    {
      ExtractionLeavesNone(f[i].value, g[i].value, all);
    }
    FieldsHold(f);
    FieldsHold(g);
    SameFields(f, g);
  }

  lemma {:induction false} ItemsLeaveNone(xs: seq<Node>, ys: seq<Node>, all: seq<string>)
    requires ItemsExtract(xs, ys, all)
    ensures !ItemsHaveBinary(ys) && (ys == xs <==> !ItemsHaveBinary(xs))
    decreases xs
  {
    forall i | 0 <= i < |xs| ensures !HasBinary(ys[i]) && (ys[i] == xs[i] <==> !HasBinary(xs[i])) {
      ExtractionLeavesNone(xs[i], ys[i], all);
    }
    ItemsHold(xs);
    ItemsHold(ys);
    if !ItemsHaveBinary(xs) {
      assert forall i :: 0 <= i < |xs| ==> ys[i] == xs[i];
    }
  }

  /** Extraction turns a field into a boolean or a number only where it was one. */
  lemma {:induction false} ExtractGet(f: seq<Field>, g: seq<Field>, all: seq<string>, key: string)
    requires FieldsExtract(f, g, all)
    ensures match Get(f, key)
            case None => Get(g, key).None?
            case Some(t) => Get(g, key).Some? && Extracts(t, Get(g, key).value, all)
    decreases f
  {
    if f != [] {
      assert forall i :: 1 <= i < |f| ==> f[i] == f[1..][i - 1] && g[i] == g[1..][i - 1];
      ExtractGet(f[1..], g[1..], all, key);
    }
  }

  lemma ExtractMark(f: seq<Field>, g: seq<Field>, all: seq<string>)
    requires FieldsExtract(f, g, all)
    ensures Mark(g) == Mark(f)
  {
    ExtractGet(f, g, all, "_placeholder");
    ExtractGet(f, g, all, "num");
  }

  lemma {:induction false} FieldsRecover(fields: seq<Field>, n: nat)
    ensures FieldsRecoverable(fields, n) <==> forall i :: 0 <= i < |fields| ==> Recoverable(fields[i].value, n)
    decreases fields
  {
    if fields != [] {
      FieldsRecover(fields[1..], n);
      assert forall i :: 1 <= i < |fields| ==> fields[i] == fields[1..][i - 1];
    }
  }

  lemma {:induction false} ItemsRecover(items: seq<Node>, n: nat)
    ensures ItemsRecoverable(items, n) <==> forall i :: 0 <= i < |items| ==> Recoverable(items[i], n)
    decreases items
  {
    if items != [] {
      ItemsRecover(items[1..], n);
      assert forall i :: 1 <= i < |items| ==> items[i] == items[1..][i - 1];
    }
  }

  /** The placeholder with this number occurs in the tree. */
  ghost predicate Mentions(t: Node, k: int)
    decreases t
  {
    t == Placeholder(Int(k)) ||
    match t
    case Object(fields) => exists i :: 0 <= i < |fields| && Mentions(fields[i].value, k)
    case Array(items) => exists i :: 0 <= i < |items| && Mentions(items[i], k)
    case _ => false
  }

  /** Any extraction is undone by JSON and reinsertion, exactly when the tree is recoverable. */
  lemma {:induction false} ComesBack(t: Node, t': Node, all: seq<string>)
    requires Extracts(t, t', all)
    ensures Restored(Jsonified(t'), all) == Jsonified(t) <==> Recoverable(Jsonified(t), |all|)
    decreases t
  {
    match t
    case Binary(b) =>
      var k :| 0 <= k < |all| && all[k] == b && t' == Placeholder(Int(k));
      JsonMark(Placeholder(Int(k)).fields);
      PlaceholderGets(Int(k));
    case Object(f) => FieldsComeBack(f, t'.fields, all);
    case Array(xs) => ItemsComeBack(xs, t'.items, all);
    case _ =>
  }

  lemma {:induction false} FieldsComeBack(f: seq<Field>, g: seq<Field>, all: seq<string>)
    requires FieldsExtract(f, g, all)
    ensures Restored(Jsonified(Object(g)), all) == Jsonified(Object(f)) <==> Recoverable(Jsonified(Object(f)), |all|)
    decreases f
  {
    var jf, jg := JsonifiedFields(f), JsonifiedFields(g);
    JsonMark(f);
    JsonMark(g);
    ExtractMark(f, g, all);
    if Mark(f).Some? {
      ExtractionLeavesNone(Object(f), Object(g), all);
      JsonFieldBinary(f);
      JsonFieldBinary(g);
    } else {
      forall i | 0 <= i < |f|
        ensures Restored(jg[i].value, all) == jf[i].value <==> Recoverable(jf[i].value, |all|)
      {
        ComesBack(f[i].value, g[i].value, all);
      }
      FieldsRecover(jf, |all|);
      SameFields(RestoredFields(jg, all), jf);
    }
  }

  lemma {:induction false} ItemsComeBack(xs: seq<Node>, ys: seq<Node>, all: seq<string>)
    requires ItemsExtract(xs, ys, all)
    ensures Restored(Jsonified(Array(ys)), all) == Jsonified(Array(xs)) <==> Recoverable(Jsonified(Array(xs)), |all|)
    decreases xs
  {
    var jx, jy := JsonifiedItems(xs), JsonifiedItems(ys);
    forall i | 0 <= i < |xs| ensures Restored(jy[i], all) == jx[i] <==> Recoverable(jx[i], |all|) {
      ComesBack(xs[i], ys[i], all);
    }
    ItemsRecover(jx, |all|);
    assert RestoredItems(jy, all) == jx <==> forall i :: 0 <= i < |xs| ==> RestoredItems(jy, all)[i] == jx[i];
  }

  lemma SameFields(f: seq<Field>, g: seq<Field>)
    requires |f| == |g| && forall i :: 0 <= i < |f| ==> f[i].key == g[i].key
    ensures f == g <==> forall i :: 0 <= i < |f| ==> f[i].value == g[i].value
  {
    if forall i :: 0 <= i < |f| ==> f[i].value == g[i].value {
      assert forall i :: 0 <= i < |f| ==> f[i] == g[i];
    }
  }

  /** Extraction, JSON and reinsertion give the tree back (integers read back as floats, as JSON itself makes them),
      for every tree and every visiting order, exactly when the tree is recoverable. */
  lemma RoundTripExactly(t: Node)
    ensures Restored(Jsonified(Taken(t, 0)), Buffers(t)) == Jsonified(t)
            <==> Recoverable(Jsonified(t), |Buffers(t)|)
  {
    TakenExtracts(t, 0, Buffers(t));
    ComesBack(t, Taken(t, 0), Buffers(t));
  }

  lemma {:induction false} UnmarkedIsRecoverable(t: Node, n: nat)
    requires Marks(t) == []
    ensures Recoverable(Jsonified(t), n)
    decreases t
  {
    match t
    case Object(fields) =>
      JsonMark(fields);
      UnmarkedFieldsAreRecoverable(fields, n);
    case Array(items) => UnmarkedItemsAreRecoverable(items, n);
    case _ =>
  }

  lemma {:induction false} UnmarkedFieldsAreRecoverable(fields: seq<Field>, n: nat)
    requires FieldMarks(fields) == []
    ensures FieldsRecoverable(JsonifiedFields(fields), n)
    decreases fields
  {
    if fields != [] {
      UnmarkedIsRecoverable(fields[0].value, n);
      UnmarkedFieldsAreRecoverable(fields[1..], n);
      assert JsonifiedFields(fields)[1..] == JsonifiedFields(fields[1..]);
    }
  }

  lemma {:induction false} UnmarkedItemsAreRecoverable(items: seq<Node>, n: nat)
    requires ItemMarks(items) == []
    ensures ItemsRecoverable(JsonifiedItems(items), n)
    decreases items
  {
    if items != [] {
      UnmarkedIsRecoverable(items[0], n);
      UnmarkedItemsAreRecoverable(items[1..], n);
      assert JsonifiedItems(items)[1..] == JsonifiedItems(items[1..]);
    }
  }

  /** In particular a tree without anything shaped like a placeholder always comes back. */
  lemma OrdinaryTreesComeBack(t: Node)
    requires Marks(t) == []
    ensures Restored(Jsonified(Taken(t, 0)), Buffers(t)) == Jsonified(t)
  {
    RoundTripExactly(t);
    UnmarkedIsRecoverable(t, |Buffers(t)|);
  }

  // ---- without JSON in between ----

  /** Reinsertion into the tree extraction produced finds nothing: its numbers are ints, and only float64 numbers
      make a placeholder. So the two routines are inverse only across the wire. */
  lemma {:induction false} NothingToRestore(t: Node, n: nat, all: seq<string>)
    requires Marks(t) == []
    ensures Restored(Taken(t, n), all) == Taken(t, n)
    decreases t
  {
    match t
    case Binary(_) =>
      var fields := Placeholder(Int(n)).fields;
      PlaceholderGets(Int(n));
      assert RestoredFields(fields, all) == fields;
    case Object(fields) =>
      TakenMark(fields, n);
      NothingToRestoreInFields(fields, n, all);
    case Array(items) => NothingToRestoreInItems(items, n, all);
    case _ =>
  }

  lemma {:induction false} NothingToRestoreInFields(fields: seq<Field>, n: nat, all: seq<string>)
    requires FieldMarks(fields) == []
    ensures RestoredFields(TakenFields(fields, n), all) == TakenFields(fields, n)
    decreases fields
  {
    if fields != [] {
      var next := n + |Buffers(fields[0].value)|;
      NothingToRestore(fields[0].value, n, all);
      NothingToRestoreInFields(fields[1..], next, all);
      assert TakenFields(fields, n)[1..] == TakenFields(fields[1..], next);
    }
  }

  lemma {:induction false} NothingToRestoreInItems(items: seq<Node>, n: nat, all: seq<string>)
    requires ItemMarks(items) == []
    ensures RestoredItems(TakenItems(items, n), all) == TakenItems(items, n)
    decreases items
  {
    if items != [] {
      var next := n + |Buffers(items[0])|;
      NothingToRestore(items[0], n, all);
      NothingToRestoreInItems(items[1..], next, all);
      assert TakenItems(items, n)[1..] == TakenItems(items[1..], next);
    }
  }

  /** A binary once extracted never comes back without JSON, whatever else the tree holds. */
  lemma {:induction false} NeverBack(t: Node, n: nat, all: seq<string>)
    requires HasBinary(t)
    ensures Restored(Taken(t, n), all) != t
    decreases t
  {
    match t
    case Binary(_) => PlaceholderGets(Int(n));
    case Object(fields) =>
      ExtractionIsComplete(t, n);
      FieldsNeverBack(fields, n, all);
    case Array(items) => ItemsNeverBack(items, n, all);
    case _ =>
  }

  lemma {:induction false} FieldsNeverBack(fields: seq<Field>, n: nat, all: seq<string>)
    requires FieldsHaveBinary(fields)
    ensures RestoredFields(TakenFields(fields, n), all) != fields
    decreases fields
  {
    hide Taken, Buffers, Restored, HasBinary;
    var next, restored := n + |Buffers(fields[0].value)|, RestoredFields(TakenFields(fields, n), all);
    if HasBinary(fields[0].value) {
      NeverBack(fields[0].value, n, all);
      assert restored[0].value != fields[0].value;
    } else {
      FieldsNeverBack(fields[1..], next, all);
      assert TakenFields(fields, n)[1..] == TakenFields(fields[1..], next);
      assert restored[1..] != fields[1..];
    }
  }

  lemma {:induction false} ItemsNeverBack(items: seq<Node>, n: nat, all: seq<string>)
    requires ItemsHaveBinary(items)
    ensures RestoredItems(TakenItems(items, n), all) != items
    decreases items
  {
    hide Taken, Buffers, Restored, HasBinary;
    var next, restored := n + |Buffers(items[0])|, RestoredItems(TakenItems(items, n), all);
    if HasBinary(items[0]) {
      NeverBack(items[0], n, all);
      assert restored[0] != items[0];
    } else {
      ItemsNeverBack(items[1..], next, all);
      assert TakenItems(items, n)[1..] == TakenItems(items[1..], next);
      assert restored[1..] != items[1..];
    }
  }

  lemma {:induction false} NothingAttached(t: Node)
    ensures Restored(t, []) == t
    decreases t
  {
    match t
    case Object(fields) =>
      forall i | 0 <= i < |fields| ensures RestoredFields(fields, [])[i] == fields[i] {
        NothingAttached(fields[i].value);
      }
      assert RestoredFields(fields, []) == fields;
    case Array(items) =>
      forall i | 0 <= i < |items| ensures RestoredItems(items, [])[i] == items[i] {
        NothingAttached(items[i]);
      }
      assert RestoredItems(items, []) == items;
    case _ =>
  }

  /** So the direct inverse holds, for every tree, exactly when it holds no binary. */
  lemma DirectInverseExactly(t: Node)
    ensures Restored(Taken(t, 0), Buffers(t)) == t <==> !HasBinary(t)
  {
    ExtractionIsComplete(t, 0);
    if HasBinary(t) {
      NeverBack(t, 0, Buffers(t));
    } else {
      NothingAttached(t);
    }
  }
}
