/** JSON as the packet code uses it (server/pkg/socketio/packet.go:298-354, 551-565): an abstract codec, the trees JSON
    represents faithfully, and what the package relies on for those. */
module WireJson {
  import opened Options
  import opened GoText
  import opened SocketPacket
  import opened BinaryTree

  function Depth(t: Node): nat {
    match t
    case Object(fields) => 1 + FieldsDepth(fields)
    case Array(items) => 1 + ItemsDepth(items)
    case _ => 0
  }

  function FieldsDepth(fields: seq<Field>): nat {
    if fields == [] then 0 else Max(Depth(fields[0].value), FieldsDepth(fields[1..]))
  }

  function ItemsDepth(items: seq<Node>): nat {
    if items == [] then 0 else Max(Depth(items[0]), ItemsDepth(items[1..]))
  }

  function Max(a: nat, b: nat): nat { if a > b then a else b }

  lemma {:induction false} GetIsField(fields: seq<Field>, key: string)
    requires Get(fields, key).Some?
    ensures exists i :: 0 <= i < |fields| && fields[i].key == key && fields[i].value == Get(fields, key).value
    decreases fields
  {
    if fields[0].key != key {
      GetIsField(fields[1..], key);
      var i :| 0 <= i < |fields[1..]| && fields[1..][i].key == key && fields[1..][i].value == Get(fields, key).value;
      assert fields[i + 1].key == key;
    }
  }

  /** Equal as Go values: maps agree key by key whatever the order of their fields. */
  ghost predicate Same(a: Node, b: Node)
    decreases a
  {
    match (a, b)
    case (Object(f), Object(g)) =>
      && (forall k :: Get(f, k).Some? <==> Get(g, k).Some?)
      && (forall k :: Get(f, k).Some? ==> (GetIsField(f, k); Same(Get(f, k).value, Get(g, k).value)))
    case (Array(xs), Array(ys)) => |xs| == |ys| && forall i :: 0 <= i < |xs| ==> Same(xs[i], ys[i])
    case _ => a == b
  }

  // ---- what JSON represents ----

  /** Integers up to 2^53 in size are exact as float64. */
  const MAX_EXACT := 0x20_0000_0000_0000

  const MAX_DEPTH := 32

  /** encoding/json as seen by this package; marshalling may fail. `finite` says which pairs of an integer part and a
      remainder stand for a finite float64. */
  datatype Codec = Codec(
    json: Json, marshal: Node -> Option<string>, parse: string -> Option<Node>, finite: (int, string) -> bool)

  predicate Continues(s: string, i: nat, low: char, high: char) { i < |s| && low <= s[i] <= high }

  /** How many bytes the first character of a UTF-8 text takes, 0 when it is malformed (RFC 3629, section 4). */
  function RuneLength(s: string): (n: nat)
    ensures n <= |s|
  {
    if s == [] then 0
    else if s[0] < '\U{80}' then 1
    else if '\U{C2}' <= s[0] <= '\U{DF}' then if Tail(s, 1) then 2 else 0
    else if '\U{E0}' <= s[0] <= '\U{EF}' then
      var low := if s[0] == '\U{E0}' then '\U{A0}' else '\U{80}';
      var high := if s[0] == '\U{ED}' then '\U{9F}' else '\U{BF}';
      if Continues(s, 1, low, high) && Tail(s, 2) then 3 else 0
    else if '\U{F0}' <= s[0] <= '\U{F4}' then
      var low := if s[0] == '\U{F0}' then '\U{90}' else '\U{80}';
      var high := if s[0] == '\U{F4}' then '\U{8F}' else '\U{BF}';
      if Continues(s, 1, low, high) && Tail(s, 2) && Tail(s, 3) then 4 else 0
    else 0
  }

  predicate Tail(s: string, i: nat) { Continues(s, i, '\U{80}', '\U{BF}') }

  /** Valid UTF-8; anything else is written with replacement characters. */
  predicate ValidText(s: string)
    decreases |s|
  {
    s == [] || (RuneLength(s) > 0 && ValidText(s[RuneLength(s)..]))
  }

  lemma {:induction false} AsciiIsValid(s: string)
    requires forall i :: 0 <= i < |s| ==> s[i] < '\U{80}'
    ensures ValidText(s)
    decreases s
  {
    if s != [] {
      AsciiIsValid(s[1..]);
    }
  }

  predicate DistinctKeys(fields: seq<Field>) {
    forall i, j :: 0 <= i < j < |fields| ==> fields[i].key != fields[j].key
  }

  /** A tree that JSON carries unchanged once its binaries are extracted: exact integers, finite floats, valid text, and
      every key of a map once. */
  predicate Representable(c: Codec, t: Node)
    decreases t
  {
    match t
    case Int(n) => -MAX_EXACT <= n <= MAX_EXACT
    case Float(whole, rest) => c.finite(whole, rest)
    case Text(s) => ValidText(s)
    case Object(fields) => DistinctKeys(fields) && FieldsRepresentable(c, fields)
    case Array(items) => ItemsRepresentable(c, items)
    case _ => true
  }

  predicate FieldsRepresentable(c: Codec, fields: seq<Field>)
    decreases fields
  {
    fields == [] ||
    (ValidText(fields[0].key) && Representable(c, fields[0].value) && FieldsRepresentable(c, fields[1..]))
  }

  predicate ItemsRepresentable(c: Codec, items: seq<Node>)
    decreases items
  {
    items == [] || (Representable(c, items[0]) && ItemsRepresentable(c, items[1..]))
  }

  /** The tree is written as text that does not begin with a digit and whose depth scan sees its depth; when it is not
      too deep, the text is valid JSON and reads back as the same value. */
  ghost predicate WrittenWell(c: Codec, t: Node) {
    c.marshal(t).Some? &&
    var s := c.marshal(t).value;
    && s != [] && !IsDigit(s[0])
    && c.json.scan(s) == (if Depth(t) <= MAX_DEPTH then Fine else Deep)
    && (Depth(t) <= MAX_DEPTH ==> c.json.valid(s) && c.parse(s).Some? && Same(c.parse(s).value, Jsonified(t)))
  }

  /** What the package relies on, for containers without binaries that JSON represents. */
  ghost predicate LawfulCodec(c: Codec) {
    && Lawful(c.json)
    && forall t: Node :: (t.Object? || t.Array?) && !HasBinary(t) && Representable(c, t) ==> WrittenWell(c, t)
  }

  // ---- extraction keeps a tree representable ----

  lemma OneMoreField(c: Codec, f: Field, rest: seq<Field>)
    requires ValidText(f.key) && Representable(c, f.value) && FieldsRepresentable(c, rest)
    ensures FieldsRepresentable(c, [f] + rest)
  {
    hide ValidText;
    assert ([f] + rest)[1..] == rest;
  }

  lemma PlaceholderRepresentable(c: Codec, n: nat)
    requires n <= MAX_EXACT
    ensures Representable(c, Placeholder(Int(n)))
  {
    hide ValidText, RuneLength;
    var fields := Placeholder(Int(n)).fields;
    AsciiIsValid("_placeholder");
    AsciiIsValid("num");
    OneMoreField(c, Field("num", Int(n)), []);
    OneMoreField(c, Field("_placeholder", Bool(true)), [Field("num", Int(n))]);
    assert fields == [Field("_placeholder", Bool(true))] + ([Field("num", Int(n))] + []);
    assert fields[0].key[0] != fields[1].key[0];
    assert DistinctKeys(fields);
  }

  lemma {:induction false} FieldsRepresent(c: Codec, fields: seq<Field>)
    ensures FieldsRepresentable(c, fields) <==>
            forall i :: 0 <= i < |fields| ==> ValidText(fields[i].key) && Representable(c, fields[i].value)
    decreases fields
  {
    hide ValidText, Representable;
    if fields != [] {
      FieldsRepresent(c, fields[1..]);
      assert forall i :: 1 <= i < |fields| ==> fields[i] == fields[1..][i - 1];
    }
  }

  lemma {:induction false} ItemsRepresent(c: Codec, items: seq<Node>)
    ensures ItemsRepresentable(c, items) <==> forall i :: 0 <= i < |items| ==> Representable(c, items[i])
    decreases items
  {
    hide Representable;
    if items != [] {
      ItemsRepresent(c, items[1..]);
      assert forall i :: 1 <= i < |items| ==> items[i] == items[1..][i - 1];
    }
  }

  lemma {:induction false} ExtractRepresentable(c: Codec, t: Node, t': Node, all: seq<string>)
    requires Representable(c, t) && Extracts(t, t', all) && |all| <= MAX_EXACT
    ensures Representable(c, t')
    decreases t
  {
    match t
    case Binary(b) =>
      var k :| 0 <= k < |all| && all[k] == b && t' == Placeholder(Int(k));
      PlaceholderRepresentable(c, k);
    case Object(f) =>
      FieldsRepresent(c, f);
      forall i | 0 <= i < |f| ensures ValidText(t'.fields[i].key) && Representable(c, t'.fields[i].value) {
        ExtractRepresentable(c, f[i].value, t'.fields[i].value, all);
      }
      FieldsRepresent(c, t'.fields);
    case Array(xs) => ItemsExtractRepresentable(c, xs, t'.items, all);
    case _ =>
  }

  lemma {:induction false} ItemsExtractRepresentable(c: Codec, xs: seq<Node>, ys: seq<Node>, all: seq<string>)
    requires ItemsRepresentable(c, xs) && ItemsExtract(xs, ys, all) && |all| <= MAX_EXACT
    ensures ItemsRepresentable(c, ys)
    decreases xs
  {
    ItemsRepresent(c, xs);
    forall i | 0 <= i < |xs| ensures Representable(c, ys[i]) {
      ExtractRepresentable(c, xs[i], ys[i], all);
    }
    ItemsRepresent(c, ys);
  }

  // ---- what comes back, up to the order of fields ----

  lemma {:induction false} SameReflexive(t: Node)
    ensures Same(t, t)
    decreases t
  {
    match t
    case Object(f) =>
      forall k | Get(f, k).Some? ensures Same(Get(f, k).value, Get(f, k).value) {
        GetIsField(f, k);
        SameReflexive(Get(f, k).value);
      }
    case Array(xs) =>
      forall i | 0 <= i < |xs| ensures Same(xs[i], xs[i]) {
        SameReflexive(xs[i]);
      }
    case _ =>
  }

  lemma {:induction false} SameSymmetric(a: Node, b: Node)
    requires Same(a, b)
    ensures Same(b, a)
    decreases a
  {
    match (a, b)
    case (Object(f), Object(g)) =>
      forall k | Get(g, k).Some? ensures Same(Get(g, k).value, Get(f, k).value) {
        GetIsField(f, k);
        SameSymmetric(Get(f, k).value, Get(g, k).value);
      }
    case (Array(xs), Array(ys)) =>
      forall i | 0 <= i < |ys| ensures Same(ys[i], xs[i]) {
        SameSymmetric(xs[i], ys[i]);
      }
    case _ =>
  }

  lemma {:induction false} SameTransitive(a: Node, b: Node, d: Node)
    requires Same(a, b) && Same(b, d)
    ensures Same(a, d)
    decreases a
  {
    match (a, b, d)
    case (Object(f), Object(g), Object(h)) =>
      forall k | Get(f, k).Some? ensures Same(Get(f, k).value, Get(h, k).value) {
        GetIsField(f, k);
        SameTransitive(Get(f, k).value, Get(g, k).value, Get(h, k).value);
      }
    case (Array(xs), Array(ys), Array(zs)) =>
      forall i | 0 <= i < |xs| ensures Same(xs[i], zs[i]) {
        SameTransitive(xs[i], ys[i], zs[i]);
      }
    case _ =>
  }

  lemma {:induction false} GetDistinct(fields: seq<Field>, i: nat)
    requires DistinctKeys(fields) && i < |fields|
    ensures Get(fields, fields[i].key) == Some(fields[i].value)
    decreases fields
  {
    if i > 0 {
      assert fields[0].key != fields[i].key;
      GetDistinct(fields[1..], i - 1);
    }
  }

  /** Maps with the same distinct keys in the same order are equal exactly when their values are. */
  lemma AlignedSame(f: seq<Field>, g: seq<Field>)
    requires |f| == |g| && DistinctKeys(f) && forall i :: 0 <= i < |f| ==> f[i].key == g[i].key
    ensures Same(Object(f), Object(g)) <==> forall i :: 0 <= i < |f| ==> Same(f[i].value, g[i].value)
  {
    forall i | 0 <= i < |f|
      ensures Get(f, f[i].key) == Some(f[i].value) && Get(g, f[i].key) == Some(g[i].value)
    {
      GetDistinct(f, i);
      GetDistinct(g, i);
    }
    forall k | Get(f, k).Some? || Get(g, k).Some? ensures exists i :: 0 <= i < |f| && f[i].key == k {
      if Get(f, k).Some? {
        GetIsField(f, k);
      } else {
        GetIsField(g, k);
      }
    }
  }

  /** Equality up to the order of fields does not make binaries appear. */
  lemma {:induction false} SameBinary(c: Codec, a: Node, t: Node)
    requires Representable(c, t) && Same(a, Jsonified(t)) && HasBinary(t)
    ensures HasBinary(a)
    decreases t
  {
    match t
    case Object(f) =>
      var jf := JsonifiedFields(f);
      FieldsHold(f);
      var i :| 0 <= i < |f| && HasBinary(f[i].value);
      FieldsRepresent(c, f);
      GetDistinct(jf, i);
      SameSymmetric(a, Object(jf));
      SameSymmetric(Jsonified(f[i].value), Get(a.fields, f[i].key).value);
      SameBinary(c, Get(a.fields, f[i].key).value, f[i].value);
      GetIsField(a.fields, f[i].key);
      FieldsHold(a.fields);
    case Array(xs) =>
      ItemsHold(xs);
      var i :| 0 <= i < |xs| && HasBinary(xs[i]);
      ItemsRepresent(c, xs);
      SameBinary(c, a.items[i], xs[i]);
      ItemsHold(a.items);
    case _ =>
  }

  /** Also up to the order of fields, an extraction is undone by JSON and reinsertion exactly when the tree is
      recoverable. */
  lemma {:induction false} SameComesBack(c: Codec, t: Node, t': Node, all: seq<string>)
    requires Representable(c, t) && Extracts(t, t', all)
    ensures Same(Restored(Jsonified(t'), all), Jsonified(t)) <==> Recoverable(Jsonified(t), |all|)
    decreases t
  {
    if Recoverable(Jsonified(t), |all|) {
      ComesBack(t, t', all);
      SameReflexive(Jsonified(t));
    } else if t.Object? {
      SameFieldsComeBack(c, t.fields, t'.fields, all);
    } else {
      SameItemsComeBack(c, t.items, t'.items, all);
    }
  }

  lemma {:induction false} SameFieldsComeBack(c: Codec, f: seq<Field>, g: seq<Field>, all: seq<string>)
    requires Representable(c, Object(f)) && FieldsExtract(f, g, all) && !Recoverable(Jsonified(Object(f)), |all|)
    ensures !Same(Restored(Jsonified(Object(g)), all), Jsonified(Object(f)))
    decreases f
  {
    hide ValidText, HasBinary, Get;
    var jf, jg := JsonifiedFields(f), JsonifiedFields(g);
    JsonMark(f);
    JsonMark(g);
    ExtractMark(f, g, all);
    if Mark(f).Some? {
      MarkedDiffers(c, f, g, all);
    } else {
      FieldsRecover(jf, |all|);
      var i :| 0 <= i < |jf| && !Recoverable(jf[i].value, |all|);
      FieldsRepresent(c, f);
      SameComesBack(c, f[i].value, g[i].value, all);
      FieldDiffers(RestoredFields(jg, all), jf, i);
    }
  }

  lemma FieldDiffers(f: seq<Field>, g: seq<Field>, i: nat)
    requires |f| == |g| && DistinctKeys(g) && forall k :: 0 <= k < |f| ==> f[k].key == g[k].key
    requires i < |f| && !Same(f[i].value, g[i].value)
    ensures !Same(Object(f), Object(g))
  {
    AlignedSame(f, g);
  }

  /** A map taken for a placeholder becomes its bytes, or keeps the placeholders written into it. */
  lemma {:induction false} MarkedDiffers(c: Codec, f: seq<Field>, g: seq<Field>, all: seq<string>)
    requires Representable(c, Object(f)) && FieldsExtract(f, g, all) && Mark(f).Some? && Mark(g) == Mark(f)
    requires 0 <= Mark(f).value < |all| || FieldsHaveBinary(JsonifiedFields(f))
    ensures !Same(Restored(Jsonified(Object(g)), all), Jsonified(Object(f)))
  {
    hide ValidText, Get, Mark, Extracts;
    JsonMark(g);
    ExtractionLeavesNone(Object(f), Object(g), all);
    JsonFieldBinary(f);
    JsonBinary(Object(g));
    if Same(Jsonified(Object(g)), Jsonified(Object(f))) && FieldsHaveBinary(f) {
      SameBinary(c, Jsonified(Object(g)), Object(f));
    }
  }

  lemma {:induction false} SameItemsComeBack(c: Codec, xs: seq<Node>, ys: seq<Node>, all: seq<string>)
    requires ItemsRepresentable(c, xs) && ItemsExtract(xs, ys, all) && !Recoverable(Jsonified(Array(xs)), |all|)
    ensures !Same(Restored(Jsonified(Array(ys)), all), Jsonified(Array(xs)))
    decreases xs
  {
    var jx, jy := JsonifiedItems(xs), JsonifiedItems(ys);
    ItemsRecover(jx, |all|);
    var i :| 0 <= i < |jx| && !Recoverable(jx[i], |all|);
    ItemsRepresent(c, xs);
    SameComesBack(c, xs[i], ys[i], all);
    assert !Same(RestoredItems(jy, all)[i], jx[i]);
  }
}
