/** Socket.IO packets and their text form (server/pkg/socketio/packet.go:52-196), the "Packet encoding" of the
    Socket.IO protocol, revision 5. JSON text is opaque: only its depth scan and its validity are consulted. */
module SocketPacket {
  import opened Options
  import opened GoText

  const BINARY_EVENT := 5
  const BINARY_ACK := 6
  const MAX_ATTACHMENTS := 100

  datatype Packet = Packet(
    kind: int,
    ns: string,
    id: int,                 // -1 when absent
    data: Option<string>,
    attachments: int,
    payloads: seq<string>)   // collected binary buffers

  datatype Error = EmptyPacket | InvalidType | Malformed | TooManyAttachments | TooDeep | InvalidJSON

  /** Outcome of checkJSONDepth. */
  datatype Scan = Fine | Broken | Deep

  datatype Json = Json(scan: string -> Scan, valid: string -> bool)

  /** The one fact about JSON text the format rests on (RFC 8259, section 2): a valid text is not empty and
      does not begin with a slash. */
  ghost predicate Lawful(json: Json) {
    forall s :: json.valid(s) ==> s != [] && s[0] != '/'
  }

  predicate IsBinary(kind: int) { kind == BINARY_EVENT || kind == BINARY_ACK }

  // ---- the parser as a function ----

  function DigitRun(s: string): (n: nat)
    ensures n <= |s| && AllDigits(s[..n])
    ensures n < |s| ==> !IsDigit(s[n])
  {
    if s == [] || !IsDigit(s[0]) then 0
    else
      var n := DigitRun(s[1..]);
      assert s[..n + 1] == [s[0]] + s[1..][..n];
      n + 1
  }

  function ParseBody(json: Json, kind: int, attachments: int, ns: string, s: string): Result<Packet, Error> {
    var n := DigitRun(s);
    var id := if n == 0 then Some(-1) else Atoi(s[..n]);
    if id.None? then Err(Malformed)
    else if s[n..] == [] then Ok(Packet(kind, ns, id.value, None, attachments, []))
    else
      match json.scan(s[n..])
      case Broken => Err(InvalidJSON)
      case Deep => Err(TooDeep)
      case Fine =>
        if json.valid(s[n..]) then Ok(Packet(kind, ns, id.value, Some(s[n..]), attachments, [])) else Err(InvalidJSON)
  }

  function ParseNamespace(json: Json, kind: int, attachments: int, s: string): Result<Packet, Error> {
    if s == [] || s[0] != '/' then ParseBody(json, kind, attachments, "/", s)
    else
      var comma := Find(s, ',');
      if comma == |s| then Ok(Packet(kind, s, -1, None, attachments, []))
      else ParseBody(json, kind, attachments, s[..comma], s[comma + 1..])
  }

  function ParseCount(json: Json, kind: int, s: string): Result<Packet, Error> {
    var dash := Find(s, '-');
    if dash == |s| then Err(Malformed)
    else
      var n := Atoi(s[..dash]);
      if n.None? then Err(Malformed)
      else if n.value < 0 || n.value > MAX_ATTACHMENTS then Err(TooManyAttachments)
      else ParseNamespace(json, kind, n.value, s[dash + 1..])
  }

  function Parse(json: Json, s: string): Result<Packet, Error> {
    if s == [] then Err(EmptyPacket)
    else if !('0' <= s[0] <= '6') then Err(InvalidType)
    else
      var kind := s[0] as int - '0' as int;
      if IsBinary(kind) then ParseCount(json, kind, s[1..]) else ParseNamespace(json, kind, 0, s[1..])
  }

  // ---- the printer as a function ----

  function CountPart(p: Packet): string { if IsBinary(p.kind) then Itoa(p.attachments) + ['-'] else [] }

  function NamespacePart(p: Packet): string { if p.ns != "/" && p.ns != [] then p.ns + [','] else [] }

  function IDPart(p: Packet): string { if p.id >= 0 then Itoa(p.id) else [] }

  function DataPart(p: Packet): string { if p.data.Some? then p.data.value else [] }

  /** The type is written as one byte, so `'0' + Type` wraps at 256. */
  function Print(p: Packet): string {
    [((48 + p.kind) % 256) as char] + (CountPart(p) + (NamespacePart(p) + (IDPart(p) + DataPart(p))))
  }

  // ---- the two routines as written ----

  method Decode(json: Json, data: string) returns (r: Result<Packet, Error>)
    ensures r == Parse(json, data)
  {
    if |data| == 0 { return Err(EmptyPacket); }
    if !('0' <= data[0] <= '6') { return Err(InvalidType); }
    var p := Packet(data[0] as int - '0' as int, "/", -1, None, 0, []);
    if IsBinary(p.kind) {
      r := DecodeCount(json, data, p, 1);
    } else {
      r := DecodeNamespace(json, data, p, 1);
    }
  }

  /** Decode from the attachment count of a binary packet on. */
  method DecodeCount(json: Json, data: string, header: Packet, start: nat) returns (r: Result<Packet, Error>)
    requires start <= |data| && header.ns == "/" && header.id == -1 && header.data == None && header.payloads == []
    ensures r == ParseCount(json, header.kind, data[start..])
  {
    hide ParseNamespace, Find, Atoi;
    var dashIdx := Find(data[start..], '-');
    if dashIdx == |data[start..]| { return Err(Malformed); }
    var count := Atoi(data[start..][..dashIdx]);
    if count.None? { return Err(Malformed); }
    if count.value < 0 || count.value > MAX_ATTACHMENTS { return Err(TooManyAttachments); }
    assert data[start + dashIdx + 1..] == data[start..][dashIdx + 1..];
    r := DecodeNamespace(json, data, header.(attachments := count.value), start + dashIdx + 1);
  }

  /** Decode from the namespace on. */
  method DecodeNamespace(json: Json, data: string, header: Packet, start: nat) returns (r: Result<Packet, Error>)
    requires start <= |data| && header.ns == "/" && header.id == -1 && header.data == None && header.payloads == []
    ensures r == ParseNamespace(json, header.kind, header.attachments, data[start..])
  {
    var p, pos := header, start;
    ghost var rest := data[start..];
    if pos < |data| && data[pos] == '/' {
      var commaIdx := Find(data[pos..], ',');
      if commaIdx == |data[pos..]| {
        return Ok(p.(ns := data[pos..]));
      }
      p := p.(ns := data[pos..pos + commaIdx]);
      assert data[pos..pos + commaIdx] == rest[..commaIdx];
      pos := pos + commaIdx + 1;
      assert data[pos..] == rest[commaIdx + 1..];
      assert ParseNamespace(json, header.kind, header.attachments, rest)
          == ParseBody(json, header.kind, header.attachments, rest[..commaIdx], rest[commaIdx + 1..]);
    }
    r := DecodeBody(json, data, p, pos);
  }

  /** Decode from the acknowledgement id on. */
  method DecodeBody(json: Json, data: string, header: Packet, start: nat) returns (r: Result<Packet, Error>)
    requires start <= |data| && header.id == -1 && header.data == None && header.payloads == []
    ensures r == ParseBody(json, header.kind, header.attachments, header.ns, data[start..])
  {
    var p, pos := header, start;
    while pos < |data| && IsDigit(data[pos])
      invariant start <= pos <= |data|
      invariant DigitRun(data[start..]) == pos - start + DigitRun(data[pos..])
    {
      assert data[pos..][1..] == data[pos + 1..];
      pos := pos + 1;
    }
    assert data[start..][..pos - start] == data[start..pos] && data[start..][pos - start..] == data[pos..];
    if pos > start {
      var id := Atoi(data[start..pos]);
      if id.None? { return Err(Malformed); }
      p := p.(id := id.value);
    }
    if pos < |data| {
      var raw := data[pos..];
      match json.scan(raw) {
        case Broken => return Err(InvalidJSON);
        case Deep => return Err(TooDeep);
        case Fine =>
      }
      if !json.valid(raw) { return Err(InvalidJSON); }
      p := p.(data := Some(raw));
    }
    return Ok(p);
  }

  lemma Reassociate(a: string, b: string, c: string, d: string, e: string)
    ensures a + b + c + d + e == a + (b + (c + (d + e)))
  {
  }

  method Encode(p: Packet) returns (s: string)
    ensures s == Print(p)
  {
    var b: string := [((48 + p.kind) % 256) as char];
    ghost var first := b;
    if p.kind == BINARY_EVENT || p.kind == BINARY_ACK {
      b := b + Itoa(p.attachments) + ['-'];
    }
    assert b == first + CountPart(p);
    if p.ns != "/" && p.ns != "" {
      b := b + p.ns + [','];
    }
    assert b == first + CountPart(p) + NamespacePart(p);
    if p.id >= 0 {
      b := b + Itoa(p.id);
    }
    assert b == first + CountPart(p) + NamespacePart(p) + IDPart(p);
    if p.data.Some? {
      b := b + p.data.value;
    }
    assert b == first + CountPart(p) + NamespacePart(p) + IDPart(p) + DataPart(p);
    Reassociate(first, CountPart(p), NamespacePart(p), IDPart(p), DataPart(p));
    return b;
  }

  // ---- the format, as a grammar ----

  /** The texts between the type and the end: attachment count, namespace, acknowledgement id, data. */
  datatype Pieces = Pieces(count: string, ns: string, id: string, data: string)

  function Spelled(kind: int, x: Pieces): string
    requires 0 <= kind <= 6
  {
    [(48 + kind) as char] + (x.count + (x.ns + (x.id + x.data)))
  }

  predicate CountText(kind: int, text: string, n: int) {
    if kind == 5 || kind == 6
    then text != [] && text[|text| - 1] == '-' && '-' !in text[..|text| - 1]
         && Atoi(text[..|text| - 1]) == Some(n) && 0 <= n <= 100
    else text == [] && n == 0
  }

  /** The namespace ends at its comma, or at the end of the text; it is left out when it is the default one. */
  predicate NamespaceText(text: string, ns: string, rest: string) {
    if text == [] then ns == "/" && (rest == [] || rest[0] != '/')
    else ns != [] && ns[0] == '/' && ',' !in ns && (text == ns + [','] || (text == ns && rest == []))
  }

  predicate IDText(text: string, id: int, rest: string) {
    && (if text == [] then id == -1 else AllDigits(text) && Atoi(text) == Some(id))
    && (rest == [] || !('0' <= rest[0] <= '9'))
  }

  predicate WellFormed(kind: int, x: Pieces, n: int, ns: string, id: int) {
    && 0 <= kind <= 6 && CountText(kind, x.count, n)
    && NamespaceText(x.ns, ns, x.id + x.data) && IDText(x.id, id, x.data)
  }

  /** What a well-formed text parses to: its own parts, unless the data is too deep or no JSON. */
  lemma ParseReads(json: Json, kind: int, x: Pieces, n: int, ns: string, id: int)
    requires WellFormed(kind, x, n, ns, id)
    ensures Parse(json, Spelled(kind, x)) ==
            if x.data == [] then Ok(Packet(kind, ns, id, None, n, []))
            else if json.scan(x.data) == Deep then Err(TooDeep)
            else if json.scan(x.data) == Broken || !json.valid(x.data) then Err(InvalidJSON)
            else Ok(Packet(kind, ns, id, Some(x.data), n, []))
  {
    hide Parse, ParseCount, ParseNamespace, ParseBody, Atoi;
    var tail := x.ns + (x.id + x.data);
    ReadsKind(json, kind, x.count + tail);
    if kind == 5 || kind == 6 {
      ReadsCount(json, kind, x.count, n, tail);
    } else {
      assert x.count + tail == tail;
    }
    ReadsNamespace(json, kind, n, x.ns, ns, x.id + x.data);
    if !(x.ns == ns && x.ns != []) {
      ReadsBody(json, kind, n, ns, x.id, id, x.data);
    }
  }

  lemma ReadsKind(json: Json, kind: int, rest: string)
    requires 0 <= kind <= 6
    ensures Parse(json, [(48 + kind) as char] + rest)
            == if kind == 5 || kind == 6 then ParseCount(json, kind, rest) else ParseNamespace(json, kind, 0, rest)
  {
    hide ParseCount, ParseNamespace;
    assert ([(48 + kind) as char] + rest)[1..] == rest;
  }

  lemma ReadsCount(json: Json, kind: int, text: string, n: int, rest: string)
    requires (kind == 5 || kind == 6) && CountText(kind, text, n)
    ensures ParseCount(json, kind, text + rest) == ParseNamespace(json, kind, n, rest)
  {
    hide ParseNamespace, Atoi;
    var c := text[..|text| - 1];
    assert text == c + ['-'];
    FindAfterPrefix(c, '-', rest);
    assert text + rest == c + ['-'] + rest && (text + rest)[..|c|] == c && (text + rest)[|c| + 1..] == rest;
  }

  lemma ReadsNamespace(json: Json, kind: int, n: int, text: string, ns: string, rest: string)
    requires NamespaceText(text, ns, rest)
    ensures ParseNamespace(json, kind, n, text + rest) ==
            if text == ns && text != [] then Ok(Packet(kind, ns, -1, None, n, []))
            else ParseBody(json, kind, n, ns, rest)
  {
    hide ParseBody;
    if text == [] {
      assert text + rest == rest;
    } else if text == ns {
      assert text + rest == ns;
    } else {
      FindAfterPrefix(ns, ',', rest);
      assert (text + rest)[..|ns|] == ns && (text + rest)[|ns| + 1..] == rest;
    }
  }

  lemma ReadsBody(json: Json, kind: int, n: int, ns: string, text: string, id: int, data: string)
    requires IDText(text, id, data)
    ensures ParseBody(json, kind, n, ns, text + data) ==
            if data == [] then Ok(Packet(kind, ns, id, None, n, []))
            else if json.scan(data) == Deep then Err(TooDeep)
            else if json.scan(data) == Broken || !json.valid(data) then Err(InvalidJSON)
            else Ok(Packet(kind, ns, id, Some(data), n, []))
  {
    hide Atoi, DigitRun;
    DigitRunOf(text, data);
    assert (text + data)[..|text|] == text && (text + data)[|text|..] == data;
  }

  /** The text counts attachments, and the count is a number outside 0..100. */
  predicate CountsTooMany(s: string) {
    && s != [] && (s[0] == '5' || s[0] == '6')
    && var dash := Find(s[1..], '-');
    && dash < |s| - 1 && Atoi(s[1..][..dash]).Some? && !(0 <= Atoi(s[1..][..dash]).value <= 100)
  }

  /** Every other text is refused, with the error its first fault has: so the well-formed texts are exactly the ones
      whose header is read. */
  lemma RefusesTheRest(json: Json, s: string)
    ensures Parse(json, s) == Err(EmptyPacket) <==> s == []
    ensures Parse(json, s) == Err(InvalidType) <==> s != [] && !('0' <= s[0] <= '6')
    ensures Parse(json, s) == Err(TooManyAttachments) <==> CountsTooMany(s)
    ensures (s != [] && '0' <= s[0] <= '6' && !CountsTooMany(s) && Parse(json, s) != Err(Malformed)) <==>
            exists kind, x, n, ns, id :: WellFormed(kind, x, n, ns, id) && Spelled(kind, x) == s
  {
    hide Atoi, Find, CountText, NamespaceText, IDText, Parse, CountsTooMany;
    Refusals(json, s);
    if s != [] && '0' <= s[0] <= '6' && !CountsTooMany(s) && Parse(json, s) != Err(Malformed) {
      var kind, x, n, ns, id := Dissect(json, s);
    }
    forall kind, x, n, ns, id | WellFormed(kind, x, n, ns, id) && Spelled(kind, x) == s
      ensures s != [] && '0' <= s[0] <= '6' && !CountsTooMany(s) && Parse(json, s) != Err(Malformed)
    {
      ParseReads(json, kind, x, n, ns, id);
    }
  }

  lemma Refusals(json: Json, s: string)
    ensures Parse(json, s) == Err(EmptyPacket) <==> s == []
    ensures Parse(json, s) == Err(InvalidType) <==> s != [] && !('0' <= s[0] <= '6')
    ensures Parse(json, s) == Err(TooManyAttachments) <==> CountsTooMany(s)
  {
    hide Atoi, Find, DigitRun, ParseNamespace;
    if s != [] && '0' <= s[0] <= '6' {
      var kind, rest := s[0] as int - 48, s[1..];
      if kind == 5 || kind == 6 {
        var dash := Find(rest, '-');
        if dash < |rest| && Atoi(rest[..dash]).Some? {
          LaterFaults(json, kind, Atoi(rest[..dash]).value, rest[dash + 1..]);
        }
      } else {
        LaterFaults(json, kind, 0, rest);
      }
    }
  }

  lemma LaterFaults(json: Json, kind: int, n: int, s: string)
    ensures var r := ParseNamespace(json, kind, n, s);
            r.Ok? || r.error == Malformed || r.error == TooDeep || r.error == InvalidJSON
  {
    hide Atoi, Find, DigitRun;
  }

  /** The pieces of a text whose header is read. */
  lemma Dissect(json: Json, s: string) returns (kind: int, x: Pieces, n: int, ns: string, id: int)
    requires s != [] && '0' <= s[0] <= '6' && !CountsTooMany(s) && Parse(json, s) != Err(Malformed)
    ensures WellFormed(kind, x, n, ns, id) && Spelled(kind, x) == s
  {
    hide Atoi, Find, DigitRun, ParseCount, ParseNamespace, ParseBody;
    Refusals(json, s);
    kind := s[0] as int - 48;
    var rest := s[1..];
    var count, tail, nsText, body;
    if kind == 5 || kind == 6 {
      count, n, tail := DissectCount(json, kind, rest);
    } else {
      count, n, tail := [], 0, rest;
      assert rest == count + tail;
    }
    nsText, ns, body := DissectNamespace(json, kind, n, tail);
    var idText, data;
    idText, id, data := DissectBody(json, kind, n, ns, body);
    x := Pieces(count, nsText, idText, data);
    assert s == [s[0]] + (count + (nsText + (idText + data)));
  }

  lemma DissectCount(json: Json, kind: int, s: string) returns (text: string, n: int, rest: string)
    requires kind == 5 || kind == 6
    requires ParseCount(json, kind, s) != Err(Malformed) && ParseCount(json, kind, s) != Err(TooManyAttachments)
    ensures s == text + rest && CountText(kind, text, n) && ParseNamespace(json, kind, n, rest) != Err(Malformed)
  {
    hide Atoi, Find, ParseNamespace;
    var dash := Find(s, '-');
    FindFacts(s, '-');
    n := Atoi(s[..dash]).value;
    text, rest := s[..dash + 1], s[dash + 1..];
    assert text[..|text| - 1] == s[..dash] && text[dash] == '-';
    assert s == text + rest;
  }

  lemma FindFacts(s: string, c: char)
    ensures var i := Find(s, c); i <= |s| && c !in s[..i] && (i < |s| ==> s[i] == c)
  {
  }

  lemma DissectNamespace(json: Json, kind: int, n: int, s: string) returns (text: string, ns: string, rest: string)
    requires ParseNamespace(json, kind, n, s) != Err(Malformed)
    ensures s == text + rest && NamespaceText(text, ns, rest) && ParseBody(json, kind, n, ns, rest) != Err(Malformed)
  {
    hide ParseBody, Find;
    if s == [] || s[0] != '/' {
      text, ns, rest := [], "/", s;
      assert s == text + rest;
    } else {
      var comma := Find(s, ',');
      FindFacts(s, ',');
      if comma == |s| {
        assert s[..|s|] == s;
        text, ns, rest := s, s, [];
        NothingToRead(json, kind, n, ns);
      } else {
        text, ns, rest := s[..comma + 1], s[..comma], s[comma + 1..];
        assert text == ns + [','] && s == text + rest && ns[0] == s[0];
      }
    }
  }

  lemma NothingToRead(json: Json, kind: int, n: int, ns: string)
    ensures ParseBody(json, kind, n, ns, []) == Ok(Packet(kind, ns, -1, None, n, []))
  {
  }

  lemma DissectBody(json: Json, kind: int, n: int, ns: string, s: string) returns (text: string, id: int, data: string)
    requires ParseBody(json, kind, n, ns, s) != Err(Malformed)
    ensures s == text + data && IDText(text, id, data)
  {
    hide Atoi;
    var k := DigitRun(s);
    text, data := s[..k], s[k..];
    id := if k == 0 then -1 else Atoi(s[..k]).value;
    assert s == text + data;
  }

  /** The printer writes each part in its canonical form: no default namespace, no absent id, numbers as Itoa does. */
  lemma PrintForm(p: Packet)
    requires 0 <= p.kind <= 6
    ensures var count := if p.kind == 5 || p.kind == 6 then Itoa(p.attachments) + "-" else "";
            var ns := if p.ns == "/" || p.ns == "" then "" else p.ns + ",";
            var id := if p.id < 0 then "" else Itoa(p.id);
            Print(p) == Spelled(p.kind, Pieces(count, ns, id, if p.data.None? then "" else p.data.value))
  {
  }

  // ---- agreement ----

  predicate CarriableData(json: Json, d: Option<string>) {
    d.Some? ==> d.value != [] && !IsDigit(d.value[0]) && json.scan(d.value) == Fine && json.valid(d.value)
  }

  /** The packets the text form can carry. */
  predicate Carriable(json: Json, p: Packet) {
    && 0 <= p.kind <= 6
    && (if IsBinary(p.kind) then 0 <= p.attachments <= MAX_ATTACHMENTS else p.attachments == 0)
    && (p.ns == [] || (p.ns[0] == '/' && ',' !in p.ns))
    && -1 <= p.id <= MAX_INT
    && CarriableData(json, p.data)
  }

  /** Header and data as the receiver sees them: the empty namespace is the default one, buffers travel apart. */
  function Received(p: Packet): Packet {
    p.(ns := if p.ns == [] then "/" else p.ns, payloads := [])
  }

  lemma AtoiInRange(s: string)
    requires Atoi(s).Some?
    ensures IsInt64(Atoi(s).value) && (AllDigits(s) ==> Atoi(s).value >= 0)
  {
  }

  /** Whatever the parser accepts is carriable. */
  lemma ParsedIsCarriable(json: Json, s: string)
    requires Parse(json, s).Ok?
    ensures Carriable(json, Parse(json, s).value) && Received(Parse(json, s).value) == Parse(json, s).value
  {
    var kind, rest := s[0] as int - '0' as int, s[1..];
    if IsBinary(kind) {
      assert ParseCount(json, kind, rest).Ok?;
      var dash := Find(rest, '-');
      ParsedNamespaceIsCarriable(json, kind, Atoi(rest[..dash]).value, rest[dash + 1..]);
    } else {
      ParsedNamespaceIsCarriable(json, kind, 0, rest);
    }
  }

  lemma ParsedNamespaceIsCarriable(json: Json, kind: int, n: int, s: string)
    requires ParseNamespace(json, kind, n, s).Ok? && 0 <= kind <= 6
    requires if IsBinary(kind) then 0 <= n <= MAX_ATTACHMENTS else n == 0
    ensures var p := ParseNamespace(json, kind, n, s).value; Carriable(json, p) && Received(p) == p
  {
    if s == [] || s[0] != '/' {
      ParsedBodyIsCarriable(json, kind, n, "/", s);
    } else {
      var comma := Find(s, ',');
      assert s[..|s|] == s;
      if comma < |s| {
        ParsedBodyIsCarriable(json, kind, n, s[..comma], s[comma + 1..]);
      }
    }
  }

  lemma ParsedBodyIsCarriable(json: Json, kind: int, n: int, ns: string, s: string)
    requires ParseBody(json, kind, n, ns, s).Ok? && 0 <= kind <= 6
    requires if IsBinary(kind) then 0 <= n <= MAX_ATTACHMENTS else n == 0
    requires ns != [] && ns[0] == '/' && ',' !in ns
    ensures var p := ParseBody(json, kind, n, ns, s).value; Carriable(json, p) && Received(p) == p
  {
    var k := DigitRun(s);
    if k > 0 {
      AtoiInRange(s[..k]);
    }
  }

  lemma {:induction false} DigitRunOf(a: string, s: string)
    requires AllDigits(a) && (s == [] || !IsDigit(s[0]))
    ensures DigitRun(a + s) == |a|
  {
    if a == [] {
      assert a + s == s;
    } else {
      assert (a + s)[1..] == a[1..] + s;
      DigitRunOf(a[1..], s);
    }
  }

  lemma ItoaOfNat(n: nat)
    ensures AllDigits(Itoa(n)) && Itoa(n) != [] && '-' !in Itoa(n)
  {
  }

  lemma BodyRoundTrip(json: Json, p: Packet)
    requires Carriable(json, p)
    ensures ParseBody(json, p.kind, p.attachments, Received(p).ns, IDPart(p) + DataPart(p)) == Ok(Received(p))
  {
    var id, data := IDPart(p), DataPart(p);
    if p.id >= 0 {
      ItoaOfNat(p.id);
      AtoiItoa(p.id);
    }
    DigitRunOf(id, data);
    assert (id + data)[..|id|] == id && (id + data)[|id|..] == data;
  }

  lemma NamespaceSplits(json: Json, p: Packet, body: string)
    requires p.ns == [] || (p.ns[0] == '/' && ',' !in p.ns)
    requires body == [] || body[0] != '/'
    ensures ParseNamespace(json, p.kind, p.attachments, NamespacePart(p) + body)
            == ParseBody(json, p.kind, p.attachments, Received(p).ns, body)
  {
    var s := NamespacePart(p) + body;
    if NamespacePart(p) == [] {
      assert s == body;
    } else {
      FindAfterPrefix(p.ns, ',', body);
      assert s == p.ns + [','] + body;
      assert s[0] == '/' && s[..|p.ns|] == p.ns && s[|p.ns| + 1..] == body;
    }
  }

  lemma BodyStart(json: Json, p: Packet)
    requires Lawful(json) && Carriable(json, p)
    ensures var body := IDPart(p) + DataPart(p); body == [] || body[0] != '/'
  {
    if p.id >= 0 {
      ItoaOfNat(p.id);
      assert (IDPart(p) + DataPart(p))[0] == Itoa(p.id)[0];
    }
  }

  lemma NamespaceRoundTrip(json: Json, p: Packet)
    requires Lawful(json) && Carriable(json, p)
    ensures ParseNamespace(json, p.kind, p.attachments, NamespacePart(p) + (IDPart(p) + DataPart(p))) == Ok(Received(p))
  {
    BodyStart(json, p);
    NamespaceSplits(json, p, IDPart(p) + DataPart(p));
    BodyRoundTrip(json, p);
  }

  lemma CountRoundTrip(json: Json, p: Packet, tail: string)
    requires IsBinary(p.kind) && 0 <= p.attachments <= MAX_ATTACHMENTS
    ensures ParseCount(json, p.kind, CountPart(p) + tail) == ParseNamespace(json, p.kind, p.attachments, tail)
  {
    var n := Itoa(p.attachments);
    var s := CountPart(p) + tail;
    ItoaOfNat(p.attachments);
    AtoiItoa(p.attachments);
    FindAfterPrefix(n, '-', tail);
    assert s == n + ['-'] + tail;
    assert s[..|n|] == n && s[|n| + 1..] == tail;
  }

  lemma KindRoundTrip(json: Json, p: Packet, rest: string)
    requires 0 <= p.kind <= 6
    ensures Parse(json, [((48 + p.kind) % 256) as char] + rest)
            == if IsBinary(p.kind) then ParseCount(json, p.kind, rest) else ParseNamespace(json, p.kind, 0, rest)
  {
    var s := [((48 + p.kind) % 256) as char] + rest;
    assert s[0] as int - '0' as int == p.kind && s[1..] == rest;
  }

  lemma HeadRoundTrip(json: Json, p: Packet, tail: string)
    requires 0 <= p.kind <= 6
             && (if IsBinary(p.kind) then 0 <= p.attachments <= MAX_ATTACHMENTS else p.attachments == 0)
    ensures Parse(json, [((48 + p.kind) % 256) as char] + (CountPart(p) + tail))
            == ParseNamespace(json, p.kind, p.attachments, tail)
  {
    KindRoundTrip(json, p, CountPart(p) + tail);
    if IsBinary(p.kind) {
      CountRoundTrip(json, p, tail);
    } else {
      assert CountPart(p) + tail == tail;
    }
  }

  lemma CarriableRoundTrip(json: Json, p: Packet)
    requires Lawful(json) && Carriable(json, p)
    ensures Parse(json, Print(p)) == Ok(Received(p))
  {
    hide Parse, ParseNamespace, CountPart, NamespacePart, IDPart, DataPart;
    HeadRoundTrip(json, p, NamespacePart(p) + (IDPart(p) + DataPart(p)));
    NamespaceRoundTrip(json, p);
  }

  /** A packet comes back from its text form with its header and data, exactly when it is carriable. */
  lemma RoundTripExactly(json: Json, p: Packet)
    requires Lawful(json) && IsInt64(p.id)
    ensures Parse(json, Print(p)) == Ok(Received(p)) <==> Carriable(json, p)
  {
    if Carriable(json, p) {
      CarriableRoundTrip(json, p);
    } else if Parse(json, Print(p)) == Ok(Received(p)) {
      ParsedIsCarriable(json, Print(p));
    }
  }

  /** Printing and parsing again leaves the packet of every accepted text unchanged. */
  lemma ParsePrintParse(json: Json, s: string)
    requires Lawful(json) && Parse(json, s).Ok?
    ensures Parse(json, Print(Parse(json, s).value)) == Parse(json, s)
  {
    ParsedIsCarriable(json, s);
    CarriableRoundTrip(json, Parse(json, s).value);
  }
}
