/** Engine.IO packets and the polling payload codec (server/pkg/engineio/packet.go).
    A Go string is a sequence of bytes; here each byte is one character of a `string`. */
module EnginePacket {
  import opened Options

  datatype Packet = Packet(kind: char, data: string)

  const PING := '2'
  const MESSAGE := '4'
  const NOOP := '6'

  /** The record separator that delimits packets in one polling payload. */
  const SEPARATOR := '\U{1E}'

  predicate KnownKind(c: char) { '0' <= c <= '6' }

  /** Go's `string(byte)`: the UTF-8 form of the code point, one byte below 0x80 and two above (RFC 3629, section 3). */
  function ByteString(c: char): (s: string)
    ensures c < '\U{80}' ==> s == [c]
    ensures '\U{80}' <= c <= '\U{FF}' ==>
              |s| == 2 && '\U{C0}' <= s[0] <= '\U{DF}' && '\U{80}' <= s[1] <= '\U{BF}'
              && c as int == (s[0] as int - 0xC0) * 64 + (s[1] as int - 0x80)
  {
    if c < '\U{80}' then [c]
    else [(0xC0 + c as int / 64 % 32) as char, (0x80 + c as int % 64) as char]
  }

  function Encode(p: Packet): string {
    ByteString(p.kind) + p.data
  }

  function DecodePacket(s: string): Option<Packet> {
    if s == [] || !KnownKind(s[0]) then None else Some(Packet(s[0], s[1..]))
  }

  // ---- strings.Split and strings.Join on the separator ----

  function Split(s: string): (parts: seq<string>)
    ensures |parts| > 0
    ensures forall i :: 0 <= i < |parts| ==> SEPARATOR !in parts[i]
  {
    if s == [] then [[]]
    else
      var rest := Split(s[1..]);
      if s[0] == SEPARATOR then [[]] + rest else [[s[0]] + rest[0]] + rest[1..]
  }

  function Join(parts: seq<string>): string {
    if parts == [] then []
    else if |parts| == 1 then parts[0]
    else parts[0] + [SEPARATOR] + Join(parts[1..])
  }

  function EncodeAll(ps: seq<Packet>): (parts: seq<string>)
    ensures |parts| == |ps|
    ensures forall i :: 0 <= i < |ps| ==> parts[i] == Encode(ps[i])
  {
    seq(|ps|, i requires 0 <= i < |ps| => Encode(ps[i]))
  }

  function DecodeAll(parts: seq<string>): (r: Option<seq<Packet>>)
    ensures r.Some? ==> |r.value| == |parts|
    ensures r.Some? ==> forall i :: 0 <= i < |parts| ==> DecodePacket(parts[i]) == Some(r.value[i])
    ensures r.None? ==> exists i :: 0 <= i < |parts| && DecodePacket(parts[i]).None?
  {
    if parts == [] then Some([])
    else
      match DecodePacket(parts[0])
      case None => None
      case Some(p) =>
        match DecodeAll(parts[1..])
        case None =>
          assert exists i :: 0 <= i < |parts[1..]| && DecodePacket(parts[1..][i]).None?;
          None
        case Some(ps) => Some([p] + ps)
  }

  function PayloadOf(ps: seq<Packet>): string { Join(EncodeAll(ps)) }

  function PacketsOf(s: string): Option<seq<Packet>> {
    if s == [] then Some([]) else DecodeAll(Split(s))
  }

  // ---- the two routines as written, loops included ----

  method EncodePayload(packets: seq<Packet>) returns (s: string)
    ensures s == PayloadOf(packets)
  {
    if |packets| == 0 { return ""; }
    if |packets| == 1 { return Encode(packets[0]); }
    var parts: seq<string> := seq(|packets|, _ => "");
    for i := 0 to |packets|
      invariant |parts| == |packets|
      invariant forall j :: 0 <= j < i ==> parts[j] == Encode(packets[j])
    {
      parts := parts[i := Encode(packets[i])];
    }
    assert parts == EncodeAll(packets);
    return Join(parts);
  }

  method DecodePayload(data: string) returns (r: Option<seq<Packet>>)
    ensures r == PacketsOf(data)
  {
    if |data| == 0 { return Some([]); }
    var parts := Split(data);
    var packets: seq<Packet> := [];
    for i := 0 to |parts|
      invariant |packets| == i
      invariant forall j :: 0 <= j < i ==> DecodePacket(parts[j]) == Some(packets[j])
    {
      var p := DecodePacket(parts[i]);
      if p.None? { return None; }
      packets := packets + [p.value];
    }
    assert DecodeAll(parts).Some? && DecodeAll(parts).value == packets;
    return Some(packets);
  }

  // ---- the laws ----

  lemma {:induction false} JoinSplit(s: string)
    ensures Join(Split(s)) == s
  {
    if s != [] {
      JoinSplit(s[1..]);
      var rest := Split(s[1..]);
      if s[0] == SEPARATOR {
        assert ([[]] + rest)[1..] == rest;
      } else {
        assert ([[s[0]] + rest[0]] + rest[1..])[1..] == rest[1..];
      }
    }
  }

  lemma {:induction false} SplitPrefix(a: string, s: string)
    requires SEPARATOR !in a
    ensures Split(a + s) == [a + Split(s)[0]] + Split(s)[1..]
  {
    if a == [] {
      assert a + s == s;
      assert a + Split(s)[0] == Split(s)[0];
    } else {
      assert (a + s)[1..] == a[1..] + s;
      SplitPrefix(a[1..], s);
      var rest := Split(a[1..] + s);
      assert rest[0] == a[1..] + Split(s)[0] && rest[1..] == Split(s)[1..];
      assert [a[0]] + (a[1..] + Split(s)[0]) == a + Split(s)[0];
    }
  }

  lemma {:induction false} SplitJoin(parts: seq<string>)
    requires |parts| > 0
    requires forall i :: 0 <= i < |parts| ==> SEPARATOR !in parts[i]
    ensures Split(Join(parts)) == parts
  {
    if |parts| == 1 {
      SplitPrefix(parts[0], []);
      assert parts[0] + [] == parts[0];
    } else {
      var tail := [SEPARATOR] + Join(parts[1..]);
      SplitJoin(parts[1..]);
      assert tail[1..] == Join(parts[1..]);
      SplitPrefix(parts[0], tail);
      assert parts[0] + [SEPARATOR] + Join(parts[1..]) == parts[0] + tail;
      assert Split(tail) == [[]] + parts[1..];
      assert parts[0] + [] == parts[0];
    }
  }

  /** A packet is its type followed by its data, and only such a text with a type from '0' to '6' is one. */
  lemma PacketForm(s: string, p: Packet)
    ensures DecodePacket(s) == Some(p) <==> '0' <= p.kind <= '6' && s == [p.kind] + p.data
    ensures p.kind < '\U{80}' ==> Encode(p) == [p.kind] + p.data
  {
    if '0' <= p.kind <= '6' && s == [p.kind] + p.data {
      assert s[1..] == p.data;
    }
  }

  lemma {:induction false} JoinParts(a: seq<string>, b: seq<string>)
    requires a != [] && b != []
    ensures Join(a + b) == Join(a) + ['\U{1E}'] + Join(b)
    decreases a
  {
    if |a| == 1 {
      assert (a + b)[1..] == b;
    } else {
      assert (a + b)[1..] == a[1..] + b;
      JoinParts(a[1..], b);
    }
  }

  /** Payloads are put one after the other with one record separator in between; a single packet stands alone. */
  lemma PayloadForm(p: Packet, ps: seq<Packet>, qs: seq<Packet>)
    ensures PayloadOf([]) == "" && PayloadOf([p]) == Encode(p)
    ensures ps != [] && qs != [] ==> PayloadOf(ps + qs) == PayloadOf(ps) + ['\U{1E}'] + PayloadOf(qs)
  {
    if ps != [] && qs != [] {
      assert EncodeAll(ps + qs) == EncodeAll(ps) + EncodeAll(qs);
      JoinParts(EncodeAll(ps), EncodeAll(qs));
    }
  }

  /** Re-encoding what was decoded gives the very payload back, for every payload that decodes. */
  lemma EncodeAfterDecode(s: string)
    requires PacketsOf(s).Some?
    ensures PayloadOf(PacketsOf(s).value) == s
  {
    if s != [] {
      var parts := Split(s);
      var ps := DecodeAll(parts).value;
      forall i | 0 <= i < |parts| ensures Encode(ps[i]) == parts[i] {
        assert DecodePacket(parts[i]) == Some(ps[i]);
        assert parts[i] == [parts[i][0]] + parts[i][1..];
      }
      assert EncodeAll(ps) == parts;
      JoinSplit(s);
    }
  }

  lemma DecodedIsPlain(s: string, ps: seq<Packet>)
    requires PacketsOf(s) == Some(ps) && ps != []
    ensures forall i :: 0 <= i < |ps| ==> KnownKind(ps[i].kind) && SEPARATOR !in ps[i].data
  {
    var parts := Split(s);
    forall i | 0 <= i < |ps| ensures KnownKind(ps[i].kind) && SEPARATOR !in ps[i].data {
      assert DecodePacket(parts[i]) == Some(ps[i]);
      assert ps[i].data == parts[i][1..];
    }
  }

  /** A list of packets comes back from its payload exactly when every type is known and no data holds a separator. */
  lemma DecodeAfterEncode(ps: seq<Packet>)
    ensures PacketsOf(PayloadOf(ps)) == Some(ps)
            <==> forall i :: 0 <= i < |ps| ==> '0' <= ps[i].kind <= '6' && '\U{1E}' !in ps[i].data
  {
    if ps == [] {
    } else if forall i :: 0 <= i < |ps| ==> KnownKind(ps[i].kind) && SEPARATOR !in ps[i].data {
      var parts := EncodeAll(ps);
      forall i | 0 <= i < |parts|
        ensures SEPARATOR !in parts[i] && DecodePacket(parts[i]) == Some(ps[i])
      {
        assert KnownKind(ps[i].kind);
        assert parts[i] == [ps[i].kind] + ps[i].data;
      }
      SplitJoin(parts);
      assert Join(parts) != [] by {
        assert parts[0] != [];
      }
      assert DecodeAll(parts).Some?;
      assert DecodeAll(parts).value == ps;
    } else if PacketsOf(PayloadOf(ps)) == Some(ps) {
      DecodedIsPlain(PayloadOf(ps), ps);
    }
  }
}
