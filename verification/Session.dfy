/** One Engine.IO session: the fields its mutex protects, and what every locked section does to them
    (server/pkg/engineio/session.go). A capacity-one wake-up channel is either full or empty. */
module EngineSession {
  import opened EnginePacket

  /** The value of a session's protected fields. */
  datatype Shared = Shared(
    buffer: seq<Packet>,
    recvToken: bool,     // recvChan holds a token
    wsBound: bool,       // wsConn is not nil
    wsToken: bool,       // wsSendChan holds a token
    upgrading: bool,
    upgradeDone: bool,   // upgradeChan is closed
    closed: bool)
  {
    function Accept(p: Packet): Shared {
      if closed then this
      else if wsBound then this.(buffer := buffer + [p], wsToken := true)
      else this.(buffer := buffer + [p], recvToken := true)
    }

    function Bind(): Shared { this.(wsBound := true, wsToken := false) }

    function StartUpgrade(): Shared {
      if upgrading then this else this.(upgrading := true, recvToken := true)
    }

    function Switch(): Shared {
      this.(wsBound := true, wsToken := buffer != [], upgrading := false, upgradeDone := true)
    }

    function CancelUpgrade(): Shared { this.(upgrading := false) }

    function Take(): Shared { this.(buffer := []) }

    function Close(): Shared { this.(closed := true) }
  }

  const Fresh := Shared([], false, false, false, false, false, false)

  /** What a poll that took `packets` hands to its client: a NOOP is added while an upgrade is in progress. */
  function Response(packets: seq<Packet>, upgrading: bool): seq<Packet> {
    if upgrading then packets + [Packet(NOOP, "")] else packets
  }

  /** A Go channel of capacity one carrying empty structs. */
  class Signal {
    var full: bool

    constructor ()
      ensures !full
    {
      full := false;
    }

    /** A send inside `select` with a `default` case: never blocks. */
    method TrySend()
      modifies this
      ensures full
    {
      full := true;
    }

    method TryReceive() returns (ok: bool)
      modifies this
      ensures ok == old(full) && !full
    {
      ok := full;
      full := false;
    }
  }

  class WsConn {
    constructor () {}
  }

  datatype DrainOutcome = Ready(packets: seq<Packet>) | MustWait

  class Session {
    var sendBuffer: seq<Packet>
    const recvChan: Signal
    var wsConn: WsConn?
    var wsSendChan: Signal?
    var upgrading: bool
    var upgradeChanClosed: bool
    var closed: bool

    ghost predicate Valid()
      reads this
    {
      wsSendChan != recvChan && (wsConn != null ==> wsSendChan != null)
    }

    ghost function State(): Shared
      reads this, recvChan, wsSendChan
    {
      Shared(sendBuffer, recvChan.full, wsConn != null, wsSendChan != null && wsSendChan.full,
             upgrading, upgradeChanClosed, closed)
    }

    constructor ()
      ensures Valid() && State() == Fresh && fresh(recvChan) && wsSendChan == null
      ensures sendBuffer == [] && !recvChan.full && wsConn == null && !upgrading && !upgradeChanClosed && !closed
    {
      sendBuffer := [];
      recvChan := new Signal();
      wsConn, wsSendChan := null, null;
      upgrading, upgradeChanClosed, closed := false, false, false;
    }

    method Send(data: string)
      requires Valid()
      modifies this, recvChan, wsSendChan
      ensures Valid() && unchanged(`wsSendChan)
      ensures State() == old(State()).Accept(Packet(MESSAGE, data))
      ensures sendBuffer == if old(closed) then old(sendBuffer) else old(sendBuffer) + [Packet('4', data)]
    {
      SendPacket(Packet(MESSAGE, data));
    }

    method SendPacket(p: Packet)
      requires Valid()
      modifies this, recvChan, wsSendChan
      ensures Valid() && unchanged(`wsSendChan)
      ensures State() == old(State()).Accept(p)
      ensures old(closed) ==> State() == old(State())
      ensures !old(closed) ==>
                State() == old(State()).(buffer := old(sendBuffer) + [p],
                                         recvToken := wsConn == null || old(recvChan.full),
                                         wsToken := wsConn != null || old(State()).wsToken)
    {
      if closed { return; }
      sendBuffer := sendBuffer + [p];
      SignalSend();
    }

    method SignalSend()
      requires Valid()
      modifies recvChan, wsSendChan
      ensures Valid()
      ensures State() == if wsConn != null then old(State()).(wsToken := true) else old(State()).(recvToken := true)
    {
      if wsConn != null {
        wsSendChan.TrySend();
      } else {
        recvChan.TrySend();
      }
    }

    /** Attaches a connection to a session that was never polled; nothing is signalled. */
    method BindWebSocket(wsc: WsConn)
      requires Valid()
      modifies this
      ensures Valid() && fresh(wsSendChan)
      ensures State() == old(State()).Bind() == old(State()).(wsBound := true, wsToken := false)
    {
      wsConn := wsc;
      wsSendChan := new Signal();
    }

    method StartUpgrade()
      requires Valid()
      modifies this, recvChan
      ensures Valid() && unchanged(`wsSendChan)
      ensures State() == old(State()).StartUpgrade()
      ensures old(upgrading) ==> State() == old(State())
      ensures !old(upgrading) ==> State() == old(State()).(upgrading := true, recvToken := true)
    {
      if upgrading { return; }
      upgrading := true;
      recvChan.TrySend();
    }

    /** The locked section of UpgradeToWebSocket. */
    method SwitchTransport(wsc: WsConn)
      requires Valid()
      modifies this
      ensures Valid() && fresh(wsSendChan)
      ensures State() == old(State()).Switch()
      ensures wsConn == wsc && !upgrading && upgradeChanClosed && (wsSendChan.full <==> sendBuffer != [])
      ensures unchanged(`sendBuffer, `closed) && recvChan.full == old(recvChan.full)
    {
      wsConn := wsc;
      wsSendChan := new Signal();
      upgrading := false;
      upgradeChanClosed := true;
      if |sendBuffer| > 0 {
        wsSendChan.TrySend();
      }
    }

    /** What UpgradeToWebSocket does after it released the lock. */
    method SignalPolls()
      requires Valid()
      modifies recvChan
      ensures Valid() && State() == old(State()).(recvToken := true)
    {
      recvChan.TrySend();
    }

    method CancelUpgrade()
      requires Valid()
      modifies this
      ensures Valid() && unchanged(`wsSendChan)
      ensures State() == old(State()).CancelUpgrade() == old(State()).(upgrading := false)
    {
      upgrading := false;
    }

    /** Drain up to its select: hands over what is buffered, or answers NOOP, or has to wait. */
    method DrainNow() returns (r: DrainOutcome)
      requires Valid()
      modifies this
      ensures Valid() && unchanged(`wsSendChan)
      ensures r.MustWait? <==> old(sendBuffer == [] && !upgrading)
      ensures r.Ready? ==> r.packets == Response(old(sendBuffer), old(upgrading))
      ensures r.Ready? && !old(upgrading) ==> r.packets == old(sendBuffer)
      ensures old(upgrading) ==> r == Ready(old(sendBuffer) + [Packet('6', "")])
      ensures State() == old(State()).Take() == old(State()).(buffer := [])
    {
      if |sendBuffer| > 0 {
        var packets := sendBuffer;
        sendBuffer := [];
        return Ready(if upgrading then packets + [Packet(NOOP, "")] else packets);
      }
      if upgrading { return Ready([Packet(NOOP, "")]); }
      return MustWait;
    }

    /** Drain after it received from recvChan. */
    method DrainWoken() returns (packets: seq<Packet>)
      requires Valid()
      modifies this
      ensures Valid() && unchanged(`wsSendChan)
      ensures packets == Response(old(sendBuffer), old(upgrading))
      ensures packets == if old(upgrading) then old(sendBuffer) + [Packet('6', "")] else old(sendBuffer)
      ensures State() == old(State()).Take() == old(State()).(buffer := [])
    {
      packets := sendBuffer;
      sendBuffer := [];
      if upgrading && |packets| == 0 { return [Packet(NOOP, "")]; }
      if upgrading { packets := packets + [Packet(NOOP, "")]; }
    }

    /** The locked section of wsWriteLoop, entered after receiving from wsSendChan. */
    method WriterTake() returns (packets: seq<Packet>)
      requires Valid()
      modifies this
      ensures Valid() && unchanged(`wsSendChan)
      ensures packets == old(sendBuffer) && State() == old(State()).Take() == old(State()).(buffer := [])
    {
      packets := sendBuffer;
      sendBuffer := [];
    }

    /** Reports whether this call is the one that runs the onClose callback. */
    method Close() returns (notify: bool)
      requires Valid()
      modifies this
      ensures Valid() && unchanged(`wsSendChan)
      ensures notify == !old(closed) && State() == old(State()).Close() == old(State()).(closed := true)
    {
      if closed { return false; }
      closed := true;
      return true;
    }
  }
}
