/** Every interleaving of the goroutines that share one session: producers, long polls, the
    polling-to-WebSocket upgrade and the WebSocket write loop (server/pkg/engineio/session.go,
    server/pkg/engineio/websocket.go). One action is one locked section or one channel operation. */
module SessionRuns {
  import opened EnginePacket
  import opened EngineSession

  /** wsWriteLoop: in its select, past a receive from wsSendChan, writing a batch, failed, or gone. */
  datatype Writer = Unstarted | Selecting | Roused | Writing(rest: seq<Packet>) | Broken | Stopped

  /** handleWSUpgrade: no probe, probe answered, lock released after the switch, loops running. */
  datatype Upgrader = Idle | Probing | Switched | Live

  datatype Taker = ByPoll | ByWriter

  /** One emptying of sendBuffer under the lock. */
  datatype Batch = Batch(taker: Taker, packets: seq<Packet>, upgrading: bool)

  /** What one Drain call returned, and whether the upgrade was in progress when it took the buffer; a poll that gives
      up returns nothing. */
  datatype Answer = Answer(id: nat, packets: seq<Packet>, upgrading: bool)

  datatype Frame = Control(p: Packet) | Payload(p: Packet)

  datatype System = System(
    sh: Shared,
    blocked: set<nat>,       // polls waiting in Drain's select
    woken: set<nat>,         // polls that received a token and have not yet locked
    writer: Writer,
    upgrader: Upgrader,
    accepted: seq<Packet>,   // what Send and SendPacket took on, oldest first
    batches: seq<Batch>,     // in lock order
    answers: seq<Answer>,    // of the polls that have returned
    frames: seq<Frame>)      // what reached the WebSocket

  datatype Action =
    | Offer(p: Packet)       // Send or SendPacket
    | Poll(id: nat)          // a Drain call up to its select
    | Wake(id: nat)          // the select receives from recvChan
    | Resume(id: nat)        // the woken Drain locks and takes
    | GiveUp(id: nat)        // the select sees the timer or closedChan
    | BindFresh              // BindWebSocket and start of the write loop
    | BeginProbe             // StartUpgrade
    | AbortProbe             // CancelUpgrade
    | CompleteProbe          // UpgradeToWebSocket, locked section
    | SignalPolls            // UpgradeToWebSocket after unlocking; the write loop starts
    | Rouse                  // the write loop receives from wsSendChan
    | WriterTakes
    | WriteOk
    | WriteFails
    | PingOk                 // the write loop's ticker
    | FailedCloses           // Close after a write error
    | NoticeClose            // the write loop receives from closedChan
    | CloseSession

  const Start := System(Fresh, {}, {}, Unstarted, Idle, [], [], [], [])

  function Taken(s: System, taker: Taker): System {
    s.(sh := s.sh.Take(), batches := s.batches + [Batch(taker, s.sh.buffer, s.sh.upgrading)])
  }

  /** A poll takes the buffer and returns with it. */
  function Answered(s: System, id: nat): System {
    Taken(s, ByPoll).(answers := s.answers + [Answer(id, Response(s.sh.buffer, s.sh.upgrading), s.sh.upgrading)])
  }

  /** The effect of one action; an action that is not enabled changes nothing. */
  function Step(s: System, a: Action): System {
    match a
    case Offer(p) =>
      s.(sh := s.sh.Accept(p), accepted := if s.sh.closed then s.accepted else s.accepted + [p])
    case Poll(id) =>
      if id in s.blocked + s.woken then s
      else if s.sh.buffer != [] || s.sh.upgrading then Answered(s, id)
      else s.(blocked := s.blocked + {id})
    case Wake(id) =>
      if id in s.blocked && s.sh.recvToken
      then s.(sh := s.sh.(recvToken := false), blocked := s.blocked - {id}, woken := s.woken + {id})
      else s
    case Resume(id) =>
      if id in s.woken then Answered(s, id).(woken := s.woken - {id}) else s
    case GiveUp(id) =>
      if id in s.blocked
      then s.(blocked := s.blocked - {id}, answers := s.answers + [Answer(id, [], false)])
      else s
    case BindFresh =>
      if s.upgrader.Idle? then s.(sh := s.sh.Bind(), upgrader := Live, writer := Selecting) else s
    case BeginProbe =>
      if s.upgrader.Idle? then s.(sh := s.sh.StartUpgrade(), upgrader := Probing) else s
    case AbortProbe =>
      if s.upgrader.Probing? then s.(sh := s.sh.CancelUpgrade(), upgrader := Idle) else s
    case CompleteProbe =>
      if s.upgrader.Probing? then s.(sh := s.sh.Switch(), upgrader := Switched) else s
    case SignalPolls =>
      if s.upgrader.Switched? then s.(sh := s.sh.(recvToken := true), upgrader := Live, writer := Selecting) else s
    case Rouse =>
      if s.writer.Selecting? && s.sh.wsToken then s.(sh := s.sh.(wsToken := false), writer := Roused) else s
    case WriterTakes =>
      if s.writer.Roused? then Taken(s, ByWriter).(writer := AfterWrite(s.sh.buffer)) else s
    case WriteOk =>
      if s.writer.Writing? && s.writer.rest != []
      then s.(frames := s.frames + [Payload(s.writer.rest[0])], writer := AfterWrite(s.writer.rest[1..]))
      else s
    case WriteFails =>
      if s.writer.Writing? || s.writer.Selecting? then s.(writer := Broken) else s
    case PingOk =>
      if s.writer.Selecting? then s.(frames := s.frames + [Control(Packet(PING, ""))]) else s
    case FailedCloses =>
      if s.writer.Broken? then s.(sh := s.sh.Close(), writer := Stopped) else s
    case NoticeClose =>
      if s.writer.Selecting? && s.sh.closed
      then s.(frames := s.frames + [Control(Packet('1', ""))], writer := Stopped) else s
    case CloseSession => s.(sh := s.sh.Close())
  }

  function AfterWrite(rest: seq<Packet>): Writer {
    if rest == [] then Selecting else Writing(rest)
  }

  function Run(s: System, acts: seq<Action>): System
    decreases acts
  {
    if acts == [] then s else Run(Step(s, acts[0]), acts[1..])
  }

  // ---- what was handed over ----

  function Flat(bs: seq<Batch>): seq<Packet> {
    if bs == [] then [] else Flat(bs[..|bs| - 1]) + bs[|bs| - 1].packets
  }

  function FlatBy(bs: seq<Batch>, t: Taker): seq<Packet> {
    if bs == [] then []
    else
      var last := bs[|bs| - 1];
      FlatBy(bs[..|bs| - 1], t) + if last.taker == t then last.packets else []
  }

  /** An answer without the NOOP that an upgrade in progress adds at its end. */
  function Without(a: Answer): seq<Packet> {
    if a.upgrading && a.packets != [] then a.packets[..|a.packets| - 1] else a.packets
  }

  function FlatAnswers(answers: seq<Answer>): seq<Packet> {
    if answers == [] then [] else FlatAnswers(answers[..|answers| - 1]) + Without(answers[|answers| - 1])
  }

  function Payloads(fs: seq<Frame>): seq<Packet> {
    if fs == [] then []
    else
      var last := fs[|fs| - 1];
      Payloads(fs[..|fs| - 1]) + if last.Payload? then [last.p] else []
  }

  predicate HandedOver(s: System) { Flat(s.batches) + s.sh.buffer == s.accepted }

  /** What the polls were answered, NOOPs aside, is what they took; an answer given during an upgrade ends in a NOOP. */
  ghost predicate AnsweredFully(s: System) {
    && FlatAnswers(s.answers) == FlatBy(s.batches, ByPoll)
    && forall a :: a in s.answers && a.upgrading ==> a.packets != [] && a.packets[|a.packets| - 1] == Packet('6', "")
  }

  /** `out` reached the WebSocket and `owed` was taken for it by the write loop. */
  predicate Progress(w: Writer, out: seq<Packet>, owed: seq<Packet>, closed: bool) {
    match w
    case Unstarted => out == [] && owed == []
    case Selecting => out == owed
    case Roused => out == owed
    case Writing(rest) => out + rest == owed
    case Broken => out <= owed
    case Stopped => closed && out <= owed
  }

  predicate Written(s: System) {
    Progress(s.writer, Payloads(s.frames), FlatBy(s.batches, ByWriter), s.sh.closed)
  }

  /** A non-empty buffer of an open session always has someone on the way to it. */
  predicate WakeUpPending(s: System) {
    s.sh.closed || s.sh.buffer == [] ||
    if s.sh.wsBound then s.sh.wsToken || s.writer.Roused? else s.sh.recvToken || s.woken != {}
  }

  /** The goroutines agree with the shared fields about where the upgrade stands. */
  predicate Shape(s: System) {
    && s.blocked !! s.woken
    && (s.sh.wsBound <==> s.upgrader.Switched? || s.upgrader.Live?)
    && (s.sh.upgrading <==> s.upgrader.Probing?)
    && (s.writer.Unstarted? <==> !s.upgrader.Live?)
    && (s.writer.Writing? ==> s.writer.rest != [])
    && (s.sh.wsToken ==> s.sh.wsBound)
  }

  lemma FlatSnoc(bs: seq<Batch>, b: Batch)
    ensures Flat(bs + [b]) == Flat(bs) + b.packets
    ensures forall t :: FlatBy(bs + [b], t) == FlatBy(bs, t) + if b.taker == t then b.packets else []
  {
    assert (bs + [b])[..|bs|] == bs;
  }

  lemma AnswersSnoc(answers: seq<Answer>, a: Answer)
    ensures FlatAnswers(answers + [a]) == FlatAnswers(answers) + Without(a)
  {
    assert (answers + [a])[..|answers|] == answers;
  }

  lemma PayloadsSnoc(fs: seq<Frame>, f: Frame)
    ensures Payloads(fs + [f]) == Payloads(fs) + if f.Payload? then [f.p] else []
  {
    assert (fs + [f])[..|fs|] == fs;
  }

  /** A step accepts one packet, or empties the buffer into one batch, or moves no packet. */
  lemma StepMovesPackets(s: System, a: Action)
    ensures var t := Step(s, a);
            || (t.accepted == s.accepted && t.batches == s.batches && t.sh.buffer == s.sh.buffer)
            || (a.Offer? && t.accepted == s.accepted + [a.p] && t.batches == s.batches
               && t.sh.buffer == s.sh.buffer + [a.p])
            || (t.accepted == s.accepted && t.sh.buffer == []
                && t.batches == s.batches
                   + [Batch(if a.WriterTakes? then ByWriter else ByPoll, s.sh.buffer, s.sh.upgrading)])
  {
  }

  lemma StepKeepsHandOver(s: System, a: Action)
    requires HandedOver(s)
    ensures HandedOver(Step(s, a))
  {
    StepMovesPackets(s, a);
    var t := Step(s, a);
    if t.batches != s.batches {
      FlatSnoc(s.batches, t.batches[|s.batches|]);
      assert Flat(s.batches) + s.sh.buffer + [] == s.accepted;
    } else if t.accepted != s.accepted {
      assert Flat(s.batches) + (s.sh.buffer + [a.p]) == Flat(s.batches) + s.sh.buffer + [a.p];
    }
  }

  /** A step answers no poll and takes no batch for one, or answers one with the buffer it takes, or lets one give
      up. */
  lemma StepAnswers(s: System, a: Action)
    ensures var t := Step(s, a);
            var id := if a.Poll? || a.Resume? || a.GiveUp? then a.id else 0;
            || (t.answers == s.answers && (t.batches == s.batches || a.WriterTakes?))
            || (t.answers == s.answers + [Answer(id, [], false)] && t.batches == s.batches)
            || (t.answers == s.answers + [Answer(id, s.sh.buffer + if s.sh.upgrading then [Packet('6', "")] else [],
                                                 s.sh.upgrading)]
                && t.batches == s.batches + [Batch(ByPoll, s.sh.buffer, s.sh.upgrading)])
  {
    assert s.sh.buffer + [] == s.sh.buffer;
  }

  lemma StepKeepsAnswers(s: System, a: Action)
    requires AnsweredFully(s)
    ensures AnsweredFully(Step(s, a))
  {
    hide Step, FlatBy, FlatAnswers;
    StepAnswers(s, a);
    StepMovesPackets(s, a);
    var t := Step(s, a);
    if t.batches != s.batches {
      FlatSnoc(s.batches, t.batches[|s.batches|]);
    }
    if t.answers != s.answers {
      AnswersSnoc(s.answers, t.answers[|s.answers|]);
    }
  }

  lemma StepKeepsShape(s: System, a: Action)
    requires Shape(s)
    ensures Shape(Step(s, a))
  {
  }

  lemma StepFrames(s: System, a: Action)
    ensures var t := Step(s, a);
            t.frames == s.frames
            || (a.WriteOk? && s.writer.Writing? && s.writer.rest != []
                && t.frames == s.frames + [Payload(s.writer.rest[0])])
            || (!a.WriteOk? && exists p :: t.frames == s.frames + [Control(p)])
    ensures a.WriteOk? && s.writer.Writing? && s.writer.rest != [] ==>
              Step(s, a).frames == s.frames + [Payload(s.writer.rest[0])]
  {
    hide AfterWrite, Response;
  }

  lemma StepTakes(s: System, a: Action)
    ensures a.WriterTakes? && s.writer.Roused? <==> a.WriterTakes? && Step(s, a).batches != s.batches
  {
    hide AfterWrite, Response;
  }

  lemma StepWrites(s: System, a: Action)
    ensures var t := Step(s, a);
            && Payloads(t.frames) == Payloads(s.frames) +
                 (if a.WriteOk? && s.writer.Writing? && s.writer.rest != [] then [s.writer.rest[0]] else [])
            && FlatBy(t.batches, ByWriter) == FlatBy(s.batches, ByWriter) +
                 (if a.WriterTakes? && s.writer.Roused? then s.sh.buffer else [])
  {
    hide Step, Payloads, FlatBy;
    var t := Step(s, a);
    StepMovesPackets(s, a);
    StepFrames(s, a);
    StepTakes(s, a);
    if t.batches != s.batches {
      FlatSnoc(s.batches, t.batches[|s.batches|]);
    }
    if t.frames != s.frames {
      PayloadsSnoc(s.frames, t.frames[|s.frames|]);
    }
    assert Payloads(s.frames) + [] == Payloads(s.frames)
           && FlatBy(s.batches, ByWriter) + [] == FlatBy(s.batches, ByWriter);
  }

  /** The write loop's own steps; every other step leaves it where it is or starts it. */
  predicate Moves(w: Writer, w': Writer, out: seq<Packet>, out': seq<Packet>, owed: seq<Packet>, owed': seq<Packet>,
                  closed': bool, took: seq<Packet>)
  {
    || (w' == w && out' == out && owed' == owed)
    || (w.Roused? && w' == AfterWrite(took) && out' == out && owed' == owed + took)
    || (w.Writing? && w.rest != [] && w' == AfterWrite(w.rest[1..]) && out' == out + [w.rest[0]] && owed' == owed)
    || (out' == out && owed' == owed && match w
                                        case Unstarted => w'.Selecting?
                                        case Selecting => w'.Roused? || w'.Broken? || (w'.Stopped? && closed')
                                        case Writing(_) => w'.Broken?
                                        case Broken => w'.Stopped? && closed'
                                        case _ => false)
  }

  lemma MovesKeepProgress(w: Writer, w': Writer, out: seq<Packet>, out': seq<Packet>, owed: seq<Packet>,
                          owed': seq<Packet>,
                          closed: bool, closed': bool, took: seq<Packet>)
    requires Progress(w, out, owed, closed) && (closed ==> closed')
    requires Moves(w, w', out, out', owed, owed', closed', took)
    ensures Progress(w', out', owed', closed')
  {
    if w.Writing? && w.rest != [] {
      assert out + [w.rest[0]] + w.rest[1..] == out + w.rest;
    }
  }

  lemma StepMoves(s: System, a: Action)
    requires Shape(s)
    ensures var t := Step(s, a);
            && (s.sh.closed ==> t.sh.closed)
            && Moves(s.writer, t.writer, Payloads(s.frames), Payloads(t.frames), FlatBy(s.batches, ByWriter),
                     FlatBy(t.batches, ByWriter), t.sh.closed, s.sh.buffer)
  {
    hide Payloads, FlatBy;
    StepWrites(s, a);
    assert Payloads(s.frames) + [] == Payloads(s.frames)
           && FlatBy(s.batches, ByWriter) + [] == FlatBy(s.batches, ByWriter);
  }

  lemma StepKeepsWritten(s: System, a: Action)
    requires Shape(s) && Written(s)
    ensures Written(Step(s, a))
  {
    hide Step, Moves, Progress, Payloads, FlatBy, Shape;
    StepMoves(s, a);
    var t := Step(s, a);
    MovesKeepProgress(s.writer, t.writer, Payloads(s.frames), Payloads(t.frames), FlatBy(s.batches, ByWriter),
                      FlatBy(t.batches, ByWriter), s.sh.closed, t.sh.closed, s.sh.buffer);
  }

  lemma StepKeepsWakeUp(s: System, a: Action)
    requires Shape(s) && WakeUpPending(s)
    requires a.BindFresh? ==> s.sh.buffer == []
    ensures WakeUpPending(Step(s, a))
  {
    if a.Wake? && a.id in s.blocked && s.sh.recvToken {
      assert a.id in Step(s, a).woken;
    }
  }

  // ---- main results, over every run ----

  /** The batches taken under the lock, in lock order, followed by what is still buffered, are exactly the
      accepted packets in order: no interleaving of sends, polls, the upgrade, the write loop and close
      loses, repeats or reorders one. */
  lemma {:induction false} ExactlyOnceInOrder(s: System, acts: seq<Action>)
    requires HandedOver(s)
    ensures HandedOver(Run(s, acts))
    decreases acts
  {
    if acts != [] {
      StepKeepsHandOver(s, acts[0]);
      ExactlyOnceInOrder(Step(s, acts[0]), acts[1..]);
    }
  }

  /** In every run the polls were answered, in lock order, with exactly the packets they took from the buffer; the only
      thing ever added is the NOOP of an upgrade in progress. */
  lemma {:induction false} AnswersInEveryRun(s: System, acts: seq<Action>)
    requires AnsweredFully(s)
    ensures AnsweredFully(Run(s, acts))
    decreases acts
  {
    if acts != [] {
      StepKeepsAnswers(s, acts[0]);
      AnswersInEveryRun(Step(s, acts[0]), acts[1..]);
    }
  }

  /** The Drain calls that a run starts. */
  function Started(s: System, acts: seq<Action>): nat
    decreases acts
  {
    if acts == [] then 0
    else (if acts[0].Poll? && acts[0].id !in s.blocked + s.woken then 1 else 0) + Started(Step(s, acts[0]), acts[1..])
  }

  /** Every Drain call of a run returns once or is still waiting. */
  lemma {:induction false} EveryPollReturnsOnce(s: System, acts: seq<Action>)
    requires s.blocked !! s.woken
    ensures var t := Run(s, acts);
            && t.blocked !! t.woken
            && |t.answers| + |t.blocked| + |t.woken| == |s.answers| + |s.blocked| + |s.woken| + Started(s, acts)
    decreases acts
  {
    if acts != [] {
      StepReturns(s, acts[0]);
      EveryPollReturnsOnce(Step(s, acts[0]), acts[1..]);
    }
  }

  lemma StepReturns(s: System, a: Action)
    requires s.blocked !! s.woken
    ensures var t := Step(s, a);
            && t.blocked !! t.woken
            && |t.answers| + |t.blocked| + |t.woken| == |s.answers| + |s.blocked| + |s.woken| +
                 if a.Poll? && a.id !in s.blocked + s.woken then 1 else 0
  {
    hide Step, Response;
    StepPolls(s, a);
  }

  /** What a step does to the polls. */
  lemma StepPolls(s: System, a: Action)
    ensures var t := Step(s, a);
            match a
               case Poll(id) =>
                 if id in s.blocked + s.woken then t == s
                 else t.woken == s.woken && if |t.answers| == |s.answers| then t.blocked == s.blocked + {id}
                                            else t.blocked == s.blocked && |t.answers| == |s.answers| + 1
               case Wake(id) =>
                 |t.answers| == |s.answers|
                 && if id in s.blocked && s.sh.recvToken
                    then t.blocked == s.blocked - {id} && t.woken == s.woken + {id}
                    else t.blocked == s.blocked && t.woken == s.woken
               case Resume(id) =>
                 t.blocked == s.blocked && t.woken == s.woken - {id}
                 && |t.answers| == |s.answers| + if id in s.woken then 1 else 0
               case GiveUp(id) =>
                 t.woken == s.woken && t.blocked == s.blocked - {id}
                 && |t.answers| == |s.answers| + if id in s.blocked then 1 else 0
               case _ => t.blocked == s.blocked && t.woken == s.woken && t.answers == s.answers
  {
    hide Response, AfterWrite;
  }

  /** The packets offered while the session was open. */
  function Offered(s: System, acts: seq<Action>): seq<Packet>
    decreases acts
  {
    if acts == [] then []
    else (if acts[0].Offer? && !s.sh.closed then [acts[0].p] else []) + Offered(Step(s, acts[0]), acts[1..])
  }

  /** The accepted packets are those, in order, and nothing else. */
  lemma {:induction false} AcceptsWhileOpen(s: System, acts: seq<Action>)
    ensures Run(s, acts).accepted == s.accepted + Offered(s, acts)
    decreases acts
  {
    hide Step;
    if acts != [] {
      StepAccepts(s, acts[0]);
      AcceptsWhileOpen(Step(s, acts[0]), acts[1..]);
    }
  }

  lemma StepAccepts(s: System, a: Action)
    ensures Step(s, a).accepted == s.accepted + if a.Offer? && !s.sh.closed then [a.p] else []
  {
  }

  /** What reached the WebSocket is a prefix of the write loop's batches in order, and only the unwritten tail
      of its current batch is missing unless a write failed or the loop saw the close. */
  lemma {:induction false} WebSocketInOrder(s: System, acts: seq<Action>)
    requires Shape(s) && Written(s)
    ensures Shape(Run(s, acts)) && Written(Run(s, acts))
    decreases acts
  {
    if acts != [] {
      StepKeepsShape(s, acts[0]);
      StepKeepsWritten(s, acts[0]);
      WebSocketInOrder(Step(s, acts[0]), acts[1..]);
    }
  }

  /** Every BindWebSocket of the run finds an empty buffer. */
  predicate BindsEmpty(s: System, acts: seq<Action>)
    decreases acts
  {
    acts == [] || ((acts[0].BindFresh? ==> s.sh.buffer == []) && BindsEmpty(Step(s, acts[0]), acts[1..]))
  }

  lemma {:induction false} NoLostWakeUp(s: System, acts: seq<Action>)
    requires Shape(s) && WakeUpPending(s) && BindsEmpty(s, acts)
    ensures Shape(Run(s, acts)) && WakeUpPending(Run(s, acts))
    decreases acts
  {
    if acts != [] {
      StepKeepsShape(s, acts[0]);
      StepKeepsWakeUp(s, acts[0]);
      NoLostWakeUp(Step(s, acts[0]), acts[1..]);
    }
  }

  /** All of these from the session's creation on. */
  lemma FromTheStart(acts: seq<Action>)
    ensures HandedOver(Run(Start, acts)) && Shape(Run(Start, acts)) && Written(Run(Start, acts))
    ensures Controls(Run(Start, acts))
    ensures AnsweredFully(Run(Start, acts)) && Run(Start, acts).accepted == Offered(Start, acts)
    ensures BindsEmpty(Start, acts) ==> WakeUpPending(Run(Start, acts))
  {
    ExactlyOnceInOrder(Start, acts);
    AnswersInEveryRun(Start, acts);
    AcceptsWhileOpen(Start, acts);
    WebSocketInOrder(Start, acts);
    ControlsInEveryRun(Start, acts);
    if BindsEmpty(Start, acts) {
      NoLostWakeUp(Start, acts);
    }
  }

  /** BindWebSocket signals nothing, so it keeps the wake-up promise of an open session
      exactly when the buffer it finds is empty. */
  lemma BindNeedsEmptyBuffer(s: System)
    requires Shape(s) && s.upgrader.Idle? && !s.sh.closed
    ensures WakeUpPending(Step(s, BindFresh)) <==> s.sh.buffer == []
  {
  }

  /** A packet sent before the bind is stranded: nothing the write loop can do by itself delivers it. */
  lemma BoundTooLate(p: Packet)
    ensures var s := Run(Start, [Offer(p), BindFresh]);
            s.sh.buffer == [p] && Step(s, Rouse) == s && Step(s, WriterTakes) == s
  {
    assert [Offer(p), BindFresh][1..] == [BindFresh];
    assert Run(Start, [Offer(p), BindFresh]) == Run(Step(Start, Offer(p)), [BindFresh]);
    assert Run(Step(Start, Offer(p)), [BindFresh]) == Step(Step(Start, Offer(p)), BindFresh);
  }

  /** The actions hand the whole buffer to the transport's own consumer in one batch. */
  predicate Delivers(s: System, acts: seq<Action>) {
    var t := Run(s, acts);
    var taker := if s.sh.wsBound then ByWriter else ByPoll;
    t.sh.buffer == [] && t.batches == s.batches + [Batch(taker, s.sh.buffer, s.sh.upgrading)]
  }

  /** Whenever a promise is due and a consumer is in its select, at most two steps of that consumer
      hand the whole buffer over. */
  lemma WaitingConsumerGetsTheBuffer(s: System) returns (acts: seq<Action>)
    requires Shape(s) && WakeUpPending(s) && !s.sh.closed && s.sh.buffer != []
    requires if s.sh.wsBound then s.writer.Selecting? || s.writer.Roused? else s.blocked + s.woken != {}
    ensures |acts| <= 2 && (forall a :: a in acts ==> a.Wake? || a.Resume? || a.Rouse? || a.WriterTakes?)
    ensures Delivers(s, acts)
  {
    if s.sh.wsBound {
      if s.writer.Roused? {
        acts := [WriterTakes];
        Run1(s, WriterTakes);
      } else {
        acts := [Rouse, WriterTakes];
        Run2(s, Rouse, WriterTakes);
      }
    } else if s.woken != {} {
      var id :| id in s.woken;
      acts := [Resume(id)];
      Run1(s, Resume(id));
    } else {
      var id :| id in s.blocked;
      acts := [Wake(id), Resume(id)];
      Run2(s, Wake(id), Resume(id));
    }
  }

  lemma Run1(s: System, a: Action)
    ensures Run(s, [a]) == Step(s, a)
  {
    assert Run(s, [a]) == Run(Step(s, a), [a][1..]);
  }

  lemma Run2(s: System, a: Action, b: Action)
    ensures Run(s, [a, b]) == Step(Step(s, a), b)
  {
    assert [a, b][1..] == [b];
    Run1(Step(s, a), b);
  }

  /** Besides payloads the WebSocket carries pings, and a close packet as the very last frame. */
  ghost predicate Controls(s: System) {
    forall i :: 0 <= i < |s.frames| && s.frames[i].Control? ==>
                  || s.frames[i].p == Packet('2', "")
                  || (s.frames[i].p == Packet('1', "") && i == |s.frames| - 1 && s.writer.Stopped?)
  }

  lemma {:induction false} ControlsInEveryRun(s: System, acts: seq<Action>)
    requires Shape(s) && Controls(s)
    ensures Controls(Run(s, acts))
    decreases acts
  {
    hide Controls, Step;
    if acts != [] {
      StepKeepsShape(s, acts[0]);
      StepKeepsControls(s, acts[0]);
      ControlsInEveryRun(Step(s, acts[0]), acts[1..]);
    }
  }

  lemma StepKeepsControls(s: System, a: Action)
    requires Shape(s) && Controls(s)
    ensures Controls(Step(s, a))
  {
    hide AfterWrite, Response;
    if s.writer.Stopped? {
      assert Step(s, a).frames == s.frames && Step(s, a).writer == s.writer;
    }
  }

  function ControlFrames(fs: seq<Frame>): seq<Packet> {
    if fs == [] then []
    else
      var last := fs[|fs| - 1];
      ControlFrames(fs[..|fs| - 1]) + if last.Control? then [last.p] else []
  }

  /** The pings due while the write loop waits, and the close packet once it sees the close. */
  function ControlsDue(s: System, acts: seq<Action>): seq<Packet>
    decreases acts
  {
    if acts == [] then []
    else
      (if acts[0].PingOk? && s.writer.Selecting? then [Packet('2', "")]
       else if acts[0].NoticeClose? && s.writer.Selecting? && s.sh.closed then [Packet('1', "")]
       else [])
      + ControlsDue(Step(s, acts[0]), acts[1..])
  }

  /** Exactly these are written besides the payloads. */
  lemma {:induction false} ControlsExactly(s: System, acts: seq<Action>)
    ensures ControlFrames(Run(s, acts).frames) == ControlFrames(s.frames) + ControlsDue(s, acts)
    decreases acts
  {
    hide Step;
    if acts != [] {
      StepControls(s, acts[0]);
      ControlsExactly(Step(s, acts[0]), acts[1..]);
    }
  }

  lemma StepControls(s: System, a: Action)
    ensures ControlFrames(Step(s, a).frames) == ControlFrames(s.frames) +
              if a.PingOk? && s.writer.Selecting? then [Packet('2', "")]
              else if a.NoticeClose? && s.writer.Selecting? && s.sh.closed then [Packet('1', "")]
              else []
  {
    hide AfterWrite, Response;
    var t := Step(s, a);
    if t.frames != s.frames {
      assert t.frames[..|s.frames|] == s.frames;
    }
    assert ControlFrames(s.frames) + [] == ControlFrames(s.frames);
  }

  // ---- leaving a closed session ----

  /** Steps that a poll or the write loop takes by itself. */
  predicate OwnSteps(acts: seq<Action>) {
    forall a :: a in acts ==> !a.Offer? && !a.Poll? && !a.BindFresh? && !a.BeginProbe? && !a.AbortProbe?
                              && !a.CompleteProbe? && !a.SignalPolls? && !a.CloseSession?
  }

  lemma OwnStepsJoin(s: System, a: seq<Action>, b: seq<Action>)
    requires OwnSteps(a) && OwnSteps(b)
    ensures OwnSteps(a + b) && Run(s, a + b) == Run(Run(s, a), b)
  {
    RunAppend(s, a, b);
  }

  /** After the close every waiting poll and the write loop can leave by themselves, and a write loop that was waiting
      announces the close. */
  lemma EveryoneLeaves(s: System) returns (acts: seq<Action>)
    requires Shape(s) && s.sh.closed
    ensures OwnSteps(acts)
    ensures var t := Run(s, acts);
            && t.blocked == {} && t.woken == {} && (t.writer.Unstarted? || t.writer.Stopped?)
            && (s.writer.Selecting? ==> ControlFrames(t.frames) == ControlFrames(s.frames) + [Packet('1', "")])
  {
    var first := PollsLeave(s);
    var t := Run(s, first);
    var last := WriterLeaves(t);
    acts := first + last;
    OwnStepsJoin(s, first, last);
  }

  lemma {:induction false} PollsLeave(s: System) returns (acts: seq<Action>)
    requires s.sh.closed
    ensures OwnSteps(acts)
    ensures var t := Run(s, acts);
            t.blocked == {} && t.woken == {} && t.sh.closed && t.writer == s.writer && t.frames == s.frames
    decreases |s.blocked| + |s.woken|
  {
    if s.blocked == {} && s.woken == {} {
      acts := [];
    } else {
      var a: Action;
      if s.woken != {} {
        var id :| id in s.woken;
        a := Resume(id);
        assert Step(s, a).woken == s.woken - {id} && |s.woken - {id}| < |s.woken|;
      } else {
        var id :| id in s.blocked;
        a := GiveUp(id);
        assert Step(s, a).blocked == s.blocked - {id} && |s.blocked - {id}| < |s.blocked|;
      }
      var rest := PollsLeave(Step(s, a));
      acts := [a] + rest;
      assert acts[1..] == rest;
    }
  }

  /** Where the write loop's steps lead after a close. */
  lemma WriterStops(s: System)
    requires s.sh.closed
    ensures s.writer.Selecting? ==> Step(s, NoticeClose).writer.Stopped?
    ensures s.writer.Roused? ==> var t := Step(s, WriterTakes); t.writer.Selecting? || t.writer.Writing?
    ensures s.writer.Writing? ==> Step(s, WriteFails).writer.Broken?
    ensures s.writer.Broken? ==> Step(s, FailedCloses).writer.Stopped?
    ensures forall a :: a == NoticeClose || a == WriterTakes || a == WriteFails || a == FailedCloses ==>
              var t := Step(s, a); t.blocked == s.blocked && t.woken == s.woken && t.sh.closed
  {
  }

  lemma WriterLeaves(s: System) returns (acts: seq<Action>)
    requires s.sh.closed
    ensures OwnSteps(acts)
    ensures var t := Run(s, acts);
            && (t.writer.Unstarted? || t.writer.Stopped?) && t.blocked == s.blocked && t.woken == s.woken
            && (s.writer.Selecting? ==> ControlFrames(t.frames) == ControlFrames(s.frames) + [Packet('1', "")])
  {
    hide Step, ControlFrames;
    WriterStops(s);
    match s.writer
    case Selecting =>
      acts := [NoticeClose];
      Run1(s, NoticeClose);
      StepControls(s, NoticeClose);
    case Roused =>
      WriterStops(Step(s, WriterTakes));
      WriterStops(Step(Step(s, WriterTakes), WriteFails));
      var t := Step(s, WriterTakes);
      if t.writer.Selecting? {
        acts := [WriterTakes, NoticeClose];
        Run2(s, WriterTakes, NoticeClose);
      } else {
        acts := [WriterTakes] + [WriteFails, FailedCloses];
        Run1(s, WriterTakes);
        Run2(t, WriteFails, FailedCloses);
        RunAppend(s, [WriterTakes], [WriteFails, FailedCloses]);
      }
    case Writing(_) =>
      WriterStops(Step(s, WriteFails));
      acts := [WriteFails, FailedCloses];
      Run2(s, WriteFails, FailedCloses);
    case Broken =>
      acts := [FailedCloses];
      Run1(s, FailedCloses);
    case _ => acts := [];
  }

  /** A close is a close, whoever asks for it. */
  lemma ClosesForGood(s: System, a: Action)
    ensures Step(s, CloseSession).sh.closed && (s.writer.Broken? ==> Step(s, FailedCloses).sh.closed)
    ensures s.sh.closed ==> Step(s, a).sh.closed
  {
  }

  // ---- after the switch ----

  /** The switch hands what is buffered to the write loop, and its last signal lets one more waiting poll return. */
  lemma SwitchReleasesAPoll(s: System, id: nat)
    requires Shape(s) && s.upgrader.Switched? && id in s.blocked
    ensures Run(s, [SignalPolls] + [Wake(id), Resume(id)]).answers == s.answers + [Answer(id, s.sh.buffer, false)]
  {
    var t := Step(s, SignalPolls);
    Run1(s, SignalPolls);
    Run2(t, Wake(id), Resume(id));
    RunAppend(s, [SignalPolls], [Wake(id), Resume(id)]);
  }

  /** A token rouses the write loop once. */
  lemma TokenIsSpent(s: System)
    requires s.writer.Selecting? && s.sh.wsToken
    ensures var t := Step(s, Rouse); t.writer.Roused? && !t.sh.wsToken && Step(t, Rouse) == t
    ensures var t := Step(Step(s, Rouse), WriterTakes);
            t.sh.buffer == [] && (s.sh.buffer == [] ==> t.writer.Selecting? && Step(t, Rouse) == t)
  {
  }

  // ---- releasing the polls at the start of an upgrade ----

  /** Steps of the polls alone, without a timeout. */
  predicate PollSteps(acts: seq<Action>) {
    forall a :: a in acts ==> a.Wake? || a.Resume?
  }

  /** How many waiting polls the tokens in the system can still release. */
  function Releasable(s: System): nat {
    |s.woken| + if s.sh.recvToken then 1 else 0
  }

  lemma {:induction false} PollStepsSpendTokens(s: System, acts: seq<Action>)
    requires PollSteps(acts) && s.blocked !! s.woken
    ensures var t := Run(s, acts);
            |t.blocked + t.woken| - Releasable(t) == |s.blocked + s.woken| - Releasable(s)
    decreases acts
  {
    if acts != [] {
      var t := Step(s, acts[0]);
      if acts[0].Wake? && t != s {
        assert t.blocked + t.woken == s.blocked + s.woken;
      } else if acts[0].Resume? && t != s {
        assert t.blocked + t.woken == (s.blocked + s.woken) - {acts[0].id};
      }
      PollStepsSpendTokens(t, acts[1..]);
    }
  }

  /** The polls that have their token resume one after the other. */
  lemma {:induction false} ResumeAll(s: System) returns (acts: seq<Action>)
    requires s.blocked !! s.woken
    ensures PollSteps(acts)
    ensures var t := Run(s, acts); t.woken == {} && t.blocked == s.blocked && t.sh.recvToken == s.sh.recvToken
    decreases |s.woken|
  {
    if s.woken == {} {
      acts := [];
    } else {
      var id :| id in s.woken;
      var t := Step(s, Resume(id));
      assert t.woken == s.woken - {id};
      var rest := ResumeAll(t);
      acts := [Resume(id)] + rest;
      assert acts[1..] == rest;
    }
  }

  lemma {:induction false} RunAppend(s: System, a: seq<Action>, b: seq<Action>)
    ensures Run(s, a + b) == Run(Run(s, a), b)
    decreases a
  {
    if a == [] {
      assert a + b == b;
    } else {
      assert (a + b)[1..] == a[1..] + b;
      RunAppend(Step(s, a[0]), a[1..], b);
    }
  }

  /** With a token and at most one blocked poll, the polls can all leave. */
  lemma AllLeave(s: System) returns (acts: seq<Action>)
    requires s.blocked !! s.woken && s.sh.recvToken && |s.blocked| <= 1
    ensures PollSteps(acts) && Run(s, acts).blocked + Run(s, acts).woken == {}
  {
    var first := ResumeAll(s);
    var t := Run(s, first);
    if |s.blocked| == 0 {
      acts := first;
    } else {
      var id :| id in s.blocked;
      assert |s.blocked - {id}| == 0;
      Run2(t, Wake(id), Resume(id));
      acts := first + [Wake(id), Resume(id)];
      RunAppend(s, first, [Wake(id), Resume(id)]);
    }
  }

  /** StartUpgrade is meant to release the pending polls with a NOOP. Its single token does so, without any
      further signal or timeout, exactly when at most one poll is still waiting for a token. */
  lemma UpgradeReleasesOnePoll(s: System)
    requires Shape(s) && s.upgrader.Idle?
    ensures (exists acts :: PollSteps(acts) && var t := Run(Step(s, BeginProbe), acts); t.blocked + t.woken == {})
            <==> |s.blocked| <= 1
  {
    var u := Step(s, BeginProbe);
    if |s.blocked| <= 1 {
      var acts := AllLeave(u);
    } else {
      forall acts | PollSteps(acts) ensures var t := Run(u, acts); t.blocked + t.woken != {} {
        PollStepsSpendTokens(u, acts);
        assert |u.blocked + u.woken| == |u.blocked| + |u.woken|;
      }
    }
  }

  /** A poll answered while the upgrade is in progress never leaves empty-handed: it carries the NOOP. */
  lemma UpgradeAnswersCarryNoop(s: System, id: nat)
    requires Shape(s) && s.upgrader.Probing? && id !in s.blocked
    ensures var t := Step(s, if id in s.woken then Resume(id) else Poll(id));
            t.answers == s.answers + [Answer(id, s.sh.buffer + [Packet('6', "")], true)]
  {
  }
}
