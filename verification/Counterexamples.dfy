/** Concrete runs of the stack that show each of the limits proved elsewhere to be
    reached by input a host or a card can send. */
module Counterexamples {
  import opened Bytes
  import N = Nfc
  import opened CcidProtocol
  import opened FrameStream
  import opened CcidTransport
  import opened Packetisation
  import opened BulkInFraming
  import opened AbortHandshake
  import opened TransportRuns
  import opened NfcReader
  import EndToEnd
  import PseudoAtr
  import B = CcidBridge

  /* ------------------------------------------------------------ small steps */

  /** One whole command in one packet. */
  lemma SendCommand(t: Transport, c: Command)
    requires t.outBuffer == [] && FitsReader(c)
    ensures Serve(t, BulkOutPacket(HostFrame(c))) == Transport(OnCommand(t.core, c), [])
  {
    hide OnCommand, Interpret;
    var f := HostFrame(c);
    DecodeHostFrame(c);
    DecodeExactly(f);
    DeliverOne(t, f);
  }

  /** The parameters message of an untouched bridge. */
  function DefaultParameters(b: B.Bridge, seqNum: byte): Response {
    Parameters(0, seqNum, Ok(B.Icc(b)), 0, B.T1_PROTOCOL_NUM, B.DEFAULT_T1_PARAMETERS)
  }

  lemma AskForParameters(c: Core, seqNum: byte)
    requires c.controlAbort.None?
    requires c.bridge.protocolNum == B.T1_PROTOCOL_NUM && c.bridge.parameters == B.DEFAULT_T1_PARAMETERS
    ensures OnCommand(c, GetParameters(0, seqNum)) ==
            Respond(c.(bulkAbort := None), DefaultParameters(c.bridge, seqNum), c.bridge)
  {
    hide Respond;
  }

  /* ------------------------------------------------ responses that get lost */

  function Enquiries(n: nat): (cs: seq<Command>)
    requires n <= 0x100
    ensures |cs| == n
  {
    seq(n, i requires 0 <= i < n => GetParameters(0, i))
  }

  lemma EnquiriesAre(n: nat)
    requires n <= 0x100
    ensures forall i :: 0 <= i < n ==> Enquiries(n)[i] == GetParameters(0, i) && FitsReader(Enquiries(n)[i])
  {
    forall i | 0 <= i < n ensures FitsReader(Enquiries(n)[i]) {
      assert Enquiries(n)[i] == GetParameters(0, i);
    }
  }

  lemma {:induction false} EnquiriesAnswered(b: B.Bridge, cs: seq<Command>)
    requires forall i :: 0 <= i < |cs| ==> cs[i].GetParameters?
    ensures |EndToEnd.Answers(b, cs)| == |cs|
    ensures forall i :: 0 <= i < |cs| ==> EndToEnd.Answers(b, cs)[i] == B.ParametersResponse(b, cs[i], false)
    decreases |cs|
  {
    if cs != [] {
      EnquiriesAnswered(b, cs[1..]);
    }
  }

  /** Overflow: of the answers to 33 enquiries numbered 0 to 32, sent in one packet to a
      freshly plugged reader, only the last is left for the host. */
  lemma ThirtyThreeEnquiries(reader: Reader)
    ensures var cs, t := Enquiries(33), Plugged(reader);
            && (forall i :: 0 <= i < |cs| ==> FitsReader(cs[i]))
            && BulkOut(t, Flatten(HostFrames(cs))).next.core.inFrames ==
                 [Encode(DefaultParameters(t.core.bridge, 32))]
  {
    hide HostFrame, HostFrames, BulkOut, Encode, EncodeEach, EndToEnd.Answers, EndToEnd.Queued, FitsReader, Enquiries;
    var cs, t := Enquiries(33), Plugged(reader);
    EnquiriesAre(33);
    EnquiriesInOnePacket(t, cs);
    EnquiriesAnswered(t.core.bridge, cs);
    EndToEnd.OverflowKeepsOne(t.core.bridge, cs);
    EndToEnd.EncodeEachAt(EndToEnd.Answers(t.core.bridge, cs));
  }

  lemma EnquiriesInOnePacket(t: Transport, cs: seq<Command>)
    requires EndToEnd.AtRest(t) && forall i :: 0 <= i < |cs| ==> FitsReader(cs[i])
    ensures BulkOut(t, Flatten(HostFrames(cs))).next.core.inFrames == EndToEnd.Queued(t.core.bridge, cs)
  {
    hide FitsReader, OnCommands, EndToEnd.Answers;
    var stream := Flatten(HostFrames(cs));
    var packets: seq<seq<byte>> := [stream];
    assert Flatten(packets) == stream;
    CommandsArrive(t, cs, packets);
    EndToEnd.AnswersQueued(t.core, cs);
    assert packets[..0] == [] && SendAll(t, packets[..0]) == t;
    assert SendAll(t, packets) == BulkOut(t, stream).next;
  }

  /** De-duplication: two enquiries under one number leave one answer. */
  lemma TwoEnquiriesOneAnswer(reader: Reader)
    ensures var cs, t := [GetParameters(0, 7), GetParameters(0, 7)], Plugged(reader);
            && FitsReader(cs[0])
            && BulkOut(t, Flatten(HostFrames(cs))).next.core.inFrames ==
                 [Encode(DefaultParameters(t.core.bridge, 7))]
  {
    var cs, t := [GetParameters(0, 7), GetParameters(0, 7)], Plugged(reader);
    forall i | 0 <= i < |cs| ensures FitsReader(cs[i]) {
    }
    EnquiriesInOnePacket(t, cs);
    EnquiriesAnswered(t.core.bridge, cs);
    var rs := EndToEnd.Answers(t.core.bridge, cs);
    EndToEnd.EncodeEachAt(rs);
    var fs := EncodeEach(rs);
    hide Encode;
    assert fs[0] == fs[1];
    assert PushAll([], fs) == PushAll(PushFrame([], fs[0]), fs[1..]);
    assert PushAll([fs[0]], fs[1..]) == PushAll(PushFrame([fs[0]], fs[1]), fs[1..][1..]);
  }

  /** A swallowed response, with a card whose reply ends like a message of the reader:
      powered on, its reply half fetched, the answer to an enquiry is dropped. */
  function TrickyCard(): Reader {
    Scripted(Script("fake", [Success(Some(N.Card([], N.IsoDep, [])))], [],
                    [Success(Encode(Parameters(0, 3, Ok(Active), 0, 1, B.DEFAULT_T1_PARAMETERS)))]))
  }

  const TRICKY_RUN: seq<HostRequest> := [
    BulkOutPacket(HostFrame(IccPowerOn(0, 1, 0))),
    BulkInRequest(64),
    BulkOutPacket(HostFrame(XfrBlock(0, 2, 0, 0, [0x00, 0xa4]))),
    BulkInRequest(10),
    BulkOutPacket(HostFrame(GetParameters(0, 3)))
  ]

  lemma AnswerSwallowed()
    ensures var c := ServeAll(Plugged(TrickyCard()), TRICKY_RUN).core;
            var answer := Encode(Parameters(0, 3, Ok(Active), 0, 1, B.DEFAULT_T1_PARAMETERS));
            && |Offers(c.queueLog)| == 3 && Offers(c.queueLog)[2] == answer
            && Accepted(c.queueLog) == Offers(c.queueLog)[..2] && Offers(c.queueLog)[1] != answer
            && c.inFrames == [answer]
  {
    var atr := DataBlock(0, 1, Ok(Active), 0, 0, B.BuildPseudoAtr(N.Card([], N.IsoDep, [])));
    var r := Parameters(0, 3, Ok(Active), 0, 1, B.DEFAULT_T1_PARAMETERS);
    var block := DataBlock(0, 2, Ok(Active), 0, 0, Encode(r));
    TrickyStates(atr, r, block);
    var a, h, f := Encode(atr), Encode(block), Encode(r);
    var log := [Offered(a), Fetched(64), Offered(h), Fetched(10), Offered(f)];
    TrickyLengths(atr, r, block);
    EncodedFields(r);
    EncodedFields(block);
    TrickyLog(a, h, f);
  }

  lemma OfferToEmpty(log: seq<QueueEvent>, f: seq<byte>)
    requires Replay(log).queue == []
    ensures var l := log + [Offered(f)];
            Replay(l).queue == [f] && Offers(l) == Offers(log) + [f] && Accepted(l) == Accepted(log) + [f]
  {
    hide Replay, Offers, Accepted;
    HistorySnoc(log, Offered(f));
  }

  lemma OfferRepeat(log: seq<QueueEvent>, f: seq<byte>)
    requires Replay(log).queue == [f]
    ensures var l := log + [Offered(f)];
            Replay(l).queue == [f] && Offers(l) == Offers(log) + [f] && Accepted(l) == Accepted(log)
  {
    hide Replay, Offers, Accepted;
    HistorySnoc(log, Offered(f));
  }

  lemma FetchOnly(log: seq<QueueEvent>, f: seq<byte>, m: nat)
    requires Replay(log).queue == [f] && m > 0
    ensures var l := log + [Fetched(m)];
            && Replay(l).queue == (if |f| < m then [] else [f[m..]])
            && Offers(l) == Offers(log) && Accepted(l) == Accepted(log)
  {
    hide Replay, Offers, Accepted, Fetch;
    HistorySnoc(log, Fetched(m));
    FetchHead(f, [], m);
    assert [f] + [] == [f];
    assert |f| >= m ==> [f[m..]] + [] == [f[m..]];
  }

  lemma TrickyLog(a: seq<byte>, h: seq<byte>, f: seq<byte>)
    requires 0 < |a| < 64 && |h| > 10 && h[10..] == f
    ensures var log := [Offered(a), Fetched(64), Offered(h), Fetched(10), Offered(f)];
            Offers(log) == [a, h, f] && Accepted(log) == [a, h]
  {
    hide Replay, Offers, Accepted, Fetch;
    EmptyHistory();
    var l1 := [] + [Offered(a)];
    var l2 := l1 + [Fetched(64)];
    var l3 := l2 + [Offered(h)];
    var l4 := l3 + [Fetched(10)];
    OfferToEmpty([], a);
    FetchOnly(l1, a, 64);
    OfferToEmpty(l2, h);
    FetchOnly(l3, h, 10);
    OfferRepeat(l4, f);
    assert l4 + [Offered(f)] == [Offered(a), Fetched(64), Offered(h), Fetched(10), Offered(f)];
  }

  lemma EmptyHistory()
    ensures Replay([]) == Line([], Host([], []), []) && Offers([]) == [] && Accepted([]) == []
  {
  }

  lemma FetchShort(t: Transport, f: seq<byte>, m: nat)
    requires t.core.inFrames == [f] && m > 0
    ensures var t1 := Serve(t, BulkInRequest(m));
            && t1 == t.(core := t.core.(inFrames := t1.core.inFrames, queueLog := t.core.queueLog + [Fetched(m)]))
            && t1.core.inFrames == (if |f| < m then [] else [f[m..]])
  {
    FetchHead(f, [], m);
    assert [f] + [] == [f];
    assert |f| >= m ==> [f[m..]] + [] == [f[m..]];
  }

  lemma TrickyStates(atr: Response, r: Response, block: Response)
    requires atr == DataBlock(0, 1, Ok(Active), 0, 0, B.BuildPseudoAtr(N.Card([], N.IsoDep, [])))
    requires r == Parameters(0, 3, Ok(Active), 0, 1, B.DEFAULT_T1_PARAMETERS)
    requires block == DataBlock(0, 2, Ok(Active), 0, 0, Encode(r))
    ensures var c := ServeAll(Plugged(TrickyCard()), TRICKY_RUN).core;
            && c.inFrames == [Encode(r)]
            && c.queueLog == [Offered(Encode(atr)), Fetched(64), Offered(Encode(block)), Fetched(10),
                              Offered(Encode(r))]
  {
    hide Encode, Serve, OnCommand, HostFrame, B.BuildPseudoAtr, TrickyCard;
    var t0 := Plugged(TrickyCard());
    TrickyAtRest();
    SendCommand(t0, IccPowerOn(0, 1, 0));
    PowerOnTricky(t0.core);
    TrickyLengths(atr, r, block);
    var t1 := Serve(t0, TRICKY_RUN[0]);
    FetchShort(t1, Encode(atr), 64);
    var t2 := Serve(t1, TRICKY_RUN[1]);
    SendCommand(t2, XfrBlock(0, 2, 0, 0, [0x00, 0xa4]));
    TransferTricky(t2.core);
    TrickyReply();
    var t3 := Serve(t2, TRICKY_RUN[2]);
    FetchShort(t3, Encode(block), 10);
    var t4 := Serve(t3, TRICKY_RUN[3]);
    SendCommand(t4, GetParameters(0, 3));
    AskForParameters(t4.core, 3);
    FiveRequests(t0, TRICKY_RUN);
  }

  lemma TrickyAtRest()
    ensures EndToEnd.AtRest(Plugged(TrickyCard()))
    ensures FitsReader(IccPowerOn(0, 1, 0)) && FitsReader(XfrBlock(0, 2, 0, 0, [0x00, 0xa4]))
    ensures FitsReader(GetParameters(0, 3))
  {
  }

  lemma TrickyReply()
    ensures TrickyCard().script.exchanges[0].value ==
            Encode(Parameters(0, 3, Ok(Active), 0, 1, B.DEFAULT_T1_PARAMETERS))
  {
  }

  lemma TrickyLengths(atr: Response, r: Response, block: Response)
    requires atr == DataBlock(0, 1, Ok(Active), 0, 0, B.BuildPseudoAtr(N.Card([], N.IsoDep, [])))
    requires block == DataBlock(0, 2, Ok(Active), 0, 0, Encode(r))
    ensures 0 < |Encode(atr)| < 64 && |Encode(block)| > 10 && Encode(block)[10..] == Encode(r)
  {
    hide Encode;
    EncodedFields(atr);
    EncodedFields(r);
    EncodedFields(block);
  }

  lemma FiveRequests(t: Transport, rs: seq<HostRequest>)
    requires |rs| == 5
    ensures ServeAll(t, rs) == Serve(Serve(Serve(Serve(Serve(t, rs[0]), rs[1]), rs[2]), rs[3]), rs[4])
  {
    hide Serve;
    assert rs[..4][..3] == rs[..3] && rs[..3][..2] == rs[..2] && rs[..2][..1] == rs[..1] && rs[..1][..0] == [];
    assert ServeAll(t, rs[..1]) == Serve(t, rs[0]);
    assert ServeAll(t, rs[..2]) == Serve(ServeAll(t, rs[..1]), rs[1]);
    assert ServeAll(t, rs[..3]) == Serve(ServeAll(t, rs[..2]), rs[2]);
    assert ServeAll(t, rs[..4]) == Serve(ServeAll(t, rs[..3]), rs[3]);
  }

  lemma PowerOnTricky(c: Core)
    requires c == Plugged(TrickyCard()).core
    ensures var card := N.Card([], N.IsoDep, []);
            var c1 := OnCommand(c, IccPowerOn(0, 1, 0));
            && c1.bridge.card == Some(card) && c1.bridge.powered && c1.controlAbort.None?
            && c1.bridge.reader == Scripted(TrickyCard().script.(polls := []))
            && c1.bridge.protocolNum == 1 && c1.bridge.parameters == B.DEFAULT_T1_PARAMETERS
            && c1.inFrames == [Encode(DataBlock(0, 1, Ok(Active), 0, 0, B.BuildPseudoAtr(card)))]
            && c1.queueLog == [Offered(c1.inFrames[0])]
  {
    hide Encode, B.BuildPseudoAtr;
  }

  lemma TransferTricky(c: Core)
    requires c.bridge.card.Some? && c.bridge.powered && c.controlAbort.None? && c.inFrames == []
    requires c.bridge.reader == Scripted(TrickyCard().script.(polls := []))
    ensures var c1 := OnCommand(c, XfrBlock(0, 2, 0, 0, [0x00, 0xa4]));
            var reply := TrickyCard().script.exchanges[0].value;
            && c1.inFrames == [Encode(DataBlock(0, 2, Ok(Active), 0, 0, reply))]
            && c1.queueLog == c.queueLog + [Offered(c1.inFrames[0])]
            && c1.bridge.card == c.bridge.card && c1.bridge.powered && c1.controlAbort.None?
            && c1.bridge.protocolNum == c.bridge.protocolNum && c1.bridge.parameters == c.bridge.parameters
  {
    hide Encode;
  }

  /* ------------------------------------------------ packet boundaries that matter */

  lemma OneFrame(t: Transport, c: Command)
    requires t.outBuffer == [] && FitsReader(c)
    ensures var f := HostFrame(c);
            && |f| >= 10 && WholeFrame(f) && Decode(f) == Success(c) && !Oversized(f)
            && Parse(t.outBuffer + f) == Parsed([f], []) && Parse(f) == Parsed([f], [])
  {
    hide Interpret;
    var f := HostFrame(c);
    DecodeHostFrame(c);
    DecodeExactly(f);
    ParseFrameFirst(f, []);
    assert t.outBuffer + f == f == f + [];
  }

  /** A command behind the bulk half of an awaited abort is handled when it comes in a
      packet of its own, and dropped when it shares the packet. */
  lemma BoundaryAfterAbort(reader: Reader)
    ensures var t := Serve(Plugged(reader), ControlRequest(0x21, CONTROL_ABORT, AbortValue(0, 7)));
            var a, b := HostFrame(Abort(0, 7)), HostFrame(GetParameters(0, 8));
            BulkOut(BulkOut(t, a).next, b).next != BulkOut(t, a + b).next
  {
    hide BulkOut, HostFrame, Parse, FrameLen, WholeFrame;
    var t := Serve(Plugged(reader), ControlRequest(0x21, CONTROL_ABORT, AbortValue(0, 7)));
    ControlAbortIs(Plugged(reader), 0, 7);
    var a, b := HostFrame(Abort(0, 7)), HostFrame(GetParameters(0, 8));
    ShortCommandsFit();
    OneFrame(t, Abort(0, 7));
    OneFrame(t, GetParameters(0, 8));
    assert CompletesFrame(t.core.controlAbort, [a][0]);
    PacketBoundaryExactly(t, a, b);
  }

  lemma ShortCommandsFit()
    ensures forall q: byte :: FitsReader(Abort(0, q)) && FitsReader(GetParameters(0, q))
  {
  }

  const OVERSIZED_HEADER: seq<byte> := [0x6f, 0xff, 0xff, 0xff, 0xff, 0x00, 0x01, 0x00, 0x00, 0x00]

  /** A command behind an oversized header likewise. */
  lemma BoundaryAfterOversizedHeader(reader: Reader)
    ensures var t, b := Plugged(reader), HostFrame(GetParameters(0, 8));
            BulkOut(BulkOut(t, OVERSIZED_HEADER).next, b).next != BulkOut(t, OVERSIZED_HEADER + b).next
  {
    hide BulkOut, HostFrame;
    var t, b := Plugged(reader), HostFrame(GetParameters(0, 8));
    ShortCommandsFit();
    OneFrame(t, GetParameters(0, 8));
    assert t.outBuffer + OVERSIZED_HEADER == OVERSIZED_HEADER;
    assert Parse(OVERSIZED_HEADER) == Parsed([], OVERSIZED_HEADER) && Oversized(OVERSIZED_HEADER);
    assert !BulkAbortFrame([b][0]);
    PacketBoundaryExactly(t, OVERSIZED_HEADER, b);
  }

  /* ------------------------------------------------ message boundaries that get lost */

  lemma EnquiryQueued(reader: Reader)
    ensures var t := Serve(Plugged(reader), BulkOutPacket(HostFrame(GetParameters(0, 1))));
            var f := Encode(DefaultParameters(B.Fresh(reader), 1));
            && |f| == 17
            && t.outBuffer == [] && t.core.inFrames == [f] && t.core.queueLog == [Offered(f)]
            && t.core.bulkAbort.None? && t.core.controlAbort.None?
  {
    hide Encode, HostFrame, OnCommand, Serve;
    ShortCommandsFit();
    SendCommand(Plugged(reader), GetParameters(0, 1));
    AskForParameters(Plugged(reader).core, 1);
    EncodedFields(DefaultParameters(B.Fresh(reader), 1));
  }

  /** An abort while a response is half fetched: the start of that response stays with
      the host, which takes the answer to the abort for its continuation. */
  lemma AbortMidMessage(reader: Reader)
    ensures var t1 := Serve(Plugged(reader), BulkOutPacket(HostFrame(GetParameters(0, 1))));
            var t2 := Serve(t1, BulkInRequest(5));
            var t3 := Serve(t2, ControlRequest(0x21, CONTROL_ABORT, AbortValue(0, 9)));
            var t4 := Serve(t3, BulkOutPacket(HostFrame(Abort(0, 9))));
            !InStep(Replay(t4.core.queueLog))
  {
    hide Encode, HostFrame, Serve, Replay, Parse;
    EnquiryQueued(reader);
    var f := Encode(DefaultParameters(B.Fresh(reader), 1));
    var t1 := Serve(Plugged(reader), BulkOutPacket(HostFrame(GetParameters(0, 1))));
    FetchShort(t1, f, 5);
    var t2 := Serve(t1, BulkInRequest(5));
    HalfFetched(f, 5);
    assert t2.core.queueLog == [Offered(f), Fetched(5)];
    ServeAbort(t2, 9);
    var g := Encode(B.Handle(t2.core.bridge, Abort(0, 9)).result);
    EncodedFields(B.Handle(t2.core.bridge, Abort(0, 9)).result);
    ClearedMidMessage(t2.core.queueLog, g);
  }

  /** Both halves of an abort, control first. */
  lemma ServeAbort(t: Transport, n: byte)
    requires t.outBuffer == [] && t.core.bulkAbort.None? && t.core.controlAbort.None?
    ensures var t1 := Serve(t, ControlRequest(0x21, CONTROL_ABORT, AbortValue(0, n)));
            var t2 := Serve(t1, BulkOutPacket(HostFrame(Abort(0, n))));
            t2.core.queueLog ==
            t.core.queueLog + [Cleared] + [Offered(Encode(B.Handle(t.core.bridge, Abort(0, n)).result))]
  {
    hide Encode, HostFrame, B.Handle, Ask, BulkOut;
    ShortCommandsFit();
    ControlAbortIs(t, 0, n);
    var t1 := ExpectAbort(t, 0, n);
    SendCommand(t1, Abort(0, n));
    AskLogged(ClearAborts(t1.core), Abort(0, n));
  }

  lemma HalfFetched(f: seq<byte>, m: nat)
    requires 0 < m <= |f|
    ensures var l := Replay([Offered(f), Fetched(m)]);
            l.queue == [f[m..]] && l.host == Host([], f[..m]) && l.kept == [f]
  {
    hide Replay, Fetch;
    EmptyHistory();
    HistorySnoc([], Offered(f));
    HistorySnoc([Offered(f)], Fetched(m));
    assert [] + [Offered(f)] == [Offered(f)];
    assert [Offered(f)] + [Fetched(m)] == [Offered(f), Fetched(m)];
    assert Replay([Offered(f)]).queue == [f] == [f] + [];
    FetchHead(f, [], m);
    assert [] + f[..m] == f[..m];
  }

  lemma ClearedMidMessage(log: seq<QueueEvent>, g: seq<byte>)
    requires Replay(log).host.partial != []
    ensures !InStep(Replay(log + [Cleared] + [Offered(g)]))
  {
    hide Replay;
    HistorySnoc(log, Cleared);
    HistorySnoc(log + [Cleared], Offered(g));
    var l := Replay(log + [Cleared] + [Offered(g)]);
    assert l.queue == [g] && l.kept == l.host.got + [g];
    assert Owed(l.queue, l.host) == [l.host.partial + g];
    assert |l.host.partial + g| != |g|;
    assert l.kept[|l.host.got|] != (l.host.got + Owed(l.queue, l.host))[|l.host.got|];
  }

  /** A request for no bytes while the empty last packet is due: the packet is gone, and
      the host waits for the end of a message that has none. */
  lemma EmptyPacketMissed(reader: Reader)
    ensures var t1 := Serve(Plugged(reader), BulkOutPacket(HostFrame(GetParameters(0, 1))));
            var t2 := Serve(t1, BulkInRequest(17));
            var t3 := Serve(t2, BulkInRequest(0));
            t3.core.inFrames == [] && !InStep(Replay(t3.core.queueLog))
  {
    hide Encode, HostFrame, Replay, BulkOut;
    EnquiryQueued(reader);
    var f := Encode(DefaultParameters(B.Fresh(reader), 1));
    var t1 := Serve(Plugged(reader), BulkOutPacket(HostFrame(GetParameters(0, 1))));
    FetchShort(t1, f, 17);
    HalfFetched(f, 17);
    assert f[17..] == [];
    var log := [Offered(f), Fetched(17)];
    HistorySnoc(log, Fetched(0));
    var t2 := Serve(t1, BulkInRequest(17));
    assert t2.core.queueLog == log;
    assert Fetch([[]], 0) == After([], []);
    var l := Replay(log + [Fetched(0)]);
    assert l.queue == [] && l.host.partial != [];
  }

  /* ------------------------------------------------ notifications that lag behind */

  const LATE_CARD: Reader := Scripted(Script("fake", [Success(Some(N.Card([], N.IsoDep, [])))], [], []))

  /** One command, then one poll that finds a card: the poll is answered with the
      notification the command left, which shows an empty slot. */
  lemma StaleNotice()
    ensures var t := Serve(Plugged(LATE_CARD), BulkOutPacket(HostFrame(GetParameters(0, 1))));
            var shown, t1 := Reply(t, InterruptPoll), Serve(t, InterruptPoll);
            && shown == Success([NOTIFY_SLOT_CHANGE, 0]) && !ShowsPresent(shown.value)
            && t1.core.slotPresent && t1.core.interrupts == [[NOTIFY_SLOT_CHANGE, 3]]
  {
    hide Encode, HostFrame, OnCommand, BulkOut, PushFrame;
    ShortCommandsFit();
    SendCommand(Plugged(LATE_CARD), GetParameters(0, 1));
    AskForParameters(Plugged(LATE_CARD).core, 1);
  }

  /* ------------------------------------------------ responses that misreport the slot */

  const UNREACHABLE: Reader := Scripted(Script("fake", [Failure(N.Io)], [], []))

  const STUBBORN: Reader :=
    Scripted(Script("fake", [Success(Some(N.Card([], N.IsoDep, [])))], [Failure(N.Io)], []))

  /** The four error branches, each reached from a fresh bridge: the slot is reported
      inactive while it is empty, or while it is active. */
  lemma FourMisreports()
    ensures forall c <- [IccPowerOn(0, 1, 0), GetSlotStatus(0, 1), XfrBlock(0, 1, 0, 0, [])] ::
              var a := B.Handle(B.Fresh(UNREACHABLE), c);
              a.result.status == Fail(Inactive) && B.Icc(a.next) == NotPresent
    ensures var a := B.Handle(B.Handle(B.Fresh(STUBBORN), IccPowerOn(0, 1, 0)).next, IccPowerOff(0, 2));
            a.result.status == Fail(Inactive) && B.Icc(a.next) == Active
  {
    hide B.BuildPseudoAtr;
  }

  /* ------------------------------------------------ aborts and ATRs */

  /** The bulk half of an abort for slot 5, coming first, is matched by the control half
      for slot 0; coming second it is refused. */
  lemma BulkSlotIgnoredWhenFirst(reader: Reader)
    ensures var t, frame := Plugged(reader), HostFrame(Abort(5, 7));
            var control := ControlRequest(0x21, CONTROL_ABORT, AbortValue(0, 7));
            var bulkFirst := Serve(Serve(t, BulkOutPacket(frame)), control).core;
            var controlFirst := Serve(Serve(t, control), BulkOutPacket(frame)).core;
            && bulkFirst.controlAbort.None? && bulkFirst.bulkAbort.None?
            && bulkFirst.inFrames == [Encode(SlotStatus(0, 7, Ok(NotPresent), 0, 0))]
            && controlFirst.controlAbort == Some(AbortId(0, 7))
            && controlFirst.inFrames == [Encode(SlotStatus(5, 7, Fail(NotPresent), 0xff, 0))]
  {
    hide Encode, HostFrame, BulkOut, Parse, FinishAbort;
    var t := Plugged(reader);
    assert FitsReader(Abort(5, 7)) by {
      FarAbortFits();
    }
    SendCommand(t, Abort(5, 7));
    ControlAbortIs(t, 0, 7);
    SendCommand(ExpectAbort(t, 0, 7), Abort(5, 7));
    ControlAbortIs(Serve(t, BulkOutPacket(HostFrame(Abort(5, 7)))), 0, 7);
    FinishAbortShape(t.core.(bulkAbort := Some(7)), 0, 7);
  }

  lemma FarAbortFits()
    ensures FitsReader(Abort(5, 7))
  {
  }

  /** The historical bytes that the repository's own dummy reader reports are an ATR. */
  lemma DummyAtrPassesThrough()
    ensures var h := [0x3b, 0x68, 0x00, 0xff, 0x38, 0x2b, 0x41, 0x52, 0x44, 0x6e, 0x73, 0x73];
            var atr := B.BuildPseudoAtr(N.Card([1, 2, 3, 4], N.IsoDep, h));
            atr == h && PseudoAtr.ParseAtr(atr) != Some(h)
  {
    var h: seq<byte> := [0x3b, 0x68, 0x00, 0xff, 0x38, 0x2b, 0x41, 0x52, 0x44, 0x6e, 0x73, 0x73];
    PseudoAtr.AtrRoundTripExactly(N.Card([1, 2, 3, 4], N.IsoDep, h));
  }
}
