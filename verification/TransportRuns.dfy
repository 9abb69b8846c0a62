/** Whole runs of the transport: what every sequence of host requests keeps. */
module TransportRuns {
  import opened Bytes
  import opened CcidProtocol
  import opened FrameStream
  import opened CcidTransport
  import opened BridgeRuns
  import B = CcidBridge
  import BulkInFraming
  import Coherence
  import NfcReader
  import Pn532Reader

  datatype HostRequest =
    | ControlRequest(requestType: byte, request: byte, value: word)
    | BulkOutPacket(payload: seq<byte>)
    | BulkInRequest(maxLen: nat)
    | InterruptPoll
    | OtherEndpoint

  function Serve(t: Transport, r: HostRequest): Transport {
    match r
    case ControlRequest(requestType, request, value) => Control(t, requestType, request, value).next
    case BulkOutPacket(payload) => BulkOut(t, payload).next
    case BulkInRequest(maxLen) => BulkIn(t, maxLen).next
    case InterruptPoll => InterruptIn(t).next
    case OtherEndpoint => t
  }

  /** What the host is told in return. */
  function Reply(t: Transport, r: HostRequest): Result<seq<byte>, TransportError> {
    match r
    case ControlRequest(requestType, request, value) => Control(t, requestType, request, value).result
    case BulkOutPacket(payload) =>
      var done := BulkOut(t, payload).result;
      if done.Failure? then Failure(done.error) else Success([])
    case BulkInRequest(maxLen) => Success(BulkIn(t, maxLen).result)
    case InterruptPoll => Success(InterruptIn(t).result)
    case OtherEndpoint => Success([])
  }

  /** A USB request block. Bit 7 of an endpoint address is its direction and the low
      bits its number (USB 2.0, section 9.6.6); number 0 is the control endpoint. */
  datatype Urb = Urb(endpoint: byte, requestType: byte, request: byte, value: word,
                     transferLength: nat, payload: seq<byte>)

  datatype Direction = Out | In

  const BULK_OUT_ENDPOINT: byte := 0x01
  const BULK_IN_ENDPOINT: byte := 0x81
  const INTERRUPT_IN_ENDPOINT: byte := 0x82

  function DirectionOf(endpoint: byte): Direction {
    if endpoint >= 0x80 then In else Out
  }

  predicate IsControl(endpoint: byte) {
    endpoint % 0x80 == 0
  }

  /** The request that a block stands for: four endpoint addresses, 00 and 80 for
      control among them, have a meaning; all others are ignored. */
  function Route(u: Urb): HostRequest {
    match u.endpoint
    case 0x00 => ControlRequest(u.requestType, u.request, u.value)
    case 0x80 => ControlRequest(u.requestType, u.request, u.value)
    case 0x01 => BulkOutPacket(u.payload)
    case 0x81 => BulkInRequest(u.transferLength)
    case 0x82 => InterruptPoll
    case _ => OtherEndpoint
  }

  /** The USB interface handler: one request block, dispatched on the direction and
      address of its endpoint. */
  method HandleUrb(t: CcidTransport, u: Urb) returns (reply: Result<seq<byte>, TransportError>)
    requires t.Valid()
    modifies t.Repr()
    ensures t.Valid()
    ensures t.Model() == Serve(old(t.Model()), Route(u)) && reply == Reply(old(t.Model()), Route(u))
  {
    hide Control, BulkOut, BulkIn, InterruptIn;
    if IsControl(u.endpoint) {
      reply := t.HandleControlRequest(u.requestType, u.request, u.value);
      return;
    }
    match DirectionOf(u.endpoint) {
    case Out =>
      if u.endpoint == BULK_OUT_ENDPOINT {
        var done := t.HandleBulkOut(u.payload);
        return if done.Failure? then Failure(done.error) else Success([]);
      }
    case In =>
      if u.endpoint == BULK_IN_ENDPOINT {
        var packet := t.HandleBulkIn(u.transferLength);
        return Success(packet);
      } else if u.endpoint == INTERRUPT_IN_ENDPOINT {
        var notice := t.HandleInterruptIn();
        return Success(notice);
      }
    }
    return Success([]);
  }

  /** What each endpoint address does, written out. */
  lemma UrbExactly(t: Transport, u: Urb)
    ensures var next, reply := Serve(t, Route(u)), Reply(t, Route(u));
            if u.endpoint == 0x00 || u.endpoint == 0x80 then
              After(reply, next) == Control(t, u.requestType, u.request, u.value)
            else if u.endpoint == 0x01 then
              var a := BulkOut(t, u.payload);
              next == a.next && (if a.result.Success? then reply == Success([]) else reply == Failure(a.result.error))
            else if u.endpoint == 0x81 then
              var a := BulkIn(t, u.transferLength); next == a.next && reply == Success(a.result)
            else if u.endpoint == 0x82 then
              var a := InterruptIn(t); next == a.next && reply == Success(a.result)
            else next == t && reply == Success([])
  {
    hide Control, BulkOut, BulkIn, InterruptIn;
  }

  function ServeAll(t: Transport, rs: seq<HostRequest>): Transport {
    if rs == [] then t else Serve(ServeAll(t, rs[..|rs| - 1]), rs[|rs| - 1])
  }

  function Plugged(reader: NfcReader.Reader): Transport {
    Attached(B.Fresh(reader))
  }

  /* ------------------------------------------------------------- invariants */

  ghost predicate IsEncoded(f: seq<byte>) {
    exists r: Response :: f == Encode(r)
  }

  /** The bytes of some response from byte k on. */
  ghost predicate IsRemainder(f: seq<byte>) {
    exists r: Response, k: nat :: k <= |Encode(r)| && f == Encode(r)[k..]
  }

  /** At most 32 responses; those behind the head are whole and never repeat their
      neighbour; the head may be the remainder of one. */
  ghost predicate QueueShape(q: seq<seq<byte>>) {
    && |q| <= 32
    && (q != [] ==> IsRemainder(q[0]))
    && (forall i :: 1 <= i < |q| ==> IsEncoded(q[i]))
    && (forall i :: 1 <= i < |q| - 1 ==> q[i] != q[i + 1])
  }

  ghost predicate LogShape(log: seq<QueueEvent>) {
    forall i :: 0 <= i < |log| && log[i].Offered? ==> IsEncoded(log[i].frame)
  }

  /** The queue is what its history makes of it. */
  ghost predicate QueueOk(c: Core) {
    QueueShape(c.inFrames) && LogShape(c.queueLog) && BulkInFraming.Replay(c.queueLog).queue == c.inFrames
  }

  /** Bit 0 of a notification: a card is present. Bit 1: that has changed. */
  predicate ShowsPresent(f: seq<byte>) {
    |f| == 2 && f[1] % 2 == 1
  }

  predicate ShowsChange(f: seq<byte>) {
    |f| == 2 && f[1] / 2 % 2 == 1
  }

  predicate PresentBefore(fs: seq<seq<byte>>, i: nat)
    requires i <= |fs|
  {
    i > 0 && ShowsPresent(fs[i - 1])
  }

  /** Every notification is well-formed, flags a change exactly when it differs from
      the one before it (the first from an empty slot), and the last shows the slot. */
  predicate NoticesOk(fs: seq<seq<byte>>, present: bool) {
    && (forall i :: 0 <= i < |fs| ==>
          && |fs[i]| == 2 && fs[i][0] == 0x50 && fs[i][1] < 4
          && (ShowsChange(fs[i]) <==> ShowsPresent(fs[i]) != PresentBefore(fs, i)))
    && present == PresentBefore(fs, |fs|)
  }

  /** All notifications ever queued, in order: those fetched, then those pending. */
  function History(c: Core): seq<seq<byte>> {
    c.delivered + c.interrupts
  }

  /** A pending control abort is for slot 0, and its bulk half has not arrived. */
  predicate FlagsOk(c: Core) {
    c.controlAbort.Some? ==> c.controlAbort.value.slot == 0 && c.bulkAbort != Some(c.controlAbort.value.seqNum)
  }

  ghost predicate CoreOk(c: Core) {
    && QueueOk(c)
    && NoticesOk(History(c), c.slotPresent)
    && c.slotPresent == c.bridge.card.Some?
    && FlagsOk(c)
    && Sound(c.bridge)
  }

  ghost predicate Invariant(t: Transport) {
    CoreOk(t.core) && Waiting(t.outBuffer)
  }

  /* ------------------------------------------------- what each piece keeps */

  lemma EncodedIsRemainder(f: seq<byte>)
    requires IsEncoded(f)
    ensures IsRemainder(f) && f != []
  {
    var r :| f == Encode(r);
    EncodedFields(r);
    assert f == Encode(r)[0..];
  }

  lemma AppendShape(q: seq<seq<byte>>, f: seq<byte>)
    requires QueueShape(q) && IsEncoded(f) && IsRemainder(f)
    requires |q| < 32 && (q != [] ==> q[|q| - 1] != f)
    ensures QueueShape(q + [f])
  {
    hide IsEncoded, IsRemainder;
    var r := q + [f];
    forall i | 1 <= i < |r| ensures IsEncoded(r[i]) {
      assert i < |q| ==> r[i] == q[i];
    }
    forall i | 1 <= i < |r| - 1 ensures r[i] != r[i + 1] {
      assert r[i] == q[i] && r[i + 1] == if i + 1 < |q| then q[i + 1] else f;
    }
  }

  lemma PushShape(q: seq<seq<byte>>, f: seq<byte>)
    requires QueueShape(q) && IsEncoded(f)
    ensures QueueShape(PushFrame(q, f))
  {
    EncodedIsRemainder(f);
    if (q == [] || q[|q| - 1] != f) && |q| < 32 {
      AppendShape(q, f);
    }
  }

  lemma LogSnoc(log: seq<QueueEvent>, e: QueueEvent)
    ensures LogShape(log) && (e.Offered? ==> IsEncoded(e.frame)) ==> LogShape(log + [e])
  {
    hide IsEncoded;
  }

  lemma OfferOk(c: Core, r: Response)
    requires QueueOk(c)
    ensures QueueOk(Offer(c, Encode(r)))
  {
    hide Encode;
    var f := Encode(r);
    assert IsEncoded(f);
    PushShape(c.inFrames, f);
    LogSnoc(c.queueLog, Offered(f));
    BulkInFraming.HistorySnoc(c.queueLog, Offered(f));
  }

  lemma NoticeShows(present: bool, before: bool)
    ensures var f := Notice(present, before);
            ShowsPresent(f) == present && (ShowsChange(f) <==> present != before) && f[1] < 4
  {
  }

  lemma NoticesSnoc(fs: seq<seq<byte>>, before: bool, present: bool)
    requires NoticesOk(fs, before)
    ensures NoticesOk(fs + [Notice(present, before)], present)
  {
    NoticeShows(present, before);
    var f := Notice(present, before);
    var fs1 := fs + [f];
    forall i | 0 <= i < |fs1|
      ensures |fs1[i]| == 2 && fs1[i][0] == 0x50 && fs1[i][1] < 4
      ensures ShowsChange(fs1[i]) <==> ShowsPresent(fs1[i]) != PresentBefore(fs1, i)
    {
      assert PresentBefore(fs1, i) == PresentBefore(fs, i);
      if i < |fs| {
        assert fs1[i] == fs[i];
      }
    }
  }

  lemma ObserveOk(c: Core, present: bool)
    requires NoticesOk(History(c), c.slotPresent)
    ensures var c1 := Observe(c, present);
            && NoticesOk(History(c1), c1.slotPresent)
            && History(c1) == History(c) + [Notice(present, c.slotPresent)]
  {
    NoticesSnoc(History(c), c.slotPresent, present);
    assert History(Observe(c, present)) == History(c) + [Notice(present, c.slotPresent)];
  }

  lemma RespondOk(c: Core, r: Response, b: B.Bridge)
    requires CoreOk(c) && Sound(b)
    ensures CoreOk(Respond(c, r, b))
    ensures History(c) <= History(Respond(c, r, b))
  {
    hide Encode, QueueShape, LogShape, NoticesOk, PushFrame, Sound;
    var c1 := c.(bridge := b);
    OfferOk(c1, r);
    ObserveOk(Offer(c1, Encode(r)), b.card.Some?);
    assert History(Offer(c1, Encode(r))) == History(c);
  }

  lemma AskOk(c: Core, command: Command)
    requires CoreOk(c)
    ensures CoreOk(Ask(c, command))
    ensures History(c) <= History(Ask(c, command))
  {
    StepSound(c.bridge, Submit(command));
    var a := B.Handle(c.bridge, command);
    RespondOk(c, a.result, a.next);
  }

  lemma FinishAbortOk(c: Core, slot: byte, seqNum: byte)
    requires CoreOk(c)
    ensures CoreOk(FinishAbort(c, slot, seqNum))
    ensures History(c) <= History(FinishAbort(c, slot, seqNum))
  {
    var c1 := ClearAborts(c);
    LogSnoc(c.queueLog, Cleared);
    BulkInFraming.HistorySnoc(c.queueLog, Cleared);
    assert QueueOk(c1);
    assert History(c1) == History(c);
    AskOk(c1, Abort(slot, seqNum));
  }

  lemma OnCommandOk(c: Core, command: Command)
    requires CoreOk(c)
    ensures CoreOk(OnCommand(c, command)) && History(c) <= History(OnCommand(c, command))
  {
    hide Ask, FinishAbort, QueueShape, LogShape, NoticesOk, Sound, Respond;
    if c.controlAbort.Some? {
      if Completes(c.controlAbort, command) {
        FinishAbortOk(c, command.slot, command.seqNum);
      } else {
        RespondOk(c, AbortedResponse(c.bridge, command), c.bridge);
      }
    } else if !command.Abort? {
      var c1 := c.(bulkAbort := None);
      assert QueueOk(c1) && History(c1) == History(c);
      AskOk(c1, command);
    }
  }

  lemma {:induction false} OnFramesOk(c: Core, frames: seq<seq<byte>>)
    requires CoreOk(c)
    ensures CoreOk(OnFrames(c, frames).core) && History(c) <= History(OnFrames(c, frames).core)
    decreases |frames|
  {
    if frames != [] {
      if Decode(frames[0]).Success? {
        OnCommandOk(c, Decode(frames[0]).value);
      }
      OnFramesOk(OnFrame(c, frames[0]), frames[1..]);
    }
  }

  lemma BulkOutOk(t: Transport, payload: seq<byte>)
    requires Invariant(t)
    ensures Invariant(BulkOut(t, payload).next) && History(t.core) <= History(BulkOut(t, payload).next.core)
  {
    var s := t.outBuffer + payload;
    ParseSound(s);
    OnFramesOk(t.core, Parse(s).frames);
  }

  lemma RemainderOfRemainder(f: seq<byte>, m: nat)
    requires IsRemainder(f)
    ensures IsRemainder([])
    ensures m <= |f| ==> IsRemainder(f[m..])
  {
    var r: Response, k: nat :| k <= |Encode(r)| && f == Encode(r)[k..];
    assert [] == Encode(r)[|Encode(r)|..];
    if m <= |f| {
      assert f[m..] == Encode(r)[k + m..];
    }
  }

  lemma NewHeadShape(q: seq<seq<byte>>, head: seq<byte>)
    requires QueueShape(q) && q != [] && IsRemainder(head)
    ensures QueueShape([head] + q[1..])
  {
    hide IsEncoded, IsRemainder;
    var r := [head] + q[1..];
    assert forall i :: 1 <= i < |q| ==> r[i] == q[i];
  }

  lemma TailShape(q: seq<seq<byte>>)
    requires QueueShape(q) && q != []
    ensures QueueShape(q[1..])
  {
    if |q| > 1 {
      EncodedIsRemainder(q[1]);
    }
    assert forall i :: 0 <= i < |q| - 1 ==> q[1..][i] == q[i + 1];
  }

  lemma FetchShape(q: seq<seq<byte>>, m: nat)
    requires QueueShape(q)
    ensures QueueShape(Fetch(q, m).next)
  {
    if q != [] {
      RemainderOfRemainder(q[0], m);
      TailShape(q);
      NewHeadShape(q, []);
      if m < |q[0]| {
        NewHeadShape(q, q[0][m..]);
      }
    }
  }

  lemma FetchOk(c: Core, m: nat)
    requires QueueOk(c)
    ensures QueueOk(c.(inFrames := Fetch(c.inFrames, m).next, queueLog := c.queueLog + [Fetched(m)]))
  {
    FetchShape(c.inFrames, m);
    LogSnoc(c.queueLog, Fetched(m));
    BulkInFraming.HistorySnoc(c.queueLog, Fetched(m));
  }

  lemma BulkInOk(t: Transport, m: nat)
    requires Invariant(t)
    ensures Invariant(BulkIn(t, m).next) && History(BulkIn(t, m).next.core) == History(t.core)
  {
    FetchOk(t.core, m);
  }

  /** Refreshing the card's presence and queueing the notification it calls for. */
  lemma SenseOk(c: Core)
    requires CoreOk(c)
    ensures var refresh := B.Refresh(c.bridge);
            var sensed := c.(bridge := refresh.next);
            var c1 := if refresh.result.Success? then Observe(sensed, refresh.result.value) else sensed;
            CoreOk(c1) && History(c) <= History(c1)
  {
    var refresh := B.Refresh(c.bridge);
    StepSound(c.bridge, Sense);
    RefreshReports(c.bridge);
    var sensed := c.(bridge := refresh.next);
    assert History(sensed) == History(c);
    if refresh.result.Success? {
      ObserveOk(sensed, refresh.result.value);
    }
  }

  lemma SameQueue(c: Core, c1: Core)
    requires QueueOk(c) && c1.inFrames == c.inFrames && c1.queueLog == c.queueLog
    ensures QueueOk(c1)
  {
    hide QueueShape, LogShape, BulkInFraming.Replay;
  }

  lemma DeliverOk(c: Core)
    requires CoreOk(c) && c.interrupts != []
    ensures var c1 := c.(interrupts := c.interrupts[1..], delivered := c.delivered + [c.interrupts[0]]);
            CoreOk(c1) && History(c1) == History(c)
  {
    var c1 := c.(interrupts := c.interrupts[1..], delivered := c.delivered + [c.interrupts[0]]);
    SameQueue(c, c1);
    assert History(c1) == History(c);
  }

  lemma InterruptInOk(t: Transport)
    requires Invariant(t)
    ensures Invariant(InterruptIn(t).next) && History(t.core) <= History(InterruptIn(t).next.core)
  {
    SenseOk(t.core);
    var refresh := B.Refresh(t.core.bridge);
    var sensed := t.core.(bridge := refresh.next);
    var c := if refresh.result.Success? then Observe(sensed, refresh.result.value) else sensed;
    if c.interrupts != [] {
      DeliverOk(c);
    }
  }

  /** A refresh tells the truth, and one that fails leaves the card as it was. */
  lemma RefreshReports(b: B.Bridge)
    ensures var a := B.Refresh(b);
            if a.result.Success? then a.result.value == a.next.card.Some? else a.next.card == b.card
  {
  }

  lemma ControlOk(t: Transport, requestType: byte, request: byte, value: word)
    requires Invariant(t)
    ensures var t1 := Control(t, requestType, request, value).next;
            Invariant(t1) && History(t.core) <= History(t1.core)
  {
    hide FinishAbort, NoticesOk, Sound, QueueShape, LogShape;
    var slot, seqNum := value % 0x100, value / 0x100;
    if slot == 0 && t.core.bulkAbort == Some(seqNum) {
      FinishAbortOk(t.core, slot, seqNum);
    } else if slot == 0 {
      var c := t.core.(controlAbort := Some(AbortId(slot, seqNum)));
      assert QueueOk(c) && History(c) == History(t.core) && FlagsOk(c);
    }
  }

  lemma ServeOk(t: Transport, r: HostRequest)
    requires Invariant(t)
    ensures Invariant(Serve(t, r)) && History(t.core) <= History(Serve(t, r).core)
  {
    hide Invariant, History, Control, BulkOut, InterruptIn;
    match r
    case ControlRequest(requestType, request, value) => ControlOk(t, requestType, request, value);
    case BulkOutPacket(payload) => BulkOutOk(t, payload);
    case BulkInRequest(maxLen) => BulkInOk(t, maxLen);
    case InterruptPoll => InterruptInOk(t);
    case OtherEndpoint =>
  }

  /** Every run of host requests, of any kind and length and with any reader, keeps the
      response queue in shape, the notifications truthful, the presence flag equal to
      the bridge's, and the abort flags consistent. */
  lemma {:induction false} RunOk(reader: NfcReader.Reader, rs: seq<HostRequest>)
    ensures Invariant(ServeAll(Plugged(reader), rs))
  {
    if rs != [] {
      RunOk(reader, rs[..|rs| - 1]);
      ServeOk(ServeAll(Plugged(reader), rs[..|rs| - 1]), rs[|rs| - 1]);
    }
  }

  /* --------------------------------------------------- consequences for the host */

  /** Notifications are never lost, reordered or altered: what has been queued by the
      end of a run starts with everything queued before. */
  lemma {:induction false} NoticesInOrder(reader: NfcReader.Reader, rs: seq<HostRequest>, n: nat)
    requires n <= |rs|
    ensures History(ServeAll(Plugged(reader), rs[..n]).core) <= History(ServeAll(Plugged(reader), rs).core)
  {
    if n < |rs| {
      var before := rs[..|rs| - 1];
      assert before[..n] == rs[..n];
      NoticesInOrder(reader, before, n);
      RunOk(reader, before);
      ServeOk(ServeAll(Plugged(reader), before), rs[|rs| - 1]);
    } else {
      assert rs[..n] == rs;
    }
  }

  /** A whole queued response has the length its length field declares. */
  lemma EncodedLength(f: seq<byte>)
    requires IsEncoded(f)
    ensures |f| >= 10 && LeU32(f[1..5]) == (|f| - 10) % TWO_32
  {
    var r :| f == Encode(r);
    EncodedFields(r);
  }

  /* --------------------------------------------------- which responses they are */

  /** The responses that one frame calls for: the bridge's answer, a refusal while an
      abort is pending, or none for the bulk half of an abort that comes first. */
  function ReplyTo(c: Core, frame: seq<byte>): seq<Response> {
    var command := Decode(frame);
    if command.Failure? then []
    else if c.controlAbort.Some? && !Completes(c.controlAbort, command.value) then
      [AbortedResponse(c.bridge, command.value)]
    else if c.controlAbort.None? && command.value.Abort? then []
    else [B.Handle(c.bridge, command.value).result]
  }

  function RepliesTo(c: Core, frames: seq<seq<byte>>): seq<Response>
    decreases |frames|
  {
    if frames == [] then []
    else if CompletesFrame(c.controlAbort, frames[0]) then ReplyTo(c, frames[0])
    else ReplyTo(c, frames[0]) + RepliesTo(OnFrame(c, frames[0]), frames[1..])
  }

  /** The control half completes an abort whose bulk half is already there. */
  predicate CompletesByControl(t: Transport, requestType: byte, request: byte, value: word) {
    requestType == 0x21 && request == 0x01 && value % 0x100 == 0 && t.core.bulkAbort == Some(value / 0x100)
  }

  function Replies(t: Transport, r: HostRequest): seq<Response> {
    match r
    case ControlRequest(requestType, request, value) =>
      if CompletesByControl(t, requestType, request, value)
      then [B.Handle(t.core.bridge, Abort(0, value / 0x100)).result] else []
    case BulkOutPacket(payload) => RepliesTo(t.core, Parse(t.outBuffer + payload).frames)
    case _ => []
  }

  /** The responses that a run calls for, in order. */
  function AllReplies(t: Transport, rs: seq<HostRequest>): seq<Response> {
    if rs == [] then []
    else
      var before := rs[..|rs| - 1];
      AllReplies(t, before) + Replies(ServeAll(t, before), rs[|rs| - 1])
  }

  /** What the history of the queue makes of the host. */
  function HostOf(c: Core): BulkInFraming.Host {
    BulkInFraming.Replay(c.queueLog).host
  }

  lemma AskLogged(c: Core, command: Command)
    ensures Ask(c, command).queueLog == c.queueLog + [Offered(Encode(B.Handle(c.bridge, command).result))]
  {
    hide B.Handle, Encode, PushFrame;
  }

  lemma FinishAbortLogged(c: Core, slot: byte, seqNum: byte)
    ensures BulkInFraming.Offers(FinishAbort(c, slot, seqNum).queueLog) ==
            BulkInFraming.Offers(c.queueLog) + [Encode(B.Handle(c.bridge, Abort(slot, seqNum)).result)]
    ensures HostOf(FinishAbort(c, slot, seqNum)) == HostOf(c)
  {
    hide B.Handle, Encode, Ask, BulkInFraming.Replay, BulkInFraming.Offers;
    AskLogged(ClearAborts(c), Abort(slot, seqNum));
    BulkInFraming.HistorySnoc(c.queueLog, Cleared);
    BulkInFraming.HistorySnoc(c.queueLog + [Cleared], Offered(Encode(B.Handle(c.bridge, Abort(slot, seqNum)).result)));
  }

  lemma RefusalLogged(c: Core, command: Command)
    ensures Quarantine(c, command).queueLog == c.queueLog + [Offered(Encode(AbortedResponse(c.bridge, command)))]
  {
    hide Encode, PushFrame;
  }

  lemma FrameLogged(c: Core, frame: seq<byte>)
    ensures BulkInFraming.Offers(OnFrame(c, frame).queueLog) ==
            BulkInFraming.Offers(c.queueLog) + EncodeEach(ReplyTo(c, frame))
    ensures HostOf(OnFrame(c, frame)) == HostOf(c)
  {
    hide B.Handle, Encode, Ask, Quarantine, FinishAbort, AbortedResponse, BulkInFraming.Replay, BulkInFraming.Offers;
    if Decode(frame).Success? {
      var command := Decode(frame).value;
      AskLogged(c.(bulkAbort := None), command);
      RefusalLogged(c, command);
      FinishAbortLogged(c, command.slot, command.seqNum);
      BulkInFraming.HistorySnoc(c.queueLog, Offered(Encode(AbortedResponse(c.bridge, command))));
      BulkInFraming.HistorySnoc(c.queueLog, Offered(Encode(B.Handle(c.bridge, command).result)));
      if command.Abort? {
        assert command == Abort(command.slot, command.seqNum);
      }
    }
  }

  lemma {:induction false} FramesLogged(c: Core, frames: seq<seq<byte>>)
    ensures BulkInFraming.Offers(OnFrames(c, frames).core.queueLog) ==
            BulkInFraming.Offers(c.queueLog) + EncodeEach(RepliesTo(c, frames))
    ensures HostOf(OnFrames(c, frames).core) == HostOf(c)
    decreases |frames|
  {
    hide OnFrame, CompletesFrame, ReplyTo, Encode, HostOf;
    if frames != [] {
      FrameLogged(c, frames[0]);
      if !CompletesFrame(c.controlAbort, frames[0]) {
        var c1 := OnFrame(c, frames[0]);
        FramesLogged(c1, frames[1..]);
        EncodeEachAppend(ReplyTo(c, frames[0]), RepliesTo(c1, frames[1..]));
      }
    }
  }

  lemma ServeLogged(t: Transport, r: HostRequest)
    ensures BulkInFraming.Offers(Serve(t, r).core.queueLog) ==
            BulkInFraming.Offers(t.core.queueLog) + EncodeEach(Replies(t, r))
    ensures !r.BulkInRequest? ==> HostOf(Serve(t, r).core) == HostOf(t.core)
  {
    hide OnFrames, RepliesTo, B.Handle, B.Refresh, Encode, Parse, FinishAbort, BulkInFraming.Replay,
         BulkInFraming.Offers;
    match r
    case ControlRequest(_, _, value) => FinishAbortLogged(t.core, 0, value / 0x100);
    case BulkOutPacket(payload) => FramesLogged(t.core, Parse(t.outBuffer + payload).frames);
    case BulkInRequest(maxLen) => BulkInFraming.HistorySnoc(t.core.queueLog, Fetched(maxLen));
    case InterruptPoll =>
    case OtherEndpoint =>
  }

  /** In every run, what is offered to the response queue is the encoding of exactly
      the responses the run calls for: one per frame, in order. */
  lemma {:induction false} RunLogged(reader: NfcReader.Reader, rs: seq<HostRequest>)
    ensures BulkInFraming.Offers(ServeAll(Plugged(reader), rs).core.queueLog) ==
            EncodeEach(AllReplies(Plugged(reader), rs))
  {
    hide Serve, Replies, Encode;
    if rs != [] {
      var before := rs[..|rs| - 1];
      var t := ServeAll(Plugged(reader), before);
      RunLogged(reader, before);
      ServeLogged(t, rs[|rs| - 1]);
      EncodeEachAppend(AllReplies(Plugged(reader), before), Replies(t, rs[|rs| - 1]));
    }
  }

  /** What the host makes of the replies to its bulk-IN requests. */
  function HostAfter(t: Transport, rs: seq<HostRequest>): BulkInFraming.Host {
    if rs == [] then BulkInFraming.Host([], [])
    else
      var before, r := rs[..|rs| - 1], rs[|rs| - 1];
      var h := HostAfter(t, before);
      if r.BulkInRequest? then BulkInFraming.Accept(h, Reply(ServeAll(t, before), r).value, r.maxLen) else h
  }

  lemma RunQueue(reader: NfcReader.Reader, rs: seq<HostRequest>)
    ensures var c := ServeAll(Plugged(reader), rs).core;
            BulkInFraming.Replay(c.queueLog).queue == c.inFrames
  {
    RunOk(reader, rs);
  }

  lemma FetchHeard(t: Transport, m: nat)
    requires BulkInFraming.Replay(t.core.queueLog).queue == t.core.inFrames
    ensures HostOf(Serve(t, BulkInRequest(m)).core) ==
            BulkInFraming.Accept(HostOf(t.core), Reply(t, BulkInRequest(m)).value, m)
  {
    hide BulkInFraming.Replay, Fetch, BulkInFraming.Accept;
    BulkInFraming.HistorySnoc(t.core.queueLog, Fetched(m));
  }

  /** In every run, the messages the host has put together from the replies it got are
      the ones that the history of the queue accounts for. */
  lemma {:induction false} RunHeard(reader: NfcReader.Reader, rs: seq<HostRequest>)
    ensures HostAfter(Plugged(reader), rs) == HostOf(ServeAll(Plugged(reader), rs).core)
  {
    hide Serve, Reply, BulkInFraming.Accept;
    if rs != [] {
      var before, r := rs[..|rs| - 1], rs[|rs| - 1];
      var t := ServeAll(Plugged(reader), before);
      RunHeard(reader, before);
      if r.BulkInRequest? {
        RunQueue(reader, before);
        FetchHeard(t, r.maxLen);
      } else {
        ServeLogged(t, r);
      }
    }
  }

  /** Even when responses are thrown away, as long as host and queue stay in step the
      host's messages and those still owed are exactly the responses kept. */
  lemma HostReadsKept(reader: NfcReader.Reader, rs: seq<HostRequest>)
    requires BulkInFraming.Smooth(ServeAll(Plugged(reader), rs).core.queueLog)
    ensures var c, host := ServeAll(Plugged(reader), rs).core, HostAfter(Plugged(reader), rs);
            host.got + BulkInFraming.Owed(c.inFrames, host) == BulkInFraming.Replay(c.queueLog).kept
  {
    hide Invariant, ServeAll, HostAfter, BulkInFraming.Replay;
    RunQueue(reader, rs);
    RunHeard(reader, rs);
    BulkInFraming.HostGetsResponses(ServeAll(Plugged(reader), rs).core.queueLog);
  }

  /** In any run in which no response is thrown away, the messages the host has put
      together from the replies it got, followed by those the queue still holds, are
      the encodings of the responses the run calls for, in order and whole, without
      those that repeated the last in line; all of them exactly when none did. */
  lemma HostReadsResponses(reader: NfcReader.Reader, rs: seq<HostRequest>)
    requires BulkInFraming.Lossless(ServeAll(Plugged(reader), rs).core.queueLog)
    ensures var c, host := ServeAll(Plugged(reader), rs).core, HostAfter(Plugged(reader), rs);
            var read := host.got + BulkInFraming.Owed(c.inFrames, host);
            var owed := EncodeEach(AllReplies(Plugged(reader), rs));
            && read == BulkInFraming.Accepted(c.queueLog)
            && BulkInFraming.Thinned(read, owed)
            && multiset(owed) == multiset(read) + multiset(BulkInFraming.Repeats(c.queueLog))
            && (read == owed <==> BulkInFraming.NoRepeats(c.queueLog))
  {
    hide Invariant, EncodeEach, AllReplies, ServeAll, HostAfter, BulkInFraming.Replay;
    RunQueue(reader, rs);
    RunHeard(reader, rs);
    RunLogged(reader, rs);
    var log := ServeAll(Plugged(reader), rs).core.queueLog;
    BulkInFraming.LosslessDelivery(log);
    BulkInFraming.AcceptedAreOffers(log);
  }

  /* ------------------------------------------- which notifications the host hears */

  /** A poll hands the host exactly the notification it records as delivered. */
  lemma NoticeHanded(t: Transport)
    requires Invariant(t)
    ensures var a := InterruptIn(t);
            a.next.core.delivered == t.core.delivered + (if a.result == [] then [] else [a.result])
  {
    hide B.Refresh;
    if t.core.interrupts != [] {
      NoticePending(t);
    }
  }

  lemma OthersDeliverNothing(t: Transport, r: HostRequest)
    requires !r.InterruptPoll?
    ensures Serve(t, r).core.delivered == t.core.delivered
  {
    hide OnFrames, B.Handle, Encode, Parse, PushFrame;
    if r.BulkOutPacket? {
      FramesDeliverNothing(t.core, Parse(t.outBuffer + r.payload).frames);
    }
  }

  lemma {:induction false} FramesDeliverNothing(c: Core, frames: seq<seq<byte>>)
    ensures OnFrames(c, frames).core.delivered == c.delivered
    decreases |frames|
  {
    hide B.Handle, Encode, PushFrame, CompletesFrame;
    if frames != [] {
      FramesDeliverNothing(OnFrame(c, frames[0]), frames[1..]);
    }
  }

  /** The notifications among the replies to the host's interrupt polls. */
  function NoticesHeard(t: Transport, rs: seq<HostRequest>): seq<seq<byte>> {
    if rs == [] then []
    else
      var before, r := rs[..|rs| - 1], rs[|rs| - 1];
      var heard := NoticesHeard(t, before);
      var reply := Reply(ServeAll(t, before), r);
      if r.InterruptPoll? && reply.value != [] then heard + [reply.value] else heard
  }

  /** In every run, what the host hears is what was delivered; so the notifications it
      has heard, followed by those pending, are well-formed, flag a change exactly where
      they differ from the one before, and end in the slot's present state. */
  lemma {:induction false} HostHearsTruth(reader: NfcReader.Reader, rs: seq<HostRequest>)
    ensures var heard, c := NoticesHeard(Plugged(reader), rs), ServeAll(Plugged(reader), rs).core;
            heard == c.delivered && NoticesOk(heard + c.interrupts, c.bridge.card.Some?)
  {
    hide InterruptIn, Invariant, NoticesOk;
    if rs != [] {
      var before, r := rs[..|rs| - 1], rs[|rs| - 1];
      HostHearsTruth(reader, before);
      RunOk(reader, before);
      if r.InterruptPoll? {
        NoticeHanded(ServeAll(Plugged(reader), before));
      } else {
        OthersDeliverNothing(ServeAll(Plugged(reader), before), r);
      }
    }
    RunNotices(reader, rs);
  }

  lemma RunNotices(reader: NfcReader.Reader, rs: seq<HostRequest>)
    ensures var c := ServeAll(Plugged(reader), rs).core; NoticesOk(History(c), c.bridge.card.Some?)
  {
    RunOk(reader, rs);
  }

  /* ------------------------------------------- how far notifications lag behind */

  lemma FrameNotices(c: Core, frame: seq<byte>)
    ensures |OnFrame(c, frame).interrupts| == |c.interrupts| + |ReplyTo(c, frame)|
  {
    hide B.Handle, Encode, PushFrame;
  }

  lemma {:induction false} FramesNotices(c: Core, frames: seq<seq<byte>>)
    ensures |OnFrames(c, frames).core.interrupts| == |c.interrupts| + |RepliesTo(c, frames)|
    decreases |frames|
  {
    hide OnFrame, CompletesFrame, ReplyTo;
    if frames != [] {
      FrameNotices(c, frames[0]);
      FramesNotices(OnFrame(c, frames[0]), frames[1..]);
    }
  }

  /** A poll that hands out a notification and adds none. */
  predicate Shrinks(t: Transport, r: HostRequest) {
    r.InterruptPoll? && t.core.interrupts != [] && B.Refresh(t.core.bridge).result.Failure?
  }

  function ShrinkCount(t: Transport, rs: seq<HostRequest>): nat {
    if rs == [] then 0
    else
      var before := rs[..|rs| - 1];
      ShrinkCount(t, before) + if Shrinks(ServeAll(t, before), rs[|rs| - 1]) then 1 else 0
  }

  lemma ServeBacklog(t: Transport, r: HostRequest)
    ensures |Serve(t, r).core.interrupts| + (if Shrinks(t, r) then 1 else 0) ==
            |t.core.interrupts| + |Replies(t, r)|
  {
    hide OnFrames, RepliesTo, B.Handle, B.Refresh, Encode, Parse, PushFrame;
    match r
    case ControlRequest(_, _, _) =>
    case BulkOutPacket(payload) => FramesNotices(t.core, Parse(t.outBuffer + payload).frames);
    case BulkInRequest(_) =>
    case InterruptPoll =>
    case OtherEndpoint =>
  }

  /** In every run the notifications pending number the responses called for, less the
      polls that found a notification while their refresh failed: a poll that succeeds
      never shortens the line. */
  lemma {:induction false} BacklogExactly(reader: NfcReader.Reader, rs: seq<HostRequest>)
    ensures |ServeAll(Plugged(reader), rs).core.interrupts| + ShrinkCount(Plugged(reader), rs) ==
            |AllReplies(Plugged(reader), rs)|
  {
    hide Serve, Replies, Shrinks;
    if rs != [] {
      BacklogExactly(reader, rs[..|rs| - 1]);
      ServeBacklog(ServeAll(Plugged(reader), rs[..|rs| - 1]), rs[|rs| - 1]);
    }
  }

  /** After any run, the poll that follows shows the slot as the poll leaves it exactly
      when nothing is pending and its refresh succeeds, or the oldest notification
      pending happens to show the same. */
  lemma PollShowsNowExactly(reader: NfcReader.Reader, rs: seq<HostRequest>)
    ensures var t := ServeAll(Plugged(reader), rs);
            var shown, present := Reply(t, InterruptPoll).value, Serve(t, InterruptPoll).core.slotPresent;
            shown != [] && ShowsPresent(shown) == present <==>
              if t.core.interrupts == [] then B.Refresh(t.core.bridge).result.Success?
              else ShowsPresent(t.core.interrupts[0]) == present
  {
    hide B.Refresh, ServeAll, Invariant;
    RunOk(reader, rs);
    if ServeAll(Plugged(reader), rs).core.interrupts != [] {
      NoticePending(ServeAll(Plugged(reader), rs));
    }
    forall present: bool, before: bool ensures ShowsPresent(Notice(present, before)) == present {
      NoticeShows(present, before);
    }
  }

  lemma NoticePending(t: Transport)
    requires Invariant(t) && t.core.interrupts != []
    ensures t.core.interrupts[0] != []
  {
    assert History(t.core)[|t.core.delivered|] == t.core.interrupts[0];
  }

  /* ------------------------------------------- the bridge behind the transport */

  /** The bridge operations that the host's bytes and requests turn into. */
  function FrameIssues(c: Core, frame: seq<byte>): seq<BridgeOp> {
    var command := Decode(frame);
    if command.Failure? then []
    else if c.controlAbort.Some? then
      if Completes(c.controlAbort, command.value) then [Submit(command.value)] else []
    else if command.value.Abort? then []
    else [Submit(command.value)]
  }

  function FramesIssue(c: Core, frames: seq<seq<byte>>): seq<BridgeOp>
    decreases |frames|
  {
    if frames == [] then []
    else if CompletesFrame(c.controlAbort, frames[0]) then FrameIssues(c, frames[0])
    else FrameIssues(c, frames[0]) + FramesIssue(OnFrame(c, frames[0]), frames[1..])
  }

  function Issues(t: Transport, r: HostRequest): seq<BridgeOp> {
    match r
    case ControlRequest(requestType, request, value) =>
      if CompletesByControl(t, requestType, request, value) then [Submit(Abort(0, value / 0x100))] else []
    case BulkOutPacket(payload) => FramesIssue(t.core, Parse(t.outBuffer + payload).frames)
    case BulkInRequest(_) => []
    case InterruptPoll => [Sense]
    case OtherEndpoint => []
  }

  function AllIssues(t: Transport, rs: seq<HostRequest>): seq<BridgeOp> {
    if rs == [] then []
    else
      var before := rs[..|rs| - 1];
      AllIssues(t, before) + Issues(ServeAll(t, before), rs[|rs| - 1])
  }

  lemma RunOne(b: B.Bridge, op: BridgeOp)
    ensures Run(b, [op]) == Step(b, op) && Run(b, []) == b
  {
    assert [op][..0] == [];
  }

  lemma FrameRuns(c: Core, frame: seq<byte>)
    ensures OnFrame(c, frame).bridge == Run(c.bridge, FrameIssues(c, frame))
  {
    hide B.Handle, Encode;
    if Decode(frame).Success? {
      RunOne(c.bridge, Submit(Decode(frame).value));
    }
  }

  lemma {:induction false} FramesRun(c: Core, frames: seq<seq<byte>>)
    ensures OnFrames(c, frames).core.bridge == Run(c.bridge, FramesIssue(c, frames))
    decreases |frames|
  {
    hide OnFrame, CompletesFrame, FrameIssues;
    if frames != [] {
      FrameRuns(c, frames[0]);
      if !CompletesFrame(c.controlAbort, frames[0]) {
        var c1 := OnFrame(c, frames[0]);
        FramesRun(c1, frames[1..]);
        RunAppend(c.bridge, FrameIssues(c, frames[0]), FramesIssue(c1, frames[1..]));
      }
    }
  }

  lemma ServeRuns(t: Transport, r: HostRequest)
    ensures Serve(t, r).core.bridge == Run(t.core.bridge, Issues(t, r))
  {
    hide OnFrames, FramesIssue, B.Handle, B.Refresh, Encode, Parse;
    match r
    case ControlRequest(_, _, value) => RunOne(t.core.bridge, Submit(Abort(0, value / 0x100)));
    case BulkOutPacket(payload) => FramesRun(t.core, Parse(t.outBuffer + payload).frames);
    case BulkInRequest(_) =>
    case InterruptPoll => RunOne(t.core.bridge, Sense);
    case OtherEndpoint =>
  }

  /** Behind the transport the bridge lives through exactly the operations issued. */
  lemma {:induction false} ServeAllRuns(t: Transport, rs: seq<HostRequest>)
    ensures ServeAll(t, rs).core.bridge == Run(t.core.bridge, AllIssues(t, rs))
  {
    if rs != [] {
      var before := rs[..|rs| - 1];
      ServeAllRuns(t, before);
      ServeRuns(ServeAll(t, before), rs[|rs| - 1]);
      RunAppend(t.core.bridge, AllIssues(t, before), Issues(ServeAll(t, before), rs[|rs| - 1]));
    }
  }

  /** From the host's bytes to the card: whatever the host sends, however it is cut
      into packets, each operation issued to the bridge, at the moment it is issued,
      exchanges an APDU exactly when it is a transfer inside an open power session, and
      the bridge then names the card of that session. */
  lemma IssuedApduGate(reader: NfcReader.Reader, rs: seq<HostRequest>, k: nat)
    requires k < |AllIssues(Plugged(reader), rs)|
    ensures var issued, b := AllIssues(Plugged(reader), rs), B.Fresh(reader);
            && (Exchanges(Run(b, issued[..k]), issued[k]) <==>
                  IsTransfer(issued[k]) && exists j: nat :: Session(b, issued[..k], j))
            && (forall j: nat :: Session(b, issued[..k], j) ==>
                  Run(b, issued[..k]).card == Some(CardOf(b, issued[..k], j)))
  {
    var issued := AllIssues(Plugged(reader), rs);
    ApduGate(reader, issued[..k], issued[k]);
  }

  /** The same for any operation that might come next, after a whole run. */
  lemma NextApduGate(reader: NfcReader.Reader, rs: seq<HostRequest>, op: BridgeOp)
    ensures var b := ServeAll(Plugged(reader), rs).core.bridge;
            var issued := AllIssues(Plugged(reader), rs);
            && (Exchanges(b, op) <==> IsTransfer(op) && exists j: nat :: Session(B.Fresh(reader), issued, j))
            && (forall j: nat :: Session(B.Fresh(reader), issued, j) ==>
                  b.card == Some(CardOf(B.Fresh(reader), issued, j)))
  {
    ServeAllRuns(Plugged(reader), rs);
    ApduGate(reader, AllIssues(Plugged(reader), rs), op);
  }

  /** And the history of reader calls at the end of the run shows just those: entry e
      is an exchange exactly when some issued transfer, inside an open power session,
      made it, and then with that transfer's APDU. */
  lemma StackApduGate(reader: NfcReader.Reader, rs: seq<HostRequest>, e: nat)
    requires e < |ServeAll(Plugged(reader), rs).core.bridge.calls|
    ensures var call := ServeAll(Plugged(reader), rs).core.bridge.calls[e];
            var issued, b := AllIssues(Plugged(reader), rs), B.Fresh(reader);
            && (call.Exchanged? <==> exists k: nat :: MadeAt(b, issued, k, e))
            && (forall k: nat :: MadeAt(b, issued, k, e) ==>
                  call.Exchanged? && call.apdu == B.NormalizeApdu(issued[k].command.payload))
  {
    hide ServeAll, AllIssues, Run, Session;
    ServeAllRuns(Plugged(reader), rs);
    var issued := AllIssues(Plugged(reader), rs);
    var b := B.Fresh(reader);
    PluggedBridge(reader);
    ExchangeHistory(reader, issued, e);
    forall k: nat | MadeAt(b, issued, k, e)
      ensures Run(b, issued).calls[e].Exchanged?
      ensures Run(b, issued).calls[e].apdu == B.NormalizeApdu(issued[k].command.payload)
    {
      MadeAtFills(reader, issued, k, e);
    }
  }

  lemma PluggedBridge(reader: NfcReader.Reader)
    ensures Plugged(reader).core.bridge == B.Fresh(reader)
  {
  }

  /** The whole stack on a PN532 whose RF field can always be switched: after any run
      of host requests, transport, bridge and reader agree about the card. */
  lemma StackCoherent(device: Pn532Reader.Device, rs: seq<HostRequest>)
    requires Coherence.RfReliable(device)
    ensures var c := ServeAll(Plugged(NfcReader.Uart(Pn532Reader.Opened(device))), rs).core;
            && Coherence.Coherent(c.bridge)
            && (c.slotPresent ==> c.bridge.reader.pn532.cachedCard == c.bridge.card)
  {
    var t := Plugged(NfcReader.Uart(Pn532Reader.Opened(device)));
    ServeAllRuns(t, rs);
    Coherence.RunCoherent(device, AllIssues(t, rs));
    RunOk(NfcReader.Uart(Pn532Reader.Opened(device)), rs);
  }

  /** Which card the reader really talks to, on any PN532, failures included: as long as
      the host has issued no power-off since its power session began, the reader has that
      session's card at hand, and a transfer issued then goes straight to it. */
  lemma IssuedReachesCard(device: Pn532Reader.Device, rs: seq<HostRequest>, k: nat, j: nat)
    requires k <= |AllIssues(Plugged(NfcReader.Uart(Pn532Reader.Opened(device))), rs)|
    requires var issued := AllIssues(Plugged(NfcReader.Uart(Pn532Reader.Opened(device))), rs);
             && Session(B.Fresh(NfcReader.Uart(Pn532Reader.Opened(device))), issued[..k], j)
             && forall i :: j < i < k ==> !Coherence.PowersOff(issued[i])
    ensures var b0 := B.Fresh(NfcReader.Uart(Pn532Reader.Opened(device)));
            var issued := AllIssues(Plugged(NfcReader.Uart(Pn532Reader.Opened(device))), rs);
            var b := Run(b0, issued[..k]);
            && b.reader.Uart? && Pn532Reader.Holds(b.reader.pn532, CardOf(b0, issued[..k], j))
            && (k < |issued| && IsTransfer(issued[k]) && |issued[k].command.payload| <= 310 ==>
                  Coherence.Direct(b, issued[k].command))
  {
    hide AllIssues, Run, Session, CardOf, Coherence.Direct, Pn532Reader.Holds;
    var issued := AllIssues(Plugged(NfcReader.Uart(Pn532Reader.Opened(device))), rs);
    assert forall i :: j < i < k ==> issued[..k][i] == issued[i];
    Coherence.SessionHoldsCard(device, issued[..k], j);
    if k < |issued| && IsTransfer(issued[k]) && |issued[k].command.payload| <= 310 {
      Coherence.SessionTransferIsDirect(device, issued[..k], j, issued[k].command);
    }
  }
}
