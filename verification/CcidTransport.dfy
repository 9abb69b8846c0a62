/** The CCID transport: bulk-OUT reassembly, the two-sided abort handshake, the
    bulk-IN response queue and the slot-change notifications. */
module CcidTransport {
  import opened Bytes
  import opened CcidProtocol
  import opened FrameStream
  import B = CcidBridge

  const GET_CLOCK_FREQUENCIES: byte := 0x02
  const GET_DATA_RATES: byte := 0x03
  const CONTROL_ABORT: byte := 0x01
  const CLOCK_FREQUENCY_KHZ: seq<byte> := [0xfc, 0x0d, 0x00, 0x00]
  const DATA_RATE_BPS: seq<byte> := [0x80, 0x25, 0x00, 0x00]
  const NOTIFY_SLOT_CHANGE: byte := 0x50
  const CMD_ABORTED_ERROR: byte := 0xff
  const MAX_PENDING_IN_FRAMES := 32

  datatype Phase = Idle | Receiving | ReadyToSend

  datatype AbortId = AbortId(slot: byte, seqNum: byte)

  datatype TransportError = Unsupported | InvalidData

  /** What happened to the response queue: a frame offered, a clear, a packet fetched. */
  datatype QueueEvent = Offered(frame: seq<byte>) | Cleared | Fetched(maxLen: nat)

  /** The transport without its bulk-OUT buffer. `delivered` is the history of the
      notifications the host has fetched, `queueLog` that of the response queue. */
  datatype Core = Core(
    bridge: B.Bridge,
    inFrames: seq<seq<byte>>,
    interrupts: seq<seq<byte>>,
    slotPresent: bool,
    bulkAbort: Option<byte>,
    controlAbort: Option<AbortId>,
    delivered: seq<seq<byte>>,
    queueLog: seq<QueueEvent>)

  datatype Transport = Transport(core: Core, outBuffer: seq<byte>)

  function Attached(bridge: B.Bridge): Transport {
    Transport(Core(bridge, [], [], false, None, None, [], []), [])
  }

  /* ------------------------------------------------- the response queue */

  function PushFrame(q: seq<seq<byte>>, frame: seq<byte>): (r: seq<seq<byte>>)
    ensures r != [] && r[|r| - 1] == frame
  {
    if q != [] && q[|q| - 1] == frame then q
    else if |q| >= MAX_PENDING_IN_FRAMES then [frame]
    else q + [frame]
  }

  function Fetch(q: seq<seq<byte>>, maxLen: nat): After<seq<byte>, seq<seq<byte>>> {
    if q == [] then After([], q)
    else
      var frame, tail := q[0], q[1..];
      if |frame| <= maxLen then
        After(frame, if maxLen != 0 && frame != [] && |frame| % maxLen == 0 then [[]] + tail else tail)
      else
        After(frame[..maxLen], [frame[maxLen..]] + tail)
  }

  function Offer(c: Core, frame: seq<byte>): Core {
    c.(inFrames := PushFrame(c.inFrames, frame), queueLog := c.queueLog + [Offered(frame)])
  }

  /* --------------------------------------------------- notifications */

  function Notice(present: bool, before: bool): seq<byte> {
    [NOTIFY_SLOT_CHANGE, (if present then 1 else 0) + (if present != before then 2 else 0)]
  }

  function Observe(c: Core, present: bool): Core {
    c.(interrupts := c.interrupts + [Notice(present, c.slotPresent)], slotPresent := present)
  }

  /* --------------------------------------------------- commands and aborts */

  /** Queue a response of the bridge, now in state b, and report the slot. */
  function Respond(c: Core, response: Response, b: B.Bridge): Core {
    Observe(Offer(c.(bridge := b), Encode(response)), b.card.Some?)
  }

  /** Have the bridge handle a command and queue its response. */
  function Ask(c: Core, command: Command): Core {
    var a := B.Handle(c.bridge, command);
    Respond(c, a.result, a.next)
  }

  function ClearAborts(c: Core): Core {
    c.(bulkAbort := None, controlAbort := None, inFrames := [], queueLog := c.queueLog + [Cleared])
  }

  function FinishAbort(c: Core, slot: byte, seqNum: byte): Core {
    Ask(ClearAborts(c), Abort(slot, seqNum))
  }

  function AbortedResponse(b: B.Bridge, command: Command): Response {
    SlotStatus(command.slot, command.seqNum, Fail(B.Icc(b)), CMD_ABORTED_ERROR, 0)
  }

  function Quarantine(c: Core, command: Command): Core {
    Respond(c, AbortedResponse(c.bridge, command), c.bridge)
  }

  predicate Completes(pending: Option<AbortId>, command: Command) {
    command.Abort? && pending == Some(AbortId(command.slot, command.seqNum))
  }

  function OnCommand(c: Core, command: Command): Core {
    if c.controlAbort.Some? then
      if Completes(c.controlAbort, command) then FinishAbort(c, command.slot, command.seqNum)
      else Quarantine(c, command)
    else if command.Abort? then
      c.(bulkAbort := Some(command.seqNum))
    else
      Ask(c.(bulkAbort := None), command)
  }

  function OnFrame(c: Core, frame: seq<byte>): Core {
    var command := Decode(frame);
    if command.Failure? then c else OnCommand(c, command.value)
  }

  predicate CompletesFrame(pending: Option<AbortId>, frame: seq<byte>) {
    Decode(frame).Success? && Completes(pending, Decode(frame).value)
  }

  datatype Batch = Batch(core: Core, finished: bool)

  /** Frames take effect in order, up to one that completes a pending abort. */
  function OnFrames(c: Core, frames: seq<seq<byte>>): Batch
    decreases |frames|
  {
    if frames == [] then Batch(c, false)
    else if CompletesFrame(c.controlAbort, frames[0]) then Batch(OnFrame(c, frames[0]), true)
    else OnFrames(OnFrame(c, frames[0]), frames[1..])
  }

  /* --------------------------------------------------- the public operations */

  type BulkOutResult = After<Result<Unit, TransportError>, Transport>

  /** Read the whole stream first, then let its frames take effect. */
  function Deliver(c: Core, stream: seq<byte>): BulkOutResult {
    var parsed := Parse(stream);
    var batch := OnFrames(c, parsed.frames);
    if batch.finished then After(Success(Unit), Transport(batch.core, []))
    else if Oversized(parsed.rest) then After(Failure(InvalidData), Transport(batch.core, []))
    else After(Success(Unit), Transport(batch.core, parsed.rest))
  }

  function BulkOut(t: Transport, payload: seq<byte>): BulkOutResult {
    Deliver(t.core, t.outBuffer + payload)
  }

  function BulkIn(t: Transport, maxLen: nat): After<seq<byte>, Transport> {
    var f := Fetch(t.core.inFrames, maxLen);
    After(f.result, t.(core := t.core.(inFrames := f.next, queueLog := t.core.queueLog + [Fetched(maxLen)])))
  }

  function InterruptIn(t: Transport): After<seq<byte>, Transport> {
    var refresh := B.Refresh(t.core.bridge);
    var sensed := t.core.(bridge := refresh.next);
    var c := if refresh.result.Success? then Observe(sensed, refresh.result.value) else sensed;
    if c.interrupts == [] then After([], t.(core := c))
    else
      After(c.interrupts[0],
            t.(core := c.(interrupts := c.interrupts[1..], delivered := c.delivered + [c.interrupts[0]])))
  }

  function ExpectAbort(t: Transport, slot: byte, seqNum: byte): Transport {
    if slot != 0 then t
    else if t.core.bulkAbort == Some(seqNum) then Transport(FinishAbort(t.core, slot, seqNum), [])
    else t.(core := t.core.(controlAbort := Some(AbortId(slot, seqNum))))
  }

  type word = w: int | 0 <= w < 0x1_0000

  function Control(t: Transport, requestType: byte, request: byte, value: word)
    : After<Result<seq<byte>, TransportError>, Transport>
  {
    if requestType == 0xa1 && request == GET_CLOCK_FREQUENCIES then After(Success(CLOCK_FREQUENCY_KHZ), t)
    else if requestType == 0xa1 && request == GET_DATA_RATES then After(Success(DATA_RATE_BPS), t)
    else if requestType == 0x21 && request == CONTROL_ABORT then
      After(Success([]), ExpectAbort(t, value % 0x100, value / 0x100))
    else After(Failure(Unsupported), t)
  }

  /* --------------------------------------------------- facts the loop rests on */

  lemma WholeFrameDecodes(frame: seq<byte>)
    requires WholeFrame(frame)
    ensures Decode(frame).Success?
  {
    DecodeExactly(frame);
  }

  lemma DeliverFrame(c: Core, frame: seq<byte>, stream: seq<byte>)
    requires WholeFrame(frame)
    ensures Deliver(c, frame + stream) ==
            if CompletesFrame(c.controlAbort, frame)
            then After(Success(Unit), Transport(OnFrame(c, frame), []))
            else Deliver(OnFrame(c, frame), stream)
  {
    ParseFrameFirst(frame, stream);
    assert ([frame] + Parse(stream).frames)[1..] == Parse(stream).frames;
  }

  /* --------------------------------------------------- the transport, as an object */

  function CachedLen(buffer: seq<byte>): Option<nat> {
    if |buffer| >= 10 then Some(FrameLen(buffer)) else None
  }

  function PhaseOf(inFrames: seq<seq<byte>>, outBuffer: seq<byte>): Phase {
    if inFrames != [] then ReadyToSend else if outBuffer == [] then Idle else Receiving
  }

  class CcidTransport {
    const bridge: B.CcidBridge
    var state: Phase
    var pendingInFrames: seq<seq<byte>>
    var pendingInterruptFrames: seq<seq<byte>>
    var pendingOutBuffer: seq<byte>
    var nextFrameLen: Option<nat>
    var slotPresent: bool
    var bulkAbort: Option<byte>
    var controlAbort: Option<AbortId>
    ghost var delivered: seq<seq<byte>>
    ghost var queueLog: seq<QueueEvent>

    function Repr(): set<object> {
      {this} + bridge.Repr()
    }

    ghost function CoreNow(): Core
      reads Repr()
    {
      Core(bridge.Model(), pendingInFrames, pendingInterruptFrames, slotPresent, bulkAbort, controlAbort,
           delivered, queueLog)
    }

    ghost function Model(): Transport
      reads Repr()
    {
      Transport(CoreNow(), pendingOutBuffer)
    }

    /** Between calls the buffer holds no whole frame and no oversized header, the
        cached length is exactly the one its header declares, and the phase is the
        one the queues call for. */
    ghost predicate Valid()
      reads this
    {
      && Waiting(pendingOutBuffer)
      && nextFrameLen == CachedLen(pendingOutBuffer)
      && state == PhaseOf(pendingInFrames, pendingOutBuffer)
    }

    constructor (bridge: B.CcidBridge)
      ensures Valid() && Model() == Attached(bridge.Model())
      ensures this.bridge == bridge
    {
      this.bridge := bridge;
      state, pendingInFrames, pendingInterruptFrames, pendingOutBuffer := Idle, [], [], [];
      nextFrameLen, slotPresent, bulkAbort, controlAbort := None, false, None, None;
      delivered, queueLog := [], [];
    }

    method UpdateState()
      modifies this`state, this`nextFrameLen
      ensures state == PhaseOf(pendingInFrames, pendingOutBuffer)
      ensures state == ReadyToSend <==> pendingInFrames != []
      ensures state == Idle <==> pendingInFrames == [] && pendingOutBuffer == []
      ensures nextFrameLen == if pendingInFrames == [] && pendingOutBuffer == [] then None else old(nextFrameLen)
    {
      if pendingInFrames != [] {
        state := ReadyToSend;
      } else if pendingOutBuffer == [] {
        nextFrameLen := None;
        state := Idle;
      } else {
        state := Receiving;
      }
    }

    method PushInFrame(frame: seq<byte>)
      modifies this`pendingInFrames, this`queueLog
      ensures CoreNow() == Offer(old(CoreNow()), frame)
    {
      assert this !in bridge.Repr();
      hide B.CcidBridge.Model;
      queueLog := queueLog + [Offered(frame)];
      if pendingInFrames != [] && pendingInFrames[|pendingInFrames| - 1] == frame {
        return;
      }
      if |pendingInFrames| >= MAX_PENDING_IN_FRAMES {
        pendingInFrames := [];
      }
      pendingInFrames := pendingInFrames + [frame];
    }

    method UpdateSlotPresence(present: bool)
      modifies this`pendingInterruptFrames, this`slotPresent
      ensures CoreNow() == Observe(old(CoreNow()), present)
    {
      if slotPresent == present {
        pendingInterruptFrames := pendingInterruptFrames + [[NOTIFY_SLOT_CHANGE, if present then 1 else 0]];
        return;
      }
      slotPresent := present;
      pendingInterruptFrames := pendingInterruptFrames + [[NOTIFY_SLOT_CHANGE, if present then 3 else 2]];
    }

    method EnqueueResponse(response: Response, present: bool)
      requires present == bridge.Model().card.Some?
      modifies this`pendingInFrames, this`queueLog, this`pendingInterruptFrames, this`slotPresent, this`state,
               this`nextFrameLen
      ensures CoreNow() == Respond(old(CoreNow()), response, bridge.Model())
      ensures state == PhaseOf(pendingInFrames, pendingOutBuffer) && nextFrameLen == old(nextFrameLen)
    {
      PushInFrame(Encode(response));
      UpdateSlotPresence(present);
      UpdateState();
    }

    method AskBridge(command: Command)
      modifies bridge.Repr(), this`pendingInFrames, this`queueLog, this`pendingInterruptFrames, this`slotPresent,
               this`state, this`nextFrameLen
      ensures CoreNow() == Ask(old(CoreNow()), command)
      ensures state == PhaseOf(pendingInFrames, pendingOutBuffer) && nextFrameLen == old(nextFrameLen)
    {
      hide B.Handle, Encode, B.CcidBridge.Model;
      var response := bridge.HandleCommand(command);
      var present := bridge.CardPresent();
      EnqueueResponse(response, present);
    }

    method CompleteAbort(slot: byte, seqNum: byte)
      modifies Repr()
      ensures Model() == Transport(FinishAbort(old(CoreNow()), slot, seqNum), [])
      ensures state == PhaseOf(pendingInFrames, pendingOutBuffer) && nextFrameLen == None
    {
      hide Ask, B.CcidBridge.Model;
      bulkAbort := None;
      controlAbort := None;
      pendingOutBuffer := [];
      nextFrameLen := None;
      pendingInFrames := [];
      queueLog := queueLog + [Cleared];
      assert CoreNow() == ClearAborts(old(CoreNow()));
      AskBridge(Abort(slot, seqNum));
    }

    method QueueAbortedResponse(command: Command)
      modifies this
      ensures CoreNow() == Quarantine(old(CoreNow()), command)
      ensures pendingOutBuffer == old(pendingOutBuffer)
      ensures state == PhaseOf(pendingInFrames, pendingOutBuffer) && nextFrameLen == old(nextFrameLen)
    {
      assert this !in bridge.Repr();
      hide Respond, B.CcidBridge.Model;
      var icc := bridge.CurrentIccStatus();
      var present := bridge.CardPresent();
      EnqueueResponse(SlotStatus(command.slot, command.seqNum, Fail(icc), CMD_ABORTED_ERROR, 0), present);
    }

    method TryTakeCompleteFrame() returns (r: Result<Option<seq<byte>>, TransportError>)
      requires nextFrameLen.Some? ==> nextFrameLen == CachedLen(pendingOutBuffer) && !Oversized(pendingOutBuffer)
      modifies this`state, this`nextFrameLen, this`pendingOutBuffer
      ensures state == PhaseOf(pendingInFrames, pendingOutBuffer)
      ensures var s := old(pendingOutBuffer);
              if StartsWithFrame(s) then
                && r == Success(Some(s[..FrameLen(s)]))
                && pendingOutBuffer == s[FrameLen(s)..] && nextFrameLen == None
              else if Oversized(s) then
                r == Failure(InvalidData) && pendingOutBuffer == [] && nextFrameLen == None
              else
                r == Success(None) && pendingOutBuffer == s && nextFrameLen == CachedLen(s)
    {
      if |pendingOutBuffer| < 10 {
        nextFrameLen := None;
        UpdateState();
        return Success(None);
      }

      var frameLen: nat;
      if nextFrameLen.Some? {
        frameLen := nextFrameLen.value;
      } else {
        frameLen := 10 + LeU32(pendingOutBuffer[1..5]);
        if frameLen > MAX_MESSAGE_LENGTH + 10 {
          pendingOutBuffer := [];
          nextFrameLen := None;
          UpdateState();
          return Failure(InvalidData);
        }
        nextFrameLen := Some(frameLen);
      }

      if |pendingOutBuffer| < frameLen {
        UpdateState();
        return Success(None);
      }

      nextFrameLen := None;
      var frame := pendingOutBuffer[..frameLen];
      pendingOutBuffer := pendingOutBuffer[frameLen..];
      UpdateState();
      return Success(Some(frame));
    }

    /** The body of the bulk-OUT loop: act on a decoded command. */
    method Dispatch(command: Command)
      requires nextFrameLen == None
      modifies Repr()
      ensures CoreNow() == OnCommand(old(CoreNow()), command)
      ensures pendingOutBuffer == if Completes(old(controlAbort), command) then [] else old(pendingOutBuffer)
      ensures nextFrameLen == None
    {
      hide Ask, Quarantine, FinishAbort;
      if controlAbort.Some? {
        if command.Abort? && command.slot == controlAbort.value.slot && command.seqNum == controlAbort.value.seqNum {
          CompleteAbort(command.slot, command.seqNum);
        } else {
          QueueAbortedResponse(command);
        }
        return;
      }

      bulkAbort := None;
      if command.Abort? {
        bulkAbort := Some(command.seqNum);
        return;
      }
      AskBridge(command);
    }

    method HandleBulkOut(payload: seq<byte>) returns (r: Result<Unit, TransportError>)
      requires Valid()
      modifies Repr()
      ensures Valid()
      ensures After(r, Model()) == BulkOut(old(Model()), payload)
    {
      ghost var goal := BulkOut(Model(), payload);
      hide Deliver, OnCommand, Completes, Decode, FrameLen, B.CcidBridge.Model;
      CachedLenSurvives(pendingOutBuffer, payload);
      pendingOutBuffer := pendingOutBuffer + payload;
      UpdateState();

      ghost var left := pendingOutBuffer;
      TakeOrStop(CoreNow(), left);
      var taken :- TryTakeCompleteFrame();
      while taken.Some?
        invariant taken.Some? ==>
                    WholeFrame(taken.value) && left == taken.value + pendingOutBuffer && nextFrameLen == None
        invariant taken.None? ==> left == pendingOutBuffer && Valid()
        invariant Deliver(CoreNow(), left) == goal
        decreases |left|
      {
        WholeFrameDecodes(taken.value);
        DeliverFrame(CoreNow(), taken.value, pendingOutBuffer);
        Dispatch(Decode(taken.value).value);
        left := pendingOutBuffer;
        TakeOrStop(CoreNow(), left);
        taken :- TryTakeCompleteFrame();
      }
      TakeOrStop(CoreNow(), left);
      return Success(Unit);
    }

    method HandleBulkIn(maxLen: nat) returns (packet: seq<byte>)
      requires Valid()
      modifies this
      ensures Valid()
      ensures After(packet, Model()) == BulkIn(old(Model()), maxLen)
    {
      assert this !in bridge.Repr();
      hide B.CcidBridge.Model, FrameLen;
      queueLog := queueLog + [Fetched(maxLen)];
      if pendingInFrames == [] {
        UpdateState();
        return [];
      }
      var frame := pendingInFrames[0];
      pendingInFrames := pendingInFrames[1..];
      if |frame| <= maxLen {
        if maxLen != 0 && frame != [] && |frame| % maxLen == 0 {
          pendingInFrames := [[]] + pendingInFrames;
        }
        UpdateState();
        return frame;
      }
      pendingInFrames := [frame[maxLen..]] + pendingInFrames;
      UpdateState();
      return frame[..maxLen];
    }

    method HandleInterruptIn() returns (notice: seq<byte>)
      requires Valid()
      modifies Repr()
      ensures Valid()
      ensures After(notice, Model()) == InterruptIn(old(Model()))
    {
      hide B.Refresh;
      var presence := bridge.RefreshCardPresence();
      if presence.Success? {
        UpdateSlotPresence(presence.value);
      }
      if pendingInterruptFrames == [] {
        return [];
      }
      notice := pendingInterruptFrames[0];
      pendingInterruptFrames := pendingInterruptFrames[1..];
      delivered := delivered + [notice];
    }

    method AwaitAbort(slot: byte, seqNum: byte)
      requires Valid()
      modifies Repr()
      ensures Valid()
      ensures Model() == ExpectAbort(old(Model()), slot, seqNum)
    {
      if slot != 0 {
        return;
      }
      if bulkAbort == Some(seqNum) {
        CompleteAbort(slot, seqNum);
      } else {
        controlAbort := Some(AbortId(slot, seqNum));
      }
    }

    method HandleControlRequest(requestType: byte, request: byte, value: word)
      returns (r: Result<seq<byte>, TransportError>)
      requires Valid()
      modifies Repr()
      ensures Valid()
      ensures After(r, Model()) == Control(old(Model()), requestType, request, value)
    {
      if requestType == 0xa1 && request == GET_CLOCK_FREQUENCIES {
        return Success(CLOCK_FREQUENCY_KHZ);
      }
      if requestType == 0xa1 && request == GET_DATA_RATES {
        return Success(DATA_RATE_BPS);
      }
      if requestType == 0x21 && request == CONTROL_ABORT {
        AwaitAbort(value % 0x100, value / 0x100);
        return Success([]);
      }
      return Failure(Unsupported);
    }
  }

  /** The cached length stays right when more bytes arrive behind the header. */
  lemma CachedLenSurvives(buffer: seq<byte>, payload: seq<byte>)
    requires Waiting(buffer)
    ensures CachedLen(buffer).Some? ==>
              CachedLen(buffer + payload) == CachedLen(buffer) && !Oversized(buffer + payload)
  {
    if |buffer| >= 10 {
      assert (buffer + payload)[1..5] == buffer[1..5];
    }
  }

  /** What taking one frame means for the stream that is left. */
  lemma TakeOrStop(c: Core, left: seq<byte>)
    ensures StartsWithFrame(left) ==>
              WholeFrame(left[..FrameLen(left)]) && left == left[..FrameLen(left)] + left[FrameLen(left)..]
    ensures !StartsWithFrame(left) ==>
              Deliver(c, left) == (if Oversized(left) then After(Failure(InvalidData), Transport(c, []))
                                   else After(Success(Unit), Transport(c, left)))
  {
    if StartsWithFrame(left) {
      TakeFrame(left);
    }
  }
}
