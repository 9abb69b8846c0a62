/** The PN532 reader: its target, card cache and RF field, driven over a device
    whose every answer is taken from a tape. */
module Pn532Reader {
  import opened Bytes
  import opened Nfc
  import opened Pn532Frame

  const PN532_BUFFER_SIZE := 320
  const POLL_INTERVAL_MS := 1_000
  const ABSENT_POLL_INTERVAL_MS := 2_000
  const ISO_A_TARGET_SLOT: byte := 0x01
  const LISTED: byte := 0x4b
  const EXCHANGED: byte := 0x41

  /* ------------------------------------------------------------- the device */

  datatype Request = RfField(on: bool) | ListTarget | DataExchange(data: seq<byte>)

  datatype Reply = Line(bytes: seq<byte>) | Broken(error: LinkError)

  /** The device and the clock as tapes of answers still to come, and the requests
      sent so far. An exhausted tape answers with time 0, success and a timeout. */
  datatype Device = Device(clock: seq<nat>, rfAnswers: seq<Option<LinkError>>, replies: seq<Reply>, sent: seq<Request>)
  {
    function Tick(): After<nat, Device> {
      if clock == [] then After(0, this) else After(clock[0], this.(clock := clock[1..]))
    }

    function Configure(on: bool): After<Option<LinkError>, Device> {
      var d := this.(sent := sent + [RfField(on)]);
      if rfAnswers == [] then After(None, d) else After(rfAnswers[0], d.(rfAnswers := rfAnswers[1..]))
    }

    function Serve(request: Request): After<Reply, Device> {
      var d := this.(sent := sent + [request]);
      if replies == [] then After(Broken(TimeoutAck), d) else After(replies[0], d.(replies := replies[1..]))
    }

    function Process(request: Request, response: byte): After<Result<seq<byte>, LinkError>, Device> {
      var a := Serve(request);
      match a.result
      case Line(bytes) => After(Receive(bytes, response).result, a.next)
      case Broken(error) => After(Failure(error), a.next)
    }
  }

  function MapError(e: LinkError): ReaderError {
    match e
    case BadAck => Protocol
    case BadResponseFrame => Protocol
    case Syntax => Protocol
    case CrcError => Protocol
    case BufTooSmall => Protocol
    case TimeoutAck => Transport
    case TimeoutResponse => Transport
    case InterfaceError => Io
  }

  /* ---------------------------------------------------- parsing what it says */

  predicate HasBit(b: byte, weight: nat)
    requires weight > 0
  {
    b / weight % 2 == 1
  }

  function AtsHistoricalBytes(ats: seq<byte>): ApduResult {
    if |ats| < 2 || ats[0] != |ats| then Failure(Protocol)
    else
      var t0 := ats[1];
      var start := 2 + (if HasBit(t0, 0x10) then 1 else 0)
                     + (if HasBit(t0, 0x20) then 1 else 0)
                     + (if HasBit(t0, 0x40) then 1 else 0);
      if start > |ats| then Failure(Protocol) else Success(ats[start..])
  }

  datatype Target = Target(number: byte, card: Card)

  /** What a poll response reports: no target, one target, or nonsense. */
  function ParseTarget(response: seq<byte>): Result<Option<Target>, ReaderError> {
    if response == [] || response[0] == 0 then Success(None)
    else if |response| < 6 then Failure(Protocol)
    else
      var uidEnd := 6 + response[5] as nat;
      if |response| < uidEnd then Failure(Protocol)
      else if |response| == uidEnd then
        Success(Some(Target(response[1], Card(response[6..uidEnd], IsoDep, []))))
      else
        var atsEnd := uidEnd + response[uidEnd] as nat;
        if |response| < atsEnd then Failure(Protocol)
        else
          var historical :- AtsHistoricalBytes(response[uidEnd..atsEnd]);
          Success(Some(Target(response[1], Card(response[6..uidEnd], IsoDep, historical))))
  }

  /* ------------------------------------------------- the reader, as a value */

  datatype Pn532 = Pn532(
    activeTarget: Option<byte>,
    cachedCard: Option<Card>,
    lastPoll: Option<nat>,
    rfOn: bool,
    device: Device)

  function Opened(device: Device): Pn532 {
    Pn532(None, None, None, false, device)
  }

  predicate CanReturnCachedPresence(cardCached: bool, targetActive: bool, recentlyPolled: bool) {
    recentlyPolled && (!cardCached || targetActive)
  }

  predicate RecentlyPolled(p: Pn532, now: nat) {
    p.lastPoll.Some? &&
    var elapsed := if now < p.lastPoll.value then 0 else now - p.lastPoll.value;
    elapsed < if p.cachedCard.Some? then POLL_INTERVAL_MS else ABSENT_POLL_INTERVAL_MS
  }

  function SetRf(p: Pn532, on: bool): After<OffResult, Pn532> {
    if p.rfOn == on then After(Success(Unit), p)
    else
      var a := p.device.Configure(on);
      match a.result
      case Some(error) => After(Failure(MapError(error)), p.(device := a.next))
      case None => After(Success(Unit), p.(rfOn := on, device := a.next))
  }

  function Poll(p: Pn532): After<PollResult, Pn532> {
    var tick := p.device.Tick();
    var p0 := p.(device := tick.next);
    if CanReturnCachedPresence(p.cachedCard.Some?, p.activeTarget.Some?, RecentlyPolled(p, tick.result)) then
      After(Success(p.cachedCard), p0)
    else
      var on := SetRf(p0, true);
      if on.result.Failure? then After(Failure(on.result.error), on.next)
      else
        var reply := on.next.device.Process(ListTarget, LISTED);
        Listed(on.next.(lastPoll := Some(tick.result), device := reply.next), reply.result)
  }

  /** What a fresh poll makes of the device's reply. */
  function Listed(p: Pn532, reply: Result<seq<byte>, LinkError>): After<PollResult, Pn532> {
    if reply.Failure? then After(Failure(MapError(reply.error)), p)
    else
      match ParseTarget(reply.value)
      case Failure(error) => After(Failure(error), p)
      case Success(None) =>
        var off := SetRf(p.(activeTarget := None, cachedCard := None), false);
        After(if off.result.Failure? then Failure(off.result.error) else Success(None), off.next)
      case Success(Some(target)) =>
        After(Success(Some(target.card)), p.(activeTarget := Some(target.number), cachedCard := Some(target.card)))
  }

  function PowerOff(p: Pn532): After<OffResult, Pn532> {
    SetRf(p.(activeTarget := None), false)
  }

  function Deactivate(p: Pn532): After<OffResult, Pn532> {
    SetRf(p.(activeTarget := None, cachedCard := None, lastPoll := None), false)
  }

  function Exchange(p: Pn532, apdu: seq<byte>): After<ApduResult, Pn532> {
    ExchangeVia(p, apdu, ISO_A_TARGET_SLOT)
  }

  /** The exchange with the target number it falls back on made explicit. */
  function ExchangeVia(p: Pn532, apdu: seq<byte>, fallback: byte): After<ApduResult, Pn532> {
    if |apdu| + 1 > PN532_BUFFER_SIZE - 9 then After(Failure(Unsupported), p)
    else if p.activeTarget.Some? then ExchangeWith(p, p.activeTarget.value, apdu)
    else
      var poll := Poll(p);
      match poll.result
      case Failure(error) => After(Failure(error), poll.next)
      case Success(None) => After(Failure(TargetLost), poll.next)
      case Success(Some(_)) =>
        var target := poll.next.activeTarget;
        ExchangeWith(poll.next, if target.Some? then target.value else fallback, apdu)
  }

  function ExchangeWith(p: Pn532, target: byte, apdu: seq<byte>): After<ApduResult, Pn532> {
    var reply := p.device.Process(DataExchange([target] + apdu), EXCHANGED);
    var p1 := p.(device := reply.next);
    match reply.result
    case Failure(error) => After(Failure(MapError(error)), p1)
    case Success(response) =>
      if response == [] then After(Failure(Protocol), p1)
      else if response[0] != 0 then After(Failure(TargetLost), Deactivate(p1).next)
      else After(Success(response[1..]), p1)
  }

  /* ------------------------------------------------ the reader, as an object */

  class Pn532UartReader {
    var activeTarget: Option<byte>
    var cachedCard: Option<Card>
    var lastPoll: Option<nat>
    var rfFieldEnabled: bool
    var pn532: Device

    ghost function Model(): Pn532
      reads this
    {
      Pn532(activeTarget, cachedCard, lastPoll, rfFieldEnabled, pn532)
    }

    constructor (device: Device)
      ensures Model() == Opened(device)
    {
      activeTarget, cachedCard, lastPoll, rfFieldEnabled, pn532 := None, None, None, false, device;
    }

    method ProcessDynamicResponse(request: Request, response: byte) returns (r: Result<seq<byte>, LinkError>)
      modifies this`pn532
      ensures After(r, pn532) == old(pn532).Process(request, response)
    {
      var a := pn532.Serve(request);
      pn532 := a.next;
      match a.result
      case Broken(error) =>
        r := Failure(error);
      case Line(bytes) =>
        var port := new SerialPort(bytes);
        r := ReceiveDynamicResponseFrom(port, response);
    }

    method SetRfField(enabled: bool) returns (r: OffResult)
      modifies this
      ensures After(r, Model()) == SetRf(old(Model()), enabled)
    {
      if rfFieldEnabled == enabled {
        return Success(Unit);
      }
      var a := pn532.Configure(enabled);
      pn532 := a.next;
      if a.result.Some? {
        return Failure(MapError(a.result.value));
      }
      rfFieldEnabled := enabled;
      return Success(Unit);
    }

    method PollCard() returns (r: PollResult)
      modifies this
      ensures After(r, Model()) == Poll(old(Model()))
    {
      var tick := pn532.Tick();
      var recentlyPolled :=
        RecentlyPolled(Pn532(activeTarget, cachedCard, lastPoll, rfFieldEnabled, pn532), tick.result);
      pn532 := tick.next;
      if CanReturnCachedPresence(cachedCard.Some?, activeTarget.Some?, recentlyPolled) {
        return Success(cachedCard);
      }

      var on := SetRfField(true);
      if on.Failure? {
        return Failure(on.error);
      }
      lastPoll := Some(tick.result);

      var reply := ProcessDynamicResponse(ListTarget, LISTED);
      if reply.Failure? {
        return Failure(MapError(reply.error));
      }
      var parsed := ParseTarget(reply.value);
      if parsed.Failure? {
        return Failure(parsed.error);
      }
      if parsed.value.None? {
        activeTarget := None;
        cachedCard := None;
        var off := SetRfField(false);
        if off.Failure? {
          return Failure(off.error);
        }
        return Success(None);
      }
      activeTarget := Some(parsed.value.value.number);
      cachedCard := Some(parsed.value.value.card);
      return Success(Some(parsed.value.value.card));
    }

    method TurnOff() returns (r: OffResult)
      modifies this
      ensures After(r, Model()) == PowerOff(old(Model()))
    {
      activeTarget := None;
      r := SetRfField(false);
    }

    method DeactivateTarget() returns (r: OffResult)
      modifies this
      ensures After(r, Model()) == Deactivate(old(Model()))
    {
      activeTarget := None;
      cachedCard := None;
      lastPoll := None;
      r := SetRfField(false);
    }

    method ExchangeApdu(apdu: seq<byte>) returns (r: ApduResult)
      modifies this
      ensures After(r, Model()) == Exchange(old(Model()), apdu)
    {
      if |apdu| + 1 > PN532_BUFFER_SIZE - 9 {
        return Failure(Unsupported);
      }

      var target: byte;
      if activeTarget.Some? {
        target := activeTarget.value;
      } else {
        var poll := PollCard();
        if poll.Failure? {
          return Failure(poll.error);
        }
        if poll.value.None? {
          return Failure(TargetLost);
        }
        target := if activeTarget.Some? then activeTarget.value else ISO_A_TARGET_SLOT;
      }

      var reply := ProcessDynamicResponse(DataExchange([target] + apdu), EXCHANGED);
      if reply.Failure? {
        return Failure(MapError(reply.error));
      }
      var response := reply.value;
      if response == [] {
        return Failure(Protocol);
      }
      if response[0] != 0 {
        var _ := DeactivateTarget();
        return Failure(TargetLost);
      }
      return Success(response[1..]);
    }
  }

  /* --------------------------------------------------------- what it promises */

  /** An active target always comes with its cached card and the field on. */
  predicate Consistent(p: Pn532) {
    p.activeTarget.Some? ==> p.cachedCard.Some? && p.rfOn
  }

  predicate Emptied(p: Pn532) {
    p.activeTarget.None? && p.cachedCard.None?
  }

  predicate Holds(p: Pn532, card: Card) {
    p.activeTarget.Some? && p.cachedCard == Some(card) && p.rfOn
  }

  lemma ParseTargetErrors(response: seq<byte>)
    ensures ParseTarget(response).Failure? ==> ParseTarget(response).error == Protocol
  {
  }

  /** A poll's answer is always backed by the reader's own state, on the fresh and on
      the cached path, and a failing poll never claims a lost target. */
  lemma PollAgrees(p: Pn532)
    requires Consistent(p)
    ensures var a := Poll(p);
            && Consistent(a.next)
            && (a.result.Success? && a.result.value.Some? ==> Holds(a.next, a.result.value.value))
            && (a.result == Success(None) ==> Emptied(a.next))
            && (a.result.Failure? ==> a.result.error != TargetLost)
  {
    hide Receive, ParseTarget, RecentlyPolled;
    assert forall r :: ParseTarget(r).Failure? ==> ParseTarget(r).error == Protocol by {
      forall r | ParseTarget(r).Failure? ensures ParseTarget(r).error == Protocol {
        ParseTargetErrors(r);
      }
    }
  }

  lemma ExchangeWithOutcome(p: Pn532, target: byte, apdu: seq<byte>)
    requires p.activeTarget == Some(target) && p.cachedCard.Some? && p.rfOn
    ensures var a := ExchangeWith(p, target, apdu);
            && Consistent(a.next)
            && (a.result == Failure(TargetLost) ==> Emptied(a.next))
            && (a.result.Success? ==>
                  && a.next == p.(device := a.next.device)
                  && a.next.device.sent == p.device.sent + [DataExchange([target] + apdu)])
  {
    hide Receive;
  }

  /** A lost target leaves no card behind; an exchange that succeeds went to the
      active target with exactly the APDU given, and the target stays active. */
  lemma ExchangeOutcome(p: Pn532, apdu: seq<byte>)
    requires Consistent(p)
    ensures var a := Exchange(p, apdu);
            && Consistent(a.next)
            && (a.result == Failure(TargetLost) ==> Emptied(a.next))
            && (a.result.Success? ==>
                  && a.next.activeTarget.Some? && a.next.cachedCard.Some? && a.next.rfOn
                  && a.next.device.sent != []
                  && a.next.device.sent[|a.next.device.sent| - 1] == DataExchange([a.next.activeTarget.value] + apdu))
  {
    PollAgrees(p);
    if p.activeTarget.Some? {
      ExchangeWithOutcome(p, p.activeTarget.value, apdu);
    } else {
      var p1 := Poll(p).next;
      if p1.activeTarget.Some? && p1.cachedCard.Some? {
        ExchangeWithOutcome(p1, p1.activeTarget.value, apdu);
      }
    }
  }

  /* ------------------------------------- what the device's answers come to */

  /** The classes of link failures: the line was silent, the port broke down, or what
      came back was not understood. */
  lemma ErrorClasses(e: LinkError)
    ensures MapError(e) == Transport <==> e == TimeoutAck || e == TimeoutResponse
    ensures MapError(e) == Io <==> e == InterfaceError
    ensures MapError(e) == Protocol <==>
            e == BadAck || e == BadResponseFrame || e == Syntax || e == CrcError || e == BufTooSmall
  {
  }

  /** What the device has to say to the next request, if its response code is this. */
  function Answer(d: Device, response: byte): Result<seq<byte>, LinkError> {
    if d.replies == [] then Failure(TimeoutAck)
    else match d.replies[0]
      case Line(bytes) => Receive(bytes, response).result
      case Broken(error) => Failure(error)
  }

  /** The error with which the next RF-field command fails, if the field is not already
      as wanted and the command fails at all. */
  function FieldError(rfOn: bool, wanted: bool, d: Device): Option<LinkError> {
    if rfOn == wanted || d.rfAnswers == [] then None else d.rfAnswers[0]
  }

  function Tail<T>(s: seq<T>): seq<T> {
    if s == [] then s else s[1..]
  }

  /** The device after the request to list a target, and after an RF-field command. */
  function AfterListing(d: Device): Device {
    d.(replies := Tail(d.replies), sent := d.sent + [ListTarget])
  }

  function AfterField(rfOn: bool, wanted: bool, d: Device): Device {
    if rfOn == wanted then d else d.(rfAnswers := Tail(d.rfAnswers), sent := d.sent + [RfField(wanted)])
  }

  /** Setting the field: the command is sent only when it would change something, and
      only its success is remembered. */
  lemma SetRfExactly(p: Pn532, on: bool)
    ensures var a, e := SetRf(p, on), FieldError(p.rfOn, on, p.device);
            && a.result == (if e.Some? then Failure(MapError(e.value)) else Success(Unit))
            && a.next == p.(rfOn := if e.Some? then p.rfOn else on, device := AfterField(p.rfOn, on, p.device))
  {
  }

  /** The next poll asks the device: nothing was polled yet, or not within the last
      second (two without a card), or a card is cached whose target is gone. */
  predicate Asks(p: Pn532) {
    || p.lastPoll.None?
    || p.device.Tick().result >= p.lastPoll.value + (if p.cachedCard.Some? then 1_000 else 2_000)
    || (p.cachedCard.Some? && p.activeTarget.None?)
  }

  /** A poll that does not ask repeats the cached answer and touches only the clock. */
  lemma CachedPollExactly(p: Pn532)
    requires !Asks(p)
    ensures Poll(p) == After(Success(p.cachedCard), p.(device := p.device.(clock := Tail(p.device.clock))))
  {
  }

  /** A poll that asks but cannot switch the field on fails and remembers nothing. */
  lemma FieldlessPollExactly(p: Pn532)
    requires Asks(p) && FieldError(p.rfOn, true, p.device).Some?
    ensures Poll(p) == After(Failure(MapError(FieldError(p.rfOn, true, p.device).value)),
                             p.(device := AfterField(p.rfOn, true, p.device).(clock := Tail(p.device.clock))))
  {
    SetRfExactly(p.(device := p.device.Tick().next), true);
  }

  /** The reader that has just asked, with the field on, and has not looked at the
      answer yet: the device is used up by one request, the time is noted. */
  function Asked(p: Pn532): Pn532 {
    p.(rfOn := true, lastPoll := Some(p.device.Tick().result),
       device := AfterListing(AfterField(p.rfOn, true, p.device)).(clock := Tail(p.device.clock)))
  }

  /** A reply that lists no target. */
  predicate ListsNone(reply: seq<byte>) {
    reply == [] || reply[0] == 0
  }

  /** Every other poll, from the device's answers alone. No answer, or one that is not a
      frame, is a failure of its class that leaves card and target as they were; so is a
      reply that describes no target. Only a reply that lists none empties the reader,
      whether or not the field can be switched off; only then, if it can, is "no card"
      the answer. A target described becomes the active one, its card the cached one. */
  lemma AskedPollExactly(p: Pn532)
    requires Asks(p) && FieldError(p.rfOn, true, p.device).None?
    ensures var a, q := Poll(p), Asked(p);
            var answer := Answer(p.device, 0x4b);
            if answer.Failure? then a == After(Failure(MapError(answer.error)), q)
            else if ListsNone(answer.value) then
              var e := FieldError(true, false, q.device);
              && a.result == (if e.Some? then Failure(MapError(e.value)) else Success(None))
              && a.next == q.(activeTarget := None, cachedCard := None, rfOn := e.Some?,
                              device := AfterField(true, false, q.device))
            else
              match ParseTarget(answer.value)
              case Success(Some(t)) =>
                a == After(Success(Some(t.card)), q.(activeTarget := Some(t.number), cachedCard := Some(t.card)))
              case _ => a == After(Failure(Protocol), q)
  {
    hide Receive, AtsHistoricalBytes;
    var tick := p.device.Tick();
    var on := SetRf(p.(device := tick.next), true);
    SetRfExactly(p.(device := tick.next), true);
    ProcessExactly(on.next.device, ListTarget, 0x4b);
    var answer := Answer(p.device, 0x4b);
    if answer.Success? {
      ParseTargetErrors(answer.value);
      SetRfExactly(Asked(p).(activeTarget := None, cachedCard := None), false);
    }
  }

  lemma ProcessExactly(d: Device, request: Request, response: byte)
    ensures d.Process(request, response) ==
            After(Answer(d, response), d.(replies := Tail(d.replies), sent := d.sent + [request]))
  {
    hide Receive;
  }

  /** So "no card" is reported exactly when a card may not be asked for again yet and
      none is cached, or the device lists none and the field goes off. */
  lemma NoCardExactly(p: Pn532)
    ensures Poll(p).result == Success(None) <==>
            if !Asks(p) then p.cachedCard.None?
            else
              && FieldError(p.rfOn, true, p.device).None?
              && Answer(p.device, 0x4b).Success? && ListsNone(Answer(p.device, 0x4b).value)
              && FieldError(true, false, Asked(p).device).None?
  {
    hide Poll, Receive, ParseTarget;
    if !Asks(p) {
      CachedPollExactly(p);
    } else if FieldError(p.rfOn, true, p.device).Some? {
      FieldlessPollExactly(p);
    } else {
      AskedPollExactly(p);
    }
  }

  /** On the wire: a reply framed in either format that lists no target. */
  lemma AbsenceOnWire(p: Pn532, extended: bool, reply: seq<byte>)
    requires |reply| + 2 < (if extended then 0x1_0000 else 0x100)
    requires Asks(p) && FieldError(p.rfOn, true, p.device).None? && ListsNone(reply)
    requires p.device.replies != [] && p.device.replies[0] == Line(Wire(extended, 0x4b, reply))
    ensures var e := FieldError(true, false, Asked(p).device);
            && Poll(p).result == (if e.Some? then Failure(MapError(e.value)) else Success(None))
            && Emptied(Poll(p).next) && Poll(p).next.rfOn == e.Some?
  {
    hide Receive, Wire, Poll, ParseTarget;
    AskedPollExactly(p);
    AnswerOnWire(p.device, 0x4b, extended, reply);
  }

  lemma AnswerOnWire(d: Device, response: byte, extended: bool, payload: seq<byte>)
    requires |payload| + 2 < (if extended then 0x1_0000 else 0x100)
    requires d.replies != [] && d.replies[0] == Line(Wire(extended, response, payload))
    ensures Answer(d, response) == Success(payload)
  {
    hide Receive, NormalWire, ExtendedWire;
    assert Wire(extended, response, payload) + [] == Wire(extended, response, payload);
    if extended {
      ReceiveExtended(response, payload, []);
    } else {
      ReceiveNormal(response, payload, []);
    }
  }

  /** Powering off lets the target go but keeps the card, whatever the device says. */
  lemma PowerOffExactly(p: Pn532)
    ensures var a, e := PowerOff(p), FieldError(p.rfOn, false, p.device);
            && a.result == (if e.Some? then Failure(MapError(e.value)) else Success(Unit))
            && a.next == p.(activeTarget := None, rfOn := e.Some?, device := AfterField(p.rfOn, false, p.device))
  {
    SetRfExactly(p.(activeTarget := None), false);
  }

  /** An exchange with the active target, from the device's answer alone. Status 00 is
      the only success, and what follows it the card's reply. Any other status loses the
      target: card, target and time of the last poll are forgotten, and the field is
      switched off if that can be done. No answer, or an empty one, is a failure of its
      class that leaves the reader as it was. */
  lemma ActiveExchangeExactly(p: Pn532, apdu: seq<byte>)
    requires p.activeTarget.Some? && |apdu| <= 310
    ensures var a, d := Exchange(p, apdu), p.device;
            var answer := Answer(d, 0x41);
            var q := p.(device := d.(replies := Tail(d.replies),
                                     sent := d.sent + [DataExchange([p.activeTarget.value] + apdu)]));
            if answer.Failure? then a == After(Failure(MapError(answer.error)), q)
            else if answer.value == [] then a == After(Failure(Protocol), q)
            else if answer.value[0] == 0x00 then a == After(Success(answer.value[1..]), q)
            else
              && a.result == Failure(TargetLost)
              && a.next == Pn532(None, None, None, FieldError(p.rfOn, false, q.device).Some?,
                                 AfterField(p.rfOn, false, q.device))
  {
    hide Receive;
    var request := DataExchange([p.activeTarget.value] + apdu);
    ProcessExactly(p.device, request, 0x41);
    var q := p.(device := p.device.Process(request, 0x41).next);
    SetRfExactly(q.(activeTarget := None, cachedCard := None, lastPoll := None), false);
  }

  /** Without an active target the exchange starts with a poll: one that fails fails the
      exchange alike, one that finds no card loses the target, and one that finds a card
      leads to an exchange with the target found. Too long an APDU is refused at once. */
  lemma ExchangeFinds(p: Pn532, apdu: seq<byte>)
    requires Consistent(p)
    ensures |apdu| > 310 ==> Exchange(p, apdu) == After(Failure(Unsupported), p)
    ensures |apdu| <= 310 && p.activeTarget.None? ==>
              var poll := Poll(p);
              if poll.result.Failure? then Exchange(p, apdu) == After(Failure(poll.result.error), poll.next)
              else if poll.result.value.None? then Exchange(p, apdu) == After(Failure(TargetLost), poll.next)
              else poll.next.activeTarget.Some? && Exchange(p, apdu) == Exchange(poll.next, apdu)
  {
    hide Poll, ExchangeWith;
    PollAgrees(p);
  }

  /** On the wire: a status byte and the card's reply, in a frame of either format. */
  lemma ExchangeOnWire(p: Pn532, apdu: seq<byte>, extended: bool, status: byte, data: seq<byte>)
    requires p.activeTarget.Some? && |apdu| <= 310
    requires |data| + 3 < (if extended then 0x1_0000 else 0x100)
    requires p.device.replies != [] && p.device.replies[0] == Line(Wire(extended, 0x41, [status] + data))
    ensures Exchange(p, apdu).result == if status == 0x00 then Success(data) else Failure(TargetLost)
    ensures Exchange(p, apdu).next.activeTarget.Some? <==> status == 0x00
  {
    hide Receive, Wire, Exchange;
    ActiveExchangeExactly(p, apdu);
    AnswerOnWire(p.device, 0x41, extended, [status] + data);
    assert ([status] + data)[1..] == data;
  }

  datatype ReaderOp = PollOp | OffOp | ExchangeOp(apdu: seq<byte>)

  function StepReader(p: Pn532, op: ReaderOp): Pn532 {
    match op
    case PollOp => Poll(p).next
    case OffOp => PowerOff(p).next
    case ExchangeOp(apdu) => Exchange(p, apdu).next
  }

  function RunReader(p: Pn532, ops: seq<ReaderOp>): Pn532 {
    if ops == [] then p else StepReader(RunReader(p, ops[..|ops| - 1]), ops[|ops| - 1])
  }

  lemma StepReaderConsistent(p: Pn532, op: ReaderOp)
    requires Consistent(p)
    ensures Consistent(StepReader(p, op))
  {
    hide Poll, Exchange;
    match op
    case PollOp => PollAgrees(p);
    case OffOp =>
    case ExchangeOp(apdu) => ExchangeOutcome(p, apdu);
  }

  /** Whatever the device answers, failures included, every run keeps the reader
      consistent. */
  lemma {:induction false} RunReaderConsistent(device: Device, ops: seq<ReaderOp>)
    ensures Consistent(RunReader(Opened(device), ops))
  {
    if ops != [] {
      RunReaderConsistent(device, ops[..|ops| - 1]);
      StepReaderConsistent(RunReader(Opened(device), ops[..|ops| - 1]), ops[|ops| - 1]);
    }
  }

  /** The fallback target number is never used. */
  lemma FallbackUnused(p: Pn532, apdu: seq<byte>, fallback: byte)
    requires Consistent(p)
    ensures ExchangeVia(p, apdu, fallback) == Exchange(p, apdu)
  {
    PollAgrees(p);
  }

  /** With an active target an exchange never polls: it makes exactly one request. */
  lemma ActiveExchangeDoesNotPoll(p: Pn532, apdu: seq<byte>)
    requires p.activeTarget.Some? && |apdu| <= 310
    ensures var a := Exchange(p, apdu);
            var request := DataExchange([p.activeTarget.value] + apdu);
            if a.result == Failure(TargetLost) && p.rfOn
            then a.next.device.sent == p.device.sent + [request, RfField(false)]
            else a.next.device.sent == p.device.sent + [request]
  {
  }

  /* ------------------------------------------------------------ when it polls */

  /** The next poll, whenever it comes, asks the device. */
  ghost predicate MustAsk(p: Pn532) {
    forall now: nat :: !CanReturnCachedPresence(p.cachedCard.Some?, p.activeTarget.Some?, RecentlyPolled(p, now))
  }

  /** After a fresh poll that was answered, a poll within one second (two, when no card
      was found) repeats the answer without a word to the device; a later one asks. */
  lemma FreshAnswerIsRepeated(p: Pn532)
    requires Consistent(p)
    requires !CanReturnCachedPresence(p.cachedCard.Some?, p.activeTarget.Some?,
                                      RecentlyPolled(p, p.device.Tick().result))
    requires Poll(p).result.Success?
    ensures var a := Poll(p);
            var again := Poll(a.next);
            var elapsed := a.next.device.Tick().result - p.device.Tick().result;
            if elapsed < (if a.result.value.Some? then 1_000 else 2_000)
            then again.result == a.result && again.next.device.sent == a.next.device.sent
            else a.next.device.sent < again.next.device.sent
  {
    hide Receive, ParseTarget;
    var a := Poll(p);
    var now := a.next.device.Tick().result;
    assert a.next.lastPoll == Some(p.device.Tick().result);
    if !RecentlyPolled(a.next, now) {
      PollAsks(a.next);
    }
  }

  /** A poll that is not answered from the cache sends the device a request, though
      switching the field on may already fail. */
  lemma PollAsks(p: Pn532)
    requires !CanReturnCachedPresence(p.cachedCard.Some?, p.activeTarget.Some?,
                                      RecentlyPolled(p, p.device.Tick().result))
    ensures p.device.sent < Poll(p).next.device.sent
  {
    hide Receive, RecentlyPolled, Listed;
    var tick := p.device.Tick();
    var on := SetRf(p.(device := tick.next), true);
    var reply := on.next.device.Process(ListTarget, LISTED);
    ListedOnlySends(on.next.(lastPoll := Some(tick.result), device := reply.next), reply.result);
  }

  lemma ListedOnlySends(p: Pn532, reply: Result<seq<byte>, LinkError>)
    ensures p.device.sent <= Listed(p, reply).next.device.sent
  {
    hide ParseTarget;
  }

  lemma NotAskedWhenRecent(p: Pn532)
    requires p.lastPoll.Some? && (p.cachedCard.None? || p.activeTarget.Some?)
    ensures !MustAsk(p)
  {
    assert RecentlyPolled(p, p.lastPoll.value);
  }

  /** After a power-off the next poll asks the device, whenever it comes, exactly when
      there was a card or nothing was ever polled. */
  lemma PowerOffAskedExactly(p: Pn532)
    requires Consistent(p)
    ensures MustAsk(PowerOff(p).next) <==> p.cachedCard.Some? || p.lastPoll.None?
  {
    if p.cachedCard.None? && p.lastPoll.Some? {
      NotAskedWhenRecent(PowerOff(p).next);
    }
  }

  /** After a lost target it does exactly when a target had been there to lose: one
      active before the exchange, or one found by the poll the exchange starts with.
      An absence found by that poll is cached like any other. */
  lemma LostTargetAskedExactly(p: Pn532, apdu: seq<byte>)
    requires Consistent(p) && Exchange(p, apdu).result == Failure(TargetLost)
    ensures MustAsk(Exchange(p, apdu).next) <==> p.activeTarget.Some? || Poll(p).result != Success(None)
  {
    hide Receive, Poll, ExchangeWith;
    PollAgrees(p);
    if p.activeTarget.Some? {
      LostIsForgotten(p, p.activeTarget.value, apdu);
    } else if Poll(p).result == Success(None) {
      AbsenceIsRemembered(p);
      NotAskedWhenRecent(Poll(p).next);
    } else {
      LostIsForgotten(Poll(p).next, Poll(p).next.activeTarget.value, apdu);
    }
  }

  lemma LostIsForgotten(p: Pn532, target: byte, apdu: seq<byte>)
    requires ExchangeWith(p, target, apdu).result == Failure(TargetLost)
    ensures MustAsk(ExchangeWith(p, target, apdu).next)
  {
    hide Receive;
  }

  lemma AbsenceIsRemembered(p: Pn532)
    requires Poll(p).result == Success(None)
    ensures Poll(p).next.lastPoll.Some?
  {
    hide Receive, ParseTarget;
  }

  /** Such an absence: the exchange reports a lost target, and the poll that follows is
      answered from the cache. */
  lemma AbsenceIsNotAskedAgain()
    ensures var device := Device([5, 5], [], [Line(NormalWire(LISTED, [0]))], []);
            var a := Exchange(Opened(device), []);
            && a.result == Failure(TargetLost) && !MustAsk(a.next)
            && Poll(a.next).result == Success(None) && Poll(a.next).next.device.sent == a.next.device.sent
  {
    var wire := NormalWire(LISTED, [0]);
    var p := Opened(Device([5, 5], [], [Line(wire)], []));
    ReceiveNormal(LISTED, [0], []);
    assert wire + [] == wire;
    assert Poll(p).result == Success(None) && Poll(p).next.device.clock == [5];
    AbsenceIsRemembered(p);
    NotAskedWhenRecent(Exchange(p, []).next);
  }
}
