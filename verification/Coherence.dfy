/** The bridge on a PN532 reader: when the two agree about the card. */
module Coherence {
  import opened Bytes
  import opened Nfc
  import opened CcidProtocol
  import opened CcidBridge
  import opened BridgeRuns
  import opened P = Pn532Reader
  import NfcReader
  import Pn532Frame

  /** The card the bridge holds is the reader's own, and an active slot is backed by
      an active target with the RF field on. */
  predicate Coherent(b: Bridge) {
    && b.reader.Uart? && Consistent(b.reader.pn532) && Sound(b)
    && (b.card.Some? ==> b.reader.pn532.cachedCard == b.card)
    && (Icc(b) == Active ==> Holds(b.reader.pn532, b.card.value))
  }

  /** A fresh poll lists no target and switching the field off then fails. */
  predicate OffFailsAfterAbsence(p: Pn532) {
    var tick := p.device.Tick();
    var on := SetRf(p.(device := tick.next), true);
    var reply := on.next.device.Process(ListTarget, LISTED);
    && !CanReturnCachedPresence(p.cachedCard.Some?, p.activeTarget.Some?, RecentlyPolled(p, tick.result))
    && on.result.Success?
    && reply.result.Success? && ParseTarget(reply.result.value) == Success(None)
    && reply.next.rfAnswers != [] && reply.next.rfAnswers[0].Some?
  }

  /** A failed poll leaves the cached card alone, except in that one case. */
  lemma FailedPollKeepsCard(p: Pn532)
    requires Consistent(p) && P.Poll(p).result.Failure?
    ensures if OffFailsAfterAbsence(p) then Emptied(P.Poll(p).next)
            else P.Poll(p).next.cachedCard == p.cachedCard
  {
  }

  lemma AbsenceFailsPoll(p: Pn532)
    requires OffFailsAfterAbsence(p)
    ensures P.Poll(p).result.Failure?
  {
  }

  /** The steps after which bridge and reader disagree: a refresh that loses the card
      in the reader only, and a failed power-off of an active slot. */
  predicate Breaks(b: Bridge, op: BridgeOp)
    requires b.reader.Uart?
  {
    if op.Sense? || op.command.GetSlotStatus? then
      Icc(b) == Inactive && OffFailsAfterAbsence(b.reader.pn532)
    else
      op.command.IccPowerOff? && Icc(b) == Active && NfcReader.PowerOff(b.reader).result.Failure?
  }

  lemma RefreshCoherence(b: Bridge)
    requires Coherent(b)
    ensures Coherent(Refresh(b).next) <==> !(Icc(b) == Inactive && OffFailsAfterAbsence(b.reader.pn532))
    ensures Icc(b) != Inactive ==> Coherent(Refresh(b).next)
  {
    var p := b.reader.pn532;
    PollAgrees(p);
    if P.Poll(p).result.Failure? {
      FailedPollKeepsCard(p);
    } else if OffFailsAfterAbsence(p) {
      AbsenceFailsPoll(p);
    }
  }

  lemma PowerOnCoherence(b: Bridge, c: Command)
    requires Coherent(b)
    ensures Coherent(PowerOn(b, c).next)
  {
    PollAgrees(b.reader.pn532);
  }

  lemma PowerDownCoherence(b: Bridge, c: Command)
    requires Coherent(b)
    ensures Coherent(PowerDown(b, c).next) <==>
            !(Icc(b) == Active && NfcReader.PowerOff(b.reader).result.Failure?)
  {
  }

  lemma QueryCoherence(b: Bridge, c: Command)
    requires Coherent(b)
    ensures Coherent(Query(b, c).next) <==> !(Icc(b) == Inactive && OffFailsAfterAbsence(b.reader.pn532))
  {
    RefreshCoherence(b);
    PollAgrees(b.reader.pn532);
  }

  lemma TransferCoherence(b: Bridge, c: Command, payload: seq<byte>)
    requires Coherent(b)
    ensures Coherent(Transfer(b, c, payload).next)
  {
    if b.card.None? {
      RefreshCoherence(b);
    } else if b.powered {
      ExchangeOutcome(b.reader.pn532, NormalizeApdu(payload));
    }
  }

  /** One step keeps bridge and reader coherent exactly when it is not one of those
      that break it. */
  lemma StepCoherentExactly(b: Bridge, op: BridgeOp)
    requires Coherent(b)
    ensures Coherent(Step(b, op)) <==> !Breaks(b, op)
  {
    if op.Sense? {
      RefreshCoherence(b);
    } else {
      var c := op.command;
      match c
      case IccPowerOn(_, _, _) => PowerOnCoherence(b, c);
      case IccPowerOff(_, _) => PowerDownCoherence(b, c);
      case GetSlotStatus(_, _) => QueryCoherence(b, c);
      case XfrBlock(_, _, _, _, payload) => TransferCoherence(b, c, payload);
      case _ =>
    }
  }

  /** The RF-field command never fails. */
  predicate RfReliable(d: Device) {
    forall i :: 0 <= i < |d.rfAnswers| ==> d.rfAnswers[i].None?
  }

  lemma SetRfReliable(p: Pn532, on: bool)
    requires RfReliable(p.device)
    ensures var a := SetRf(p, on);
            a.result.Success? && RfReliable(a.next.device) && a.next.device.replies == p.device.replies
  {
  }

  lemma ProcessReliable(d: Device, request: Request, response: byte)
    requires RfReliable(d)
    ensures RfReliable(d.Process(request, response).next)
  {
    assert d.Process(request, response).next.rfAnswers == d.rfAnswers;
  }

  lemma ListedReliable(p: Pn532, reply: Result<seq<byte>, Pn532Frame.LinkError>)
    requires RfReliable(p.device)
    ensures RfReliable(Listed(p, reply).next.device)
  {
    SetRfReliable(p.(activeTarget := None, cachedCard := None), false);
  }

  lemma PollReliable(p: Pn532)
    requires RfReliable(p.device)
    ensures RfReliable(P.Poll(p).next.device) && !OffFailsAfterAbsence(p)
  {
    var tick := p.device.Tick();
    var on := SetRf(p.(device := tick.next), true);
    SetRfReliable(p.(device := tick.next), true);
    ProcessReliable(on.next.device, ListTarget, LISTED);
    var reply := on.next.device.Process(ListTarget, LISTED);
    ListedReliable(on.next.(lastPoll := Some(tick.result), device := reply.next), reply.result);
  }

  lemma ExchangeWithReliable(p: Pn532, target: byte, apdu: seq<byte>)
    requires RfReliable(p.device)
    ensures RfReliable(ExchangeWith(p, target, apdu).next.device)
  {
    var request := DataExchange([target] + apdu);
    ProcessReliable(p.device, request, EXCHANGED);
    var p1 := p.(device := p.device.Process(request, EXCHANGED).next);
    SetRfReliable(p1.(activeTarget := None, cachedCard := None, lastPoll := None), false);
  }

  lemma ExchangeReliable(p: Pn532, apdu: seq<byte>)
    requires RfReliable(p.device)
    ensures RfReliable(P.Exchange(p, apdu).next.device)
  {
    PollReliable(p);
    var p1 := P.Poll(p).next;
    if p.activeTarget.Some? {
      ExchangeWithReliable(p, p.activeTarget.value, apdu);
    } else {
      ExchangeWithReliable(p1, if p1.activeTarget.Some? then p1.activeTarget.value else ISO_A_TARGET_SLOT, apdu);
    }
  }

  predicate Reliable(b: Bridge) {
    b.reader.Uart? && RfReliable(b.reader.pn532.device)
  }

  lemma RefreshReliable(b: Bridge)
    requires Reliable(b)
    ensures Reliable(Refresh(b).next)
  {
    PollReliable(b.reader.pn532);
  }

  lemma TransferReliable(b: Bridge, c: Command, payload: seq<byte>)
    requires Reliable(b)
    ensures Reliable(Transfer(b, c, payload).next)
  {
    RefreshReliable(b);
    var b1 := if b.card.None? then Refresh(b).next else b;
    ExchangeReliable(b1.reader.pn532, NormalizeApdu(payload));
    assert Reliable(CallExchange(b1, NormalizeApdu(payload)).next);
  }

  lemma PowerReliable(b: Bridge, c: Command)
    requires Reliable(b)
    ensures Reliable(PowerOn(b, c).next) && Reliable(PowerDown(b, c).next)
    ensures NfcReader.PowerOff(b.reader).result.Success?
  {
    PollReliable(b.reader.pn532);
    SetRfReliable(b.reader.pn532.(activeTarget := None), false);
  }

  lemma StepReliable(b: Bridge, op: BridgeOp)
    requires Reliable(b)
    ensures Reliable(Step(b, op)) && !Breaks(b, op)
  {
    if op.Sense? || op.command.GetSlotStatus? {
      RefreshReliable(b);
      PollReliable(b.reader.pn532);
    } else if op.command.IccPowerOn? || op.command.IccPowerOff? {
      PowerReliable(b, op.command);
    } else if IsTransfer(op) {
      TransferReliable(b, op.command, op.command.payload);
    }
  }

  /** With an RF field that can always be switched, every run of every length keeps
      the bridge and its reader coherent. */
  lemma {:induction false} RunCoherent(device: Device, ops: seq<BridgeOp>)
    requires RfReliable(device)
    ensures var b := Run(Fresh(NfcReader.Uart(Opened(device))), ops);
            Coherent(b) && Reliable(b)
  {
    if ops != [] {
      var before := ops[..|ops| - 1];
      RunCoherent(device, before);
      var b := Run(Fresh(NfcReader.Uart(Opened(device))), before);
      StepCoherentExactly(b, ops[|ops| - 1]);
      StepReliable(b, ops[|ops| - 1]);
    }
  }

  /** The transfer of command c, made in state b, sends one data exchange to the active
      target before anything else, and never polls. */
  predicate Direct(b: Bridge, c: Command)
    requires c.XfrBlock? && b.reader.Uart? && b.reader.pn532.activeTarget.Some?
  {
    Handle(b, c).next.reader.Uart? &&
    var p, p1 := b.reader.pn532, Handle(b, c).next.reader.pn532;
    var request := DataExchange([p.activeTarget.value] + NormalizeApdu(c.payload));
    p1.device.sent == p.device.sent + [request] || p1.device.sent == p.device.sent + [request, RfField(false)]
  }

  lemma HeldTransferIsDirect(b: Bridge, c: Command)
    requires c.XfrBlock? && |c.payload| <= 310
    requires b.reader.Uart? && b.powered && b.card.Some? && Holds(b.reader.pn532, b.card.value)
    ensures Direct(b, c)
  {
    ActiveExchangeDoesNotPoll(b.reader.pn532, NormalizeApdu(c.payload));
  }

  /** Hence a transfer on an active slot sends the card one data exchange, addressed
      to the active target, without polling first. */
  lemma ActiveTransferIsDirect(device: Device, ops: seq<BridgeOp>, c: Command)
    requires RfReliable(device) && c.XfrBlock? && |c.payload| <= 310
    requires Icc(Run(Fresh(NfcReader.Uart(Opened(device))), ops)) == Active
    ensures var b := Run(Fresh(NfcReader.Uart(Opened(device))), ops);
            && b.reader.Uart? && b.reader.pn532.activeTarget.Some? && b.reader.pn532.cachedCard == b.card
            && Direct(b, c)
  {
    RunCoherent(device, ops);
    HeldTransferIsDirect(Run(Fresh(NfcReader.Uart(Opened(device))), ops), c);
  }

  /* ------------------------------------------- which card a session talks to */

  predicate PowersOff(op: BridgeOp) {
    op.Submit? && op.command.IccPowerOff?
  }

  /** The reader side of a bridge on a PN532 in any run, failures included. */
  predicate Attended(b: Bridge) {
    b.reader.Uart? && Consistent(b.reader.pn532) && Sound(b) && b.readerName == "pn532-uart"
  }

  lemma StepAttended(b: Bridge, op: BridgeOp)
    requires Attended(b)
    ensures Attended(Step(b, op))
  {
    hide P.Poll, P.Exchange, BuildPseudoAtr;
    StepSound(b, op);
    var p := b.reader.pn532;
    PollAgrees(p);
    if IsTransfer(op) && b.powered {
      ExchangeOutcome(p, NormalizeApdu(op.command.payload));
    }
  }

  lemma {:induction false} RunAttended(device: Device, ops: seq<BridgeOp>)
    ensures Attended(Run(Fresh(NfcReader.Uart(Opened(device))), ops))
  {
    hide Step;
    if ops != [] {
      RunAttended(device, ops[..|ops| - 1]);
      StepAttended(Run(Fresh(NfcReader.Uart(Opened(device))), ops[..|ops| - 1]), ops[|ops| - 1]);
    }
  }

  /** A transfer that finds no active target polls, and meets the card given. */
  predicate Regains(p: Pn532, op: BridgeOp, card: Card) {
    IsTransfer(op) && |op.command.payload| <= 310 && p.activeTarget.None? && P.Poll(p).result == Success(Some(card))
  }

  /** Within a session, whatever the device answers, the reader keeps the session's card
      at hand exactly as long as the host asks for no power-off (one that succeeds ends
      the session); and once it is gone, exactly a transfer whose own poll happens to
      meet that card brings it back. */
  lemma SessionStepHolds(b: Bridge, op: BridgeOp)
    requires Attended(b) && b.powered && VerdictOf(b, op) == Keep
    ensures Step(b, op).reader.Uart?
    ensures var held, after := Holds(b.reader.pn532, b.card.value), Holds(Step(b, op).reader.pn532, b.card.value);
            after <==> if held then !PowersOff(op) else Regains(b.reader.pn532, op, b.card.value)
  {
    hide P.Poll, ExchangeWith, BuildPseudoAtr;
    var p := b.reader.pn532;
    if IsTransfer(op) {
      SessionTransferHolds(p, NormalizeApdu(op.command.payload), b.card.value);
    }
  }

  lemma SessionTransferHolds(p: Pn532, apdu: seq<byte>, card: Card)
    requires Consistent(p) && P.Exchange(p, apdu).result != Failure(TargetLost)
    ensures Holds(P.Exchange(p, apdu).next, card) <==>
            Holds(p, card) || (|apdu| <= 310 && p.activeTarget.None? && P.Poll(p).result == Success(Some(card)))
  {
    hide P.Poll, ExchangeWith;
    PollAgrees(p);
    if p.activeTarget.Some? {
      ExchangeWithKeeps(p, p.activeTarget.value, apdu);
    } else {
      var p1 := P.Poll(p).next;
      FailedPollActivates(p);
      ExchangeWithKeeps(p1, if p1.activeTarget.Some? then p1.activeTarget.value else ISO_A_TARGET_SLOT, apdu);
    }
  }

  lemma ExchangeWithKeeps(p: Pn532, target: byte, apdu: seq<byte>)
    ensures var a := ExchangeWith(p, target, apdu);
            a.result != Failure(TargetLost) ==> a.next == p.(device := a.next.device)
  {
    hide Pn532Frame.Receive;
  }

  lemma FailedPollActivates(p: Pn532)
    requires p.activeTarget.None?
    ensures P.Poll(p).result.Failure? ==> P.Poll(p).next.activeTarget.None?
  {
    hide Pn532Frame.Receive, ParseTarget;
  }

  lemma GrantHolds(b: Bridge, op: BridgeOp)
    requires Attended(b) && VerdictOf(b, op) == Grant
    ensures Step(b, op).reader.Uart? && Holds(Step(b, op).reader.pn532, GrantedCard(b, op))
  {
    hide P.Poll, BuildPseudoAtr;
    PollAgrees(b.reader.pn532);
  }

  /** Over whole runs on any device, RF failures included: in a session in which the host
      has asked for no power-off, the reader has the session's card at hand. */
  lemma {:induction false} SessionHoldsCard(device: Device, ops: seq<BridgeOp>, j: nat)
    requires Session(Fresh(NfcReader.Uart(Opened(device))), ops, j)
    requires forall k :: j < k < |ops| ==> !PowersOff(ops[k])
    ensures var b0 := Fresh(NfcReader.Uart(Opened(device)));
            var b := Run(b0, ops);
            && b.powered && b.reader.Uart?
            && b.card == Some(CardOf(b0, ops, j)) && Holds(b.reader.pn532, CardOf(b0, ops, j))
  {
    hide Step, VerdictOf, CardOf, Holds, GrantedCard, P.Poll;
    var b0 := Fresh(NfcReader.Uart(Opened(device)));
    var n := |ops| - 1;
    var s := Run(b0, ops[..n]);
    RunAttended(device, ops[..n]);
    SessionStep(b0, ops, j);
    PoweredExactly(b0, ops);
    if j < n {
      assert forall k :: j < k < n ==> ops[..n][k] == ops[k];
      SessionHoldsCard(device, ops[..n], j);
      SessionStepHolds(s, ops[n]);
    } else {
      VerdictAt(b0, ops, n);
      GrantHolds(s, ops[n]);
      CardOfLast(b0, ops);
    }
  }

  lemma CardOfLast(b: Bridge, ops: seq<BridgeOp>)
    requires ops != [] && Verdicts(b, ops)[|ops| - 1] == Grant
    ensures var n := |ops| - 1;
            Grants(Run(b, ops[..n]), ops[n]) && CardOf(b, ops, n) == GrantedCard(Run(b, ops[..n]), ops[n])
  {
    hide Grants, GrantedCard, Step, Revokes;
    VerdictAt(b, ops, |ops| - 1);
  }

  /** And a transfer then goes straight to that card. */
  lemma SessionTransferIsDirect(device: Device, ops: seq<BridgeOp>, j: nat, c: Command)
    requires Session(Fresh(NfcReader.Uart(Opened(device))), ops, j)
    requires forall k :: j < k < |ops| ==> !PowersOff(ops[k])
    requires c.XfrBlock? && |c.payload| <= 310
    ensures var b0 := Fresh(NfcReader.Uart(Opened(device)));
            var b := Run(b0, ops);
            && b.reader.Uart? && Holds(b.reader.pn532, CardOf(b0, ops, j))
            && Direct(b, c)
  {
    hide Session, Run, CardOf, Direct;
    SessionHoldsCard(device, ops, j);
    HeldTransferIsDirect(Run(Fresh(NfcReader.Uart(Opened(device))), ops), c);
  }

  /** From the wire to the host: what a transfer to a card at hand is answered with, by the
      status byte and the bytes that the PN532 sends, in a frame of either format. */
  lemma TransferOnWire(b: Bridge, c: Command, extended: bool, status: byte, data: seq<byte>)
    requires Attended(b) && b.powered && Holds(b.reader.pn532, b.card.value)
    requires c.XfrBlock? && |c.payload| <= 310 && |data| + 3 < (if extended then 0x1_0000 else 0x100)
    requires var replies := b.reader.pn532.device.replies;
             replies != [] && replies[0] == Line(Pn532Frame.Wire(extended, 0x41, [status] + data))
    ensures var a := Handle(b, c);
            if status == 0x00 then
              a.result == DataBlock(c.slot, c.seqNum, Ok(Active), 0, 0, data) && Icc(a.next) == Active
            else
              a.result == SlotStatus(c.slot, c.seqNum, Fail(NotPresent), 0xff, 0) && Icc(a.next) == NotPresent
  {
    hide P.Exchange, Pn532Frame.Wire, NormalizeApdu;
    NormalizedApdu(c.payload);
    ExchangeOnWire(b.reader.pn532, NormalizeApdu(c.payload), extended, status, data);
  }

  /** The condition is needed: here a failed power-off leaves the slot active while
      the reader has let its target go. */
  lemma FailedOffBreaksCoherence()
    ensures var reply := [1, 1, 0, 0, 0, 0];
            var device := Device([], [None, Some(Pn532Frame.TimeoutAck)],
                                 [Line(Pn532Frame.NormalWire(LISTED, reply))], []);
            var b := Run(Fresh(NfcReader.Uart(Opened(device))),
                         [Submit(IccPowerOn(0, 1, 0)), Submit(IccPowerOff(0, 2))]);
            Icc(b) == Active && b.reader.Uart? && b.reader.pn532.activeTarget.None?
  {
    var reply: seq<byte> := [1, 1, 0, 0, 0, 0];
    var wire := Pn532Frame.NormalWire(LISTED, reply);
    var device := Device([], [None, Some(Pn532Frame.TimeoutAck)], [Line(wire)], []);
    var b0 := Fresh(NfcReader.Uart(Opened(device)));
    var on, off := Submit(IccPowerOn(0, 1, 0)), Submit(IccPowerOff(0, 2));
    Pn532Frame.ReceiveNormal(LISTED, reply, []);
    assert wire + [] == wire;
    assert ParseTarget(reply) == Success(Some(Target(1, Card([], IsoDep, [])))) by {
      assert reply[6..6] == [];
    }
    assert [on, off][..1] == [on] && [on][..0] == [];
    var b1 := Step(b0, on);
    assert b1.card.Some? && b1.powered && b1.reader.pn532.rfOn;
    assert Run(b0, [on]) == b1;
    assert b1.reader.pn532.device.rfAnswers == [Some(Pn532Frame.TimeoutAck)];
  }

  lemma ReadsBack(response: byte, payload: seq<byte>)
    requires |payload| <= 0xfd
    ensures Pn532Frame.Receive(Pn532Frame.NormalWire(response, payload), response).result == Success(payload)
  {
    hide Pn532Frame.NormalWire, Pn532Frame.Receive;
    Pn532Frame.ReceiveNormal(response, payload, []);
    assert Pn532Frame.NormalWire(response, payload) + [] == Pn532Frame.NormalWire(response, payload);
  }

  /** A PN532 that lists a card once and then none, and whose fourth RF-field command
      fails. */
  function VanishingCard(): Device {
    Device([], [None, None, None, Some(Pn532Frame.TimeoutAck)],
           [Line(Pn532Frame.NormalWire(LISTED, [1, 1, 0, 0, 0, 0])), Line(Pn532Frame.NormalWire(LISTED, [0]))], [])
  }

  lemma VanishingReplies()
    ensures var d := VanishingCard();
            && Pn532Frame.Receive(d.replies[0].bytes, LISTED).result == Success([1, 1, 0, 0, 0, 0])
            && Pn532Frame.Receive(d.replies[1].bytes, LISTED).result == Success([0])
            && ParseTarget([1, 1, 0, 0, 0, 0]) == Success(Some(Target(1, Card([], IsoDep, []))))
            && ParseTarget([0]) == Success(None)
  {
    hide Pn532Frame.NormalWire, Pn532Frame.Receive;
    ReadsBack(LISTED, [1, 1, 0, 0, 0, 0]);
    ReadsBack(LISTED, [0]);
    assert [1, 1, 0, 0, 0, 0 as byte][6..6] == [];
  }

  lemma VanishingPowerOn()
    ensures var d := VanishingCard();
            var b := Step(Fresh(NfcReader.Uart(Opened(d))), Submit(IccPowerOn(0, 1, 0)));
            && b.card == Some(Card([], IsoDep, [])) && b.powered && b.reader.Uart?
            && b.reader.pn532.activeTarget == Some(1) && b.reader.pn532.cachedCard == b.card && b.reader.pn532.rfOn
            && b.reader.pn532.device.rfAnswers == d.rfAnswers[1..] && b.reader.pn532.device.replies == d.replies[1..]
  {
    hide Pn532Frame.Receive, ParseTarget, BuildPseudoAtr, Pn532Frame.NormalWire;
    VanishingReplies();
  }

  lemma VanishingPowerOff(b: Bridge)
    requires b == Step(Fresh(NfcReader.Uart(Opened(VanishingCard()))), Submit(IccPowerOn(0, 1, 0)))
    ensures var b1 := Step(b, Submit(IccPowerOff(0, 2)));
            && b1.card == Some(Card([], IsoDep, [])) && !b1.powered && b1.reader.Uart?
            && b1.reader.pn532.activeTarget.None? && b1.reader.pn532.cachedCard == b1.card && !b1.reader.pn532.rfOn
            && b1.reader.pn532.device.rfAnswers == VanishingCard().rfAnswers[2..]
            && b1.reader.pn532.device.replies == VanishingCard().replies[1..]
            && Sound(b1)
  {
    hide NfcReader.Poll, Pn532Frame.NormalWire;
    VanishingPowerOn();
    StepSound(Fresh(NfcReader.Uart(Opened(VanishingCard()))), Submit(IccPowerOn(0, 1, 0)));
    StepSound(b, Submit(IccPowerOff(0, 2)));
  }

  /** The other way: a card powered on and off is taken away, and the refresh that finds
      it gone cannot switch the field off. The reader forgets the card, the bridge
      keeps it. */
  lemma FailedOffAfterAbsenceBreaksCoherence()
    ensures var b := Run(Fresh(NfcReader.Uart(Opened(VanishingCard()))),
                         [Submit(IccPowerOn(0, 1, 0)), Submit(IccPowerOff(0, 2))]);
            var b1 := Step(b, Sense);
            && Coherent(b) && Icc(b) == Inactive
            && b1.reader.Uart? && b1.card.Some? && Emptied(b1.reader.pn532) && !Coherent(b1)
  {
    hide Pn532Frame.Receive, ParseTarget, Pn532Frame.NormalWire, P.Poll, Step;
    var b0 := Fresh(NfcReader.Uart(Opened(VanishingCard())));
    var on, off := Submit(IccPowerOn(0, 1, 0)), Submit(IccPowerOff(0, 2));
    assert [on, off][..1] == [on] && [on][..0] == [];
    var b1 := Step(b0, on);
    assert Run(b0, [on]) == b1;
    VanishingPowerOff(b1);
    var b2 := Step(b1, off);
    VanishingReplies();
    assert OffFailsAfterAbsence(b2.reader.pn532);
    AbsenceBreaks(b2);
  }

  lemma AbsenceBreaks(b: Bridge)
    requires Coherent(b) && Icc(b) == Inactive && OffFailsAfterAbsence(b.reader.pn532)
    ensures var b1 := Step(b, Sense);
            b1.reader.Uart? && b1.card.Some? && Emptied(b1.reader.pn532) && !Coherent(b1)
  {
    hide P.Poll, OffFailsAfterAbsence;
    AbsenceFailsPoll(b.reader.pn532);
    FailedPollKeepsCard(b.reader.pn532);
  }

  /** A PN532 that lists card AA first and card BB after it, answers one exchange, and
      cannot switch its field off. */
  function SwappedCards(): Device {
    Device([], [None, Some(Pn532Frame.TimeoutAck)],
           [Line(Pn532Frame.NormalWire(LISTED, [1, 1, 0, 0, 0, 1, 0xaa])),
            Line(Pn532Frame.NormalWire(LISTED, [1, 1, 0, 0, 0, 1, 0xbb])),
            Line(Pn532Frame.NormalWire(EXCHANGED, [0, 0x90, 0]))], [])
  }

  lemma ListsUid(uid: byte)
    ensures ParseTarget([1, 1, 0, 0, 0, 1, uid]) == Success(Some(Target(1, Card([uid], IsoDep, []))))
  {
    assert [1, 1, 0, 0, 0, 1, uid][6..7] == [uid];
  }

  lemma SwappedReplies()
    ensures var d := SwappedCards();
            && Pn532Frame.Receive(d.replies[0].bytes, LISTED).result == Success([1, 1, 0, 0, 0, 1, 0xaa])
            && Pn532Frame.Receive(d.replies[1].bytes, LISTED).result == Success([1, 1, 0, 0, 0, 1, 0xbb])
            && Pn532Frame.Receive(d.replies[2].bytes, EXCHANGED).result == Success([0, 0x90, 0])
            && ParseTarget([1, 1, 0, 0, 0, 1, 0xaa]) == Success(Some(Target(1, Card([0xaa], IsoDep, []))))
            && ParseTarget([1, 1, 0, 0, 0, 1, 0xbb]) == Success(Some(Target(1, Card([0xbb], IsoDep, []))))
  {
    hide Pn532Frame.NormalWire, Pn532Frame.Receive, ParseTarget;
    ReadsBack(LISTED, [1, 1, 0, 0, 0, 1, 0xaa]);
    ReadsBack(LISTED, [1, 1, 0, 0, 0, 1, 0xbb]);
    ReadsBack(EXCHANGED, [0, 0x90, 0]);
    ListsUid(0xaa);
    ListsUid(0xbb);
  }

  lemma SwappedPowerOn()
    ensures var d := SwappedCards();
            var b := Step(Fresh(NfcReader.Uart(Opened(d))), Submit(IccPowerOn(0, 1, 0)));
            && b.card == Some(Card([0xaa], IsoDep, [])) && b.powered && b.reader.Uart?
            && b.reader.pn532.activeTarget == Some(1) && b.reader.pn532.cachedCard == b.card && b.reader.pn532.rfOn
            && b.reader.pn532.device.rfAnswers == d.rfAnswers[1..] && b.reader.pn532.device.replies == d.replies[1..]
            && b.reader.pn532.device.clock == []
  {
    hide Pn532Frame.Receive, ParseTarget, BuildPseudoAtr, Pn532Frame.NormalWire;
    SwappedReplies();
  }

  lemma SwappedPowerOff(b: Bridge)
    requires b == Step(Fresh(NfcReader.Uart(Opened(SwappedCards()))), Submit(IccPowerOn(0, 1, 0)))
    ensures var b1 := Step(b, Submit(IccPowerOff(0, 2)));
            && b1.card == Some(Card([0xaa], IsoDep, [])) && b1.powered && b1.reader.Uart?
            && b1.reader.pn532.activeTarget.None? && b1.reader.pn532.cachedCard == b1.card && b1.reader.pn532.rfOn
            && b1.reader.pn532.device.replies == SwappedCards().replies[1..]
            && b1.reader.pn532.device.clock == []
  {
    hide NfcReader.Poll, Pn532Frame.NormalWire;
    SwappedPowerOn();
  }

  /** A session that changes cards: after a power-off that fails, the next transfer polls,
      finds another card in the field, and exchanges its APDU with that one, while the
      slot stays active and the bridge still names the first. */
  lemma FailedOffSwitchesCards()
    ensures var b := Run(Fresh(NfcReader.Uart(Opened(SwappedCards()))),
                         [Submit(IccPowerOn(0, 1, 0)), Submit(IccPowerOff(0, 2))]);
            var a := Handle(b, XfrBlock(0, 3, 0, 0, [0, 0xa4]));
            && a.result == DataBlock(0, 3, Ok(Active), 0, 0, [0x90, 0])
            && Icc(a.next) == Active && a.next.card == Some(Card([0xaa], IsoDep, []))
            && b.reader.Uart? && a.next.reader.Uart?
            && a.next.reader.pn532.device.sent == b.reader.pn532.device.sent + [ListTarget, DataExchange([1, 0, 0xa4])]
            && Holds(a.next.reader.pn532, Card([0xbb], IsoDep, []))
  {
    hide P.Exchange, Handle, Step, NormalizeApdu, SwappedCards;
    var b0 := Fresh(NfcReader.Uart(Opened(SwappedCards())));
    var on, off := Submit(IccPowerOn(0, 1, 0)), Submit(IccPowerOff(0, 2));
    assert [on, off][..1] == [on] && [on][..0] == [];
    var b1 := Step(b0, on);
    assert Run(b0, [on]) == b1;
    SwappedPowerOff(b1);
    var b2 := Step(b1, off);
    assert Run(b0, [on, off]) == b2;
    SwappedTransfer(b2.reader.pn532);
    NormalizedApdu([0, 0xa4]);
    TransferAnswered(b2, XfrBlock(0, 3, 0, 0, [0, 0xa4]));
  }

  lemma TransferAnswered(b: Bridge, c: Command)
    requires c.XfrBlock? && c.slot == 0 && b.powered && b.card.Some? && b.reader.Uart?
    requires P.Exchange(b.reader.pn532, NormalizeApdu(c.payload)).result.Success?
    ensures var a, x := Handle(b, c), P.Exchange(b.reader.pn532, NormalizeApdu(c.payload));
            && a.result == DataBlock(0, c.seqNum, Ok(Active), 0, 0, x.result.value)
            && a.next.card == b.card && a.next.powered && a.next.reader == NfcReader.Uart(x.next)
  {
    hide P.Exchange, NormalizeApdu;
  }

  lemma SwappedTransfer(p: Pn532)
    requires p.activeTarget.None? && p.cachedCard.Some? && p.rfOn
    requires p.device.replies == SwappedCards().replies[1..]
    ensures var a := P.Exchange(p, [0, 0xa4]);
            && a.result == Success([0x90, 0]) && Holds(a.next, Card([0xbb], IsoDep, []))
            && a.next.device.sent == p.device.sent + [ListTarget, DataExchange([1, 0, 0xa4])]
  {
    hide Pn532Frame.Receive, ParseTarget, Pn532Frame.NormalWire;
    SwappedReplies();
    var p1 := P.Poll(p).next;
    assert p1.activeTarget == Some(1) && p1.cachedCard == Some(Card([0xbb], IsoDep, [])) && p1.rfOn;
    assert p1.device.replies == SwappedCards().replies[2..];
    assert p1.device.sent == p.device.sent + [ListTarget];
    assert [1] + [0, 0xa4 as byte] == [1, 0, 0xa4];
    assert [0 as byte, 0x90, 0][1..] == [0x90, 0];
  }
}
