/** Whole runs of the bridge: what every response says about the slot, and when an
    APDU may reach the card. */
module BridgeRuns {
  import opened Bytes
  import opened Nfc
  import opened CcidProtocol
  import opened CcidBridge
  import NfcReader

  /** What the transport asks of the bridge: a command, or a presence refresh. */
  datatype BridgeOp = Submit(command: Command) | Sense

  function Step(b: Bridge, op: BridgeOp): Bridge {
    match op
    case Submit(c) => Handle(b, c).next
    case Sense => Refresh(b).next
  }

  function Run(b: Bridge, ops: seq<BridgeOp>): Bridge {
    if ops == [] then b else Step(Run(b, ops[..|ops| - 1]), ops[|ops| - 1])
  }

  lemma {:induction false} RunAppend(b: Bridge, xs: seq<BridgeOp>, ys: seq<BridgeOp>)
    ensures Run(b, xs + ys) == Run(Run(b, xs), ys)
  {
    hide Step;
    if ys == [] {
      assert xs + ys == xs;
    } else {
      RunAppend(b, xs, ys[..|ys| - 1]);
      assert (xs + ys)[..|xs + ys| - 1] == xs + ys[..|ys| - 1];
    }
  }

  /** A powered slot holds a card, and the parameters are always T=1 ones. */
  predicate Sound(b: Bridge) {
    (b.powered ==> b.card.Some?) && b.protocolNum == T1_PROTOCOL_NUM && |b.parameters| == 7
  }

  lemma StepSound(b: Bridge, op: BridgeOp)
    requires Sound(b)
    ensures Sound(Step(b, op)) && Step(b, op).readerName == b.readerName
  {
    hide NfcReader.Poll, NfcReader.PowerOff, NfcReader.Exchange, BuildPseudoAtr;
  }

  lemma {:induction false} RunSound(b: Bridge, ops: seq<BridgeOp>)
    requires Sound(b)
    ensures Sound(Run(b, ops)) && Run(b, ops).readerName == b.readerName
  {
    if ops != [] {
      RunSound(b, ops[..|ops| - 1]);
      StepSound(Run(b, ops[..|ops| - 1]), ops[|ops| - 1]);
    }
  }

  /* ------------------------------------------------------ what responses say */

  /** Every command gets one response under its own slot and sequence number, with
      an error code exactly when it failed; a success reports the slot as it is. */
  lemma ResponseFaithful(b: Bridge, c: Command)
    ensures var a := Handle(b, c);
            && a.result.slot == c.slot && a.result.seqNum == c.seqNum
            && a.result.status.command != TimeExtension
            && (a.result.error == 0 <==> a.result.status.command == NoError)
            && (a.result.status.command == NoError ==> a.result.status.icc == Icc(a.next))
  {
  }

  /** The branches that report an inactive card whatever the slot holds. */
  predicate Misreports(b: Bridge, c: Command) {
    match c
    case IccPowerOn(_, _, _) => NfcReader.Poll(b.reader).result.Failure?
    case IccPowerOff(_, _) => NfcReader.PowerOff(b.reader).result.Failure? && Icc(b) != Inactive
    case GetSlotStatus(_, _) => b.card.None? && NfcReader.Poll(b.reader).result.Failure?
    case XfrBlock(_, _, _, _, _) => b.card.None? && NfcReader.Poll(b.reader).result.Failure?
    case _ => false
  }

  /** The ICC status of a response is the slot's, except in exactly those branches. */
  lemma IccFaithfulExactly(b: Bridge, c: Command)
    requires Sound(b)
    ensures var a := Handle(b, c); a.result.status.icc == Icc(a.next) <==> !Misreports(b, c)
    ensures Misreports(b, c) ==> Handle(b, c).result.status.icc == Inactive
  {
  }

  /* ------------------------------------------- when commands succeed, and with what */

  /** A SetParameters that the bridge accepts. */
  predicate Acceptable(c: Command) {
    c.SetParameters? && c.protocolNum == 1 && |c.payload| == 7
  }

  /** What a command needs of the slot and of the reader's answer. */
  predicate Succeeds(b: Bridge, c: Command) {
    match c
    case IccPowerOn(_, _, _) => var r := NfcReader.Poll(b.reader).result; r.Success? && r.value.Some?
    case IccPowerOff(_, _) => NfcReader.PowerOff(b.reader).result.Success?
    case GetSlotStatus(_, _) => (b.powered && b.card.Some?) || NfcReader.Poll(b.reader).result.Success?
    case GetParameters(_, _) => true
    case ResetParameters(_, _) => true
    case SetParameters(_, _, _, _) => Acceptable(c)
    case XfrBlock(_, _, _, _, payload) =>
      b.powered && NfcReader.Exchange(b.reader, NormalizeApdu(payload)).result.Success?
    case Abort(_, _) => true
    case Unknown(_, _, _, _, _) => false
  }

  /** A command is answered with success exactly when that holds; a failure carries
      error FF. */
  lemma SucceedsExactly(b: Bridge, c: Command)
    requires c.XfrBlock? ==> Sound(b)
    ensures var r := Handle(b, c).result;
            && r.status.command == (if Succeeds(b, c) then NoError else Failed)
            && r.error == (if Succeeds(b, c) then 0 else 0xff)
  {
    hide NfcReader.Poll, NfcReader.PowerOff, NfcReader.Exchange, BuildPseudoAtr, NormalizeApdu;
  }

  /** The message that answers a command: data exactly for a power-on or a transfer that
      succeeded, the ATR or the card's own reply; the parameters as they now are for the
      parameter commands; a bare slot status for all else. */
  lemma AnswerCarries(b: Bridge, c: Command)
    requires Sound(b)
    ensures var a, r := Handle(b, c), Handle(b, c).result;
            && (r.DataBlock? <==> (c.IccPowerOn? || c.XfrBlock?) && Succeeds(b, c))
            && (r.Parameters? <==> c.GetParameters? || c.ResetParameters? || c.SetParameters?)
            && (r.DataBlock? && c.IccPowerOn? ==>
                  exists card :: NfcReader.Poll(b.reader).result == Success(Some(card)) &&
                                 r.payload == BuildPseudoAtr(card))
            && (r.DataBlock? && c.XfrBlock? ==>
                  NfcReader.Exchange(b.reader, NormalizeApdu(c.payload)).result == Success(r.payload))
            && (r.Parameters? ==> r.protocolNum == 1 && r.payload == a.next.parameters)
            && (r.DataBlock? ==> r.chainParameter == 0)
            && (r.SlotStatus? ==> r.clockStatus == 0)
  {
    hide NfcReader.Poll, NfcReader.PowerOff, NfcReader.Exchange, BuildPseudoAtr, NormalizeApdu;
  }

  /** The parameters that a command leaves: those accepted, the defaults, or the old. */
  lemma ParametersExactly(b: Bridge, c: Command)
    ensures Handle(b, c).next.parameters ==
            if c.ResetParameters? then [0x11, 0x10, 0x00, 0x15, 0x00, 0xfe, 0x00]
            else if c.SetParameters? && Succeeds(b, c) then c.payload
            else b.parameters
    ensures Fresh(b.reader).parameters == [0x11, 0x10, 0x00, 0x15, 0x00, 0xfe, 0x00]
  {
    hide NfcReader.Poll, NfcReader.PowerOff, NfcReader.Exchange, BuildPseudoAtr, NormalizeApdu;
  }

  /** The call an operation makes on the reader, if any, with the answer it gets. */
  function CallOf(b: Bridge, op: BridgeOp): Option<ReaderCall> {
    if op.Sense? || op.command.GetSlotStatus? then
      if Icc(b) == Active then None else Some(Polled(NfcReader.Poll(b.reader).result))
    else match op.command
      case IccPowerOn(_, _, _) => Some(Polled(NfcReader.Poll(b.reader).result))
      case IccPowerOff(_, _) => Some(TurnedOff(NfcReader.PowerOff(b.reader).result))
      case XfrBlock(_, _, _, _, payload) =>
        if b.card.None? then Some(Polled(NfcReader.Poll(b.reader).result))
        else if !b.powered then None
        else
          var apdu := NormalizeApdu(payload);
          Some(Exchanged(apdu, NfcReader.Exchange(b.reader, apdu).result))
      case _ => None
  }

  /** The reader once it has answered a call. */
  function ReaderAfter(r: NfcReader.Reader, call: Option<ReaderCall>): NfcReader.Reader {
    match call
    case None => r
    case Some(Polled(_)) => NfcReader.Poll(r).next
    case Some(TurnedOff(_)) => NfcReader.PowerOff(r).next
    case Some(Exchanged(apdu, _)) => NfcReader.Exchange(r, apdu).next
  }

  /** What is known of the card once a call has been answered: a poll that succeeds says
      so itself, a lost target and a failed power-on forget it, nothing else does. */
  function Known(card: Option<Card>, op: BridgeOp, call: Option<ReaderCall>): Option<Card> {
    match call
    case Some(Polled(Success(found))) => found
    case Some(Polled(Failure(_))) => if op.Submit? && op.command.IccPowerOn? then None else card
    case Some(Exchanged(_, reply)) => if reply == Failure(TargetLost) then None else card
    case _ => card
  }

  /** An operation makes that one call and no other, is left with the reader behind it,
      and knows of the card exactly what the answer says. */
  lemma StepCallsExactly(b: Bridge, op: BridgeOp)
    requires Sound(b)
    ensures var b1, call := Step(b, op), CallOf(b, op);
            && b1.calls == b.calls + (if call.Some? then [call.value] else [])
            && b1.reader == ReaderAfter(b.reader, call)
            && b1.card == Known(b.card, op, call)
  {
    hide NfcReader.Poll, NfcReader.PowerOff, NfcReader.Exchange, BuildPseudoAtr, NormalizeApdu;
  }

  /** The card over a whole run, folded from the answers of the reader alone. */
  function KnownAfter(b: Bridge, ops: seq<BridgeOp>): Option<Card> {
    if ops == [] then b.card
    else
      var before, op := ops[..|ops| - 1], ops[|ops| - 1];
      Known(KnownAfter(b, before), op, CallOf(Run(b, before), op))
  }

  /** Over every run the card that the bridge names is the one the reader's answers
      leave, whatever else happened. */
  lemma {:induction false} RunKnows(b: Bridge, ops: seq<BridgeOp>)
    requires Sound(b)
    ensures Run(b, ops).card == KnownAfter(b, ops)
  {
    hide Step, CallOf, Known;
    if ops != [] {
      var before := ops[..|ops| - 1];
      RunKnows(b, before);
      RunSound(b, before);
      StepCallsExactly(Run(b, before), ops[|ops| - 1]);
    }
  }

  /* --------------------------------------------------------- the parameters */

  predicate ChangesParameters(op: BridgeOp) {
    op.Submit? && (Acceptable(op.command) || op.command.ResetParameters?)
  }

  lemma StepKeepsParameters(b: Bridge, op: BridgeOp)
    requires !ChangesParameters(op)
    ensures Step(b, op).parameters == b.parameters && Step(b, op).protocolNum == b.protocolNum
  {
    hide NfcReader.Poll, NfcReader.PowerOff, NfcReader.Exchange, BuildPseudoAtr;
  }

  lemma {:induction false} ParametersKept(b: Bridge, ops: seq<BridgeOp>)
    requires forall i :: 0 <= i < |ops| ==> !ChangesParameters(ops[i])
    ensures Run(b, ops).parameters == b.parameters && Run(b, ops).protocolNum == b.protocolNum
  {
    hide Step, ChangesParameters;
    if ops != [] {
      var before, last := ops[..|ops| - 1], ops[|ops| - 1];
      assert forall i :: 0 <= i < |before| ==> before[i] == ops[i];
      ParametersKept(b, before);
      StepKeepsParameters(Run(b, before), last);
    }
  }

  /** The parameters a setting or a reset puts in force. */
  function InForce(setting: Command): seq<byte>
    requires Acceptable(setting) || setting.ResetParameters?
  {
    if setting.SetParameters? then setting.payload else [0x11, 0x10, 0x00, 0x15, 0x00, 0xfe, 0x00]
  }

  /** Parameters once accepted, or reset, are read back unchanged until the next such
      command, through power cycles, card changes, failures and rejected settings. */
  lemma ParametersRemembered(b: Bridge, setting: Command, ops: seq<BridgeOp>, query: Command)
    requires (Acceptable(setting) || setting.ResetParameters?) && query.GetParameters?
    requires forall i :: 0 <= i < |ops| ==> !ChangesParameters(ops[i])
    ensures var b1 := Run(Handle(b, setting).next, ops);
            Handle(b1, query).result ==
            Parameters(query.slot, query.seqNum, Ok(Icc(b1)), 0, 1, InForce(setting))
  {
    ParametersKept(Handle(b, setting).next, ops);
  }

  /* ------------------------------------------------------------- APDU gating */

  predicate IsTransfer(op: BridgeOp) {
    op.Submit? && op.command.XfrBlock?
  }

  /** The operation calls the reader's APDU exchange. */
  ghost predicate Exchanges(b: Bridge, op: BridgeOp) {
    exists k :: |b.calls| <= k < |Step(b, op).calls| && Step(b, op).calls[k].Exchanged?
  }

  lemma ExchangesExactly(b: Bridge, op: BridgeOp)
    requires Sound(b)
    ensures Exchanges(b, op) <==> IsTransfer(op) && b.powered
    ensures Exchanges(b, op) ==>
              exists reply ::
                Step(b, op).calls == b.calls + [Exchanged(NormalizeApdu(op.command.payload), reply)]
  {
    if IsTransfer(op) && b.powered {
      var apdu := NormalizeApdu(op.command.payload);
      var x := CallExchange(b, apdu);
      assert Step(b, op).calls == b.calls + [Exchanged(apdu, x.result)];
      assert Step(b, op).calls[|b.calls|].Exchanged?;
    }
  }

  /** The APDU that reaches the card is the host's, but for the class byte of a GET
      RESPONSE, which becomes 00. */
  lemma NormalizedApdu(apdu: seq<byte>)
    ensures var n := NormalizeApdu(apdu);
            && |n| == |apdu|
            && (forall i :: 1 <= i < |n| ==> n[i] == apdu[i])
            && (n != apdu <==> |apdu| > 1 && apdu[1] == 0xc0 && apdu[0] != 0x00)
            && (n != apdu ==> n[0] == 0x00)
  {
  }

  /** A successful power-on; with the dummy reader also a status query that finds a card. */
  predicate Grants(b: Bridge, op: BridgeOp) {
    op.Submit? &&
    match op.command
    case IccPowerOn(_, _, _) =>
      var r := NfcReader.Poll(b.reader).result; r.Success? && r.value.Some?
    case GetSlotStatus(_, _) => b.readerName == "dummy" && Refresh(b).result == Success(true)
    case _ => false
  }

  function GrantedCard(b: Bridge, op: BridgeOp): Card
    requires Grants(b, op)
  {
    if op.command.IccPowerOn? then NfcReader.Poll(b.reader).result.value.value
    else Refresh(b).next.card.value
  }

  /** A power-on that finds no card or fails, a successful power-off, or an exchange
      that loses the target. */
  predicate Revokes(b: Bridge, op: BridgeOp) {
    op.Submit? &&
    match op.command
    case IccPowerOn(_, _, _) => !Grants(b, op)
    case IccPowerOff(_, _) => NfcReader.PowerOff(b.reader).result.Success?
    case XfrBlock(_, _, _, _, payload) =>
      b.powered && NfcReader.Exchange(b.reader, NormalizeApdu(payload)).result == Failure(TargetLost)
    case _ => false
  }

  datatype Verdict = Grant | Revoke | Keep

  function VerdictOf(b: Bridge, op: BridgeOp): Verdict {
    if Grants(b, op) then Grant else if Revokes(b, op) then Revoke else Keep
  }

  lemma StepPower(b: Bridge, op: BridgeOp)
    requires Sound(b)
    ensures Step(b, op).powered <==> VerdictOf(b, op) == Grant || (b.powered && VerdictOf(b, op) == Keep)
    ensures VerdictOf(b, op) == Grant ==> Step(b, op).card == Some(GrantedCard(b, op))
    ensures b.powered && VerdictOf(b, op) == Keep ==> Step(b, op).card == b.card
  {
  }

  /** What each operation of a run did to the slot's power. */
  function Verdicts(b: Bridge, ops: seq<BridgeOp>): (vs: seq<Verdict>)
    ensures |vs| == |ops|
  {
    if ops == [] then []
    else
      var before := ops[..|ops| - 1];
      Verdicts(b, before) + [VerdictOf(Run(b, before), ops[|ops| - 1])]
  }

  lemma {:induction false} VerdictAt(b: Bridge, ops: seq<BridgeOp>, j: nat)
    requires j < |ops|
    ensures Verdicts(b, ops)[j] == VerdictOf(Run(b, ops[..j]), ops[j])
  {
    hide VerdictOf, Step;
    var n := |ops| - 1;
    if j < n {
      VerdictAt(b, ops[..n], j);
      assert ops[..n][..j] == ops[..j];
    }
  }

  /** Operation j granted power and nothing since has granted or revoked it. */
  ghost predicate Open(vs: seq<Verdict>, j: nat) {
    j < |vs| && vs[j] == Grant && forall k | j < k < |vs| :: vs[k] == Keep
  }

  ghost predicate Session(b: Bridge, ops: seq<BridgeOp>, j: nat) {
    Open(Verdicts(b, ops), j)
  }

  /** The card that operation j of a run granted. */
  function CardOf(b: Bridge, ops: seq<BridgeOp>, j: nat): Card
    requires j < |ops| && Verdicts(b, ops)[j] == Grant
  {
    VerdictAt(b, ops, j);
    GrantedCard(Run(b, ops[..j]), ops[j])
  }

  lemma OpenPrefix(vs: seq<Verdict>, v: Verdict, j: nat)
    ensures j < |vs| ==> (Open(vs + [v], j) <==> Open(vs, j) && v == Keep)
    ensures Open(vs + [v], |vs|) <==> v == Grant
  {
    if j < |vs| && Open(vs + [v], j) {
      assert (vs + [v])[|vs|] == v;
      assert forall k | j < k < |vs| :: (vs + [v])[k] == vs[k];
    }
  }

  lemma SessionStep(b: Bridge, ops: seq<BridgeOp>, j: nat)
    requires ops != [] && Sound(b)
    ensures var n := |ops| - 1;
            var v := VerdictOf(Run(b, ops[..n]), ops[n]);
            && (j < n ==> (Session(b, ops, j) <==> Session(b, ops[..n], j) && v == Keep))
            && (j < n && Session(b, ops, j) ==> CardOf(b, ops, j) == CardOf(b, ops[..n], j))
            && (j == n ==> (Session(b, ops, j) <==> v == Grant))
  {
    var n := |ops| - 1;
    OpenPrefix(Verdicts(b, ops[..n]), VerdictOf(Run(b, ops[..n]), ops[n]), j);
    if j < n {
      assert ops[..n][..j] == ops[..j];
    }
  }

  /** After any run from an unpowered start the slot is powered exactly when a power
      session is open, and the bridge then holds the card of that session. */
  lemma {:induction false} PoweredExactly(b: Bridge, ops: seq<BridgeOp>)
    requires Sound(b) && !b.powered
    ensures Run(b, ops).powered <==> exists j: nat :: Session(b, ops, j)
    ensures forall j: nat :: Session(b, ops, j) ==> Run(b, ops).card == Some(CardOf(b, ops, j))
  {
    if ops != [] {
      var n := |ops| - 1;
      var s := Run(b, ops[..n]);
      PoweredExactly(b, ops[..n]);
      RunSound(b, ops[..n]);
      StepPower(s, ops[n]);
      forall j: nat | Session(b, ops, j)
        ensures Run(b, ops).powered && Run(b, ops).card == Some(CardOf(b, ops, j))
      {
        SessionStep(b, ops, j);
      }
      if Run(b, ops).powered {
        SessionStep(b, ops, n);
        if VerdictOf(s, ops[n]) != Grant {
          var j: nat :| Session(b, ops[..n], j);
          SessionStep(b, ops, j);
        }
      }
    }
  }

  /** The gate: after any run of a fresh bridge, an operation calls the card's APDU
      exchange exactly when it is a transfer inside an open power session, and the
      bridge still names the card that session began with (which card the reader then
      talks to is the reader's affair). With any reader but the dummy one, the session
      was opened by a power-on. */
  lemma ApduGate(reader: NfcReader.Reader, ops: seq<BridgeOp>, op: BridgeOp)
    ensures var b := Fresh(reader);
            var s := Run(b, ops);
            && (Exchanges(s, op) <==> IsTransfer(op) && exists j: nat :: Session(b, ops, j))
            && (forall j: nat :: Session(b, ops, j) ==>
                  && s.card == Some(CardOf(b, ops, j))
                  && (NfcReader.Name(reader) != "dummy" ==>
                        ops[j].Submit? && ops[j].command.IccPowerOn?))
  {
    var b := Fresh(reader);
    PoweredExactly(b, ops);
    RunSound(b, ops);
    ExchangesExactly(Run(b, ops), op);
    forall j: nat | Session(b, ops, j) && NfcReader.Name(reader) != "dummy"
      ensures ops[j].Submit? && ops[j].command.IccPowerOn?
    {
      VerdictAt(b, ops, j);
      RunSound(b, ops[..j]);
    }
  }

  /* ------------------------------------------- every exchange has its transfer */

  lemma StepCalls(b: Bridge, op: BridgeOp)
    requires Sound(b)
    ensures b.calls <= Step(b, op).calls && |Step(b, op).calls| <= |b.calls| + 1
  {
    hide NfcReader.Poll, NfcReader.PowerOff, NfcReader.Exchange, BuildPseudoAtr;
  }

  lemma {:induction false} CallsGrow(b: Bridge, ops: seq<BridgeOp>, k: nat)
    requires Sound(b) && k <= |ops|
    ensures Run(b, ops[..k]).calls <= Run(b, ops).calls
  {
    hide Step;
    if k < |ops| {
      var before := ops[..|ops| - 1];
      assert before[..k] == ops[..k];
      CallsGrow(b, before, k);
      RunSound(b, before);
      StepCalls(Run(b, before), ops[|ops| - 1]);
    } else {
      assert ops[..k] == ops;
    }
  }

  /** Operation k is a transfer inside an open power session, and call e is the one it
      makes on the reader. */
  ghost predicate MadeAt(b: Bridge, ops: seq<BridgeOp>, k: nat, e: nat) {
    && k < |ops|
    && IsTransfer(ops[k]) && (exists j: nat :: Session(b, ops[..k], j))
    && |Run(b, ops[..k]).calls| == e
  }

  lemma MadeAtPrefix(b: Bridge, ops: seq<BridgeOp>, n: nat, k: nat, e: nat)
    requires k < n <= |ops|
    ensures MadeAt(b, ops[..n], k, e) == MadeAt(b, ops, k, e)
  {
    assert ops[..n][..k] == ops[..k];
  }

  lemma MadeAtFills(reader: NfcReader.Reader, ops: seq<BridgeOp>, k: nat, e: nat)
    requires MadeAt(Fresh(reader), ops, k, e)
    ensures e < |Run(Fresh(reader), ops).calls|
    ensures Run(Fresh(reader), ops).calls[e].Exchanged?
    ensures Run(Fresh(reader), ops).calls[e].apdu == NormalizeApdu(ops[k].command.payload)
  {
    hide Step, Session, NormalizeApdu;
    var b := Fresh(reader);
    var s := Run(b, ops[..k]);
    RunSound(b, ops[..k]);
    ApduGate(reader, ops[..k], ops[k]);
    ExchangesExactly(s, ops[k]);
    assert ops[..k + 1][..k] == ops[..k];
    assert Run(b, ops[..k + 1]) == Step(s, ops[k]);
    CallsGrow(b, ops, k + 1);
  }

  lemma {:induction false} ExchangeMadeBy(reader: NfcReader.Reader, ops: seq<BridgeOp>, e: nat) returns (k: nat)
    requires e < |Run(Fresh(reader), ops).calls| && Run(Fresh(reader), ops).calls[e].Exchanged?
    ensures MadeAt(Fresh(reader), ops, k, e)
  {
    hide Step, Session;
    var b := Fresh(reader);
    var n := |ops| - 1;
    var s := Run(b, ops[..n]);
    RunSound(b, ops[..n]);
    StepCalls(s, ops[n]);
    if e < |s.calls| {
      k := ExchangeMadeBy(reader, ops[..n], e);
      MadeAtPrefix(b, ops, n, k, e);
    } else {
      assert Exchanges(s, ops[n]);
      ApduGate(reader, ops[..n], ops[n]);
      k := n;
    }
  }

  /** Every exchange in the history of reader calls was made by a transfer inside an
      open power session, and every such transfer made one: the two correspond. */
  lemma ExchangeHistory(reader: NfcReader.Reader, ops: seq<BridgeOp>, e: nat)
    requires e < |Run(Fresh(reader), ops).calls|
    ensures Run(Fresh(reader), ops).calls[e].Exchanged? <==> exists k: nat :: MadeAt(Fresh(reader), ops, k, e)
  {
    hide Step, Session, Run, MadeAt;
    if Run(Fresh(reader), ops).calls[e].Exchanged? {
      var k := ExchangeMadeBy(reader, ops, e);
    }
    if k: nat :| MadeAt(Fresh(reader), ops, k, e) {
      MadeAtFills(reader, ops, k, e);
    }
  }
}
