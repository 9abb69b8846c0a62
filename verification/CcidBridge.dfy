/** The slot state machine: CCID commands in, reader calls and responses out. */
module CcidBridge {
  import opened Bytes
  import opened Nfc
  import opened CcidProtocol
  import NfcReader

  const GENERIC_FAILURE_ERROR: byte := 0xff
  const T1_PROTOCOL_NUM: byte := 0x01
  const DEFAULT_T1_PARAMETERS: seq<byte> := [0x11, 0x10, 0x00, 0x15, 0x00, 0xfe, 0x00]
  const APDU_GET_RESPONSE_INS: byte := 0xc0

  /** One call the bridge made on its reader, with the answer it got. */
  datatype ReaderCall =
    | Polled(presence: PollResult)
    | TurnedOff(done: OffResult)
    | Exchanged(apdu: seq<byte>, reply: ApduResult)

  /** The bridge as a value. `calls` is its history of reader calls. */
  datatype Bridge = Bridge(
    reader: NfcReader.Reader,
    readerName: string,
    card: Option<Card>,
    powered: bool,
    protocolNum: byte,
    parameters: seq<byte>,
    calls: seq<ReaderCall>)

  function Fresh(reader: NfcReader.Reader): Bridge {
    Bridge(reader, NfcReader.Name(reader), None, false, T1_PROTOCOL_NUM, DEFAULT_T1_PARAMETERS, [])
  }

  function Icc(b: Bridge): IccStatus {
    if b.card.None? then NotPresent else if b.powered then Active else Inactive
  }

  function CallPoll(b: Bridge): After<PollResult, Bridge> {
    var a := NfcReader.Poll(b.reader);
    After(a.result, b.(reader := a.next, calls := b.calls + [Polled(a.result)]))
  }

  function CallOff(b: Bridge): After<OffResult, Bridge> {
    var a := NfcReader.PowerOff(b.reader);
    After(a.result, b.(reader := a.next, calls := b.calls + [TurnedOff(a.result)]))
  }

  function CallExchange(b: Bridge, apdu: seq<byte>): After<ApduResult, Bridge> {
    var a := NfcReader.Exchange(b.reader, apdu);
    After(a.result, b.(reader := a.next, calls := b.calls + [Exchanged(apdu, a.result)]))
  }

  function Refresh(b: Bridge): After<Result<bool, ReaderError>, Bridge> {
    if b.powered && b.card.Some? then After(Success(true), b)
    else
      var poll := CallPoll(b);
      match poll.result
      case Failure(error) => After(Failure(error), poll.next)
      case Success(card) =>
        After(Success(card.Some?), poll.next.(card := card, powered := b.powered && card.Some?))
  }

  function FailedStatus(c: Command, icc: IccStatus): Response {
    SlotStatus(c.slot, c.seqNum, Fail(icc), GENERIC_FAILURE_ERROR, 0)
  }

  function OkStatus(c: Command, icc: IccStatus): Response {
    SlotStatus(c.slot, c.seqNum, Ok(icc), 0, 0)
  }

  function ParametersResponse(b: Bridge, c: Command, failed: bool): Response {
    Parameters(c.slot, c.seqNum, if failed then Fail(Icc(b)) else Ok(Icc(b)),
               if failed then GENERIC_FAILURE_ERROR else 0, b.protocolNum, b.parameters)
  }

  function PowerOn(b: Bridge, c: Command): After<Response, Bridge> {
    var poll := CallPoll(b);
    match poll.result
    case Success(Some(card)) =>
      After(DataBlock(c.slot, c.seqNum, Ok(Active), 0, 0, BuildPseudoAtr(card)),
            poll.next.(card := Some(card), powered := true))
    case Success(None) =>
      After(FailedStatus(c, NotPresent), poll.next.(card := None, powered := false))
    case Failure(_) =>
      After(FailedStatus(c, Inactive), poll.next.(card := None, powered := false))
  }

  function PowerDown(b: Bridge, c: Command): After<Response, Bridge> {
    var off := CallOff(b);
    if off.result.Failure? then After(FailedStatus(c, Inactive), off.next)
    else
      var b1 := off.next.(powered := false);
      After(OkStatus(c, Icc(b1)), b1)
  }

  function Query(b: Bridge, c: Command): After<Response, Bridge> {
    var refresh := Refresh(b);
    if refresh.result.Failure? then After(FailedStatus(c, Inactive), refresh.next)
    else
      var b1 := refresh.next;
      var b2 := b1.(powered := b1.powered || (b1.card.Some? && b1.readerName == NfcReader.DUMMY));
      After(OkStatus(c, Icc(b2)), b2)
  }

  function Transfer(b: Bridge, c: Command, payload: seq<byte>): After<Response, Bridge> {
    var refresh := if b.card.None? then Refresh(b) else After(Success(true), b);
    var b1 := refresh.next;
    if refresh.result.Failure? then After(FailedStatus(c, Inactive), b1.(powered := false))
    else if b1.card.None? then After(FailedStatus(c, NotPresent), b1)
    else if !b1.powered then After(FailedStatus(c, Inactive), b1)
    else Forward(b1, c, payload)
  }

  /** The transfer once card and power are established: the APDU goes to the card. */
  function Forward(b: Bridge, c: Command, payload: seq<byte>): After<Response, Bridge> {
    var exchange := CallExchange(b, NormalizeApdu(payload));
    if exchange.result.Success? then
      After(DataBlock(c.slot, c.seqNum, Ok(Active), 0, 0, exchange.result.value), exchange.next)
    else if exchange.result.error == TargetLost then
      After(FailedStatus(c, NotPresent), exchange.next.(card := None, powered := false))
    else
      After(FailedStatus(c, Icc(exchange.next)), exchange.next)
  }

  function Handle(b: Bridge, c: Command): After<Response, Bridge> {
    match c
    case IccPowerOn(_, _, _) => PowerOn(b, c)
    case IccPowerOff(_, _) => PowerDown(b, c)
    case GetSlotStatus(_, _) => Query(b, c)
    case GetParameters(_, _) => After(ParametersResponse(b, c, false), b)
    case ResetParameters(_, _) =>
      var b1 := b.(protocolNum := T1_PROTOCOL_NUM, parameters := DEFAULT_T1_PARAMETERS);
      After(ParametersResponse(b1, c, false), b1)
    case SetParameters(_, _, protocolNum, payload) =>
      if protocolNum != T1_PROTOCOL_NUM || |payload| != |DEFAULT_T1_PARAMETERS| then
        After(ParametersResponse(b, c, true), b)
      else
        var b1 := b.(protocolNum := protocolNum, parameters := payload);
        After(ParametersResponse(b1, c, false), b1)
    case XfrBlock(_, _, _, _, payload) => Transfer(b, c, payload)
    case Abort(_, _) => After(OkStatus(c, Icc(b)), b)
    case Unknown(_, _, _, _, _) => After(FailedStatus(c, Icc(b)), b)
  }

  function NormalizeApdu(apdu: seq<byte>): seq<byte> {
    if |apdu| > 1 && apdu[1] == APDU_GET_RESPONSE_INS then apdu[0 := 0x00] else apdu
  }

  /** The answer-to-reset given to the host. `0x80 | k` is `0x80 + k` here, because
      at most 15 historical bytes are announced. */
  function BuildPseudoAtr(card: Card): seq<byte> {
    var h := card.historicalBytes;
    if h != [] && (h[0] == 0x3b || h[0] == 0x3f) then h
    else
      var kept := if |h| > 15 then h[..15] else h;
      var body := [0x80 + |kept|, 0x80, 0x01] + kept;
      [0x3b] + body + [XorSum(body)]
  }

  /* ----------------------------------------------- the bridge, as an object */

  class CcidBridge {
    const reader: NfcReader.BoxedReader
    const readerName: string
    var currentCard: Option<Card>
    var slotPowered: bool
    var protocolNum: byte
    var parameters: seq<byte>
    ghost var calls: seq<ReaderCall>

    function Repr(): set<object> {
      {this, reader.Object()}
    }

    ghost function Model(): Bridge
      reads Repr()
    {
      Bridge(reader.Model(), readerName, currentCard, slotPowered, protocolNum, parameters, calls)
    }

    constructor (boxed: NfcReader.BoxedReader)
      ensures Model() == Fresh(boxed.Model())
      ensures reader == boxed
    {
      var name := boxed.Capabilities();
      reader, readerName := boxed, name;
      currentCard, slotPowered := None, false;
      protocolNum, parameters := T1_PROTOCOL_NUM, DEFAULT_T1_PARAMETERS;
      calls := [];
    }

    method PollReader() returns (r: PollResult)
      modifies Repr()
      ensures After(r, Model()) == CallPoll(old(Model()))
    {
      r := reader.PollCard();
      calls := calls + [Polled(r)];
    }

    method TurnReaderOff() returns (r: OffResult)
      modifies Repr()
      ensures After(r, Model()) == CallOff(old(Model()))
    {
      r := reader.TurnOff();
      calls := calls + [TurnedOff(r)];
    }

    method ExchangeWithReader(apdu: seq<byte>) returns (r: ApduResult)
      modifies Repr()
      ensures After(r, Model()) == CallExchange(old(Model()), apdu)
    {
      r := reader.ExchangeApdu(apdu);
      calls := calls + [Exchanged(apdu, r)];
    }

    method CurrentIccStatus() returns (icc: IccStatus)
      ensures icc == Icc(Model())
    {
      icc := if currentCard.None? then NotPresent else if slotPowered then Active else Inactive;
    }

    method CardPresent() returns (present: bool)
      ensures present == Model().card.Some?
    {
      present := currentCard.Some?;
    }

    method RefreshCardPresence() returns (r: Result<bool, ReaderError>)
      modifies Repr()
      ensures After(r, Model()) == Refresh(old(Model()))
    {
      if slotPowered && currentCard.Some? {
        return Success(true);
      }
      var card :- PollReader();
      if card.None? {
        slotPowered := false;
      }
      currentCard := card;
      return Success(currentCard.Some?);
    }

    method AnswerParameters(c: Command, failed: bool) returns (r: Response)
      ensures r == ParametersResponse(Model(), c, failed)
    {
      var icc := CurrentIccStatus();
      r := Parameters(c.slot, c.seqNum, if failed then Fail(icc) else Ok(icc),
                      if failed then GENERIC_FAILURE_ERROR else 0, protocolNum, parameters);
    }

    method HandlePowerOn(c: Command) returns (r: Response)
      modifies Repr()
      ensures After(r, Model()) == PowerOn(old(Model()), c)
    {
      var poll := PollReader();
      match poll
      case Success(Some(card)) =>
        var atr := BuildPseudoAtr(card);
        currentCard := Some(card);
        slotPowered := true;
        r := DataBlock(c.slot, c.seqNum, Ok(Active), 0, 0, atr);
      case Success(None) =>
        currentCard := None;
        slotPowered := false;
        r := FailedStatus(c, NotPresent);
      case Failure(_) =>
        currentCard := None;
        slotPowered := false;
        r := FailedStatus(c, Inactive);
    }

    method HandlePowerOff(c: Command) returns (r: Response)
      modifies Repr()
      ensures After(r, Model()) == PowerDown(old(Model()), c)
    {
      var off := TurnReaderOff();
      if off.Failure? {
        return FailedStatus(c, Inactive);
      }
      slotPowered := false;
      var icc := CurrentIccStatus();
      return OkStatus(c, icc);
    }

    method HandleQuery(c: Command) returns (r: Response)
      modifies Repr()
      ensures After(r, Model()) == Query(old(Model()), c)
    {
      var refresh := RefreshCardPresence();
      if refresh.Failure? {
        return FailedStatus(c, Inactive);
      }
      if currentCard.Some? && readerName == NfcReader.DUMMY {
        slotPowered := true;
      }
      var icc := CurrentIccStatus();
      return OkStatus(c, icc);
    }

    method HandleTransfer(c: Command, payload: seq<byte>) returns (r: Response)
      modifies Repr()
      ensures After(r, Model()) == Transfer(old(Model()), c, payload)
    {
      if currentCard.None? {
        var refresh := RefreshCardPresence();
        if refresh.Failure? {
          slotPowered := false;
          return FailedStatus(c, Inactive);
        }
      }
      if currentCard.None? {
        return FailedStatus(c, NotPresent);
      }
      if !slotPowered {
        return FailedStatus(c, Inactive);
      }
      r := ForwardApdu(c, payload);
    }

    method ForwardApdu(c: Command, payload: seq<byte>) returns (r: Response)
      modifies Repr()
      ensures After(r, Model()) == Forward(old(Model()), c, payload)
    {
      var apdu := NormalizeApdu(payload);
      var exchange := ExchangeWithReader(apdu);
      if exchange.Success? {
        r := DataBlock(c.slot, c.seqNum, Ok(Active), 0, 0, exchange.value);
      } else if exchange.error == TargetLost {
        currentCard := None;
        slotPowered := false;
        r := FailedStatus(c, NotPresent);
      } else {
        var icc := CurrentIccStatus();
        r := FailedStatus(c, icc);
      }
    }

    method HandleCommand(c: Command) returns (r: Response)
      modifies Repr()
      ensures After(r, Model()) == Handle(old(Model()), c)
    {
      match c
      case IccPowerOn(_, _, _) => r := HandlePowerOn(c);
      case IccPowerOff(_, _) => r := HandlePowerOff(c);
      case GetSlotStatus(_, _) => r := HandleQuery(c);
      case GetParameters(_, _) => r := AnswerParameters(c, false);
      case ResetParameters(_, _) =>
        protocolNum := T1_PROTOCOL_NUM;
        parameters := DEFAULT_T1_PARAMETERS;
        r := AnswerParameters(c, false);
      case SetParameters(_, _, number, payload) =>
        if number != T1_PROTOCOL_NUM || |payload| != |DEFAULT_T1_PARAMETERS| {
          r := AnswerParameters(c, true);
        } else {
          protocolNum := number;
          parameters := payload;
          r := AnswerParameters(c, false);
        }
      case XfrBlock(_, _, _, _, payload) => r := HandleTransfer(c, payload);
      case Abort(_, _) =>
        var icc := CurrentIccStatus();
        r := OkStatus(c, icc);
      case Unknown(_, _, _, _, _) =>
        var icc := CurrentIccStatus();
        r := FailedStatus(c, icc);
    }
  }
}
