/** The CCID message codec: commands in, responses out. */
module CcidProtocol {
  import opened Bytes

  const PC_TO_RDR_ICC_POWER_ON: byte := 0x62
  const PC_TO_RDR_ICC_POWER_OFF: byte := 0x63
  const PC_TO_RDR_GET_SLOT_STATUS: byte := 0x65
  const PC_TO_RDR_SET_PARAMETERS: byte := 0x61
  const PC_TO_RDR_GET_PARAMETERS: byte := 0x6c
  const PC_TO_RDR_RESET_PARAMETERS: byte := 0x6d
  const PC_TO_RDR_XFR_BLOCK: byte := 0x6f
  const PC_TO_RDR_ABORT: byte := 0x72

  const RDR_TO_PC_DATA_BLOCK: byte := 0x80
  const RDR_TO_PC_SLOT_STATUS: byte := 0x81
  const RDR_TO_PC_PARAMETERS: byte := 0x82

  datatype Command =
    | IccPowerOn(slot: byte, seqNum: byte, powerSelect: byte)
    | IccPowerOff(slot: byte, seqNum: byte)
    | GetSlotStatus(slot: byte, seqNum: byte)
    | GetParameters(slot: byte, seqNum: byte)
    | ResetParameters(slot: byte, seqNum: byte)
    | SetParameters(slot: byte, seqNum: byte, protocolNum: byte, payload: seq<byte>)
    | XfrBlock(slot: byte, seqNum: byte, bwi: byte, levelParameter: nat, payload: seq<byte>)
    | Abort(slot: byte, seqNum: byte)
    | Unknown(slot: byte, seqNum: byte, messageType: byte, parameters: seq<byte>, payload: seq<byte>)

  datatype IccStatus = Active | Inactive | NotPresent

  datatype CommandStatus = NoError | Failed | TimeExtension

  datatype Status = Status(icc: IccStatus, command: CommandStatus)

  function Ok(icc: IccStatus): Status { Status(icc, NoError) }

  function Fail(icc: IccStatus): Status { Status(icc, Failed) }

  datatype Response =
    | DataBlock(slot: byte, seqNum: byte, status: Status, error: byte, chainParameter: byte, payload: seq<byte>)
    | SlotStatus(slot: byte, seqNum: byte, status: Status, error: byte, clockStatus: byte)
    | Parameters(slot: byte, seqNum: byte, status: Status, error: byte, protocolNum: byte, payload: seq<byte>)

  datatype ProtocolError =
    | FrameTooShort(got: nat)
    | LengthMismatch(expected: nat, actual: nat)

  /* ---------------------------------------------------------------- commands */

  function Decode(frame: seq<byte>): Result<Command, ProtocolError> {
    if |frame| < 10 then
      Failure(FrameTooShort(|frame|))
    else
      var payloadLength := LeU32(frame[1..5]);
      if payloadLength != |frame| - 10 then
        Failure(LengthMismatch(payloadLength, |frame| - 10))
      else
        Success(Interpret(frame[0], frame[5], frame[6], frame[7..10], frame[10..]))
  }

  function Interpret(messageType: byte, slot: byte, seqNum: byte, params: seq<byte>, payload: seq<byte>): Command
    requires |params| == 3
  {
    if messageType == PC_TO_RDR_ICC_POWER_ON then IccPowerOn(slot, seqNum, params[0])
    else if messageType == PC_TO_RDR_ICC_POWER_OFF then IccPowerOff(slot, seqNum)
    else if messageType == PC_TO_RDR_GET_SLOT_STATUS then GetSlotStatus(slot, seqNum)
    else if messageType == PC_TO_RDR_GET_PARAMETERS then GetParameters(slot, seqNum)
    else if messageType == PC_TO_RDR_RESET_PARAMETERS then ResetParameters(slot, seqNum)
    else if messageType == PC_TO_RDR_SET_PARAMETERS then SetParameters(slot, seqNum, params[0], payload)
    else if messageType == PC_TO_RDR_XFR_BLOCK then
      XfrBlock(slot, seqNum, params[0], params[1] as nat + 0x100 * (params[2] as nat), payload)
    else if messageType == PC_TO_RDR_ABORT then Abort(slot, seqNum)
    else Unknown(slot, seqNum, messageType, params, payload)
  }

  function Header(messageType: byte, payloadLength: nat, slot: byte, seqNum: byte, params: seq<byte>)
    : (frame: seq<byte>)
    requires |params| == 3
    ensures |frame| == 10
  {
    [messageType] + U32Le(payloadLength) + [slot, seqNum] + params
  }

  /** The message types `Interpret` gives a meaning of their own. */
  predicate KnownType(messageType: byte) {
    messageType in {0x61, 0x62, 0x63, 0x65, 0x6c, 0x6d, 0x6f, 0x72}
  }

  /** Commands a host can put on the wire. */
  predicate Sendable(c: Command) {
    match c
    case SetParameters(_, _, _, payload) => |payload| < TWO_32
    case XfrBlock(_, _, _, level, payload) => level < 0x1_0000 && |payload| < TWO_32
    case Unknown(_, _, messageType, params, payload) =>
      |params| == 3 && |payload| < TWO_32 && !KnownType(messageType)
    case _ => true
  }

  /** The host's side of the codec, with the message types written out from the
      standard (CCID 1.1, section 6.1). */
  function HostFrame(c: Command): seq<byte>
    requires Sendable(c)
  {
    match c
    case IccPowerOn(s, q, p) => Header(0x62, 0, s, q, [p, 0, 0])
    case IccPowerOff(s, q) => Header(0x63, 0, s, q, [0, 0, 0])
    case GetSlotStatus(s, q) => Header(0x65, 0, s, q, [0, 0, 0])
    case GetParameters(s, q) => Header(0x6c, 0, s, q, [0, 0, 0])
    case ResetParameters(s, q) => Header(0x6d, 0, s, q, [0, 0, 0])
    case SetParameters(s, q, n, d) => Header(0x61, |d|, s, q, [n, 0, 0]) + d
    case XfrBlock(s, q, w, l, d) => Header(0x6f, |d|, s, q, [w, l % 256, l / 256]) + d
    case Abort(s, q) => Header(0x72, 0, s, q, [0, 0, 0])
    case Unknown(s, q, t, p, d) => Header(t, |d|, s, q, p) + d
  }

  lemma HeaderFields(t: byte, n: nat, s: byte, q: byte, p: seq<byte>, d: seq<byte>)
    requires |p| == 3
    ensures var f := Header(t, n, s, q, p) + d;
            && f[0] == t && f[5] == s && f[6] == q && f[7..10] == p && f[10..] == d
            && f[1..5] == U32Le(n) && LeU32(f[1..5]) == n % TWO_32
            && f[1] as nat + 0x100 * (f[2] as nat) + 0x1_0000 * (f[3] as nat) + 0x100_0000 * (f[4] as nat) ==
               n % 0x1_0000_0000
  {
    LeU32OfU32Le(n);
  }

  lemma DecodeHeader(t: byte, s: byte, q: byte, p: seq<byte>, d: seq<byte>)
    requires |p| == 3 && |d| < TWO_32
    ensures Decode(Header(t, |d|, s, q, p) + d) == Success(Interpret(t, s, q, p, d))
  {
    hide LeU32, U32Le, Interpret;
    HeaderFields(t, |d|, s, q, p, d);
  }

  /** Every command survives the trip over the wire. */
  lemma DecodeHostFrame(c: Command)
    requires Sendable(c)
    ensures Decode(HostFrame(c)) == Success(c)
  {
    var f := HostFrame(c);
    match c
    case SetParameters(s, q, n, d) => DecodeHeader(PC_TO_RDR_SET_PARAMETERS, s, q, [n, 0, 0], d);
    case XfrBlock(s, q, w, l, d) => DecodeHeader(PC_TO_RDR_XFR_BLOCK, s, q, [w, l % 256, l / 256], d);
    case Unknown(s, q, t, p, d) => DecodeHeader(t, s, q, p, d);
    case IccPowerOn(s, q, p) => DecodeHeader(PC_TO_RDR_ICC_POWER_ON, s, q, [p, 0, 0], []);
                                assert f + [] == f;
    case _ =>
      DecodeHeader(f[0], c.slot, c.seqNum, [0, 0, 0], []);
      assert f == Header(f[0], 0, c.slot, c.seqNum, [0, 0, 0]) && f + [] == f;
  }

  /** Decoding fails on exactly the frames whose length is not the one they declare. */
  lemma DecodeExactly(frame: seq<byte>)
    ensures Decode(frame).Success? <==>
            && |frame| >= 10
            && |frame| == 10 + frame[1] as nat + 0x100 * (frame[2] as nat)
                          + 0x1_0000 * (frame[3] as nat) + 0x100_0000 * (frame[4] as nat)
    ensures Decode(frame).Success? ==> |frame| == 10 + LeU32(frame[1..5])
    ensures Decode(frame).Success? ==>
              Decode(frame).value.slot == frame[5] && Decode(frame).value.seqNum == frame[6]
  {
  }

  /** Which command a well-formed frame is, and its fields, byte by byte. */
  lemma DecodedFields(f: seq<byte>)
    requires Decode(f).Success?
    ensures var c := Decode(f).value;
            && (c.IccPowerOn? <==> f[0] == 0x62) && (c.IccPowerOff? <==> f[0] == 0x63)
            && (c.GetSlotStatus? <==> f[0] == 0x65) && (c.SetParameters? <==> f[0] == 0x61)
            && (c.GetParameters? <==> f[0] == 0x6c) && (c.ResetParameters? <==> f[0] == 0x6d)
            && (c.XfrBlock? <==> f[0] == 0x6f) && (c.Abort? <==> f[0] == 0x72)
            && (c.IccPowerOn? ==> c.powerSelect == f[7])
            && (c.SetParameters? ==> c.protocolNum == f[7] && c.payload == f[10..])
            && (c.XfrBlock? ==>
                  && c.bwi == f[7] && c.levelParameter == f[8] as nat + 0x100 * (f[9] as nat)
                  && c.payload == f[10..])
            && (c.Unknown? ==> c.messageType == f[0] && c.parameters == f[7..10] && c.payload == f[10..])
  {
  }

  /* --------------------------------------------------------------- responses */

  function IccCode(icc: IccStatus): byte {
    match icc case Active => 0 case Inactive => 1 case NotPresent => 2
  }

  function CommandCode(c: CommandStatus): byte {
    match c case NoError => 0 case Failed => 1 case TimeExtension => 2
  }

  /** The status byte: command status in bits 7..6, ICC status in bits 1..0. */
  function EncodeStatus(s: Status): byte {
    64 * CommandCode(s.command) + IccCode(s.icc)
  }

  function ParseStatus(b: byte): Option<Status> {
    var icc := b % 4;
    var command := b / 64;
    if b / 4 % 16 != 0 || icc == 3 || command == 3 then None
    else Some(Status(if icc == 0 then Active else if icc == 1 then Inactive else NotPresent,
                     if command == 0 then NoError else if command == 1 then Failed else TimeExtension))
  }

  function Encode(r: Response): seq<byte> {
    match r
    case DataBlock(slot, q, status, error, chain, payload) =>
      Header(RDR_TO_PC_DATA_BLOCK, |payload|, slot, q, [EncodeStatus(status), error, chain]) + payload
    case SlotStatus(slot, q, status, error, clock) =>
      Header(RDR_TO_PC_SLOT_STATUS, 0, slot, q, [EncodeStatus(status), error, clock])
    case Parameters(slot, q, status, error, protocolNum, payload) =>
      Header(RDR_TO_PC_PARAMETERS, |payload|, slot, q, [EncodeStatus(status), error, protocolNum]) + payload
  }

  function ResponsePayload(r: Response): seq<byte> {
    if r.SlotStatus? then [] else r.payload
  }

  /** Responses whose length fits the 32-bit length field. */
  predicate Measured(r: Response) {
    |ResponsePayload(r)| < TWO_32
  }

  /** The host's reading of one message (CCID 1.1, section 6.2). */
  function ParseResponse(f: seq<byte>): Option<Response> {
    if |f| < 10 || |f| != 10 + LeU32(f[1..5]) || ParseStatus(f[7]).None? then None
    else
      var status := ParseStatus(f[7]).value;
      if f[0] == 0x80 then Some(DataBlock(f[5], f[6], status, f[8], f[9], f[10..]))
      else if f[0] == 0x81 && |f| == 10 then Some(SlotStatus(f[5], f[6], status, f[8], f[9]))
      else if f[0] == 0x82 then Some(Parameters(f[5], f[6], status, f[8], f[9], f[10..]))
      else None
  }

  lemma EncodedFields(r: Response)
    ensures var f := Encode(r);
            && |f| == 10 + |ResponsePayload(r)|
            && f[5] == r.slot && f[6] == r.seqNum && f[7] == EncodeStatus(r.status) && f[8] == r.error
            && f[10..] == ResponsePayload(r)
            && LeU32(f[1..5]) == |ResponsePayload(r)| % TWO_32
            && f[0] == (if r.DataBlock? then 0x80
                        else if r.SlotStatus? then 0x81 else 0x82)
            && f[9] == (match r case DataBlock(_, _, _, _, c, _) => c
                                case SlotStatus(_, _, _, _, c) => c
                                case Parameters(_, _, _, _, n, _) => n)
  {
    var f := Encode(r);
    var p := ResponsePayload(r);
    assert f == f[..10] + p;
    var last := match r case DataBlock(_, _, _, _, c, _) => c
                        case SlotStatus(_, _, _, _, c) => c
                        case Parameters(_, _, _, _, n, _) => n;
    assert f == Header(f[0], |p|, r.slot, r.seqNum, [EncodeStatus(r.status), r.error, last]) + p;
    HeaderFields(f[0], |p|, r.slot, r.seqNum, [EncodeStatus(r.status), r.error, last], p);
    assert f[7] == f[7..10][0] && f[8] == f[7..10][1] && f[9] == f[7..10][2];
  }

  lemma ParseEncodedStatus(s: Status)
    ensures ParseStatus(EncodeStatus(s)) == Some(s)
  {
  }

  /** A response whose payload fits the length field is read back exactly. */
  lemma ParseEncoded(r: Response)
    requires Measured(r)
    ensures ParseResponse(Encode(r)) == Some(r)
  {
    EncodedFields(r);
    ParseEncodedStatus(r.status);
  }

  /** Equal bytes come from equal responses, whatever the payload length. */
  lemma EncodeInjective(r: Response, s: Response)
    requires Encode(r) == Encode(s)
    ensures r == s
  {
    EncodedFields(r);
    EncodedFields(s);
    ParseEncodedStatus(r.status);
    ParseEncodedStatus(s.status);
  }

  function EncodeEach(rs: seq<Response>): (fs: seq<seq<byte>>)
    ensures |fs| == |rs|
  {
    if rs == [] then [] else [Encode(rs[0])] + EncodeEach(rs[1..])
  }

  lemma {:induction false} EncodeEachAppend(rs: seq<Response>, more: seq<Response>)
    ensures EncodeEach(rs + more) == EncodeEach(rs) + EncodeEach(more)
  {
    hide Encode;
    if rs == [] {
      assert rs + more == more;
    } else {
      assert (rs + more)[1..] == rs[1..] + more;
      EncodeEachAppend(rs[1..], more);
    }
  }

  function EncodeAll(rs: seq<Response>): seq<byte> {
    if rs == [] then [] else Encode(rs[0]) + EncodeAll(rs[1..])
  }

  /** Cuts a byte stream into messages by the length field alone. */
  function SplitResponses(s: seq<byte>): Option<seq<Response>> {
    if s == [] then Some([])
    else if |s| < 10 || |s| < 10 + LeU32(s[1..5]) then None
    else
      var n := 10 + LeU32(s[1..5]);
      var first := ParseResponse(s[..n]);
      var rest := SplitResponses(s[n..]);
      if first.None? || rest.None? then None else Some([first.value] + rest.value)
  }

  /** Encoded responses are self-delimiting: their concatenation has one reading. */
  lemma {:induction false} SplitEncoded(rs: seq<Response>)
    requires forall r <- rs :: Measured(r)
    ensures SplitResponses(EncodeAll(rs)) == Some(rs)
  {
    if rs != [] {
      var f, rest := Encode(rs[0]), EncodeAll(rs[1..]);
      var s := f + rest;
      EncodedFields(rs[0]);
      ParseEncoded(rs[0]);
      assert s[1..5] == f[1..5];
      assert s[..|f|] == f && s[|f|..] == rest;
      SplitEncoded(rs[1..]);
      assert [rs[0]] + rs[1..] == rs;
    }
  }
}
