/** The historical bytes on their way from the card's ATS, over the PN532 wire, into
    the answer-to-reset the host reads. */
module PseudoAtr {
  import opened Bytes
  import opened Nfc
  import opened CcidProtocol
  import opened CcidBridge
  import opened P = Pn532Reader
  import Pn532Frame

  /* --------------------------------- reading an ATR (ISO/IEC 7816-3, section 8.2) */

  datatype Interface = Interface(end: nat, checked: bool)

  function Flag(b: byte, weight: nat): nat
    requires weight > 0
  {
    if HasBit(b, weight) then 1 else 0
  }

  /** Walks the interface bytes from `at`, where the high nibble of y says which of
      TA, TB, TC and TD come next. A protocol other than T=0 calls for TCK. */
  function Walk(atr: seq<byte>, at: nat, y: byte, checked: bool): Option<Interface>
    decreases |atr| - at
  {
    var td := at + Flag(y, 0x10) + Flag(y, 0x20) + Flag(y, 0x40);
    if !HasBit(y, 0x80) then Some(Interface(td, checked))
    else if td >= |atr| then None
    else Walk(atr, td + 1, atr[td], checked || atr[td] % 0x10 != 0)
  }

  /** The historical bytes of a well-formed ATR. */
  function ParseAtr(atr: seq<byte>): Option<seq<byte>> {
    if |atr| < 2 || (atr[0] != 0x3b && atr[0] != 0x3f) then None
    else
      var walked := Walk(atr, 2, atr[1], false);
      if walked.None? then None
      else
        var start := walked.value.end;
        var end := start + atr[1] as nat % 0x10;
        if |atr| != end + (if walked.value.checked then 1 else 0) then None
        else if walked.value.checked && XorSum(atr[1..]) != 0 then None
        else Some(atr[start..end])
  }

  predicate LooksLikeAtr(h: seq<byte>) {
    h != [] && (h[0] == 0x3b || h[0] == 0x3f)
  }

  function Kept(h: seq<byte>): seq<byte> {
    if |h| > 15 then h[..15] else h
  }

  lemma HighNibbleEight(k: nat)
    requires k < 16
    ensures var b: byte := 0x80 + k;
            && Flag(b, 0x10) == Flag(b, 0x20) == Flag(b, 0x40) == 0 && HasBit(b, 0x80)
            && b % 0x10 == k
  {
    var b := 0x80 + k;
    assert b / 0x10 == 8 && b / 0x20 == 4 && b / 0x40 == 2 && b / 0x80 == 1;
  }

  lemma PseudoAtrWalk(atr: seq<byte>, k: nat)
    requires |atr| >= 4 && k < 16
    requires atr[1] == 0x80 + k && atr[2] == 0x80 && atr[3] == 0x01
    ensures Walk(atr, 2, atr[1], false) == Some(Interface(4, true))
  {
    HighNibbleEight(k);
    HighNibbleEight(0);
    assert Walk(atr, 4, 0x01, true) == Some(Interface(4, true));
    assert Walk(atr, 3, 0x80, false) == Walk(atr, 4, 0x01, true);
  }

  lemma AtrOfParts(h: seq<byte>, body: seq<byte>, check: byte)
    requires |h| <= 15 && body == [0x80 + |h|, 0x80, 0x01] + h
    requires XorSum(([0x3b] + body + [check])[1..]) == 0
    ensures ParseAtr([0x3b] + body + [check]) == Some(h)
  {
    var atr := [0x3b] + body + [check];
    PseudoAtrWalk(atr, |h|);
    HighNibbleEight(|h|);
    assert atr[4..4 + |h|] == h;
  }

  lemma AtrParts(card: Card)
    requires !LooksLikeAtr(card.historicalBytes)
    ensures var h := Kept(card.historicalBytes);
            var body := [0x80 + |h|, 0x80, 0x01] + h;
            |h| <= 15 && BuildPseudoAtr(card) == [0x3b] + body + [XorSum(body)]
  {
  }

  /** The pseudo ATR reads back as the card's first fifteen historical bytes, and its
      bytes from T0 to TCK cancel out. */
  lemma AtrRoundTrip(card: Card)
    requires !LooksLikeAtr(card.historicalBytes)
    ensures XorSum(BuildPseudoAtr(card)[1..]) == 0
    ensures ParseAtr(BuildPseudoAtr(card)) == Some(Kept(card.historicalBytes))
  {
    hide *;
    AtrParts(card);
    var h := Kept(card.historicalBytes);
    var body: seq<byte> := [0x80 + |h|, 0x80, 0x01] + h;
    XorSumCloses(body);
    assert ([0x3b] + body + [XorSum(body)])[1..] == body + [XorSum(body)];
    AtrOfParts(h, body, XorSum(body));
  }

  lemma {:induction false} WalkGoesOn(atr: seq<byte>, at: nat, y: byte, checked: bool)
    ensures Walk(atr, at, y, checked).Some? ==> Walk(atr, at, y, checked).value.end >= at
    decreases |atr| - at
  {
    var td := at + Flag(y, 0x10) + Flag(y, 0x20) + Flag(y, 0x40);
    if HasBit(y, 0x80) && td < |atr| {
      WalkGoesOn(atr, td + 1, atr[td], checked || atr[td] % 0x10 != 0);
    }
  }

  /** For at most fifteen historical bytes the round trip holds exactly when they do
      not themselves look like an ATR, which is passed through unchanged. */
  lemma AtrRoundTripExactly(card: Card)
    requires |card.historicalBytes| <= 15
    ensures ParseAtr(BuildPseudoAtr(card)) == Some(card.historicalBytes) <==> !LooksLikeAtr(card.historicalBytes)
  {
    var h := card.historicalBytes;
    if LooksLikeAtr(h) {
      if |h| >= 2 {
        WalkGoesOn(h, 2, h[1], false);
      }
    } else {
      AtrRoundTrip(card);
    }
  }

  /** Beyond fifteen bytes an ATR among the historical bytes can read back as its own
      start by accident. */
  lemma LongHistoryAccident()
    ensures var h := seq(17, i => if i % 2 == 0 then 0x3b as byte else 0x0f);
            LooksLikeAtr(h) && ParseAtr(BuildPseudoAtr(Card([], IsoDep, h))) == Some(Kept(h))
  {
    var h := seq(17, i => if i % 2 == 0 then 0x3b as byte else 0x0f);
    assert Walk(h, 2, h[1], false) == Some(Interface(2, false));
    assert h[2..17] == h[..15];
  }

  /* ------------------------------------------- what a card and a PN532 transmit */

  /** An answer to select (ISO/IEC 14443-4, section 5.2): TL, T0, the interface bytes
      that T0 announces, the historical bytes. */
  function Ats(t0: byte, interface: seq<byte>, historical: seq<byte>): seq<byte>
    requires |interface| == Flag(t0, 0x10) + Flag(t0, 0x20) + Flag(t0, 0x40)
    requires |interface| + |historical| + 2 < 0x100
  {
    [2 + |interface| + |historical|, t0] + interface + historical
  }

  lemma AtsHistory(t0: byte, interface: seq<byte>, historical: seq<byte>)
    requires |interface| == Flag(t0, 0x10) + Flag(t0, 0x20) + Flag(t0, 0x40)
    requires |interface| + |historical| + 2 < 0x100
    ensures AtsHistoricalBytes(Ats(t0, interface, historical)) == Success(historical)
  {
    var ats := Ats(t0, interface, historical);
    assert ats[0] == |ats| && ats[1] == t0;
    assert ats[2 + |interface|..] == historical;
  }

  /** What is parsed as an ATS was one: the bytes taken are the tail that TL and T0
      leave, so nothing else is ever accepted. */
  lemma AtsExactly(ats: seq<byte>)
    ensures AtsHistoricalBytes(ats).Success? <==>
            exists t0: byte, interface: seq<byte>, historical: seq<byte> ::
              && |interface| == Flag(t0, 0x10) + Flag(t0, 0x20) + Flag(t0, 0x40)
              && |interface| + |historical| + 2 < 0x100
              && ats == Ats(t0, interface, historical)
  {
    if AtsHistoricalBytes(ats).Success? {
      var t0 := ats[1];
      var n := Flag(t0, 0x10) + Flag(t0, 0x20) + Flag(t0, 0x40);
      assert ats == Ats(t0, ats[2..2 + n], ats[2 + n..]);
    }
    if t0: byte, interface: seq<byte>, historical: seq<byte> :|
      && |interface| == Flag(t0, 0x10) + Flag(t0, 0x20) + Flag(t0, 0x40)
      && |interface| + |historical| + 2 < 0x100
      && ats == Ats(t0, interface, historical)
    {
      AtsHistory(t0, interface, historical);
    }
  }

  /** The PN532's report of listed targets, of which the first is described: how many,
      its number, SENS_RES, SEL_RES, UID, ATS. */
  function TargetReply(count: byte, number: byte, sens: seq<byte>, sel: byte, uid: seq<byte>, ats: seq<byte>): seq<byte>
    requires |sens| == 2 && |uid| < 0x100
  {
    [count, number] + sens + [sel, |uid|] + uid + ats
  }

  lemma ParseTargetReply(count: byte, number: byte, sens: seq<byte>, sel: byte, uid: seq<byte>, ats: seq<byte>,
                         h: seq<byte>, extra: seq<byte>)
    requires count != 0 && |sens| == 2 && |uid| < 0x100
    requires if ats == [] then h == [] && extra == [] else AtsHistoricalBytes(ats) == Success(h)
    ensures ParseTarget(TargetReply(count, number, sens, sel, uid, ats) + extra) ==
            Success(Some(Target(number, Card(uid, IsoDep, h))))
  {
    var r := TargetReply(count, number, sens, sel, uid, ats) + extra;
    var n := 6 + |uid|;
    assert r[0] == count && r[1] == number && r[5] == |uid|;
    assert r[6..n] == uid;
    if ats != [] {
      assert r[n..n + |ats|] == ats && r[n] == ats[0];
    }
  }

  /** A poll reply is taken for a target exactly when it has this layout, with a
      well-formed ATS or none at all; trailing bytes are ignored only behind an ATS. */
  lemma ParseTargetExactly(r: seq<byte>, number: byte, uid: seq<byte>, h: seq<byte>)
    requires |uid| < 0x100
    ensures ParseTarget(r) == Success(Some(Target(number, Card(uid, IsoDep, h)))) <==>
            exists count: byte, sens: seq<byte>, sel: byte, ats: seq<byte>, extra: seq<byte> ::
              && count != 0 && |sens| == 2
              && r == TargetReply(count, number, sens, sel, uid, ats) + extra
              && (if ats == [] then h == [] && extra == [] else AtsHistoricalBytes(ats) == Success(h))
  {
    if ParseTarget(r) == Success(Some(Target(number, Card(uid, IsoDep, h)))) {
      var n := 6 + |uid|;
      assert r[..6] == [r[0], r[1]] + r[2..4] + [r[4], r[5]];
      assert r == r[..6] + r[6..n] + r[n..];
      if |r| == n {
        assert r == TargetReply(r[0], number, r[2..4], r[4], uid, []) + [];
      } else {
        var end := n + r[n] as nat;
        assert r[n..] == r[n..end] + r[end..];
        assert r == TargetReply(r[0], number, r[2..4], r[4], uid, r[n..end]) + r[end..];
      }
    }
    if count: byte, sens: seq<byte>, sel: byte, ats: seq<byte>, extra: seq<byte> :|
      && count != 0 && |sens| == 2
      && r == TargetReply(count, number, sens, sel, uid, ats) + extra
      && (if ats == [] then h == [] && extra == [] else AtsHistoricalBytes(ats) == Success(h))
    {
      ParseTargetReply(count, number, sens, sel, uid, ats, h, extra);
    }
  }

  /** The next poll of p asks the device, which lists a target in one frame. */
  predicate NextPollLists(p: Pn532, extended: bool, reply: seq<byte>)
    requires |reply| + 2 < (if extended then 0x1_0000 else 0x100)
  {
    var tick := p.device.Tick();
    && !CanReturnCachedPresence(p.cachedCard.Some?, p.activeTarget.Some?, RecentlyPolled(p, tick.result))
    && SetRf(p.(device := tick.next), true).result.Success?
    && p.device.replies != []
    && p.device.replies[0] == Line(Pn532Frame.Wire(extended, LISTED, reply))
  }

  lemma PollReads(p: Pn532, extended: bool, reply: seq<byte>)
    requires |reply| + 2 < (if extended then 0x1_0000 else 0x100)
    requires NextPollLists(p, extended, reply)
    requires ParseTarget(reply).Success? && ParseTarget(reply).value.Some?
    ensures P.Poll(p).result == Success(Some(ParseTarget(reply).value.value.card))
  {
    var wire := Pn532Frame.Wire(extended, LISTED, reply);
    assert wire + [] == wire;
    if extended {
      Pn532Frame.ReceiveExtended(LISTED, reply, []);
    } else {
      Pn532Frame.ReceiveNormal(LISTED, reply, []);
    }
  }

  /** End to end: the host that powers on reads, out of the ATR in the response, the
      first fifteen historical bytes that the card put into its ATS. */
  lemma HistoricalBytesSurvive(b: Bridge, slot: byte, seqNum: byte, powerSelect: byte, extended: bool,
                               number: byte, sens: seq<byte>, sel: byte, uid: seq<byte>,
                               t0: byte, interface: seq<byte>, h: seq<byte>)
    requires |sens| == 2 && |uid| < 0x100
    requires |interface| == Flag(t0, 0x10) + Flag(t0, 0x20) + Flag(t0, 0x40)
    requires |interface| + |h| + 2 < 0x100
    requires |TargetReply(1, number, sens, sel, uid, Ats(t0, interface, h))| + 2 <
             (if extended then 0x1_0000 else 0x100)
    requires b.reader.Uart?
    requires NextPollLists(b.reader.pn532, extended, TargetReply(1, number, sens, sel, uid, Ats(t0, interface, h)))
    requires !LooksLikeAtr(h)
    ensures var r := Handle(b, IccPowerOn(slot, seqNum, powerSelect)).result;
            r.DataBlock? && r.status == Ok(Active) && ParseAtr(r.payload) == Some(Kept(h))
  {
    var ats := Ats(t0, interface, h);
    var reply := TargetReply(1, number, sens, sel, uid, ats);
    AtsHistory(t0, interface, h);
    ParseTargetReply(1, number, sens, sel, uid, ats, h, []);
    assert reply + [] == reply;
    PollReads(b.reader.pn532, extended, reply);
    AtrRoundTrip(Card(uid, IsoDep, h));
  }
}
