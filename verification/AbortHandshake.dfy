/** The abort handshake (CCID 1.1, sections 5.3.1 and 6.1.13): quarantine while it is
    half done, completion, and the order of its two halves. */
module AbortHandshake {
  import opened Bytes
  import opened CcidProtocol
  import opened FrameStream
  import opened CcidTransport
  import opened Packetisation
  import B = CcidBridge

  /* --------------------------------------------------------------- quarantine */

  function PushAll(q: seq<seq<byte>>, frames: seq<seq<byte>>): seq<seq<byte>>
    decreases |frames|
  {
    if frames == [] then q else PushAll(PushFrame(q, frames[0]), frames[1..])
  }

  /** The refusals owed for frames received while an abort is pending. */
  function Refusals(b: B.Bridge, frames: seq<seq<byte>>): (rs: seq<seq<byte>>)
    requires forall i :: 0 <= i < |frames| ==> Decode(frames[i]).Success?
    ensures |rs| == |frames|
  {
    seq(|frames|, i requires 0 <= i < |frames| => Encode(AbortedResponse(b, Decode(frames[i]).value)))
  }

  lemma QuarantineFrame(c: Core, frame: seq<byte>)
    requires c.controlAbort.Some? && WholeFrame(frame) && !CompletesFrame(c.controlAbort, frame)
    ensures Decode(frame).Success?
    ensures var refusal := Encode(AbortedResponse(c.bridge, Decode(frame).value));
            OnFrame(c, frame) == Observe(Offer(c, refusal), c.bridge.card.Some?)
  {
    WholeFrameDecodes(frame);
  }

  /** While a control abort is pending, frames that do not complete it reach neither
      the bridge nor its reader; each is answered by exactly one refusal, in order. */
  lemma {:induction false} QuarantineFrames(c: Core, frames: seq<seq<byte>>)
    requires c.controlAbort.Some? && !CompletesIn(c.controlAbort, frames)
    requires forall i :: 0 <= i < |frames| ==> WholeFrame(frames[i]) && Decode(frames[i]).Success?
    ensures var b := OnFrames(c, frames);
            && !b.finished
            && b.core.bridge == c.bridge
            && b.core.bulkAbort == c.bulkAbort && b.core.controlAbort == c.controlAbort
            && b.core.inFrames == PushAll(c.inFrames, Refusals(c.bridge, frames))
            && |b.core.interrupts| == |c.interrupts| + |frames|
    decreases |frames|
  {
    hide OnFrame, Encode, PushFrame, CompletesFrame, AbortedResponse, WholeFrame, Decode;
    if frames != [] {
      var f, rest := frames[0], frames[1..];
      assert !CompletesFrame(c.controlAbort, f);
      QuarantineFrame(c, f);
      var c1 := OnFrame(c, f);
      forall i | 0 <= i < |rest| ensures WholeFrame(rest[i]) && Decode(rest[i]).Success? {
        assert rest[i] == frames[i + 1];
      }
      QuarantineFrames(c1, rest);
      var refusals := Refusals(c.bridge, frames);
      assert refusals[1..] == Refusals(c.bridge, rest);
    }
  }

  /** The quarantine, for any bytes from the host: the bridge (with its reader and the
      calls made on it) is untouched, the abort stays pending, and every complete
      frame has been answered once. */
  lemma QuarantineHolds(t: Transport, payload: seq<byte>)
    requires t.core.controlAbort.Some?
    requires !CompletesIn(t.core.controlAbort, Parse(t.outBuffer + payload).frames)
    ensures var c := BulkOut(t, payload).next.core;
            var frames := Parse(t.outBuffer + payload).frames;
            && (forall i :: 0 <= i < |frames| ==> Decode(frames[i]).Success?)
            && c.bridge == t.core.bridge
            && c.bulkAbort == t.core.bulkAbort && c.controlAbort == t.core.controlAbort
            && c.inFrames == PushAll(t.core.inFrames, Refusals(t.core.bridge, frames))
            && |c.interrupts| == |t.core.interrupts| + |frames|
  {
    var s := t.outBuffer + payload;
    var frames := Parse(s).frames;
    ParseSound(s);
    forall i | 0 <= i < |frames| ensures WholeFrame(frames[i]) && Decode(frames[i]).Success? {
      assert frames[i] in frames;
      WholeFrameDecodes(frames[i]);
    }
    QuarantineFrames(t.core, frames);
  }

  /** What the host reads in a refusal: its own slot and number, failed, error FF. */
  lemma RefusalReadsBack(b: B.Bridge, frame: seq<byte>)
    requires Decode(frame).Success?
    ensures ParseResponse(Encode(AbortedResponse(b, Decode(frame).value))) ==
            Some(SlotStatus(frame[5], frame[6], Fail(B.Icc(b)), 0xff, 0))
  {
    DecodeExactly(frame);
    ParseEncoded(AbortedResponse(b, Decode(frame).value));
  }

  /* --------------------------------------------------------------- completion */

  /** When the matching bulk abort arrives, whatever came before and after it in the
      same delivery, both flags and the buffer are clear, the slot is unchanged, and
      the only response queued is the successful answer to the abort. */
  lemma AbortCompletes(t: Transport, payload: seq<byte>)
    requires t.core.controlAbort.Some?
    requires CompletesIn(t.core.controlAbort, Parse(t.outBuffer + payload).frames)
    ensures var a := BulkOut(t, payload);
            var id := t.core.controlAbort.value;
            && a.result.Success? && a.next.outBuffer == []
            && a.next.core.bulkAbort.None? && a.next.core.controlAbort.None?
            && a.next.core.bridge == t.core.bridge
            && a.next.core.inFrames ==
                 [Encode(SlotStatus(id.slot, id.seqNum, Ok(B.Icc(t.core.bridge)), 0, 0))]
  {
    var frames := Parse(t.outBuffer + payload).frames;
    ParseSound(t.outBuffer + payload);
    assert forall i :: 0 <= i < |frames| ==> frames[i] in frames;
    FinishedExactly(t.core, frames);
    FinishingFrames(t.core, frames);
  }

  lemma FinishAbortShape(c: Core, slot: byte, seqNum: byte)
    ensures var c1 := FinishAbort(c, slot, seqNum);
            && c1.bulkAbort.None? && c1.controlAbort.None? && c1.bridge == c.bridge
            && c1.inFrames == [Encode(SlotStatus(slot, seqNum, Ok(B.Icc(c.bridge)), 0, 0))]
  {
    hide Encode;
  }

  lemma {:induction false} FinishingFrames(c: Core, frames: seq<seq<byte>>)
    requires c.controlAbort.Some? && CompletesIn(c.controlAbort, frames)
    requires forall i :: 0 <= i < |frames| ==> WholeFrame(frames[i])
    ensures var c1 := OnFrames(c, frames).core;
            var id := c.controlAbort.value;
            && c1.bulkAbort.None? && c1.controlAbort.None? && c1.bridge == c.bridge
            && c1.inFrames == [Encode(SlotStatus(id.slot, id.seqNum, Ok(B.Icc(c.bridge)), 0, 0))]
    decreases |frames|
  {
    hide Encode, WholeFrame, FinishAbort, PushFrame;
    var f, rest := frames[0], frames[1..];
    if CompletesFrame(c.controlAbort, f) {
      FinishAbortShape(c, c.controlAbort.value.slot, c.controlAbort.value.seqNum);
    } else {
      QuarantineFrame(c, f);
      var i :| 0 <= i < |frames| && CompletesFrame(c.controlAbort, frames[i]);
      assert rest[i - 1] == frames[i];
      assert forall k :: 0 <= k < |rest| ==> rest[k] == frames[k + 1];
      FinishingFrames(OnFrame(c, f), rest);
    }
  }

  /* --------------------------------------------------------- order of the halves */

  function AbortValue(slot: byte, seqNum: byte): word {
    slot as int + 0x100 * (seqNum as int)
  }

  lemma ControlAbortIs(t: Transport, slot: byte, seqNum: byte)
    ensures Control(t, 0x21, 0x01, AbortValue(slot, seqNum)) ==
            After(Success([]), ExpectAbort(t, slot, seqNum))
  {
  }

  /** The class requests, byte by byte: the clock frequency, the data rate and the
      control half of an abort are all that is supported. */
  lemma ControlExactly(t: Transport, requestType: byte, request: byte, value: word)
    ensures var a := Control(t, requestType, request, value);
            && (requestType == 0xa1 && request == 0x02 ==> a == After(Success([0xfc, 0x0d, 0x00, 0x00]), t))
            && (requestType == 0xa1 && request == 0x03 ==> a == After(Success([0x80, 0x25, 0x00, 0x00]), t))
            && (requestType == 0x21 && request == 0x01 ==> a.result == Success([]))
            && (a.result == Failure(Unsupported) <==>
                  !(requestType == 0xa1 && request == 0x02) && !(requestType == 0xa1 && request == 0x03)
                  && !(requestType == 0x21 && request == 0x01))
            && (a.result.Failure? ==> a == After(Failure(Unsupported), t))
  {
  }

  /** The control half of an abort: one for another slot does nothing; one whose bulk half
      was the last frame received completes the abort at once, clearing everything but
      its answer; any other is noted and changes nothing else. */
  lemma ControlAbortExactly(t: Transport, slot: byte, n: byte)
    ensures var t1 := Control(t, 0x21, 0x01, AbortValue(slot, n)).next;
            if slot != 0 then t1 == t
            else if t.core.bulkAbort == Some(n) then
              && t1.core.bulkAbort.None? && t1.core.controlAbort.None? && t1.outBuffer == []
              && t1.core.bridge == t.core.bridge
              && t1.core.inFrames == [Encode(SlotStatus(0, n, Ok(B.Icc(t.core.bridge)), 0, 0))]
              && |t1.core.interrupts| == |t.core.interrupts| + 1
            else t1 == t.(core := t.core.(controlAbort := Some(AbortId(0, n))))
  {
    hide Encode;
    ControlAbortIs(t, slot, n);
    FinishAbortShape(t.core, slot, n);
  }

  lemma DeliverOne(t: Transport, frame: seq<byte>)
    requires t.outBuffer == [] && WholeFrame(frame)
    ensures BulkOut(t, frame).next == Transport(OnFrame(t.core, frame), [])
  {
    assert t.outBuffer + frame == frame + [];
    DeliverFrame(t.core, frame, []);
  }

  /** The control half for (controlSlot, n) and the bulk half for (bulkSlot, k) reach
      the same state in either order exactly when the control half is not for this
      reader's slot 0, or both halves name slot 0 and the same number. */
  lemma AbortOrderExactly(t: Transport, controlSlot: byte, n: byte, frame: seq<byte>, bulkSlot: byte, k: byte)
    requires t.outBuffer == [] && t.core.bulkAbort.None? && t.core.controlAbort.None?
    requires WholeFrame(frame) && Decode(frame) == Success(Abort(bulkSlot, k))
    ensures var value := AbortValue(controlSlot, n);
            var controlFirst := BulkOut(Control(t, 0x21, 0x01, value).next, frame).next;
            var bulkFirst := Control(BulkOut(t, frame).next, 0x21, 0x01, value).next;
            controlFirst == bulkFirst <==> controlSlot != 0 || (n == k && bulkSlot == 0)
  {
    var waiting := ExpectAbort(t, controlSlot, n);
    ControlAbortIs(t, controlSlot, n);
    ControlAbortIs(BulkOut(t, frame).next, controlSlot, n);
    DeliverOne(t, frame);
    DeliverOne(waiting, frame);
    FinishAbortShape(t.core.(bulkAbort := Some(k)), 0, n);
    if controlSlot == 0 {
      if n == k && bulkSlot == 0 {
        assert ClearAborts(t.core.(controlAbort := Some(AbortId(0, n)))) == ClearAborts(t.core.(bulkAbort := Some(n)));
      }
    }
  }

  /** In particular the two halves of one abort for slot 0 commute. */
  lemma AbortHalvesCommute(t: Transport, n: byte)
    requires t.outBuffer == [] && t.core.bulkAbort.None? && t.core.controlAbort.None?
    ensures var value, frame := AbortValue(0, n), HostFrame(Abort(0, n));
            BulkOut(Control(t, 0x21, 0x01, value).next, frame).next ==
            Control(BulkOut(t, frame).next, 0x21, 0x01, value).next
  {
    DecodeHostFrame(Abort(0, n));
    DecodeExactly(HostFrame(Abort(0, n)));
    AbortOrderExactly(t, 0, n, HostFrame(Abort(0, n)), 0, n);
  }
}
