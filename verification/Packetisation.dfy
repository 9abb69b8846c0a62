/** How a bulk-OUT byte stream is cut into packets does not matter. */
module Packetisation {
  import opened Bytes
  import opened CcidProtocol
  import opened FrameStream
  import opened CcidTransport
  import CcidBridge

  /* ------------------------------------------------------ runs of frames */

  lemma OnFrameKeepsControl(c: Core, frame: seq<byte>)
    ensures !CompletesFrame(c.controlAbort, frame) ==> OnFrame(c, frame).controlAbort == c.controlAbort
  {
    hide Ask, Quarantine;
    if Decode(frame).Success? {
      OnCommandControl(c, Decode(frame).value);
    }
  }

  lemma OnCommandControl(c: Core, command: Command)
    ensures !Completes(c.controlAbort, command) ==> OnCommand(c, command).controlAbort == c.controlAbort
  {
    hide CcidBridge.Handle, Encode;
  }

  predicate CompletesIn(pending: Option<AbortId>, frames: seq<seq<byte>>) {
    exists i :: 0 <= i < |frames| && CompletesFrame(pending, frames[i])
  }

  /** A batch of frames stops early exactly when one of them completes the abort that
      was pending at its start. */
  lemma {:induction false} FinishedExactly(c: Core, frames: seq<seq<byte>>)
    ensures OnFrames(c, frames).finished <==> CompletesIn(c.controlAbort, frames)
    ensures !OnFrames(c, frames).finished ==> OnFrames(c, frames).core.controlAbort == c.controlAbort
    decreases |frames|
  {
    hide OnFrame, CompletesFrame;
    if frames != [] && !CompletesFrame(c.controlAbort, frames[0]) {
      OnFrameKeepsControl(c, frames[0]);
      FinishedExactly(OnFrame(c, frames[0]), frames[1..]);
      if i :| 0 <= i < |frames| && CompletesFrame(c.controlAbort, frames[i]) {
        assert frames[1..][i - 1] == frames[i];
      }
    }
  }

  lemma {:induction false} OnFramesAppend(c: Core, fs: seq<seq<byte>>, gs: seq<seq<byte>>)
    ensures OnFrames(c, fs + gs) == if OnFrames(c, fs).finished then OnFrames(c, fs)
                                    else OnFrames(OnFrames(c, fs).core, gs)
    decreases |fs|
  {
    hide OnFrame, CompletesFrame;
    if fs == [] {
      assert fs + gs == gs;
    } else if !CompletesFrame(c.controlAbort, fs[0]) {
      assert (fs + gs)[1..] == fs[1..] + gs;
      OnFramesAppend(OnFrame(c, fs[0]), fs[1..], gs);
    }
  }

  /* ------------------------------------------------- what has no effect at all */

  predicate BulkAbortFrame(frame: seq<byte>) {
    Decode(frame).Success? && Decode(frame).value.Abort?
  }

  /** With no control abort pending, bulk aborts only note their sequence number. */
  ghost predicate OnlyNoted(c: Core, frames: seq<seq<byte>>) {
    frames == [] ||
    (c.controlAbort.None? && forall i :: 0 <= i < |frames| ==> BulkAbortFrame(frames[i]))
  }

  lemma OnFrameEffect(c: Core, frame: seq<byte>)
    requires WholeFrame(frame)
    ensures if c.controlAbort.None? && BulkAbortFrame(frame)
            then OnFrame(c, frame) == c.(bulkAbort := Some(Decode(frame).value.seqNum))
            else |OnFrame(c, frame).interrupts| == |c.interrupts| + 1
  {
    hide CcidBridge.Handle, Encode;
    WholeFrameDecodes(frame);
  }

  lemma {:induction false} FramesEffect(c: Core, frames: seq<seq<byte>>)
    requires forall i :: 0 <= i < |frames| ==> WholeFrame(frames[i])
    ensures OnlyNoted(c, frames) ==>
              OnFrames(c, frames) ==
              Batch(if frames == [] then c else c.(bulkAbort := Some(Decode(frames[|frames| - 1]).value.seqNum)), false)
    ensures !OnlyNoted(c, frames) ==> |OnFrames(c, frames).core.interrupts| > |c.interrupts|
    ensures |OnFrames(c, frames).core.interrupts| >= |c.interrupts|
    decreases |frames|
  {
    hide OnFrame, WholeFrame;
    if frames != [] {
      var c1, rest := OnFrame(c, frames[0]), frames[1..];
      OnFrameEffect(c, frames[0]);
      FramesEffect(c1, rest);
      if OnlyNoted(c, frames) {
        assert forall i :: 0 <= i < |rest| ==> rest[i] == frames[i + 1];
      }
    }
  }

  /** Bytes that leave a transport with an empty buffer as it was: nothing, an
      oversized header, or bulk aborts that repeat the number already noted. */
  ghost predicate NoEffect(c: Core, s: seq<byte>) {
    var p := Parse(s);
    && (p.rest == [] || Oversized(p.rest))
    && OnlyNoted(c, p.frames)
    && (p.frames != [] ==> c.bulkAbort == Some(Decode(p.frames[|p.frames| - 1]).value.seqNum))
  }

  lemma NoEffectExactly(c: Core, s: seq<byte>)
    ensures Deliver(c, s).next == Transport(c, []) <==> NoEffect(c, s)
  {
    ParseSound(s);
    var frames := Parse(s).frames;
    assert forall i :: 0 <= i < |frames| ==> frames[i] in frames;
    FramesEffect(c, frames);
  }

  /* ------------------------------------------------------------ the theorems */

  /** While the bytes of a are read, a pending abort completes or an oversized header
      turns up; either way the transport drops the rest of what it holds. */
  ghost predicate Discards(t: Transport, a: seq<byte>) {
    var p := Parse(t.outBuffer + a);
    CompletesIn(t.core.controlAbort, p.frames) || Oversized(p.rest)
  }

  /** Two packets act like one unless the first makes the transport discard. */
  lemma TwoPacketsLikeOne(t: Transport, a: seq<byte>, b: seq<byte>)
    requires !Discards(t, a)
    ensures BulkOut(t, a).result.Success?
    ensures BulkOut(BulkOut(t, a).next, b) == BulkOut(t, a + b)
  {
    var s := t.outBuffer + a;
    assert t.outBuffer + (a + b) == s + b;
    FinishedExactly(t.core, Parse(s).frames);
    ParseAppend(s, b);
    OnFramesAppend(t.core, Parse(s).frames, Parse(Parse(s).rest + b).frames);
  }

  lemma DiscardingPacket(t: Transport, a: seq<byte>, b: seq<byte>)
    requires Discards(t, a)
    ensures BulkOut(t, a).next.outBuffer == []
    ensures BulkOut(t, a + b).next == BulkOut(t, a).next
    ensures Discards(t, a + b)
  {
    hide Parse, OnFrames, CompletesFrame, FrameLen;
    var s := t.outBuffer + a;
    assert t.outBuffer + (a + b) == s + b;
    var p := Parse(s);
    FinishedExactly(t.core, p.frames);
    if Oversized(p.rest) {
      ParseBlocked(s, b);
    } else {
      ParseAppend(s, b);
      var more := Parse(p.rest + b).frames;
      OnFramesAppend(t.core, p.frames, more);
      var i :| 0 <= i < |p.frames| && CompletesFrame(t.core.controlAbort, p.frames[i]);
      assert (p.frames + more)[i] == p.frames[i];
    }
  }

  /** The bulk abort number noted after a batch that completes no abort: the number
      of the last frame if that is a bulk abort, none otherwise; unchanged while a
      control abort is pending. */
  function Noted(c: Core, frames: seq<seq<byte>>): Option<byte> {
    if frames == [] || c.controlAbort.Some? then c.bulkAbort
    else
      var last := frames[|frames| - 1];
      if BulkAbortFrame(last) then Some(Decode(last).value.seqNum) else None
  }

  lemma OnFrameNotes(c: Core, frame: seq<byte>)
    requires WholeFrame(frame) && !CompletesFrame(c.controlAbort, frame)
    ensures OnFrame(c, frame).bulkAbort == Noted(c, [frame])
  {
    hide CcidBridge.Handle, Encode;
    WholeFrameDecodes(frame);
  }

  lemma {:induction false} BatchNotes(c: Core, frames: seq<seq<byte>>)
    requires forall i :: 0 <= i < |frames| ==> WholeFrame(frames[i])
    requires !CompletesIn(c.controlAbort, frames)
    ensures OnFrames(c, frames).core.bulkAbort == Noted(c, frames)
    decreases |frames|
  {
    hide OnFrame, WholeFrame, CompletesFrame, BulkAbortFrame;
    if frames != [] {
      var c1, rest := OnFrame(c, frames[0]), frames[1..];
      assert !CompletesFrame(c.controlAbort, frames[0]);
      OnFrameNotes(c, frames[0]);
      OnFrameKeepsControl(c, frames[0]);
      assert forall i :: 0 <= i < |rest| ==> rest[i] == frames[i + 1];
      BatchNotes(c1, rest);
    }
  }

  /** What b may be, after a packet a that made the transport discard, for the packet
      boundary to make no difference. After a completed abort: nothing, or an oversized
      header. After an oversized header: bulk aborts too, if no control abort is pending
      and the last of them repeats the number that stood when the header came. */
  ghost predicate Harmless(t: Transport, a: seq<byte>, b: seq<byte>) {
    var before, after := Parse(t.outBuffer + a).frames, Parse(b);
    if CompletesIn(t.core.controlAbort, before) then
      b == [] || Oversized(b)
    else
      && (after.rest == [] || Oversized(after.rest))
      && (after.frames != [] ==>
            && OnlyNoted(t.core, after.frames)
            && Noted(t.core, before) == Some(Decode(after.frames[|after.frames| - 1]).value.seqNum))
  }

  lemma {:induction false} FinishingClears(c: Core, frames: seq<seq<byte>>)
    requires OnFrames(c, frames).finished
    ensures OnFrames(c, frames).core.bulkAbort.None? && OnFrames(c, frames).core.controlAbort.None?
    decreases |frames|
  {
    hide CcidBridge.Handle, Encode;
    if !CompletesFrame(c.controlAbort, frames[0]) {
      FinishingClears(OnFrame(c, frames[0]), frames[1..]);
    }
  }

  lemma HarmlessIsNoEffect(t: Transport, a: seq<byte>, b: seq<byte>)
    requires Discards(t, a)
    ensures Harmless(t, a, b) <==> NoEffect(BulkOut(t, a).next.core, b)
  {
    hide OnFrames, CompletesFrame, BulkAbortFrame, FrameLen, WholeFrame;
    var s := t.outBuffer + a;
    var frames := Parse(s).frames;
    ParseSound(s);
    assert forall i :: 0 <= i < |frames| ==> frames[i] in frames;
    FinishedExactly(t.core, frames);
    if CompletesIn(t.core.controlAbort, frames) {
      FinishingClears(t.core, frames);
    } else {
      BatchNotes(t.core, frames);
    }
  }

  /** Packetisation independence, exactly: delivering a and then b leaves the whole
      transport as delivering them together does, if and only if a makes it discard
      nothing or b is harmless. */
  lemma PacketBoundaryExactly(t: Transport, a: seq<byte>, b: seq<byte>)
    ensures BulkOut(BulkOut(t, a).next, b).next == BulkOut(t, a + b).next <==>
            !Discards(t, a) || Harmless(t, a, b)
  {
    if Discards(t, a) {
      var t1 := BulkOut(t, a).next;
      DiscardingPacket(t, a, b);
      assert t1.outBuffer + b == b;
      NoEffectExactly(t1.core, b);
      HarmlessIsNoEffect(t, a, b);
    } else {
      TwoPacketsLikeOne(t, a, b);
    }
  }

  function SendAll(t: Transport, packets: seq<seq<byte>>): Transport {
    if packets == [] then t
    else BulkOut(SendAll(t, packets[..|packets| - 1]), packets[|packets| - 1]).next
  }

  /** Any way of cutting a byte stream into packets behaves like one delivery of the
      whole, as long as nothing is discarded before the last packet. */
  lemma {:induction false} AnyPacketsLikeOne(t: Transport, packets: seq<seq<byte>>)
    requires packets != [] && !Discards(t, Flatten(packets[..|packets| - 1]))
    ensures SendAll(t, packets) == BulkOut(t, Flatten(packets)).next
  {
    var n := |packets| - 1;
    var before, last := packets[..n], packets[n];
    assert packets == before + [last];
    FlattenSnoc(before, last);
    if n == 0 {
      assert Flatten(packets) == last;
    } else {
      var shorter := before[..n - 1];
      FlattenSnoc(shorter, before[n - 1]);
      assert before == shorter + [before[n - 1]];
      if Discards(t, Flatten(shorter)) {
        DiscardingPacket(t, Flatten(shorter), before[n - 1]);
        assert false;
      }
      AnyPacketsLikeOne(t, before);
      TwoPacketsLikeOne(t, Flatten(before), last);
    }
  }

  /* ------------------------------------------------------- the byte stream */

  /** Bytes are conserved: what a delivery without discards turns into frames, plus
      what it keeps, is what it held plus what arrived; and in every case the bytes
      kept hold no frame and are fewer than one maximal message. The delivery fails
      exactly for an oversized header that no completed abort came before. */
  lemma BytesConserved(t: Transport, payload: seq<byte>)
    ensures var s := t.outBuffer + payload;
            var kept := BulkOut(t, payload).next.outBuffer;
            && (!Discards(t, payload) ==> Flatten(Parse(s).frames) + kept == s)
            && (forall f <- Parse(s).frames :: WholeFrame(f) && Decode(f).Success?)
            && Waiting(kept) && |kept| < 3082
            && (BulkOut(t, payload).result.Failure? <==>
                  var rest := Parse(s).rest;
                  |rest| >= 10 && LeU32(rest[1..5]) > 3072 && !CompletesIn(t.core.controlAbort, Parse(s).frames))
  {
    var s := t.outBuffer + payload;
    ParseSound(s);
    FinishedExactly(t.core, Parse(s).frames);
    forall f | f in Parse(s).frames ensures Decode(f).Success? {
      WholeFrameDecodes(f);
    }
  }

  function OnCommands(c: Core, cs: seq<Command>): Core
    decreases |cs|
  {
    if cs == [] then c else OnCommands(OnCommand(c, cs[0]), cs[1..])
  }

  lemma {:induction false} FramesAreCommands(c: Core, cs: seq<Command>)
    requires c.controlAbort.None?
    requires forall i :: 0 <= i < |cs| ==> FitsReader(cs[i])
    ensures OnFrames(c, HostFrames(cs)) == Batch(OnCommands(c, cs), false)
    decreases |cs|
  {
    if cs != [] {
      assert FitsReader(cs[0]);
      var f, rest := HostFrame(cs[0]), HostFrames(cs[1..]);
      DecodeHostFrame(cs[0]);
      OnFrameKeepsControl(c, f);
      FramesAreCommands(OnCommand(c, cs[0]), cs[1..]);
      assert ([f] + rest)[1..] == rest;
    }
  }

  /** The host's commands, cut into packets anywhere, are handled one by one and in
      order, and nothing is left in the buffer. */
  lemma CommandsArrive(t: Transport, cs: seq<Command>, packets: seq<seq<byte>>)
    requires t.outBuffer == [] && t.core.controlAbort.None?
    requires forall i :: 0 <= i < |cs| ==> FitsReader(cs[i])
    requires packets != [] && Flatten(packets) == Flatten(HostFrames(cs))
    ensures SendAll(t, packets) == Transport(OnCommands(t.core, cs), [])
  {
    var n := |packets| - 1;
    var before, last := packets[..n], packets[n];
    assert packets == before + [last];
    FlattenSnoc(before, last);
    HostFramesComeOut(cs);
    assert t.outBuffer + Flatten(before) == Flatten(before);
    if Oversized(Parse(Flatten(before)).rest) {
      ParseBlocked(Flatten(before), last);
      assert false;
    }
    AnyPacketsLikeOne(t, packets);
    assert t.outBuffer + Flatten(packets) == Flatten(packets);
    FramesAreCommands(t.core, cs);
  }
}
