/** From the host's commands to the responses it reads: bulk-OUT in arbitrary packets,
    bulk-IN in packets of any size. */
module EndToEnd {
  import opened Bytes
  import opened CcidProtocol
  import opened FrameStream
  import opened CcidTransport
  import opened Packetisation
  import opened BulkInFraming
  import B = CcidBridge
  import BridgeRuns
  import AbortHandshake

  /** What the bridge answers when it handles the commands one after another; the
      bulk half of an abort is only noted and gets no answer of its own. */
  function Answers(b: B.Bridge, cs: seq<Command>): (rs: seq<Response>)
    ensures |rs| <= |cs|
    decreases |cs|
  {
    if cs == [] then []
    else if cs[0].Abort? then Answers(b, cs[1..])
    else
      var a := B.Handle(b, cs[0]);
      [a.result] + Answers(a.next, cs[1..])
  }

  /** The bridge after handling them. */
  function BridgeAfter(b: B.Bridge, cs: seq<Command>): B.Bridge
    decreases |cs|
  {
    if cs == [] then b
    else BridgeAfter(if cs[0].Abort? then b else B.Handle(b, cs[0]).next, cs[1..])
  }

  /** Neighbouring commands carry different sequence numbers. */
  predicate Numbered(cs: seq<Command>) {
    forall i :: 0 <= i < |cs| - 1 ==> cs[i].seqNum != cs[i + 1].seqNum
  }

  predicate NoAborts(cs: seq<Command>) {
    forall i :: 0 <= i < |cs| ==> !cs[i].Abort?
  }

  lemma AnswerQueued(c: Core, command: Command)
    requires c.controlAbort.None?
    ensures var c1, a := OnCommand(c, command), B.Handle(c.bridge, command);
            && c1.controlAbort.None?
            && (if command.Abort? then c1.bridge == c.bridge && c1.inFrames == c.inFrames
                else c1.bridge == a.next && c1.inFrames == PushFrame(c.inFrames, Encode(a.result)))
  {
    hide B.Handle, Encode, PushFrame;
  }

  lemma {:induction false} AnswersQueued(c: Core, cs: seq<Command>)
    requires c.controlAbort.None?
    ensures OnCommands(c, cs).inFrames ==
            AbortHandshake.PushAll(c.inFrames, EncodeEach(Answers(c.bridge, cs)))
    ensures OnCommands(c, cs).bridge == BridgeAfter(c.bridge, cs) && OnCommands(c, cs).controlAbort.None?
    decreases |cs|
  {
    hide OnCommand, B.Handle, Encode, PushFrame;
    if cs != [] {
      var c1 := OnCommand(c, cs[0]);
      AnswerQueued(c, cs[0]);
      AnswersQueued(c1, cs[1..]);
      if !cs[0].Abort? {
        var a := B.Handle(c.bridge, cs[0]);
        var rs := Answers(a.next, cs[1..]);
        assert ([a.result] + rs)[1..] == rs;
        var fs := EncodeEach(Answers(c.bridge, cs));
        assert fs == [Encode(a.result)] + EncodeEach(rs);
        assert fs[1..] == EncodeEach(rs);
      }
    }
  }

  lemma {:induction false} AnswersNumbered(b: B.Bridge, cs: seq<Command>)
    requires NoAborts(cs)
    ensures |Answers(b, cs)| == |cs|
    ensures forall i :: 0 <= i < |cs| ==> Answers(b, cs)[i].seqNum == cs[i].seqNum
    decreases |cs|
  {
    hide B.Handle;
    if cs != [] {
      BridgeRuns.ResponseFaithful(b, cs[0]);
      AnswersNumbered(B.Handle(b, cs[0]).next, cs[1..]);
    }
  }

  lemma {:induction false} EncodeEachAt(rs: seq<Response>)
    ensures forall i :: 0 <= i < |rs| ==>
              EncodeEach(rs)[i] == Encode(rs[i]) && |EncodeEach(rs)[i]| >= 10 && EncodeEach(rs)[i][6] == rs[i].seqNum
  {
    hide Encode;
    if rs != [] {
      EncodedFields(rs[0]);
      EncodeEachAt(rs[1..]);
    }
  }

  lemma {:induction false} PushAllTwice(q: seq<seq<byte>>, fs: seq<seq<byte>>, gs: seq<seq<byte>>)
    ensures AbortHandshake.PushAll(q, fs + gs) == AbortHandshake.PushAll(AbortHandshake.PushAll(q, fs), gs)
    decreases |fs|
  {
    hide PushFrame;
    if fs == [] {
      assert fs + gs == gs;
    } else {
      assert (fs + gs)[1..] == fs[1..] + gs;
      PushAllTwice(PushFrame(q, fs[0]), fs[1..], gs);
    }
  }

  predicate NeighboursDiffer(fs: seq<seq<byte>>) {
    forall i :: 0 <= i < |fs| - 1 ==> fs[i] != fs[i + 1]
  }

  /** Frames lined up behind q without those that repeat the one before them: what a
      queue without a limit would hold. */
  function Lined(q: seq<seq<byte>>, fs: seq<seq<byte>>): (line: seq<seq<byte>>)
    ensures |line| <= |q| + |fs|
    ensures fs != [] ==> line != [] && line[|line| - 1] == fs[|fs| - 1]
  {
    if fs == [] then q
    else
      var before, f := Lined(q, fs[..|fs| - 1]), fs[|fs| - 1];
      if before != [] && before[|before| - 1] == f then before else before + [f]
  }

  /** How many of n frames are left by a queue that is emptied to make room for the
      33rd, the 65th and so on. */
  function Left(n: nat): nat {
    if n == 0 then 0 else (n - 1) % 32 + 1
  }

  lemma LeftBounds(n: nat)
    ensures Left(n) <= n && Left(n) <= 32 && (n > 0 ==> Left(n) > 0)
    ensures Left(n) == n <==> n <= 32
  {
  }

  lemma LeftNext(n: nat)
    ensures Left(n + 1) == if Left(n) == 32 then 1 else Left(n) + 1
  {
  }

  lemma PushLeft(line: seq<seq<byte>>, f: seq<byte>)
    ensures Left(|line|) <= |line| && Left(|line| + 1) <= |line| + 1
    ensures var line1 := if line != [] && line[|line| - 1] == f then line else line + [f];
            PushFrame(line[|line| - Left(|line|)..], f) == line1[|line1| - Left(|line1|)..]
  {
    hide Left;
    var n := |line|;
    LeftBounds(n);
    LeftBounds(n + 1);
    var kept := line[n - Left(n)..];
    if n > 0 {
      assert kept[|kept| - 1] == line[n - 1];
    }
    if n == 0 || line[n - 1] != f {
      LeftNext(n);
      assert (line + [f])[n - Left(n)..] == kept + [f];
      assert (line + [f])[n..] == [f];
    }
  }

  /** Whatever is pushed, and however much, a queue of at most 32 entries ends up with
      the last 1 to 32 entries of that line. */
  lemma {:induction false} PushAllKeeps(q: seq<seq<byte>>, fs: seq<seq<byte>>)
    requires |q| <= 32
    ensures var line := Lined(q, fs);
            Left(|line|) <= |line| && AbortHandshake.PushAll(q, fs) == line[|line| - Left(|line|)..]
  {
    hide PushFrame, Left;
    if fs == [] {
      LeftBounds(|q|);
      assert q[0..] == q;
    } else {
      var before, f := fs[..|fs| - 1], fs[|fs| - 1];
      var tail: seq<seq<byte>> := [f];
      assert fs == before + tail && tail[1..] == [];
      PushAllKeeps(q, before);
      PushAllTwice(q, before, tail);
      var kept := AbortHandshake.PushAll(q, before);
      assert AbortHandshake.PushAll(kept, tail) == AbortHandshake.PushAll(PushFrame(kept, f), []);
      PushLeft(Lined(q, before), f);
    }
  }

  /** All the frames line up exactly when no two neighbours are equal. */
  lemma {:induction false} LinedExactly(fs: seq<seq<byte>>)
    ensures Lined([], fs) == fs <==> NeighboursDiffer(fs)
  {
    if fs != [] {
      var n := |fs| - 1;
      LinedExactly(fs[..n]);
      assert fs == fs[..n] + [fs[n]];
      if NeighboursDiffer(fs) {
        assert NeighboursDiffer(fs[..n]);
      }
    }
  }

  /** An empty queue takes in all the frames pushed exactly when there are at most 32
      and no two neighbours are equal. */
  lemma PushAllExactly(fs: seq<seq<byte>>)
    ensures AbortHandshake.PushAll([], fs) == fs <==> |fs| <= 32 && NeighboursDiffer(fs)
  {
    hide Lined, NeighboursDiffer, Left;
    PushAllKeeps([], fs);
    LinedExactly(fs);
    LeftBounds(|Lined([], fs)|);
    LeftBounds(|fs|);
    var line := Lined([], fs);
    if Left(|line|) == |line| {
      assert line[0..] == line;
    } else {
      assert |line[|line| - Left(|line|)..]| < |fs|;
    }
  }

  lemma {:induction false} PushAllNonempty(q: seq<seq<byte>>, fs: seq<seq<byte>>)
    requires forall i :: 0 <= i < |q| ==> q[i] != []
    requires forall i :: 0 <= i < |fs| ==> fs[i] != []
    ensures forall i :: 0 <= i < |AbortHandshake.PushAll(q, fs)| ==> AbortHandshake.PushAll(q, fs)[i] != []
    decreases |fs|
  {
    if fs != [] {
      assert forall i :: 0 <= i < |fs[1..]| ==> fs[1..][i] == fs[i + 1];
      PushAllNonempty(PushFrame(q, fs[0]), fs[1..]);
    }
  }

  /** n bulk-IN requests of m bytes, with the host putting the packets together. */
  function Read(t: Transport, h: Host, m: nat, n: nat): After<Host, Transport>
    decreases n
  {
    if n == 0 then After(h, t)
    else
      var a := BulkIn(t, m);
      Read(a.next, Accept(h, a.result, m), m, n - 1)
  }

  /** The packets that a list of frames takes. */
  function PacketCount(fs: seq<seq<byte>>, m: nat): nat
    requires m > 0
  {
    if fs == [] then 0 else |fs[0]| / m + 1 + PacketCount(fs[1..], m)
  }

  lemma {:induction false} ReadTwice(t: Transport, h: Host, m: nat, n: nat, k: nat)
    ensures var first := Read(t, h, m, n);
            Read(t, h, m, n + k) == Read(first.next, first.result, m, k)
    decreases n
  {
    if n > 0 {
      var a := BulkIn(t, m);
      ReadTwice(a.next, Accept(h, a.result, m), m, n - 1, k);
    }
  }

  lemma {:induction false} ReadFrame(t: Transport, h: Host, m: nat, frame: seq<byte>, tail: seq<seq<byte>>)
    requires m > 0 && t.core.inFrames == [frame] + tail
    requires h.partial + frame != []
    ensures var a := Read(t, h, m, |frame| / m + 1);
            a.result == Host(h.got + [h.partial + frame], []) && a.next.core.inFrames == tail
    decreases |frame|
  {
    FetchHead(frame, tail, m);
    var a := BulkIn(t, m);
    var h1 := Accept(h, a.result, m);
    if |frame| < m {
      DivUnique(|frame|, m, 0, |frame|);
      assert h1 == Host(h.got + [h.partial + frame], []);
      assert Read(a.next, h1, m, 0) == After(h1, a.next);
    } else {
      DivStep(|frame|, m);
      assert h1 == Host(h.got, h.partial + frame[..m]);
      assert (h.partial + frame[..m]) + frame[m..] == h.partial + frame;
      ReadFrame(a.next, h1, m, frame[m..], tail);
    }
  }

  /** Reading empties the queue and touches nothing else. */
  lemma {:induction false} ReadKeeps(t: Transport, h: Host, m: nat, n: nat)
    ensures var t1 := Read(t, h, m, n).next;
            t1 == Transport(t.core.(inFrames := t1.core.inFrames, queueLog := t1.core.queueLog), t.outBuffer)
    decreases n
  {
    if n > 0 {
      var a := BulkIn(t, m);
      ReadKeeps(a.next, Accept(h, a.result, m), m, n - 1);
    }
  }

  lemma ReadOneThenRest(t: Transport, got: seq<seq<byte>>, m: nat, f: seq<byte>, tail: seq<seq<byte>>, k: nat, n: nat)
    returns (t1: Transport)
    requires m > 0 && t.core.inFrames == [f] + tail && f != []
    requires k == |f| / m + 1
    ensures t1.core.inFrames == tail
    ensures Read(t, Host(got, []), m, k + n) == Read(t1, Host(got + [f], []), m, n)
  {
    var h := Host(got, []);
    assert h.partial + f == f;
    ReadFrame(t, h, m, f, tail);
    t1 := Read(t, h, m, k).next;
    ReadTwice(t, h, m, k, n);
  }

  /** Reading the packets of a queue puts together exactly its frames. */
  lemma {:induction false} ReadQueue(t: Transport, got: seq<seq<byte>>, m: nat, fs: seq<seq<byte>>)
    requires m > 0 && t.core.inFrames == fs
    requires forall i :: 0 <= i < |fs| ==> fs[i] != []
    ensures var a := Read(t, Host(got, []), m, PacketCount(fs, m));
            a.result == Host(got + fs, []) && a.next.core.inFrames == []
    decreases |fs|
  {
    if fs == [] {
      assert got + fs == got;
    } else {
      var f, tail := fs[0], fs[1..];
      assert fs == [f] + tail;
      var k, n: nat := |f| / m + 1, PacketCount(tail, m);
      assert PacketCount(fs, m) == k + n;
      var t1 := ReadOneThenRest(t, got, m, f, tail, k, n);
      ReadQueue(t1, got + [f], m, tail);
      assert (got + [f]) + tail == got + fs;
    }
  }

  /** A transport at rest: nothing half received, nothing queued, no abort pending. */
  predicate AtRest(t: Transport) {
    t.outBuffer == [] && t.core.inFrames == [] && t.core.controlAbort.None?
  }

  /** The responses that a batch of commands leaves in an empty queue. */
  function Queued(b: B.Bridge, cs: seq<Command>): seq<seq<byte>> {
    AbortHandshake.PushAll([], EncodeEach(Answers(b, cs)))
  }

  /** The whole exchange: commands sent in packets cut anywhere, answered in packets
      of any size. The host ends up with exactly the responses the queue took in,
      whole and in order; the transport is at rest again, in front of the bridge that
      has handled the commands. */
  lemma CommandsAnswered(t: Transport, got: seq<seq<byte>>, cs: seq<Command>, packets: seq<seq<byte>>, m: nat)
    requires AtRest(t)
    requires forall i :: 0 <= i < |cs| ==> FitsReader(cs[i])
    requires packets != [] && Flatten(packets) == Flatten(HostFrames(cs))
    requires m > 0
    ensures var queued := Queued(t.core.bridge, cs);
            var a := Read(SendAll(t, packets), Host(got, []), m, PacketCount(queued, m));
            && a.result == Host(got + queued, [])
            && AtRest(a.next) && a.next.core.bridge == BridgeAfter(t.core.bridge, cs)
  {
    hide Answers, BridgeAfter, EncodeEach, OnCommands, SendAll, Read, PacketCount, FitsReader, AbortHandshake.PushAll;
    var answers := EncodeEach(Answers(t.core.bridge, cs));
    var queued := AbortHandshake.PushAll([], answers);
    CommandsArrive(t, cs, packets);
    AnswersQueued(t.core, cs);
    EncodeEachAt(Answers(t.core.bridge, cs));
    PushAllNonempty([], answers);
    ReadQueue(SendAll(t, packets), got, m, queued);
    ReadKeeps(SendAll(t, packets), Host(got, []), m, PacketCount(queued, m));
  }

  /** One round of a conversation: commands, how they are cut into packets, and the
      packet size the answers are fetched with. */
  datatype Round = Round(commands: seq<Command>, packets: seq<seq<byte>>, size: nat)

  ghost predicate Proper(r: Round) {
    && (forall i :: 0 <= i < |r.commands| ==> FitsReader(r.commands[i]))
    && r.packets != [] && Flatten(r.packets) == Flatten(HostFrames(r.commands))
    && r.size > 0
  }

  ghost function Converse(t: Transport, h: Host, rounds: seq<Round>): After<Host, Transport>
    requires forall i :: 0 <= i < |rounds| ==> Proper(rounds[i])
    decreases |rounds|
  {
    if rounds == [] then After(h, t)
    else
      var r := rounds[0];
      assert Proper(r);
      var queued := Queued(t.core.bridge, r.commands);
      var a := Read(SendAll(t, r.packets), h, r.size, PacketCount(queued, r.size));
      Converse(a.next, a.result, rounds[1..])
  }

  function Transcript(b: B.Bridge, rounds: seq<Round>): seq<seq<byte>>
    decreases |rounds|
  {
    if rounds == [] then []
    else Queued(b, rounds[0].commands) + Transcript(BridgeAfter(b, rounds[0].commands), rounds[1..])
  }

  /** A conversation of any number of rounds: the host has the responses of all the
      rounds, in order, each computed by the bridge as the rounds before it left it. */
  lemma {:induction false} ConversationAnswered(t: Transport, got: seq<seq<byte>>, rounds: seq<Round>)
    requires AtRest(t)
    requires forall i :: 0 <= i < |rounds| ==> Proper(rounds[i])
    ensures var a := Converse(t, Host(got, []), rounds);
            a.result == Host(got + Transcript(t.core.bridge, rounds), []) && AtRest(a.next)
    decreases |rounds|
  {
    hide Queued, BridgeAfter, SendAll, Read, PacketCount, AtRest;
    if rounds == [] {
      assert got + [] == got;
    } else {
      var r := rounds[0];
      assert Proper(r);
      CommandsAnswered(t, got, r.commands, r.packets, r.size);
      var queued := Queued(t.core.bridge, r.commands);
      var a := Read(SendAll(t, r.packets), Host(got, []), r.size, PacketCount(queued, r.size));
      ConversationAnswered(a.next, got + queued, rounds[1..]);
      assert (got + queued) + Transcript(a.next.core.bridge, rounds[1..]) ==
             got + (queued + Transcript(a.next.core.bridge, rounds[1..]));
    }
  }

  /** The queue takes in every answer exactly when there are at most 32 and no two
      neighbouring answers are equal. */
  lemma AllAnswersQueuedExactly(b: B.Bridge, cs: seq<Command>)
    ensures var rs := Answers(b, cs);
            Queued(b, cs) == EncodeEach(rs) <==>
              |rs| <= 32 && forall i :: 0 <= i < |rs| - 1 ==> rs[i] != rs[i + 1]
  {
    hide Answers, EncodeEach, Encode, AbortHandshake.PushAll;
    var rs := Answers(b, cs);
    var fs := EncodeEach(rs);
    EncodeEachAt(rs);
    PushAllExactly(fs);
    forall i | 0 <= i < |rs| - 1 ensures fs[i] == fs[i + 1] <==> rs[i] == rs[i + 1] {
      if fs[i] == fs[i + 1] {
        EncodeInjective(rs[i], rs[i + 1]);
      }
    }
  }

  /** For commands whose neighbours carry different numbers, none of them an abort,
      the host gets the answer to every one exactly when there are at most 32. */
  lemma EveryCommandAnswered(b: B.Bridge, cs: seq<Command>)
    requires NoAborts(cs) && Numbered(cs)
    ensures |EncodeEach(Answers(b, cs))| == |cs|
    ensures Queued(b, cs) == EncodeEach(Answers(b, cs)) <==> |cs| <= 32
  {
    hide Answers, EncodeEach, Queued;
    AnswersNumbered(b, cs);
    AllAnswersQueuedExactly(b, cs);
    var rs := Answers(b, cs);
    forall i | 0 <= i < |rs| - 1 ensures rs[i] != rs[i + 1] {
      assert rs[i].seqNum == cs[i].seqNum && rs[i + 1].seqNum == cs[i + 1].seqNum;
    }
  }

  /** For any commands at all: the host gets the last 1 to 32 of the answers, once those
      that repeat the answer before them are left out. */
  lemma LastAnswersKept(b: B.Bridge, cs: seq<Command>)
    ensures var line := Lined([], EncodeEach(Answers(b, cs)));
            Left(|line|) <= |line| && Queued(b, cs) == line[|line| - Left(|line|)..]
  {
    PushAllKeeps([], EncodeEach(Answers(b, cs)));
  }

  /** So when the numbers of neighbours differ, exactly the last Left(n) of n answers are
      kept. */
  lemma OverflowKeepsLast(b: B.Bridge, cs: seq<Command>)
    requires NoAborts(cs) && Numbered(cs)
    ensures var fs := EncodeEach(Answers(b, cs));
            |fs| == |cs| && Left(|cs|) <= |cs| && Queued(b, cs) == fs[|cs| - Left(|cs|)..]
  {
    hide Answers, EncodeEach, Encode, Lined, Left;
    AnswersNumbered(b, cs);
    EncodeEachAt(Answers(b, cs));
    var fs := EncodeEach(Answers(b, cs));
    forall i | 0 <= i < |fs| - 1 ensures fs[i] != fs[i + 1] {
      assert fs[i][6] == cs[i].seqNum && fs[i + 1][6] == cs[i + 1].seqNum;
    }
    LinedExactly(fs);
    LastAnswersKept(b, cs);
  }

  /** The 33rd of such answers empties the queue: it is the only one the host gets. */
  lemma OverflowKeepsOne(b: B.Bridge, cs: seq<Command>)
    requires NoAborts(cs) && Numbered(cs) && |cs| == 33
    ensures |EncodeEach(Answers(b, cs))| == |cs|
    ensures Queued(b, cs) == [EncodeEach(Answers(b, cs))[32]]
  {
    hide Answers, EncodeEach, Queued, Lined;
    OverflowKeepsLast(b, cs);
  }
}
