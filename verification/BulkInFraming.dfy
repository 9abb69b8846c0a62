/** Bulk-IN: whole responses are cut into packets, and a host that ends a message at
    each short packet (USB 2.0, section 5.8.3) gets them back. */
module BulkInFraming {
  import opened Bytes
  import opened CcidProtocol
  import opened CcidTransport

  /* --------------------------------------------------- one frame in packets */

  /** Full packets of m bytes and then one shorter packet, possibly empty. */
  function Packets(frame: seq<byte>, m: nat): seq<seq<byte>>
    requires m > 0
    decreases |frame|
  {
    if |frame| < m then [frame] else [frame[..m]] + Packets(frame[m..], m)
  }

  lemma DivStep(a: nat, m: nat)
    requires m > 0 && a >= m
    ensures (a - m) / m == a / m - 1 && (a - m) % m == a % m
  {
    var q, r := (a - m) / m, (a - m) % m;
    assert a - m == m * q + r;
    assert a == m * (q + 1) + r;
    DivUnique(a, m, q + 1, r);
  }

  lemma MultiplesApart(m: nat, d: int)
    requires m > 0
    ensures d >= 1 ==> m * d >= m
    ensures d <= -1 ==> m * d <= 0 - m
  {
  }

  lemma DivUnique(a: nat, m: nat, q: nat, r: nat)
    requires m > 0 && r < m && a == m * q + r
    ensures a / m == q && a % m == r
  {
    var d := a / m - q;
    assert a == m * (a / m) + a % m;
    assert m * d == r - a % m;
    MultiplesApart(m, d);
  }

  /** A frame of length L takes L/m + 1 packets, which concatenate to the frame; only
      the last is short, and it is empty exactly when m divides L. */
  lemma {:induction false} PacketsShape(frame: seq<byte>, m: nat)
    requires m > 0
    ensures var ps := Packets(frame, m);
            && |ps| == |frame| / m + 1
            && Flatten(ps) == frame
            && (forall i :: 0 <= i < |ps| - 1 ==> |ps[i]| == m)
            && |ps[|ps| - 1]| == |frame| % m
    decreases |frame|
  {
    if |frame| < m {
      assert Flatten([frame]) == frame;
      DivUnique(|frame|, m, 0, |frame|);
    } else {
      var rest := Packets(frame[m..], m);
      PacketsShape(frame[m..], m);
      DivStep(|frame|, m);
      FlattenCons(frame[..m], rest);
      assert frame == frame[..m] + frame[m..];
    }
  }

  function FetchMany(q: seq<seq<byte>>, m: nat, n: nat): After<seq<seq<byte>>, seq<seq<byte>>>
    decreases n
  {
    if n == 0 then After([], q)
    else
      var first := Fetch(q, m);
      var rest := FetchMany(first.next, m, n - 1);
      After([first.result] + rest.result, rest.next)
  }

  lemma FetchHead(frame: seq<byte>, tail: seq<seq<byte>>, m: nat)
    requires m > 0
    ensures Fetch([frame] + tail, m) ==
            if |frame| < m then After(frame, tail) else After(frame[..m], [frame[m..]] + tail)
  {
    assert ([frame] + tail)[1..] == tail;
    if |frame| == m {
      assert frame[..m] == frame && frame[m..] == [];
      assert |frame| % m == 0;
    } else if 0 < |frame| < m {
      assert |frame| % m == |frame|;
    }
  }

  /** Fetching that many packets delivers exactly the frame at the head, and leaves
      exactly the frames behind it. */
  lemma {:induction false} FetchFrame(frame: seq<byte>, tail: seq<seq<byte>>, m: nat)
    requires m > 0
    ensures FetchMany([frame] + tail, m, |frame| / m + 1) == After(Packets(frame, m), tail)
    decreases |frame|
  {
    FetchHead(frame, tail, m);
    if |frame| < m {
      DivUnique(|frame|, m, 0, |frame|);
      assert FetchMany(tail, m, 0) == After([], tail);
      assert [frame] + [] == [frame];
    } else {
      DivStep(|frame|, m);
      FetchFrame(frame[m..], tail, m);
    }
  }

  /* ----------------------------------------- the queue and the host over time */

  /** What the host has: the messages completed, and the start of the next one. */
  datatype Host = Host(got: seq<seq<byte>>, partial: seq<byte>)

  /** A packet shorter than the length asked for ends a message; an empty packet with
      no message under way means there was nothing to send. */
  function Accept(h: Host, packet: seq<byte>, maxLen: nat): Host {
    if packet == [] && h.partial == [] then h
    else if |packet| < maxLen then Host(h.got + [h.partial + packet], [])
    else Host(h.got, h.partial + packet)
  }

  predicate Overflows(q: seq<seq<byte>>, frame: seq<byte>) {
    q != [] && q[|q| - 1] != frame && |q| >= 32
  }

  predicate Duplicate(q: seq<seq<byte>>, frame: seq<byte>) {
    q != [] && q[|q| - 1] == frame
  }

  /** Queue and host together; `kept` lists the responses accepted and not thrown away
      by a clear or an overflow. */
  datatype Line = Line(queue: seq<seq<byte>>, host: Host, kept: seq<seq<byte>>)

  function Advance(l: Line, e: QueueEvent): Line {
    match e
    case Offered(f) =>
      l.(queue := PushFrame(l.queue, f),
         kept := if Duplicate(l.queue, f) then l.kept
                 else if Overflows(l.queue, f) then l.host.got + [f] else l.kept + [f])
    case Cleared => l.(queue := [], kept := l.host.got)
    case Fetched(m) =>
      var a := Fetch(l.queue, m);
      l.(queue := a.next, host := Accept(l.host, a.result, m))
  }

  function Replay(log: seq<QueueEvent>): Line {
    if log == [] then Line([], Host([], []), [])
    else Advance(Replay(log[..|log| - 1]), log[|log| - 1])
  }

  /** The responses still owed to the host: the one under way and those behind it. */
  function Owed(queue: seq<seq<byte>>, host: Host): seq<seq<byte>> {
    if queue == [] then [] else [host.partial + queue[0]] + queue[1..]
  }

  /** Host and queue agree on where messages begin. */
  predicate InStep(l: Line) {
    && l.kept == l.host.got + Owed(l.queue, l.host)
    && (l.queue == [] ==> l.host.partial == [])
    && (l.queue != [] && l.host.partial == [] ==> l.queue[0] != [])
    && (forall i :: 1 <= i < |l.queue| ==> l.queue[i] != [])
  }

  /** A message under way is thrown away, or its empty last packet goes unnoticed
      because the host asked for no bytes at all. */
  predicate Disrupts(l: Line, e: QueueEvent) {
    match e
    case Offered(f) => Overflows(l.queue, f) && l.host.partial != []
    case Cleared => l.host.partial != []
    case Fetched(m) => m == 0 && l.queue != [] && l.queue[0] == []
  }

  lemma FetchInStep(l: Line, m: nat)
    requires InStep(l)
    ensures InStep(Advance(l, Fetched(m))) <==> !Disrupts(l, Fetched(m))
  {
    var l1 := Advance(l, Fetched(m));
    if l.queue != [] {
      var frame, tail := l.queue[0], l.queue[1..];
      assert l.queue == [frame] + tail;
      if m > 0 {
        FetchHead(frame, tail, m);
        if |frame| < m {
          assert l.host.got + ([l.host.partial + frame] + tail) == (l.host.got + [l.host.partial + frame]) + tail;
          assert tail != [] ==> [tail[0]] + tail[1..] == tail && [] + tail[0] == tail[0];
        } else {
          assert l.host.partial + frame == (l.host.partial + frame[..m]) + frame[m..];
        }
      } else if frame == [] {
        assert |Owed(l.queue, l.host)| == |tail| + 1 && |Owed(l1.queue, l1.host)| == |tail|;
      } else {
        assert frame[..0] == [] && frame[0..] == frame;
        assert l.host.partial + [] == l.host.partial;
        assert l1.queue == l.queue;
      }
    }
  }

  lemma OwedAppend(l: Line, f: seq<byte>)
    ensures Owed(l.queue + [f], l.host) ==
            if l.queue == [] then [l.host.partial + f] else Owed(l.queue, l.host) + [f]
  {
    if l.queue != [] {
      assert (l.queue + [f])[1..] == l.queue[1..] + [f];
    }
  }

  lemma OverflowInStep(l: Line, f: seq<byte>)
    requires InStep(l) && f != [] && Overflows(l.queue, f)
    ensures InStep(Advance(l, Offered(f))) <==> l.host.partial == []
  {
    var l1 := Advance(l, Offered(f));
    assert l1.queue == [f] && Owed(l1.queue, l1.host) == [l.host.partial + f];
    if l.host.partial == [] {
      assert l.host.partial + f == f;
    } else {
      assert |l.host.partial + f| != |f|;
      assert (l.host.got + Owed(l1.queue, l1.host))[|l.host.got|] != l1.kept[|l.host.got|];
    }
  }

  lemma OfferInStep(l: Line, f: seq<byte>)
    requires InStep(l) && f != []
    ensures InStep(Advance(l, Offered(f))) <==> !Disrupts(l, Offered(f))
  {
    if Overflows(l.queue, f) {
      OverflowInStep(l, f);
    } else if !Duplicate(l.queue, f) {
      OwedAppend(l, f);
      assert l.queue == [] ==> l.host.partial + f == f;
      assert l.host.got + (Owed(l.queue, l.host) + [f]) == (l.host.got + Owed(l.queue, l.host)) + [f];
    }
  }

  /** One event keeps host and queue in step exactly when it does not disrupt. */
  lemma AdvanceExactly(l: Line, e: QueueEvent)
    requires InStep(l) && (e.Offered? ==> e.frame != [])
    ensures InStep(Advance(l, e)) <==> !Disrupts(l, e)
  {
    match e
    case Offered(f) => OfferInStep(l, f);
    case Cleared =>
    case Fetched(m) => FetchInStep(l, m);
  }

  /** No event of the log disrupts, and no empty frame is offered. */
  ghost predicate Smooth(log: seq<QueueEvent>) {
    forall i :: 0 <= i < |log| ==>
      && !Disrupts(Replay(log[..i]), log[i])
      && (log[i].Offered? ==> log[i].frame != [])
  }

  /** The round trip: with pushes, clears and fetches of any sizes interleaved, the
      messages the host has put together, followed by those it is still owed, are
      exactly the responses kept, in order. */
  lemma {:induction false} HostGetsResponses(log: seq<QueueEvent>)
    requires Smooth(log)
    ensures InStep(Replay(log))
    ensures Replay(log).kept == Replay(log).host.got + Owed(Replay(log).queue, Replay(log).host)
  {
    if log != [] {
      var n := |log| - 1;
      forall i | 0 <= i < n
        ensures !Disrupts(Replay(log[..n][..i]), log[..n][i]) && (log[..n][i].Offered? ==> log[..n][i].frame != [])
      {
        assert log[..n][..i] == log[..i] && log[..n][i] == log[i];
      }
      HostGetsResponses(log[..n]);
      AdvanceExactly(Replay(log[..n]), log[n]);
    }
  }

  /** Nothing is thrown away: no clear, no overflow, and every fetch asks for bytes. */
  ghost predicate Lossless(log: seq<QueueEvent>) {
    forall i :: 0 <= i < |log| ==>
      match log[i]
      case Offered(f) => f != [] && !Overflows(Replay(log[..i]).queue, f)
      case Cleared => false
      case Fetched(m) => m > 0
  }

  /** The frames offered, without those dropped as duplicates of the last in line. */
  function Accepted(log: seq<QueueEvent>): seq<seq<byte>> {
    if log == [] then []
    else
      var n := |log| - 1;
      var before := Accepted(log[..n]);
      if log[n].Offered? && !Duplicate(Replay(log[..n]).queue, log[n].frame) then before + [log[n].frame] else before
  }

  /** All the frames offered to the queue. */
  function Offers(log: seq<QueueEvent>): seq<seq<byte>> {
    if log == [] then []
    else
      var before, e := Offers(log[..|log| - 1]), log[|log| - 1];
      if e.Offered? then before + [e.frame] else before
  }

  /** What one more event adds to a history. */
  lemma HistorySnoc(log: seq<QueueEvent>, e: QueueEvent)
    ensures Replay(log + [e]) == Advance(Replay(log), e)
    ensures Offers(log + [e]) == if e.Offered? then Offers(log) + [e.frame] else Offers(log)
    ensures Accepted(log + [e]) == if e.Offered? && !Duplicate(Replay(log).queue, e.frame)
                                   then Accepted(log) + [e.frame] else Accepted(log)
  {
    hide Advance, Duplicate;
    assert (log + [e])[..|log|] == log;
  }

  /** a is b with some of its elements left out. */
  predicate Thinned(a: seq<seq<byte>>, b: seq<seq<byte>>) {
    if b == [] then a == []
    else
      var before := b[..|b| - 1];
      || Thinned(a, before)
      || (a != [] && a[|a| - 1] == b[|b| - 1] && Thinned(a[..|a| - 1], before))
  }

  /** No frame is offered while an equal one is last in line. */
  ghost predicate NoRepeats(log: seq<QueueEvent>) {
    forall i :: 0 <= i < |log| && log[i].Offered? ==> !Duplicate(Replay(log[..i]).queue, log[i].frame)
  }

  /** The frames offered while an equal one was last in line. */
  function Repeats(log: seq<QueueEvent>): seq<seq<byte>> {
    if log == [] then []
    else
      var n := |log| - 1;
      var before := Repeats(log[..n]);
      if log[n].Offered? && Duplicate(Replay(log[..n]).queue, log[n].frame) then before + [log[n].frame] else before
  }

  lemma {:induction false} NoRepeatsExactly(log: seq<QueueEvent>)
    ensures NoRepeats(log) <==> Repeats(log) == []
  {
    hide Duplicate, Replay;
    if log != [] {
      var n := |log| - 1;
      NoRepeatsExactly(log[..n]);
      assert forall i :: 0 <= i < n ==> log[..n][..i] == log[..i] && log[..n][i] == log[i];
      if NoRepeats(log[..n]) && (log[n].Offered? ==> !Duplicate(Replay(log[..n]).queue, log[n].frame)) {
        assert NoRepeats(log);
      } else if !NoRepeats(log[..n]) {
        var i :| 0 <= i < n && log[..n][i].Offered? && Duplicate(Replay(log[..n][..i]).queue, log[..n][i].frame);
        assert !NoRepeats(log);
      }
    }
  }

  /** What is accepted is what is offered, in order, with the repeats and nothing else
      left out; so it is all of it exactly when no frame repeats the last in line. */
  lemma AcceptedAreOffers(log: seq<QueueEvent>)
    ensures Thinned(Accepted(log), Offers(log))
    ensures multiset(Offers(log)) == multiset(Accepted(log)) + multiset(Repeats(log))
    ensures Accepted(log) == Offers(log) <==> NoRepeats(log)
  {
    AcceptedThin(log);
    OffersSplit(log);
    NoRepeatsExactly(log);
    assert |multiset(Repeats(log))| == |Repeats(log)|;
    assert Accepted(log) == Offers(log) ==> |multiset(Repeats(log))| == 0;
  }

  lemma {:induction false} AcceptedThin(log: seq<QueueEvent>)
    ensures Thinned(Accepted(log), Offers(log))
    ensures Repeats(log) == [] ==> Accepted(log) == Offers(log)
  {
    hide Duplicate, Replay;
    if log != [] {
      var n := |log| - 1;
      AcceptedThin(log[..n]);
      if log[n].Offered? {
        var before, f := Offers(log[..n]), log[n].frame;
        assert (before + [f])[..|before|] == before;
        assert (Accepted(log[..n]) + [f])[..|Accepted(log[..n])|] == Accepted(log[..n]);
      }
    }
  }

  lemma {:induction false} OffersSplit(log: seq<QueueEvent>)
    ensures multiset(Offers(log)) == multiset(Accepted(log)) + multiset(Repeats(log))
  {
    hide Duplicate, Replay;
    if log != [] {
      OffersSplit(log[..|log| - 1]);
    }
  }

  /** Without losses the host gets every accepted response, whole and in order, the
      rest being exactly what it is still owed. */
  lemma {:induction false} LosslessDelivery(log: seq<QueueEvent>)
    requires Lossless(log)
    ensures Smooth(log)
    ensures Accepted(log) == Replay(log).host.got + Owed(Replay(log).queue, Replay(log).host)
  {
    forall i | 0 <= i < |log|
      ensures !Disrupts(Replay(log[..i]), log[i]) && (log[i].Offered? ==> log[i].frame != [])
    {
      match log[i]
      case Offered(_) =>
      case Fetched(_) =>
    }
    HostGetsResponses(log);
    LosslessKeeps(log);
  }

  lemma {:induction false} LosslessKeeps(log: seq<QueueEvent>)
    requires Lossless(log)
    ensures Replay(log).kept == Accepted(log)
  {
    if log != [] {
      var n := |log| - 1;
      assert forall i :: 0 <= i < n ==> log[..n][..i] == log[..i] && log[..n][i] == log[i];
      LosslessKeeps(log[..n]);
      assert log[n] != Cleared;
    }
  }

  /** De-duplication compares with what is left of a half-sent response: a response
      that is dropped repeats the last one owed, unless all that is queued is the
      remainder of a message under way. */
  lemma DroppedRepeatsExactly(l: Line, f: seq<byte>)
    requires Duplicate(l.queue, f)
    ensures Owed(l.queue, l.host)[|Owed(l.queue, l.host)| - 1] == f <==> |l.queue| > 1 || l.host.partial == []
  {
    if |l.queue| == 1 {
      assert |l.host.partial + f| == |l.host.partial| + |f|;
      assert l.host.partial == [] ==> l.host.partial + f == f;
    }
  }

  lemma RemainderDropped(head: seq<byte>, m: nat)
    requires 0 < m < |head|
    ensures var f := head[m..];
            var log := [Offered(head), Fetched(m), Offered(f)];
            Accepted(log) == [head] && Replay(log).queue == [f]
  {
    var f := head[m..];
    var log := [Offered(head), Fetched(m), Offered(f)];
    var l1, l2 := [Offered(head)], [Offered(head), Fetched(m)];
    assert log[..2] == l2 && l2[..1] == l1 && l1[..0] == [];
    assert Replay(l1).queue == [head] && Accepted(l1) == [head];
    assert [head] == [head] + [];
    FetchHead(head, [], m);
    assert Replay(l2).queue == [f] && Accepted(l2) == [head];
  }

  /** That exception does lose a response: one whose bytes end a data block under way
      is dropped although the host was never sent it. */
  lemma RemainderSwallowsResponse(r: Response)
    ensures var f := Encode(r);
            var head := Encode(DataBlock(0, 1, Ok(Active), 0, 0, f));
            var log := [Offered(head), Fetched(10), Offered(f)];
            Accepted(log) == [head] && Replay(log).queue == [f] && head != f
  {
    var block := DataBlock(0, 1, Ok(Active), 0, 0, Encode(r));
    EncodedFields(r);
    EncodedFields(block);
    RemainderDropped(Encode(block), 10);
  }
}
