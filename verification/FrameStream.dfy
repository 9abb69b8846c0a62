/** The reference reading of the bulk-OUT byte stream: cut off whole frames
    greedily, by the declared length alone, with no memory between calls. */
module FrameStream {
  import opened Bytes
  import opened CcidProtocol

  const MAX_MESSAGE_LENGTH: nat := 3072

  function FrameLen(s: seq<byte>): nat
    requires |s| >= 10
  {
    10 + LeU32(s[1..5])
  }

  predicate Oversized(s: seq<byte>) {
    |s| >= 10 && FrameLen(s) > MAX_MESSAGE_LENGTH + 10
  }

  predicate WholeFrame(f: seq<byte>) {
    |f| >= 10 && |f| == FrameLen(f) <= MAX_MESSAGE_LENGTH + 10
  }

  /** Bytes that must wait for more: no whole frame and no oversized header. */
  predicate Waiting(s: seq<byte>) {
    |s| >= 10 ==> |s| < FrameLen(s) <= MAX_MESSAGE_LENGTH + 10
  }

  predicate StartsWithFrame(s: seq<byte>) {
    |s| >= 10 && FrameLen(s) <= |s| && !Oversized(s)
  }

  datatype Parsed = Parsed(frames: seq<seq<byte>>, rest: seq<byte>)

  function Parse(s: seq<byte>): Parsed
    decreases |s|
  {
    if StartsWithFrame(s) then
      var tail := Parse(s[FrameLen(s)..]);
      Parsed([s[..FrameLen(s)]] + tail.frames, tail.rest)
    else
      Parsed([], s)
  }

  lemma TakeFrame(s: seq<byte>)
    requires StartsWithFrame(s)
    ensures WholeFrame(s[..FrameLen(s)])
    ensures s == s[..FrameLen(s)] + s[FrameLen(s)..]
  {
    var n := FrameLen(s);
    assert n >= 10;
    var f := s[..n];
    assert f[1..5] == s[1..5] by {
      assert f[1] == s[1] && f[2] == s[2] && f[3] == s[3] && f[4] == s[4];
    }
  }

  lemma ParseStep(s: seq<byte>)
    ensures if StartsWithFrame(s) then
              && 10 <= FrameLen(s) <= |s|
              && var tail := Parse(s[FrameLen(s)..]);
              Parse(s) == Parsed([s[..FrameLen(s)]] + tail.frames, tail.rest)
            else
              Parse(s) == Parsed([], s) && (Waiting(s) || Oversized(s))
  {
  }

  /** No byte is lost or invented, every frame is whole, and what is left over
      holds no frame: it either waits for more or is an oversized header. */
  lemma {:induction false} ParseSound(s: seq<byte>)
    ensures Flatten(Parse(s).frames) + Parse(s).rest == s
    ensures forall f <- Parse(s).frames :: WholeFrame(f)
    ensures Waiting(Parse(s).rest) || Oversized(Parse(s).rest)
    decreases |s|
  {
    hide Parse, FrameLen, WholeFrame, Waiting, Oversized, StartsWithFrame;
    ParseStep(s);
    if StartsWithFrame(s) {
      TakeFrame(s);
      var x, tail := s[..FrameLen(s)], Parse(s[FrameLen(s)..]);
      ParseSound(s[FrameLen(s)..]);
      FlattenCons(x, tail.frames);
      assert x + Flatten(tail.frames) + tail.rest == x + (Flatten(tail.frames) + tail.rest);
      forall f | f in [x] + tail.frames ensures WholeFrame(f) {
        assert f == x || f in tail.frames;
      }
    }
  }

  lemma ParseFrameFirst(f: seq<byte>, s: seq<byte>)
    requires WholeFrame(f)
    ensures Parse(f + s) == Parsed([f] + Parse(s).frames, Parse(s).rest)
  {
    assert (f + s)[1..5] == f[1..5];
    assert (f + s)[..|f|] == f && (f + s)[|f|..] == s;
  }

  /** The reading is unique: any way of writing the stream as whole frames followed
      by bytes that hold none is the way `Parse` finds. */
  lemma {:induction false} ParseUnique(fs: seq<seq<byte>>, rest: seq<byte>)
    requires forall f <- fs :: WholeFrame(f)
    requires Waiting(rest) || Oversized(rest)
    ensures Parse(Flatten(fs) + rest) == Parsed(fs, rest)
  {
    if fs == [] {
      assert Flatten(fs) + rest == rest;
    } else {
      var f, more := fs[0], fs[1..];
      assert WholeFrame(f);
      ParseUnique(more, rest);
      assert Flatten(fs) + rest == f + (Flatten(more) + rest);
      ParseFrameFirst(f, Flatten(more) + rest);
      assert [f] + more == fs;
    }
  }

  lemma ParseTwo(fs: seq<seq<byte>>, gs: seq<seq<byte>>, rest: seq<byte>)
    requires forall f <- fs :: WholeFrame(f)
    requires forall g <- gs :: WholeFrame(g)
    requires Waiting(rest) || Oversized(rest)
    ensures Parse(Flatten(fs) + (Flatten(gs) + rest)) == Parsed(fs + gs, rest)
  {
    hide WholeFrame, Waiting, Oversized, Parse;
    FlattenAppend(fs, gs);
    assert Flatten(fs) + (Flatten(gs) + rest) == Flatten(fs + gs) + rest;
    forall f | f in fs + gs ensures WholeFrame(f) {
      assert f in fs || f in gs;
    }
    ParseUnique(fs + gs, rest);
  }

  /** Bytes that arrive later continue the leftover and disturb nothing before it. */
  lemma ParseAppend(a: seq<byte>, b: seq<byte>)
    requires !Oversized(Parse(a).rest)
    ensures var more := Parse(Parse(a).rest + b);
            Parse(a + b) == Parsed(Parse(a).frames + more.frames, more.rest)
  {
    hide *;
    var p, more := Parse(a), Parse(Parse(a).rest + b);
    ParseSound(a);
    ParseSound(p.rest + b);
    assert a + b == Flatten(p.frames) + (p.rest + b);
    ParseTwo(p.frames, more.frames, more.rest);
  }

  lemma OversizedGrows(s: seq<byte>, b: seq<byte>)
    requires Oversized(s)
    ensures Oversized(s + b)
  {
    assert (s + b)[1..5] == s[1..5];
  }

  /** An oversized header blocks whatever follows it. */
  lemma ParseBlocked(a: seq<byte>, b: seq<byte>)
    requires Oversized(Parse(a).rest)
    ensures Parse(a + b) == Parsed(Parse(a).frames, Parse(a).rest + b) && Oversized(Parse(a).rest + b)
  {
    hide *;
    var p := Parse(a);
    ParseSound(a);
    OversizedGrows(p.rest, b);
    assert a + b == Flatten(p.frames) + (p.rest + b);
    ParseUnique(p.frames, p.rest + b);
  }

  predicate FitsReader(c: Command) {
    Sendable(c) && |HostFrame(c)| <= 3082
  }

  function HostFrames(cs: seq<Command>): (fs: seq<seq<byte>>)
    requires forall i :: 0 <= i < |cs| ==> FitsReader(cs[i])
  {
    if cs == [] then [] else assert FitsReader(cs[0]); [HostFrame(cs[0])] + HostFrames(cs[1..])
  }

  /** Host frames within the advertised message size come out unchanged and in
      order, and each decodes to the command it was built from. */
  lemma {:induction false} HostFramesComeOut(cs: seq<Command>)
    requires forall i :: 0 <= i < |cs| ==> FitsReader(cs[i])
    ensures Parse(Flatten(HostFrames(cs))) == Parsed(HostFrames(cs), [])
    ensures |HostFrames(cs)| == |cs|
    ensures forall i :: 0 <= i < |cs| ==> Decode(HostFrames(cs)[i]) == Success(cs[i])
  {
    if cs != [] {
      assert FitsReader(cs[0]);
      var f, rest := HostFrame(cs[0]), HostFrames(cs[1..]);
      HostFramesComeOut(cs[1..]);
      DecodeHostFrame(cs[0]);
      DecodeExactly(f);
      ParseFrameFirst(f, Flatten(rest));
      assert HostFrames(cs) == [f] + rest;
      forall i | 0 <= i < |cs| ensures Decode(HostFrames(cs)[i]) == Success(cs[i]) {
        if i > 0 {
          assert HostFrames(cs)[i] == rest[i - 1] && cs[i] == cs[1..][i - 1];
        }
      }
    }
  }
}
