/** Receiving one PN532 response frame, in the normal and the extended format
    (section 6.2.1 of the PN532 user manual UM0701-02). */
module Pn532Frame {
  import opened Bytes

  const PN532_TO_HOST: byte := 0xd5
  const POSTAMBLE: byte := 0x00
  const MARKER: byte := 0xff

  datatype LinkError =
    | BadAck | BadResponseFrame | Syntax | CrcError | BufTooSmall
    | TimeoutAck | TimeoutResponse | InterfaceError

  datatype Received = Received(result: Result<seq<byte>, LinkError>, unread: seq<byte>)

  /** The frame body: `frameLen` bytes of data, the checksum and the postamble. */
  function ReceiveBody(s: seq<byte>, frameLen: nat, cmd: byte): Received {
    if frameLen == 0 then Received(Failure(BadResponseFrame), s)
    else if frameLen == 1 then Received(Failure(Syntax), s)
    else if |s| < frameLen + 2 then Received(Failure(InterfaceError), [])
    else
      var frame, rest := s[..frameLen + 2], s[frameLen + 2..];
      if frame[frameLen + 1] != POSTAMBLE then Received(Failure(BadResponseFrame), rest)
      else if frame[0] != PN532_TO_HOST || frame[1] != cmd then Received(Failure(BadResponseFrame), rest)
      else if WrapSum(frame[..frameLen + 1]) != 0 then Received(Failure(CrcError), rest)
      else Received(Success(frame[2..frameLen]), rest)
  }

  function Receive(s: seq<byte>, cmd: byte): Received {
    if |s| < 5 then Received(Failure(InterfaceError), [])
    else if s[..3] != [0x00, 0x00, 0xff] then Received(Failure(BadResponseFrame), s[5..])
    else if s[3..5] == [MARKER, MARKER] then
      if |s| < 8 then Received(Failure(InterfaceError), [])
      else if WrapAdd(WrapAdd(s[5], s[6]), s[7]) != 0 then Received(Failure(CrcError), s[8..])
      else ReceiveBody(s[8..], 0x100 * (s[5] as nat) + s[6] as nat, cmd)
    else if WrapAdd(s[3], s[4]) != 0 then Received(Failure(CrcError), s[5..])
    else ReceiveBody(s[5..], s[3], cmd)
  }

  /** The serial port as a reader sees it: the bytes not read yet. */
  class SerialPort {
    var unread: seq<byte>

    constructor (bytes: seq<byte>)
      ensures unread == bytes
    {
      unread := bytes;
    }

    /** Reads n bytes, or drains the port and fails when there are fewer. */
    method ReadExact(n: nat) returns (r: Result<seq<byte>, LinkError>)
      modifies this
      ensures n <= |old(unread)| ==> r == Success(old(unread)[..n]) && unread == old(unread)[n..]
      ensures n > |old(unread)| ==> r == Failure(InterfaceError) && unread == []
    {
      if n <= |unread| {
        r := Success(unread[..n]);
        unread := unread[n..];
      } else {
        r := Failure(InterfaceError);
        unread := [];
      }
    }
  }

  method ReceiveDynamicResponseFrom(port: SerialPort, cmd: byte) returns (r: Result<seq<byte>, LinkError>)
    modifies port
    ensures Received(r, port.unread) == Receive(old(port.unread), cmd)
  {
    ghost var s := port.unread;
    var header :- port.ReadExact(5);
    if header[..3] != [0x00, 0x00, 0xff] {
      return Failure(BadResponseFrame);
    }

    var frameLen: nat;
    if header[3..5] == [MARKER, MARKER] {
      var extended :- port.ReadExact(3);
      assert extended == s[5..8];
      if WrapAdd(WrapAdd(extended[0], extended[1]), extended[2]) != 0 {
        return Failure(CrcError);
      }
      frameLen := 0x100 * (extended[0] as nat) + extended[1] as nat;
      assert port.unread == s[8..];
    } else {
      if WrapAdd(header[3], header[4]) != 0 {
        return Failure(CrcError);
      }
      frameLen := header[3];
    }

    if frameLen == 0 {
      return Failure(BadResponseFrame);
    }
    if frameLen == 1 {
      return Failure(Syntax);
    }

    var frame :- port.ReadExact(frameLen + 2);
    if frame[|frame| - 1] != POSTAMBLE {
      return Failure(BadResponseFrame);
    }
    if frame[0] != PN532_TO_HOST || frame[1] != cmd {
      return Failure(BadResponseFrame);
    }
    if WrapSum(frame[..|frame| - 1]) != 0 {
      return Failure(CrcError);
    }
    return Success(frame[2..|frame| - 2]);
  }

  /* ------------------------------------------------- what the device transmits */

  function Negated(b: byte): byte {
    if b == 0 then 0 else 256 - b as int
  }

  function BodyWire(cmd: byte, payload: seq<byte>): seq<byte> {
    var data := [0xd5, cmd] + payload;
    data + [Negated(WrapSum(data)), 0x00]
  }

  function NormalWire(cmd: byte, payload: seq<byte>): seq<byte>
    requires |payload| + 2 < 0x100
  {
    var n: byte := |payload| + 2;
    [0x00, 0x00, 0xff, n, Negated(n)] + BodyWire(cmd, payload)
  }

  function ExtendedWire(cmd: byte, payload: seq<byte>): seq<byte>
    requires |payload| + 2 < 0x1_0000
  {
    var hi: byte, lo: byte := (|payload| + 2) / 0x100, (|payload| + 2) % 0x100;
    [0x00, 0x00, 0xff, 0xff, 0xff, hi, lo, Negated(WrapAdd(hi, lo))] + BodyWire(cmd, payload)
  }

  lemma BodyExactly(s: seq<byte>, n: nat, cmd: byte, p: seq<byte>, u: seq<byte>)
    ensures ReceiveBody(s, n, cmd) == Received(Success(p), u) <==>
            n == |p| + 2 && s == BodyWire(cmd, p) + u
  {
    var data := [PN532_TO_HOST, cmd] + p;
    WrapSumSnoc(data, Negated(WrapSum(data)));
    if n == |p| + 2 && s == BodyWire(cmd, p) + u {
      assert s[..n + 2] == BodyWire(cmd, p) && s[n + 2..] == u;
      assert s[..n + 2][..n + 1] == data + [Negated(WrapSum(data))];
      assert s[..n + 2][2..n] == p;
    }
    if ReceiveBody(s, n, cmd) == Received(Success(p), u) {
      var frame := s[..n + 2];
      assert frame[..n] == data;
      assert frame[..n + 1] == data + [frame[n]];
      WrapSumSnoc(data, frame[n]);
      assert s == frame + u && frame == BodyWire(cmd, p);
    }
  }

  lemma ReceiveNormal(cmd: byte, p: seq<byte>, u: seq<byte>)
    requires |p| + 2 < 0x100
    ensures Receive(NormalWire(cmd, p) + u, cmd) == Received(Success(p), u)
  {
    var s, n := NormalWire(cmd, p) + u, |p| + 2;
    assert s[..3] == [0x00, 0x00, 0xff] && s[3] == n && s[4] == Negated(n);
    assert s[3..5] == [s[3], s[4]];
    assert s[5..] == BodyWire(cmd, p) + u;
    BodyExactly(s[5..], n, cmd, p, u);
  }

  lemma ReceiveExtended(cmd: byte, p: seq<byte>, u: seq<byte>)
    requires |p| + 2 < 0x1_0000
    ensures Receive(ExtendedWire(cmd, p) + u, cmd) == Received(Success(p), u)
  {
    var s, n := ExtendedWire(cmd, p) + u, |p| + 2;
    assert s[..3] == [0x00, 0x00, 0xff] && s[3..5] == [MARKER, MARKER];
    assert s[5] == n / 0x100 && s[6] == n % 0x100 && s[7] == Negated(WrapAdd(s[5], s[6]));
    assert s[8..] == BodyWire(cmd, p) + u;
    BodyExactly(s[8..], n, cmd, p, u);
  }

  lemma SplitHeader(s: seq<byte>)
    requires |s| >= 8
    ensures s == [s[0], s[1], s[2], s[3], s[4], s[5], s[6], s[7]] + s[8..]
    ensures s[..3] == [s[0], s[1], s[2]] && s[3..5] == [s[3], s[4]]
  {
  }

  lemma ReceivedExtendedIsWire(s: seq<byte>, cmd: byte, p: seq<byte>, u: seq<byte>)
    requires |s| >= 5 && s[3..5] == [MARKER, MARKER]
    requires Receive(s, cmd) == Received(Success(p), u)
    ensures |p| + 2 < 0x1_0000 && s == ExtendedWire(cmd, p) + u
  {
    var hi, lo, check := s[5], s[6], s[7];
    var n := 0x100 * (hi as nat) + lo as nat;
    BodyExactly(s[8..], n, cmd, p, u);
    SplitHeader(s);
    assert s[..3] == [0x00, 0x00, 0xff];
    assert check == Negated(WrapAdd(hi, lo));
    assert n / 0x100 == hi && n % 0x100 == lo;
    assert s == [0x00, 0x00, 0xff, MARKER, MARKER, hi, lo, check] + (BodyWire(cmd, p) + u);
  }

  lemma ReceivedNormalIsWire(s: seq<byte>, cmd: byte, p: seq<byte>, u: seq<byte>)
    requires |s| >= 5 && s[3..5] != [MARKER, MARKER]
    requires Receive(s, cmd) == Received(Success(p), u)
    ensures |p| + 2 < 0x100 && s == NormalWire(cmd, p) + u
  {
    BodyExactly(s[5..], s[3], cmd, p, u);
    assert s == s[..3] + [s[3], s[4]] + s[5..];
  }

  /** A payload is accepted, with u left unread, exactly when the port holds that
      payload's normal or extended frame followed by u. */
  lemma ReceiveExactly(s: seq<byte>, cmd: byte, p: seq<byte>, u: seq<byte>)
    ensures Receive(s, cmd) == Received(Success(p), u) <==>
            || (|p| + 2 < 0x100 && s == NormalWire(cmd, p) + u)
            || (|p| + 2 < 0x1_0000 && s == ExtendedWire(cmd, p) + u)
  {
    if |p| + 2 < 0x100 && s == NormalWire(cmd, p) + u {
      ReceiveNormal(cmd, p, u);
    } else if |p| + 2 < 0x1_0000 && s == ExtendedWire(cmd, p) + u {
      ReceiveExtended(cmd, p, u);
    } else if Receive(s, cmd) == Received(Success(p), u) {
      if s[3..5] == [MARKER, MARKER] {
        ReceivedExtendedIsWire(s, cmd, p, u);
      } else {
        ReceivedNormalIsWire(s, cmd, p, u);
      }
    }
  }

  /* ------------------------------------------------- why a frame is refused */

  /** Any outcome but a short read is final: bytes that come later change nothing. */
  lemma OutcomeIsFinal(s: seq<byte>, more: seq<byte>, cmd: byte)
    requires Receive(s, cmd).result != Failure(InterfaceError)
    ensures Receive(s + more, cmd).result == Receive(s, cmd).result
    ensures Receive(s + more, cmd).unread == Receive(s, cmd).unread + more
  {
    hide ReceiveBody;
    var t := s + more;
    assert t[..3] == s[..3] && t[3..5] == s[3..5] && t[5..] == s[5..] + more;
    if s[..3] == [0x00, 0x00, 0xff] {
      if s[3..5] == [MARKER, MARKER] {
        assert t[8..] == s[8..] + more;
        if WrapAdd(WrapAdd(s[5], s[6]), s[7]) == 0 {
          BodyIsFinal(s[8..], more, 0x100 * (s[5] as nat) + s[6] as nat, cmd);
        }
      } else if WrapAdd(s[3], s[4]) == 0 {
        BodyIsFinal(s[5..], more, s[3], cmd);
      }
    }
  }

  lemma BodyIsFinal(s: seq<byte>, more: seq<byte>, n: nat, cmd: byte)
    requires ReceiveBody(s, n, cmd).result != Failure(InterfaceError)
    ensures ReceiveBody(s + more, n, cmd) ==
            Received(ReceiveBody(s, n, cmd).result, ReceiveBody(s, n, cmd).unread + more)
  {
    if n >= 2 {
      assert (s + more)[..n + 2] == s[..n + 2] && (s + more)[n + 2..] == s[n + 2..] + more;
    }
  }

  /** The bytes of some frame header that declares n bytes of data. */
  predicate Declares(s: seq<byte>, n: nat) {
    || (|s| == 5 && s[..3] == [0x00, 0x00, 0xff] && s[3..] != [0xff, 0xff]
        && n == s[3] && (s[3] as nat + s[4] as nat) % 256 == 0)
    || (|s| == 8 && s[..5] == [0x00, 0x00, 0xff, 0xff, 0xff]
        && n == 0x100 * (s[5] as nat) + s[6] as nat && (s[5] as nat + s[6] as nat + s[7] as nat) % 256 == 0)
  }

  /** Whether the port starts with an intact header, and where that header ends. */
  predicate Intact(s: seq<byte>, h: nat, n: nat) {
    h <= |s| && Declares(s[..h], n)
  }

  lemma IntactReads(s: seq<byte>, h: nat, n: nat, cmd: byte)
    requires Intact(s, h, n)
    ensures Receive(s, cmd) == ReceiveBody(s[h..], n, cmd)
  {
    var t := s[..h];
    assert t[..3] == s[..3] && forall i :: 0 <= i < h ==> t[i] == s[i];
    if h == 5 {
      assert s[3..5] == t[3..];
    } else {
      assert t[..5][3..] == [0xff, 0xff] && t[..5][..3] == s[..3] && s[3..5] == t[..5][3..];
    }
  }

  /** A syntax error is exactly an intact header that declares a single byte. */
  lemma SyntaxExactly(s: seq<byte>, cmd: byte)
    ensures Receive(s, cmd).result == Failure(Syntax) <==>
            [0x00, 0x00, 0xff, 0x01, 0xff] <= s || [0x00, 0x00, 0xff, 0xff, 0xff, 0x00, 0x01, 0xff] <= s
  {
    if |s| >= 8 {
      SplitHeader(s);
    } else if |s| >= 5 {
      assert s[..3] == [s[0], s[1], s[2]] && s[3..5] == [s[3], s[4]];
    }
  }

  /** Behind an intact header that declares n >= 2 bytes: too few bytes are an interface
      error; a wrong postamble, direction or response code is a malformed frame; and
      only when those are right is a wrong sum a checksum error. */
  lemma BodyErrorsExactly(s: seq<byte>, h: nat, n: nat, cmd: byte)
    requires Intact(s, h, n) && n >= 2
    ensures Receive(s, cmd).result == Failure(InterfaceError) <==> |s| < h + n + 2
    ensures |s| >= h + n + 2 ==>
              && (Receive(s, cmd).result == Failure(BadResponseFrame) <==>
                    s[h + n + 1] != 0x00 || s[h] != 0xd5 || s[h + 1] != cmd)
              && (Receive(s, cmd).result == Failure(CrcError) <==>
                    s[h + n + 1] == 0x00 && s[h] == 0xd5 && s[h + 1] == cmd && WrapSum(s[h..h + n + 1]) != 0)
  {
    hide Receive, Declares, WrapSum;
    IntactReads(s, h, n, cmd);
    if |s| >= h + n + 2 {
      assert s[h..][..n + 2] == s[h..h + n + 2];
      assert s[h..h + n + 2][..n + 1] == s[h..h + n + 1];
      assert s[h..h + n + 2][n + 1] == s[h + n + 1];
    }
  }

  /** Without an intact header: a preamble that is wrong is a malformed frame, one that
      is right a checksum error, and bytes that end before that is known are an
      interface error. A header that declares no byte at all is malformed too. */
  lemma HeaderErrorsExactly(s: seq<byte>, cmd: byte)
    requires !Intact(s, 5, if |s| < 5 then 0 else s[3])
    requires !Intact(s, 8, if |s| < 8 then 0 else 0x100 * (s[5] as nat) + s[6] as nat)
    ensures Receive(s, cmd).result ==
            Failure(if |s| < 5 then InterfaceError
                    else if !([0x00, 0x00, 0xff] <= s) then BadResponseFrame
                    else if |s| < 8 && s[3] == 0xff && s[4] == 0xff then InterfaceError
                    else CrcError)
  {
    if |s| >= 8 {
      SplitHeader(s);
      assert s[..5] == [s[0], s[1], s[2], s[3], s[4]];
      assert s[..5][3..] == s[3..5] && s[..5][..3] == s[..3] && s[..8][..5] == s[..5];
    } else if |s| >= 5 {
      assert s[..3] == [s[0], s[1], s[2]] && s[3..5] == [s[3], s[4]];
      assert s[..5][3..] == s[3..5] && s[..5][..3] == s[..3];
    }
  }

  lemma EmptyFrameMalformed(s: seq<byte>, h: nat, cmd: byte)
    requires Intact(s, h, 0)
    ensures Receive(s, cmd).result == Failure(BadResponseFrame)
  {
    IntactReads(s, h, 0, cmd);
  }

  /** The two formats are never confused, not even as prefixes of a longer stream. */
  lemma FormatsDisjoint(c: byte, p: seq<byte>, u: seq<byte>, d: byte, q: seq<byte>, v: seq<byte>)
    requires |p| + 2 < 0x100 && |q| + 2 < 0x1_0000
    ensures NormalWire(c, p) + u != ExtendedWire(d, q) + v
  {
    var s, t := NormalWire(c, p) + u, ExtendedWire(d, q) + v;
    assert s[3] == |p| + 2 && s[4] == Negated(s[3]) && t[3] == t[4] == MARKER;
  }

  /* ------------------------------------------------- single-byte errors */

  function Wire(extended: bool, cmd: byte, p: seq<byte>): seq<byte>
    requires |p| + 2 < (if extended then 0x1_0000 else 0x100)
  {
    if extended then ExtendedWire(cmd, p) else NormalWire(cmd, p)
  }

  /** Two bodies of one length never differ in a single byte. */
  lemma BodyDistance(cmd: byte, p: seq<byte>, q: seq<byte>, j: nat, x: byte)
    requires |p| == |q| && j < |p| + 4
    requires BodyWire(cmd, p)[j := x] == BodyWire(cmd, q)
    ensures x == BodyWire(cmd, p)[j]
  {
    var a, b := [PN532_TO_HOST, cmd] + p, [PN532_TO_HOST, cmd] + q;
    var s, t := BodyWire(cmd, p), BodyWire(cmd, q);
    assert a == s[..|p| + 2] && b == t[..|p| + 2];
    if j >= |p| + 2 {
      assert a == b;
    } else if x != s[j] {
      assert a == a[..j] + [a[j]] + a[j + 1..];
      assert b == a[..j] + [x] + a[j + 1..];
      assert WrapSum(a) == WrapSum(b) by {
        assert s[|p| + 2] == t[|p| + 2];
      }
      WrapSumUpdate(a[..j], a[j], x, a[j + 1..]);
    }
  }

  /** A frame changed in one byte is never another frame of the same format. */
  lemma SameFormatDistance(extended: bool, cmd: byte, p: seq<byte>, i: nat, x: byte, q: seq<byte>, u: seq<byte>)
    requires |p| + 2 < (if extended then 0x1_0000 else 0x100)
    requires |q| + 2 < (if extended then 0x1_0000 else 0x100)
    requires i < |Wire(extended, cmd, p)|
    requires Wire(extended, cmd, p)[i := x] == Wire(extended, cmd, q) + u
    ensures x == Wire(extended, cmd, p)[i]
  {
    var s, w := Wire(extended, cmd, p), Wire(extended, cmd, q);
    var t := s[i := x];
    var h := if extended then 8 else 5;
    assert forall k :: 0 <= k < |w| ==> t[k] == w[k];
    assert |p| == |q| || x == s[i] by {
      if extended {
        assert t[5] == w[5] && t[6] == w[6] && t[7] == w[7];
        assert 0x100 * ((|p| + 2) / 0x100) + (|p| + 2) % 0x100 == |p| + 2;
        assert 0x100 * ((|q| + 2) / 0x100) + (|q| + 2) % 0x100 == |q| + 2;
      } else {
        assert t[3] == w[3] && t[4] == w[4];
      }
    }
    if |p| == |q| {
      assert t == w;
      if i >= h {
        assert s[h..] == BodyWire(cmd, p) && w[h..] == BodyWire(cmd, q);
        assert t[h..] == s[h..][i - h := x];
        BodyDistance(cmd, p, q, i - h, x);
      } else {
        assert s[..h] == w[..h] && s[i] == s[..h][i] && w[i] == w[..h][i];
      }
    }
  }

  /** The one way to corrupt a single byte unnoticed: turning the second marker byte
      of a huge extended frame into 01 makes it a normal frame of length FF, and the
      bytes that follow happen to be a body of that length. */
  predicate Misread(extended: bool, cmd: byte, p: seq<byte>, i: nat, x: byte)
    requires |p| + 2 < (if extended then 0x1_0000 else 0x100)
  {
    extended && i == 4 && x == 1 && |p| + 2 >= 0xd500 &&
    var s := ExtendedWire(cmd, p);
    s[5] == PN532_TO_HOST && s[6] == cmd && s[261] == POSTAMBLE && WrapSum(s[5..261]) == 0
  }

  lemma BodySum(cmd: byte, p: seq<byte>)
    ensures WrapSum(BodyWire(cmd, p)[..|p| + 3]) == 0
  {
    var data := [PN532_TO_HOST, cmd] + p;
    WrapSumSnoc(data, Negated(WrapSum(data)));
    assert BodyWire(cmd, p)[..|p| + 3] == data + [Negated(WrapSum(data))];
  }

  lemma NormalIsNotExtended(cmd: byte, p: seq<byte>, i: nat, x: byte, q: seq<byte>, u: seq<byte>)
    requires |p| + 2 < 0x100 && |q| + 2 < 0x1_0000
    requires i < |NormalWire(cmd, p)|
    ensures NormalWire(cmd, p)[i := x] != ExtendedWire(cmd, q) + u
  {
    var s, w := NormalWire(cmd, p), ExtendedWire(cmd, q) + u;
    var t := s[i := x];
    assert s[3] == |p| + 2 && s[4] == Negated(s[3]) && s[5] == PN532_TO_HOST;
    assert w[3] == MARKER && w[4] == MARKER && w[5] == (|q| + 2) / 0x100;
    assert |t| == |p| + 9 && |w| == |q| + 12 + |u|;
  }

  lemma ExtendedReadAsNormal(cmd: byte, p: seq<byte>, i: nat, x: byte, q: seq<byte>, u: seq<byte>)
    requires |p| + 2 < 0x1_0000 && |q| + 2 < 0x100
    requires i < |ExtendedWire(cmd, p)|
    requires ExtendedWire(cmd, p)[i := x] == NormalWire(cmd, q) + u
    ensures Misread(true, cmd, p, i, x)
  {
    var s, w := ExtendedWire(cmd, p), NormalWire(cmd, q) + u;
    var t := s[i := x];
    assert w[3] == |q| + 2 && w[4] == Negated(w[3]) && w[5] == PN532_TO_HOST && w[6] == cmd;
    assert s[3] == MARKER && s[4] == MARKER && s[5] == (|p| + 2) / 0x100;
    assert t[3] == w[3] && t[4] == w[4] && t[5] == w[5] && t[6] == w[6];
    assert i == 4 && x == 1 && |q| == 253;
    var b := BodyWire(cmd, q);
    assert w[5..261] == b[..256] && w[261] == POSTAMBLE;
    assert s[5..261] == t[5..261] && s[261] == t[261];
    BodySum(cmd, q);
  }

  /** Changing any single byte of a stream that holds just one frame is noticed,
      except in the case described by `Misread`. */
  lemma SingleByteErrors(extended: bool, cmd: byte, p: seq<byte>, i: nat, x: byte)
    requires |p| + 2 < (if extended then 0x1_0000 else 0x100)
    requires i < |Wire(extended, cmd, p)| && x != Wire(extended, cmd, p)[i]
    ensures Receive(Wire(extended, cmd, p)[i := x], cmd).result.Success? <==> Misread(extended, cmd, p, i, x)
  {
    var t := Wire(extended, cmd, p)[i := x];
    if Receive(t, cmd).result.Success? {
      AcceptedChangeIsMisread(extended, cmd, p, i, x);
    }
    if Misread(extended, cmd, p, i, x) {
      MisreadIsAccepted(cmd, p);
    }
  }

  lemma AcceptedChangeIsMisread(extended: bool, cmd: byte, p: seq<byte>, i: nat, x: byte)
    requires |p| + 2 < (if extended then 0x1_0000 else 0x100)
    requires i < |Wire(extended, cmd, p)| && x != Wire(extended, cmd, p)[i]
    requires Receive(Wire(extended, cmd, p)[i := x], cmd).result.Success?
    ensures Misread(extended, cmd, p, i, x)
  {
    var t := Wire(extended, cmd, p)[i := x];
    var q, u := Receive(t, cmd).result.value, Receive(t, cmd).unread;
    ReceiveExactly(t, cmd, q, u);
    if |q| + 2 < 0x100 && t == NormalWire(cmd, q) + u {
      if extended {
        ExtendedReadAsNormal(cmd, p, i, x, q, u);
      } else {
        SameFormatDistance(false, cmd, p, i, x, q, u);
      }
    } else if extended {
      SameFormatDistance(true, cmd, p, i, x, q, u);
    } else {
      NormalIsNotExtended(cmd, p, i, x, q, u);
    }
  }

  lemma MisreadIsAccepted(cmd: byte, p: seq<byte>)
    requires |p| + 2 < 0x1_0000 && Misread(true, cmd, p, 4, 1)
    ensures Receive(ExtendedWire(cmd, p)[4 := 1], cmd).result.Success?
  {
    var t := ExtendedWire(cmd, p)[4 := 1];
    assert t[..3] == [0x00, 0x00, 0xff] && t[3..5] == [0xff, 1];
    var frame := t[5..][..257];
    assert frame[..256] == ExtendedWire(cmd, p)[5..261];
    assert frame[0] == t[5] && frame[1] == t[6] && frame[256] == t[261];
  }

  /** Below frame length D500 every single-byte error is noticed. */
  lemma ShortFramesDetectErrors(extended: bool, cmd: byte, p: seq<byte>, i: nat, x: byte)
    requires |p| + 2 < (if extended then 0xd500 else 0x100)
    requires i < |Wire(extended, cmd, p)| && x != Wire(extended, cmd, p)[i]
    ensures Receive(Wire(extended, cmd, p)[i := x], cmd).result.Failure?
  {
    SingleByteErrors(extended, cmd, p, i, x);
  }

  lemma {:induction false} ZerosSum(n: nat)
    ensures WrapSum(seq(n, _ => 0 as byte)) == 0
  {
    if n > 0 {
      ZerosSum(n - 1);
      assert seq(n, _ => 0 as byte)[..n - 1] == seq(n - 1, _ => 0 as byte);
    }
  }

  /** The bound is sharp: this extended frame of length D541 is misread. */
  lemma HugeFrameMisread()
    ensures var p: seq<byte> := [0xea] + seq(0xd53e, _ => 0);
            Receive(ExtendedWire(0x41, p)[4 := 1], 0x41).result.Success?
  {
    var p: seq<byte> := [0xea] + seq(0xd53e, _ => 0);
    var s := ExtendedWire(0x41, p);
    var h: seq<byte> := [0xd5, 0x41, 0xea];
    var z: seq<byte> := seq(250, _ => 0);
    assert WrapSum(h) == 0 by {
      WrapSumSnoc([0xd5, 0x41], 0xea);
      WrapSumSnoc([0xd5], 0x41);
      WrapSumSnoc([], 0xd5);
      assert [] + [0xd5 as byte] == [0xd5];
      assert [0xd5, 0x41 as byte] == [0xd5] + [0x41];
      assert h == [0xd5, 0x41] + [0xea];
    }
    ZerosSum(250);
    WrapSumAppend(h, h);
    WrapSumAppend(h + h, z);
    assert s[5..261] == h + h + z;
    SingleByteErrors(true, 0x41, p, 4, 1);
  }
}
