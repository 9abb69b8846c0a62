/** Bytes, optional values and results, little-endian words and the two byte
    folds (wrapping sum and exclusive or) that the CCID and PN532 layers share. */
module Bytes {

  type byte = b: int | 0 <= b < 256

  datatype Option<+T> = None | Some(value: T)

  datatype Result<+T, +E> = Success(value: T) | Failure(error: E) {
    predicate IsFailure() {
      Failure?
    }

    function PropagateFailure<U>(): Result<U, E>
      requires Failure?
    {
      Failure(error)
    }

    function Extract(): T
      requires Success?
    {
      value
    }
  }

  /** What `?`-style operations without a value return. */
  datatype Unit = Unit

  /** An operation's answer together with the state it leaves behind. */
  datatype After<+R, +S> = After(result: R, next: S)

  const TWO_32 := 0x1_0000_0000

  function LeU32(s: seq<byte>): nat
    requires |s| == 4
  {
    s[0] as nat + 0x100 * (s[1] as nat) + 0x1_0000 * (s[2] as nat) + 0x100_0000 * (s[3] as nat)
  }

  /** The four bytes of `n as u32`; higher bits are lost, as in the cast. */
  function U32Le(n: nat): (s: seq<byte>)
    ensures |s| == 4
  {
    [n % 256, n / 0x100 % 256, n / 0x1_0000 % 256, n / 0x100_0000 % 256]
  }

  lemma LeU32OfU32Le(n: nat)
    ensures LeU32(U32Le(n)) == n % TWO_32
  {
    var a, b, c, d := n % 256, n / 0x100 % 256, n / 0x1_0000 % 256, n / 0x100_0000 % 256;
    var q := n / TWO_32;
    assert n / 0x100 / 256 == n / 0x1_0000;
    assert n / 0x1_0000 / 256 == n / 0x100_0000;
    assert n / 0x100_0000 / 256 == q;
    assert n == a + 0x100 * b + 0x1_0000 * c + 0x100_0000 * d + TWO_32 * q;
  }

  function Flatten(parts: seq<seq<byte>>): seq<byte> {
    if parts == [] then [] else parts[0] + Flatten(parts[1..])
  }

  lemma {:induction false} FlattenAppend(a: seq<seq<byte>>, b: seq<seq<byte>>)
    ensures Flatten(a + b) == Flatten(a) + Flatten(b)
  {
    if a == [] {
      assert a + b == b;
    } else {
      assert (a + b)[1..] == a[1..] + b;
      FlattenAppend(a[1..], b);
    }
  }

  lemma FlattenCons(x: seq<byte>, a: seq<seq<byte>>)
    ensures Flatten([x] + a) == x + Flatten(a)
  {
    assert ([x] + a)[1..] == a;
  }

  lemma FlattenSnoc(a: seq<seq<byte>>, x: seq<byte>)
    ensures Flatten(a + [x]) == Flatten(a) + x
  {
    FlattenAppend(a, [x]);
    assert Flatten([x]) == x;
  }

  /** `u8::wrapping_add`. */
  function WrapAdd(a: byte, b: byte): byte {
    if a as int + b as int < 256 then a + b else a as int + b as int - 256
  }

  /** The left fold of `wrapping_add` over the bytes of s, starting from zero. */
  function WrapSum(s: seq<byte>): byte {
    if s == [] then 0 else WrapAdd(WrapSum(s[..|s| - 1]), s[|s| - 1])
  }

  function Sum(s: seq<byte>): nat {
    if s == [] then 0 else Sum(s[..|s| - 1]) + s[|s| - 1]
  }

  /** It is the plain sum of the bytes, modulo 256. */
  lemma {:induction false} WrapSumIsSum(s: seq<byte>)
    ensures WrapSum(s) == Sum(s) % 256
  {
    if s != [] {
      WrapSumIsSum(s[..|s| - 1]);
    }
  }

  lemma WrapSumSnoc(s: seq<byte>, x: byte)
    ensures WrapSum(s + [x]) == WrapAdd(WrapSum(s), x)
  {
    assert (s + [x])[..|s|] == s;
  }

  lemma {:induction false} WrapSumAppend(a: seq<byte>, b: seq<byte>)
    ensures WrapSum(a + b) == WrapAdd(WrapSum(a), WrapSum(b))
  {
    if b == [] {
      assert a + b == a;
    } else {
      var c, x := b[..|b| - 1], b[|b| - 1];
      WrapSumAppend(a, c);
      assert a + b == (a + c) + [x];
      WrapSumSnoc(a + c, x);
    }
  }

  /** Replacing one byte by a different one always changes the wrapping sum. */
  lemma WrapSumUpdate(a: seq<byte>, x: byte, y: byte, b: seq<byte>)
    requires x != y
    ensures WrapSum(a + [x] + b) != WrapSum(a + [y] + b)
  {
    WrapSumAppend(a + [x], b);
    WrapSumAppend(a + [y], b);
    WrapSumSnoc(a, x);
    WrapSumSnoc(a, y);
  }

  function Xor(a: byte, b: byte): byte {
    ((a as bv8) ^ (b as bv8)) as int
  }

  /** The left fold of exclusive or over the bytes of s, starting from zero. */
  function XorSum(s: seq<byte>): byte {
    if s == [] then 0 else Xor(XorSum(s[..|s| - 1]), s[|s| - 1])
  }

  /** The weight of bit i. */
  function Mask(i: nat): bv8
    requires i < 8
  {
    if i == 0 then 0x01 else if i == 1 then 0x02 else if i == 2 then 0x04 else if i == 3 then 0x08
    else if i == 4 then 0x10 else if i == 5 then 0x20 else if i == 6 then 0x40 else 0x80
  }

  predicate BitOf(x: bv8, i: nat)
    requires i < 8
  {
    x & Mask(i) != 0
  }

  predicate BitSet(b: byte, i: nat)
    requires i < 8
  {
    BitOf(b as bv8, i)
  }

  /** How many bytes of s have bit i set. */
  function CountBit(s: seq<byte>, i: nat): nat
    requires i < 8
  {
    if s == [] then 0 else CountBit(s[..|s| - 1], i) + if BitSet(s[|s| - 1], i) then 1 else 0
  }

  lemma MaskedXor(x: bv8, y: bv8, i: nat)
    requires i < 8
    ensures BitOf(x ^ y, i) <==> BitOf(x, i) != BitOf(y, i)
  {
    hide Mask, OneBit;
    MaskIsOneBit(i);
    OneBitXor(x, y, Mask(i));
  }

  predicate OneBit(m: bv8) {
    m == 0x01 || m == 0x02 || m == 0x04 || m == 0x08 || m == 0x10 || m == 0x20 || m == 0x40 || m == 0x80
  }

  lemma MaskIsOneBit(i: nat)
    requires i < 8
    ensures OneBit(Mask(i))
  {
  }

  lemma OneBitXor(x: bv8, y: bv8, m: bv8)
    requires OneBit(m)
    ensures (x ^ y) & m != 0 <==> (x & m != 0) != (y & m != 0)
  {
  }

  lemma XorAsBits(a: byte, b: byte)
    ensures Xor(a, b) as bv8 == (a as bv8) ^ (b as bv8)
  {
    var z := (a as bv8) ^ (b as bv8);
    assert (z as int) as bv8 == z;
  }

  lemma XorBit(a: byte, b: byte, i: nat)
    requires i < 8
    ensures BitSet(Xor(a, b), i) <==> BitSet(a, i) != BitSet(b, i)
  {
    hide Xor, BitOf;
    XorAsBits(a, b);
    MaskedXor(a as bv8, b as bv8, i);
  }

  /** It is even parity, bit by bit. */
  lemma {:induction false} XorSumIsParity(s: seq<byte>, i: nat)
    requires i < 8
    ensures BitSet(XorSum(s), i) <==> CountBit(s, i) % 2 == 1
  {
    hide BitSet, Xor;
    if s == [] {
      NoBitSet(i);
    } else {
      XorSumIsParity(s[..|s| - 1], i);
      XorBit(XorSum(s[..|s| - 1]), s[|s| - 1], i);
    }
  }

  lemma NoBitSet(i: nat)
    requires i < 8
    ensures !BitSet(0, i)
  {
  }

  /** Appending the XOR of a sequence makes the XOR of the whole zero. */
  lemma XorSumCloses(s: seq<byte>)
    ensures XorSum(s + [XorSum(s)]) == 0
  {
    var x := XorSum(s);
    assert (s + [x])[..|s|] == s;
    assert (x as bv8) ^ (x as bv8) == 0;
  }
}
