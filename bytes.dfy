/** Byte strings and the two ways a secure-monitor routine can end. */
module Bytes {

  /** One octet of secure-monitor memory. */
  newtype Byte = x: int | 0 <= x < 0x100

  /** The end of a C routine of the secure monitor: `panic()`, which never
      returns to the caller, or an ordinary return with a value. */
  datatype Outcome<T> = Panic | Return(value: T)

  datatype Option<T> = None | Some(value: T)

  function Pow2(n: nat): nat
  {
    if n == 0 then 1 else 2 * Pow2(n - 1)
  }

  /** Bitwise exclusive or of the low `n` bits of `a` and `b`. */
  function XorBits(a: nat, b: nat, n: nat): nat
  {
    if n == 0 then 0 else (a + b) % 2 + 2 * XorBits(a / 2, b / 2, n - 1)
  }

  lemma {:induction false} XorBitsBound(a: nat, b: nat, n: nat)
    ensures XorBits(a, b, n) < Pow2(n)
  {
    if n > 0 {
      XorBitsBound(a / 2, b / 2, n - 1);
    }
  }

  /** Bitwise exclusive or of two bytes, the C `^` on `uint8_t`. */
  function XorByte(a: Byte, b: Byte): Byte
  {
    XorBitsBound(a as nat, b as nat, 8);
    assert Pow2(8) == 0x100;
    XorBits(a as nat, b as nat, 8) as Byte
  }

  /** The lowest bit of an exclusive or, and the bits above it. */
  lemma XorBitsStep(a: nat, b: nat, n: nat)
    requires n > 0
    ensures XorBits(a, b, n) % 2 == (a + b) % 2
    ensures XorBits(a, b, n) / 2 == XorBits(a / 2, b / 2, n - 1)
  {
  }

  lemma Parity(a: nat, b: nat, x: nat)
    requires x % 2 == (a + b) % 2
    ensures (x + b) % 2 == a % 2
  {
  }

  lemma {:induction false} XorBitsCancel(a: nat, b: nat, n: nat)
    requires a < Pow2(n)
    ensures XorBits(XorBits(a, b, n), b, n) == a
  {
    if n == 0 {
      assert a == 0;
    } else {
      var x := XorBits(a, b, n);
      XorBitsStep(a, b, n);
      Parity(a, b, x);
      assert a / 2 < Pow2(n - 1);
      XorBitsCancel(a / 2, b / 2, n - 1);
      calc {
        XorBits(x, b, n);
        (x + b) % 2 + 2 * XorBits(x / 2, b / 2, n - 1);
        a % 2 + 2 * XorBits(XorBits(a / 2, b / 2, n - 1), b / 2, n - 1);
        a % 2 + 2 * (a / 2);
      }
    }
  }

  /** `n` zero bytes. */
  function Zeros(n: nat): seq<Byte>
  {
    seq(n, _ => 0)
  }

  /** Byte-wise exclusive or of two strings of the same length. */
  function Xor(a: seq<Byte>, b: seq<Byte>): seq<Byte>
    requires |a| == |b|
  {
    seq(|a|, i requires 0 <= i < |a| => XorByte(a[i], b[i]))
  }

  /** `buf` with `mask` XORed into bytes `start .. start + |mask|`, every
      other byte left as it was: the effect of XORing a mask into a
      sub-buffer in place. */
  function XorAt(buf: seq<Byte>, start: nat, mask: seq<Byte>): seq<Byte>
    requires start + |mask| <= |buf|
  {
    seq(|buf|, i requires 0 <= i < |buf| =>
      if start <= i < start + |mask| then XorByte(buf[i], mask[i - start]) else buf[i])
  }

  lemma XorCancel(a: Byte, b: Byte)
    ensures XorByte(XorByte(a, b), b) == a
  {
    assert Pow2(8) == 0x100;
    XorBitsCancel(a as nat, b as nat, 8);
  }

  /** XORing the same mask in twice restores the buffer. */
  lemma XorAtTwice(buf: seq<Byte>, start: nat, mask: seq<Byte>)
    requires start + |mask| <= |buf|
    ensures XorAt(XorAt(buf, start, mask), start, mask) == buf
  {
    var once := XorAt(buf, start, mask);
    forall i | 0 <= i < |buf|
      ensures XorAt(once, start, mask)[i] == buf[i]
    {
      if start <= i < start + |mask| {
        XorCancel(buf[i], mask[i - start]);
      }
    }
  }

  /** The four big-endian bytes of a 32-bit value. */
  function Be32(c: nat): (b: seq<Byte>)
    requires c < 0x1_0000_0000
    ensures |b| == 4
    ensures b[0] as nat * 0x100_0000 + b[1] as nat * 0x1_0000 + b[2] as nat * 0x100 + b[3] as nat == c
  {
    var q1 := c / 0x100;
    var q2 := q1 / 0x100;
    assert c == q1 * 0x100 + c % 0x100;
    assert q1 == q2 * 0x100 + q1 % 0x100;
    assert q2 == q2 / 0x100 * 0x100 + q2 % 0x100;
    [(q2 / 0x100) as Byte, (q2 % 0x100) as Byte, (q1 % 0x100) as Byte, (c % 0x100) as Byte]
  }
}
