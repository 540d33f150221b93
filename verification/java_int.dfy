/**
 * Java's 32-bit `int`, its wrap-around addition, signed bytes and the
 * little-endian byte order of Guava's `LittleEndianDataInputStream`.
 */
module JavaInt {

  const TWO32: int := 0x1_0000_0000
  const INT_MIN: int := -0x8000_0000
  const INT_MAX: int := 0x7fff_ffff

  /** A Java `int`. */
  type Int32 = x: int | INT_MIN <= x <= INT_MAX

  /** One unsigned byte of a stream. */
  type Byte = b: int | 0 <= b < 256

  /**
   * Two's-complement truncation to 32 bits: the result of Java `int`
   * arithmetic on `x`, which is `x` moved by multiples of 2^32 into range.
   */
  function Wrap(x: int): Int32
    decreases if x < INT_MIN then INT_MIN - x else if x > INT_MAX then x - INT_MAX else 0
  {
    if x < INT_MIN then Wrap(x + TWO32)
    else if x > INT_MAX then Wrap(x - TWO32)
    else x
  }

  /** Wrap changes its argument by a multiple of 2^32. */
  lemma {:induction false} WrapCongruent(x: int)
    ensures (x - Wrap(x)) % TWO32 == 0
    decreases if x < INT_MIN then INT_MIN - x else if x > INT_MAX then x - INT_MAX else 0
  {
    if x < INT_MIN {
      WrapCongruent(x + TWO32);
      var k := (x + TWO32 - Wrap(x)) / TWO32;
      assert x + TWO32 - Wrap(x) == TWO32 * k;
      assert x - Wrap(x) == TWO32 * (k - 1);
    } else if x > INT_MAX {
      WrapCongruent(x - TWO32);
      var k := (x - TWO32 - Wrap(x)) / TWO32;
      assert x - TWO32 - Wrap(x) == TWO32 * k;
      assert x - Wrap(x) == TWO32 * (k + 1);
    }
  }

  /** Wrap is the only 32-bit value congruent to its argument. */
  lemma WrapUnique(x: int, r: Int32)
    requires (x - r) % TWO32 == 0
    ensures Wrap(x) == r
  {
    WrapCongruent(x);
    var w := Wrap(x);
    var k := (x - r) / TWO32;
    var j := (x - w) / TWO32;
    assert x - r == TWO32 * k;
    assert x - w == TWO32 * j;
    assert w - r == TWO32 * (k - j);
  }

  /** A value already in range is its own wrap. */
  lemma WrapOfInt32(x: Int32)
    ensures Wrap(x) == x
  {
    WrapUnique(x, x);
  }

  /** Wrapping an intermediate result does not change the wrapped total. */
  lemma WrapAdd(a: int, b: int)
    ensures Wrap(Wrap(a) + b) == Wrap(a + b)
  {
    WrapCongruent(a);
    var w := Wrap(a);
    WrapCongruent(w + b);
    var k := (a - w) / TWO32;
    assert a - w == TWO32 * k;
    var v := Wrap(w + b);
    var j := (w + b - v) / TWO32;
    assert w + b - v == TWO32 * j;
    assert (a + b) - v == TWO32 * (k + j);
    WrapUnique(a + b, v);
  }

  /** The Java `byte` that `readByte()` returns for an unsigned stream byte. */
  function SignedByte(b: Byte): (s: int)
    ensures -128 <= s < 128
    ensures (s - b) % 256 == 0
  {
    if b < 128 then b else b - 256
  }

  /**
   * Java's `(char) input.readByte()`: the signed byte is sign-extended and
   * narrowed to 16 bits, so bytes 0x80..0xFF become chars 0xFF80..0xFFFF.
   */
  function ByteToChar(b: Byte): (c: char)
    ensures (c as int < 128) == (b < 128)
    ensures c as int < 128 ==> c as int == b
  {
    (SignedByte(b) % 0x1_0000) as char
  }

  /** Guava's `readInt()`: four bytes, least significant first, as a signed int. */
  function FromLittleEndian(b0: Byte, b1: Byte, b2: Byte, b3: Byte): (v: Int32)
  {
    Wrap(b0 + 256 * b1 + 65536 * b2 + 16777216 * b3)
  }

  /**
   * Java's `/` on `int`: the quotient truncated toward zero (Dafny's own `/`
   * is Euclidean and differs for negative operands).
   */
  function JavaDiv(a: int, b: int): (q: int)
    requires b != 0
    ensures Abs(q) == Abs(a) / Abs(b)
    ensures (a < 0) == (b < 0) ==> q >= 0
    ensures (a < 0) != (b < 0) ==> q <= 0
  {
    var n, d := Abs(a), Abs(b);
    var m := n / d;
    assert 0 <= m by {
      assert n == d * m + n % d;
    }
    if (a < 0) == (b < 0) then m else -m
  }

  function Abs(x: int): nat
  {
    if x < 0 then -x else x
  }

  /** The four bytes, least significant first, that a little-endian `writeInt(v)` emits. */
  function ToLittleEndian(v: Int32): (b: seq<Byte>)
    ensures |b| == 4
  {
    var u := v % TWO32;
    var q1 := u / 256;
    var q2 := q1 / 256;
    [u % 256, q1 % 256, q2 % 256, q2 / 256]
  }

  /** Reading back the four bytes written for `v` yields `v`. */
  lemma LittleEndianRoundTrip(v: Int32)
    ensures var b := ToLittleEndian(v); FromLittleEndian(b[0], b[1], b[2], b[3]) == v
  {
    var u := v % TWO32;
    var q1 := u / 256;
    var q2 := q1 / 256;
    assert u == q1 * 256 + u % 256;
    assert q1 == q2 * 256 + q1 % 256;
    assert q2 == (q2 / 256) * 256 + q2 % 256;
    assert u == u % 256 + 256 * (q1 % 256) + 65536 * (q2 % 256) + 16777216 * (q2 / 256);
    assert v - u == TWO32 * (v / TWO32);
    WrapUnique(u, v);
  }

  /** The exact (unbounded) sum of a sequence of integers. */
  function Sum(s: seq<int>): int
  {
    if s == [] then 0 else Sum(s[..|s| - 1]) + s[|s| - 1]
  }
}
