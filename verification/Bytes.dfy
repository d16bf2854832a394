/** Bytes, 32-bit words and the few sequence operations every component shares. */
module Bytes {
  import ByteWidth

  type byte = b: int | 0 <= b < 0x100
  type u32 = n: int | 0 <= n < 0x1_0000_0000
  type int32 = n: int | -0x8000_0000 <= n < 0x8000_0000
  type u16 = n: int | 0 <= n < 0x1_0000

  datatype Option<+T> = None | Some(value: T)

  const U32_MAX: u32 := 0xFFFF_FFFF
  const U16_MAX: u16 := 0xFFFF

  /** The value a 32-bit unsigned register holds after an operation whose exact result is `n`. */
  function Wrap32(n: int): (r: u32)
    ensures 0 <= n < 0x1_0000_0000 ==> r == n
  {
    n % 0x1_0000_0000
  }

  function Min(a: int, b: int): int { if a < b then a else b }

  function Max(a: int, b: int): int { if a < b then b else a }

  /** `m` with the elements from index `at` on replaced by `src`. */
  function Splice<T>(m: seq<T>, at: nat, src: seq<T>): (r: seq<T>)
    requires at + |src| <= |m|
    ensures |r| == |m|
    ensures forall i {:trigger r[i]} | 0 <= i < |m| :: r[i] == if at <= i < at + |src| then src[i - at] else m[i]
  {
    seq(|m|, i requires 0 <= i < |m| => if at <= i < at + |src| then src[i - at] else m[i])
  }

  lemma SliceOfSlice(s: seq<byte>, at: nat, n: nat, lo: nat, hi: nat)
    requires at + n <= |s| && lo <= hi <= n
    ensures s[at..at + n][lo..hi] == s[at + lo..at + hi]
  {
    var x, y := s[at..at + n][lo..hi], s[at + lo..at + hi];
    assert forall i | 0 <= i < hi - lo :: x[i] == y[i];
  }

  lemma Adjoin(s: seq<byte>, a: nat, b: nat, c: nat)
    requires a <= b <= c <= |s|
    ensures s[a..b] + s[b..c] == s[a..c]
  {}

  function Fill(n: nat, b: byte): (r: seq<byte>)
    ensures |r| == n && forall i | 0 <= i < n :: r[i] == b
  {
    seq(n, _ => b)
  }

  /** Two images of the same memory that agree everywhere except possibly in `[lo, hi)`. */
  ghost predicate SameOutside(a: seq<byte>, b: seq<byte>, lo: int, hi: int) {
    && |a| == |b|
    && forall i | 0 <= i < |a| && !(lo <= i < hi) :: a[i] == b[i]
  }

  /** Little-endian 32-bit word at the start of `p`. */
  function Get32(p: seq<byte>): u32
    requires |p| >= 4
  {
    var b0: int, b1: int, b2: int, b3: int := p[0], p[1], p[2], p[3];
    b0 + 0x100 * (b1 + 0x100 * (b2 + 0x100 * b3))
  }

  /** Little-endian, digit by digit. */
  lemma WordDigits(p: seq<byte>)
    requires |p| >= 4
    ensures Get32(p) == p[0] as int + 0x100 * p[1] as int + 0x1_0000 * p[2] as int + 0x100_0000 * p[3] as int
    ensures Get16(p) == p[0] as int + 0x100 * p[1] as int
  {}

  function Put32(n: u32): (p: seq<byte>)
    ensures |p| == 4 && Get32(p) == n
  {
    var a: int := n / 0x100;
    var b: int := a / 0x100;
    [n % 0x100, a % 0x100, b % 0x100, b / 0x100]
  }

  function Get16(p: seq<byte>): u16
    requires |p| >= 2
  {
    p[0] as int + 0x100 * p[1] as int
  }

  function Put16(n: u16): (p: seq<byte>)
    ensures |p| == 2 && Get16(p) == n
  {
    [n % 0x100, n / 0x100]
  }

  lemma Digit(b: int, r: int, b': int, r': int)
    requires 0 <= b < 0x100 && 0 <= b' < 0x100 && b + 0x100 * r == b' + 0x100 * r'
    ensures b == b' && r == r'
  {}

  /** Four bytes are determined by the word they spell. */
  lemma Get32Injective(p: seq<byte>, q: seq<byte>)
    requires |p| == 4 && |q| == 4 && Get32(p) == Get32(q)
    ensures p == q
  {
    Digit(p[0], p[1] as int + 0x100 * (p[2] as int + 0x100 * p[3] as int),
          q[0], q[1] as int + 0x100 * (q[2] as int + 0x100 * q[3] as int));
    Digit(p[1], p[2] as int + 0x100 * p[3] as int, q[1], q[2] as int + 0x100 * q[3] as int);
    Digit(p[2], p[3], q[2], q[3]);
    assert forall i | 0 <= i < 4 :: p[i] == q[i];
  }

  // ---- bytes as bits ------------------------------------------------------

  lemma AllOnes(x: bv8)
    ensures 0xFF & x == x
  {}

  /** A byte is determined by its bits. */
  lemma ByteBits(b: byte)
    ensures (b as bv8) as int == b
  {
    ByteWidth.Octet(b);
  }

  // The bits of a byte, one by one: halving drops the last of them.

  function BitsOf(b: byte): bv8 { b as bv8 }
  function NumberOf(x: bv8): byte { x as byte }
  function HalfBits(x: bv8): bv8 { x >> 1 }
  function LastBit(x: bv8): bv8 { x & 1 }

  lemma HalfBitsIs(x: bv8)
    ensures HalfBits(x) as int == x as int / 2
  {
    assert x >> 1 == x / 2;
  }

  lemma LastBitIs(x: bv8)
    ensures LastBit(x) as int == x as int % 2
  {
    assert x & 1 == x % 2;
  }

  lemma NumberIs(x: bv8)
    ensures NumberOf(x) == x as int && BitsOf(NumberOf(x)) == x
  {}

  lemma LastIsSet(x: bv8)
    ensures NumberOf(x) % 2 == 1 <==> LastBit(x) == 1
  {
    hide LastBit, NumberOf;
    NumberIs(x);
    LastBitIs(x);
  }

  lemma HalfOfBits(b: byte)
    ensures HalfBits(BitsOf(b)) == BitsOf(b / 2)
  {
    hide HalfBits, NumberOf, BitsOf;
    BitsNumber(b);
    NumberIs(BitsOf(b));
    HalfBitsIs(BitsOf(b));
    NumberIs(HalfBits(BitsOf(b)));
  }

  lemma HalfOfNumber(x: bv8)
    ensures NumberOf(HalfBits(x)) == NumberOf(x) / 2
  {
    hide HalfBits, NumberOf;
    NumberIs(x);
    HalfBitsIs(x);
    NumberIs(HalfBits(x));
  }

  lemma BitsNumber(b: byte)
    ensures NumberOf(BitsOf(b)) == b
  {
    ByteBits(b);
  }

  lemma BitsInjective(b: byte, c: byte)
    requires b as bv8 == c as bv8
    ensures b == c
  {
    ByteBits(b);
    ByteBits(c);
  }
}
