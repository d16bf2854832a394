/**
 * The reflected CRC-32 of section 8 of RFC 1952, computed bit by bit, and what
 * it detects. Words are bit vectors; their operations are named so that proofs
 * can work with the laws of the operations instead of with single bits.
 */
module Crc {
  import opened Bytes

  const POLYNOMIAL: bv32 := 0xEDB88320

  function Xor(a: bv32, b: bv32): bv32 { a ^ b }
  function Inv(a: bv32): bv32 { !a }
  function Half(a: bv32): bv32 { a >> 1 }
  function Up8(a: bv32): bv32 { a << 8 }
  function Down8(a: bv32): bv32 { a >> 8 }
  function LowBit(a: bv32): bv32 { a & 1 }
  function Octet(a: bv32): bv32 { a & 0xFF }
  function Rest(a: bv32): bv32 { a & 0xFFFFFF00 }
  function Feed(bit: bv32): bv32 { if bit == 1 then POLYNOMIAL else 0 }

  /** One bit of the division: the low bit leaves, and feeds back when it is set. */
  function Step(c: bv32): bv32 { Xor(Half(c), Feed(LowBit(c))) }

  function Steps(n: nat, c: bv32): bv32 {
    if n == 0 then c else Steps(n - 1, Step(c))
  }

  function Wide(b: byte): bv32 { (b as bv8) as bv32 }

  function CrcByte(c: bv32, b: byte): bv32 { Steps(8, Xor(c, Wide(b))) }

  /** The running state over a stream, without the outer inversions. */
  function Run(c: bv32, data: seq<byte>): bv32
    decreases |data|
  {
    if data == [] then c else Run(CrcByte(c, data[0]), data[1..])
  }

  /** The CRC of a stream that continues the one whose CRC is `crc`; 0 starts a new one. */
  function Update(crc: bv32, data: seq<byte>): bv32 { Inv(Run(Inv(crc), data)) }

  function Crc32(data: seq<byte>): bv32 { Update(0, data) }

  // ---- laws of the operations ---------------------------------------------

  lemma XorShuffle(a: bv32, b: bv32, c: bv32, d: bv32)
    ensures Xor(Xor(a, b), Xor(c, d)) == Xor(Xor(a, c), Xor(b, d))
  {
    hide Xor;
    XorAssociates(Xor(a, b), c, d);
    XorAssociates(a, b, c);
    XorCommutes(b, c);
    XorAssociates(a, c, b);
    XorAssociates(Xor(a, c), b, d);
  }

  lemma XorCommutes(a: bv32, b: bv32)
    ensures Xor(a, b) == Xor(b, a)
  {}

  lemma XorAssociates(a: bv32, b: bv32, c: bv32)
    ensures Xor(a, Xor(b, c)) == Xor(Xor(a, b), c)
  {}

  lemma XorCancels(s: bv32, x: bv32, y: bv32)
    ensures Xor(s, x) == Xor(s, y) ==> x == y
    ensures Xor(x, s) == Xor(y, s) ==> x == y
  {}

  lemma InvTwice(c: bv32)
    ensures Inv(Inv(c)) == c
  {}

  lemma HalfLinear(x: bv32, y: bv32)
    ensures Half(Xor(x, y)) == Xor(Half(x), Half(y))
  {}

  lemma LowBitLinear(x: bv32, y: bv32)
    ensures LowBit(Xor(x, y)) == Xor(LowBit(x), LowBit(y))
  {}

  lemma BitCases(x: bv32)
    ensures LowBit(x) == 0 || LowBit(x) == 1
  {}

  lemma FeedLinear(x: bv32, y: bv32)
    requires (x == 0 || x == 1) && (y == 0 || y == 1)
    ensures Feed(Xor(x, y)) == Xor(Feed(x), Feed(y))
  {}

  lemma SplitOctet(x: bv32)
    ensures x == Xor(Octet(x), Rest(x)) && Octet(Rest(x)) == 0 && Down8(Rest(x)) == Down8(x)
  {}

  lemma ShiftUp(y: bv32)
    requires y & 0xFF000000 == 0
    ensures Octet(Up8(y)) == 0 && Down8(Up8(y)) == y
  {}

  // ---- the loop -----------------------------------------------------------

  lemma LoopBit(c: bv32)
    ensures (c >> 1) ^ (POLYNOMIAL & (0 - (c & 1))) == Step(c)
  {
    BitCases(c);
  }

  lemma {:induction false} StepsAppend(m: nat, n: nat, c: bv32)
    ensures Steps(m + n, c) == Steps(n, Steps(m, c))
  {
    hide Step;
    if m > 0 {
      StepsAppend(m - 1, n, Step(c));
    }
  }

  lemma {:induction false} RunAppend(c: bv32, a: seq<byte>, b: seq<byte>)
    ensures Run(c, a + b) == Run(Run(c, a), b)
    decreases |a|
  {
    hide CrcByte;
    if a == [] {
      assert a + b == b;
    } else {
      assert (a + b)[0] == a[0] && (a + b)[1..] == a[1..] + b;
      RunAppend(CrcByte(c, a[0]), a[1..], b);
    }
  }

  lemma RunNone(c: bv32)
    ensures Run(c, []) == c
  {}

  lemma RunOne(c: bv32, b: byte)
    ensures Run(c, [b]) == CrcByte(c, b)
  {
    hide CrcByte;
    RunNone(CrcByte(c, b));
  }

  lemma CrcByteIs(c: bv32, b: byte)
    ensures CrcByte(c, b) == Steps(8, Xor(c, Wide(b)))
  {
    hide Steps, Wide, Xor;
  }

  /** Feeding a stream in pieces, each seeded with the last result, is feeding it whole. */
  lemma UpdateAppend(crc: bv32, a: seq<byte>, b: seq<byte>)
    ensures Update(Update(crc, a), b) == Update(crc, a + b)
  {
    hide Run, Inv;
    RunAppend(Inv(crc), a, b);
    InvTwice(Run(Inv(crc), a));
  }

  method Crc32Update(crc: bv32, data: seq<byte>) returns (r: bv32)
    ensures r == Update(crc, data)
  {
    hide Run, CrcByte, Inv;
    var c := Inv(crc);
    RunNone(Inv(crc));
    for i := 0 to |data|
      invariant c == Run(Inv(crc), data[..i])
    {
      assert data[..i + 1] == data[..i] + [data[i]];
      RunAppend(Inv(crc), data[..i], [data[i]]);
      RunOne(c, data[i]);
      c := EightBits(c, data[i]);
    }
    assert data[..|data|] == data;
    r := Inv(c);
  }

  method EightBits(crc: bv32, b: byte) returns (c: bv32)
    ensures c == CrcByte(crc, b)
  {
    hide Step, Xor, Wide, CrcByte;
    c := Xor(crc, Wide(b));
    ghost var x := c;
    for bit := 0 to 8
      invariant c == Steps(bit, x)
    {
      hide Steps;
      StepsAppend(bit, 1, x);
      OneStep(c);
      LoopBit(c);
      c := (c >> 1) ^ (POLYNOMIAL & (0 - (c & 1)));
    }
    CrcByteIs(crc, b);
  }

  lemma OneStep(c: bv32)
    ensures Steps(1, c) == Step(c)
  {
    hide Step;
    assert Steps(0, Step(c)) == Step(c);
  }

  /** The check value of the standard's CRC: that of the digits 1 to 9. */
  lemma CheckValue()
    ensures Crc32([0x31, 0x32, 0x33, 0x34, 0x35, 0x36, 0x37, 0x38, 0x39]) == 0xCBF43926
  {
    hide CrcByte, Run, Inv, Update, Crc32;
    CheckByte1();
    CheckByte2();
    CheckByte3();
    CheckByte4();
    CheckByte5();
    CheckByte6();
    CheckByte7();
    CheckByte8();
    CheckByte9();
    var digits: seq<byte> := [0x31, 0x32, 0x33, 0x34, 0x35, 0x36, 0x37, 0x38, 0x39];
    RunFrom(0xFFFFFFFF, digits, 0);
    RunFrom(0x7C231048, digits, 1);
    RunFrom(0xB0ACBB32, digits, 2);
    RunFrom(0x77B79C2D, digits, 3);
    RunFrom(0x641C1F5C, digits, 4);
    RunFrom(0x340AC5E3, digits, 5);
    RunFrom(0xF68D2C9E, digits, 6);
    RunFrom(0xAFFC9660, digits, 7);
    RunFrom(0x651F2550, digits, 8);
    RunNone(0x340BC6D9);
    assert digits[0..] == digits && digits[9..] == [];
    assert Run(0xFFFFFFFF, digits) == 0x340BC6D9;
    CrcOfRun(digits);
    Inversions();
  }

  lemma CrcOfRun(data: seq<byte>)
    ensures Crc32(data) == Inv(Run(Inv(0), data))
  {}

  lemma Inversions()
    ensures Inv(0) == 0xFFFFFFFF && Inv(0x340BC6D9) == 0xCBF43926
  {}

  lemma RunFrom(c: bv32, data: seq<byte>, i: nat)
    requires i < |data|
    ensures Run(c, data[i..]) == Run(CrcByte(c, data[i]), data[i + 1..])
  {
    hide CrcByte;
    assert data[i..][1..] == data[i + 1..];
  }

  lemma EightSteps(x0: bv32, x1: bv32, x2: bv32, x3: bv32, x4: bv32, x5: bv32, x6: bv32, x7: bv32, x8: bv32)
    requires Step(x0) == x1 && Step(x1) == x2 && Step(x2) == x3 && Step(x3) == x4
    requires Step(x4) == x5 && Step(x5) == x6 && Step(x6) == x7 && Step(x7) == x8
    ensures Steps(8, x0) == x8
  {
    hide Step;
    assert Steps(1, x7) == Steps(0, x8);
    assert Steps(3, x5) == Steps(2, x6) == Steps(1, x7);
    assert Steps(5, x3) == Steps(4, x4) == Steps(3, x5);
    assert Steps(7, x1) == Steps(6, x2) == Steps(5, x3);
  }

  lemma CheckByte1()
    ensures CrcByte(0xFFFFFFFF, 0x31) == 0x7C231048
  {
    hide CrcByte, Steps;
    CrcByteIs(0xFFFFFFFF, 0x31);
    assert Xor(0xFFFFFFFF, Wide(0x31)) == 0xFFFFFFCE;
    EightSteps(0xFFFFFFCE, 0x7FFFFFE7, 0xD2477CD3, 0x849B3D49, 0xAFF51D84,
               0x57FA8EC2, 0x2BFD4761, 0xF8462090, 0x7C231048);
  }

  lemma CheckByte2()
    ensures CrcByte(0x7C231048, 0x32) == 0xB0ACBB32
  {
    hide CrcByte, Steps;
    CrcByteIs(0x7C231048, 0x32);
    assert Xor(0x7C231048, Wide(0x32)) == 0x7C23107A;
    EightSteps(0x7C23107A, 0x3E11883D, 0xF2B0473E, 0x7958239F, 0xD11492EF,
               0x8532CA57, 0xAF21E60B, 0xBA287025, 0xB0ACBB32);
  }

  lemma CheckByte3()
    ensures CrcByte(0xB0ACBB32, 0x33) == 0x77B79C2D
  {
    hide CrcByte, Steps;
    CrcByteIs(0xB0ACBB32, 0x33);
    assert Xor(0xB0ACBB32, Wide(0x33)) == 0xB0ACBB01;
    EightSteps(0xB0ACBB01, 0xB5EEDEA0, 0x5AF76F50, 0x2D7BB7A8, 0x16BDDBD4,
               0x0B5EEDEA, 0x05AF76F5, 0xEF6F385A, 0x77B79C2D);
  }

  lemma CheckByte4()
    ensures CrcByte(0x77B79C2D, 0x34) == 0x641C1F5C
  {
    hide CrcByte, Steps;
    CrcByteIs(0x77B79C2D, 0x34);
    assert Xor(0x77B79C2D, Wide(0x34)) == 0x77B79C19;
    EightSteps(0x77B79C19, 0xD6634D2C, 0x6B31A696, 0x3598D34B, 0xF774EA85,
               0x9602F662, 0x4B017B31, 0xC8383EB8, 0x641C1F5C);
  }

  lemma CheckByte5()
    ensures CrcByte(0x641C1F5C, 0x35) == 0x340AC5E3
  {
    hide CrcByte, Steps;
    CrcByteIs(0x641C1F5C, 0x35);
    assert Xor(0x641C1F5C, Wide(0x35)) == 0x641C1F69;
    EightSteps(0x641C1F69, 0xDFB68C94, 0x6FDB464A, 0x37EDA325, 0xF64E52B2,
               0x7B272959, 0xD02B178C, 0x68158BC6, 0x340AC5E3);
  }

  lemma CheckByte6()
    ensures CrcByte(0x340AC5E3, 0x36) == 0xF68D2C9E
  {
    hide CrcByte, Steps;
    CrcByteIs(0x340AC5E3, 0x36);
    assert Xor(0x340AC5E3, Wide(0x36)) == 0x340AC5D5;
    EightSteps(0x340AC5D5, 0xF7BDE1CA, 0x7BDEF0E5, 0xD057FB52, 0x682BFDA9,
               0xD9AD7DF4, 0x6CD6BEFA, 0x366B5F7D, 0xF68D2C9E);
  }

  lemma CheckByte7()
    ensures CrcByte(0xF68D2C9E, 0x37) == 0xAFFC9660
  {
    hide CrcByte, Steps;
    CrcByteIs(0xF68D2C9E, 0x37);
    assert Xor(0xF68D2C9E, Wide(0x37)) == 0xF68D2CA9;
    EightSteps(0xF68D2CA9, 0x96FE1574, 0x4B7F0ABA, 0x25BF855D, 0xFF67418E,
               0x7FB3A0C7, 0xD2615343, 0x84882A81, 0xAFFC9660);
  }

  lemma CheckByte8()
    ensures CrcByte(0xAFFC9660, 0x38) == 0x651F2550
  {
    hide CrcByte, Steps;
    CrcByteIs(0xAFFC9660, 0x38);
    assert Xor(0xAFFC9660, Wide(0x38)) == 0xAFFC9658;
    EightSteps(0xAFFC9658, 0x57FE4B2C, 0x2BFF2596, 0x15FF92CB, 0xE7474A45,
               0x9E1B2602, 0x4F0D9301, 0xCA3E4AA0, 0x651F2550);
  }

  lemma CheckByte9()
    ensures CrcByte(0x651F2550, 0x39) == 0x340BC6D9
  {
    hide CrcByte, Steps;
    CrcByteIs(0x651F2550, 0x39);
    assert Xor(0x651F2550, Wide(0x39)) == 0x651F2569;
    EightSteps(0x651F2569, 0xDF371194, 0x6F9B88CA, 0x37CDC465, 0xF65E6112,
               0x7B2F3089, 0xD02F1B64, 0x68178DB2, 0x340BC6D9);
  }

  // ---- the table-driven form ----------------------------------------------

  lemma StepLinear(x: bv32, y: bv32)
    ensures Step(Xor(x, y)) == Xor(Step(x), Step(y))
  {
    hide Xor, Half, LowBit, Feed;
    HalfLinear(x, y);
    LowBitLinear(x, y);
    BitCases(x);
    BitCases(y);
    FeedLinear(LowBit(x), LowBit(y));
    XorShuffle(Half(x), Half(y), Feed(LowBit(x)), Feed(LowBit(y)));
  }

  lemma {:induction false} StepsLinear(n: nat, x: bv32, y: bv32)
    ensures Steps(n, Xor(x, y)) == Xor(Steps(n, x), Steps(n, y))
  {
    hide Step, Xor;
    if n > 0 {
      StepLinear(x, y);
      StepsLinear(n - 1, Step(x), Step(y));
    }
  }

  lemma StepEven(x: bv32)
    requires LowBit(x) == 0
    ensures Step(x) == Half(x)
  {}

  lemma EightHalves(x: bv32)
    requires Octet(x) == 0
    ensures Half(Half(Half(Half(Half(Half(Half(Half(x)))))))) == Down8(x)
    ensures LowBit(x) == 0 && LowBit(Half(x)) == 0 && LowBit(Half(Half(x))) == 0 && LowBit(Half(Half(Half(x)))) == 0
    ensures LowBit(Half(Half(Half(Half(x))))) == 0 && LowBit(Half(Half(Half(Half(Half(x)))))) == 0
    ensures LowBit(Half(Half(Half(Half(Half(Half(x))))))) == 0
    ensures LowBit(Half(Half(Half(Half(Half(Half(Half(x)))))))) == 0
  {}

  lemma StepsEven(n: nat, x: bv32)
    requires n > 0 && LowBit(x) == 0
    ensures Steps(n, x) == Steps(n - 1, Half(x))
  {
    hide Step, LowBit, Half;
    StepEven(x);
  }

  lemma NoSteps(x: bv32)
    ensures Steps(0, x) == x
  {}

  /** Eight zero bits leave without feeding back. */
  lemma StepsShifted(x: bv32)
    requires Octet(x) == 0
    ensures Steps(8, x) == Down8(x)
  {
    hide Steps, Half, LowBit, Down8, Octet;
    EightHalves(x);
    var a := Half(x);
    var b := Half(a);
    var c := Half(b);
    var d := Half(c);
    var e := Half(d);
    var f := Half(e);
    var g := Half(f);
    StepsEven(8, x);
    StepsEven(7, a);
    StepsEven(6, b);
    StepsEven(5, c);
    StepsEven(4, d);
    StepsEven(3, e);
    StepsEven(2, f);
    StepsEven(1, g);
    NoSteps(Half(g));
  }

  /** Entry of the table of all one-byte remainders. */
  function Table(n: bv32): bv32 { Steps(8, Octet(n)) }

  /** The bit-by-bit form computes what the table-driven form of the standard does. */
  lemma ByteIsTableLookup(c: bv32, b: byte)
    ensures CrcByte(c, b) == Xor(Table(Xor(c, Wide(b))), Down8(Xor(c, Wide(b))))
  {
    hide Steps, Wide, Xor, Octet, Rest, Down8, CrcByte;
    var x := Xor(c, Wide(b));
    CrcByteIs(c, b);
    SplitOctet(x);
    StepsLinear(8, Octet(x), Rest(x));
    StepsShifted(Rest(x));
  }

  // ---- four bytes as a word -----------------------------------------------

  function Low(w: bv32): byte { ((w & 0xFF) as bv8) as int }

  function Join(a: bv32, b: bv32, c: bv32, d: bv32): bv32 { a | (b << 8) | (c << 16) | (d << 24) }

  function Word(p: seq<byte>): bv32
    requires |p| == 4
  {
    Join(Wide(p[0]), Wide(p[1]), Wide(p[2]), Wide(p[3]))
  }

  function Part(w: bv32, k: nat): bv32
    requires k < 4
  {
    match k
    case 0 => w & 0xFF
    case 1 => (w >> 8) & 0xFF
    case 2 => (w >> 16) & 0xFF
    case _ => (w >> 24) & 0xFF
  }

  function WordBytes(w: bv32): (p: seq<byte>)
    ensures |p| == 4
  {
    [Low(Part(w, 0)), Low(Part(w, 1)), Low(Part(w, 2)), Low(Part(w, 3))]
  }

  lemma BitsByte(x: bv8)
    ensures (x as int) as bv8 == x
  {}

  lemma WideIs(b: byte, x: bv8)
    requires b as bv8 == x
    ensures Wide(b) == x as bv32
  {}

  lemma WideNarrow(x: bv8)
    ensures Wide(x as int) == x as bv32
  {
    hide Wide;
    BitsByte(x);
    WideIs(x as int, x);
  }

  lemma WideLow(w: bv32, x: bv8)
    requires w == x as bv32
    ensures Wide(Low(w)) == w
  {
    hide Wide;
    WideNarrow(x);
    LowIs(w, x);
  }

  lemma LowIs(w: bv32, x: bv8)
    requires w == x as bv32
    ensures Low(w) == x as int
  {
    NarrowBack(x);
  }

  lemma NarrowBack(x: bv8)
    ensures ((x as bv32) & 0xFF) as bv8 == x
  {}

  lemma PartNarrow(w: bv32, k: nat)
    requires k < 4
    ensures Part(w, k) == (Part(w, k) as bv8) as bv32
  {}

  lemma WidePart(w: bv32, k: nat)
    requires k < 4
    ensures Wide(Low(Part(w, k))) == Part(w, k)
  {
    PartNarrow(w, k);
    PartFits(w, k);
    hide Wide, Low, Part;
    WideLow(Part(w, k), Part(w, k) as bv8);
  }

  lemma PartFits(w: bv32, k: nat)
    requires k < 4
    ensures Part(w, k) < 0x100
  {}

  lemma JoinParts(w: bv32)
    ensures Join(Part(w, 0), Part(w, 1), Part(w, 2), Part(w, 3)) == w
  {}

  /** A word survives being written as four bytes, low byte first. */
  lemma WordRoundTrip(w: bv32)
    ensures Word(WordBytes(w)) == w
  {
    hide Wide, Low, Part, Join;
    WidePart(w, 0);
    WidePart(w, 1);
    WidePart(w, 2);
    WidePart(w, 3);
    JoinParts(w);
  }

  lemma WidenInjective(x: bv8, y: bv8)
    requires x as bv32 == y as bv32
    ensures x == y
  {}

  lemma WideInjective(b: byte, e: byte)
    requires Wide(b) == Wide(e)
    ensures b == e
  {
    WidenInjective(b as bv8, e as bv8);
    BitsInjective(b, e);
  }

  predicate Small(a: bv32) { a & 0xFF == a }

  predicate Below24(a: bv32) { a & 0xFF000000 == 0 }

  lemma WidenSmall(x: bv8)
    ensures Small(x as bv32)
  {}

  lemma WideSmall(b: byte)
    ensures Small(Wide(b))
  {
    hide Small;
    WidenSmall(b as bv8);
  }

  lemma PartsJoined(a: bv32, b: bv32, c: bv32, d: bv32)
    requires Small(a) && Small(b) && Small(c) && Small(d)
    ensures var w := Join(a, b, c, d);
            Part(w, 0) == a && Part(w, 1) == b && Part(w, 2) == c && Part(w, 3) == d
  {}

  lemma JoinNested(a: bv32, b: bv32, c: bv32, d: bv32)
    requires Small(a) && Small(b) && Small(c) && Small(d)
    ensures Join(a, b, c, d) == Xor(a, Up8(Xor(b, Up8(Xor(c, Up8(d))))))
    ensures Below24(d) && Below24(Xor(c, Up8(d))) && Below24(Xor(b, Up8(Xor(c, Up8(d)))))
  {}

  /** Four bytes are determined by the word they spell. */
  lemma WordInjective(p: seq<byte>, q: seq<byte>)
    requires |p| == 4 && |q| == 4 && Word(p) == Word(q)
    ensures p == q
  {
    hide Wide, Join, Small, Part;
    forall i | 0 <= i < 4 ensures Small(Wide(p[i])) && Small(Wide(q[i])) {
      WideSmall(p[i]);
      WideSmall(q[i]);
    }
    PartsJoined(Wide(p[0]), Wide(p[1]), Wide(p[2]), Wide(p[3]));
    PartsJoined(Wide(q[0]), Wide(q[1]), Wide(q[2]), Wide(q[3]));
    WideInjective(p[0], q[0]);
    WideInjective(p[1], q[1]);
    WideInjective(p[2], q[2]);
    WideInjective(p[3], q[3]);
    assert p == [p[0], p[1], p[2], p[3]];
  }

  // ---- detection ----------------------------------------------------------

  lemma StepInjective(c: bv32, d: bv32)
    requires Step(c) == Step(d)
    ensures c == d
  {}

  lemma {:induction false} StepsInjective(n: nat, c: bv32, d: bv32)
    requires Steps(n, c) == Steps(n, d)
    ensures c == d
  {
    hide Step;
    if n > 0 {
      StepsInjective(n - 1, Step(c), Step(d));
      StepInjective(c, d);
    }
  }

  /** The high bytes of the state wait their turn while the low byte is divided. */
  lemma StepsAhead(s: bv32, b: byte, y: bv32)
    requires Below24(y)
    ensures Steps(8, Xor(s, Xor(Wide(b), Up8(y)))) == Xor(CrcByte(s, b), y)
  {
    AheadShift(y);
    hide Steps, Xor, Wide, CrcByte, Up8, Down8, Octet;
    XorAssociates(s, Wide(b), Up8(y));
    CrcByteIs(s, b);
    StepsLinear(8, Xor(s, Wide(b)), Up8(y));
    StepsShifted(Up8(y));
  }

  lemma AheadShift(y: bv32)
    requires Below24(y)
    ensures Octet(Up8(y)) == 0 && Down8(Up8(y)) == y
  {
    ShiftUp(y);
  }

  lemma RunFour(s: bv32, p: seq<byte>)
    requires |p| == 4
    ensures Run(s, p) == CrcByte(CrcByte(CrcByte(CrcByte(s, p[0]), p[1]), p[2]), p[3])
  {
    hide Run, CrcByte;
    assert p == [p[0]] + [p[1]] + [p[2]] + [p[3]];
    RunAppend(s, [p[0]] + [p[1]] + [p[2]], [p[3]]);
    RunAppend(s, [p[0]] + [p[1]], [p[2]]);
    RunAppend(s, [p[0]], [p[1]]);
    RunOne(s, p[0]);
    RunOne(CrcByte(s, p[0]), p[1]);
    RunOne(CrcByte(CrcByte(s, p[0]), p[1]), p[2]);
    RunOne(CrcByte(CrcByte(CrcByte(s, p[0]), p[1]), p[2]), p[3]);
  }

  /** Four bytes enter the state as one word. */
  lemma FourBytesAreAWord(s: bv32, p: seq<byte>)
    requires |p| == 4
    ensures Run(s, p) == Steps(32, Xor(s, Word(p)))
  {
    hide Run, CrcByte, Steps, Wide, Xor, Up8, Join, Small, Below24;
    var a, b, c, d := Wide(p[0]), Wide(p[1]), Wide(p[2]), Wide(p[3]);
    forall i | 0 <= i < 4 ensures Small(Wide(p[i])) {
      WideSmall(p[i]);
    }
    JoinNested(a, b, c, d);
    RunFour(s, p);
    var y2 := Xor(c, Up8(d));
    var y1 := Xor(b, Up8(y2));
    StepsAhead(s, p[0], y1);
    var s1 := CrcByte(s, p[0]);
    StepsAhead(s1, p[1], y2);
    var s2 := CrcByte(s1, p[1]);
    StepsAhead(s2, p[2], d);
    var s3 := CrcByte(s2, p[2]);
    CrcByteIs(s3, p[3]);
    var w := Xor(s, Word(p));
    StepsAppend(8, 24, w);
    StepsAppend(8, 16, Xor(s1, y1));
    StepsAppend(8, 8, Xor(s2, y2));
  }

  /** Different states stay different over the same data. */
  lemma {:induction false} RunSeparates(c: bv32, d: bv32, data: seq<byte>)
    requires c != d
    ensures Run(c, data) != Run(d, data)
    decreases |data|
  {
    hide Steps, Wide, CrcByte, Xor;
    if data != [] {
      if CrcByte(c, data[0]) == CrcByte(d, data[0]) {
        CrcByteIs(c, data[0]);
        CrcByteIs(d, data[0]);
        StepsInjective(8, Xor(c, Wide(data[0])), Xor(d, Wide(data[0])));
        XorCancels(Wide(data[0]), c, d);
      }
      RunSeparates(CrcByte(c, data[0]), CrcByte(d, data[0]), data[1..]);
    }
  }

  /** Any change confined to four consecutive bytes changes the CRC. */
  lemma DetectsWindow(before: seq<byte>, p: seq<byte>, q: seq<byte>, after: seq<byte>)
    requires |p| == 4 && |q| == 4 && p != q
    ensures Crc32(before + p + after) != Crc32(before + q + after)
  {
    hide Run, Steps, Word, Inv, Xor;
    var s := Run(Inv(0), before);
    if Run(s, p) == Run(s, q) {
      FourBytesAreAWord(s, p);
      FourBytesAreAWord(s, q);
      StepsInjective(32, Xor(s, Word(p)), Xor(s, Word(q)));
      XorCancels(s, Word(p), Word(q));
      WordInjective(p, q);
    }
    RunSeparates(Run(s, p), Run(s, q), after);
    RunAppend(Inv(0), before, p);
    RunAppend(Inv(0), before, q);
    RunAppend(Inv(0), before + p, after);
    RunAppend(Inv(0), before + q, after);
    InvTwice(Run(Inv(0), before + p + after));
    InvTwice(Run(Inv(0), before + q + after));
  }

  // ---- records that carry their CRC and its inverse -----------------------

  /** The last eight bytes are the CRC of all before them, and its inverse. */
  predicate Sealed(record: seq<byte>)
    requires |record| >= 8
  {
    var n := |record| - 8;
    Word(record[n..n + 4]) == Crc32(record[..n]) && Word(record[n + 4..]) == Inv(Crc32(record[..n]))
  }

  function Seal(body: seq<byte>): seq<byte> {
    body + WordBytes(Crc32(body)) + WordBytes(Inv(Crc32(body)))
  }

  lemma SealIsSealed(body: seq<byte>)
    ensures |Seal(body)| == |body| + 8 && Sealed(Seal(body)) && Seal(body)[..|body|] == body
  {
    hide Word, WordBytes, Crc32, Inv;
    var crc := Crc32(body);
    var r := Seal(body);
    assert r[..|body|] == body && r[|body|..|body| + 4] == WordBytes(crc) && r[|body| + 4..] == WordBytes(Inv(crc));
    WordRoundTrip(crc);
    WordRoundTrip(Inv(crc));
  }

  lemma SealedIsSeal(r: seq<byte>)
    requires |r| >= 8 && Sealed(r)
    ensures r == Seal(r[..|r| - 8])
  {
    hide Crc32, Word, WordBytes, Inv;
    var n := |r| - 8;
    var crc := Crc32(r[..n]);
    WordRoundTrip(crc);
    WordRoundTrip(Inv(crc));
    WordInjective(r[n..n + 4], WordBytes(crc));
    WordInjective(r[n + 4..], WordBytes(Inv(crc)));
    assert r == r[..n] + r[n..n + 4] + r[n + 4..];
  }

  predicate DifferOnlyIn(a: seq<byte>, b: seq<byte>, lo: nat, hi: nat) {
    |a| == |b| && forall i | 0 <= i < |a| && !(lo <= i < hi) :: a[i] == b[i]
  }

  /** Two sealed records of one length that differ within four consecutive bytes are the same record. */
  lemma SealedDetectsWindow(a: seq<byte>, b: seq<byte>, at: nat)
    requires |a| >= 12 && |a| == |b| && Sealed(a) && Sealed(b) && DifferOnlyIn(a, b, at, at + 4)
    ensures a == b
  {
    hide Word, Crc32, Inv;
    var n := |a| - 8;
    if a[..n] == b[..n] {
      WordInjective(a[n..n + 4], b[n..n + 4]);
      WordInjective(a[n + 4..], b[n + 4..]);
      assert a == a[..n] + a[n..n + 4] + a[n + 4..];
      assert b == b[..n] + b[n..n + 4] + b[n + 4..];
    } else {
      BodySame(a, b, at);
    }
  }

  lemma BodySame(a: seq<byte>, b: seq<byte>, at: nat)
    requires |a| >= 12 && |a| == |b| && Sealed(a) && Sealed(b) && DifferOnlyIn(a, b, at, at + 4)
    ensures a[..|a| - 8] == b[..|a| - 8]
  {
    hide Word, Crc32, Inv;
    var n := |a| - 8;
    var p, q := a[..n], b[..n];
    if at >= n {
      assert p == q;
    } else {
      var k := Min(at, n - 4);
      assert p[..k] == q[..k] && p[k + 4..] == q[k + 4..] && a[n + 4..] == b[n + 4..];
      assert p == p[..k] + p[k..k + 4] + p[k + 4..];
      assert q == q[..k] + q[k..k + 4] + q[k + 4..];
      InvTwice(Crc32(p));
      InvTwice(Crc32(q));
      if p[k..k + 4] != q[k..k + 4] {
        DetectsWindow(p[..k], p[k..k + 4], q[k..k + 4], p[k + 4..]);
      }
    }
  }
}
