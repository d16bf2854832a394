/**
 * The settings record that decides what boots: a 28-byte prefix sealed by its
 * CRC-16 and the CRC's inverse, and the word order in which a new record is
 * committed to an erased page.
 */
module Settings {
  import opened Bytes
  import opened Flash

  const RECORD_LEN: nat := 32
  const PREFIX_LEN: nat := 28
  const BANK_VALID_APP: u16 := 0x01
  const BANK_INVALID_APP: u16 := 0xFF
  const FORMAT_VERSION: u16 := 1

  // ---- CRC-16 -------------------------------------------------------------

  function Swapped(c: bv16): bv16 { (c >> 8) | (c << 8) }

  function FoldLow(c: bv16): bv16 { Xor16(c, Down4(Low8(c))) }

  function FoldHigh(c: bv16): bv16 { Xor16(c, Up12(c)) }

  function FoldMiddle(c: bv16): bv16 { Xor16(c, Up5(Low8(c))) }

  function Xor16(a: bv16, b: bv16): bv16 { a ^ b }
  function Low8(c: bv16): bv16 { c & 0xFF }
  function Down4(c: bv16): bv16 { c >> 4 }
  function Up1(c: bv16): bv16 { c << 1 }
  function Up5(c: bv16): bv16 { (c << 4) << 1 }
  function Up12(c: bv16): bv16 { (c << 8) << 4 }

  function Wide(b: byte): bv16 { (b as bv8) as bv16 }

  function Crc16Byte(crc: bv16, b: byte): bv16 {
    Mix(Swapped(crc) ^ Wide(b))
  }

  function Crc16From(crc: bv16, data: seq<byte>): bv16
    decreases |data|
  {
    if data == [] then crc else Crc16From(Crc16Byte(crc, data[0]), data[1..])
  }

  lemma {:induction false} Crc16Append(crc: bv16, a: seq<byte>, b: seq<byte>)
    ensures Crc16From(crc, a + b) == Crc16From(Crc16From(crc, a), b)
    decreases |a|
  {
    if a == [] {
      assert a + b == b;
    } else {
      assert (a + b)[0] == a[0] && (a + b)[1..] == a[1..] + b;
      Crc16Append(Crc16Byte(crc, a[0]), a[1..], b);
    }
  }

  function Crc16(data: seq<byte>): u16 {
    Crc16From(0xFFFF, data) as u16
  }

  method Crc16Compute(data: seq<byte>) returns (crc: u16)
    ensures crc == Crc16(data)
  {
    var c: bv16 := 0xFFFF;
    for i := 0 to |data|
      invariant c == Crc16From(0xFFFF, data[..i])
    {
      assert data[..i + 1] == data[..i] + [data[i]];
      Crc16Append(0xFFFF, data[..i], [data[i]]);
      c := Crc16Byte(c, data[i]);
    }
    assert data[..|data|] == data;
    crc := c as u16;
  }

  lemma SwappedInjective(c: bv16, d: bv16)
    requires Swapped(c) == Swapped(d)
    ensures c == d
  {}

  lemma FoldLowInjective(c: bv16, d: bv16)
    requires FoldLow(c) == FoldLow(d)
    ensures c == d
  {}

  lemma FoldHighInjective(c: bv16, d: bv16)
    requires FoldHigh(c) == FoldHigh(d)
    ensures c == d
  {}

  lemma FoldMiddleInjective(c: bv16, d: bv16)
    requires FoldMiddle(c) == FoldMiddle(d)
    ensures c == d
  {}

  lemma XorInjective(c: bv16, d: bv16, x: bv16, y: bv16)
    requires c ^ x == d ^ y
    ensures x == y ==> c == d
    ensures c == d ==> x == y
  {}

  function Mix(c: bv16): bv16 {
    FoldMiddle(FoldHigh(FoldLow(c)))
  }

  lemma MixInjective(c: bv16, d: bv16)
    requires Mix(c) == Mix(d)
    ensures c == d
  {
    hide FoldLow, FoldHigh, FoldMiddle;
    FoldMiddleInjective(FoldHigh(FoldLow(c)), FoldHigh(FoldLow(d)));
    FoldHighInjective(FoldLow(c), FoldLow(d));
    FoldLowInjective(c, d);
  }

  lemma WidenInjective(x: bv8, y: bv8)
    requires x as bv16 == y as bv16
    ensures x == y
  {}

  lemma WideInjective(b: byte, e: byte)
    requires Wide(b) == Wide(e)
    ensures b == e
  {
    WidenInjective(b as bv8, e as bv8);
    BitsInjective(b, e);
  }

  lemma StepBits(c: bv16, d: bv16, x: bv16, y: bv16)
    requires Mix(Swapped(c) ^ x) == Mix(Swapped(d) ^ y)
    ensures x == y ==> c == d
    ensures c == d ==> x == y
  {
    hide Mix, Swapped;
    MixInjective(Swapped(c) ^ x, Swapped(d) ^ y);
    XorInjective(Swapped(c), Swapped(d), x, y);
    if x == y {
      SwappedInjective(c, d);
    }
  }

  /** A step is injective in the state. */
  lemma Crc16Injective(c: bv16, d: bv16, b: byte)
    requires Crc16Byte(c, b) == Crc16Byte(d, b)
    ensures c == d
  {
    hide Crc16Byte, Mix, Swapped, Wide;
    Crc16ByteIs(c, b);
    Crc16ByteIs(d, b);
    StepBits(c, d, Wide(b), Wide(b));
  }

  /** A step is injective in the byte. */
  lemma Crc16ByteInjective(c: bv16, b: byte, e: byte)
    requires Crc16Byte(c, b) == Crc16Byte(c, e)
    ensures b == e
  {
    hide Crc16Byte, Wide;
    StepWide(c, b, e);
    WideInjective(b, e);
  }

  lemma StepWide(c: bv16, b: byte, e: byte)
    requires Crc16Byte(c, b) == Crc16Byte(c, e)
    ensures Wide(b) == Wide(e)
  {
    hide Crc16Byte, Mix, Swapped, Wide;
    Crc16ByteIs(c, b);
    Crc16ByteIs(c, e);
    StepBits(c, c, Wide(b), Wide(e));
  }

  lemma Crc16ByteIs(c: bv16, b: byte)
    ensures Crc16Byte(c, b) == Mix(Swapped(c) ^ Wide(b))
  {
    hide Mix, Swapped, Wide;
  }

  /** One bit of the division by x^16 + x^12 + x^5 + 1, the most significant bit first. */
  function DividedBit(c: bv16): bv16 {
    Xor16(Up1(c), FedBack(TopBit(c)))
  }

  function TopBit(c: bv16): bv16 { c & 0x8000 }

  function FedBack(top: bv16): bv16 { if top != 0 then 0x1021 else 0 }

  function DividedByte(c: bv16): bv16 {
    DividedBit(DividedBit(DividedBit(DividedBit(DividedBit(DividedBit(DividedBit(DividedBit(c))))))))
  }

  /** The folds of one step are eight bits of that division, with the byte brought in at the top. */
  lemma Crc16ByteDivides(crc: bv16, b: byte)
    ensures Crc16Byte(crc, b) == DividedByte(crc ^ (Wide(b) << 8))
  {
    hide Mix, Swapped, Wide, DividedByte, Crc16Byte;
    Crc16ByteIs(crc, b);
    WideIsLow(b);
    BroughtIn(crc, Wide(b));
    FoldsDivide(crc ^ (Wide(b) << 8));
  }

  lemma WideIsLow(b: byte)
    ensures Wide(b) & 0xFF00 == 0
  {
    NoHighBits(b as bv8);
  }

  lemma NoHighBits(x: bv8)
    ensures (x as bv16) & 0xFF00 == 0
  {}

  lemma BroughtIn(c: bv16, w: bv16)
    requires w & 0xFF00 == 0
    ensures Swapped(c) ^ w == Swapped(c ^ (w << 8))
  {}

  lemma FoldsDivide(x: bv16)
    ensures Mix(Swapped(x)) == DividedByte(x)
  {
    hide Mix, Swapped, DividedByte, Xor16;
    Halves(x);
    FoldsLinear(x & 0xFF00, x & 0xFF);
    DividedByteLinear(x & 0xFF00, x & 0xFF);
    HighDivides(x & 0xFF00);
    LowDivides(x & 0xFF);
  }

  lemma Halves(x: bv16)
    ensures x == Xor16(x & 0xFF00, x & 0xFF) && (x & 0xFF00) & 0xFF == 0 && (x & 0xFF) & 0xFF00 == 0
  {}

  lemma HighDivides(x: bv16)
    requires x & 0xFF == 0
    ensures Mix(Swapped(x)) == DividedByte(x)
  {}

  lemma LowDivides(x: bv16)
    requires x & 0xFF00 == 0
    ensures Mix(Swapped(x)) == DividedByte(x)
  {}

  // Every step is linear over exclusive or, so the two halves can be looked at by themselves.

  lemma Xor16Shuffle(a: bv16, b: bv16, c: bv16, d: bv16)
    ensures Xor16(Xor16(a, b), Xor16(c, d)) == Xor16(Xor16(a, c), Xor16(b, d))
  {
    hide Xor16;
    Xor16Associates(Xor16(a, b), c, d);
    Xor16Associates(a, b, c);
    Xor16Commutes(b, c);
    Xor16Associates(a, c, b);
    Xor16Associates(Xor16(a, c), b, d);
  }

  lemma Xor16Commutes(a: bv16, b: bv16)
    ensures Xor16(a, b) == Xor16(b, a)
  {}

  lemma Xor16Associates(a: bv16, b: bv16, c: bv16)
    ensures Xor16(a, Xor16(b, c)) == Xor16(Xor16(a, b), c)
  {}

  lemma Low8Linear(a: bv16, b: bv16)
    ensures Low8(Xor16(a, b)) == Xor16(Low8(a), Low8(b))
  {}

  lemma Down4Linear(a: bv16, b: bv16)
    ensures Down4(Xor16(a, b)) == Xor16(Down4(a), Down4(b))
  {}

  lemma Up1Linear(a: bv16, b: bv16)
    ensures Up1(Xor16(a, b)) == Xor16(Up1(a), Up1(b))
  {}

  lemma Up5Linear(a: bv16, b: bv16)
    ensures Up5(Xor16(a, b)) == Xor16(Up5(a), Up5(b))
  {}

  lemma Up12Linear(a: bv16, b: bv16)
    ensures Up12(Xor16(a, b)) == Xor16(Up12(a), Up12(b))
  {}

  lemma TopBitLinear(a: bv16, b: bv16)
    ensures TopBit(Xor16(a, b)) == Xor16(TopBit(a), TopBit(b))
  {}

  lemma SwappedLinear(a: bv16, b: bv16)
    ensures Swapped(Xor16(a, b)) == Xor16(Swapped(a), Swapped(b))
  {}

  lemma TopBitCases(c: bv16)
    ensures TopBit(c) == 0 || TopBit(c) == 0x8000
  {}

  lemma FedBackLinear(a: bv16, b: bv16)
    requires (a == 0 || a == 0x8000) && (b == 0 || b == 0x8000)
    ensures FedBack(Xor16(a, b)) == Xor16(FedBack(a), FedBack(b))
  {}

  lemma FoldLinear(a: bv16, b: bv16)
    ensures FoldLow(Xor16(a, b)) == Xor16(FoldLow(a), FoldLow(b))
    ensures FoldHigh(Xor16(a, b)) == Xor16(FoldHigh(a), FoldHigh(b))
    ensures FoldMiddle(Xor16(a, b)) == Xor16(FoldMiddle(a), FoldMiddle(b))
  {
    hide Xor16, Low8, Down4, Up5, Up12;
    Low8Linear(a, b);
    Down4Linear(Low8(a), Low8(b));
    Xor16Shuffle(a, b, Down4(Low8(a)), Down4(Low8(b)));
    Up12Linear(a, b);
    Xor16Shuffle(a, b, Up12(a), Up12(b));
    Up5Linear(Low8(a), Low8(b));
    Xor16Shuffle(a, b, Up5(Low8(a)), Up5(Low8(b)));
  }

  lemma FoldsLinear(a: bv16, b: bv16)
    ensures Mix(Swapped(Xor16(a, b))) == Xor16(Mix(Swapped(a)), Mix(Swapped(b)))
  {
    hide Swapped, FoldLow, FoldHigh, FoldMiddle, Xor16;
    SwappedLinear(a, b);
    FoldLinear(Swapped(a), Swapped(b));
    FoldLinear(FoldLow(Swapped(a)), FoldLow(Swapped(b)));
    FoldLinear(FoldHigh(FoldLow(Swapped(a))), FoldHigh(FoldLow(Swapped(b))));
  }

  lemma DividedBitLinear(a: bv16, b: bv16)
    ensures DividedBit(Xor16(a, b)) == Xor16(DividedBit(a), DividedBit(b))
  {
    hide Xor16, Up1, TopBit, FedBack;
    Up1Linear(a, b);
    TopBitLinear(a, b);
    TopBitCases(a);
    TopBitCases(b);
    FedBackLinear(TopBit(a), TopBit(b));
    Xor16Shuffle(Up1(a), Up1(b), FedBack(TopBit(a)), FedBack(TopBit(b)));
  }

  lemma DividedByteLinear(a: bv16, b: bv16)
    ensures DividedByte(Xor16(a, b)) == Xor16(DividedByte(a), DividedByte(b))
  {
    hide DividedBit, Xor16;
    var a1, b1 := DividedBit(a), DividedBit(b);
    var a2, b2 := DividedBit(a1), DividedBit(b1);
    var a3, b3 := DividedBit(a2), DividedBit(b2);
    var a4, b4 := DividedBit(a3), DividedBit(b3);
    var a5, b5 := DividedBit(a4), DividedBit(b4);
    var a6, b6 := DividedBit(a5), DividedBit(b5);
    DividedBitLinear(a, b);
    DividedBitLinear(a1, b1);
    DividedBitLinear(a2, b2);
    DividedBitLinear(a3, b3);
    DividedBitLinear(a4, b4);
    DividedBitLinear(a5, b5);
    DividedBitLinear(a6, b6);
    DividedBitLinear(DividedBit(a6), DividedBit(b6));
  }

  /** The catalogued check value: the CRC of the digits 1 to 9. */
  lemma Crc16CheckValue()
    ensures Crc16([0x31, 0x32, 0x33, 0x34, 0x35, 0x36, 0x37, 0x38, 0x39]) == 0x29B1
  {
    hide Crc16Byte;
    CheckSteps();
    var digits: seq<byte> := [0x31, 0x32, 0x33, 0x34, 0x35, 0x36, 0x37, 0x38, 0x39];
    assert digits[1..][1..] == digits[2..];
    assert digits[2..][1..] == digits[3..];
    assert digits[3..][1..] == digits[4..];
    assert digits[4..][1..] == digits[5..];
    assert digits[5..][1..] == digits[6..];
    assert digits[6..][1..] == digits[7..];
    assert digits[7..][1..] == digits[8..];
    assert digits[8..][1..] == digits[9..];
    assert Crc16From(0xFFFF, digits) == 0x29B1;
  }

  lemma CheckSteps()
    ensures Crc16Byte(0xFFFF, 0x31) == 0xC782
    ensures Crc16Byte(0xC782, 0x32) == 0x3DBA
    ensures Crc16Byte(0x3DBA, 0x33) == 0x5BCE
    ensures Crc16Byte(0x5BCE, 0x34) == 0x5349
    ensures Crc16Byte(0x5349, 0x35) == 0x4560
    ensures Crc16Byte(0x4560, 0x36) == 0x2EF4
    ensures Crc16Byte(0x2EF4, 0x37) == 0x7718
    ensures Crc16Byte(0x7718, 0x38) == 0xA12B
    ensures Crc16Byte(0xA12B, 0x39) == 0x29B1
  {}

  /** Different states stay different over the same data. */
  lemma {:induction false} Crc16Separates(c: bv16, d: bv16, data: seq<byte>)
    requires c != d
    ensures Crc16From(c, data) != Crc16From(d, data)
    decreases |data|
  {
    hide Crc16Byte;
    if data != [] {
      if Crc16Byte(c, data[0]) == Crc16Byte(d, data[0]) {
        Crc16Injective(c, d, data[0]);
      }
      Crc16Separates(Crc16Byte(c, data[0]), Crc16Byte(d, data[0]), data[1..]);
    }
  }

  /** Any change of a single byte changes the CRC. */
  lemma Crc16DetectsByte(data: seq<byte>, at: nat, b: byte)
    requires at < |data| && b != data[at]
    ensures Crc16From(0xFFFF, data[at := b]) != Crc16From(0xFFFF, data)
  {
    hide Crc16Byte;
    var before, after := data[..at], data[at + 1..];
    assert data == before + ([data[at]] + after) && data[at := b] == before + ([b] + after);
    Crc16Append(0xFFFF, before, [data[at]] + after);
    Crc16Append(0xFFFF, before, [b] + after);
    var c := Crc16From(0xFFFF, before);
    if Crc16Byte(c, data[at]) == Crc16Byte(c, b) {
      Crc16ByteInjective(c, data[at], b);
    }
    assert ([data[at]] + after)[1..] == after && ([b] + after)[1..] == after;
    Crc16Separates(Crc16Byte(c, data[at]), Crc16Byte(c, b), after);
  }

  lemma ValueInjective(c: bv16, d: bv16)
    requires c as int == d as int
    ensures c == d
  {
    assert (c as int) as bv16 == c && (d as int) as bv16 == d;
  }

  // ---- the record ---------------------------------------------------------

  predicate IsLegacy(record: seq<byte>)
    requires |record| == RECORD_LEN
  {
    Get16(record[28..30]) == U16_MAX && Get16(record[30..32]) == U16_MAX
  }

  predicate IntegrityValid(record: seq<byte>)
    requires |record| == RECORD_LEN
  {
    || IsLegacy(record)
    || (Get16(record[6..8]) == FORMAT_VERSION && Get16(record[30..32]) == U16_MAX - Get16(record[28..30])
        && Crc16(record[..PREFIX_LEN]) == Get16(record[28..30]))
  }

  /** The bytes that make a record valid: an erased seal, or the version and the CRC with its complement. */
  lemma ValidBytes(record: seq<byte>)
    requires |record| == RECORD_LEN
    ensures IntegrityValid(record) <==>
              || (forall i | 28 <= i < 32 :: record[i] == 0xFF)
              || (record[6] == 1 && record[7] == 0 && record[28] as int + record[30] as int == 0xFF
                  && record[29] as int + record[31] as int == 0xFF
                  && Crc16(record[..28]) == record[28] as int + 0x100 * record[29] as int)
  {
    hide Crc16;
  }

  /** The settings mark a valid application. */
  predicate MarksValidApp(flash: seq<byte>, settings: nat)
    requires settings + RECORD_LEN <= |flash|
  {
    var record := flash[settings..settings + RECORD_LEN];
    IntegrityValid(record) && Get16(record[..2]) == BANK_VALID_APP
  }

  /**
   * The settings do not keep the bootloader from starting what it finds: they
   * mark a valid application, or their bank marker is erased, in which case an
   * image with plausible vectors is started too.
   */
  predicate MayStart(flash: seq<byte>, settings: nat)
    requires settings + RECORD_LEN <= |flash|
  {
    MarksValidApp(flash, settings) || Get16(flash[settings..settings + 2]) == U16_MAX
  }

  class BootloaderSettings {
    var bank0: u16
    var bank0Crc: u16
    var bank1: u16
    var formatVersion: u16
    var bank0Size: u32
    var sdImageSize: u32
    var blImageSize: u32
    var appImageSize: u32
    var sdImageStart: u32
    var recordCrc: u16
    var recordCrcInv: u16

    constructor ()
      ensures bank0 == 0 && bank0Crc == 0 && bank1 == 0 && formatVersion == 0 && bank0Size == 0
      ensures sdImageSize == 0 && blImageSize == 0 && appImageSize == 0 && sdImageStart == 0 && recordCrc == 0
      ensures recordCrcInv == 0
    {
      bank0, bank0Crc, bank1, formatVersion := 0, 0, 0, 0;
      bank0Size, sdImageSize, blImageSize, appImageSize, sdImageStart := 0, 0, 0, 0, 0;
      recordCrc, recordCrcInv := 0, 0;
    }

    function Prefix(): (p: seq<byte>)
      reads this
      ensures |p| == PREFIX_LEN
    {
      Put16(bank0) + Put16(bank0Crc) + Put16(bank1) + Put16(formatVersion)
      + Put32(bank0Size) + Put32(sdImageSize) + Put32(blImageSize) + Put32(appImageSize) + Put32(sdImageStart)
    }

    /** The record as it lies in memory and in flash. */
    function Record(): (r: seq<byte>)
      reads this
      ensures |r| == RECORD_LEN
    {
      Prefix() + Put16(recordCrc) + Put16(recordCrcInv)
    }

    method Seal()
      modifies this`formatVersion, this`recordCrc, this`recordCrcInv
      ensures formatVersion == FORMAT_VERSION && recordCrc == Crc16(Prefix())
      ensures IntegrityValid(Record()) && !IsLegacy(Record())
    {
      formatVersion := FORMAT_VERSION;
      recordCrc := Crc16Compute(Prefix());
      recordCrcInv := U16_MAX - recordCrc;
      var r := Record();
      assert r[..PREFIX_LEN] == Prefix() && r[28..30] == Put16(recordCrc) && r[30..32] == Put16(recordCrcInv);
      assert r[6..8] == Put16(formatVersion);
    }
  }

  /** A sealed record with any one byte of its prefix altered is refused. */
  lemma SealDetectsByte(record: seq<byte>, at: nat, b: byte)
    requires |record| == RECORD_LEN && IntegrityValid(record) && !IsLegacy(record)
    requires at < PREFIX_LEN && b != record[at]
    ensures !IntegrityValid(record[at := b])
  {
    hide Crc16From;
    var prefix, altered := record[..PREFIX_LEN], record[at := b];
    assert altered[..PREFIX_LEN] == prefix[at := b];
    assert altered[28..30] == record[28..30] && altered[30..32] == record[30..32];
    Crc16DetectsByte(prefix, at, b);
    if Crc16(prefix[at := b]) == Crc16(prefix) {
      ValueInjective(Crc16From(0xFFFF, prefix[at := b]), Crc16From(0xFFFF, prefix));
    }
  }

  /**
   * An erased bank marker marks no valid application, whatever the rest holds; but a plausible image
   * may then be started.
   */
  lemma ErasedMarksNothing(flash: seq<byte>, settings: nat)
    requires settings + RECORD_LEN <= |flash| && flash[settings] == 0xFF && flash[settings + 1] == 0xFF
    ensures !MarksValidApp(flash, settings) && MayStart(flash, settings)
  {
    hide IntegrityValid;
    var record := flash[settings..settings + RECORD_LEN];
    assert record[..2] == [0xFF, 0xFF] && flash[settings..settings + 2] == [0xFF, 0xFF];
  }

  ghost predicate ErasedIn(flash: seq<byte>, lo: nat, hi: nat) {
    hi <= |flash| && forall i | lo <= i < hi :: flash[i] == 0xFF
  }

  /** Programs words `from` to `to - 1` of the record onto erased flash. */
  method ProgramWords(nvm: Nvm, settings: nat, record: seq<byte>, from: nat, to: nat)
    requires nvm.Valid() && |record| == RECORD_LEN && from <= to <= 8 && settings + RECORD_LEN <= |nvm.flash|
    requires ErasedIn(nvm.flash, settings + 4 * from, settings + 4 * to)
    modifies nvm
    ensures nvm.Valid() && old(nvm.trail) <= nvm.trail && |nvm.trail| == |old(nvm.trail)| + (to - from)
    ensures nvm.flash == Splice(old(nvm.flash), settings + 4 * from, record[4 * from..4 * to])
    ensures forall i | |old(nvm.trail)| <= i < |nvm.trail| ::
              SameOutside(old(nvm.flash), nvm.trail[i], settings + 4 * from, settings + 4 * to)
  {
    hide Programmed;
    ghost var w := nvm.flash;
    var k := from;
    assert record[4 * from..4 * k] == [];
    while k < to
      invariant from <= k <= to && nvm.Valid()
      invariant old(nvm.trail) <= nvm.trail && |nvm.trail| == |old(nvm.trail)| + (k - from)
      invariant nvm.flash == Splice(w, settings + 4 * from, record[4 * from..4 * k])
      invariant ErasedIn(nvm.flash, settings + 4 * k, settings + 4 * to)
      invariant forall i | |old(nvm.trail)| <= i < |nvm.trail| ::
                SameOutside(w, nvm.trail[i], settings + 4 * from, settings + 4 * to)
    {
      var word := record[4 * k..4 * (k + 1)];
      WordProgrammed(nvm.flash, settings + 4 * k, word);
      nvm.ProgramWord(settings + 4 * k, word);
      WordAppended(w, settings, record, from, k);
      k := k + 1;
    }
  }

  lemma WordProgrammed(flash: seq<byte>, at: nat, word: seq<byte>)
    requires |word| == 4 && ErasedIn(flash, at, at + 4)
    ensures Splice(flash, at, Programmed(flash[at..at + 4], word)) == Splice(flash, at, word)
  {
    var was := flash[at..at + 4];
    assert forall i | 0 <= i < 4 :: was[i] == flash[at + i];
    ProgramErased(was, word);
  }

  lemma WordAppended(w: seq<byte>, settings: nat, record: seq<byte>, from: nat, k: nat)
    requires |record| == RECORD_LEN && from <= k < 8 && settings + RECORD_LEN <= |w|
    ensures Splice(Splice(w, settings + 4 * from, record[4 * from..4 * k]), settings + 4 * k,
             record[4 * k..4 * (k + 1)])
         == Splice(w, settings + 4 * from, record[4 * from..4 * (k + 1)])
  {}

  method NewRecord(bank0: u16, crc: u16, size: u32) returns (record: seq<byte>)
    ensures |record| == RECORD_LEN && IntegrityValid(record) && !IsLegacy(record)
    ensures record[..PREFIX_LEN] == CommittedPrefix(bank0, crc, size)
  {
    hide IntegrityValid, Put16, Put32;
    var s := new BootloaderSettings();
    s.bank0 := bank0;
    s.bank0Crc := crc;
    s.bank0Size := size;
    s.bank1 := BANK_INVALID_APP;
    s.Seal();
    record := s.Record();
    assert record[..PREFIX_LEN] == s.Prefix();
  }

  /** The fields of a committed record before its seal: the bank, the image's CRC and size, and nothing else. */
  function CommittedPrefix(bank0: u16, crc: u16, size: u32): (p: seq<byte>)
    ensures |p| == PREFIX_LEN && p[..2] == Put16(bank0)
  {
    Put16(bank0) + Put16(crc) + Put16(BANK_INVALID_APP) + Put16(FORMAT_VERSION)
    + Put32(size) + Put32(0) + Put32(0) + Put32(0) + Put32(0)
  }

  /** Where each field of a committed record lies. */
  lemma CommittedLayout(bank0: u16, crc: u16, size: u32)
    ensures var p := CommittedPrefix(bank0, crc, size);
            && Get16(p[..2]) == bank0 && Get16(p[2..4]) == crc && p[4..8] == [0xFF, 0, 1, 0]
            && Get32(p[8..12]) == size && p[12..28] == Fill(16, 0)
  {
    var p := CommittedPrefix(bank0, crc, size);
    assert p[..2] == Put16(bank0) && p[2..4] == Put16(crc) && p[8..12] == Put32(size);
    assert Put32(0) == [0, 0, 0, 0];
  }

  /** Were the word with the bank marker programmed first, a power loss would leave a valid legacy record. */
  lemma BankWordFirstWouldMark(flash: seq<byte>, settings: nat)
    requires settings + RECORD_LEN <= |flash| && flash[settings..settings + 2] == Put16(BANK_VALID_APP)
    requires ErasedIn(flash, settings + 4, settings + RECORD_LEN)
    ensures MarksValidApp(flash, settings)
  {
    var record := flash[settings..settings + RECORD_LEN];
    assert record[..2] == flash[settings..settings + 2];
    assert forall i | 28 <= i < 32 :: record[i] == flash[settings + i] == 0xFF;
    assert Get16(record[..2]) == BANK_VALID_APP;
  }

  /**
   * Writes a new record: erase, words 2 to 7, word 1, and last the word that
   * holds the bank marker. No content on the way marks a valid application;
   * the final one does exactly when the bank is marked so.
   */
  method Commit(nvm: Nvm, settings: nat, bank0: u16, crc: u16, size: u32)
    requires nvm.Valid() && settings % PAGE == 0 && settings + PAGE <= |nvm.flash|
    modifies nvm
    ensures nvm.Valid() && Confined(old(nvm.trail), old(nvm.flash), nvm.trail, nvm.flash, settings, settings + PAGE)
    ensures |old(nvm.trail)| < |nvm.trail|
    ensures forall i | |old(nvm.trail)| <= i < |nvm.trail| - 1 :: !MarksValidApp(nvm.trail[i], settings)
    ensures MarksValidApp(nvm.flash, settings) <==> bank0 == BANK_VALID_APP
    ensures nvm.flash[settings..settings + PREFIX_LEN] == CommittedPrefix(bank0, crc, size)
    ensures bank0 != U16_MAX ==> (MayStart(nvm.flash, settings) <==> bank0 == BANK_VALID_APP)
  {
    hide MarksValidApp, IntegrityValid, CommittedPrefix, Put16;
    var record := NewRecord(bank0, crc, size);
    ghost var t0, w0 := nvm.trail, nvm.flash;
    nvm.ErasePage(settings);
    ghost var t1, w1 := nvm.trail, nvm.flash;
    ProgramWords(nvm, settings, record, 2, 8);
    ghost var t2, w2 := nvm.trail, nvm.flash;
    ProgramWords(nvm, settings, record, 1, 2);
    ghost var t3, w3 := nvm.trail, nvm.flash;
    ProgramWords(nvm, settings, record, 0, 1);
    CommitTrail(t0, w0, t1, w1, t2, w2, t3, w3, nvm.trail, nvm.flash, settings);
    RecordCommitted(w1, settings, record, nvm.flash);
    SliceOfSlice(nvm.flash, settings, RECORD_LEN, 0, PREFIX_LEN);
    assert record[..2] == record[..PREFIX_LEN][..2] && record[..PREFIX_LEN] == record[0..PREFIX_LEN];
    FinalMark(nvm.flash, settings, record, bank0);
  }

  lemma FinalMark(flash: seq<byte>, settings: nat, record: seq<byte>, bank0: u16)
    requires |record| == RECORD_LEN && settings + RECORD_LEN <= |flash|
    requires flash[settings..settings + RECORD_LEN] == record
    requires IntegrityValid(record) && record[..2] == Put16(bank0)
    ensures MarksValidApp(flash, settings) <==> bank0 == BANK_VALID_APP
    ensures bank0 != U16_MAX ==> (MayStart(flash, settings) <==> bank0 == BANK_VALID_APP)
  {
    hide IntegrityValid;
    assert flash[settings..settings + 2] == record[..2];
  }

  lemma RecordCommitted(w: seq<byte>, settings: nat, record: seq<byte>, flash: seq<byte>)
    requires |record| == RECORD_LEN && settings + RECORD_LEN <= |w|
    requires flash == Splice(Splice(Splice(w, settings + 8, record[8..32]), settings + 4, record[4..8]), settings,
              record[0..4])
    ensures flash[settings..settings + RECORD_LEN] == record
  {}

  lemma CommitTrail(t0: seq<seq<byte>>, w0: seq<byte>, t1: seq<seq<byte>>, w1: seq<byte>, t2: seq<seq<byte>>,
                    w2: seq<byte>,
                    t3: seq<seq<byte>>, w3: seq<byte>, t4: seq<seq<byte>>, w4: seq<byte>, settings: nat)
    requires settings + PAGE <= |w0| && w1 == Splice(w0, settings, Fill(PAGE, 0xFF)) && t1 == t0 + [w1]
    requires t1 <= t2 && |t2| == |t1| + 6
    requires forall i | |t1| <= i < |t2| :: SameOutside(w1, t2[i], settings + 8, settings + 32)
    requires t2 <= t3 && |t3| == |t2| + 1
    requires forall i | |t2| <= i < |t3| :: SameOutside(w2, t3[i], settings + 4, settings + 8)
    requires t3 <= t4 && |t4| == |t3| + 1
    requires forall i | |t3| <= i < |t4| :: SameOutside(w3, t4[i], settings, settings + 4)
    requires t2[|t2| - 1] == w2 && t3[|t3| - 1] == w3 && t4[|t4| - 1] == w4
    ensures Confined(t0, w0, t4, w4, settings, settings + PAGE)
    ensures forall i | |t0| <= i < |t4| - 1 :: !MarksValidApp(t4[i], settings)
  {
    hide MarksValidApp;
    assert SameOutside(w1, w2, settings + 8, settings + 32) && SameOutside(w2, w3, settings + 4, settings + 8);
    forall i | |t0| <= i < |t4|
      ensures SameOutside(w0, t4[i], settings, settings + PAGE)
      ensures i < |t4| - 1 ==> !MarksValidApp(t4[i], settings)
    {
      if i == |t0| {
        assert t4[i] == w1;
      } else if i < |t2| {
        assert t4[i] == t2[i];
      } else if i < |t3| {
        assert t4[i] == t3[i];
      }
      if i < |t4| - 1 {
        assert t4[i][settings] == w1[settings] && t4[i][settings + 1] == w1[settings + 1];
        ErasedMarksNothing(t4[i], settings);
      }
    }
  }
}
