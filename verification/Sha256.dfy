/**
 * SHA-256 as a running hash over a 64-byte buffer, proved against the padded
 * message of section 5.1.1 and the computation of section 6.2.2 of FIPS 180-4,
 * and the hash of a flash region that ignores a container's approval word.
 */
module Sha256 {
  import opened Bytes
  import opened Crc

  // ---- the functions of section 4.1.2, on named operations --------------------

  function Add(a: bv32, b: bv32): bv32 { a + b }
  function Rotr2_13_22(x: bv32): bv32 {
    ((x >> 2) | (x << 30)) ^ ((x >> 13) | (x << 19)) ^ ((x >> 22) | (x << 10))
  }
  function Rotr6_11_25(x: bv32): bv32 {
    ((x >> 6) | (x << 26)) ^ ((x >> 11) | (x << 21)) ^ ((x >> 25) | (x << 7))
  }
  function Sigma0(x: bv32): bv32 {
    ((x >> 7) | (x << 25)) ^ ((x >> 18) | (x << 14)) ^ (x >> 3)
  }
  function Sigma1(x: bv32): bv32 {
    ((x >> 17) | (x << 15)) ^ ((x >> 19) | (x << 13)) ^ (x >> 10)
  }
  function Ch(x: bv32, y: bv32, z: bv32): bv32 { (x & y) ^ (!x & z) }
  function Maj(x: bv32, y: bv32, z: bv32): bv32 { (x & y) ^ (x & z) ^ (y & z) }

  /** The constants, eight to a row. */
  const CONSTANTS: seq<seq<bv32>> := [
    [0x428a2f98, 0x71374491, 0xb5c0fbcf, 0xe9b5dba5, 0x3956c25b, 0x59f111f1, 0x923f82a4, 0xab1c5ed5],
    [0xd807aa98, 0x12835b01, 0x243185be, 0x550c7dc3, 0x72be5d74, 0x80deb1fe, 0x9bdc06a7, 0xc19bf174],
    [0xe49b69c1, 0xefbe4786, 0x0fc19dc6, 0x240ca1cc, 0x2de92c6f, 0x4a7484aa, 0x5cb0a9dc, 0x76f988da],
    [0x983e5152, 0xa831c66d, 0xb00327c8, 0xbf597fc7, 0xc6e00bf3, 0xd5a79147, 0x06ca6351, 0x14292967],
    [0x27b70a85, 0x2e1b2138, 0x4d2c6dfc, 0x53380d13, 0x650a7354, 0x766a0abb, 0x81c2c92e, 0x92722c85],
    [0xa2bfe8a1, 0xa81a664b, 0xc24b8b70, 0xc76c51a3, 0xd192e819, 0xd6990624, 0xf40e3585, 0x106aa070],
    [0x19a4c116, 0x1e376c08, 0x2748774c, 0x34b0bcb5, 0x391c0cb3, 0x4ed8aa4a, 0x5b9cca4f, 0x682e6ff3],
    [0x748f82ee, 0x78a5636f, 0x84c87814, 0x8cc70208, 0x90befffa, 0xa4506ceb, 0xbef9a3f7, 0xc67178f2]]

  function K(t: nat): bv32
    requires t < 64
  {
    RowsOfEight();
    CONSTANTS[t / 8][t % 8]
  }

  lemma RowsOfEight()
    ensures |CONSTANTS| == 8 && forall i | 0 <= i < 8 :: |CONSTANTS[i]| == 8
  {}

  // ---- the computation of section 6.2.2 ---------------------------------------

  datatype Words = Words(a: bv32, b: bv32, c: bv32, d: bv32, e: bv32, f: bv32, g: bv32, h: bv32)

  function Initial(): Words {
    Words(0x6a09e667, 0xbb67ae85, 0x3c6ef372, 0xa54ff53a, 0x510e527f, 0x9b05688c, 0x1f83d9ab, 0x5be0cd19)
  }

  /** Word `t` of a block, its most significant byte first. */
  function BlockWord(block: seq<byte>, t: nat): bv32
    requires |block| == 64 && t < 16
  {
    Join(Wide(block[4 * t + 3]), Wide(block[4 * t + 2]), Wide(block[4 * t + 1]), Wide(block[4 * t]))
  }

  /** The message schedule. */
  function Schedule(block: seq<byte>, t: nat): bv32
    requires |block| == 64
  {
    if t < 16 then BlockWord(block, t)
    else Extend(Schedule(block, t - 2), Schedule(block, t - 7), Schedule(block, t - 15), Schedule(block, t - 16))
  }

  function Extend(w2: bv32, w7: bv32, w15: bv32, w16: bv32): bv32 {
    Add(Add(Add(Sigma1(w2), w7), Sigma0(w15)), w16)
  }

  function Load(p: seq<byte>): bv32
    requires |p| == 4
  {
    Join(Wide(p[3]), Wide(p[2]), Wide(p[1]), Wide(p[0]))
  }

  lemma LoadIs(block: seq<byte>, i: nat)
    requires |block| == 64 && i < 16
    ensures Load(block[4 * i..4 * i + 4]) == Schedule(block, i)
  {
    hide Join, Wide, Extend;
  }

  lemma ScheduleStep(block: seq<byte>, t: nat)
    requires |block| == 64 && t >= 16
    ensures Schedule(block, t)
            == Extend(Schedule(block, t - 2), Schedule(block, t - 7), Schedule(block, t - 15), Schedule(block, t - 16))
  {
    hide Extend, BlockWord;
  }

  function Round(w: Words, k: bv32, m: bv32): Words {
    var t1 := Add(Add(Add(Add(w.h, Rotr6_11_25(w.e)), Ch(w.e, w.f, w.g)), k), m);
    var t2 := Add(Rotr2_13_22(w.a), Maj(w.a, w.b, w.c));
    Words(Add(t1, t2), w.a, w.b, w.c, Add(w.d, t1), w.e, w.f, w.g)
  }

  function Rounds(h: Words, block: seq<byte>, t: nat): Words
    requires |block| == 64 && t <= 64
  {
    if t == 0 then h else Round(Rounds(h, block, t - 1), K(t - 1), Schedule(block, t - 1))
  }

  lemma NoRounds(h: Words, block: seq<byte>)
    requires |block| == 64
    ensures Rounds(h, block, 0) == h
  {}

  lemma RoundsStep(h: Words, block: seq<byte>, t: nat)
    requires |block| == 64 && 1 <= t <= 64
    ensures Rounds(h, block, t) == Round(Rounds(h, block, t - 1), K(t - 1), Schedule(block, t - 1))
  {
    hide Round, K, Schedule;
  }

  function Sum(h: Words, w: Words): Words {
    Words(Add(h.a, w.a), Add(h.b, w.b), Add(h.c, w.c), Add(h.d, w.d), Add(h.e, w.e), Add(h.f, w.f), Add(h.g, w.g),
        Add(h.h, w.h))
  }

  function Compress(h: Words, block: seq<byte>): Words
    requires |block| == 64
  {
    Sum(h, Rounds(h, block, 64))
  }

  function HashBlocks(h: Words, p: seq<byte>): Words
    requires |p| % 64 == 0
    decreases |p|
  {
    if |p| < 64 then h else HashBlocks(Compress(h, p[..64]), p[64..])
  }

  const LENGTH_MODULUS: nat := 0x1_0000_0000_0000_0000

  /** `n` as `k` bytes, the most significant first. */
  function BigEndian(n: nat, k: nat): (p: seq<byte>)
    ensures |p| == k
  {
    if k == 0 then [] else BigEndian(n / 0x100, k - 1) + [n % 0x100]
  }

  /** Zero bytes between the marker and the length. */
  function ZeroCount(n: nat): (k: nat)
    ensures (n + 1 + k + 8) % 64 == 0 && k < 64
  {
    (119 - n % 64) % 64
  }

  /** Length in bits of `n` bytes, in a 64-bit register. */
  function Bits(n: nat): nat { 8 * n % LENGTH_MODULUS }

  lemma BitsAdd(n: nat, k: nat)
    ensures (Bits(n) + 8 * k) % LENGTH_MODULUS == Bits(n + k)
  {}

  /** The message, a marker, zeros, and the length in bits, in whole blocks. */
  function Padded(message: seq<byte>): (p: seq<byte>)
    ensures |p| % 64 == 0
  {
    message + [0x80] + Fill(ZeroCount(|message|), 0) + BigEndian(Bits(|message|), 8)
  }

  function WordBytesBig(w: bv32): (p: seq<byte>)
    ensures |p| == 4
  {
    [Low(Part(w, 3)), Low(Part(w, 2)), Low(Part(w, 1)), Low(Part(w, 0))]
  }

  function Output(h: Words): (p: seq<byte>)
    ensures |p| == 32
  {
    WordBytesBig(h.a) + WordBytesBig(h.b) + WordBytesBig(h.c) + WordBytesBig(h.d)
    + WordBytesBig(h.e) + WordBytesBig(h.f) + WordBytesBig(h.g) + WordBytesBig(h.h)
  }

  /** The digest of a whole message at once. */
  function Digest(message: seq<byte>): (p: seq<byte>)
    ensures |p| == 32
  {
    Output(HashBlocks(Initial(), Padded(message)))
  }

  lemma NoBlocks(h: Words)
    ensures HashBlocks(h, []) == h
  {}

  lemma {:induction false} HashBlocksAppend(h: Words, p: seq<byte>, block: seq<byte>)
    requires |p| % 64 == 0 && |block| == 64
    ensures HashBlocks(h, p + block) == Compress(HashBlocks(h, p), block)
    decreases |p|
  {
    hide Compress;
    if |p| < 64 {
      assert p + block == block && block[..64] == block;
      assert HashBlocks(Compress(h, block), block[64..]) == Compress(h, block);
    } else {
      assert (p + block)[..64] == p[..64] && (p + block)[64..] == p[64..] + block;
      HashBlocksAppend(Compress(h, p[..64]), p[64..], block);
    }
  }

  /** The fields of a running hash that has been fed `message`. */
  ghost predicate Fed(data: seq<byte>, datalen: nat, bitlen: nat, state: Words, message: seq<byte>) {
    && |data| == 64 && datalen < 64 && datalen <= |message| && (|message| - datalen) % 64 == 0
    && data[..datalen] == message[|message| - datalen..]
    && state == HashBlocks(Initial(), message[..|message| - datalen])
    && bitlen == Bits(|message| - datalen)
  }

  lemma FedLen(data: seq<byte>, datalen: nat, bitlen: nat, state: Words, message: seq<byte>)
    requires Fed(data, datalen, bitlen, state, message)
    ensures datalen < 64
  {
    hide HashBlocks, Initial, Bits;
  }

  lemma FedByte(data: seq<byte>, datalen: nat, bitlen: nat, state: Words, message: seq<byte>, b: byte)
    requires Fed(data, datalen, bitlen, state, message)
    ensures var data', message' := data[datalen := b], message + [b];
            if datalen < 63 then Fed(data', datalen + 1, bitlen, state, message')
            else Fed(data', 0, (bitlen + 512) % LENGTH_MODULUS, Compress(state, data'), message')
  {
    hide HashBlocks, Compress, Initial, Bits;
    var n := |message| - datalen;
    var data', message' := data[datalen := b], message + [b];
    assert message'[..n] == message[..n];
    assert data'[..datalen + 1] == message'[n..];
    if datalen == 63 {
      assert data' == data'[..64] && message' == message[..n] + data';
      assert message'[..|message'|] == message';
      HashBlocksAppend(Initial(), message[..n], data');
      BitsAdd(n, 64);
    }
  }

  // ---- the running hash -------------------------------------------------------

  class Context {
    const data: array<byte>
    var datalen: nat
    var bitlen: nat
    var state: Words
    /** Everything hashed so far. */
    ghost var message: seq<byte>

    ghost predicate Valid()
      reads this, data
    {
      data.Length == 64 && Fed(data[..], datalen, bitlen, state, message)
    }

    constructor ()
      ensures Valid() && message == [] && fresh(data)
    {
      hide Initial, Compress, HashBlocks;
      data := new byte[64](i => 0);
      datalen, bitlen := 0, 0;
      state := Initial();
      message := [];
      new;
      NoBlocks(Initial());
    }

    /** One block through the compression function. */
    method Transform()
      requires data.Length == 64
      modifies this`state
      ensures state == Compress(old(state), data[..])
    {
      hide Schedule, Rounds, Round, K, Sum, Load;
      ghost var block, h := data[..], state;
      var m := new bv32[64];
      for i := 0 to 16
        invariant fresh(m) && state == h && forall k | 0 <= k < i :: m[k] == Schedule(block, k)
      {
        var j := 4 * i;
        LoadIs(block, i);
        m[i] := Load(data[j..j + 4]);
      }
      for i := 16 to 64
        invariant fresh(m) && state == h && forall k | 0 <= k < i :: m[k] == Schedule(block, k)
      {
        ScheduleStep(block, i);
        m[i] := Extend(m[i - 2], m[i - 7], m[i - 15], m[i - 16]);
      }
      var w := state;
      NoRounds(h, block);
      for i := 0 to 64
        invariant state == h && w == Rounds(h, block, i)
        invariant forall k | 0 <= k < 64 :: m[k] == Schedule(block, k)
      {
        RoundsStep(h, block, i + 1);
        w := Step(w, K(i), m[i]);
      }
      state := Sum(state, w);
    }

    /** One round, assignment by assignment. */
    method Step(w: Words, k: bv32, mi: bv32) returns (r: Words)
      ensures r == Round(w, k, mi)
    {
      hide Add, Ch, Maj, Rotr2_13_22, Rotr6_11_25;
      var a, b, c, d, e, f, g, h := w.a, w.b, w.c, w.d, w.e, w.f, w.g, w.h;
      var t1 := Add(Add(Add(Add(h, Rotr6_11_25(e)), Ch(e, f, g)), k), mi);
      var t2 := Add(Rotr2_13_22(a), Maj(a, b, c));
      h := g;
      g := f;
      f := e;
      e := Add(d, t1);
      d := c;
      c := b;
      b := a;
      a := Add(t1, t2);
      r := Words(a, b, c, d, e, f, g, h);
    }

    /** Feeds bytes in, one at a time; a full buffer is compressed at once. */
    method Update(bytes: seq<byte>)
      requires Valid()
      modifies this, data
      ensures Valid() && message == old(message) + bytes
    {
      hide Fed;
      ghost var before := message;
      assert bytes[..0] == [];
      for i := 0 to |bytes|
        invariant Valid() && message == before + bytes[..i]
      {
        assert before + bytes[..i] + [bytes[i]] == before + bytes[..i + 1];
        Feed(bytes[i]);
      }
      assert bytes[..|bytes|] == bytes;
    }

    method Feed(b: byte)
      requires Valid()
      modifies this, data
      ensures Valid() && message == old(message) + [b]
    {
      hide Fed, Compress;
      FedLen(data[..], datalen, bitlen, state, message);
      FedByte(data[..], datalen, bitlen, state, message, b);
      ghost var before := data[..];
      data[datalen] := b;
      assert data[..] == before[datalen := b];
      datalen := datalen + 1;
      message := message + [b];
      if datalen == 64 {
        Transform();
        bitlen := (bitlen + 512) % LENGTH_MODULUS;
        datalen := 0;
      }
    }

    /** Pads, compresses what is left, and gives the digest of the whole message. */
    method Final(out: array<byte>)
      requires Valid() && out.Length == 32 && out != data
      modifies this, data, out
      ensures out[..] == Digest(old(message))
    {
      hide Fed, Compress, Output, Initial, Padded, HashBlocks, BigEndian, Bits;
      FedLen(data[..], datalen, bitlen, state, message);
      ghost var tail := data[..datalen];
      FedDigest(data[..], datalen, bitlen, state, message);
      var i := datalen;
      data[i] := 0x80;
      i := i + 1;
      assert data[..i] == tail + [0x80];
      if i > 56 {
        Clear(i, 64);
        assert data[..] == tail + [0x80] + Fill(64 - i, 0);
        Transform();
        i := 0;
      }
      Clear(i, 56);
      assert data[..56] == if datalen < 56 then tail + [0x80] + Fill(55 - datalen, 0) else Fill(56, 0);
      ghost var head := data[..56];
      bitlen := (bitlen + datalen * 8) % LENGTH_MODULUS;
      StoreLength(bitlen);
      assert data[..] == head + BigEndian(bitlen, 8);
      Transform();
      WriteOutput(out);
    }

    method Clear(from: nat, to: nat)
      requires data.Length == 64 && from <= 64 && to <= 64
      modifies data
      ensures forall k | 0 <= k < 64 :: data[k] == if from <= k < to then 0 else old(data[k])
    {
      forall k | from <= k < to {
        data[k] := 0;
      }
    }

    /** Writes the length from the last byte down. */
    method StoreLength(bits: nat)
      requires data.Length == 64
      modifies data
      ensures data[..56] == old(data[..56]) && data[56..] == BigEndian(bits, 8)
    {
      var n := bits;
      for k := 0 to 8
        invariant data[..56] == old(data[..56])
        invariant BigEndian(bits, 8) == BigEndian(n, 8 - k) + data[64 - k..]
      {
        ghost var rest := data[64 - k..];
        data[63 - k] := n % 0x100;
        assert data[63 - k..] == [n % 0x100] + rest;
        assert BigEndian(n / 0x100, 7 - k) + [n % 0x100] + rest == BigEndian(n / 0x100, 7 - k) + ([n % 0x100] + rest);
        n := n / 0x100;
      }
      assert [] + data[56..] == data[56..];
    }

    method WriteOutput(out: array<byte>)
      requires out.Length == 32 && out != data
      modifies out
      ensures out[..] == Output(state)
    {
      hide Low, Part;
      for i := 0 to 32
        invariant forall j | 0 <= j < i :: out[j] == Output(state)[j]
      {
        OutputAt(state, i);
        out[i] := Low(Part(Nth(state, i / 4), 3 - i % 4));
      }
    }
  }

  function Nth(h: Words, i: nat): bv32
    requires i < 8
  {
    match i
    case 0 => h.a case 1 => h.b case 2 => h.c case 3 => h.d
    case 4 => h.e case 5 => h.f case 6 => h.g case _ => h.h
  }

  lemma OutputAt(h: Words, i: nat)
    requires i < 32
    ensures Output(h)[i] == Low(Part(Nth(h, i / 4), 3 - i % 4))
  {
    hide Output, Nth, Low, Part;
    OutputWords(h, i / 4);
    assert Output(h)[4 * (i / 4)..4 * (i / 4) + 4][i % 4] == Output(h)[i];
  }

  function FourWords(a: bv32, b: bv32, c: bv32, d: bv32): (p: seq<byte>)
    ensures |p| == 16
  {
    WordBytesBig(a) + WordBytesBig(b) + WordBytesBig(c) + WordBytesBig(d)
  }

  lemma OutputHalves(h: Words)
    ensures Output(h) == FourWords(h.a, h.b, h.c, h.d) + FourWords(h.e, h.f, h.g, h.h)
  {
    hide WordBytesBig;
  }

  lemma OutputWords(h: Words, k: nat)
    requires k < 8
    ensures Output(h)[4 * k..4 * k + 4] == WordBytesBig(Nth(h, k))
  {
    hide Output, WordBytesBig, FourWords;
    OutputHalves(h);
    var low, high := FourWords(h.a, h.b, h.c, h.d), FourWords(h.e, h.f, h.g, h.h);
    if k < 4 {
      FourPieces(h.a, h.b, h.c, h.d, k);
      HalfPiece(low, high, 4 * k);
    } else {
      FourPieces(h.e, h.f, h.g, h.h, k - 4);
      HalfPiece(low, high, 4 * (k - 4));
    }
  }

  lemma HalfPiece(low: seq<byte>, high: seq<byte>, n: nat)
    requires |low| == |high| == 16 && n + 4 <= 16
    ensures (low + high)[n..n + 4] == low[n..n + 4] && (low + high)[16 + n..16 + n + 4] == high[n..n + 4]
  {
  }

  lemma FourPieces(a: bv32, b: bv32, c: bv32, d: bv32, k: nat)
    requires k < 4
    ensures FourWords(a, b, c, d)[4 * k..4 * k + 4]
             == WordBytesBig(match k case 0 => a case 1 => b case 2 => c case _ => d)
  {
    hide WordBytesBig;
  }

  /** The padded message in whole blocks: those already compressed, then the last one or two. */
  lemma PaddedBlocks(message: seq<byte>, full: seq<byte>, tail: seq<byte>)
    requires message == full + tail && |full| % 64 == 0 && |tail| < 64
    ensures var length := BigEndian(Bits(|message|), 8);
            var h := HashBlocks(Initial(), full);
            HashBlocks(Initial(), Padded(message)) ==
            if |tail| < 56 then Compress(h, tail + [0x80] + Fill(55 - |tail|, 0) + length)
            else Compress(Compress(h, tail + [0x80] + Fill(63 - |tail|, 0)), Fill(56, 0) + length)
  {
    hide HashBlocks, Compress, Initial, BigEndian, Padded, Bits;
    var length := BigEndian(Bits(|message|), 8);
    PaddedParts(message, full, tail);
    if |tail| < 56 {
      HashBlocksAppend(Initial(), full, tail + [0x80] + Fill(55 - |tail|, 0) + length);
    } else {
      TwoBlocks(full, tail + [0x80] + Fill(63 - |tail|, 0), Fill(56, 0) + length);
    }
  }

  lemma TwoBlocks(full: seq<byte>, block: seq<byte>, last: seq<byte>)
    requires |full| % 64 == 0 && |block| == 64 && |last| == 64
    ensures HashBlocks(Initial(), full + block + last) == Compress(Compress(HashBlocks(Initial(), full), block), last)
  {
    hide HashBlocks, Compress, Initial;
    HashBlocksAppend(Initial(), full, block);
    HashBlocksAppend(Initial(), full + block, last);
  }

  lemma PaddedParts(message: seq<byte>, full: seq<byte>, tail: seq<byte>)
    requires message == full + tail && |full| % 64 == 0 && |tail| < 64
    ensures var length := BigEndian(Bits(|message|), 8);
            Padded(message) == if |tail| < 56 then full + (tail + [0x80] + Fill(55 - |tail|, 0) + length)
                               else full + (tail + [0x80] + Fill(63 - |tail|, 0)) + (Fill(56, 0) + length)
  {
    hide BigEndian, Bits, ZeroCount;
    var n := ZeroCount(|message|);
    var length := BigEndian(Bits(|message|), 8);
    ZerosAfter(full, tail);
    if |tail| >= 56 {
      var zeros := Fill(63 - |tail|, 0);
      assert Fill(n, 0) == zeros + Fill(56, 0);
      assert full + tail + [0x80] + (zeros + Fill(56, 0)) + length
          == full + (tail + [0x80] + zeros) + (Fill(56, 0) + length);
    } else {
      var zeros := Fill(55 - |tail|, 0);
      assert full + tail + [0x80] + zeros + length == full + (tail + [0x80] + zeros + length);
    }
  }

  lemma ZerosAfter(full: seq<byte>, tail: seq<byte>)
    requires |full| % 64 == 0 && |tail| < 64
    ensures ZeroCount(|full + tail|) == if |tail| < 56 then 55 - |tail| else 119 - |tail|
  {
    assert |full + tail| % 64 == |tail|;
  }

  /** The digest of what has been fed, by way of the last one or two blocks. */
  lemma FedDigest(data: seq<byte>, datalen: nat, bitlen: nat, state: Words, message: seq<byte>)
    requires Fed(data, datalen, bitlen, state, message)
    ensures var tail, length := data[..datalen], BigEndian((bitlen + datalen * 8) % LENGTH_MODULUS, 8);
            Digest(message) == Output(
              if datalen < 56 then Compress(state, tail + [0x80] + Fill(55 - datalen, 0) + length)
              else Compress(Compress(state, tail + [0x80] + Fill(63 - datalen, 0)), Fill(56, 0) + length))
  {
    hide HashBlocks, Compress, Initial, Output, BigEndian, Bits, Padded;
    var n := |message| - datalen;
    assert message == message[..n] + message[n..];
    PaddedBlocks(message, message[..n], message[n..]);
    BitsAdd(n, datalen);
  }

  // ---- the hash of a region ---------------------------------------------------

  const NO_APPROVAL: u32 := U32_MAX
  const PIECE: nat := 256

  /** A piece of the region starts at this address. */
  predicate InPieces(at: nat, addr: nat, len: nat) {
    addr <= at < addr + len && (at - addr) % PIECE == 0
  }

  /** The pieces before the one at `at`, which is where the next piece starts, can be read. */
  predicate ReadUpTo(readable: nat -> bool, at: nat, addr: nat, len: nat) {
    && addr <= at <= addr + len && (at < addr + len ==> (at - addr) % PIECE == 0)
    && forall k: nat | InPieces(k, addr, len) && k < at :: readable(k)
  }

  lemma NothingReadYet(readable: nat -> bool, addr: nat, len: nat)
    ensures ReadUpTo(readable, addr, addr, len)
  {}

  lemma AllReadable(readable: nat -> bool, addr: nat, len: nat)
    requires ReadUpTo(readable, addr + len, addr, len)
    ensures forall k: nat | InPieces(k, addr, len) :: readable(k)
  {}

  lemma OnePiece(readable: nat -> bool, at: nat, addr: nat, len: nat)
    requires ReadUpTo(readable, at, addr, len) && at < addr + len
    ensures InPieces(at, addr, len)
    ensures readable(at) ==> ReadUpTo(readable, Min(at + PIECE, addr + len), addr, len)
  {
    forall k: nat | InPieces(k, addr, len) && k < at + PIECE ensures k <= at {
      MultiplesApart(k - addr, at - addr);
    }
  }

  lemma MultiplesApart(a: int, b: int)
    requires a % PIECE == 0 && b % PIECE == 0 && a < b + PIECE
    ensures a <= b
  {}

  /** The region's bytes, those of the approval word read as zero. */
  function Normalised(store: seq<byte>, addr: nat, len: nat, approval: u32): (r: seq<byte>)
    requires addr + len <= |store|
    ensures |r| == len
  {
    seq(len, i requires 0 <= i < len =>
      if approval != NO_APPROVAL && approval <= addr + i < approval + 4 then 0 else store[addr + i])
  }

  /**
   * Hashes a region in pieces of 256 bytes, wherever the approval word falls
   * across their edges. Of a staged region `readable` says which pieces, by
   * their address, can be read.
   */
  method HashRegion(store: seq<byte>, addr: u32, len: u32, staged: bool, approval: u32, readable: nat -> bool)
    returns (ok: bool, digest: seq<byte>)
    requires addr + len <= |store| <= U32_MAX && (approval != NO_APPROVAL ==> approval + 4 <= U32_MAX)
    ensures ok ==> digest == Digest(Normalised(store, addr, len, approval))
    ensures ok <==> !staged || forall at: nat | InPieces(at, addr, len) :: readable(at)
  {
    hide Digest, Normalised, InPieces, ReadUpTo, Context.Valid;
    if staged {
      NothingReadYet(readable, addr, len);
    }
    var c := new Context();
    var at: nat, rest: nat := addr, len;
    ghost var done := 0;
    ghost var whole := Normalised(store, addr, len, approval);
    assert whole[..0] == [];
    while rest > 0
      invariant fresh(c) && fresh(c.data) && c.Valid() && rest + done == len && at == addr + done
      invariant c.message == whole[..done]
      invariant staged ==> ReadUpTo(readable, at, addr, len)
      decreases rest
    {
      var n := if rest < PIECE then rest else PIECE;
      if staged && !readable(at) {
        OnePiece(readable, at, addr, len);
        return false, [];
      }
      if staged {
        OnePiece(readable, at, addr, len);
      }
      var buf := Piece(store, at, n, approval);
      SameBytes(store, addr, len, approval, done, n);
      c.Update(buf);
      at := at + n;
      done := done + n;
      rest := rest - n;
    }
    assert whole[..len] == whole;
    if staged {
      AllReadable(readable, addr, len);
    }
    var out := new byte[32];
    c.Final(out);
    return true, out[..];
  }

  lemma SameBytes(store: seq<byte>, addr: nat, len: nat, approval: u32, done: nat, n: nat)
    requires addr + len <= |store| && done + n <= len
    ensures var whole := Normalised(store, addr, len, approval);
            whole[..done] + Normalised(store, addr + done, n, approval) == whole[..done + n]
  {}

  /** One piece, with the part of the approval word that lies in it cleared. */
  method Piece(store: seq<byte>, at: u32, n: nat, approval: u32) returns (piece: seq<byte>)
    requires n <= 256 && at + n <= |store| <= U32_MAX && (approval != NO_APPROVAL ==> approval + 4 <= U32_MAX)
    ensures piece == Normalised(store, at, n, approval)
  {
    var buf := new byte[256](i => 0);
    forall i | 0 <= i < n {
      buf[i] := store[at + i];
    }
    if approval != NO_APPROVAL {
      var approvalEnd := Wrap32(approval + 4);
      var chunkEnd := at + n;
      var overlapStart := if at > approval then at else approval;
      var overlapEnd := if chunkEnd < approvalEnd then chunkEnd else approvalEnd;
      if overlapStart < overlapEnd {
        forall i | overlapStart - at <= i < overlapEnd - at {
          buf[i] := 0;
        }
      }
    }
    piece := buf[..n];
  }
}
