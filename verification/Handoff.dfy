/**
 * The retained record that hands a container split between flash and RAM to
 * the bootloader: 72 bytes, the last eight of them their own CRC-32 and its
 * inverse.
 */
module Handoff {
  import opened Bytes
  import opened Flash
  import opened Crc
  import opened Container

  const HANDOFF_LEN: nat := 72
  const CRC_AT: nat := 64
  const HANDOFF_MAGIC: seq<byte> := [0x4D, 0x4F, 0x54, 0x41, 0x48, 0x59, 0x42, 0x31]
  const HANDOFF_VERSION: u16 := 1
  const PURPOSE_APP: byte := 1
  const CONTAINER_FORMAT: byte := 2
  const ARENA_SIZE: nat := 0x10000

  /** What the record says of the container: its length, and where its two parts are. */
  datatype Fields = Fields(total: u32, flashStart: u32, flashLen: u32, ramLen: u32, sha256: seq<byte>)

  /** The lengths of the two parts make up the total, and the second fits the arena. */
  predicate Consistent(f: Fields) {
    && |f.sha256| == 32 && f.flashLen != 0 && 0 < f.ramLen <= 0x1_0000
    && f.flashLen + f.ramLen == f.total
  }

  function Body(f: Fields): seq<byte> {
    HANDOFF_MAGIC + Put16(HANDOFF_VERSION) + Put16(HANDOFF_LEN) + [PURPOSE_APP, CONTAINER_FORMAT] + Put16(0)
    + Put32(f.total) + Put32(f.flashStart) + Put32(f.flashLen) + Put32(f.ramLen) + f.sha256
  }

  function FieldsOf(r: seq<byte>): Fields
    requires |r| == HANDOFF_LEN
  {
    Fields(Get32(r[16..20]), Get32(r[20..24]), Get32(r[24..28]), Get32(r[28..32]), r[32..64])
  }

  /** The check of the record's envelope, branch by branch. */
  predicate Valid(r: seq<byte>)
    requires |r| == HANDOFF_LEN
  {
    var flashLen, ramLen := Get32(r[24..28]), Get32(r[28..32]);
    && !(r[..8] != HANDOFF_MAGIC
         || Get16(r[8..10]) != HANDOFF_VERSION || Get16(r[10..12]) != HANDOFF_LEN
         || r[12] != PURPOSE_APP || r[13] != CONTAINER_FORMAT
         || Get16(r[14..16]) != 0 || flashLen == 0 || ramLen == 0
         || ramLen > ARENA_SIZE || flashLen > U32_MAX - ramLen
         || Get32(r[16..20]) != flashLen + ramLen)
    && Crc32(r[..CRC_AT]) == Word(r[CRC_AT..68]) && Word(r[68..]) == Inv(Crc32(r[..CRC_AT]))
  }

  /** Zeroes the record, stores its fields in place and seals it. */
  method Encode(out: array<byte>, f: Fields)
    requires out.Length == HANDOFF_LEN && |f.sha256| == 32
    modifies out
    ensures out[..] == Seal(Body(f))
  {
    hide Put32, Put16, Update, WordBytes, Body, Inv;
    Clear(out);
    StoreHead(out);
    StoreFields(out, f);
    var crc := Crc32Update(0, out[..CRC_AT]);
    Store(out, CRC_AT, WordBytes(crc));
    Store(out, 68, WordBytes(Inv(crc)));
    assert out[..] == out[..72];
  }

  method StoreHead(out: array<byte>)
    requires out.Length == HANDOFF_LEN && out[..] == Fill(HANDOFF_LEN, 0)
    modifies out
    ensures out[..16] == HANDOFF_MAGIC + Put16(HANDOFF_VERSION) + Put16(HANDOFF_LEN) + [PURPOSE_APP, CONTAINER_FORMAT]
             + Put16(0)
  {
    assert out[14..] == Fill(58, 0);
    assert [out[14], out[15]] == Put16(0);
    hide Put16;
    Store(out, 0, HANDOFF_MAGIC);
    Store(out, 8, Put16(HANDOFF_VERSION));
    Store(out, 10, Put16(HANDOFF_LEN));
    Store(out, 12, [PURPOSE_APP]);
    Store(out, 13, [CONTAINER_FORMAT]);
    assert [PURPOSE_APP] + [CONTAINER_FORMAT] == [PURPOSE_APP, CONTAINER_FORMAT];
    assert out[..16] == out[..14] + [out[14], out[15]];
  }

  method StoreFields(out: array<byte>, f: Fields)
    requires out.Length == HANDOFF_LEN && |f.sha256| == 32
    requires out[..16] == HANDOFF_MAGIC + Put16(HANDOFF_VERSION) + Put16(HANDOFF_LEN) + [PURPOSE_APP,
              CONTAINER_FORMAT] + Put16(0)
    modifies out
    ensures out[..CRC_AT] == Body(f)
  {
    hide Put32, Put16;
    Store(out, 16, Put32(f.total));
    Store(out, 20, Put32(f.flashStart));
    Store(out, 24, Put32(f.flashLen));
    Store(out, 28, Put32(f.ramLen));
    Store(out, 32, f.sha256);
  }

  method Clear(out: array<byte>)
    modifies out
    ensures out[..] == Fill(out.Length, 0)
  {
    for i := 0 to out.Length
      invariant forall j | 0 <= j < i :: out[j] == 0
    {
      out[i] := 0;
    }
  }

  /** Copies `bytes` into the record at `at`. */
  method Store(out: array<byte>, at: nat, bytes: seq<byte>)
    requires at + |bytes| <= out.Length
    modifies out
    ensures out[..at + |bytes|] == old(out[..at]) + bytes
    ensures forall i | at + |bytes| <= i < out.Length :: out[i] == old(out[i])
  {
    forall i | 0 <= i < |bytes| {
      out[at + i] := bytes[i];
    }
  }

  lemma BodyFields(f: Fields)
    requires |f.sha256| == 32
    ensures var b := Body(f);
            && |b| == CRC_AT && b[..8] == HANDOFF_MAGIC && b[8..10] == Put16(HANDOFF_VERSION)
            && b[10..12] == Put16(HANDOFF_LEN)
            && b[12] == PURPOSE_APP && b[13] == CONTAINER_FORMAT && b[14..16] == Put16(0)
            && b[16..20] == Put32(f.total) && b[20..24] == Put32(f.flashStart)
            && b[24..28] == Put32(f.flashLen) && b[28..32] == Put32(f.ramLen) && b[32..] == f.sha256
  {
    hide Put32, Put16;
  }

  /** Encoding any consistent geometry is accepted, and read back unchanged. */
  lemma EncodedIsValid(f: Fields)
    requires Consistent(f)
    ensures var r := Seal(Body(f)); |r| == HANDOFF_LEN && Valid(r) && FieldsOf(r) == f
  {
    hide Body, Sealed, Seal, Valid;
    BodyFields(f);
    SealIsSealed(Body(f));
    SealedIsValid(Seal(Body(f)), f);
  }

  /** Where each field of a record lies. */
  lemma RecordLayout(f: Fields)
    requires |f.sha256| == 32
    ensures var b := Body(f);
            && |b| == 64 && b[..8] == [0x4D, 0x4F, 0x54, 0x41, 0x48, 0x59, 0x42, 0x31]
            && b[8..16] == [1, 0, 72, 0, 1, 2, 0, 0]
            && Get32(b[16..20]) == f.total && Get32(b[20..24]) == f.flashStart && Get32(b[24..28]) == f.flashLen
            && Get32(b[28..32]) == f.ramLen && b[32..] == f.sha256
  {
    BodyFields(f);
    HeadBytes(f);
    hide Get32, Put32, Body;
  }

  lemma HeadBytes(f: Fields)
    requires |f.sha256| == 32
    ensures |Body(f)| == 64 && Body(f)[8..16] == [1, 0, 72, 0, 1, 2, 0, 0]
  {
    hide Put32;
  }

  lemma SealedIsValid(r: seq<byte>, f: Fields)
    requires Consistent(f) && |r| == HANDOFF_LEN && Sealed(r)
    requires var b := r[..CRC_AT];
             && b[..8] == HANDOFF_MAGIC && b[8..10] == Put16(HANDOFF_VERSION) && b[10..12] == Put16(HANDOFF_LEN)
             && b[12] == PURPOSE_APP && b[13] == CONTAINER_FORMAT && b[14..16] == Put16(0)
             && b[16..20] == Put32(f.total) && b[20..24] == Put32(f.flashStart)
             && b[24..28] == Put32(f.flashLen) && b[28..32] == Put32(f.ramLen) && b[32..] == f.sha256
    ensures Valid(r) && FieldsOf(r) == f
  {
    hide Get32, Get16, Put16, Crc32, Word, Inv;
    HeadInBody(r);
  }

  lemma HeadInBody(r: seq<byte>)
    requires |r| == HANDOFF_LEN
    ensures var b := r[..CRC_AT];
            && b[..8] == r[..8] && b[8..10] == r[8..10] && b[10..12] == r[10..12] && b[14..16] == r[14..16]
            && b[16..20] == r[16..20] && b[20..24] == r[20..24] && b[24..28] == r[24..28] && b[28..32] == r[28..32]
            && b[32..] == r[32..64] && b[12] == r[12] && b[13] == r[13]
  {}

  lemma ValidIsSealed(r: seq<byte>)
    requires |r| == HANDOFF_LEN && Valid(r)
    ensures Sealed(r) && Consistent(FieldsOf(r))
  {
    hide Get32, Crc32, Word, Inv;
  }

  /** Nothing but the encoding of a consistent geometry is accepted. */
  lemma ValidIsEncoded(r: seq<byte>)
    requires |r| == HANDOFF_LEN && Valid(r)
    ensures Consistent(FieldsOf(r)) && r == Seal(Body(FieldsOf(r)))
  {
    hide Valid, Sealed, Body, Seal;
    ValidIsSealed(r);
    ValidBody(r);
    SealedIsSeal(r);
  }

  lemma ValidBody(r: seq<byte>)
    requires |r| == HANDOFF_LEN && Valid(r)
    ensures r[..CRC_AT] == Body(FieldsOf(r))
  {
    hide Get32, Put32, Crc32, Word, Inv;
    var f := FieldsOf(r);
    PutGet32(r[16..20]);
    PutGet32(r[20..24]);
    PutGet32(r[24..28]);
    PutGet32(r[28..32]);
    assert r[8..10] == Put16(HANDOFF_VERSION) && r[10..12] == Put16(HANDOFF_LEN) && r[14..16] == Put16(0);
    assert r[..CRC_AT] == r[..8] + r[8..10] + r[10..12] + [r[12], r[13]] + r[14..16]
                          + r[16..20] + r[20..24] + r[24..28] + r[28..32] + r[32..64];
  }

  /** An accepted record altered anywhere within four consecutive bytes is rejected. */
  lemma RejectsWindow(r: seq<byte>, altered: seq<byte>, at: nat)
    requires |r| == HANDOFF_LEN && |altered| == HANDOFF_LEN && Valid(r)
    requires DifferOnlyIn(r, altered, at, at + 4) && altered != r
    ensures !Valid(altered)
  {
    hide Valid, Sealed;
    ValidIsSealed(r);
    if Valid(altered) {
      ValidIsSealed(altered);
      SealedDetectsWindow(r, altered, at);
    }
  }

  // ---- the bootloader's own conditions -------------------------------------

  const RESET_SOFTWARE: u32 := 4

  /** The shortest prefix in whole pages, and at least one of them, that leaves no more than an arena. */
  predicate LeastPrefix(n: nat, total: nat) {
    && n % PAGE == 0 && n >= PAGE && total <= n + 0x1_0000
    && forall k: nat | k % PAGE == 0 && k >= PAGE && total <= k + 0x1_0000 :: n <= k
  }

  ghost predicate Acceptable(r: seq<byte>, resetReason: u32)
    requires |r| == HANDOFF_LEN
  {
    var f := FieldsOf(r);
    && Valid(r) && resetReason == 4
    && f.flashStart % PAGE == 0 && APP_BASE <= f.flashStart && f.flashStart + f.flashLen == CEILING_EXPANDED
    && MIN_LEN <= f.total && LeastPrefix(f.flashLen, f.total)
  }

  /** A word of an address or a length, as the C masks it down to a page. */
  function PageMask(n: u32): u32 { n - n % PAGE }

  lemma PrefixRequired(total: u32)
    requires total + PAGE <= U32_MAX
    ensures var n := if total > ARENA_SIZE + PAGE then PageMask(Wrap32(total - ARENA_SIZE + PAGE - 1)) else PAGE;
            forall k: nat :: LeastPrefix(k, total) <==> k == n
  {
    var n := if total > ARENA_SIZE + PAGE then PageMask(Wrap32(total - ARENA_SIZE + PAGE - 1)) else PAGE;
    assert LeastPrefix(n, total);
  }

  /** The source of a hybrid container: a record taken over, flash, and the retained arena. */
  class Hybrid {
    const flash: seq<byte>
    const arena: seq<byte>
    /** The retained record, erased when it is taken. */
    var retained: seq<byte>
    var fields: Fields

    ghost predicate Ready()
      reads this
    {
      && |flash| == 0x100000 && |arena| == ARENA_SIZE && |retained| == HANDOFF_LEN
      && (fields.total != 0 ==>
            Consistent(fields) && fields.flashStart + fields.flashLen == CEILING_EXPANDED)
    }

    /** The container as one flat sequence of bytes. */
    function Contents(): (c: seq<byte>)
      requires Ready() && fields.total != 0
      reads this
      ensures |c| == fields.total
    {
      flash[fields.flashStart..fields.flashStart + fields.flashLen] + arena[..fields.ramLen]
    }

    constructor (f: seq<byte>, a: seq<byte>, r: seq<byte>)
      requires |f| == 0x100000 && |a| == ARENA_SIZE && |r| == HANDOFF_LEN
      ensures Ready() && flash == f && arena == a && retained == r && fields.total == 0
    {
      flash, arena, retained := f, a, r;
      fields := Fields(0, 0, 0, 0, Fill(32, 0));
    }

    /** Copies and erases the retained record before looking at it; the request is one-shot. */
    method Take(resetReason: u32) returns (ok: bool)
      requires Ready()
      modifies this
      ensures Ready() && retained == Fill(HANDOFF_LEN, 0)
      ensures ok <==> Acceptable(old(retained), resetReason)
      ensures ok ==> fields == FieldsOf(old(retained)) && fields.total != 0
      ensures !ok ==> fields.total == 0
    {
      hide Valid, LeastPrefix, PageMask;
      var r := retained;
      retained := Fill(HANDOFF_LEN, 0);
      fields := FieldsOf(r);
      if Valid(r) {
        ValidIsSealed(r);
      }
      if resetReason != RESET_SOFTWARE || !Valid(r) || fields.flashStart % PAGE != 0 || fields.flashLen % PAGE != 0
         || fields.flashStart < APP_BASE || fields.flashStart > U32_MAX - fields.flashLen {
        NotWholePages(fields.flashLen, fields.total);
        fields := fields.(total := 0);
        return false;
      }
      var flashEnd := fields.flashStart + fields.flashLen;
      if flashEnd != CEILING_EXPANDED || fields.total < MIN_LEN || fields.flashStart > U32_MAX - fields.total {
        fields := fields.(total := 0);
        return false;
      }
      var required := PAGE;
      if fields.total > ARENA_SIZE + PAGE {
        required := PageMask(Wrap32(fields.total - ARENA_SIZE + PAGE - 1));
      }
      PrefixRequired(fields.total);
      if fields.flashLen != required {
        fields := fields.(total := 0);
        return false;
      }
      return true;
    }

    lemma NotWholePages(n: nat, total: nat)
      ensures LeastPrefix(n, total) ==> n % PAGE == 0
    {}

    method RamRead(offset: u32, len: u32) returns (ok: bool, data: seq<byte>)
      requires |arena| == ARENA_SIZE
      ensures ok <==> offset + len <= ARENA_SIZE
      ensures ok ==> data == arena[offset..offset + len]
    {
      if offset > ARENA_SIZE || len > ARENA_SIZE - offset {
        return false, [];
      }
      return true, arena[offset..offset + len];
    }

    /** Reads across the seam between flash and RAM as from the one container. */
    method Read(address: u32, len: u32) returns (ok: bool, data: seq<byte>)
      requires Ready()
      ensures ok <==>
                && fields.total != 0 && fields.flashStart <= address
                && address + len <= fields.flashStart + fields.total
      ensures ok ==> data == Contents()[address - fields.flashStart..address - fields.flashStart + len]
    {
      if fields.total == 0 || address < fields.flashStart {
        return false, [];
      }
      var offset := address - fields.flashStart;
      if offset > fields.total || len > fields.total - offset {
        return false, [];
      }
      AcrossSeam(flash, arena, fields, offset, len);
      var rest := len;
      data := [];
      if offset < fields.flashLen {
        var chunk := fields.flashLen - offset;
        if chunk > rest {
          chunk := rest;
        }
        data := flash[address..address + chunk];
        offset := offset + chunk;
        rest := rest - chunk;
      }
      ok := true;
      if rest != 0 {
        var tail;
        ok, tail := RamRead(offset - fields.flashLen, rest);
        data := data + tail;
      }
    }
  }

  lemma AcrossSeam(flash: seq<byte>, arena: seq<byte>, f: Fields, offset: nat, len: nat)
    requires f.flashStart + f.flashLen <= |flash| && f.ramLen <= |arena| && offset + len <= f.flashLen + f.ramLen
    ensures (flash[f.flashStart..f.flashStart + f.flashLen] + arena[..f.ramLen])[offset..offset + len]
            == if offset + len <= f.flashLen then flash[f.flashStart + offset..f.flashStart + offset + len]
               else if offset < f.flashLen then
                 flash[f.flashStart + offset..f.flashStart + f.flashLen] + arena[..offset + len - f.flashLen]
               else arena[offset - f.flashLen..offset + len - f.flashLen]
  {
    SliceOfSlice(flash, f.flashStart, f.flashLen, Min(offset, f.flashLen), Min(offset + len, f.flashLen));
    ConcatSlice(flash[f.flashStart..f.flashStart + f.flashLen], arena[..f.ramLen], offset, offset + len);
  }

  lemma ConcatSlice(a: seq<byte>, b: seq<byte>, lo: nat, hi: nat)
    requires lo <= hi <= |a| + |b|
    ensures (a + b)[lo..hi] == if hi <= |a| then a[lo..hi] else if lo < |a| then a[lo..] + b[..hi - |a|]
             else b[lo - |a|..hi - |a|]
  {
    var x := (a + b)[lo..hi];
    var y := if hi <= |a| then a[lo..hi] else if lo < |a| then a[lo..] + b[..hi - |a|] else b[lo - |a|..hi - |a|];
    forall k | 0 <= k < hi - lo ensures x[k] == y[k] {
      assert x[k] == (a + b)[lo + k];
    }
  }
}
