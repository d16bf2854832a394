/**
 * The staged update container: a fixed header, one leaf hash per block, the
 * payload and a trailer, tiling the announced total exactly; and the scan for
 * the newest container below the staging ceiling.
 */
module Container {
  import opened Bytes
  import opened Flash
  import opened CrleStream

  const MAGIC: seq<byte> := [0x6D, 0x4F, 0x54, 0x41]
  const TRAILER: seq<byte> := [0x76, 0x6B, 0x34, 0x39, 0x36]
  const APRV: seq<byte> := [0x41, 0x50, 0x52, 0x56]
  const HEADER_LEN: nat := 205
  const MIN_LEN: nat := 210
  const APPROVAL_OFFSET: nat := 201
  const APP_BASE: nat := 0x26000
  const CEILING_LEGACY: nat := 0xD4000
  const CEILING_EXPANDED: nat := 0xED000
  const FLAG_FULL: byte := 1

  /** What the parser keeps of a container; addresses are those of the staging store. */
  datatype Manifest = Manifest(
    isFull: bool, approved: bool, formatVer: byte, flags: byte, hashAlgo: byte, blockSizeLog2: byte,
    total: u32, imageSize: u32, payloadSize: u32, payloadAddr: nat, approvalAddr: nat,
    targetId: u32, fwVersion: u32, blockCount: nat,
    imageHash: seq<byte>, codecId: byte, hwId: seq<byte>, baseHash: seq<byte>)

  /** Everything a container carries. */
  datatype Package = Package(
    formatVer: byte, flags: byte, hashAlgo: byte, targetId: u32, fwVersion: u32, imageSize: u32, blockSizeLog2: byte,
    merkleRoot: seq<byte>, imageHash: seq<byte>, codecId: byte, hwId: seq<byte>, baseHash: seq<byte>,
    signer: seq<byte>, signature: seq<byte>, approval: seq<byte>, leaves: seq<byte>, payload: seq<byte>)

  /** Number of blocks of a payload: the quotient, plus one for a remainder. */
  function BlockCount(payloadSize: nat, log2: nat): nat {
    payloadSize / Pow2(log2) + if payloadSize % Pow2(log2) != 0 then 1 else 0
  }

  function TotalLen(p: Package): nat {
    HEADER_LEN + |p.leaves| + |p.payload| + |TRAILER|
  }

  /** Format 3 is known only to builds with bootloader updates enabled. */
  predicate KnownVersion(v: byte, bootUpdates: bool) {
    v == 2 || (bootUpdates && v == 3)
  }

  predicate Printable(p: Package, bootUpdates: bool) {
    && KnownVersion(p.formatVer, bootUpdates)
    && |p.merkleRoot| == 4 && |p.imageHash| == 32 && |p.hwId| == 32 && |p.baseHash| == 8
    && |p.signer| == 32 && |p.signature| == 64 && |p.approval| == 4
    && 1 <= p.blockSizeLog2 <= 24 && p.payload != []
    && 1 <= BlockCount(|p.payload|, p.blockSizeLog2) <= U16_MAX
    && |p.leaves| == 4 * BlockCount(|p.payload|, p.blockSizeLog2)
    && TotalLen(p) <= U32_MAX
  }

  function PrintFixed(p: Package): seq<byte>
    requires TotalLen(p) <= U32_MAX
  {
    PrintHead(p) + PrintTail(p)
  }

  /** The sizes and versions of a header. */
  function PrintHead(p: Package): (h: seq<byte>)
    requires TotalLen(p) <= U32_MAX
    ensures |h| == 28
  {
    MAGIC + Put32(TotalLen(p)) + [p.formatVer, p.flags, p.hashAlgo] + Put32(p.targetId) + Put32(p.fwVersion)
    + Put32(p.imageSize) + Put32(|p.payload|) + [p.blockSizeLog2]
  }

  /** Its hashes, the signature and the approval. */
  function PrintTail(p: Package): seq<byte> {
    p.merkleRoot + p.imageHash + [p.codecId] + p.hwId + p.baseHash + p.signer + p.signature + p.approval
  }

  function Print(p: Package): seq<byte>
    requires TotalLen(p) <= U32_MAX
  {
    PrintFixed(p) + p.leaves + p.payload + TRAILER
  }

  function ManifestOf(p: Package, addr: nat): Manifest
    requires TotalLen(p) <= U32_MAX
  {
    Manifest(p.flags % 2 == FLAG_FULL, p.approval == APRV, p.formatVer, p.flags, p.hashAlgo, p.blockSizeLog2,
             TotalLen(p), p.imageSize, |p.payload|, addr + HEADER_LEN + |p.leaves|, addr + APPROVAL_OFFSET,
             p.targetId, p.fwVersion, BlockCount(|p.payload|, p.blockSizeLog2),
             p.imageHash, p.codecId, p.hwId, p.baseHash)
  }

  /** The fixed header's fields, read back at their offsets, and the package they came from. */
  function Unprint(h: seq<byte>, leaves: seq<byte>, payload: seq<byte>): Package
    requires |h| == HEADER_LEN
  {
    Package(h[8], h[9], h[10], Get32(h[11..15]), Get32(h[15..19]), Get32(h[19..23]), h[27],
            h[28..32], h[32..64], h[64], h[65..97], h[97..105], h[105..137], h[137..201], h[201..205], leaves, payload)
  }

  lemma PutGet32(q: seq<byte>)
    requires |q| == 4
    ensures Put32(Get32(q)) == q
  {
    Get32Injective(Put32(Get32(q)), q);
  }

  /** Reading the printed header back gives the package again. */
  lemma UnprintPrinted(p: Package, bootUpdates: bool)
    requires Printable(p, bootUpdates)
    ensures var h := PrintFixed(p);
            && |h| == HEADER_LEN && h[..4] == MAGIC && Get32(h[4..8]) == TotalLen(p) && Get32(h[23..27]) == |p.payload|
            && Unprint(h, p.leaves, p.payload) == p
  {
    hide Get32, Put32, PrintHead, PrintTail;
    HeadFields(p);
    TailFields(p);
    var h, head, tail := PrintFixed(p), PrintHead(p), PrintTail(p);
    assert |h| == HEADER_LEN;
    assert forall i, j | 0 <= i <= j <= 28 :: h[i..j] == head[i..j];
    assert h[28..32] == tail[0..4] && h[32..64] == tail[4..36] && h[64] == tail[36] && h[65..97] == tail[37..69];
    assert h[97..105] == tail[69..77] && h[105..137] == tail[77..109] && h[137..201] == tail[109..173]
        && h[201..205] == tail[173..177];
  }

  lemma HeadFields(p: Package)
    requires TotalLen(p) <= U32_MAX
    ensures var h := PrintHead(p);
            && h[..4] == MAGIC && h[4..8] == Put32(TotalLen(p)) && h[8] == p.formatVer && h[9] == p.flags
            && h[10] == p.hashAlgo
            && h[11..15] == Put32(p.targetId) && h[15..19] == Put32(p.fwVersion) && h[19..23] == Put32(p.imageSize)
            && h[23..27] == Put32(|p.payload|) && h[27] == p.blockSizeLog2
  {
    hide Put32;
  }

  lemma TailFields(p: Package)
    requires |p.merkleRoot| == 4 && |p.imageHash| == 32 && |p.hwId| == 32 && |p.baseHash| == 8
    requires |p.signer| == 32 && |p.signature| == 64 && |p.approval| == 4
    ensures var t := PrintTail(p);
            && |t| == 177 && t[0..4] == p.merkleRoot && t[4..36] == p.imageHash && t[36] == p.codecId
            && t[37..69] == p.hwId
            && t[69..77] == p.baseHash && t[77..109] == p.signer && t[109..173] == p.signature
            && t[173..177] == p.approval
  {}

  lemma HeadTiles(h: seq<byte>)
    requires |h| == HEADER_LEN
    ensures h[..28] == h[..4] + h[4..8] + [h[8], h[9], h[10]] + h[11..15] + h[15..19] + h[19..23] + h[23..27] + [h[27]]
  {
    Adjoin(h, 0, 4, 8);
    Adjoin(h, 0, 8, 11);
    Adjoin(h, 0, 11, 15);
    Adjoin(h, 0, 15, 19);
    Adjoin(h, 0, 19, 23);
    Adjoin(h, 0, 23, 27);
    Adjoin(h, 0, 27, 28);
    assert h[8..11] == [h[8], h[9], h[10]] && h[27..28] == [h[27]] && h[..4] == h[0..4] && h[..28] == h[0..28];
  }

  lemma TailTiles(h: seq<byte>)
    requires |h| == HEADER_LEN
    ensures h[28..] == h[28..32] + h[32..64] + [h[64]] + h[65..97] + h[97..105] + h[105..137] + h[137..201]
             + h[201..205]
  {
    Adjoin(h, 28, 32, 64);
    Adjoin(h, 28, 64, 65);
    Adjoin(h, 28, 65, 97);
    Adjoin(h, 28, 97, 105);
    Adjoin(h, 28, 105, 137);
    Adjoin(h, 28, 137, 201);
    Adjoin(h, 28, 201, 205);
    assert h[64..65] == [h[64]] && h[28..] == h[28..205];
  }

  /** Printing what was read from a header with consistent sizes gives the header again. */
  lemma PrintUnprinted(h: seq<byte>, leaves: seq<byte>, payload: seq<byte>)
    requires |h| == HEADER_LEN && h[..4] == MAGIC && HEADER_LEN + |leaves| + |payload| + 5 <= U32_MAX
    requires Get32(h[4..8]) == HEADER_LEN + |leaves| + |payload| + 5 && Get32(h[23..27]) == |payload|
    ensures PrintFixed(Unprint(h, leaves, payload)) == h
  {
    hide Get32, Put32;
    PutGet32(h[4..8]);
    PutGet32(h[11..15]);
    PutGet32(h[15..19]);
    PutGet32(h[19..23]);
    PutGet32(h[23..27]);
    HeadTiles(h);
    TailTiles(h);
    assert h == h[..28] + h[28..];
  }

  /** Container `p` stands at `addr`, complete below `limit`. */
  ghost predicate Stands(store: seq<byte>, addr: nat, limit: nat, p: Package, bootUpdates: bool) {
    && Printable(p, bootUpdates) && addr + TotalLen(p) <= limit <= |store|
    && store[addr..addr + TotalLen(p)] == Print(p)
  }

  /** The parts of a printed container, by offset. */
  lemma PrintParts(p: Package, bootUpdates: bool)
    requires Printable(p, bootUpdates)
    ensures var c, n, m := Print(p), |p.leaves|, |p.payload|;
            && |PrintFixed(p)| == HEADER_LEN && |c| == TotalLen(p)
            && c[..HEADER_LEN] == PrintFixed(p) && c[HEADER_LEN..HEADER_LEN + n] == p.leaves
            && c[HEADER_LEN + n..HEADER_LEN + n + m] == p.payload && c[HEADER_LEN + n + m..] == TRAILER
  {
    UnprintPrinted(p, bootUpdates);
    hide PrintFixed;
    var c := PrintFixed(p) + p.leaves + p.payload + TRAILER;
    assert c[..HEADER_LEN] == PrintFixed(p);
  }

  /** A container determines every field the parser looks at. */
  lemma StandsReads(store: seq<byte>, addr: nat, limit: nat, p: Package, bootUpdates: bool)
    requires Stands(store, addr, limit, p, bootUpdates)
    ensures var h := store[addr..addr + HEADER_LEN];
            && h[..4] == MAGIC && Get32(h[4..8]) == TotalLen(p) && Get32(h[23..27]) == |p.payload|
            && Unprint(h, p.leaves, p.payload) == p
            && store[addr + TotalLen(p) - 5..addr + TotalLen(p)] == TRAILER
  {
    hide Print, PrintFixed;
    PrintParts(p, bootUpdates);
    UnprintPrinted(p, bootUpdates);
    var c := Print(p);
    SliceOfSlice(store, addr, |c|, 0, HEADER_LEN);
    SliceOfSlice(store, addr, |c|, |c| - 5, |c|);
  }

  /** Bytes that pass the parser's checks are a container. */
  lemma ReadsStand(store: seq<byte>, addr: nat, limit: nat, count: nat, bootUpdates: bool) returns (p: Package)
    requires addr + HEADER_LEN + 5 <= limit <= |store|
    requires var h := store[addr..addr + HEADER_LEN];
             var total, size := Get32(h[4..8]), Get32(h[23..27]);
             && h[..4] == MAGIC && HEADER_LEN + 5 <= total <= limit - addr
             && store[addr + total - 5..addr + total] == TRAILER
             && KnownVersion(h[8], bootUpdates) && 1 <= h[27] <= 24 && size > 0
             && count == BlockCount(size, h[27]) && 1 <= count <= U16_MAX
             && HEADER_LEN + 4 * count + size + 5 == total
    ensures var h := store[addr..addr + HEADER_LEN];
            Stands(store, addr, limit, p, bootUpdates) && TotalLen(p) == Get32(h[4..8]) && |p.leaves| == 4 * count
  {
    hide Get32, BlockCount, PrintFixed;
    var h := store[addr..addr + HEADER_LEN];
    var total, size := Get32(h[4..8]), Get32(h[23..27]);
    var at := addr + HEADER_LEN + 4 * count;
    var leaves, payload := store[addr + HEADER_LEN..at], store[at..at + size];
    p := Unprint(h, leaves, payload);
    PrintUnprinted(h, leaves, payload);
    Adjoin(store, addr, addr + HEADER_LEN, at);
    Adjoin(store, addr, at, at + size);
    Adjoin(store, addr, at + size, at + size + 5);
    assert at + size + 5 == addr + total;
  }

  /** The layout on the store, byte by byte: `count` leaf hashes between the fixed header and the payload. */
  ghost predicate Wire(store: seq<byte>, addr: nat, limit: nat, count: nat, bootUpdates: bool) {
    && addr + 210 <= limit <= |store| && store[addr..addr + 4] == [0x6D, 0x4F, 0x54, 0x41]
    && var total, size, log2 := Get32(store[addr + 4..addr + 8]), Get32(store[addr + 23..addr + 27]), store[addr + 27];
       && addr + 210 <= addr + total <= limit
       && store[addr + total - 5..addr + total] == [0x76, 0x6B, 0x34, 0x39, 0x36]
       && (store[addr + 8] == 2 || (bootUpdates && store[addr + 8] == 3))
       && 1 <= log2 <= 24 && size > 0 && 1 <= count <= 0xFFFF && CoveredBy(size, log2, count)
       && total == 205 + 4 * count + size + 5
  }

  /** What each field of a manifest says of the bytes at `addr`. */
  ghost predicate Carries(store: seq<byte>, addr: nat, m: Manifest)
    requires addr + 205 <= |store|
  {
    && m.total == Get32(store[addr + 4..addr + 8])
    && m.formatVer == store[addr + 8] && m.flags == store[addr + 9] && m.hashAlgo == store[addr + 10]
    && (m.isFull <==> store[addr + 9] % 2 == 1)
    && m.targetId == Get32(store[addr + 11..addr + 15]) && m.fwVersion == Get32(store[addr + 15..addr + 19])
    && m.imageSize == Get32(store[addr + 19..addr + 23]) && m.payloadSize == Get32(store[addr + 23..addr + 27])
    && m.blockSizeLog2 == store[addr + 27] && m.imageHash == store[addr + 32..addr + 64]
    && m.codecId == store[addr + 64] && m.hwId == store[addr + 65..addr + 97]
    && m.baseHash == store[addr + 97..addr + 105]
    && m.approvalAddr == addr + 201 && (m.approved <==> store[addr + 201..addr + 205] == [0x41, 0x50, 0x52, 0x56])
    && m.payloadAddr == addr + 205 + 4 * m.blockCount && m.payloadAddr + m.payloadSize + 5 == addr + m.total
  }

  /** So many blocks cover the payload, and one less does not. */
  predicate CoveredBy(size: nat, log2: nat, count: nat) {
    count > 0 && (count - 1) * Pow2(log2) < size <= count * Pow2(log2)
  }

  /** The number of blocks is the one that covers the payload with no block to spare. */
  lemma BlocksCover(size: nat, log2: nat, count: nat)
    requires size > 0
    ensures count == BlockCount(size, log2) <==> CoveredBy(size, log2, count)
  {
    var b := Pow2(log2);
    hide Pow2;
    var q, r := size / b, size % b;
    var n := if r != 0 then q + 1 else q;
    assert size == q * b + r && 0 <= r < b;
    assert (q + 1) * b == q * b + b && (n - 1) * b == n * b - b && (count - 1) * b == count * b - b;
    if count < n {
      LessMul(count, n, b);
    } else if n < count {
      LessMul(n, count, b);
    }
  }

  lemma {:induction false} LessMul(a: nat, c: nat, b: nat)
    requires a < c
    ensures a * b + b <= c * b
    decreases c
  {
    assert (c - 1) * b == c * b - b;
    if a < c - 1 {
      LessMul(a, c - 1, b);
    }
  }

  /** A container is laid out like that, and its manifest says what it carries. */
  lemma StandsWire(store: seq<byte>, addr: nat, limit: nat, p: Package, bootUpdates: bool)
    requires Stands(store, addr, limit, p, bootUpdates)
    ensures addr + 205 <= |store| && Wire(store, addr, limit, ManifestOf(p, addr).blockCount, bootUpdates)
    ensures Carries(store, addr, ManifestOf(p, addr))
  {
    hide Print, PrintFixed, BlockCount, Get32, CoveredBy;
    StandsFits(store, addr, limit, p, bootUpdates);
    BlocksCover(|p.payload|, p.blockSizeLog2, BlockCount(|p.payload|, p.blockSizeLog2));
    HeaderSlices(store, addr);
  }

  /** What is laid out like that is a container. */
  lemma WireStands(store: seq<byte>, addr: nat, limit: nat, count: nat, bootUpdates: bool)
    requires Wire(store, addr, limit, count, bootUpdates)
    ensures exists p :: Stands(store, addr, limit, p, bootUpdates)
  {
    hide Stands, BlockCount, Get32, CoveredBy;
    HeaderSlices(store, addr);
    BlocksCover(Get32(store[addr + 23..addr + 27]), store[addr + 27], count);
    var p := ReadsStand(store, addr, limit, count, bootUpdates);
  }

  /** The fields of the fixed header, by their place in the store. */
  lemma HeaderSlices(store: seq<byte>, addr: nat)
    requires addr + HEADER_LEN <= |store|
    ensures var h := store[addr..addr + HEADER_LEN];
            && h[..4] == store[addr..addr + 4] && h[4..8] == store[addr + 4..addr + 8]
            && h[11..15] == store[addr + 11..addr + 15] && h[15..19] == store[addr + 15..addr + 19]
            && h[19..23] == store[addr + 19..addr + 23] && h[23..27] == store[addr + 23..addr + 27]
            && h[32..64] == store[addr + 32..addr + 64] && h[65..97] == store[addr + 65..addr + 97]
            && h[97..105] == store[addr + 97..addr + 105] && h[201..205] == store[addr + 201..addr + 205]
  {
    SliceOfSlice(store, addr, HEADER_LEN, 0, 4);
    SliceOfSlice(store, addr, HEADER_LEN, 4, 8);
    SliceOfSlice(store, addr, HEADER_LEN, 11, 15);
    SliceOfSlice(store, addr, HEADER_LEN, 15, 19);
    SliceOfSlice(store, addr, HEADER_LEN, 19, 23);
    SliceOfSlice(store, addr, HEADER_LEN, 23, 27);
    SliceOfSlice(store, addr, HEADER_LEN, 32, 64);
    SliceOfSlice(store, addr, HEADER_LEN, 65, 97);
    SliceOfSlice(store, addr, HEADER_LEN, 97, 105);
    SliceOfSlice(store, addr, HEADER_LEN, 201, 205);
  }

  /** Checks the layout of what stands at `addr`, in the order of its bytes as far as they are needed. */
  method CheckLayout(store: seq<byte>, addr: nat, limit: nat, bootUpdates: bool) returns (ok: bool, count: nat)
    requires limit <= |store| <= 0x1_0000_0000
    ensures ok <==> exists n :: Wire(store, addr, limit, n, bootUpdates)
    ensures ok ==> Wire(store, addr, limit, count, bootUpdates)
  {
    hide BlockCount, Get32, Pow2, CoveredBy;
    ok, count := false, 0;
    if addr > limit {
      return;
    }
    var avail := limit - addr;
    if avail < HEADER_LEN + |TRAILER| {
      return;
    }
    var h := store[addr..addr + HEADER_LEN];
    HeaderSlices(store, addr);
    if h[..4] != MAGIC {
      return;
    }
    var total := Get32(h[4..8]);
    if total < HEADER_LEN + |TRAILER| || total > avail {
      return;
    }
    if store[addr + total - |TRAILER|..addr + total] != TRAILER {
      return;
    }
    if !KnownVersion(h[8], bootUpdates) {
      return;
    }
    var payloadSize := Get32(h[23..27]);
    if h[27] == 0 || h[27] > 24 || payloadSize == 0 {
      return;
    }
    count := BlockCount(payloadSize, h[27]);
    forall n: nat ensures CoveredBy(payloadSize, h[27], n) <==> n == count {
      BlocksCover(payloadSize, h[27], n);
    }
    if count == 0 || count > U16_MAX {
      return;
    }
    var payloadOffset := HEADER_LEN + count * 4;
    var payloadEnd := total - |TRAILER|;
    if payloadOffset > payloadEnd || payloadSize != payloadEnd - payloadOffset {
      return;
    }
    assert CoveredBy(payloadSize, h[27], count);
    assert Wire(store, addr, limit, count, bootUpdates);
    ok := true;
  }

  /**
   * Parses the container at `addr`. It succeeds exactly when a container
   * stands there, and then yields that container's manifest.
   */
  method ParseMotaAt(store: seq<byte>, addr: nat, limit: nat, bootUpdates: bool) returns (r: Option<Manifest>)
    requires limit <= |store| <= 0x1_0000_0000
    ensures r.Some? <==> exists p :: Stands(store, addr, limit, p, bootUpdates)
    ensures forall p | Stands(store, addr, limit, p, bootUpdates) :: r == Some(ManifestOf(p, addr))
    ensures r.Some? <==> exists count :: Wire(store, addr, limit, count, bootUpdates)
    ensures r.Some? ==> Wire(store, addr, limit, r.value.blockCount, bootUpdates) && Carries(store, addr, r.value)
  {
    hide Print, Wire, Get32, ManifestOf;
    forall p | Stands(store, addr, limit, p, bootUpdates)
      ensures addr + 205 <= |store| && Wire(store, addr, limit, ManifestOf(p, addr).blockCount, bootUpdates)
      ensures Carries(store, addr, ManifestOf(p, addr))
    {
      StandsWire(store, addr, limit, p, bootUpdates);
    }
    var ok, count := CheckLayout(store, addr, limit, bootUpdates);
    if !ok {
      return None;
    }
    WireStands(store, addr, limit, count, bootUpdates);
    WireFits(store, addr, limit, count, bootUpdates);
    HeaderSlices(store, addr);
    var h := store[addr..addr + HEADER_LEN];
    r := Some(Manifest(
      h[9] % 2 == FLAG_FULL, h[201..205] == APRV, h[8], h[9], h[10], h[27],
      Get32(h[4..8]), Get32(h[19..23]), Get32(h[23..27]), addr + HEADER_LEN + count * 4, addr + APPROVAL_OFFSET,
      Get32(h[11..15]), Get32(h[15..19]), count,
      h[32..64], h[64], h[65..97], h[97..105]));
    forall p | Stands(store, addr, limit, p, bootUpdates) ensures r.value == ManifestOf(p, addr) {
      CarriedIsUnique(store, addr, limit, bootUpdates, r.value, ManifestOf(p, addr));
    }
  }

  lemma WireFits(store: seq<byte>, addr: nat, limit: nat, count: nat, bootUpdates: bool)
    requires Wire(store, addr, limit, count, bootUpdates)
    ensures addr + HEADER_LEN <= |store|
    ensures HEADER_LEN + 4 * count + Get32(store[addr + 23..addr + 27]) + 5 == Get32(store[addr + 4..addr + 8])
  {
    hide Get32, CoveredBy;
  }

  /** The bytes determine the manifest. */
  lemma CarriedIsUnique(store: seq<byte>, addr: nat, limit: nat, bootUpdates: bool, m: Manifest, o: Manifest)
    requires Wire(store, addr, limit, m.blockCount, bootUpdates) && Wire(store, addr, limit, o.blockCount, bootUpdates)
    requires addr + 205 <= |store| && Carries(store, addr, m) && Carries(store, addr, o)
    ensures m == o
  {
    hide Get32, CoveredBy;
  }

  /** What the parser checks, as it holds of a container. */
  ghost predicate Fits(store: seq<byte>, addr: nat, limit: nat, p: Package, bootUpdates: bool)
  {
    && addr + HEADER_LEN + |TRAILER| <= addr + TotalLen(p) <= limit <= |store|
    && var h := store[addr..addr + HEADER_LEN];
       && h[..4] == MAGIC && Get32(h[4..8]) == TotalLen(p) && Get32(h[23..27]) == |p.payload|
       && Unprint(h, p.leaves, p.payload) == p
       && store[addr + TotalLen(p) - |TRAILER|..addr + TotalLen(p)] == TRAILER
       && Printable(p, bootUpdates)
  }

  lemma StandsFits(store: seq<byte>, addr: nat, limit: nat, p: Package, bootUpdates: bool)
    requires Stands(store, addr, limit, p, bootUpdates)
    ensures Fits(store, addr, limit, p, bootUpdates)
  {
    StandsReads(store, addr, limit, p, bootUpdates);
  }

  // ---- the scan -----------------------------------------------------------

  const CEILING_SCRATCH: nat := 0xE0000

  /** The ceilings the application may have staged below; the last one only in one build. */
  predicate KnownCeiling(ceiling: nat, scratch: bool) {
    ceiling == CEILING_LEGACY || ceiling == CEILING_EXPANDED || (scratch && ceiling == CEILING_SCRATCH)
  }

  /** A container at `a` that is staged as low below the ceiling as its length demands, and no lower. */
  ghost predicate StagedBy(store: seq<byte>, a: nat, ceiling: nat, p: Package, bootUpdates: bool) {
    && a % PAGE == 0 && Stands(store, a, ceiling, p, bootUpdates)
    && TotalLen(p) <= ceiling && PageOf(ceiling - TotalLen(p)) == a
  }

  ghost predicate Staged(store: seq<byte>, a: nat, ceiling: nat, bootUpdates: bool) {
    exists p :: StagedBy(store, a, ceiling, p, bootUpdates)
  }

  /**
   * Walks the page boundaries from the ceiling down to the application base
   * and returns the highest staged container; 0 when there is none.
   */
  method ScanMota(store: seq<byte>, ceiling: nat, bootUpdates: bool, scratch: bool)
    returns (addr: nat, m: Option<Manifest>)
    requires CEILING_EXPANDED <= |store| <= 0x1_0000_0000
    ensures addr != 0 ==>
              && APP_BASE <= addr < ceiling
              && exists p :: StagedBy(store, addr, ceiling, p, bootUpdates) && m == Some(ManifestOf(p, addr))
    ensures addr != 0 ==>
              && m.Some? && Wire(store, addr, ceiling, m.value.blockCount, bootUpdates)
              && Carries(store, addr, m.value) && PageOf(ceiling - m.value.total) == addr
    ensures addr != 0 ==> ceiling == 0xD4000 || ceiling == 0xED000 || (scratch && ceiling == 0xE0000)
    ensures ceiling == 0xD4000 || ceiling == 0xED000 || (scratch && ceiling == 0xE0000) ==>
              forall a | APP_BASE <= a && addr < a :: !Staged(store, a, ceiling, bootUpdates)
  {
    hide Stands, StagedBy, Staged, ManifestOf, Wire, Carries;
    m := None;
    if !KnownCeiling(ceiling, scratch) {
      return 0, None;
    }
    var a := PageOf(ceiling - MIN_LEN) + PAGE;
    forall b | a <= b ensures !Staged(store, b, ceiling, bootUpdates) {
      AboveTop(store, b, ceiling, bootUpdates);
    }
    forall b: nat | b % PAGE != 0 ensures !Staged(store, b, ceiling, bootUpdates) {
      OnlyAligned(store, b, ceiling, bootUpdates);
    }
    while a > APP_BASE
      invariant a % PAGE == 0 && APP_BASE <= a <= ceiling + PAGE
      invariant forall b | a <= b :: !Staged(store, b, ceiling, bootUpdates)
    {
      a := a - PAGE;
      if store[a..a + 4] == MAGIC {
        m := ParseMotaAt(store, a, ceiling, bootUpdates);
        if m.Some? && m.value.total <= ceiling && PageOf(ceiling - m.value.total) == a {
          FoundHere(store, a, ceiling, bootUpdates, m);
          return a, m;
        }
      }
      NotStagedHere(store, a, ceiling, bootUpdates, m);
    }
    return 0, None;
  }

  /** The shortest container does not fit above the first page scanned. */
  lemma AboveTop(store: seq<byte>, b: nat, ceiling: nat, bootUpdates: bool)
    requires MIN_LEN <= ceiling && PageOf(ceiling - MIN_LEN) + PAGE <= b
    ensures !Staged(store, b, ceiling, bootUpdates)
  {}

  lemma OnlyAligned(store: seq<byte>, b: nat, ceiling: nat, bootUpdates: bool)
    requires b % PAGE != 0
    ensures !Staged(store, b, ceiling, bootUpdates)
  {}

  lemma FoundHere(store: seq<byte>, a: nat, ceiling: nat, bootUpdates: bool, m: Option<Manifest>)
    requires a % PAGE == 0 && exists p :: Stands(store, a, ceiling, p, bootUpdates)
    requires forall p | Stands(store, a, ceiling, p, bootUpdates) :: m == Some(ManifestOf(p, a))
    requires m.Some? && m.value.total <= ceiling && PageOf(ceiling - m.value.total) == a
    ensures exists p :: StagedBy(store, a, ceiling, p, bootUpdates) && m == Some(ManifestOf(p, a))
  {
    hide Print;
    var p :| Stands(store, a, ceiling, p, bootUpdates);
    assert StagedBy(store, a, ceiling, p, bootUpdates);
  }

  lemma NotStagedHere(store: seq<byte>, a: nat, ceiling: nat, bootUpdates: bool, m: Option<Manifest>)
    requires a + 4 <= |store|
    requires store[a..a + 4] == MAGIC ==>
               && (m.Some? <==> exists p :: Stands(store, a, ceiling, p, bootUpdates))
               && (forall p | Stands(store, a, ceiling, p, bootUpdates) :: m == Some(ManifestOf(p, a)))
               && !(m.Some? && m.value.total <= ceiling && PageOf(ceiling - m.value.total) == a)
    requires a % PAGE == 0
    ensures !Staged(store, a, ceiling, bootUpdates)
  {
    hide Print, PrintFixed;
    forall p | StagedBy(store, a, ceiling, p, bootUpdates) ensures false {
      StandsReads(store, a, ceiling, p, bootUpdates);
    }
  }
}
