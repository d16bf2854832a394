/**
 * Byte reads from a run of 512-byte sectors on an SD card, through a cache of
 * the last sector read.
 */
module SdCard {
  import opened Bytes

  const SECTOR: nat := 512
  const NO_SECTOR: u32 := U32_MAX
  const TRIES: nat := 3

  /** Number of the sector a byte lies in, counted from the start of the run, and its place there. */
  function SectorOf(at: nat): nat { at / SECTOR }

  function OffsetIn(at: nat): nat { at % SECTOR }

  /** `bytes` are those of sector `lba` of the card. */
  predicate HeldBy(card: seq<byte>, lba: nat, bytes: seq<byte>) {
    SECTOR * (lba + 1) <= |card| && bytes == card[SECTOR * lba..SECTOR * (lba + 1)]
  }

  // ---- one sector -----------------------------------------------------------

  /**
   * What one attempt to read a sector comes to: the card refuses it, the bus
   * stops before or during the transfer, which then leaves something in the
   * buffer, or all of it comes through.
   */
  datatype Attempt = Refused | Silent | Broken(left: nat -> byte) | Whole

  /** Whether the sector was read, whether the bus still works, what is in the buffer, and the attempts made so far. */
  datatype SectorResult = SectorResult(ok: bool, ioOk: bool, bytes: seq<byte>, attempts: nat)

  function LeftIn(left: nat -> byte): (bytes: seq<byte>)
    ensures |bytes| == SECTOR
  {
    seq(SECTOR, i requires 0 <= i < SECTOR => left(i))
  }

  /**
   * At most `tries` attempts, the first of which is number `attempts` on the wire; a sector beyond the
   * card is refused.
   */
  function SectorRead(card: seq<byte>, wire: nat -> Attempt, lba: nat, tries: nat, attempts: nat,
                      bytes: seq<byte>): SectorResult
    decreases tries
  {
    if tries == 0 then SectorResult(false, true, bytes, attempts)
    else match wire(attempts)
      case Refused => SectorRead(card, wire, lba, tries - 1, attempts + 1, bytes)
      case Silent => SectorResult(false, false, bytes, attempts + 1)
      case Broken(left) => SectorResult(false, false, LeftIn(left), attempts + 1)
      case Whole =>
        if SECTOR * (lba + 1) <= |card| then SectorResult(true, true, card[SECTOR * lba..SECTOR * (lba + 1)],
            attempts + 1)
        else SectorRead(card, wire, lba, tries - 1, attempts + 1, bytes)
  }

  /** A success is the sector; a buffer that changed without one means that the bus has stopped. */
  lemma {:induction false} SectorReadMeans(card: seq<byte>, wire: nat -> Attempt, lba: nat, tries: nat, attempts: nat,
                                           bytes: seq<byte>)
    ensures var r := SectorRead(card, wire, lba, tries, attempts, bytes);
            && (r.ok ==> r.ioOk && HeldBy(card, lba, r.bytes))
            && (!r.ok && r.bytes != bytes ==> !r.ioOk)
            && (|bytes| == SECTOR ==> |r.bytes| == SECTOR)
    decreases tries
  {
    if tries > 0 && (wire(attempts).Refused? || wire(attempts).Whole?) {
      SectorReadMeans(card, wire, lba, tries - 1, attempts + 1, bytes);
    }
  }

  /** Of any three attempts in a row one comes through, and the bus does not stop. */
  predicate Serves(wire: nat -> Attempt, n: nat) {
    && (wire(n).Refused? || wire(n).Whole?)
    && (wire(n).Whole? || wire(n + 1).Whole? || wire(n + 2).Whole?)
  }

  lemma {:induction false} ServedSector(card: seq<byte>, wire: nat -> Attempt, lba: nat, attempts: nat,
                                        bytes: seq<byte>)
    requires forall n: nat :: Serves(wire, n)
    ensures var r := SectorRead(card, wire, lba, TRIES, attempts, bytes);
            r.ioOk && (r.ok <==> SECTOR * (lba + 1) <= |card|)
  {
    assert Serves(wire, attempts) && Serves(wire, attempts + 1) && Serves(wire, attempts + 2);
    assert SectorRead(card, wire, lba, 0, attempts + 3, bytes) == SectorResult(false, true, bytes, attempts + 3);
    assert SectorRead(card, wire, lba, 1, attempts + 2, bytes).ioOk;
    assert SectorRead(card, wire, lba, 2, attempts + 1, bytes).ioOk;
  }

  // ---- the reader -----------------------------------------------------------

  class Reader {
    /** What the card holds; a whole number of sectors. */
    const card: seq<byte>
    const blockAddressing: bool
    /** What becomes of every attempt, in the order they are made. */
    const wire: nat -> Attempt
    const sector: array<byte>
    var sectorLba: u32
    var ioOk: bool
    var attempts: nat

    /** What is cached is right, unless nothing is cached or the bus has stopped. */
    ghost predicate Valid()
      reads this, sector
    {
      && sector.Length == SECTOR && OffsetIn(|card|) == 0
      && (sectorLba == NO_SECTOR || Faithful() || !ioOk)
    }

    /** The cached bytes are those of the sector they are filed under. */
    ghost predicate Faithful()
      reads this, sector
    {
      HeldBy(card, sectorLba, sector[..])
    }

    /** The bus works, and goes on working. */
    ghost predicate Dependable()
      reads this
    {
      ioOk && forall n: nat :: Serves(wire, n)
    }

    /** The end of what can be addressed: of the card, and of the sectors or bytes that a command can name. */
    function Reach(): nat {
      var limit := SECTOR * (if blockAddressing then U32_MAX + 1 else U32_MAX / SECTOR + 1);
      if |card| < limit then |card| else limit
    }

    constructor (contents: seq<byte>, blocks: bool, w: nat -> Attempt)
      requires OffsetIn(|contents|) == 0
      ensures Valid() && card == contents && blockAddressing == blocks && wire == w
      ensures sectorLba == NO_SECTOR && ioOk && attempts == 0 && fresh(sector)
    {
      card := contents;
      blockAddressing := blocks;
      wire := w;
      sector := new byte[SECTOR](i => 0);
      sectorLba := NO_SECTOR;
      ioOk := true;
      attempts := 0;
    }

    /** The whole state the reader works on. */
    ghost predicate Unchanged(lba: u32, io: bool, bytes: seq<byte>, n: nat)
      reads this, sector
    {
      sectorLba == lba && ioOk == io && sector[..] == bytes && attempts == n
    }

    /** The bus works, and a command can name the sector. */
    predicate Reachable(lba: nat)
      reads this
    {
      ioOk && (blockAddressing || lba <= U32_MAX / SECTOR)
    }

    /** Up to three attempts; one that breaks off spoils the buffer and stops the bus. */
    method ReadSector(lba: u32) returns (ok: bool)
      requires sector.Length == SECTOR
      modifies this`ioOk, this`attempts, sector
      ensures if old(Reachable(lba))
              then SectorResult(ok, ioOk, sector[..], attempts)
                   == SectorRead(card, wire, lba, TRIES, old(attempts), old(sector[..]))
              else !ok && Unchanged(sectorLba, old(ioOk), old(sector[..]), old(attempts))
    {
      if !ioOk || (!blockAddressing && lba > U32_MAX / SECTOR) {
        return false;
      }
      ghost var want := SectorRead(card, wire, lba, TRIES, attempts, sector[..]);
      for attempt := 0 to TRIES
        invariant ioOk ==> want == SectorRead(card, wire, lba, TRIES - attempt, attempts, sector[..])
        invariant !ioOk ==> want == SectorResult(false, false, sector[..], attempts)
      {
        if ioOk {
          var outcome := wire(attempts);
          attempts := attempts + 1;
          match outcome {
            case Refused =>
            case Silent =>
              ioOk := false;
            case Broken(left) =>
              forall i | 0 <= i < SECTOR {
                sector[i] := left(i);
              }
              assert sector[..] == LeftIn(left);
              ioOk := false;
            case Whole =>
              if SECTOR * (lba + 1) <= |card| {
                forall i | 0 <= i < SECTOR {
                  sector[i] := card[SECTOR * lba + i];
                }
                assert sector[..] == card[SECTOR * lba..SECTOR * (lba + 1)];
                return true;
              }
          }
        }
      }
      ok := false;
    }

    /** Bytes of one sector, from the cache when it is filed there. */
    method Fetch(lba: u32, off: nat, n: nat) returns (ok: bool, piece: seq<byte>)
      requires Valid() && 0 < n && off + n <= SECTOR
      modifies this`sectorLba, this`ioOk, this`attempts, sector
      ensures Valid()
      ensures ok ==> sectorLba == lba && piece == sector[off..off + n]
      ensures old(sectorLba) == lba ==> ok && Unchanged(lba, old(ioOk), old(sector[..]), old(attempts))
      ensures old(sectorLba) != lba && ok ==> ioOk && Faithful()
      ensures old(sectorLba) != lba && !old(Reachable(lba)) ==>
                !ok && Unchanged(old(sectorLba), old(ioOk), old(sector[..]), old(attempts))
      ensures old(sectorLba) != lba && old(Reachable(lba)) ==>
                var r := SectorRead(card, wire, lba, TRIES, old(attempts), old(sector[..]));
                ok == r.ok && Unchanged(if ok then lba else old(sectorLba), r.ioOk, r.bytes, r.attempts)
      ensures old(Dependable()) ==>
                Dependable() && (ok <==> old(sectorLba) == lba || (SECTOR * (lba + 1) <= |card| && old(Reachable(lba))))
    {
      hide SectorRead, HeldBy;
      if lba != sectorLba {
        SectorReadMeans(card, wire, lba, TRIES, attempts, sector[..]);
        if forall m: nat :: Serves(wire, m) {
          ServedSector(card, wire, lba, attempts, sector[..]);
        }
        ok := ReadSector(lba);
        if !ok {
          return false, [];
        }
        sectorLba := lba;
      }
      piece := sector[off..off + n];
      ok := true;
    }

    /** The read begins in the sector that is cached. */
    predicate Cached(first: nat, offset: nat)
      reads this
    {
      sectorLba == first + SectorOf(offset)
    }

    /** The part of a read that lies in the sector of byte `at`. */
    method ReadPiece(first: u32, at: nat, rest: nat) returns (ok: bool, piece: seq<byte>)
      requires Valid() && at + rest <= U32_MAX && rest > 0
      modifies this`sectorLba, this`ioOk, this`attempts, sector
      ensures Valid()
      ensures ok ==> |piece| == Piece(at, rest) && sectorLba == first + SectorOf(at)
      ensures old(Cached(first, at)) ==>
                && ok && Unchanged(old(sectorLba), old(ioOk), old(sector[..]), old(attempts))
                && OffsetIn(at) + |piece| <= SECTOR && piece == old(sector[..])[OffsetIn(at)..OffsetIn(at) + |piece|]
      ensures ok && old(!Cached(first, at) || Faithful()) ==>
                && Faithful() && SECTOR * first + at + |piece| <= |card|
                && piece == card[SECTOR * first + at..SECTOR * first + at + |piece|]
      ensures ok && !old(Cached(first, at)) ==> old(ioOk)
      ensures old(Dependable()) ==>
                Dependable() && (ok <==> old(Cached(first, at)) || SECTOR * first + at + Piece(at, rest) <= Reach())
    {
      hide SectorOf, OffsetIn, HeldBy, SectorRead, Serves, Reach;
      InSector(at);
      var sectorOff := OffsetIn(at);
      var n := SECTOR - sectorOff;
      if n > rest {
        n := rest;
      }
      var lba := Wrap32(first + SectorOf(at));
      NextSector(at, n, first);
      ReachEnds(first, at, n);
      NoWrap(first, at);
      if lba < first {
        return false, [];
      }
      ok, piece := Fetch(lba, sectorOff, n);
      CachedSlice(card, lba, sector[..], sectorOff, sectorOff + n);
    }

    /** The next piece lies in what can be addressed exactly when its sector does. */
    lemma ReachEnds(first: u32, at: nat, n: nat)
      requires OffsetIn(|card|) == 0 && 0 < n <= SECTOR - OffsetIn(at)
      ensures var lba := first + SectorOf(at);
              SECTOR * first + at + n <= Reach()
              <==> lba <= U32_MAX && SECTOR * (lba + 1) <= |card| && (blockAddressing || lba <= U32_MAX / SECTOR)
    {
      InCard(first, at, n, |card|);
      InCard(first, at, n, SECTOR * (U32_MAX + 1));
      InCard(first, at, n, SECTOR * (U32_MAX / SECTOR + 1));
    }

    /**
     * Reads bytes from the run of sectors that starts at `first`. They are the
     * card's, unless the read begins in the very sector whose cached copy is
     * not: then they are bytes of that copy, and the read lies inside it.
     */
    method ReadBytes(first: u32, offset: u32, len: u32) returns (ok: bool, data: seq<byte>)
      requires Valid() && offset + len <= U32_MAX
      modifies this`sectorLba, this`ioOk, this`attempts, sector
      ensures Valid()
      ensures ok && len == 0 ==> data == []
      ensures ok && len > 0 && old(!Cached(first, offset) || Faithful()) ==>
                && SECTOR * first + offset + len <= |card|
                && data == card[SECTOR * first + offset..SECTOR * first + offset + len] && Faithful()
      ensures ok && len > 0 && old(Cached(first, offset) && !Faithful()) ==>
                && OffsetIn(offset) + len <= SECTOR && data == old(sector[..])[OffsetIn(offset)..OffsetIn(offset) + len]
      ensures old(Dependable()) ==>
                (ok <==> len == 0 || SECTOR * first + offset + len <= Reach()
                         || (old(Cached(first, offset)) && OffsetIn(offset) + len <= SECTOR))
    {
      hide SectorOf, OffsetIn, HeldBy, SectorRead, Serves, Reach, Piece, SoFar;
      data := [];
      var at: nat, rest: nat := offset, len;
      ghost var run := Run(card, first, offset, len, Cached(first, offset), Faithful(), sector[..], Reach());
      ghost var io, n0, dependable := ioOk, attempts, Dependable();
      while rest > 0
        invariant Valid() && at + rest == offset + len && offset <= at && (dependable ==> Dependable())
        invariant at == offset ==> data == [] && Unchanged(old(sectorLba), io, run.copy, n0)
        invariant at > offset ==>
                  SoFar(run, at, data, dependable) && (rest > 0 ==> first + SectorOf(at) == sectorLba + 1)
        invariant at > offset && !run.Trusted() ==> Unchanged(old(sectorLba), io, run.copy, n0)
        invariant at > offset && run.Trusted() ==> Faithful()
        decreases rest
      {
        var piece;
        ok, piece := ReadPiece(first, at, rest);
        if !ok {
          if dependable {
            StopsHere(run, at, rest, data);
          }
          return false, data;
        }
        PieceFits(at, rest, first);
        if at == offset {
          FirstPiece(run, piece, dependable);
        } else {
          NextPiece(run, at, rest, data, piece, dependable);
        }
        data := data + piece;
        at := at + |piece|;
        rest := rest - |piece|;
      }
      if len > 0 {
        AllRead(run, at, data, dependable);
      }
      ok := true;
    }

    /**
     * Why a read that breaks off matters: what it left in the buffer is what
     * the next read from the sector cached before returns, without an error.
     */
    method ReadAfterFailure(failing: u32, len: u32) returns (failed: bool, ok: bool, data: seq<byte>)
      requires Valid() && Faithful() && Reachable(failing) && wire(attempts).Broken?
      requires failing != sectorLba && 0 < len <= SECTOR
      modifies this`sectorLba, this`ioOk, this`attempts, sector
      ensures Valid() && failed && ok && data == LeftIn(wire(old(attempts)).left)[..len]
      ensures SECTOR * old(sectorLba) + len <= |card|
      ensures data == card[SECTOR * old(sectorLba)..SECTOR * old(sectorLba) + len]
         <==> LeftIn(wire(old(attempts)).left)[..len] == old(sector[..len])
    {
      var lba := sectorLba;
      ghost var was := sector[..];
      var read, unused := Fetch(failing, 0, SECTOR);
      failed := !read;
      ok, data := Fetch(lba, 0, len);
      CachedSlice(card, lba, was, 0, len);
      assert was[0..len] == was[..len];
    }
  }

  /** A read of the same byte, before and after one that breaks off. */
  method SpoiltRead() returns (before: seq<byte>, failed: bool, ok: bool, after: seq<byte>)
    ensures before == [7] && failed && ok && after == [0]
  {
    var breaksOff := (n: nat) => if n == 0 then Whole else Broken(i => 0);
    var r := new Reader(Fill(2 * SECTOR, 7), true, breaksOff);
    ok, before := r.Fetch(0, 0, 1);
    failed, ok, after := r.ReadAfterFailure(1, 1);
  }

  lemma PieceFits(at: nat, rest: nat, first: nat)
    requires rest > 0
    ensures 0 < Piece(at, rest) <= rest && OffsetIn(at) + Piece(at, rest) <= SECTOR
    ensures Piece(at, rest) < rest ==> SectorOf(at + Piece(at, rest)) == SectorOf(at) + 1
  {
    hide SectorOf, OffsetIn;
    InSector(at);
    NextSector(at, Piece(at, rest), first);
  }

  // ---- a read, piece by piece -----------------------------------------------

  /** A read of `len` bytes, and what the cache was when it began. */
  datatype Run = Run(card: seq<byte>, first: nat, offset: nat, len: nat, cached: bool, faithful: bool,
      copy: seq<byte>, reach: nat) {
    predicate Trusted() { !cached || faithful }
  }

  /** The bytes read up to `at`, behind the first piece. */
  predicate SoFar(r: Run, at: nat, data: seq<byte>, dependable: bool) {
    var start, n := SECTOR * r.first + r.offset, Piece(r.offset, r.len);
    && r.offset + n <= at <= r.offset + r.len
    && (if r.Trusted() then SECTOR * r.first + at <= |r.card| && data == r.card[start..SECTOR * r.first + at]
        else
          && at == r.offset + n && OffsetIn(r.offset) + n <= |r.copy|
          && data == r.copy[OffsetIn(r.offset)..OffsetIn(r.offset) + n])
    && (dependable && !(r.cached && at == r.offset + n) ==> SECTOR * r.first + at <= r.reach)
  }

  lemma FirstPiece(r: Run, piece: seq<byte>, dependable: bool)
    requires |piece| == Piece(r.offset, r.len) && |r.copy| == SECTOR && r.len > 0
    requires r.Trusted() ==>
               && SECTOR * r.first + r.offset + |piece| <= |r.card|
               && piece == r.card[SECTOR * r.first + r.offset..SECTOR * r.first + r.offset + |piece|]
    requires OffsetIn(r.offset) + |piece| <= SECTOR
    requires r.cached ==> piece == r.copy[OffsetIn(r.offset)..OffsetIn(r.offset) + |piece|]
    requires dependable && !r.cached ==> SECTOR * r.first + r.offset + |piece| <= r.reach
    ensures SoFar(r, r.offset + |piece|, [] + piece, dependable)
  {
    assert [] + piece == piece;
  }

  lemma NextPiece(r: Run, at: nat, rest: nat, data: seq<byte>, piece: seq<byte>, dependable: bool)
    requires SoFar(r, at, data, dependable) && r.Trusted() && at + rest == r.offset + r.len && 0 < |piece| <= rest
    requires SECTOR * r.first + at + |piece| <= |r.card|
    requires piece == r.card[SECTOR * r.first + at..SECTOR * r.first + at + |piece|]
    requires dependable ==> SECTOR * r.first + at + |piece| <= r.reach
    ensures SoFar(r, at + |piece|, data + piece, dependable)
  {
    Adjoin(r.card, SECTOR * r.first + r.offset, SECTOR * r.first + at, SECTOR * r.first + at + |piece|);
  }

  /** A piece beyond what can be addressed, and not in the cache: so is the end of the read. */
  lemma StopsHere(r: Run, at: nat, rest: nat, data: seq<byte>)
    requires at + rest == r.offset + r.len && rest > 0 && SECTOR * r.first + at + Piece(at, rest) > r.reach
    requires if at == r.offset then !r.cached else SoFar(r, at, data, true)
    ensures SECTOR * r.first + r.offset + r.len > r.reach && !(r.cached && OffsetIn(r.offset) + r.len <= SECTOR)
  {
    hide OffsetIn;
  }

  lemma AllRead(r: Run, at: nat, data: seq<byte>, dependable: bool)
    requires SoFar(r, at, data, dependable) && at == r.offset + r.len && r.len > 0
    ensures var end := SECTOR * r.first + r.offset + r.len;
            && (r.Trusted() ==> end <= |r.card| && data == r.card[SECTOR * r.first + r.offset..end])
            && (!r.Trusted() ==>
                  && OffsetIn(r.offset) + r.len <= |r.copy|
                  && data == r.copy[OffsetIn(r.offset)..OffsetIn(r.offset) + r.len])
            && (dependable ==> end <= r.reach || (r.cached && OffsetIn(r.offset) + r.len <= SECTOR))
  {
    hide OffsetIn;
  }

  /** Bytes of a read that lie in the sector it begins in. */
  function Piece(at: nat, rest: nat): nat {
    Min(SECTOR - OffsetIn(at), rest)
  }

  lemma CachedSlice(card: seq<byte>, lba: nat, bytes: seq<byte>, lo: nat, hi: nat)
    requires lo <= hi <= SECTOR == |bytes|
    ensures HeldBy(card, lba, bytes) ==>
              SECTOR * lba + hi <= |card| && bytes[lo..hi] == card[SECTOR * lba + lo..SECTOR * lba + hi]
  {
    if HeldBy(card, lba, bytes) {
      SliceOfSlice(card, SECTOR * lba, SECTOR, lo, hi);
    }
  }

  lemma InSector(at: nat)
    ensures OffsetIn(at) < SECTOR
  {}

  /** The next piece ends inside its sector, or exactly where the next one starts. */
  lemma NextSector(at: nat, n: nat, first: nat)
    requires 0 < n <= SECTOR - OffsetIn(at)
    ensures SECTOR * (first + SectorOf(at)) + OffsetIn(at) == SECTOR * first + at
    ensures n == SECTOR - OffsetIn(at) ==> OffsetIn(at + n) == 0 && SectorOf(at + n) == SectorOf(at) + 1
  {
    var q, r := at / 512, at % 512;
    assert at == 512 * q + r;
    if n == 512 - r {
      assert at + n == 512 * (q + 1);
    }
  }

  lemma NoWrap(first: u32, at: nat)
    requires at <= U32_MAX
    ensures Wrap32(first + SectorOf(at)) < first <==> first + SectorOf(at) > U32_MAX
    ensures Wrap32(first + SectorOf(at)) >= first ==> Wrap32(first + SectorOf(at)) == first + SectorOf(at)
  {}

  /** Of a whole number of sectors a piece is part exactly when its sector is. */
  lemma InCard(first: nat, at: nat, n: nat, size: nat)
    requires 0 < n <= SECTOR - OffsetIn(at) && OffsetIn(size) == 0
    ensures SECTOR * first + at + n <= size <==> SECTOR * (first + SectorOf(at) + 1) <= size
  {
    var q, r, z := at / 512, at % 512, size / 512;
    assert at == 512 * q + r && size == 512 * z;
    if 512 * first + at + n <= size {
      assert 512 * (first + q) < 512 * z;
    }
  }
}
