/**
 * Page-by-page installation of a staged full image. The source may lie in
 * flash at or above the destination (compaction) or on an external medium.
 */
module Copy {
  import opened Bytes
  import opened Flash
  import opened Cache

  const READ_FAILED: int := 0xBB
  const WRITE_FAILED: int := 0xBF

  /**
   * Where the staged bytes are: an address in program flash, or a medium of its own that may fail
   * unless it is reliable.
   */
  datatype Source = Internal(addr: nat) | External(data: seq<byte>, reliable: bool)

  /** No access to the source fails. */
  predicate Reliable(src: Source) {
    src.Internal? || src.reliable
  }

  predicate InReach(src: Source, size: nat, flash: seq<byte>) {
    match src
    case Internal(addr) => addr + size <= |flash|
    case External(data, _) => size <= |data|
  }

  function StagedBytes(src: Source, flash: seq<byte>, from: nat, to: nat): (r: seq<byte>)
    requires from <= to && InReach(src, to, flash)
    ensures |r| == to - from
  {
    match src
    case Internal(addr) => flash[addr + from..addr + to]
    case External(data, _) => data[from..to]
  }

  /** Reading an external medium may fail. */
  method StagedRead(src: Source, nvm: Nvm, offset: nat, n: nat) returns (ok: bool, data: seq<byte>)
    requires InReach(src, offset + n, nvm.flash)
    ensures ok ==> data == StagedBytes(src, nvm.flash, offset, offset + n)
    ensures Reliable(src) ==> ok
  {
    ok := Reliable(src);
    if !ok {
      ok := *;
    }
    data := StagedBytes(src, nvm.flash, offset, offset + n);
  }

  /** Writing below `upTo` leaves the staged bytes from `upTo` on as they were. */
  lemma StagedKept(src: Source, w: seq<byte>, w': seq<byte>, destination: nat, upTo: nat, from: nat, to: nat)
    requires from <= to && InReach(src, to, w) && SameOutside(w, w', destination, destination + upTo)
    requires src.Internal? ==> destination <= src.addr && upTo <= from
    ensures InReach(src, to, w') && StagedBytes(src, w', from, to) == StagedBytes(src, w, from, to)
  {}

  /**
   * Installs `size` staged bytes at `destination`. On success the destination
   * holds exactly the bytes staged at the start, erased to the end of its last
   * page, although the copy overwrites its own source; at no moment is a byte
   * outside the rounded-up destination disturbed.
   */
  method CopyStagedFullImage(cache: PageCache, src: Source, size: nat, destination: nat) returns (res: int)
    requires cache.Valid() && !cache.dirty && cache.page == 0
    requires destination % PAGE == 0 && destination + RoundUp(size) <= |cache.nvm.flash|
    requires InReach(src, size, cache.nvm.flash)
    requires src.Internal? ==> destination <= src.addr
    modifies cache.nvm, cache.buf
    ensures cache.Valid()
    ensures Confined(old(cache.nvm.trail), old(cache.nvm.flash), cache.nvm.trail, cache.nvm.flash, destination,
             destination + RoundUp(size))
    ensures res == 0 ==>
              cache.nvm.flash[destination..destination + size] == StagedBytes(src, old(cache.nvm.flash), 0, size)
    ensures res == 0 ==> forall i | destination + size <= i < destination + RoundUp(size) :: cache.nvm.flash[i] == 0xFF
    ensures res == 0 || res == WRITE_FAILED || (res == READ_FAILED && src.External?)
    ensures cache.nvm.Sound() && Reliable(src) ==> res == 0
  {
    hide Confined, RoundUp;
    ghost var t0, w0, end := cache.nvm.trail, cache.nvm.flash, RoundUp(size);
    cache.nvm.Untouched(destination, destination + end);
    var off := 0;
    while off < size
      invariant off % PAGE == 0 && off <= end && cache.Valid() && |cache.nvm.flash| == |w0|
      invariant Confined(t0, w0, cache.nvm.trail, cache.nvm.flash, destination, destination + end)
      invariant SameOutside(w0, cache.nvm.flash, destination, destination + off)
      invariant Installed(cache.nvm.flash, destination, off, StagedBytes(src, w0, 0, size))
    {
      hide SameOutside, Installed;
      PagesAhead(off, size);
      ghost var t, w := cache.nvm.trail, cache.nvm.flash;
      res := CopyPage(cache, src, size, destination, off, w0);
      ConfinedWiden(t, w, cache.nvm.trail, cache.nvm.flash, destination + off, destination + off + PAGE, destination,
                    destination + end);
      ConfinedTransitive(t0, w0, t, w, cache.nvm.trail, cache.nvm.flash, destination, destination + end);
      if res != 0 {
        return;
      }
      off := off + PAGE;
    }
    PagesDone(off, size);
    InstalledMeans(cache.nvm.flash, destination, off, StagedBytes(src, w0, 0, size));
    res := 0;
  }

  /** Reads one source page into the cache buffer before its destination is erased. */
  method CopyPage(cache: PageCache, src: Source, size: nat, destination: nat, off: nat, ghost w0: seq<byte>)
    returns (res: int)
    requires cache.Valid() && !cache.dirty && cache.page == 0
    requires destination % PAGE == 0 && off % PAGE == 0 && off < size && destination + off + PAGE <= |cache.nvm.flash|
    requires InReach(src, size, w0) && |w0| == |cache.nvm.flash|
    requires src.Internal? ==> destination <= src.addr
    requires SameOutside(w0, cache.nvm.flash, destination, destination + off)
    requires Installed(cache.nvm.flash, destination, off, StagedBytes(src, w0, 0, size))
    modifies cache.nvm, cache.buf
    ensures cache.Valid() && |cache.nvm.flash| == |w0|
    ensures Confined(old(cache.nvm.trail), old(cache.nvm.flash), cache.nvm.trail, cache.nvm.flash,
                     destination + off, destination + off + PAGE)
    ensures res == 0 || res == WRITE_FAILED || (res == READ_FAILED && src.External?)
    ensures cache.nvm.Sound() && Reliable(src) ==> res == 0
    ensures res == 0 ==> Installed(cache.nvm.flash, destination, off + PAGE, StagedBytes(src, w0, 0, size))
    ensures res == 0 ==> SameOutside(w0, cache.nvm.flash, destination, destination + off + PAGE)
  {
    hide Confined, Installed, SameOutside, Splice;
    cache.nvm.Untouched(destination + off, destination + off + PAGE);
    var n := Min(PAGE, size - off);
    ghost var w := cache.nvm.flash;
    StagedKept(src, w0, w, destination, off, off, off + n);
    var ok, data := StagedRead(src, cache.nvm, off, n);
    if !ok {
      return READ_FAILED;
    }
    var page := data + Fill(PAGE - n, 0xFF);
    forall i | 0 <= i < PAGE {
      cache.buf[i] := page[i];
    }
    assert cache.buf[..] == page;
    PagesAdd(destination, off);
    ok := cache.nvm.ChangePageVerified(destination + off, cache.buf[..], true);
    if !ok {
      return WRITE_FAILED;
    }
    PageInstalled(src, w0, w, size, destination, off);
    res := 0;
  }

  lemma InstalledMeans(flash: seq<byte>, destination: nat, off: nat, source: seq<byte>)
    requires Installed(flash, destination, off, source) && |source| <= off
    ensures flash[destination..destination + |source|] == source
    ensures forall i | destination + |source| <= i < destination + off :: flash[i] == 0xFF
  {}

  /** The first `off` bytes of the destination hold the source's bytes, and erased flash past its end. */
  ghost predicate Installed(flash: seq<byte>, destination: nat, off: nat, source: seq<byte>) {
    && destination + off <= |flash|
    && forall i {:trigger flash[i]} | destination <= i < destination + off ::
         flash[i] == if i - destination < |source| then source[i - destination] else 0xFF
  }

  lemma PageInstalled(src: Source, w0: seq<byte>, w: seq<byte>, size: nat, destination: nat, off: nat)
    requires InReach(src, size, w0) && off < size && destination + off + PAGE <= |w|
    requires SameOutside(w0, w, destination, destination + off)
    requires Installed(w, destination, off, StagedBytes(src, w0, 0, size))
    ensures var n := Min(PAGE, size - off);
            var w' := Splice(w, destination + off, StagedBytes(src, w0, off, off + n) + Fill(PAGE - n, 0xFF));
            && Installed(w', destination, off + PAGE, StagedBytes(src, w0, 0, size))
            && SameOutside(w0, w', destination, destination + off + PAGE)
  {
    hide Installed, SameOutside, Splice, StagedBytes, IsPage;
    var n := Min(PAGE, size - off);
    var data, source := StagedBytes(src, w0, off, off + n), StagedBytes(src, w0, 0, size);
    StagedSlice(src, w0, size, off, off + n);
    PagePadded(source, off, n);
    InstalledNext(w, destination, off, source, data + Fill(PAGE - n, 0xFF));
    OutsideNext(w0, w, destination, off, data + Fill(PAGE - n, 0xFF));
  }

  lemma StagedSlice(src: Source, w0: seq<byte>, size: nat, from: nat, to: nat)
    requires from <= to <= size && InReach(src, size, w0)
    ensures StagedBytes(src, w0, from, to) == StagedBytes(src, w0, 0, size)[from..to]
  {
    match src {
      case Internal(addr) => SliceOfSlice(w0, addr, size, from, to);
      case External(bytes, _) => SliceOfSlice(bytes, 0, size, from, to);
    }
  }

  /** The next page: source bytes, and 0xFF behind the last of them. */
  predicate IsPage(page: seq<byte>, source: seq<byte>, off: nat) {
    |page| == PAGE && forall i | 0 <= i < PAGE :: page[i] == if off + i < |source| then source[off + i] else 0xFF
  }

  lemma PagePadded(source: seq<byte>, off: nat, n: nat)
    requires off < |source| && n == Min(PAGE, |source| - off)
    ensures IsPage(source[off..off + n] + Fill(PAGE - n, 0xFF), source, off)
  {}

  lemma InstalledNext(w: seq<byte>, destination: nat, off: nat, source: seq<byte>, page: seq<byte>)
    requires destination + off + PAGE <= |w| && Installed(w, destination, off, source) && IsPage(page, source, off)
    ensures Installed(Splice(w, destination + off, page), destination, off + PAGE, source)
  {}

  lemma OutsideNext(w0: seq<byte>, w: seq<byte>, destination: nat, off: nat, page: seq<byte>)
    requires SameOutside(w0, w, destination, destination + off) && destination + off + |page| <= |w|
    ensures SameOutside(w0, Splice(w, destination + off, page), destination, destination + off + |page|)
  {}

  lemma PagesAdd(a: nat, b: nat)
    requires a % PAGE == 0 && b % PAGE == 0
    ensures (a + b) % PAGE == 0
  {}

  lemma PagesAhead(off: nat, size: nat)
    requires off % PAGE == 0 && off < size
    ensures off + PAGE <= RoundUp(size)
  {}

  lemma PagesDone(off: nat, size: nat)
    requires off % PAGE == 0 && size <= off <= RoundUp(size)
    ensures off == RoundUp(size)
  {}
}
