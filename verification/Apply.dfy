/**
 * The apply run of the bootloader. A run of any outcome leaves a trail of
 * flash contents, one per erase or program; a power loss may expose any of
 * them. The main results say what every one of them is good for.
 */
module Apply {
  import opened Bytes
  import opened Flash
  import opened Cache
  import opened Memory
  import opened CrleStream
  import opened Delta
  import opened Decoder
  import opened PreFlight
  import opened Container
  import opened Copy
  import opened Settings

  const OTA_APPLY: byte := 0x6A
  const STAGE_EXPANDED: byte := 0xED
  const CODEC_FULL: byte := 0
  const CODEC_INPLACE: byte := 2
  const ENDF: seq<byte> := [0x45, 0x6E, 0x64, 0x46]
  const NOT_APPROVED: seq<byte> := [0, 0, 0, 0]

  /**
   * One installation: the flash it started from, where the settings are, where
   * the application's space ends, and the manifest with what its hash promises.
   * `internal` says that the container itself is staged in this flash.
   */
  datatype Install = Install(before: seq<byte>, settings: nat, hi: nat, hash: seq<byte> -> seq<byte>, m: Manifest,
      internal: bool)

  ghost predicate Placed(run: Install) {
    && APP_BASE <= run.hi <= run.settings && run.settings + PAGE <= |run.before|
    && (run.internal ==> run.hi <= run.m.approvalAddr && run.m.approvalAddr + 4 <= run.settings)
  }

  /** The application is still what it was. */
  ghost predicate Intact(s: seq<byte>, run: Install)
    requires Placed(run) && |s| == |run.before|
  {
    s[APP_BASE..run.hi] == run.before[APP_BASE..run.hi]
  }

  /** The application's space holds an image with the promised hash. */
  ghost predicate Verified(s: seq<byte>, run: Install)
    requires Placed(run) && |s| == |run.before|
  {
    APP_BASE + run.m.imageSize <= run.hi && run.hash(s[APP_BASE..APP_BASE + run.m.imageSize]) == run.m.imageHash
  }

  /** The approval of a container in flash has been used up. */
  ghost predicate Consumed(s: seq<byte>, run: Install)
    requires Placed(run) && |s| == |run.before|
  {
    run.internal ==> s[run.m.approvalAddr..run.m.approvalAddr + 4] == [0, 0, 0, 0]
  }

  /**
   * A content that a power loss may leave behind. If the bootloader may start
   * what it finds there, the application is still what it was, or the new
   * image's hash was verified; and the application is not touched before the
   * approval has been used up.
   */
  ghost predicate Safe(s: seq<byte>, run: Install)
    requires Placed(run) && |s| == |run.before|
  {
    && (MayStart(s, run.settings) ==> Intact(s, run) || Verified(s, run))
    && (Intact(s, run) || Consumed(s, run))
  }

  ghost predicate TrailSafe(t0: seq<seq<byte>>, t: seq<seq<byte>>, run: Install)
    requires Placed(run)
  {
    t0 <= t && forall i | |t0| <= i < |t| :: |t[i]| == |run.before| && Safe(t[i], run)
  }

  /** Changes above the application and below the settings are safe while the application is intact. */
  lemma SafeOutside(t0: seq<seq<byte>>, w0: seq<byte>, t: seq<seq<byte>>, w: seq<byte>, lo: nat, end: nat, run: Install)
    requires Placed(run) && |w0| == |run.before| && Intact(w0, run)
    requires Confined(t0, w0, t, w, lo, end) && run.hi <= lo <= end <= run.settings
    ensures TrailSafe(t0, t, run) && |w| == |run.before| && Intact(w, run)
  {
    hide MayStart;
    forall i | |t0| <= i < |t| ensures |t[i]| == |w0| && t[i][APP_BASE..run.hi] == w0[APP_BASE..run.hi] {
      assert SameOutside(w0, t[i], lo, end);
    }
  }

  /** While nothing may be started and the approval is used up, anything may happen to the application. */
  lemma SafeUnmarked(t0: seq<seq<byte>>, w0: seq<byte>, t: seq<seq<byte>>, w: seq<byte>, run: Install)
    requires Placed(run) && |w0| == |run.before| && Confined(t0, w0, t, w, APP_BASE, run.hi)
    requires !MayStart(w0, run.settings) && Consumed(w0, run)
    ensures TrailSafe(t0, t, run) && |w| == |run.before| && !MayStart(w, run.settings) && Consumed(w, run)
    ensures w[run.hi..run.settings] == w0[run.hi..run.settings]
  {
    hide MayStart;
    AboveKept(w0, w, run);
    forall i | |t0| <= i < |t| ensures |t[i]| == |run.before| && !MayStart(t[i], run.settings) && Consumed(t[i], run) {
      assert SameOutside(w0, t[i], APP_BASE, run.hi);
      AboveKept(w0, t[i], run);
    }
  }

  /** What is above the application's space stays as it is: the settings and the approval. */
  lemma AboveKept(w0: seq<byte>, w: seq<byte>, run: Install)
    requires Placed(run) && |w0| == |run.before| && SameOutside(w0, w, APP_BASE, run.hi)
    ensures MayStart(w, run.settings) == MayStart(w0, run.settings) && Consumed(w, run) == Consumed(w0, run)
    ensures MarksValidApp(w, run.settings) == MarksValidApp(w0, run.settings)
    ensures w[run.hi..run.settings] == w0[run.hi..run.settings]
  {
    hide IntegrityValid;
    assert w[run.settings..run.settings + RECORD_LEN] == w0[run.settings..run.settings + RECORD_LEN];
    assert w[run.settings..run.settings + 2] == w0[run.settings..run.settings + 2];
    if run.internal {
      var a := run.m.approvalAddr;
      assert w[a..a + 4] == w0[a..a + 4];
    }
  }

  lemma TrailSafeTransitive(t0: seq<seq<byte>>, t1: seq<seq<byte>>, t2: seq<seq<byte>>, run: Install)
    requires Placed(run) && TrailSafe(t0, t1, run) && TrailSafe(t1, t2, run)
    ensures TrailSafe(t0, t2, run)
  {
    hide Safe;
    forall i | |t0| <= i < |t2| ensures |t2[i]| == |run.before| && Safe(t2[i], run) {
      if i < |t1| {
        assert t2[i] == t1[i];
      }
    }
  }

  /** A commit is safe when what stands in flash may be started, and was not touched before the approval was used up. */
  lemma SafeCommit(t0: seq<seq<byte>>, w0: seq<byte>, t: seq<seq<byte>>, w: seq<byte>, run: Install)
    requires Placed(run) && |w0| == |run.before| && Confined(t0, w0, t, w, run.settings, run.settings + PAGE)
    requires Intact(w0, run) || Verified(w0, run)
    requires Intact(w0, run) || Consumed(w0, run)
    ensures TrailSafe(t0, t, run) && |w| == |run.before|
    ensures Intact(w, run) == Intact(w0, run) && Consumed(w, run) == Consumed(w0, run)
    ensures w[APP_BASE..run.settings] == w0[APP_BASE..run.settings]
  {
    hide MayStart;
    BelowKept(w0, w, run);
    forall i | |t0| <= i < |t| ensures |t[i]| == |run.before| && Safe(t[i], run) {
      assert SameOutside(w0, t[i], run.settings, run.settings + PAGE);
      BelowKept(w0, t[i], run);
    }
  }

  lemma BelowKept(w0: seq<byte>, w: seq<byte>, run: Install)
    requires Placed(run) && |w0| == |run.before| && SameOutside(w0, w, run.settings, run.settings + PAGE)
    ensures Intact(w, run) == Intact(w0, run) && Verified(w, run) == Verified(w0, run)
    ensures Consumed(w, run) == Consumed(w0, run)
    ensures w[APP_BASE..run.settings] == w0[APP_BASE..run.settings]
  {
    assert w[APP_BASE..run.hi] == w0[APP_BASE..run.hi];
    if APP_BASE + run.m.imageSize <= run.hi {
      assert w[APP_BASE..APP_BASE + run.m.imageSize] == w0[APP_BASE..APP_BASE + run.m.imageSize];
    }
    if run.internal {
      var a := run.m.approvalAddr;
      assert w[a..a + 4] == w0[a..a + 4];
    }
  }

  /** The marker `EndF` followed by its own offset. */
  predicate EndfAt(flash: seq<byte>, off: nat) {
    && APP_BASE + off + 8 <= |flash|
    && flash[APP_BASE + off..APP_BASE + off + 4] == [0x45, 0x6E, 0x64, 0x46]
    && Get32(flash[APP_BASE + off + 4..APP_BASE + off + 8]) == off
  }

  /** The lowest trailer of the application region, scanning byte by byte. */
  method FindBodyLen(nvm: Nvm, limit: nat) returns (found: bool, bodyLen: u32)
    requires limit <= |nvm.flash| < 0x1_0000_0000
    ensures found ==> APP_BASE + bodyLen + ENDF_LEN <= limit && EndfAt(nvm.flash, bodyLen)
    ensures forall off: nat | APP_BASE + off + ENDF_LEN <= limit && EndfAt(nvm.flash, off) :: found && bodyLen <= off
  {
    hide Get32;
    if limit <= APP_BASE {
      return false, 0;
    }
    var off := 0;
    while off + ENDF_LEN <= limit - APP_BASE
      invariant forall o: nat | o < off :: !EndfAt(nvm.flash, o)
      decreases limit - off
    {
      var e := nvm.flash[APP_BASE + off..APP_BASE + off + 8];
      assert e[..4] == nvm.flash[APP_BASE + off..APP_BASE + off + 4];
      assert e[4..8] == nvm.flash[APP_BASE + off + 4..APP_BASE + off + 8];
      if e[..4] == ENDF && Get32(e[4..8]) == off {
        return true, off;
      }
      off := off + 1;
    }
    return false, 0;
  }

  class Updater {
    const cache: PageCache
    const settings: nat
    /** The hash of a stretch of flash; nothing is assumed about it. */
    const hash: seq<byte> -> seq<byte>
    /** The result the application finds after the reset. */
    var diagnostic: int

    ghost predicate Valid()
      reads this, cache, cache.nvm, cache.buf
    {
      && cache.Valid() && cache.page == 0
      && settings % PAGE == 0 && CEILING_EXPANDED <= settings && settings + PAGE <= |cache.nvm.flash|
    }

    /** `run` is an installation of this updater, on flash of this size. */
    ghost predicate Runs(run: Install)
      reads cache.nvm
    {
      Placed(run) && run.settings == settings && run.hash == hash && |run.before| == |cache.nvm.flash|
    }

    ghost predicate RunSafe(t: seq<seq<byte>>, run: Install)
      requires Placed(run)
      reads cache.nvm
    {
      TrailSafe(t, cache.nvm.trail, run)
    }

    constructor (c: PageCache, s: nat, h: seq<byte> -> seq<byte>)
      requires c.Valid() && c.page == 0
      requires s % PAGE == 0 && CEILING_EXPANDED <= s && s + PAGE <= |c.nvm.flash|
      ensures Valid() && cache == c && settings == s && hash == h
    {
      cache := c;
      settings := s;
      hash := h;
      diagnostic := 0;
    }

    /** Zeroes the approval word of a container staged in flash, so that it is applied at most once. */
    method ClearApproval(src: Source, approvalAddr: nat, ghost run: Install) returns (ok: bool)
      requires Valid() && Runs(run) && Intact(cache.nvm.flash, run) && run.internal == src.Internal?
      requires approvalAddr == run.m.approvalAddr
      requires src.Internal? ==>
                run.hi <= PageOf(approvalAddr) && approvalAddr + 4 <= PageOf(approvalAddr) + PAGE <= settings
      modifies cache, cache.nvm, cache.buf
      ensures cache.Valid() && Runs(run)
      ensures RunSafe(old(cache.nvm.trail), run) && Intact(cache.nvm.flash, run)
      ensures SameRecord(old(cache.nvm.flash), cache.nvm.flash)
      ensures ok ==> Valid() && Consumed(cache.nvm.flash, run)
      ensures ok && src.Internal? ==> cache.nvm.flash == Splice(old(cache.nvm.flash), approvalAddr, NOT_APPROVED)
      ensures src.External? ==> cache.nvm.flash == old(cache.nvm.flash) && cache.nvm.trail == old(cache.nvm.trail)
      ensures cache.nvm.Sound() && Reliable(src) ==> ok
    {
      hide Confined, Safe, Intact;
      ghost var t0, w0 := cache.nvm.trail, cache.nvm.flash;
      if src.External? {
        ok := src.reliable;
        if !ok {
          ok := *; // the medium's own write may fail
        }
        return;
      }
      ghost var lo := PageOf(approvalAddr);
      ok := cache.Write(approvalAddr, NOT_APPROVED, lo, lo + PAGE);
      if ok {
        ghost var t1, w1 := cache.nvm.trail, cache.nvm.flash;
        ok := cache.Flush(lo, lo + PAGE);
        ConfinedTransitive(t0, w0, t1, w1, cache.nvm.trail, cache.nvm.flash, lo, lo + PAGE);
      }
      SafeOutside(t0, w0, cache.nvm.trail, cache.nvm.flash, lo, lo + PAGE, run);
      RecordKept(t0, w0, cache.nvm.trail, cache.nvm.flash, lo, lo + PAGE);
    }

    /** The settings record is what it was. */
    ghost predicate SameRecord(before: seq<byte>, after: seq<byte>) {
      && settings + RECORD_LEN <= |before| == |after|
      && after[settings..settings + RECORD_LEN] == before[settings..settings + RECORD_LEN]
    }

    lemma RecordKept(t0: seq<seq<byte>>, w0: seq<byte>, t: seq<seq<byte>>, w: seq<byte>, lo: nat, hi: nat)
      requires Confined(t0, w0, t, w, lo, hi) && hi <= settings && settings + RECORD_LEN <= |w0|
      ensures SameRecord(w0, w)
    {}

    /** Marks the bank invalid, or valid for the image in place; safe under the stated conditions. */
    method CommitSettings(bank0: u16, crc: u16, size: u32, ghost run: Install)
      requires Valid() && Runs(run) && bank0 != U16_MAX
      requires Intact(cache.nvm.flash, run) || Verified(cache.nvm.flash, run)
      requires Intact(cache.nvm.flash, run) || Consumed(cache.nvm.flash, run)
      modifies cache.nvm
      ensures Valid() && Runs(run) && RunSafe(old(cache.nvm.trail), run)
      ensures MarksValidApp(cache.nvm.flash, settings) <==> bank0 == BANK_VALID_APP
      ensures MayStart(cache.nvm.flash, settings) <==> bank0 == BANK_VALID_APP
      ensures cache.nvm.flash[settings..settings + PREFIX_LEN] == CommittedPrefix(bank0, crc, size)
      ensures Consumed(cache.nvm.flash, run) == old(Consumed(cache.nvm.flash, run))
      ensures SameOutside(old(cache.nvm.flash), cache.nvm.flash, settings, settings + PAGE)
      ensures cache.nvm.flash[APP_BASE..settings] == old(cache.nvm.flash)[APP_BASE..settings]
    {
      hide MarksValidApp, MayStart, Safe, Intact, Verified, Consumed;
      ghost var t0, w0 := cache.nvm.trail, cache.nvm.flash;
      Commit(cache.nvm, settings, bank0, crc, size);
      SafeCommit(t0, w0, cache.nvm.trail, cache.nvm.flash, run);
    }

    /** Commits the new image if, and only if, what stands in flash has the promised hash. */
    method FinishAppUpdate(m: Manifest, ghost run: Install) returns (ok: bool)
      requires Valid() && Runs(run) && run.m == m && APP_BASE + m.imageSize <= run.hi && Consumed(cache.nvm.flash, run)
      modifies this`diagnostic, cache.nvm
      ensures Valid() && Runs(run) && RunSafe(old(cache.nvm.trail), run)
      ensures ok <==> hash(old(cache.nvm.flash)[APP_BASE..APP_BASE + m.imageSize]) == m.imageHash
      ensures ok ==> HoldsImage(m, cache.nvm.flash)
      ensures diagnostic == if ok then 0xB8 else 0xB7
      ensures cache.nvm.flash[APP_BASE..settings] == old(cache.nvm.flash)[APP_BASE..settings]
      ensures Consumed(cache.nvm.flash, run)
    {
      hide MarksValidApp, MayStart, Safe, Intact, Consumed, HoldsImage, CommittedPrefix;
      ghost var w0 := cache.nvm.flash;
      var image := cache.nvm.flash[APP_BASE..APP_BASE + m.imageSize];
      if hash(image) != m.imageHash {
        diagnostic := 0xB7;
        return false;
      }
      var crc := Crc16Compute(image);
      CommitSettings(BANK_VALID_APP, crc, m.imageSize, run);
      HoldsNow(m, w0, cache.nvm.flash, crc);
      diagnostic := 0xB8;
      return true;
    }

    /**
     * Streams the patch through the decoder in chunks of 512 bytes, with the
     * application region up to `hi` as its workspace.
     */
    method RunDecoder(src: Source, size: nat, hi: nat, ghost g: Geometry, ghost image: seq<byte>)
      returns (r: int, patchPos: nat)
      requires Valid() && hi % PAGE == 0 && APP_BASE <= hi <= settings
      requires InReach(src, size, cache.nvm.flash) && (src.Internal? ==> hi <= src.addr)
      modifies cache, cache.nvm, cache.buf
      ensures cache.Valid() && cache.Home(APP_BASE, hi)
      ensures Confined(old(cache.nvm.trail), old(cache.nvm.flash), cache.nvm.trail, cache.nvm.flash, APP_BASE, hi)
      ensures patchPos <= size
      ensures DecodesTo(g, image, old(cache.nvm.flash), src, size, hi) && cache.nvm.Sound() && Reliable(src) ==>
                r == g.to && patchPos == size && cache.View()[APP_BASE..APP_BASE + g.to] == image
      ensures var fault := PatchFault(StagedBytes(src, old(cache.nvm.flash), 0, size));
              fault.Some? && Reliable(src) ==>
                r == fault.value && cache.nvm.trail == old(cache.nvm.trail) && cache.nvm.flash == old(cache.nvm.flash)
      ensures var fate := PatchFate(g, hi - APP_BASE, StagedBytes(src, old(cache.nvm.flash), 0, size));
              fate.Some? && cache.nvm.Sound() && Reliable(src) ==> r == fate.value
    {
      hide PatchMeans, Confined, PatchFault, PatchBody, PatchFate, StagedBytes;
      hide InPlaceDecoder.Settled, InPlaceDecoder.HeaderEnd, InPlaceDecoder.Ahead, GeometryFits, FinalMemory;
      ghost var w0 := cache.nvm.flash;
      ghost var patch := StagedBytes(src, w0, 0, size);
      var ws := new Workspace(cache, APP_BASE, hi);
      var dec := new InPlaceDecoder(ws);
      ghost var start := ws.region;
      ghost var on := DecodesTo(g, image, w0, src, size, hi);
      dec.Begin(patch, g, start, image);
      r, patchPos := StreamPatch(dec, src, size, [], w0, g, start, image);
      if on && r == g.to {
        FieldsSmall(g, hi - APP_BASE);
        SliceOfSlice(cache.View(), APP_BASE, hi - APP_BASE, 0, g.to);
      }
    }

    /** The chunk loop, and the call that finishes the decoder. */
    method StreamPatch(dec: InPlaceDecoder, src: Source, size: nat, ghost rest: seq<byte>, ghost w0: seq<byte>,
                       ghost g: Geometry, ghost start: seq<byte>, ghost image: seq<byte>)
      returns (r: int, patchPos: nat)
      requires dec.Valid() && dec.mem.cache == cache && cache.nvm.flash == w0
      requires InReach(src, size, w0) && (src.Internal? ==> dec.mem.hi <= src.addr)
      requires dec.reader.future == StagedBytes(src, w0, 0, size) + rest && dec.reader.ChunkLeft() == 0
      modifies dec, dec.reader, dec.mem, cache, cache.nvm, cache.buf
      ensures dec.Valid() && dec.mem.Kept(old(cache.nvm.trail), w0)
      ensures patchPos <= size
      ensures r >= 0 ==> dec.state == Done && r == dec.toSize
      ensures old(dec.Settled(OK, g, start, image)) && cache.nvm.Sound() && Reliable(src) ==>
                && patchPos == size
                && dec.Concludes(r, old(dec.state == Init && dec.initState == 0), rest, g, start, image)
      ensures old(dec.HeaderEnd()).Some? && rest == [] && Reliable(src) ==>
                r == old(dec.HeaderEnd()).value && cache.nvm.trail == old(cache.nvm.trail) && cache.nvm.flash == w0
      ensures old(dec.Ahead(g)).Some? && rest == [] && cache.nvm.Sound() && Reliable(src) ==>
                r == old(dec.Ahead(g)).value
    {
      hide Confined, Workspace.Valid, InPlaceDecoder.Bound, InPlaceDecoder.HeaderEnd, InPlaceDecoder.Ahead;
      hide InPlaceDecoder.Finished, InReach, StagedBytes, InPlaceDecoder.Settled;
      dec.mem.KeptNow();
      ghost var t, sure := cache.nvm.trail, cache.nvm.Sound() && Reliable(src);
      ghost var patch := StagedBytes(src, w0, 0, size);
      ghost var on, first := dec.Settled(OK, g, start, image), dec.state == Init && dec.initState == 0;
      ghost var fault := if rest == [] && Reliable(src) then dec.HeaderEnd() else None;
      ghost var fate := if rest == [] && sure then dec.Ahead(g) else None;
      dec.EndsBadly(g);
      assert patch[0..] == patch && patch + [] == patch;
      patchPos := 0;
      r := OK;
      while patchPos < size && r == OK
        invariant patchPos <= size && dec.Valid() && dec.mem.Kept(t, w0) && r <= 0
        invariant r == OK || (!Reliable(src) && r == IO_FAILED) || dec.state == Failed
        invariant dec.reader.future == patch[patchPos..] + rest
        invariant on && sure ==> dec.Settled(r, g, start, image) && r == OK
        invariant r == OK && dec.state == Init && dec.initState == 0 ==> first
        invariant fault.Some? ==>
                    && (r == fault.value
                         || (r == OK && dec.HeaderEnd() == fault && dec.reader.Input() == patch[patchPos..]))
                    && cache.nvm.trail == t && cache.nvm.flash == w0
        invariant fate.Some? ==>
                    r == fate.value || (r == OK && dec.Ahead(g) == fate && dec.reader.Input() == patch[patchPos..])
        decreases r == OK, size - patchPos
      {
        var more;
        r, more := NextChunk(dec, src, size, patchPos, patch, rest, t, w0, g, start, image);
        patchPos := patchPos + more;
      }
      if (fault.Some? || fate.Some?) && r == OK {
        assert patch[patchPos..] == [];
        dec.EndsBadly(g);
      }
      ghost var t', w' := cache.nvm.trail, cache.nvm.flash;
      if r == OK {
        r := dec.Finalize(g, start, image);
      } else {
        var _ := dec.Finalize(g, start, image);
      }
      dec.mem.KeptThrough(t, w0, t', w');
    }

    /** One chunk of the loop: read, and fed to the decoder. */
    method NextChunk(dec: InPlaceDecoder, src: Source, size: nat, patchPos: nat, ghost patch: seq<byte>,
                     ghost more: seq<byte>, ghost t: seq<seq<byte>>, ghost w0: seq<byte>, ghost g: Geometry,
                     ghost start: seq<byte>, ghost image: seq<byte>)
      returns (r: int, n: nat)
      requires dec.Valid() && dec.mem.cache == cache && dec.mem.Kept(t, w0) && patchPos < size
      requires InReach(src, size, w0) && (src.Internal? ==> dec.mem.hi <= src.addr)
      requires patch == StagedBytes(src, w0, 0, size) && dec.reader.future == patch[patchPos..] + more
      modifies dec, dec.reader, dec.mem, cache, cache.nvm, cache.buf
      ensures dec.Valid() && dec.mem.Kept(t, w0) && r <= 0
      ensures patchPos + n <= size && dec.reader.future == patch[patchPos + n..] + more && (r == OK ==> n > 0)
      ensures r == OK && dec.state == Init && dec.initState == 0 ==> old(dec.state == Init && dec.initState == 0)
      ensures Reliable(src) && old(dec.Settled(OK, g, start, image)) && cache.nvm.Sound() ==> r == OK
      ensures r == OK || (!Reliable(src) && r == IO_FAILED) || dec.state == Failed
      ensures Reliable(src) && old(dec.Settled(OK, g, start, image)) ==> dec.Settled(r, g, start, image)
      ensures Reliable(src) && old(dec.HeaderEnd()).Some? && old(dec.reader.Input()) == patch[patchPos..] + more ==>
                && (r == old(dec.HeaderEnd()).value
                     || (r == OK && dec.HeaderEnd() == old(dec.HeaderEnd())
                         && dec.reader.Input() == patch[patchPos + n..] + more))
                && cache.nvm.trail == old(cache.nvm.trail) && cache.nvm.flash == old(cache.nvm.flash)
      ensures Reliable(src) && old(dec.Ahead(g)).Some? && old(dec.reader.Input()) == patch[patchPos..] + more ==>
                || r == old(dec.Ahead(g)).value || (r == IO_FAILED && !cache.nvm.Sound())
                || (r == OK && dec.Ahead(g) == old(dec.Ahead(g)) && dec.reader.Input() == patch[patchPos + n..] + more)
    {
      hide Confined, Workspace.Valid, InPlaceDecoder.Bound, InPlaceDecoder.HeaderEnd, InPlaceDecoder.Ahead;
      hide InPlaceDecoder.Settled;
      var wanted := Min(size - patchPos, 512);
      StagedAbove(src, t, w0, cache.nvm.trail, cache.nvm.flash, dec.mem.lo, dec.mem.hi, patchPos, patchPos + wanted,
                  size);
      var ok, chunk := StagedRead(src, cache.nvm, patchPos, wanted);
      if !ok {
        return IO_FAILED, 0;
      }
      n := wanted;
      ghost var rest := patch[patchPos + n..] + more;
      assert patch[patchPos..] == chunk + patch[patchPos + n..];
      assert patch[patchPos..] + more == chunk + rest;
      ghost var t', w' := cache.nvm.trail, cache.nvm.flash;
      r := dec.Process(chunk, rest, g, start, image);
      dec.mem.KeptThrough(t, w0, t', w');
      if dec.reader.ChunkLeft() == 0 {
        assert dec.reader.Input() == rest;
      }
      SettledOnSound(dec, r, g, start, image);
    }

    lemma SettledOnSound(dec: InPlaceDecoder, r: int, g: Geometry, start: seq<byte>, image: seq<byte>)
      requires dec.Valid() && dec.mem.cache == cache
      ensures dec.Settled(r, g, start, image) && cache.nvm.Sound() ==> r == OK
    {
      hide InPlaceDecoder.Bound;
    }

    /** Everything after the commit point of a delta: decode, write back, check the size and the hash, commit. */
    method DecodeAndFinish(m: Manifest, src: Source, hi: nat, ghost run: Install, ghost g: Geometry,
                           ghost image: seq<byte>) returns (ok: bool, ghost r: int)
      requires Valid() && Runs(run) && run.m == m && run.hi == hi && hi % PAGE == 0 && APP_BASE + m.imageSize <= hi
      requires InReach(src, m.payloadSize, cache.nvm.flash) && (src.Internal? ==> hi <= src.addr)
      requires !MayStart(cache.nvm.flash, settings) && Consumed(cache.nvm.flash, run)
      modifies this`diagnostic, cache, cache.nvm, cache.buf
      ensures cache.Valid() && Runs(run)
      ensures RunSafe(old(cache.nvm.trail), run)
      ensures ok ==> HoldsImage(m, cache.nvm.flash)
      ensures Consumed(cache.nvm.flash, run)
      ensures ok <==> diagnostic == 0xB8
      ensures cache.nvm.Sound() && Reliable(src) ==>
                TellsFault(g, hi, StagedBytes(src, old(cache.nvm.flash), 0, m.payloadSize))
      ensures if r < 0 then diagnostic == 0x90 + (-r) % 0x10 else diagnostic in {0x99, 0xB6, 0xB7, 0xB8, 0xBF}
      ensures old(DecodesTo(g, image, cache.nvm.flash, src, m.payloadSize, hi)) && Promised(m, g, image)
              && cache.nvm.Sound() && Reliable(src) ==>
                ok && cache.nvm.flash[APP_BASE..APP_BASE + g.to] == image
    {
      hide MarksValidApp, MayStart, Confined, Safe, InReach, PatchFault, PatchFate, Consumed, Intact, HoldsImage;
      hide DecodesTo, StagedBytes;
      ghost var t0, w0 := cache.nvm.trail, cache.nvm.flash;
      ok := false;
      var res, patchPos;
      res, patchPos := RunDecoder(src, m.payloadSize, hi, g, image);
      r := res;
      FaultsAreNegative(g, hi - APP_BASE, StagedBytes(src, w0, 0, m.payloadSize));
      ghost var t1, w1 := cache.nvm.trail, cache.nvm.flash;
      SafeUnmarked(t0, w0, t1, w1, run);
      if res < 0 {
        diagnostic := 0x90 + (-res) % 0x10;
        return;
      }
      ok := Settle(res, patchPos, m, hi, run);
      TrailSafeTransitive(t0, t1, cache.nvm.trail, run);
    }

    /** Writes the last page back, checks how the decoder ended, and commits what stands in flash. */
    method Settle(r: int, patchPos: nat, m: Manifest, hi: nat, ghost run: Install) returns (ok: bool)
      requires cache.Valid() && cache.Home(APP_BASE, hi) && r >= 0
      requires settings % PAGE == 0 && CEILING_EXPANDED <= settings && Runs(run) && run.m == m && run.hi == hi
      requires hi % PAGE == 0 && APP_BASE + m.imageSize <= hi
      requires !MayStart(cache.nvm.flash, settings) && Consumed(cache.nvm.flash, run)
      modifies this`diagnostic, cache, cache.nvm, cache.buf
      ensures cache.Valid() && Runs(run) && RunSafe(old(cache.nvm.trail), run) && Consumed(cache.nvm.flash, run)
      ensures ok ==> HoldsImage(m, cache.nvm.flash)
      ensures cache.nvm.Sound() && patchPos == m.payloadSize && r == m.imageSize ==>
                (ok <==> hash(old(cache.View())[APP_BASE..APP_BASE + m.imageSize]) == m.imageHash)
      ensures ok ==> patchPos == m.payloadSize && r == m.imageSize
      ensures cache.nvm.Sound() || diagnostic != 0xBF ==>
                diagnostic == if patchPos != m.payloadSize then 0x99 else if r != m.imageSize then 0xB6
                  else if ok then 0xB8 else 0xB7
      ensures diagnostic == 0xBF ==> !ok
      ensures ok ==>
                cache.nvm.flash[APP_BASE..APP_BASE + m.imageSize] == old(cache.View())[APP_BASE..APP_BASE + m.imageSize]
    {
      hide MarksValidApp, MayStart, Confined, Safe, Consumed, Intact, HoldsImage;
      ghost var t0, w0 := cache.nvm.trail, cache.nvm.flash;
      ok := false;
      var flushed := cache.Flush(APP_BASE, hi);
      ghost var t1, w1 := cache.nvm.trail, cache.nvm.flash;
      SafeUnmarked(t0, w0, t1, w1, run);
      if !flushed {
        diagnostic := 0xBF;
        return;
      }
      if patchPos != m.payloadSize {
        diagnostic := 0x99;
        return;
      }
      if r != m.imageSize {
        diagnostic := 0xB6;
        return;
      }
      ok := FinishAppUpdate(m, run);
      TrailSafeTransitive(t0, t1, cache.nvm.trail, run);
      AppSame(m.imageSize, w1, cache.nvm.flash);
    }

    /** The image is the one the manifest announces. */
    predicate Promised(m: Manifest, g: Geometry, image: seq<byte>) {
      g.to == m.imageSize && hash(image) == m.imageHash
    }

    /** The settings mark a valid application, with its size and CRC, and the promised image stands in flash. */
    ghost predicate HoldsImage(m: Manifest, flash: seq<byte>)
    {
      && settings + PAGE <= |flash| && APP_BASE + m.imageSize <= |flash|
      && MarksValidApp(flash, settings) && hash(flash[APP_BASE..APP_BASE + m.imageSize]) == m.imageHash
      && flash[settings..settings + PREFIX_LEN]
         == CommittedPrefix(BANK_VALID_APP, Crc16(flash[APP_BASE..APP_BASE + m.imageSize]), m.imageSize)
    }

    lemma HoldsNow(m: Manifest, w0: seq<byte>, w: seq<byte>, crc: u16)
      requires APP_BASE + m.imageSize <= settings && settings + PAGE <= |w0| == |w|
      requires w[APP_BASE..settings] == w0[APP_BASE..settings]
      requires hash(w0[APP_BASE..APP_BASE + m.imageSize]) == m.imageHash
      requires crc == Crc16(w0[APP_BASE..APP_BASE + m.imageSize])
      requires MarksValidApp(w, settings)
      requires w[settings..settings + PREFIX_LEN] == CommittedPrefix(BANK_VALID_APP, crc, m.imageSize)
      ensures HoldsImage(m, w)
    {
      hide MarksValidApp, CommittedPrefix;
      AppSame(m.imageSize, w0, w);
    }

    lemma AppSame(n: nat, w0: seq<byte>, w: seq<byte>)
      requires APP_BASE + n <= settings <= |w0| && settings <= |w| && w[APP_BASE..settings] == w0[APP_BASE..settings]
      ensures w[APP_BASE..APP_BASE + n] == w0[APP_BASE..APP_BASE + n]
    {
      SliceOfSlice(w0, APP_BASE, settings - APP_BASE, 0, n);
      SliceOfSlice(w, APP_BASE, settings - APP_BASE, 0, n);
    }

    /** The installation that starts from flash as it is now. */
    ghost function Now(hi: nat, m: Manifest, src: Source): Install
      reads cache.nvm
    {
      Install(cache.nvm.flash, settings, hi, hash, m, src.Internal?)
    }

    /** From the last check on: consume the approval, make every reset enter DFU, then rebuild in place. */
    method InstallDelta(m: Manifest, src: Source, hi: nat, ghost run: Install, ghost g: Geometry,
                        ghost image: seq<byte>)
      returns (ok: bool, ghost started: bool)
      requires Valid() && hi % PAGE == 0 && APP_BASE + m.imageSize <= hi <= settings
      requires WellPlaced(m, src, hi) && run == Now(hi, m, src)
      modifies this`diagnostic, cache, cache.nvm, cache.buf
      ensures cache.Valid() && Runs(run) && RunSafe(old(cache.nvm.trail), run)
      ensures ok ==> HoldsImage(m, cache.nvm.flash)
      ensures !started ==> !ok && StillInstalled(cache.nvm.flash, run)
      ensures started ==> Consumed(cache.nvm.flash, run)
      ensures cache.nvm.Sound() && Reliable(src) ==> started
      ensures (ok <==> diagnostic == 0xB8) && (!started <==> diagnostic == 0xBC)
      ensures cache.nvm.Sound() && Reliable(src) && InReach(src, m.payloadSize, old(cache.nvm.flash)) ==>
                TellsFault(g, hi, StagedBytes(src, old(cache.nvm.flash), 0, m.payloadSize))
      ensures old(DecodesTo(g, image, cache.nvm.flash, src, m.payloadSize, hi)) && Promised(m, g, image)
              && cache.nvm.Sound() && Reliable(src) ==>
                ok && cache.nvm.flash[APP_BASE..APP_BASE + g.to] == image
    {
      hide MarksValidApp, MayStart, Confined, Safe, InReach, HoldsImage, DecodesTo, Consumed, PatchFault, PatchFate;
      ghost var t0, w0 := cache.nvm.trail, cache.nvm.flash;
      started, ok := false, false;
      var cleared := ClearApproval(src, m.approvalAddr, run);
      ghost var t1, w1 := cache.nvm.trail, cache.nvm.flash;
      if !cleared {
        diagnostic := 0xBC;
        return;
      }
      started := true;
      CommitSettings(BANK_INVALID_APP, 0, 0, run);
      ghost var t2, w2 := cache.nvm.trail, cache.nvm.flash;
      TrailSafeTransitive(t0, t1, t2, run);
      StagedSurvives(m, src, hi, w0, w1, w2);
      StillDecodes(m, src, hi, w0, w2, g, image);
      ghost var res;
      ok, res := DecodeAndFinish(m, src, hi, run, g, image);
      TrailSafeTransitive(t0, t2, cache.nvm.trail, run);
    }

    lemma FaultsAreNegative(g: Geometry, span: nat, patch: seq<byte>)
      ensures PatchFault(patch).Some? ==> PatchFault(patch).value < 0
      ensures PatchFate(g, span, patch).Some? ==> PatchFate(g, span, patch).value < 0
    {
      hide PatchBody, HeaderDoomed, Header;
      BodyFateNegative(g, span, patch);
    }

    /** A patch that comes to an error, in its header or in its body, is reported by that error. */
    ghost predicate TellsFault(g: Geometry, hi: nat, patch: seq<byte>)
      requires APP_BASE <= hi
      reads this
    {
      && (PatchFault(patch).Some? ==> diagnostic == 0x90 + (-PatchFault(patch).value) % 0x10)
      && (PatchFate(g, hi - APP_BASE, patch).Some? ==>
            diagnostic == 0x90 + (-PatchFate(g, hi - APP_BASE, patch).value) % 0x10)
    }

    /** A container in flash stands above the workspace and below the settings, its payload behind its approval word. */
    ghost predicate WellPlaced(m: Manifest, src: Source, hi: nat)
      reads this, cache, cache.nvm
    {
      && InReach(src, m.payloadSize, cache.nvm.flash)
      && (src.Internal? ==>
            && hi <= PageOf(m.approvalAddr) && m.approvalAddr + 4 <= PageOf(m.approvalAddr) + PAGE <= settings
            && m.approvalAddr + 4 <= src.addr && src.addr + m.payloadSize <= settings)
    }

    /** Application and settings are what they were. */
    ghost predicate StillInstalled(flash: seq<byte>, run: Install)
    {
      Placed(run) && |flash| == |run.before| && Intact(flash, run) && SameRecord(run.before, flash)
    }

    /** A delta refused before the commit point still loses its approval. */
    method Reject(code: int, m: Manifest, src: Source, hi: nat, ghost run: Install)
      requires Valid() && APP_BASE <= hi <= settings && WellPlaced(m, src, hi) && run == Now(hi, m, src)
      modifies this`diagnostic, cache, cache.nvm, cache.buf
      ensures cache.Valid() && Runs(run) && RunSafe(old(cache.nvm.trail), run) && StillInstalled(cache.nvm.flash, run)
      ensures diagnostic == code || diagnostic == 0xBC
      ensures cache.nvm.Sound() && Reliable(src) ==> diagnostic == code && Consumed(cache.nvm.flash, run)
    {
      hide Safe, InReach, Consumed;
      diagnostic := code;
      var cleared := ClearApproval(src, m.approvalAddr, run);
      if !cleared {
        diagnostic := 0xBC;
      }
    }

    /** The installed body, up to its trailer, is the one the delta was made for. */
    ghost predicate BaseMatches(m: Manifest, flash: seq<byte>, limit: nat, n: nat)
    {
      && APP_BASE + n + ENDF_LEN <= limit <= |flash| && EndfAt(flash, n)
      && m.baseHash <= hash(flash[APP_BASE..APP_BASE + n])
    }

    /** The lowest trailer is at `n`. */
    ghost predicate BodyEnds(flash: seq<byte>, limit: nat, n: nat) {
      && APP_BASE + n + ENDF_LEN <= limit && EndfAt(flash, n)
      && forall off: nat | APP_BASE + off + ENDF_LEN <= limit && EndfAt(flash, off) :: n <= off
    }

    /** Everything the delta path checks before it touches anything. */
    ghost predicate Eligible(m: Manifest, src: Source, hi: nat, limit: nat, flash: seq<byte>) {
      && !m.isFull && m.codecId == CODEC_INPLACE && m.imageSize != 0 && APP_BASE + m.imageSize <= limit
      && InReach(src, m.payloadSize, flash) && 0 <= hi - APP_BASE <= U32_MAX
      && exists n: nat ::
           && n <= U32_MAX && BodyEnds(flash, limit, n) && BaseMatches(m, flash, limit, n)
           && Accepted(StagedBytes(src, flash, 0, m.payloadSize), m.imageSize, n, hi - APP_BASE)
    }

    lemma LowestBody(m: Manifest, src: Source, hi: nat, limit: nat, flash: seq<byte>, n: u32)
      requires Eligible(m, src, hi, limit, flash) && BodyEnds(flash, limit, n)
      ensures BaseMatches(m, flash, limit, n)
      ensures Accepted(StagedBytes(src, flash, 0, m.payloadSize), m.imageSize, n, hi - APP_BASE)
    {
      hide Accepted, EndfAt;
      var k: nat :| k <= U32_MAX && BodyEnds(flash, limit, k) && BaseMatches(m, flash, limit, k)
                    && Accepted(StagedBytes(src, flash, 0, m.payloadSize), m.imageSize, k, hi - APP_BASE);
      assert k == n;
    }

    /** The first check that a delta fails gives the code it is refused with. */
    ghost predicate RefusedWith(code: int, m: Manifest, limit: nat, flash: seq<byte>) {
      if m.isFull || m.codecId != 2 || m.imageSize == 0 || m.imageSize > limit - APP_BASE then code == 0xB3
      else if forall off: nat | APP_BASE + off + ENDF_LEN <= limit :: !EndfAt(flash, off) then code == 0xB4
      else if exists n: nat :: BodyEnds(flash, limit, n) && BaseMatches(m, flash, limit, n) then code == 0xB9
      else code == 0xB5
    }

    /** Before the installed body is known, the code depends on the manifest and on whether there is a trailer. */
    lemma EarlyCodes(m: Manifest, limit: nat, flash: seq<byte>)
      ensures m.isFull || m.codecId != 2 || m.imageSize == 0 || m.imageSize > limit - APP_BASE ==>
                RefusedWith(0xB3, m, limit, flash)
      ensures !(m.isFull || m.codecId != 2 || m.imageSize == 0 || m.imageSize > limit - APP_BASE)
              && (forall off: nat | APP_BASE + off + ENDF_LEN <= limit :: !EndfAt(flash, off)) ==>
                RefusedWith(0xB4, m, limit, flash)
    {
      hide EndfAt, BodyEnds, BaseMatches;
    }

    /** What is found of the installed body decides between the later codes. */
    lemma RefusalCodes(m: Manifest, limit: nat, flash: seq<byte>, n: nat)
      requires !(m.isFull || m.codecId != 2 || m.imageSize == 0 || m.imageSize > limit - APP_BASE)
      requires BodyEnds(flash, limit, n) && limit <= |flash|
      ensures RefusedWith(if m.baseHash <= hash(flash[APP_BASE..APP_BASE + n]) then 0xB9 else 0xB5, m, limit, flash)
    {
      hide EndfAt;
      forall k: nat | BodyEnds(flash, limit, k) ensures k == n {
      }
    }

    /**
     * The delta path: every check that can be made on intact flash, then the
     * installation. `hi` ends the workspace, `limit` the application region.
     * Nothing but an eligible delta is started, and on sound flash every one is.
     */
    method ApplyDelta(m: Manifest, src: Source, hi: nat, limit: nat, ghost run: Install, ghost g: Geometry,
                      ghost image: seq<byte>)
      returns (ok: bool, ghost started: bool)
      requires Valid() && hi % PAGE == 0 && APP_BASE <= hi <= limit <= settings && WellPlaced(m, src, hi)
      requires run == Now(hi, m, src)
      modifies this`diagnostic, cache, cache.nvm, cache.buf
      ensures cache.Valid() && Runs(run) && RunSafe(old(cache.nvm.trail), run)
      ensures ok ==> HoldsImage(m, cache.nvm.flash)
      ensures !started ==> !ok && StillInstalled(cache.nvm.flash, run)
      ensures started ==> old(Eligible(m, src, hi, limit, cache.nvm.flash))
      ensures cache.nvm.Sound() && Reliable(src) ==>
                && (started <==> old(Eligible(m, src, hi, limit, cache.nvm.flash)))
                && Consumed(cache.nvm.flash, run)
      ensures started && cache.nvm.Sound() && Reliable(src) && InReach(src, m.payloadSize, old(cache.nvm.flash)) ==>
                TellsFault(g, hi, StagedBytes(src, old(cache.nvm.flash), 0, m.payloadSize))
      ensures ok <==> diagnostic == 0xB8
      ensures !started ==> diagnostic == 0xBC || RefusedWith(diagnostic, m, limit, old(cache.nvm.flash))
      ensures diagnostic == 0xBC ==> !(cache.nvm.Sound() && Reliable(src))
      ensures started && old(DecodesTo(g, image, cache.nvm.flash, src, m.payloadSize, hi)) && hash(image) == m.imageHash
              && cache.nvm.Sound() && Reliable(src) ==>
                ok && cache.nvm.flash[APP_BASE..APP_BASE + g.to] == image
    {
      hide Safe, HoldsImage, StillInstalled, EndfAt, PatchMeans, Accepted, Consumed, MayStart, RefusedWith, TellsFault;
      started, ok := false, false;
      ghost var flash := cache.nvm.flash;
      EarlyCodes(m, limit, flash);
      if m.isFull || m.codecId != CODEC_INPLACE || m.imageSize == 0 || m.imageSize > limit - APP_BASE {
        Reject(0xB3, m, src, hi, run);
        return;
      }
      var found, bodyLen := FindBodyLen(cache.nvm, limit);
      if !found {
        Reject(0xB4, m, src, hi, run);
        return;
      }
      RefusalCodes(m, limit, flash, bodyLen);
      if Eligible(m, src, hi, limit, flash) {
        LowestBody(m, src, hi, limit, flash, bodyLen);
      }
      if !(m.baseHash <= hash(cache.nvm.flash[APP_BASE..APP_BASE + bodyLen])) {
        Reject(0xB5, m, src, hi, run);
        return;
      }
      var accepted := GeometryOk(StagedBytes(src, cache.nvm.flash, 0, m.payloadSize), m.imageSize, bodyLen,
                                 hi - APP_BASE, Reliable(src));
      if !accepted {
        Reject(0xB9, m, src, hi, run);
        return;
      }
      assert BodyEnds(flash, limit, bodyLen) && BaseMatches(m, flash, limit, bodyLen);
      assert Eligible(m, src, hi, limit, flash);
      AcceptedFits(StagedBytes(src, flash, 0, m.payloadSize), m.imageSize, bodyLen, hi - APP_BASE);
      if DecodesTo(g, image, flash, src, m.payloadSize, hi) {
        GeometryIsHeader(StagedBytes(src, flash, 0, m.payloadSize), m.imageSize, bodyLen, hi - APP_BASE, g, image,
                         Base(g, flash[APP_BASE..hi]));
      }
      ok, started := InstallDelta(m, src, hi, run, g, image);
    }

    /**
     * The whole run of a build that stages containers in program flash. `trigger`
     * and `handoff` are the two retained registers; the result register takes
     * over the second. Whatever is or is not staged, every content exposed on
     * the way is safe, and an approval is used up once it has been acted upon.
     */
    method CheckAndApply(trigger: byte, handoff: byte, ghost g: Geometry, ghost image: seq<byte>)
      returns (ok: bool, ghost started: bool, ghost run: Option<Install>)
      requires Valid()
      modifies this`diagnostic, cache, cache.nvm, cache.buf
      ensures cache.Valid() && |cache.nvm.flash| == |old(cache.nvm.flash)|
      ensures run.None? && trigger == 0x6A ==> NothingApproved(old(cache.nvm.flash), Ceiling(handoff))
      ensures run.None? ==>
                !ok && !started && cache.nvm.trail == old(cache.nvm.trail) && cache.nvm.flash == old(cache.nvm.flash)
      ensures run.None? ==> diagnostic == if trigger == 0x6A then 0xB2 else old(diagnostic)
      ensures run.Some? ==> (ok <==> diagnostic == 0xB8)
      ensures run.Some? ==> trigger == 0x6A && Found(run.value, old(cache.nvm.flash), Ceiling(handoff))
      ensures run.Some? ==> Runs(run.value) && RunSafe(old(cache.nvm.trail), run.value)
      ensures run.Some? && ok ==> started && HoldsImage(run.value.m, cache.nvm.flash)
      ensures run.Some? && !started ==> StillInstalled(cache.nvm.flash, run.value)
      ensures run.Some? && started ==> Due(run.value, Ceiling(handoff))
      ensures run.Some? && cache.nvm.Sound() ==>
                (started <==> Due(run.value, Ceiling(handoff))) && Consumed(cache.nvm.flash, run.value)
      ensures run.Some? && started && cache.nvm.Sound() && Describes(run.value, g, image) ==>
                ok && APP_BASE + g.to <= |cache.nvm.flash| && cache.nvm.flash[APP_BASE..APP_BASE + g.to] == image
    {
      hide MarksValidApp, Safe, StillInstalled, RunSafe, DecodesTo, Staged, IsNewest, WellPlaced, Eligible, Consumed;
      ok, started, run := false, false, None;
      if trigger != OTA_APPLY {
        return;
      }
      diagnostic := 0xB1;
      var addr, scanned := FindStaged(Ceiling(handoff));
      if addr == 0 || !scanned.value.approved {
        diagnostic := 0xB2;
        return;
      }
      var staged := scanned.value;
      var src := Internal(staged.payloadAddr);
      ghost var current := Now(addr, staged, src);
      run := Some(current);
      if staged.formatVer != 2 || staged.flags > 3 {
        Reject(0xB3, staged, src, addr, current);
        return;
      }
      ok, started := ApplyDelta(staged, src, addr, Ceiling(handoff), current, g, image);
    }

    /** The scan, and where what it finds stands. */
    method FindStaged(ceiling: nat) returns (addr: nat, m: Option<Manifest>)
      requires Valid() && (ceiling == CEILING_EXPANDED || ceiling == CEILING_LEGACY)
      ensures addr == 0 ==> forall a | APP_BASE <= a :: !Staged(cache.nvm.flash, a, ceiling, false)
      ensures addr != 0 ==>
                && m.Some? && APP_BASE <= addr < ceiling && addr % PAGE == 0
                && IsNewest(m.value, addr, cache.nvm.flash, ceiling)
      ensures addr != 0 ==> WellPlaced(m.value, Internal(m.value.payloadAddr), addr)
    {
      hide Staged, StagedBy, ManifestOf, WellPlaced;
      addr, m := ScanMota(cache.nvm.flash, ceiling, false, false);
      if addr != 0 {
        StagedIsPlaced(cache.nvm.flash, addr, ceiling, m.value);
      }
    }

    /** The installation is that of the newest container, which is approved. */
    ghost predicate Found(run: Install, flash: seq<byte>, ceiling: nat) {
      && run.before == flash && run.settings == settings && run.hash == hash && run.internal
      && IsNewest(run.m, run.hi, flash, ceiling) && run.m.approved
    }

    /** `image` is what the staged patch makes of the installed base, and what the manifest promises. */
    ghost predicate Describes(run: Install, g: Geometry, image: seq<byte>) {
      && InReach(Internal(run.m.payloadAddr), run.m.payloadSize, run.before) && APP_BASE <= run.hi <= |run.before|
      && DecodesTo(g, image, run.before, Internal(run.m.payloadAddr), run.m.payloadSize, run.hi)
      && Promised(run.m, g, image)
    }

    /** A delta for the installed image, in the format this trigger is for. */
    ghost predicate Due(run: Install, ceiling: nat) {
      run.m.formatVer == 2 && run.m.flags <= 3
          && Eligible(run.m, Internal(run.m.payloadAddr), run.hi, ceiling, run.before)
    }

    /** Nothing is staged below the ceiling, or the newest container is not approved. */
    ghost predicate NothingApproved(flash: seq<byte>, ceiling: nat) {
      || (forall a | APP_BASE <= a :: !Staged(flash, a, ceiling, false))
      || (exists m, a: nat :: IsNewest(m, a, flash, ceiling) && !m.approved)
    }

    /** `m` describes the highest container staged below the ceiling, at `addr`. */
    ghost predicate IsNewest(m: Manifest, addr: nat, flash: seq<byte>, ceiling: nat) {
      && (exists p :: StagedBy(flash, addr, ceiling, p, false) && m == ManifestOf(p, addr))
      && forall a | APP_BASE <= a && addr < a :: !Staged(flash, a, ceiling, false)
    }

    /** Any handoff value but the expanded marker selects the lower ceiling. */
    function Ceiling(handoff: byte): (r: nat)
      ensures r == 0xED000 <==> handoff == 0xED
      ensures r == 0xD4000 <==> handoff != 0xED
    {
      if handoff == STAGE_EXPANDED then CEILING_EXPANDED else CEILING_LEGACY
    }

    lemma StagedIsPlaced(flash: seq<byte>, addr: nat, ceiling: nat, m: Manifest)
      requires Valid() && cache.nvm.flash == flash && APP_BASE <= addr < ceiling <= CEILING_EXPANDED
      requires ceiling % PAGE == 0
      requires exists p :: StagedBy(flash, addr, ceiling, p, false) && m == ManifestOf(p, addr)
      ensures addr % PAGE == 0 && WellPlaced(m, Internal(m.payloadAddr), addr)
    {
      hide Stands, ManifestOf, PageOf, PageCache.Valid;
      var p :| StagedBy(flash, addr, ceiling, p, false) && m == ManifestOf(p, addr);
      StagedFields(flash, addr, ceiling, p);
      PageUnique(addr + APPROVAL_OFFSET, addr);
      PagesApart(addr, ceiling);
    }

    /**
     * A full image from an external medium: hashed there first, then installed
     * page by page over the application.
     */
    method ApplyFullExternal(m: Manifest, src: Source, end: nat, ghost run: Install)
      returns (ok: bool, ghost started: bool)
      requires Valid() && end % PAGE == 0 && APP_BASE <= end <= settings && src.External? && m.payloadSize <= |src.data|
      requires run == Now(end, m, src)
      modifies this`diagnostic, cache, cache.nvm, cache.buf
      ensures cache.Valid() && Runs(run) && RunSafe(old(cache.nvm.trail), run)
      ensures !started ==> !ok && cache.nvm.flash == old(cache.nvm.flash) && cache.nvm.trail == old(cache.nvm.trail)
      ensures started ==> FullFits(m, src, end)
      ensures ok <==> diagnostic == 0xB8
      ensures !started && diagnostic != 0xBC ==>
                diagnostic == if m.isFull && m.codecId == 0 && 0 < m.imageSize == m.payloadSize <= end - APP_BASE
                  then 0xBA else 0xB3
      ensures diagnostic == 0xBC ==> !started && !(cache.nvm.Sound() && Reliable(src))
      ensures cache.nvm.Sound() && Reliable(src) ==> (ok <==> FullFits(m, src, end))
      ensures ok ==> started && HoldsImage(m, cache.nvm.flash)
      ensures ok ==> cache.nvm.flash[APP_BASE..APP_BASE + m.imageSize] == src.data[..m.imageSize]
    {
      hide MarksValidApp, MayStart, Confined, Safe, HoldsImage;
      ghost var t0 := cache.nvm.trail;
      ok, started := false, false;
      if !m.isFull || m.codecId != CODEC_FULL || m.imageSize == 0 || m.payloadSize != m.imageSize
          || m.imageSize > end - APP_BASE {
        diagnostic := 0xB3;
        return;
      }
      var readable, staged := StagedRead(src, cache.nvm, 0, m.imageSize);
      if !readable || hash(staged) != m.imageHash {
        diagnostic := 0xBA;
        return;
      }
      var cleared := ClearApproval(src, m.approvalAddr, run);
      if !cleared {
        diagnostic := 0xBC;
        return;
      }
      started := true;
      ghost var t1 := cache.nvm.trail;
      CommitSettings(BANK_INVALID_APP, 0, 0, run);
      ghost var t2 := cache.nvm.trail;
      TrailSafeTransitive(t0, t1, t2, run);
      ok := CopyAndFinish(src, m, end, run);
      TrailSafeTransitive(t0, t2, cache.nvm.trail, run);
    }

    /** The manifest is that of a full image that fits, and the staged bytes have its hash. */
    predicate FullFits(m: Manifest, src: Source, end: nat) {
      && src.External? && m.isFull && m.codecId == CODEC_FULL && m.imageSize != 0
      && m.payloadSize == m.imageSize <= |src.data|
      && APP_BASE + m.imageSize <= end && hash(src.data[..m.imageSize]) == m.imageHash
    }

    /** The copy over the application, the check of what was copied, and the commit. */
    method CopyAndFinish(src: Source, m: Manifest, end: nat, ghost run: Install) returns (ok: bool)
      requires Valid() && Runs(run) && run.m == m && run.hi == end && !run.internal && end % PAGE == 0
      requires FullFits(m, src, end)
      requires !MayStart(cache.nvm.flash, settings)
      modifies this`diagnostic, cache, cache.nvm, cache.buf
      ensures cache.Valid() && Runs(run) && RunSafe(old(cache.nvm.trail), run)
      ensures cache.nvm.Sound() && Reliable(src) ==> ok
      ensures diagnostic in {0xB7, 0xB8, 0xBB, 0xBF} && (ok <==> diagnostic == 0xB8)
      ensures ok ==> HoldsImage(m, cache.nvm.flash)
      ensures ok ==> cache.nvm.flash[APP_BASE..APP_BASE + m.imageSize] == src.data[..m.imageSize]
    {
      hide MarksValidApp, MayStart, Confined, Safe, Intact, HoldsImage;
      ghost var t0, w0 := cache.nvm.trail, cache.nvm.flash;
      RoundUpInside(APP_BASE + m.imageSize, end);
      AppPages(m.imageSize);
      var res := CopyStagedFullImage(cache, src, m.imageSize, APP_BASE);
      ghost var t1, w1 := cache.nvm.trail, cache.nvm.flash;
      ConfinedWiden(t0, w0, t1, w1, APP_BASE, APP_BASE + RoundUp(m.imageSize), APP_BASE, end);
      SafeUnmarked(t0, w0, t1, w1, run);
      if res != 0 {
        diagnostic := res;
        return false;
      }
      ok := FinishAppUpdate(m, run);
      TrailSafeTransitive(t0, t1, cache.nvm.trail, run);
      AppSame(m.imageSize, w1, cache.nvm.flash);
    }

    /** What a patch makes of the installed base depends on the application and the staged bytes alone. */
    lemma StillDecodes(m: Manifest, src: Source, hi: nat, w0: seq<byte>, w: seq<byte>, g: Geometry, image: seq<byte>)
      requires APP_BASE <= hi <= |w0| == |w| && InReach(src, m.payloadSize, w0) && InReach(src, m.payloadSize, w)
      requires StagedBytes(src, w, 0, m.payloadSize) == StagedBytes(src, w0, 0, m.payloadSize)
      requires w[APP_BASE..hi] == w0[APP_BASE..hi]
      ensures DecodesTo(g, image, w0, src, m.payloadSize, hi) ==> DecodesTo(g, image, w, src, m.payloadSize, hi)
    {
      hide PatchMeans, InReach;
    }

    /** Neither clearing the approval nor the commit disturbs the application or the staged payload. */
    lemma StagedSurvives(m: Manifest, src: Source, hi: nat, w0: seq<byte>, w1: seq<byte>, w2: seq<byte>)
      requires APP_BASE <= hi <= settings && settings + PAGE <= |w0| == |w1| == |w2| && InReach(src, m.payloadSize, w0)
      requires src.Internal? ==>
                m.approvalAddr + 4 <= src.addr && src.addr + m.payloadSize <= settings && hi <= m.approvalAddr
      requires if src.Internal? then w1 == Splice(w0, m.approvalAddr, NOT_APPROVED) else w1 == w0
      requires SameOutside(w1, w2, settings, settings + PAGE)
      ensures InReach(src, m.payloadSize, w2)
      ensures StagedBytes(src, w2, 0, m.payloadSize) == StagedBytes(src, w0, 0, m.payloadSize)
      ensures w2[APP_BASE..hi] == w0[APP_BASE..hi]
    {
      assert forall i | APP_BASE <= i < hi :: w2[i] == w0[i];
      if src.Internal? {
        assert forall i | src.addr <= i < src.addr + m.payloadSize :: w2[i] == w0[i];
      }
    }

    /** The staged patch is well formed, for what the shift leaves of the image now installed. */
    ghost predicate DecodesTo(g: Geometry, image: seq<byte>, flash: seq<byte>, src: Source, size: nat, hi: nat)
      requires APP_BASE <= hi <= |flash| && InReach(src, size, flash)
    {
      && GeometryFits(g, hi - APP_BASE)
      && PatchMeans(g, Base(g, flash[APP_BASE..hi]), image, StagedBytes(src, flash, 0, size))
    }
  }

  /** The geometry that was checked is the one a well-formed patch decodes to. */
  lemma GeometryIsHeader(payload: seq<byte>, imageSize: u32, bodyLen: u32, span: u32, g: Geometry, image: seq<byte>,
                         base: seq<byte>)
    requires Accepted(payload, imageSize, bodyLen, span) && PatchMeans(g, base, image, payload)
    ensures AcceptedSizes(payload, imageSize, bodyLen, span) == g && g.to == imageSize
  {
    hide BodyMeans, CheckedSizes, Header;
    AcceptedHeader(payload, imageSize, bodyLen, span);
    assert HeaderFields(g)[0..] == HeaderFields(g);
    var a, b := HeaderFields(AcceptedSizes(payload, imageSize, bodyLen, span)), HeaderFields(g);
    assert a[0] == b[0] && a[2] == b[2] && a[3] == b[3] && a[4] == b[4];
  }

  lemma AcceptedFits(payload: seq<byte>, imageSize: u32, bodyLen: u32, span: u32)
    requires Accepted(payload, imageSize, bodyLen, span)
    ensures imageSize <= span
  {
    hide CheckedSizes;
  }

  lemma StagedFields(flash: seq<byte>, addr: nat, ceiling: nat, p: Package)
    requires StagedBy(flash, addr, ceiling, p, false)
    ensures addr % PAGE == 0 && addr + TotalLen(p) <= ceiling <= |flash| && TotalLen(p) <= U32_MAX
    ensures var m := ManifestOf(p, addr);
            && m.approvalAddr == addr + APPROVAL_OFFSET && addr + HEADER_LEN <= m.payloadAddr
            && m.payloadAddr + m.payloadSize <= addr + TotalLen(p)
  {
    hide Print;
  }

  lemma PagesApart(a: nat, b: nat)
    requires a % PAGE == 0 && b % PAGE == 0 && a < b
    ensures a + PAGE <= b
  {
  }

  lemma AppPages(size: nat)
    ensures RoundUp(APP_BASE + size) == APP_BASE + RoundUp(size)
  {
    PageUnique(APP_BASE + size, APP_BASE + RoundUp(size));
  }

  /** A source above the workspace is not disturbed by changes inside it. */
  lemma StagedAbove(src: Source, t: seq<seq<byte>>, w0: seq<byte>, t': seq<seq<byte>>, w: seq<byte>, lo: nat, hi: nat,
                    from: nat, to: nat, size: nat)
    requires from <= to <= size && InReach(src, size, w0) && Confined(t, w0, t', w, lo, hi)
    requires src.Internal? ==> hi <= src.addr
    ensures InReach(src, size, w) && StagedBytes(src, w, from, to) == StagedBytes(src, w0, 0, size)[from..to]
  {
    if src.Internal? {
      SliceOfSlice(w0, src.addr, size, from, to);
      assert forall i | src.addr + from <= i < src.addr + to :: w[i] == w0[i];
      assert w[src.addr + from..src.addr + to] == w0[src.addr + from..src.addr + to];
    } else {
      SliceOfSlice(src.data, 0, size, from, to);
    }
  }
}
