/**
 * Moving the old image up before decoding: page-sized segments are copied from
 * the highest to the lowest, each destination being erased first.
 */
module Shift {
  import opened Bytes
  import opened Flash
  import opened Cache
  import opened Memory

  /** A destination segment that overlaps its source only if it is its source. */
  predicate Apart(read: nat, write: nat) {
    read == write || read + PAGE <= write
  }

  /** Erase the segment at `write`, then copy the segment at `read` into it. */
  function SegmentCopied(r: seq<byte>, read: nat, write: nat): seq<byte>
    requires read + PAGE <= |r| && write + PAGE <= |r|
  {
    var e := Splice(r, write, Fill(PAGE, 0xFF));
    Splice(e, write, e[read..read + PAGE])
  }

  /** Segments `n - 1` down to 0, each moved up by `shift`. */
  function ShiftAll(r: seq<byte>, shift: nat, n: nat): seq<byte>
    requires shift + PAGE * n <= |r|
    decreases n
  {
    if n == 0 then r else ShiftAll(SegmentCopied(r, PAGE * (n - 1), shift + PAGE * (n - 1)), shift, n - 1)
  }

  /** `s` is `r` with the bytes of `[lo, hi)` also standing `shift` higher. */
  ghost predicate MovedUp(r: seq<byte>, s: seq<byte>, shift: nat, lo: nat, hi: nat) {
    && |s| == |r|
    && forall a {:trigger s[a]} | 0 <= a < |r| :: s[a] == if shift + lo <= a < shift + hi then r[a - shift] else r[a]
  }

  lemma SegmentMovesUp(r: seq<byte>, shift: nat, top: nat)
    requires PAGE <= shift && shift + top + PAGE <= |r|
    ensures MovedUp(r, SegmentCopied(r, top, shift + top), shift, top, top + PAGE)
  {}

  lemma MovesCompose(r: seq<byte>, r': seq<byte>, s: seq<byte>, shift: nat, top: nat)
    requires MovedUp(r, r', shift, top, top + PAGE) && MovedUp(r', s, shift, 0, top)
    ensures MovedUp(r, s, shift, 0, top + PAGE)
  {
    forall a | 0 <= a < |r| ensures s[a] == if shift <= a < shift + top + PAGE then r[a - shift] else r[a] {
      if shift <= a < shift + top {
        assert r'[a - shift] == r[a - shift];
      } else {
        assert s[a] == r'[a];
      }
    }
  }

  /** With a positive whole-page shift every segment is read before it is overwritten. */
  lemma {:induction false} ShiftMoves(r: seq<byte>, shift: nat, n: nat)
    requires shift + PAGE * n <= |r| && PAGE <= shift
    ensures MovedUp(r, ShiftAll(r, shift, n), shift, 0, PAGE * n)
    decreases n
  {
    if n > 0 {
      var top := PAGE * (n - 1);
      var r' := SegmentCopied(r, top, shift + top);
      SegmentMovesUp(r, shift, top);
      ShiftMoves(r', shift, n - 1);
      MovesCompose(r, r', ShiftAll(r', shift, n - 1), shift, top);
    }
  }

  lemma {:induction false} ShiftKeepsSize(r: seq<byte>, shift: nat, n: nat)
    requires shift + PAGE * n <= |r|
    ensures |ShiftAll(r, shift, n)| == |r|
    decreases n
  {
    if n > 0 {
      ShiftKeepsSize(SegmentCopied(r, PAGE * (n - 1), shift + PAGE * (n - 1)), shift, n - 1);
    }
  }

  /** With no shift at all every segment erases its own source. */
  lemma {:induction false} ShiftZeroErases(r: seq<byte>, n: nat)
    requires PAGE * n <= |r|
    ensures |ShiftAll(r, 0, n)| == |r|
    ensures forall a | 0 <= a < |r| :: ShiftAll(r, 0, n)[a] == if a < PAGE * n then 0xFF else r[a]
    decreases n
  {
    if n > 0 {
      var top := PAGE * (n - 1);
      var r' := SegmentCopied(r, top, top);
      assert forall a | 0 <= a < |r| :: r'[a] == if top <= a < top + PAGE then 0xFF else r[a];
      ShiftZeroErases(r', n - 1);
    }
  }

  /**
   * The geometry check accepts any whole-page shift, zero included. The old
   * image survives the shift exactly when the shift is positive, unless the
   * image is empty or nothing but erased flash.
   */
  lemma ShiftKeepsImageIff(r: seq<byte>, shift: nat, from: nat, n: nat)
    requires shift % PAGE == 0 && from <= PAGE * n && shift + PAGE * n <= |r|
    ensures |ShiftAll(r, shift, n)| == |r|
    ensures ShiftAll(r, shift, n)[shift..shift + from] == r[..from] <==> shift > 0 || forall a | 0 <= a < from ::
             r[a] == 0xFF
  {
    var s := ShiftAll(r, shift, n);
    if shift > 0 {
      ShiftMoves(r, shift, n);
      assert s[shift..shift + from] == r[..from];
    } else {
      ShiftZeroErases(r, n);
      assert forall a | 0 <= a < from :: s[..from][a] == 0xFF && r[..from][a] == r[a];
    }
  }

  /** Copies one segment, after erasing its destination. */
  method CopySegment(mem: Workspace, segment: u32, read: u32, write: u32) returns (res: int)
    requires mem.Valid()
    modifies mem, mem.cache, mem.cache.nvm, mem.cache.buf
    ensures mem.Valid() && mem.Kept(old(mem.cache.nvm.trail), old(mem.cache.nvm.flash))
    ensures res == 0 || res == IO_FAILED
    ensures InReach(segment, read, write, old(mem.region)) ==>
              && (res == 0 ==> mem.region == SegmentCopied(old(mem.region), read, write)) && (mem.Sound() ==> res == 0)
  {
    hide Confined, Workspace.Valid, Splice, Erased;
    ghost var r, t, w := mem.region, mem.cache.nvm.trail, mem.cache.nvm.flash;
    res := mem.MemErase(write, segment);
    if res != 0 {
      return;
    }
    if InReach(segment, read, write, r) {
      ErasedPage(r, write);
    }
    ghost var t', w' := mem.cache.nvm.trail, mem.cache.nvm.flash;
    res := CopyBlocks(mem, segment, read, write);
    mem.KeptThrough(t, w, t', w');
  }

  ghost predicate InReach(segment: u32, read: u32, write: u32, r: seq<byte>) {
    segment == PAGE && write % PAGE == 0 && Apart(read, write) && write + PAGE <= |r| <= 0x4000_0000
  }

  /** The copy loop, in blocks of at most 128 bytes. */
  method CopyBlocks(mem: Workspace, segment: u32, read: u32, write: u32) returns (res: int)
    requires mem.Valid()
    modifies mem, mem.cache, mem.cache.nvm, mem.cache.buf
    ensures mem.Valid() && mem.Kept(old(mem.cache.nvm.trail), old(mem.cache.nvm.flash))
    ensures res == 0 || res == IO_FAILED
    ensures InReach(segment, read, write, old(mem.region)) ==>
              && (res == 0 ==> mem.region == Splice(old(mem.region), write, old(mem.region)[read..read + PAGE]))
              && (mem.Sound() ==> res == 0)
  {
    hide Confined, Workspace.Valid, Splice;
    mem.KeptNow();
    ghost var e, t, w := mem.region, mem.cache.nvm.trail, mem.cache.nvm.flash;
    ghost var good := InReach(segment, read, write, e);
    var offset: u32 := 0;
    if good {
      NothingCopied(e, read, write);
    }
    res := 0;
    while offset < segment
      invariant mem.Valid() && mem.Kept(t, w) && offset <= segment && res == 0
      invariant good ==> mem.region == Splice(e, write, e[read..read + offset])
    {
      var n := Min(128, segment - offset);
      ghost var t', w' := mem.cache.nvm.trail, mem.cache.nvm.flash;
      if good {
        BlockCopied(e, read, write, offset, n);
      }
      res := CopyBlock(mem, Wrap32(read + offset), Wrap32(write + offset), n);
      mem.KeptThrough(t, w, t', w');
      if res != 0 {
        return;
      }
      offset := offset + n;
    }
  }

  method CopyBlock(mem: Workspace, from: u32, to: u32, n: nat) returns (res: int)
    requires mem.Valid()
    modifies mem, mem.cache, mem.cache.nvm, mem.cache.buf
    ensures mem.Valid() && mem.Kept(old(mem.cache.nvm.trail), old(mem.cache.nvm.flash))
    ensures res == 0 || res == IO_FAILED
    ensures from + n <= |old(mem.region)| && to + n <= |old(mem.region)| <= 0x4000_0000 ==>
              && (res == 0 ==> mem.region == Splice(old(mem.region), to, old(mem.region)[from..from + n]))
              && (mem.Sound() ==> res == 0)
  {
    hide Confined, Workspace.Valid, Splice;
    mem.KeptNow();
    var buf;
    res, buf := mem.MemRead(from, n);
    if res == 0 {
      res := mem.MemWrite(to, buf);
    }
  }

  lemma ErasedPage(r: seq<byte>, write: nat)
    requires write % PAGE == 0 && write + PAGE <= |r|
    ensures RoundUp(write + PAGE) == write + PAGE
    ensures Erased(r, write, PAGE) == Splice(r, write, Fill(PAGE, 0xFF))
  {
    PageUnique(write, write);
    PageUnique(write + PAGE, write + PAGE);
  }

  lemma NothingCopied(e: seq<byte>, read: nat, write: nat)
    requires read <= |e| && write <= |e|
    ensures e == Splice(e, write, e[read..read])
  {}

  /** The next block is still what the source segment held after the erase. */
  lemma BlockCopied(e: seq<byte>, read: nat, write: nat, offset: nat, n: nat)
    requires Apart(read, write) && write + PAGE <= |e| && offset + n <= PAGE
    ensures var r := Splice(e, write, e[read..read + offset]);
            && r[read + offset..read + offset + n] == e[read + offset..read + offset + n]
            && Splice(r, write + offset, r[read + offset..read + offset + n])
                 == Splice(e, write, e[read..read + offset + n])
  {
    var src := e[read..read + offset + n];
    assert src[..offset] == e[read..read + offset] && src[offset..offset + n] == e[read + offset..read + offset + n];
    SpliceExtend(e, write, src, offset, offset + n);
    assert src[..offset + n] == src;
  }
}
