/**
 * The decoder's memory callbacks. Offsets are relative to the application base
 * `lo`; `hi` is where the workspace ends (never past the staged container).
 * The flat content of the workspace is `region`.
 */
module Memory {
  import opened Bytes
  import opened Flash
  import opened Cache

  const IO_FAILED: int := -10

  class Workspace {
    const cache: PageCache
    const lo: nat
    const hi: nat
    /** The coherent content of `[lo, hi)`: flash under the cached page. */
    ghost var region: seq<byte>

    ghost predicate Valid()
      reads this, cache, cache.nvm, cache.buf
      ensures Valid() ==> lo <= hi && |region| == hi - lo
    {
      && cache.Valid() && cache.Home(lo, hi)
      && lo % PAGE == 0 && hi % PAGE == 0 && PAGE <= lo <= hi <= |cache.nvm.flash|
      && region == cache.View()[lo..hi]
    }

    /** Nothing outside the workspace was disturbed since the flash history was `t` and its content `w`. */
    ghost predicate Kept(t: seq<seq<byte>>, w: seq<byte>)
      reads cache.nvm
    {
      Confined(t, w, cache.nvm.trail, cache.nvm.flash, lo, hi)
    }

    /** Neither the workspace nor flash has changed, not even for a moment. */
    ghost predicate Untouched(r: seq<byte>, t: seq<seq<byte>>, w: seq<byte>)
      reads this, cache.nvm
    {
      region == r && cache.nvm.trail == t && cache.nvm.flash == w
    }

    /** Flash can be relied on: every page is brought to its content in the end. */
    predicate Sound() {
      cache.nvm.Sound()
    }

    lemma KeptNow()
      ensures Kept(cache.nvm.trail, cache.nvm.flash)
    {}

    lemma KeptThrough(t: seq<seq<byte>>, w: seq<byte>, t': seq<seq<byte>>, w': seq<byte>)
      requires Confined(t, w, t', w', lo, hi) && Kept(t', w')
      ensures Kept(t, w)
    {
      ConfinedTransitive(t, w, t', w', cache.nvm.trail, cache.nvm.flash, lo, hi);
    }

    constructor (c: PageCache, l: nat, h: nat)
      requires c.Valid() && c.Home(l, h) && l % PAGE == 0 && h % PAGE == 0 && PAGE <= l <= h <= |c.nvm.flash|
      ensures Valid() && cache == c && lo == l && hi == h && region == c.View()[l..h]
    {
      cache := c;
      lo := l;
      hi := h;
      region := c.View()[l..h];
    }

    /** The bounds check every callback makes first. */
    predicate InBounds(offset: nat, n: nat): (inside: bool)
      requires lo <= hi
      ensures inside <==> offset <= U32_MAX && n <= U32_MAX && lo + offset + n <= hi
    {
      var span := hi - lo;
      offset <= U32_MAX && n <= U32_MAX && offset <= span && n <= span - offset
    }

    method MemRead(offset: nat, n: nat) returns (res: int, data: seq<byte>)
      requires Valid()
      ensures InBounds(offset, n) ==> res == 0 && data == region[offset..offset + n]
      ensures !InBounds(offset, n) ==> res == IO_FAILED
    {
      if !InBounds(offset, n) {
        return IO_FAILED, [];
      }
      data := cache.Read(lo + offset, n);
      assert forall i | 0 <= i < n :: data[i] == region[offset + i];
      res := 0;
    }

    method MemWrite(offset: nat, src: seq<byte>) returns (res: int)
      requires Valid()
      modifies this, cache, cache.nvm, cache.buf
      ensures Valid() && Kept(old(cache.nvm.trail), old(cache.nvm.flash))
      ensures res == 0 || res == IO_FAILED
      ensures res == 0 ==> InBounds(offset, |src|) && region == Splice(old(region), offset, src)
      ensures !InBounds(offset, |src|) ==>
                res == IO_FAILED && Untouched(old(region), old(cache.nvm.trail), old(cache.nvm.flash))
      ensures Sound() && InBounds(offset, |src|) ==> res == 0
    {
      hide Confined, PageCache.Valid, Splice;
      KeptNow();
      if !InBounds(offset, |src|) {
        return IO_FAILED;
      }
      ghost var m := cache.View();
      var ok := cache.Write(lo + offset, src, lo, hi);
      if ok {
        SpliceShift(m, lo, hi, offset, src);
        region := Splice(region, offset, src);
        return 0;
      }
      region := cache.View()[lo..hi];
      return IO_FAILED;
    }

    method MemErase(offset: nat, n: nat) returns (res: int)
      requires Valid()
      modifies this, cache, cache.nvm, cache.buf
      ensures Valid() && Kept(old(cache.nvm.trail), old(cache.nvm.flash))
      ensures res == 0 || res == IO_FAILED
      ensures res == 0 ==> InBounds(offset, n) && RoundUp(offset + n) <= hi - lo
      ensures res == 0 ==> region == Erased(old(region), offset, n)
      ensures !InBounds(offset, n) ==>
                res == IO_FAILED && Untouched(old(region), old(cache.nvm.trail), old(cache.nvm.flash))
      ensures Sound() && InBounds(offset, n) ==> res == 0
    {
      hide Confined, PageCache.Valid, Erased;
      KeptNow();
      if !InBounds(offset, n) {
        return IO_FAILED;
      }
      ghost var m := cache.View();
      var ok := cache.Erase(lo + offset, n, lo, hi);
      if ok {
        ErasedShift(m, lo, hi, offset, n);
        region := Erased(region, offset, n);
        return 0;
      }
      region := cache.View()[lo..hi];
      return IO_FAILED;
    }
  }

  lemma SpliceShift(m: seq<byte>, lo: nat, hi: nat, offset: nat, src: seq<byte>)
    requires lo + offset + |src| <= hi <= |m|
    ensures Splice(m, lo + offset, src)[lo..hi] == Splice(m[lo..hi], offset, src)
  {}

  lemma ErasedShift(m: seq<byte>, lo: nat, hi: nat, offset: nat, n: nat)
    requires lo % PAGE == 0 && hi % PAGE == 0 && lo + offset + n <= hi <= |m|
    ensures RoundUp(offset + n) <= hi - lo && RoundUp(lo + offset + n) <= hi
    ensures Erased(m, lo + offset, n)[lo..hi] == Erased(m[lo..hi], offset, n)
  {
    hide PageOf, RoundUp, Splice;
    PagesShift(lo, hi, offset, n);
    SpliceShift(m, lo, hi, PageOf(offset), Fill(RoundUp(offset + n) - PageOf(offset), 0xFF));
  }

  /** Where the pages are, seen from the workspace and from flash. */
  lemma PagesShift(lo: nat, hi: nat, offset: nat, n: nat)
    requires lo % PAGE == 0 && hi % PAGE == 0 && lo + offset + n <= hi
    ensures RoundUp(offset + n) <= hi - lo && RoundUp(lo + offset + n) <= hi
    ensures PageOf(lo + offset) == lo + PageOf(offset) && RoundUp(lo + offset + n) == lo + RoundUp(offset + n)
    ensures PageOf(offset) <= RoundUp(offset + n)
  {
    hide PageOf, RoundUp;
    PageShift(lo, offset);
    PageShift(lo, offset + n);
    RoundUpInside(lo + offset + n, hi);
    PageBelow(offset, offset + n);
  }

  lemma PageBelow(a: nat, b: nat)
    requires a <= b
    ensures PageOf(a) <= a && b <= RoundUp(b)
  {}

  lemma PageShift(lo: nat, a: nat)
    requires lo % PAGE == 0
    ensures PageOf(lo + a) == lo + PageOf(a) && RoundUp(lo + a) == lo + RoundUp(a)
  {
    PageUnique(lo + a, lo + PageOf(a));
    PageUnique(lo + a, lo + RoundUp(a));
  }
}
