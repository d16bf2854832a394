/**
 * The single-page write-back cache that stands between the delta decoder and
 * program flash. Its meaning is `View()`: raw flash with the dirty page laid
 * over it. Every operation is specified on that flat memory.
 *
 * The ghost parameters `lo` and `hi` name a page-aligned range holding every
 * page the operation may write back; nothing outside it is disturbed in any
 * content that a power loss could expose.
 */
module Cache {
  import opened Bytes
  import opened Flash

  function RoundUp(a: nat): (r: nat)
    ensures r % PAGE == 0 && a <= r < a + PAGE
  {
    (a + PAGE - 1) / PAGE * PAGE
  }

  /** `m` after the pages that meet `[addr, addr + n)` have been erased. */
  function Erased(m: seq<byte>, addr: nat, n: nat): seq<byte>
    requires RoundUp(addr + n) <= |m|
  {
    if n == 0 then m else Splice(m, PageOf(addr), Fill(RoundUp(addr + n) - PageOf(addr), 0xFF))
  }

  class PageCache {
    const nvm: Nvm
    const buf: array<byte>
    var page: nat // 0 means that no page is cached
    var dirty: bool

    ghost predicate Valid()
      reads this, nvm, buf
    {
      && nvm.Valid() && buf.Length == PAGE
      && page % PAGE == 0 && page + PAGE <= |nvm.flash|
      && (page == 0 ==> !dirty)
      && (page != 0 && !dirty ==> buf[..] == nvm.flash[page..page + PAGE])
    }

    /** The flat memory: raw flash under the dirty page. */
    ghost function View(): (m: seq<byte>)
      requires Valid()
      reads this, nvm, buf
      ensures |m| == |nvm.flash|
    {
      if dirty then Splice(nvm.flash, page, buf[..]) else nvm.flash
    }

    /** A pending write-back, if any, lands inside `[lo, hi)`. */
    ghost predicate Home(lo: int, hi: int)
      reads this
    {
      dirty ==> lo <= page && page + PAGE <= hi
    }

    constructor (n: Nvm)
      requires n.Valid() && PAGE <= |n.flash|
      ensures Valid() && nvm == n && fresh(buf) && page == 0 && View() == n.flash
    {
      nvm := n;
      buf := new byte[PAGE](_ => 0);
      page := 0;
      dirty := false;
    }

    method Flush(ghost lo: int, ghost hi: int) returns (ok: bool)
      requires Valid() && Home(lo, hi)
      modifies this`page, this`dirty, nvm
      ensures Valid() && View() == old(View()) && Home(lo, hi) && |nvm.flash| == old(|nvm.flash|)
      ensures Confined(old(nvm.trail), old(nvm.flash), nvm.trail, nvm.flash, lo, hi)
      ensures ok ==> page == 0 && nvm.flash == View()
      ensures !ok ==> dirty && page == old(page)
      ensures nvm.Sound() ==> ok
    {
      if page == 0 {
        return true;
      }
      if dirty {
        ok := nvm.ChangePageVerified(page, buf[..], true);
        ConfinedWiden(old(nvm.trail), old(nvm.flash), nvm.trail, nvm.flash, page, page + PAGE, lo, hi);
        assert View() == old(View());
        if !ok {
          return;
        }
      }
      page := 0;
      dirty := false;
      return true;
    }

    /** Makes `p` the cached page. */
    method Use(p: nat, ghost lo: int, ghost hi: int) returns (ok: bool)
      requires Valid() && Home(lo, hi)
      requires p % PAGE == 0 && PAGE <= p && p + PAGE <= |nvm.flash|
      modifies this, nvm, buf
      ensures Valid() && View() == old(View()) && Home(lo, hi) && |nvm.flash| == old(|nvm.flash|)
      ensures Confined(old(nvm.trail), old(nvm.flash), nvm.trail, nvm.flash, lo, hi)
      ensures ok ==> page == p && buf[..] == View()[p..p + PAGE]
      ensures nvm.Sound() ==> ok
    {
      if page == p {
        assert dirty ==> forall i | 0 <= i < PAGE :: View()[p + i] == buf[i];
        assert buf[..] == View()[p..p + PAGE];
        return true;
      }
      ok := Flush(lo, hi);
      if !ok {
        return;
      }
      page := p;
      dirty := false;
      forall i | 0 <= i < PAGE {
        buf[i] := nvm.flash[p + i];
      }
      assert buf[..] == nvm.flash[p..p + PAGE];
    }

    /** Coherent read: raw flash, then the part of the dirty page it overlaps. */
    method Read(addr: nat, n: nat) returns (data: seq<byte>)
      requires Valid() && addr + n <= |nvm.flash|
      ensures data == View()[addr..addr + n]
    {
      hide Splice;
      data := nvm.flash[addr..addr + n];
      if page != 0 && dirty {
        OverlayRead(nvm.flash, page, buf[..], addr, n);
        var os := Max(addr, page);
        var oe := Min(addr + n, page + PAGE);
        if os < oe {
          data := Splice(data, os - addr, buf[os - page..oe - page]);
        }
      }
    }

    /** The part of a write that falls into one page. */
    method WriteInPage(a: nat, piece: seq<byte>, ghost lo: int, ghost hi: int) returns (ok: bool)
      requires Valid() && Home(lo, hi) && PAGE <= a && a + |piece| <= PageOf(a) + PAGE
      requires lo <= PageOf(a) && PageOf(a) + PAGE <= hi <= |nvm.flash|
      modifies this, nvm, buf
      ensures Valid() && Home(lo, hi) && |nvm.flash| == old(|nvm.flash|)
      ensures Confined(old(nvm.trail), old(nvm.flash), nvm.trail, nvm.flash, lo, hi)
      ensures View() == if ok then Splice(old(View()), a, piece) else old(View())
      ensures nvm.Sound() ==> ok
    {
      var p := PageOf(a);
      ok := Use(p, lo, hi);
      if ok {
        forall i | 0 <= i < |piece| {
          buf[a - p + i] := piece[i];
        }
        dirty := true;
        assert View() == Splice(old(View()), a, piece);
      }
    }

    /** One turn of the write loop: the piece at `addr + done`. */
    method WriteNext(ghost m: seq<byte>, addr: nat, src: seq<byte>, done: nat, ghost lo: int, ghost hi: int)
      returns (ok: bool, done': nat)
      requires Valid() && Home(lo, hi) && lo % PAGE == 0 && hi % PAGE == 0
      requires lo <= addr && addr + |src| <= hi <= |nvm.flash| && PAGE <= addr && done < |src|
      requires |m| == |nvm.flash| && View() == Splice(m, addr, src[..done])
      modifies this, nvm, buf
      ensures Valid() && Home(lo, hi) && |nvm.flash| == old(|nvm.flash|)
      ensures Confined(old(nvm.trail), old(nvm.flash), nvm.trail, nvm.flash, lo, hi)
      ensures done < done' <= |src|
      ensures View() == Splice(m, addr, src[..if ok then done' else done])
      ensures nvm.Sound() ==> ok
    {
      hide Confined, PageCache.View, PageCache.Valid, PageOf, Splice;
      var a := addr + done;
      done' := done + Min(PageOf(a) + PAGE - a, |src| - done);
      PageInside(a, lo, hi);
      SpliceExtend(m, addr, src, done, done');
      ok := WriteInPage(a, src[done..done'], lo, hi);
    }

    method Write(addr: nat, src: seq<byte>, ghost lo: int, ghost hi: int) returns (ok: bool)
      requires Valid() && Home(lo, hi) && lo % PAGE == 0 && hi % PAGE == 0
      requires lo <= addr && addr + |src| <= hi <= |nvm.flash| && PAGE <= addr
      modifies this, nvm, buf
      ensures Valid() && Home(lo, hi) && |nvm.flash| == old(|nvm.flash|)
      ensures Confined(old(nvm.trail), old(nvm.flash), nvm.trail, nvm.flash, lo, hi)
      ensures ok ==> View() == Splice(old(View()), addr, src)
      ensures nvm.Sound() ==> ok
      ensures !ok ==> exists k | 0 <= k <= |src| :: View() == Splice(old(View()), addr, src[..k])
    {
      ghost var m, t0, w0 := View(), nvm.trail, nvm.flash;
      var done := 0;
      while done < |src|
        invariant 0 <= done <= |src|
        invariant Valid() && Home(lo, hi)
        invariant Confined(t0, w0, nvm.trail, nvm.flash, lo, hi)
        invariant View() == Splice(m, addr, src[..done])
      {
        ghost var t, w := nvm.trail, nvm.flash;
        var next;
        ok, next := WriteNext(m, addr, src, done, lo, hi);
        ConfinedTransitive(t0, w0, t, w, nvm.trail, nvm.flash, lo, hi);
        if !ok {
          return;
        }
        done := next;
      }
      assert src[..done] == src;
      return true;
    }

    /** The part of an erase that concerns one page. */
    method ErasePage(p: nat, ghost lo: int, ghost hi: int) returns (ok: bool)
      requires Valid() && Home(lo, hi) && p % PAGE == 0 && PAGE <= p
      requires lo <= p && p + PAGE <= hi <= |nvm.flash|
      modifies this`dirty, nvm, buf
      ensures Valid() && Home(lo, hi) && |nvm.flash| == old(|nvm.flash|)
      ensures Confined(old(nvm.trail), old(nvm.flash), nvm.trail, nvm.flash, lo, hi)
      ensures ok ==> View() == Splice(old(View()), p, Fill(PAGE, 0xFF))
      ensures !ok ==> SameOutside(old(View()), View(), p, p + PAGE)
      ensures nvm.Sound() ==> ok
    {
      hide Splice, Confined;
      if page == p {
        SpliceOver(nvm.flash, p, buf[..], Fill(PAGE, 0xFF));
        forall i | 0 <= i < PAGE {
          buf[i] := 0xFF;
        }
        dirty := true;
        nvm.Untouched(lo, hi);
        assert buf[..] == Fill(PAGE, 0xFF);
        ok := true;
      } else {
        ok := nvm.ChangePageVerified(p, Fill(PAGE, 0xFF), false);
        ConfinedWiden(old(nvm.trail), old(nvm.flash), nvm.trail, nvm.flash, p, p + PAGE, lo, hi);
        OverlayElsewhere(old(nvm.flash), nvm.flash, p, Fill(PAGE, 0xFF), page, buf[..]);
      }
    }

    /** One turn of the erase loop: the page at `addr + done`. */
    method EraseNext(ghost m: seq<byte>, addr: nat, done: nat, n: nat, ghost lo: int, ghost hi: int)
      returns (ok: bool, done': nat)
      requires Valid() && Home(lo, hi) && lo % PAGE == 0 && hi % PAGE == 0
      requires lo <= addr && addr + n <= hi <= |nvm.flash| && PAGE <= addr && done < n && |m| == |nvm.flash|
      requires ErasedUpTo(m, View(), addr, done, n)
      modifies this`dirty, nvm, buf
      ensures Valid() && Home(lo, hi) && |nvm.flash| == old(|nvm.flash|)
      ensures Confined(old(nvm.trail), old(nvm.flash), nvm.trail, nvm.flash, lo, hi)
      ensures done < done' <= n
      ensures ok ==> ErasedUpTo(m, View(), addr, done', n)
      ensures !ok ==> SameOutside(m, View(), PageOf(addr), RoundUp(addr + n))
      ensures nvm.Sound() ==> ok
    {
      hide Confined, PageCache.View, PageCache.Valid, PageOf, RoundUp, Splice, SameOutside, ErasedUpTo;
      var p := PageOf(addr + done);
      PageInside(addr + done, lo, hi);
      done' := done + Min(p + PAGE - (addr + done), n - done);
      ghost var v := View();
      ErasedStep(m, v, addr, done, n, lo, hi);
      ok := ErasePage(p, lo, hi);
      if !ok {
        ErasedWithin(m, v, View(), addr, n, p);
      }
    }

    method Erase(addr: nat, n: nat, ghost lo: int, ghost hi: int) returns (ok: bool)
      requires Valid() && Home(lo, hi) && lo % PAGE == 0 && hi % PAGE == 0
      requires lo <= addr && addr + n <= hi <= |nvm.flash| && PAGE <= addr
      modifies this`dirty, nvm, buf
      ensures Valid() && Home(lo, hi) && |nvm.flash| == old(|nvm.flash|)
      ensures RoundUp(addr + n) <= |old(View())|
      ensures Confined(old(nvm.trail), old(nvm.flash), nvm.trail, nvm.flash, lo, hi)
      ensures ok ==> View() == Erased(old(View()), addr, n)
      ensures !ok ==> SameOutside(old(View()), View(), PageOf(addr), RoundUp(addr + n))
      ensures nvm.Sound() ==> ok
    {
      RoundUpInside(addr + n, hi);
      ghost var m, t0, w0 := View(), nvm.trail, nvm.flash;
      var done := 0;
      while done < n
        invariant 0 <= done <= n
        invariant Valid() && Home(lo, hi)
        invariant Confined(t0, w0, nvm.trail, nvm.flash, lo, hi)
        invariant ErasedUpTo(m, View(), addr, done, n)
      {
        ghost var t, w := nvm.trail, nvm.flash;
        ok, done := EraseNext(m, addr, done, n, lo, hi);
        ConfinedTransitive(t0, w0, t, w, nvm.trail, nvm.flash, lo, hi);
        if !ok {
          return;
        }
      }
      return true;
    }
  }

  /** `v` is `m` with the pages meeting `[addr, addr + done)` erased; more erasing starts at a page. */
  ghost predicate ErasedUpTo(m: seq<byte>, v: seq<byte>, addr: nat, done: nat, n: nat) {
    && (0 < done < n ==> (addr + done) % PAGE == 0)
    && RoundUp(addr + done) <= |m| && v == Erased(m, addr, done)
  }

  lemma ErasedWithin(m: seq<byte>, v: seq<byte>, v': seq<byte>, addr: nat, n: nat, p: nat)
    requires SameOutside(m, v, PageOf(addr), p) && SameOutside(v, v', p, p + PAGE)
    requires PageOf(addr) <= p < addr + n && p % PAGE == 0
    ensures SameOutside(m, v', PageOf(addr), RoundUp(addr + n))
  {
    assert p + PAGE <= RoundUp(addr + n);
  }

  lemma SpliceOver(m: seq<byte>, p: nat, a: seq<byte>, b: seq<byte>)
    requires |a| == |b| && p + |a| <= |m|
    ensures Splice(Splice(m, p, a), p, b) == Splice(m, p, b)
  {}

  /** Changing page `p` of flash changes page `p` of the memory when another page is cached. */
  lemma OverlayElsewhere(w: seq<byte>, w': seq<byte>, p: nat, content: seq<byte>, page: nat, b: seq<byte>)
    requires |w| == |w'| && |content| == PAGE && |b| == PAGE
    requires p % PAGE == 0 && page % PAGE == 0 && p != page && p + PAGE <= |w| && page + PAGE <= |w|
    requires SameOutside(w, w', p, p + PAGE)
    ensures SameOutside(Splice(w, page, b), Splice(w', page, b), p, p + PAGE)
    ensures w' == Splice(w, p, content) ==> Splice(w', page, b) == Splice(Splice(w, page, b), p, content)
    ensures w[page..page + PAGE] == w'[page..page + PAGE]
  {
    assert forall i | page <= i < page + PAGE :: w[i] == w'[i];
  }

  /** Reading through the overlay: only the overlap with the dirty page comes from the cache. */
  lemma OverlayRead(m: seq<byte>, page: nat, b: seq<byte>, addr: nat, n: nat)
    requires |b| == PAGE && page + PAGE <= |m| && addr + n <= |m|
    ensures var os, oe := Max(addr, page), Min(addr + n, page + PAGE);
            Splice(m, page, b)[addr..addr + n]
            == if os < oe then Splice(m[addr..addr + n], os - addr, b[os - page..oe - page]) else m[addr..addr + n]
  {
    hide Splice;
    var os, oe := Max(addr, page), Min(addr + n, page + PAGE);
    if os < oe {
      OverlapRead(m, page, b, addr, n, os, oe);
    } else {
      ApartRead(m, page, b, addr, n);
    }
  }

  lemma ApartRead(m: seq<byte>, page: nat, b: seq<byte>, addr: nat, n: nat)
    requires page + |b| <= |m| && addr + n <= |m| && (n == 0 || |b| == 0 || addr + n <= page || page + |b| <= addr)
    ensures Splice(m, page, b)[addr..addr + n] == m[addr..addr + n]
  {
    var x := Splice(m, page, b);
    assert forall i | addr <= i < addr + n :: x[i] == m[i];
  }

  lemma OverlapRead(m: seq<byte>, page: nat, b: seq<byte>, addr: nat, n: nat, os: nat, oe: nat)
    requires page + |b| <= |m| && addr + n <= |m| && os == Max(addr, page) && oe == Min(addr + n, page + |b|) && os < oe
    ensures Splice(m, page, b)[addr..addr + n] == Splice(m[addr..addr + n], os - addr, b[os - page..oe - page])
  {
    var x, y := Splice(m, page, b), Splice(m[addr..addr + n], os - addr, b[os - page..oe - page]);
    forall i | 0 <= i < n ensures x[addr + i] == y[i] {
      if os <= addr + i < oe {
        assert y[i] == b[os - page..oe - page][i - (os - addr)] == b[addr + i - page];
      } else {
        assert y[i] == m[addr..addr + n][i] == m[addr + i];
      }
    }
    assert x[addr..addr + n] == y;
  }

  lemma PageInside(a: nat, lo: int, hi: int)
    requires lo % PAGE == 0 && hi % PAGE == 0 && lo <= a < hi
    ensures lo <= PageOf(a) && PageOf(a) + PAGE <= hi
  {}

  lemma RoundUpInside(a: nat, hi: int)
    requires hi % PAGE == 0 && a <= hi
    ensures RoundUp(a) <= hi
  {}

  /** A page-aligned address within a page above `a` is its round-up, within a page below its page. */
  lemma PageUnique(a: nat, p: nat)
    requires p % PAGE == 0
    ensures p <= a < p + PAGE ==> PageOf(a) == p
    ensures a <= p < a + PAGE ==> RoundUp(a) == p
  {}

  lemma ErasedStepArith(addr: nat, done: nat, step: nat)
    requires done == 0 || (addr + done) % PAGE == 0
    requires 0 < step <= PageOf(addr + done) + PAGE - (addr + done)
    ensures var p := PageOf(addr + done);
            && RoundUp(addr + done + step) == p + PAGE && PageOf(addr) <= p
            && (if done == 0 then p == PageOf(addr) else p == addr + done == RoundUp(addr + done))
            && RoundUp(addr + done) <= p + PAGE
  {
    var p := PageOf(addr + done);
    PageUnique(addr + done + step, p + PAGE);
    if done > 0 {
      PageUnique(addr + done, addr + done);
    }
  }

  /** Erasing in page-sized steps erases exactly the covering pages. */
  lemma ErasedStep(m: seq<byte>, v: seq<byte>, addr: nat, done: nat, n: nat, lo: int, hi: int)
    requires ErasedUpTo(m, v, addr, done, n) && done < n
    requires lo % PAGE == 0 && hi % PAGE == 0 && lo <= addr && addr + n <= hi <= |m|
    ensures var p := PageOf(addr + done);
            && lo <= p && p + PAGE <= hi && PageOf(addr) <= p
            && SameOutside(m, v, PageOf(addr), p)
            && ErasedUpTo(m, Splice(v, p, Fill(PAGE, 0xFF)), addr,
                 done + Min(PageOf(addr + done) + PAGE - (addr + done), n - done), n)
  {
    hide PageOf, RoundUp;
    PageInside(addr + done, lo, hi);
    var p := PageOf(addr + done);
    var step := Min(p + PAGE - (addr + done), n - done);
    ErasedStepArith(addr, done, step);
    PagesGrow(m, PageOf(addr), p);
  }

  /** Pages erased one after the other are erased together. */
  lemma PagesGrow(m: seq<byte>, from: nat, p: nat)
    requires from <= p && p + PAGE <= |m|
    ensures var v := Splice(m, from, Fill(p - from, 0xFF));
            && SameOutside(m, v, from, p)
            && Splice(v, p, Fill(PAGE, 0xFF)) == Splice(m, from, Fill(p + PAGE - from, 0xFF))
  {}

  lemma SpliceExtend(m: seq<byte>, at: nat, src: seq<byte>, k: nat, l: nat)
    requires k <= l <= |src| && at + |src| <= |m|
    ensures Splice(Splice(m, at, src[..k]), at + k, src[k..l]) == Splice(m, at, src[..l])
  {}
}
