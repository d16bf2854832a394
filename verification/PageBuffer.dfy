/**
 * The page buffer behind USB and serial uploads: writes are collected in RAM
 * and reach flash one page at a time, with an erase before or without.
 */
module PageBuffer {
  import opened Bytes
  import opened Flash

  // ---- what the buffer means --------------------------------------------------

  /** Flash, and the page being collected, if any. */
  datatype Buffered = Buffered(flash: seq<byte>, page: Option<nat>, buf: seq<byte>)

  predicate WellFormed(b: Buffered) {
    && |b.buf| == PAGE && |b.flash| % PAGE == 0
    && (b.page.Some? ==> b.page.value % PAGE == 0 && b.page.value + PAGE <= |b.flash|)
  }

  /** The content a reader of both would see. */
  function Overlaid(b: Buffered): (r: seq<byte>)
    requires WellFormed(b)
    ensures |r| == |b.flash|
  {
    if b.page.None? then b.flash else Splice(b.flash, b.page.value, b.buf)
  }

  /** What a flush makes of the page: all of the buffer after an erase, else only cleared bits. */
  function FlushedPage(was: seq<byte>, buf: seq<byte>, erase: bool): (r: seq<byte>)
    requires |was| == |buf|
    ensures |r| == |was|
  {
    if buf == was || erase then buf else Programmed(was, buf)
  }

  function Flushed(b: Buffered, erase: bool): (r: Buffered)
    requires WellFormed(b)
    ensures WellFormed(r) && r.page.None? && |r.flash| == |b.flash|
  {
    if b.page.None? then b
    else
      var p := b.page.value;
      Buffered(Splice(b.flash, p, FlushedPage(b.flash[p..p + PAGE], b.buf, erase)), None, b.buf)
  }

  /** The buffer turned to the page of `addr`. */
  function Turned(b: Buffered, addr: nat, erase: bool): (r: Buffered)
    requires WellFormed(b) && addr < |b.flash|
    ensures WellFormed(r) && r.page == Some(PageOf(addr)) && |r.flash| == |b.flash|
  {
    PageInside(addr, |b.flash|);
    var p := PageOf(addr);
    if b.page == Some(p) then b
    else
      var f := Flushed(b, erase);
      Buffered(f.flash, Some(p), f.flash[p..p + PAGE])
  }

  /** Bytes of one write that fit the page of its first byte. */
  function PieceLen(dst: nat, n: nat): (k: nat)
    ensures k <= n && (n > 0 ==> 0 < k) && dst + k <= PageOf(dst) + PAGE
  {
    Min(n, PageOf(dst) + PAGE - dst)
  }

  function Piece(b: Buffered, dst: nat, src: seq<byte>, erase: bool): (r: Buffered)
    requires WellFormed(b) && dst < |b.flash| && dst + |src| <= PageOf(dst) + PAGE
    ensures WellFormed(r) && |r.flash| == |b.flash|
  {
    var t := Turned(b, dst, erase);
    t.(buf := Splice(t.buf, dst - PageOf(dst), src))
  }

  function Written(b: Buffered, dst: nat, src: seq<byte>, erase: bool): (r: Buffered)
    requires WellFormed(b) && dst + |src| <= |b.flash|
    ensures WellFormed(r) && |r.flash| == |b.flash|
    decreases |src|
  {
    if src == [] then b
    else
      var k := PieceLen(dst, |src|);
      Written(Piece(b, dst, src[..k], erase), dst + k, src[k..], erase)
  }

  lemma PageInside(addr: nat, size: nat)
    requires addr < size && size % PAGE == 0
    ensures PageOf(addr) + PAGE <= size
  {}

  // ---- whole uploads ----------------------------------------------------------

  datatype Upload = Upload(dst: nat, src: seq<byte>)

  predicate AllInside(us: seq<Upload>, size: nat) {
    forall i | 0 <= i < |us| :: us[i].dst + |us[i].src| <= size
  }

  /** The last writer of every byte wins. */
  function SpliceAll(m: seq<byte>, us: seq<Upload>): (r: seq<byte>)
    requires AllInside(us, |m|)
    ensures |r| == |m|
    decreases |us|
  {
    if us == [] then m
    else SpliceAll(Splice(m, us[0].dst, us[0].src), us[1..])
  }

  function WrittenAll(b: Buffered, us: seq<Upload>, erase: bool): (r: Buffered)
    requires WellFormed(b) && AllInside(us, |b.flash|)
    ensures WellFormed(r) && |r.flash| == |b.flash|
    decreases |us|
  {
    if us == [] then b else WrittenAll(Written(b, us[0].dst, us[0].src, erase), us[1..], erase)
  }

  /** Without an erase the buffer reaches flash unharmed if it differs from it only in erased bytes. */
  predicate Clearable(b: Buffered)
    requires WellFormed(b)
  {
    b.page.Some? ==>
      forall i | 0 <= i < PAGE :: b.buf[i] == b.flash[b.page.value + i] || b.flash[b.page.value + i] == 0xFF
  }

  predicate BlankAt(m: seq<byte>, dst: nat, n: nat)
    requires dst + n <= |m|
  {
    forall i | dst <= i < dst + n :: m[i] == 0xFF
  }

  lemma AndSame(a: byte)
    ensures And(a, a) == a
  {
    BitsSame(a as bv8);
    ByteBits(a);
  }

  lemma BitsSame(x: bv8)
    ensures x & x == x
  {}

  lemma ClearableProgram(was: seq<byte>, buf: seq<byte>)
    requires |was| == |buf| && forall i | 0 <= i < |was| :: buf[i] == was[i] || was[i] == 0xFF
    ensures Programmed(was, buf) == buf
  {
    forall i | 0 <= i < |was| ensures Programmed(was, buf)[i] == buf[i] {
      AndSame(buf[i]);
      AndErased(buf[i]);
    }
  }

  /** A flush that erases, or has only erased bytes to fill, writes what a reader already saw. */
  lemma FlushKeepsView(b: Buffered, erase: bool)
    requires WellFormed(b) && (erase || Clearable(b))
    ensures Flushed(b, erase).flash == Overlaid(b)
  {
    hide Programmed;
    if b.page.Some? {
      var p := b.page.value;
      var was := b.flash[p..p + PAGE];
      if !erase {
        assert forall i | 0 <= i < PAGE :: was[i] == b.flash[p + i];
        ClearableProgram(was, b.buf);
      }
    }
  }

  lemma TurnKeepsView(b: Buffered, addr: nat, erase: bool)
    requires WellFormed(b) && addr < |b.flash| && (erase || Clearable(b))
    ensures Overlaid(Turned(b, addr, erase)) == Overlaid(b) && (Clearable(b) ==> Clearable(Turned(b, addr, erase)))
  {
    hide FlushedPage;
    PageInside(addr, |b.flash|);
    FlushKeepsView(b, erase);
    var p := PageOf(addr);
    if b.page != Some(p) {
      var f := Flushed(b, erase).flash;
      assert Splice(f, p, f[p..p + PAGE]) == f;
    }
  }

  lemma PieceView(b: Buffered, dst: nat, src: seq<byte>, erase: bool)
    requires WellFormed(b) && dst < |b.flash| && dst + |src| <= PageOf(dst) + PAGE <= |b.flash|
    requires erase || Clearable(b)
    ensures Overlaid(Piece(b, dst, src, erase)) == Splice(Overlaid(b), dst, src)
    ensures Clearable(b) && BlankAt(Overlaid(b), dst, |src|) ==> Clearable(Piece(b, dst, src, erase))
  {
    hide Turned, Clearable, BlankAt, FlushedPage;
    TurnKeepsView(b, dst, erase);
    var t, p := Turned(b, dst, erase), PageOf(dst);
    assert Splice(t.flash, p, Splice(t.buf, dst - p, src)) == Splice(Splice(t.flash, p, t.buf), dst, src);
    if Clearable(b) && BlankAt(Overlaid(b), dst, |src|) {
      StaysClearable(t, dst, src);
    }
  }

  lemma StaysClearable(t: Buffered, dst: nat, src: seq<byte>)
    requires WellFormed(t) && t.page == Some(PageOf(dst)) && dst + |src| <= PageOf(dst) + PAGE
    requires Clearable(t) && BlankAt(Overlaid(t), dst, |src|)
    ensures Clearable(t.(buf := Splice(t.buf, dst - PageOf(dst), src)))
  {
    var p := PageOf(dst);
    forall k | dst <= k < dst + |src| ensures t.flash[k] == 0xFF {
      assert Overlaid(t)[k] == t.buf[k - p];
      assert t.buf[k - p] == t.flash[p + (k - p)];
    }
  }

  lemma SpliceTwice(m: seq<byte>, dst: nat, src: seq<byte>, k: nat)
    requires dst + |src| <= |m| && k <= |src|
    ensures Splice(Splice(m, dst, src[..k]), dst + k, src[k..]) == Splice(m, dst, src)
  {}

  /** One buffered write, however many pages it spans, changes what a reader sees at its place only. */
  lemma {:induction false} WriteView(b: Buffered, dst: nat, src: seq<byte>, erase: bool)
    requires WellFormed(b) && dst + |src| <= |b.flash|
    requires erase || (Clearable(b) && BlankAt(Overlaid(b), dst, |src|))
    ensures Overlaid(Written(b, dst, src, erase)) == Splice(Overlaid(b), dst, src)
    ensures Clearable(b) && BlankAt(Overlaid(b), dst, |src|) ==> Clearable(Written(b, dst, src, erase))
    decreases |src|
  {
    hide Overlaid, Piece, Clearable;
    var m := Overlaid(b);
    if src == [] {
      assert Splice(m, dst, src) == m;
    } else {
      var k := PieceLen(dst, |src|);
      PageInside(dst, |b.flash|);
      PieceView(b, dst, src[..k], erase);
      var next := Piece(b, dst, src[..k], erase);
      WriteView(next, dst + k, src[k..], erase);
      SpliceTwice(m, dst, src, k);
    }
  }

  /** Any uploads ended by an erasing flush leave what the last writers wrote. */
  lemma {:induction false} ErasingUploads(b: Buffered, us: seq<Upload>)
    requires WellFormed(b) && AllInside(us, |b.flash|)
    ensures Flushed(WrittenAll(b, us, true), true).flash == SpliceAll(Overlaid(b), us)
    decreases |us|
  {
    hide Overlaid, Flushed, Written;
    if us == [] {
      FlushKeepsView(b, true);
    } else {
      WriteView(b, us[0].dst, us[0].src, true);
      ErasingUploads(Written(b, us[0].dst, us[0].src, true), us[1..]);
    }
  }

  /** No two uploads touch the same byte. */
  predicate WrittenOnce(us: seq<Upload>) {
    forall i, j | 0 <= i < j < |us| :: us[i].dst + |us[i].src| <= us[j].dst || us[j].dst + |us[j].src| <= us[i].dst
  }

  predicate AllBlank(m: seq<byte>, us: seq<Upload>)
    requires AllInside(us, |m|)
  {
    forall i | 0 <= i < |us| :: BlankAt(m, us[i].dst, |us[i].src|)
  }

  /** On erased flash, uploads that write each byte once need no erase at all. */
  lemma {:induction false} ErasedUploads(b: Buffered, us: seq<Upload>)
    requires WellFormed(b) && AllInside(us, |b.flash|) && Clearable(b)
    requires WrittenOnce(us) && AllBlank(Overlaid(b), us)
    ensures Flushed(WrittenAll(b, us, false), false).flash == SpliceAll(Overlaid(b), us)
    decreases |us|
  {
    hide Overlaid, Flushed, Written, Clearable;
    if us == [] {
      FlushKeepsView(b, false);
    } else {
      WriteView(b, us[0].dst, us[0].src, false);
      var next := Written(b, us[0].dst, us[0].src, false);
      forall i | 0 <= i < |us| - 1 ensures BlankAt(Overlaid(next), us[1..][i].dst, |us[1..][i].src|) {
        assert BlankAt(Overlaid(b), us[i + 1].dst, |us[i + 1].src|);
      }
      ErasedUploads(next, us[1..]);
    }
  }

  /** Without an erase every byte keeps only the bits that flash and the buffer both have set. */
  lemma FlushedByte(was: seq<byte>, buf: seq<byte>, i: nat)
    requires |was| == |buf| && i < |buf|
    ensures FlushedPage(was, buf, false)[i] == And(was[i], buf[i])
  {
    if buf == was {
      AndSame(buf[i]);
    }
  }

  /** So the whole page is what was asked for exactly when it asks for cleared bits only. */
  lemma PlainPage(was: seq<byte>, buf: seq<byte>)
    requires |was| == |buf|
    ensures |FlushedPage(was, buf, false)| == |buf|
    ensures FlushedPage(was, buf, false) == buf <==> forall i | 0 <= i < |buf| :: And(was[i], buf[i]) == buf[i]
  {
    hide And;
    forall i | 0 <= i < |buf| ensures FlushedPage(was, buf, false)[i] == And(was[i], buf[i]) {
      FlushedByte(was, buf, i);
    }
    hide FlushedPage;
    if forall i | 0 <= i < |buf| :: And(was[i], buf[i]) == buf[i] {
      assert FlushedPage(was, buf, false) == buf;
    }
  }

  /** A flush without an erase writes what a reader already saw exactly when the page asks for cleared bits only. */
  lemma PlainFlushKeepsViewIff(b: Buffered)
    requires WellFormed(b) && b.page.Some?
    ensures var p := b.page.value;
            Flushed(b, false).flash == Overlaid(b) <==> forall i | 0 <= i < PAGE ::
                And(b.flash[p + i], b.buf[i]) == b.buf[i]
  {
    hide And, FlushedPage;
    var p := b.page.value;
    var was := b.flash[p..p + PAGE];
    PlainPage(was, b.buf);
    SpliceSame(b.flash, p, FlushedPage(was, b.buf, false), b.buf);
    assert forall i | 0 <= i < PAGE :: was[i] == b.flash[p + i];
  }

  lemma SpliceSame(m: seq<byte>, at: nat, a: seq<byte>, b: seq<byte>)
    requires |a| == |b| && at + |a| <= |m|
    ensures Splice(m, at, a) == Splice(m, at, b) <==> a == b
  {
    if Splice(m, at, a) == Splice(m, at, b) {
      assert Splice(m, at, a)[at..at + |a|] == a;
      assert Splice(m, at, b)[at..at + |b|] == b;
    }
  }

  // ---- the buffer itself --------------------------------------------------------

  const INVALID_ADDR: nat := 0xFFFF_FFFF

  class WriteBuffer {
    const nvm: Nvm
    const buf: array<byte>
    var addr: nat

    ghost predicate Valid()
      reads this, buf, nvm
    {
      && nvm.Valid() && buf.Length == PAGE && (addr == INVALID_ADDR || (addr % PAGE == 0 && addr + PAGE <= |nvm.flash|))
    }

    ghost function State(): (b: Buffered)
      requires Valid()
      reads this, buf, nvm
      ensures WellFormed(b)
    {
      Buffered(nvm.flash, if addr == INVALID_ADDR then None else Some(addr), buf[..])
    }

    constructor (n: Nvm)
      requires n.Valid()
      ensures Valid() && nvm == n && State().page.None? && fresh(buf)
    {
      nvm := n;
      buf := new byte[PAGE](i => 0);
      addr := INVALID_ADDR;
    }

    /** Forgets what was collected; flash stays as it is. */
    method Discard()
      requires Valid()
      modifies this
      ensures Valid() && State() == old(State()).(page := None)
    {
      addr := INVALID_ADDR;
    }

    /** Programs 256 bytes, word by word. */
    method WordsWrite(at: nat, data: seq<byte>)
      requires nvm.Valid() && |data| == 256 && at + 256 <= |nvm.flash|
      modifies nvm
      ensures nvm.Valid() && nvm.flash == Splice(old(nvm.flash), at, Programmed(old(nvm.flash)[at..at + 256], data))
    {
      hide Programmed;
      ghost var was, full := nvm.flash, Programmed(nvm.flash[at..at + 256], data);
      assert full[..0] == [];
      for i := 0 to 64
        invariant nvm.Valid() && |nvm.flash| == |was| && nvm.flash == Splice(was, at, full[..4 * i])
      {
        nvm.ProgramWord(at + 4 * i, data[4 * i..4 * i + 4]);
        WordStep(was, at, data, i);
      }
      assert full[..256] == full;
    }

    /** Brings the page collected to flash, unless it is there already. */
    method Flush(needErase: bool)
      requires Valid()
      modifies this, nvm
      ensures Valid() && State() == Flushed(old(State()), needErase)
    {
      hide Programmed;
      if addr == INVALID_ADDR {
        return;
      }
      ghost var p, was, page := addr, nvm.flash, nvm.flash[addr..addr + PAGE];
      if buf[..] != nvm.flash[addr..addr + PAGE] {
        if needErase {
          nvm.ErasePage(addr);
          ProgramErased(Fill(PAGE, 0xFF), buf[..]);
        }
        ghost var before := nvm.flash[addr..addr + PAGE];
        ProgramPage();
        assert before == if needErase then Fill(PAGE, 0xFF) else page;
      } else {
        assert Splice(was, p, page) == was;
      }
      addr := INVALID_ADDR;
    }

    method ProgramPage()
      requires Valid() && addr != INVALID_ADDR
      modifies nvm
      ensures Valid() && |nvm.flash| == |old(nvm.flash)|
      ensures nvm.flash == Splice(old(nvm.flash), addr, Programmed(old(nvm.flash)[addr..addr + PAGE], buf[..]))
    {
      hide Programmed;
      ghost var was := nvm.flash;
      ghost var full := Programmed(was[addr..addr + PAGE], buf[..]);
      assert full[..0] == [];
      for i := 0 to 16
        invariant nvm.Valid() && |nvm.flash| == |was| && nvm.flash == Splice(was, addr, full[..256 * i])
      {
        WordsWrite(addr + 256 * i, buf[256 * i..256 * i + 256]);
        BlockStep(was, addr, buf[..], i);
      }
      assert full[..PAGE] == full;
    }

    /** Collects a write, page by page. */
    method Write(dst: nat, src: seq<byte>, needErase: bool)
      requires Valid() && dst + |src| <= |nvm.flash|
      modifies this, nvm, buf
      ensures Valid() && State() == Written(old(State()), dst, src, needErase)
    {
      hide Piece;
      var at: nat, rest := dst, src;
      ghost var want := Written(State(), dst, src, needErase);
      while rest != []
        invariant Valid() && at + |rest| <= |nvm.flash|
        invariant want == Written(State(), at, rest, needErase)
        decreases |rest|
      {
        var n := WritePiece(at, rest, needErase);
        at := at + n;
        rest := rest[n..];
      }
    }

    method WritePiece(at: nat, rest: seq<byte>, needErase: bool) returns (n: nat)
      requires Valid() && at + |rest| <= |nvm.flash| && rest != []
      modifies this, nvm, buf
      ensures Valid() && n == PieceLen(at, |rest|) && |nvm.flash| == |old(nvm.flash)|
      ensures State() == Piece(old(State()), at, rest[..n], needErase)
    {
      hide Flushed;
      TurnTo(at, needErase);
      ghost var turned, flash := buf[..], nvm.flash;
      var inPage := at % PAGE;
      var toEnd := PAGE - inPage;
      n := if toEnd < |rest| then toEnd else |rest|;
      forall i | 0 <= i < n {
        buf[inPage + i] := rest[i];
      }
      assert buf[..] == Splice(turned, inPage, rest[..n]);
    }

    /** If another page is being collected, flushes it and reads this one. */
    method TurnTo(at: nat, needErase: bool)
      requires Valid() && at < |nvm.flash|
      modifies this, nvm, buf
      ensures Valid() && State() == Turned(old(State()), at, needErase)
    {
      hide FlushedPage;
      PageInside(at, |nvm.flash|);
      var page := at - at % PAGE;
      if page != addr {
        Flush(needErase);
        addr := page;
        forall i | 0 <= i < PAGE {
          buf[i] := nvm.flash[page + i];
        }
        assert buf[..] == nvm.flash[page..page + PAGE];
      }
    }
  }

  lemma WordStep(was: seq<byte>, at: nat, data: seq<byte>, i: nat)
    requires |data| == 256 && at + 256 <= |was| && i < 64
    ensures var full := Programmed(was[at..at + 256], data);
            var now := Splice(was, at, full[..4 * i]);
            Splice(now, at + 4 * i, Programmed(now[at + 4 * i..at + 4 * i + 4], data[4 * i..4 * i + 4]))
                == Splice(was, at, full[..4 * (i + 1)])
  {
    hide And;
  }

  lemma BlockStep(was: seq<byte>, at: nat, data: seq<byte>, i: nat)
    requires |data| == PAGE && at + PAGE <= |was| && i < 16
    ensures var full := Programmed(was[at..at + PAGE], data);
            var now := Splice(was, at, full[..256 * i]);
            var k := at + 256 * i;
            Splice(now, k, Programmed(now[k..k + 256], data[256 * i..256 * i + 256]))
                == Splice(was, at, full[..256 * (i + 1)])
  {
    hide And;
  }
}
