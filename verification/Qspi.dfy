/**
 * The external QSPI flash: its DMA moves whole words through a bounce buffer,
 * so every access is widened to an aligned window; its programming only clears
 * bits, so a write is first overlaid on what is there.
 */
module Qspi {
  import opened Bytes
  import opened Flash

  const ALIGNMENT: nat := 4
  const APPROVAL_LEN: nat := 4
  const BOUNCE_LEN: nat := 256

  /** One aligned transfer, and where in it the requested bytes are. */
  datatype Window = Window(offset: u32, length: u32, prefix: u32, copyLength: u32)

  function AlignUp(n: u32): u32 { var up := Wrap32(n + ALIGNMENT - 1); up - up % ALIGNMENT }

  function DmaWindow(offset: u32, requested: u32, capacity: u32, bounce: u32): Option<Window> {
    if requested == 0 || bounce < ALIGNMENT || bounce % ALIGNMENT != 0 || capacity % ALIGNMENT != 0
       || offset > capacity || requested > capacity - offset then None
    else
      var aligned := offset - offset % ALIGNMENT;
      var prefix := offset - aligned;
      var available := bounce - prefix;
      var copyLength := if requested < available then requested else available;
      var length := AlignUp(prefix + copyLength);
      if aligned > capacity || length > capacity - aligned then None
      else Some(Window(aligned, length, prefix, copyLength))
  }

  /** The window is aligned, inside the chip, no longer than the bounce buffer, and covers the bytes it serves. */
  predicate Covers(w: Window, offset: nat, requested: nat, capacity: nat, bounce: nat) {
    && w.offset % ALIGNMENT == 0 && w.length % ALIGNMENT == 0 && 0 < w.length <= bounce
    && w.offset + w.length <= capacity
    && w.offset + w.prefix == offset && w.prefix < ALIGNMENT
    && w.prefix + w.copyLength <= w.length < w.prefix + w.copyLength + ALIGNMENT
    && 0 < w.copyLength && w.copyLength == Min(requested, bounce - w.prefix)
  }

  /** Exactly the requests inside an aligned chip are served, each with some progress; the last check never refuses. */
  lemma WindowCovers(offset: u32, requested: u32, capacity: u32, bounce: u32)
    ensures var w := DmaWindow(offset, requested, capacity, bounce);
            && (w.Some? <==>
                  && requested > 0 && bounce >= ALIGNMENT && bounce % ALIGNMENT == 0 && capacity % ALIGNMENT == 0
                  && offset + requested <= capacity)
            && (w.Some? ==> Covers(w.value, offset, requested, capacity, bounce))
  {
    hide AlignUp;
    if requested > 0 && bounce >= ALIGNMENT && bounce % ALIGNMENT == 0 && capacity % ALIGNMENT == 0
        && offset + requested <= capacity {
      var prefix := offset % ALIGNMENT;
      var copyLength := Min(requested, bounce - prefix);
      AlignedUp(prefix + copyLength, bounce);
      AlignedUp(offset + copyLength, capacity);
      Shifted(offset - prefix, prefix + copyLength);
    }
  }

  lemma AlignedUp(n: nat, bound: u32)
    requires n <= bound && bound % ALIGNMENT == 0
    ensures n <= AlignUp(n) <= bound && AlignUp(n) % ALIGNMENT == 0 && AlignUp(n) < n + ALIGNMENT
  {}

  lemma Shifted(base: nat, n: nat)
    requires base % ALIGNMENT == 0 && base + n + 3 <= U32_MAX
    ensures AlignUp(base + n) == base + AlignUp(n)
  {}

  // ---- overlaying -----------------------------------------------------------

  function Or(a: byte, b: byte): byte { ((a as bv8) | (b as bv8)) as byte }

  function Union(x: bv8, y: bv8): bv8 { x | y }

  lemma UnionHalves(x: bv8, y: bv8)
    ensures HalfBits(Union(x, y)) == Union(HalfBits(x), HalfBits(y))
  {}

  lemma UnionLast(x: bv8, y: bv8)
    ensures LastBit(Union(x, y)) == 1 <==> LastBit(x) == 1 || LastBit(y) == 1
  {}

  lemma OrIsUnion(a: byte, b: byte)
    ensures Or(a, b) == NumberOf(Union(BitsOf(a), BitsOf(b)))
  {}

  /** Bit by bit, one has to be set. */
  lemma OrBits(a: byte, b: byte)
    ensures Or(a, b) % 2 == 1 <==> a % 2 == 1 || b % 2 == 1
    ensures Or(a, b) / 2 == Or(a / 2, b / 2)
  {
    hide Or, HalfBits, LastBit, NumberOf, BitsOf, Union;
    var x, y := BitsOf(a), BitsOf(b);
    OrIsUnion(a, b);
    OrIsUnion(a / 2, b / 2);
    BitsNumber(a);
    BitsNumber(b);
    LastIsSet(x);
    LastIsSet(y);
    LastIsSet(Union(x, y));
    UnionLast(x, y);
    HalfOfBits(a);
    HalfOfBits(b);
    UnionHalves(x, y);
    HalfOfNumber(Union(x, y));
  }

  lemma BitsKept(x: bv8, y: bv8)
    ensures x | y == y <==> y & x == x
  {}

  lemma OrKeeps(a: byte, b: byte)
    ensures Or(a, b) == b <==> And(b, a) == a
  {
    OrIs(a, b);
    AndIs(b, a);
    BitsKept(a as bv8, b as bv8);
  }

  lemma OrIs(a: byte, b: byte)
    ensures Or(a, b) == b <==> (a as bv8) | (b as bv8) == b as bv8
  {
    ByteOfBits((a as bv8) | (b as bv8), b);
  }

  lemma AndIs(b: byte, a: byte)
    ensures And(b, a) == a <==> (b as bv8) & (a as bv8) == a as bv8
  {
    ByteOfBits((b as bv8) & (a as bv8), a);
  }

  lemma ByteOfBits(x: bv8, b: byte)
    ensures x as byte == b <==> x == b as bv8
  {
    BackAndForth(x);
    ByteBits(b);
  }

  lemma BackAndForth(x: bv8)
    ensures (x as byte) as bv8 == x
  {}

  /** The bytes to write clear bits at most. */
  predicate OnlyClears(window: seq<byte>, prefix: nat, src: seq<byte>)
    requires prefix + |src| <= |window|
  {
    forall i {:trigger src[i]} | 0 <= i < |src| :: Or(src[i], window[prefix + i]) == window[prefix + i]
  }

  /** Checks every byte first; only then changes the window. */
  method Overlay(window: array<byte>, length: nat, prefix: nat, src: seq<byte>) returns (ok: bool)
    requires length <= window.Length
    modifies window
    ensures ok <==> prefix + |src| <= length && OnlyClears(old(window[..]), prefix, src)
    ensures window[..] == if ok then Splice(old(window[..]), prefix, src) else old(window[..])
  {
    if prefix > length || |src| > length - prefix {
      return false;
    }
    for i := 0 to |src|
      invariant forall k {:trigger src[k]} | 0 <= k < i :: Or(src[k], window[prefix + k]) == window[prefix + k]
    {
      if Or(src[i], window[prefix + i]) != window[prefix + i] {
        assert !OnlyClears(old(window[..]), prefix, src);
        return false;
      }
    }
    ghost var was := window[..];
    for i := 0 to |src|
      invariant window[..] == Splice(was, prefix, src[..i])
    {
      window[prefix + i] := src[i];
    }
    assert src[..|src|] == src;
    ok := true;
  }

  /** Programming the overlaid window gives exactly the overlaid window. */
  lemma OverlayPrograms(window: seq<byte>, prefix: nat, src: seq<byte>)
    requires prefix + |src| <= |window| && OnlyClears(window, prefix, src)
    ensures Programmed(window, Splice(window, prefix, src)) == Splice(window, prefix, src)
  {
    var w := Splice(window, prefix, src);
    forall i | 0 <= i < |w| ensures And(window[i], w[i]) == w[i] {
      if prefix <= i < prefix + |src| {
        OrKeeps(src[i - prefix], window[i]);
      } else {
        OrKeeps(window[i], window[i]);
        SameBits(window[i] as bv8);
        OrIs(window[i], window[i]);
      }
    }
  }

  lemma SameBits(x: bv8)
    ensures x | x == x
  {}

  // ---- the chip -------------------------------------------------------------

  class QspiFlash {
    /** What the chip holds; as long as its capacity once it has been found. */
    var store: seq<byte>
    var capacity: u32
    const bounce: array<byte>
    /** Every transfer completes, and does what it was asked to. */
    const reliable: bool

    ghost predicate Valid()
      reads this, bounce
    {
      bounce.Length == BOUNCE_LEN && |store| == capacity && capacity % ALIGNMENT == 0
    }

    constructor (contents: seq<byte>, dependable: bool)
      requires |contents| <= U32_MAX && |contents| % ALIGNMENT == 0
      ensures Valid() && store == contents && reliable == dependable && fresh(bounce)
    {
      reliable := dependable;
      store := contents;
      capacity := |contents|;
      bounce := new byte[BOUNCE_LEN](i => 0);
    }

    /** What the DMA can transfer. */
    predicate Transferable(offset: nat, len: nat)
      reads this
    {
      offset % ALIGNMENT == 0 && len % ALIGNMENT == 0 && len > 0 && offset + len <= capacity
    }

    /** One DMA read into a word-aligned buffer; it may time out. */
    method ReadAligned(offset: u32, dst: array<byte>, len: u32) returns (ok: bool)
      requires Valid() && len <= dst.Length
      modifies dst
      ensures Valid()
      ensures ok ==> Transferable(offset, len) && dst[..len] == store[offset..offset + len]
      ensures reliable ==> (ok <==> Transferable(offset, len))
    {
      if offset % ALIGNMENT != 0 || len % ALIGNMENT != 0 || len == 0 || offset > capacity || len > capacity - offset {
        return false;
      }
      ok := reliable;
      if !ok {
        ok := *;
      }
      if ok {
        forall i | 0 <= i < len {
          dst[i] := store[offset + i];
        }
      }
    }

    /** Any byte range, read through the bounce buffer. */
    method Read(offset: u32, len: u32) returns (ok: bool, data: seq<byte>)
      requires Valid()
      modifies bounce
      ensures Valid()
      ensures ok ==> capacity != 0 && offset + len <= capacity && data == store[offset..offset + len]
      ensures reliable ==> (ok <==> capacity != 0 && offset + len <= capacity)
    {
      hide DmaWindow;
      data := [];
      if capacity == 0 || offset > capacity || len > capacity - offset {
        return false, data;
      }
      var at: nat, rest: nat := offset, len;
      while rest != 0
        invariant Valid() && at + rest == offset + len <= capacity && offset <= at && data == store[offset..at]
        decreases rest
      {
        var w := DmaWindow(at, rest, capacity, BOUNCE_LEN);
        WindowCovers(at, rest, capacity, BOUNCE_LEN);
        if w.None? {
          return false, data;
        }
        ok := ReadAligned(w.value.offset, bounce, w.value.length);
        if !ok {
          return false, data;
        }
        var piece := bounce[w.value.prefix..w.value.prefix + w.value.copyLength];
        Piece(store, bounce[..], w.value, offset, at);
        data := data + piece;
        at := at + w.value.copyLength;
        rest := rest - w.value.copyLength;
      }
      ok := true;
    }

    lemma Piece(s: seq<byte>, b: seq<byte>, w: Window, offset: nat, at: nat)
      requires w.offset + w.length <= |s| && w.prefix + w.copyLength <= w.length <= |b|
      requires offset <= at == w.offset + w.prefix
      requires b[..w.length] == s[w.offset..w.offset + w.length]
      ensures s[offset..at] + b[w.prefix..w.prefix + w.copyLength] == s[offset..at + w.copyLength]
    {
      SliceOfSlice(s, w.offset, w.length, w.prefix, w.prefix + w.copyLength);
      SliceOfSlice(b, 0, w.length, w.prefix, w.prefix + w.copyLength);
      assert b[0..w.length] == b[..w.length];
    }

    /** One DMA program inside a 256-byte page; one that goes wrong may leave anything in the window. */
    method WriteAligned(offset: u32, src: array<byte>, len: u32) returns (ok: bool)
      requires Valid() && len <= src.Length
      modifies this`store
      ensures Valid() && SameOutside(old(store), store, offset, offset + len)
      ensures ok ==> Transferable(offset, len) && len <= 256 - offset % 256
      ensures reliable ==> (ok <==> Transferable(offset, len) && len <= 256 - offset % 256)
      ensures reliable && ok ==>
                store == Splice(old(store), offset, Programmed(old(store[offset..offset + len]), src[..len]))
      ensures !(Transferable(offset, len) && len <= 256 - offset % 256) ==> store == old(store)
    {
      if offset % ALIGNMENT != 0 || len % ALIGNMENT != 0 || len == 0 || len > 256 - offset % 256
         || offset > capacity || len > capacity - offset {
        return false;
      }
      ok := true;
      if reliable {
        store := Splice(store, offset, Programmed(store[offset..offset + len], src[..len]));
      } else {
        ok := *;
        var left: seq<byte> :| |left| == len by { assert |Fill(len, 0)| == len; }
        store := Splice(store, offset, left);
      }
    }

    /** A word that lies in one program page of the chip, to which it only clears bits. */
    predicate Writable(offset: nat, src: seq<byte>)
      requires Valid()
      reads this, bounce
    {
      && |src| == APPROVAL_LEN && offset % 256 + |src| <= 256 && offset + |src| <= capacity && capacity != 0
      && OnlyClears(store, offset, src)
    }

    /** Clears the approval word: overlay, program, read back. */
    method Write(offset: u32, src: seq<byte>) returns (ok: bool)
      requires Valid()
      modifies this`store, bounce
      ensures Valid() && SameOutside(old(store), store, offset - offset % ALIGNMENT, offset + APPROVAL_LEN + ALIGNMENT)
      ensures ok ==> old(Writable(offset, src)) && store == Splice(old(store), offset, src)
      ensures reliable ==> (ok <==> old(Writable(offset, src)))
      ensures !old(Writable(offset, src)) ==> store == old(store)
    {
      if capacity == 0 || |src| != APPROVAL_LEN || offset % 256 + |src| > 256 || offset > capacity
          || |src| > capacity - offset {
        return false;
      }
      var w := DmaWindow(offset, |src|, capacity, BOUNCE_LEN);
      WindowCovers(offset, |src|, capacity, BOUNCE_LEN);
      ok := WriteWindow(w.value, offset, src);
    }

    method WriteWindow(w: Window, offset: u32, src: seq<byte>) returns (ok: bool)
      requires Valid() && |src| == APPROVAL_LEN && offset % 256 + |src| <= 256 && offset + |src| <= capacity
      requires Covers(w, offset, |src|, capacity, BOUNCE_LEN)
      modifies this`store, bounce
      ensures Valid() && SameOutside(old(store), store, w.offset, w.offset + w.length)
      ensures ok ==> OnlyClears(old(store), offset, src) && store == Splice(old(store), offset, src)
      ensures reliable ==> (ok <==> OnlyClears(old(store), offset, src))
      ensures !OnlyClears(old(store), offset, src) ==> store == old(store)
    {
      hide OnlyClears, Programmed, Covers, SameOutside, Splice;
      WindowOfWord(w, offset, capacity);
      SameAsBefore(store, w.offset, w.offset + w.length);
      ok := ReadAligned(w.offset, bounce, w.length);
      if !ok || w.copyLength != |src| {
        return false;
      }
      WindowClears(store, bounce[..], w, offset, src);
      ok := Overlay(bounce, w.length, w.prefix, src);
      if !ok || w.length > 2 * ALIGNMENT {
        return false;
      }
      ok := Commit(w, offset, src);
    }

    /** Programs the overlaid window and reads it back. */
    method Commit(w: Window, offset: u32, src: seq<byte>) returns (ok: bool)
      requires Valid() && |src| == APPROVAL_LEN && Transferable(w.offset, w.length)
      requires w.offset + w.prefix == offset && w.prefix + |src| <= w.length <= 256 - w.offset % 256
      requires w.length <= 2 * ALIGNMENT
      requires bounce[..w.length] == Splice(store[w.offset..w.offset + w.length], w.prefix, src)
      requires OnlyClears(store[w.offset..w.offset + w.length], w.prefix, src)
      modifies this`store
      ensures Valid() && SameOutside(old(store), store, w.offset, w.offset + w.length)
      ensures ok ==> store == Splice(old(store), offset, src)
      ensures reliable ==> ok
    {
      hide OnlyClears, Programmed;
      ghost var was := store[w.offset..w.offset + w.length];
      var expected := bounce[..w.length];
      OverlayPrograms(was, w.prefix, src);
      ok := WriteAligned(w.offset, bounce, w.length);
      if !ok {
        return false;
      }
      var verify := new byte[2 * ALIGNMENT](i => 0);
      ok := ReadAligned(w.offset, verify, w.length);
      SplicedWindow(old(store), w, expected);
      ok := ok && verify[..w.length] == expected;
      if ok {
        WindowWritten(old(store), store, w, offset, src);
      }
    }
  }

  /** A word that lies in one program page gets a window of at most two words, in that page. */
  lemma WindowOfWord(w: Window, offset: nat, capacity: nat)
    requires Covers(w, offset, APPROVAL_LEN, capacity, BOUNCE_LEN) && offset % 256 + APPROVAL_LEN <= 256
    ensures w.offset % ALIGNMENT == 0 && w.length % ALIGNMENT == 0 && w.offset + w.length <= capacity
    ensures w.offset + w.prefix == offset && w.copyLength == APPROVAL_LEN && w.prefix + APPROVAL_LEN <= w.length
    ensures 0 < w.length <= 2 * ALIGNMENT && w.length <= 256 - w.offset % 256
  {
    WindowInPage(w.offset, w.length, offset);
  }

  lemma SameAsBefore(s: seq<byte>, lo: int, hi: int)
    ensures SameOutside(s, s, lo, hi)
  {}

  lemma SplicedWindow(s: seq<byte>, w: Window, data: seq<byte>)
    requires w.offset + w.length <= |s| && |data| == w.length
    ensures Splice(s, w.offset, data)[w.offset..w.offset + w.length] == data
  {}

  lemma Mod4(q: nat, r: nat)
    requires r < 4
    ensures (4 * q + r) % 4 == r
  {}

  lemma Mod256(q: nat, r: nat)
    requires r < 256
    ensures (256 * q + r) % 256 == r
  {}

  lemma PageDigits(offset: nat) returns (page: nat, word: nat, p: nat)
    ensures offset == 256 * page + 4 * word + p && word < 64 && p < 4
    ensures offset % 256 == 4 * word + p && offset % 4 == p
  {
    page := offset / 256;
    word := offset % 256 / 4;
    p := offset % 256 % 4;
    Mod256(page, 4 * word + p);
    Mod4(64 * page + word, p);
  }

  /** The window of a word that lies in one program page lies in that page too. */
  lemma WindowInPage(base: nat, length: nat, offset: nat)
    requires base == offset - offset % 4 && length < offset % 4 + 8 && length % 4 == 0
    requires offset % 256 + 4 <= 256
    ensures length <= 256 - base % 256 && length <= 8
  {
    var page, word, p := PageDigits(offset);
    Mod256(page, 4 * word);
    var l := length / 4;
    assert length == 4 * l;
    assert base == 256 * page + 4 * word;
  }

  lemma WindowClears(store: seq<byte>, bounce: seq<byte>, w: Window, offset: nat, src: seq<byte>)
    requires w.offset + w.length <= |store| && w.length <= |bounce|
    requires bounce[..w.length] == store[w.offset..w.offset + w.length]
    requires w.offset + w.prefix == offset && w.prefix + |src| <= w.length
    ensures OnlyClears(bounce, w.prefix, src) <==> OnlyClears(store, offset, src)
    ensures OnlyClears(bounce, w.prefix, src) <==> OnlyClears(store[w.offset..w.offset + w.length], w.prefix, src)
  {
    var window := store[w.offset..w.offset + w.length];
    assert forall k | 0 <= k < w.length :: bounce[..w.length][k] == window[k];
    assert forall i {:trigger src[i]} | 0 <= i < |src| ::
        bounce[w.prefix + i] == window[w.prefix + i] == store[offset + i];
  }

  lemma WindowWritten(before: seq<byte>, after: seq<byte>, w: Window, offset: nat, src: seq<byte>)
    requires SameOutside(before, after, w.offset, w.offset + w.length) && w.offset + w.length <= |before|
    requires w.offset + w.prefix == offset && w.prefix + |src| <= w.length
    requires after[w.offset..w.offset + w.length] == Splice(before[w.offset..w.offset + w.length], w.prefix, src)
    ensures after == Splice(before, offset, src)
  {
    forall i | 0 <= i < |after| ensures after[i] == Splice(before, offset, src)[i] {
      if w.offset <= i < w.offset + w.length {
        assert after[i] == after[w.offset..w.offset + w.length][i - w.offset];
      }
    }
  }
}
