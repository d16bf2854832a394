/**
 * The nRF52 program flash: whole pages are erased, words are programmed. An
 * erase or a page program may misbehave and do anything at all to its own page
 * (that is why the updater reads every page back), but never touches another
 * page. `glitches` bounds how many operations misbehave while one page is being
 * brought to its content. `trail` records every content that a power loss could
 * leave behind, oldest first.
 */
module Flash {
  import opened Bytes

  const PAGE: nat := 4096

  function PageOf(addr: nat): (p: nat)
    ensures p % PAGE == 0 && p <= addr < p + PAGE
  {
    addr - addr % PAGE
  }

  /**
   * Between (t0, w0) and (t1, w1) every content that was ever exposed differs
   * from w0 only inside [lo, hi).
   */
  ghost predicate Confined(t0: seq<seq<byte>>, w0: seq<byte>, t1: seq<seq<byte>>, w1: seq<byte>, lo: int, hi: int) {
    && t0 <= t1
    && SameOutside(w0, w1, lo, hi)
    && forall i | |t0| <= i < |t1| :: SameOutside(w0, t1[i], lo, hi)
  }

  lemma ConfinedTransitive(t0: seq<seq<byte>>, w0: seq<byte>, t1: seq<seq<byte>>, w1: seq<byte>,
                           t2: seq<seq<byte>>, w2: seq<byte>, lo: int, hi: int)
    requires Confined(t0, w0, t1, w1, lo, hi) && Confined(t1, w1, t2, w2, lo, hi)
    ensures Confined(t0, w0, t2, w2, lo, hi)
  {
    forall i | |t0| <= i < |t2| ensures SameOutside(w0, t2[i], lo, hi) {
      if i < |t1| {
        assert t2[i] == t1[i];
      }
    }
  }

  lemma ConfinedWiden(t0: seq<seq<byte>>, w0: seq<byte>, t1: seq<seq<byte>>, w1: seq<byte>, lo: int, hi: int, lo': int,
                      hi': int)
    requires Confined(t0, w0, t1, w1, lo, hi) && lo' <= lo && hi <= hi'
    ensures Confined(t0, w0, t1, w1, lo', hi')
  {}

  /** Bitwise and of two bytes. */
  function And(a: byte, b: byte): byte {
    ((a as bv8) & (b as bv8)) as byte
  }

  lemma AndErased(b: byte)
    ensures And(0xFF, b) == b
  {
    AllOnes(b as bv8);
    ByteBits(b);
  }

  function Meet(x: bv8, y: bv8): bv8 { x & y }

  lemma MeetHalves(x: bv8, y: bv8)
    ensures HalfBits(Meet(x, y)) == Meet(HalfBits(x), HalfBits(y))
  {}

  lemma MeetLast(x: bv8, y: bv8)
    ensures LastBit(Meet(x, y)) == 1 <==> LastBit(x) == 1 && LastBit(y) == 1
  {}

  lemma AndIsMeet(a: byte, b: byte)
    ensures And(a, b) == NumberOf(Meet(BitsOf(a), BitsOf(b)))
  {}

  /** Bit by bit, both have to be set. */
  lemma AndBits(a: byte, b: byte)
    ensures And(a, b) % 2 == 1 <==> a % 2 == 1 && b % 2 == 1
    ensures And(a, b) / 2 == And(a / 2, b / 2)
  {
    hide And, HalfBits, LastBit, NumberOf, BitsOf, Meet;
    var x, y := BitsOf(a), BitsOf(b);
    AndIsMeet(a, b);
    AndIsMeet(a / 2, b / 2);
    BitsNumber(a);
    BitsNumber(b);
    LastIsSet(x);
    LastIsSet(y);
    LastIsSet(Meet(x, y));
    MeetLast(x, y);
    HalfOfBits(a);
    HalfOfBits(b);
    MeetHalves(x, y);
    HalfOfNumber(Meet(x, y));
  }

  function Programmed(was: seq<byte>, data: seq<byte>): (r: seq<byte>)
    requires |was| == |data|
    ensures |r| == |was|
  {
    seq(|was|, i requires 0 <= i < |was| => And(was[i], data[i]))
  }

  /** Erased flash takes any data as it is. */
  lemma ProgramErased(was: seq<byte>, data: seq<byte>)
    requires |was| == |data| && forall i | 0 <= i < |was| :: was[i] == 0xFF
    ensures Programmed(was, data) == data
  {
    forall i | 0 <= i < |was| ensures Programmed(was, data)[i] == data[i] {
      AndErased(data[i]);
    }
  }

  const ATTEMPTS: nat := 3

  class Nvm {
    const glitches: nat
    var flash: seq<byte>
    ghost var trail: seq<seq<byte>>

    ghost predicate Valid()
      reads this
    {
      && |flash| % PAGE == 0 && |flash| < 0x1_0000_0000
      && trail != [] && trail[|trail| - 1] == flash
    }

    lemma Untouched(lo: int, hi: int)
      ensures Confined(trail, flash, trail, flash, lo, hi)
    {}

    constructor (image: seq<byte>, most: nat)
      requires |image| % PAGE == 0 && |image| < 0x1_0000_0000
      ensures Valid() && flash == image && trail == [image] && glitches == most
    {
      glitches := most;
      flash := image;
      trail := [image];
    }

    /** The device misbehaves too rarely to defeat every attempt at a page. */
    predicate Sound() {
      glitches < ATTEMPTS
    }

    /**
     * One erase or page program that should leave `told`. It takes effect
     * unless it is one of the `left` operations that may still misbehave.
     */
    method ChangePage(page: nat, told: seq<byte>, left: nat) returns (left': nat)
      requires Valid() && page % PAGE == 0 && page + PAGE <= |flash| && |told| == PAGE
      modifies this
      ensures Valid() && Confined(old(trail), old(flash), trail, flash, page, page + PAGE)
      ensures left' <= left && (left' == left ==> flash == Splice(old(flash), page, told))
    {
      var during: seq<byte> :| |during| == PAGE by { assert |Fill(PAGE, 0)| == PAGE; }
      var after, misbehaves: bool := told, *;
      left' := left;
      if misbehaves && left > 0 {
        after :| |after| == PAGE by { assert |Fill(PAGE, 0)| == PAGE; }
        left' := left - 1;
      }
      var interrupted := Splice(flash, page, during);
      flash := Splice(flash, page, after);
      trail := trail + [interrupted, flash];
    }

    /** An erase that takes effect, as the settings writer relies on without reading back. */
    method ErasePage(page: nat)
      requires Valid() && page % PAGE == 0 && page + PAGE <= |flash|
      modifies this
      ensures Valid() && flash == Splice(old(flash), page, Fill(PAGE, 0xFF)) && trail == old(trail) + [flash]
    {
      flash := Splice(flash, page, Fill(PAGE, 0xFF));
      trail := trail + [flash];
    }

    /** Programming a word can only clear bits. */
    method ProgramWord(addr: nat, word: seq<byte>)
      requires Valid() && |word| == 4 && addr + 4 <= |flash|
      modifies this
      ensures Valid() && flash == Splice(old(flash), addr, Programmed(old(flash)[addr..addr + 4], word))
      ensures trail == old(trail) + [flash]
    {
      flash := Splice(flash, addr, Programmed(flash[addr..addr + 4], word));
      trail := trail + [flash];
    }

    /** Word-by-word readback of a page against the bytes it should hold. */
    method PageMatches(page: nat, want: seq<byte>) returns (ok: bool)
      requires Valid() && page % PAGE == 0 && page + PAGE <= |flash| && |want| == PAGE
      ensures ok <==> flash[page..page + PAGE] == want
    {
      for i := 0 to PAGE / 4
        invariant flash[page..page + 4 * i] == want[..4 * i]
      {
        var actual := flash[page + 4 * i..page + 4 * i + 4];
        if actual != want[4 * i..4 * i + 4] {
          assert actual == flash[page..page + PAGE][4 * i..4 * i + 4] by {
            assert forall k | 0 <= k < 4 :: actual[k] == flash[page..page + PAGE][4 * i + k];
          }
          return false;
        }
        assert flash[page..page + 4 * (i + 1)] == flash[page..page + 4 * i] + actual;
        assert want[..4 * (i + 1)] == want[..4 * i] + want[4 * i..4 * i + 4];
      }
      assert want[..PAGE] == want;
      return true;
    }

    /**
     * Erase a page, program it when there is something to program, and accept
     * only what reads back; at most three attempts, which a sound device cannot
     * all defeat.
     */
    method ChangePageVerified(page: nat, want: seq<byte>, program: bool) returns (ok: bool)
      requires Valid() && page % PAGE == 0 && page + PAGE <= |flash| && |want| == PAGE
      modifies this
      ensures Valid() && Confined(old(trail), old(flash), trail, flash, page, page + PAGE)
      ensures SameOutside(old(flash), flash, page, page + PAGE)
      ensures ok ==> flash == Splice(old(flash), page, want)
      ensures Sound() && (program || want == Fill(PAGE, 0xFF)) ==> ok
    {
      var attempt: nat, left: nat := 0, glitches;
      while attempt < ATTEMPTS
        invariant attempt <= ATTEMPTS && Valid() && Confined(old(trail), old(flash), trail, flash, page, page + PAGE)
        invariant program || want == Fill(PAGE, 0xFF) ==> left + attempt <= glitches
      {
        ghost var t, w, was := trail, flash, left;
        left := Attempt(page, want, program, left);
        ConfinedTransitive(old(trail), old(flash), t, w, trail, flash, page, page + PAGE);
        ok := PageMatches(page, want);
        if ok {
          Matches(old(flash), flash, page, want);
          return;
        }
        assert left == was ==> flash[page..page + PAGE] != want;
        attempt := attempt + 1;
      }
      ok := false;
    }

    method Attempt(page: nat, want: seq<byte>, program: bool, left: nat) returns (left': nat)
      requires Valid() && page % PAGE == 0 && page + PAGE <= |flash| && |want| == PAGE
      modifies this
      ensures Valid() && Confined(old(trail), old(flash), trail, flash, page, page + PAGE)
      ensures left' <= left
      ensures left' == left && (program || want == Fill(PAGE, 0xFF)) ==> flash[page..page + PAGE] == want
    {
      hide Programmed;
      ghost var t0, w0 := trail, flash;
      left' := ChangePage(page, Fill(PAGE, 0xFF), left);
      Spliced(w0, page, Fill(PAGE, 0xFF));
      if program {
        ghost var t, w := trail, flash;
        if left' == left {
          ProgramErased(flash[page..page + PAGE], want);
        }
        left' := ChangePage(page, Programmed(flash[page..page + PAGE], want), left');
        ConfinedTransitive(t0, w0, t, w, trail, flash, page, page + PAGE);
        Spliced(w, page, want);
      }
    }
  }

  lemma Spliced(w: seq<byte>, page: nat, content: seq<byte>)
    requires page + |content| <= |w|
    ensures Splice(w, page, content)[page..page + |content|] == content
  {}

  /** A page that reads back as wanted, with everything else as before. */
  lemma Matches(w: seq<byte>, w': seq<byte>, page: nat, want: seq<byte>)
    requires SameOutside(w, w', page, page + |want|) && page + |want| <= |w| && w'[page..page + |want|] == want
    ensures w' == Splice(w, page, want)
  {
    assert forall i | page <= i < page + |want| :: w'[i] == w'[page..page + |want|][i - page];
  }
}
