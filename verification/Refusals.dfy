/**
 * How the decoder ends a body that is not well formed: the errors it refuses a
 * size with, and the one that a body as a whole comes to.
 */
module Refusals {
  import opened Bytes
  import opened Flash
  import opened CrleStream
  import opened Delta

  const NOT_IMPLEMENTED: int := -1
  const CORRUPT_PATCH: int := -9

  /** In the 32 bits of the decoder's registers, `n` bytes more lead beyond the end. */
  predicate Beyond(toPos: nat, n: int, toSize: nat) {
    (toPos + n) % 0x1_0000_0000 > toSize
  }

  lemma WrapsOnce(toPos: nat, n: int, toSize: nat)
    ensures Wrap32(toPos + Wrap32(n)) > toSize <==> Beyond(toPos, n, toSize)
  {
    assert toPos + Wrap32(n) == toPos + n - 0x1_0000_0000 * (n / 0x1_0000_0000);
    SameWrap(toPos + n, n / 0x1_0000_0000);
  }

  lemma SameWrap(a: int, k: int)
    ensures (a - 0x1_0000_0000 * k) % 0x1_0000_0000 == a % 0x1_0000_0000
  {
    var q, r := a / 0x1_0000_0000, a % 0x1_0000_0000;
    assert a - 0x1_0000_0000 * k == 0x1_0000_0000 * (q - k) + r;
  }

  predicate TakesData(phase: Phase) {
    phase == DiffData || phase == ExtraData
  }

  predicate TakesSize(phase: Phase) {
    phase == DfpatchSize || phase == DiffSize || phase == ExtraSize || phase == Adjustment
  }

  /** Code to be patched is refused with -1, data beyond the end of the image with -9, an adjustment never. */
  function Verdict(phase: Phase, toPos: nat, toSize: nat, n: int): Option<int> {
    if phase == DfpatchSize && n > 0 then Some(-1)
    else if (phase == DiffSize || phase == ExtraSize) && Beyond(toPos, n, toSize) then Some(-9)
    else None
  }

  /** Where a size leads that is not refused; nothing is said of one that leaves its segment. */
  function Turned(g: Geometry, c: Cursor, n: int): Option<Cursor> {
    match c.phase
    case DfpatchSize =>
      if PAGE * c.index >= g.to then None
      else Some(c.(phase := DiffSize, index := c.index + 1, fromOffset := SourceLow(g, c.index), segPos := 0))
    case Adjustment =>
      if c.index == 0 || c.toPos == g.to then None
      else if c.segPos == SegmentSize(g, c.index - 1) then Some(c.(phase := DfpatchSize))
      else if !Int32(c.fromOffset + n) then None
      else Some(c.(phase := DiffSize, fromOffset := c.fromOffset + n))
    case _ =>
      if !SizeFits(g, c, n) then None
      else Some(c.(phase := if c.phase == DiffSize then DiffData else ExtraData, chunk := n))
  }

  function BlockEnd(c: Cursor): Cursor {
    c.(phase := if c.phase == DiffData then ExtraSize else Adjustment)
  }

  /**
   * The error that a body comes to from cursor `c` on, if it comes to one:
   * whatever data there is on the way, the first size that is refused decides.
   */
  ghost function Fate(g: Geometry, span: nat, c: Cursor, s: SizeState, items: seq<item>): Option<int>
    decreases |items|, if TakesData(c.phase) && c.chunk == 0 then 1 else 0
  {
    if TakesData(c.phase) then
      if c.chunk == 0 then Fate(g, span, BlockEnd(c), First, items)
      else if items == [] then None
      else if c.phase == DiffData && !(0 <= c.fromOffset < span) then None
      else if items[0] == GAP then Fate(g, span, c, First, items[1..])
      else Fate(g, span, Moved(c, 1), First, items[1..])
    else if TakesSize(c.phase) then
      var t := TakeSize(s, items);
      if TooLong(s, items) then Some(CORRUPT_PATCH_OVERFLOW)
      else if t.None? then None
      else if Verdict(c.phase, c.toPos, g.to, t.value.0).Some? then Verdict(c.phase, c.toPos, g.to, t.value.0)
      else if Turned(g, c, t.value.0).None? then None
      else Fate(g, span, Turned(g, c, t.value.0).value, First, t.value.1)
    else None
  }

  lemma FateAtSize(g: Geometry, span: nat, c: Cursor, s: SizeState, items: seq<item>)
    requires TakesSize(c.phase)
    ensures var t := TakeSize(s, items);
            Fate(g, span, c, s, items)
            == if TooLong(s, items) then Some(CORRUPT_PATCH_OVERFLOW)
               else if t.None? then None
               else if Verdict(c.phase, c.toPos, g.to, t.value.0).Some? then Verdict(c.phase, c.toPos, g.to, t.value.0)
               else if Turned(g, c, t.value.0).None? then None
               else Fate(g, span, Turned(g, c, t.value.0).value, First, t.value.1)
  {
    hide TakeSize, TooLong, Verdict, Turned;
  }

  lemma FateAtBlockEnd(g: Geometry, span: nat, c: Cursor, items: seq<item>)
    requires TakesData(c.phase) && c.chunk == 0
    ensures Fate(g, span, c, First, items) == Fate(g, span, BlockEnd(c), First, items)
  {
    hide TakeSize, TooLong;
  }

  lemma FateAtByte(g: Geometry, span: nat, c: Cursor, b: item, rest: seq<item>)
    requires TakesData(c.phase) && c.chunk > 0
    ensures Fate(g, span, c, First, [b] + rest)
         == if c.phase == DiffData && !(0 <= c.fromOffset < span) then None
            else if b == GAP then Fate(g, span, c, First, rest)
            else Fate(g, span, Moved(c, 1), First, rest)
  {
    hide TakeSize, TooLong;
    assert ([b] + rest)[1..] == rest;
  }

  /** Data does not decide the fate of a body. */
  lemma {:induction false} FateAtData(g: Geometry, span: nat, c: Cursor, data: seq<byte>, rest: seq<item>)
    requires TakesData(c.phase) && |data| <= c.chunk && Fate(g, span, c, First, data + rest).Some?
    ensures c.phase == DiffData && data != [] ==> 0 <= c.fromOffset && c.fromOffset + |data| <= span
    ensures Fate(g, span, Moved(c, |data|), First, rest) == Fate(g, span, c, First, data + rest)
    decreases |data|
  {
    hide Fate;
    if data == [] {
      assert data + rest == rest && Moved(c, 0) == c;
    } else {
      assert data + rest == [data[0]] + (data[1..] + rest);
      FateAtByte(g, span, c, data[0], data[1..] + rest);
      FateAtData(g, span, Moved(c, 1), data[1..], rest);
      assert Moved(Moved(c, 1), |data| - 1) == Moved(c, |data|);
    }
  }

  /** While a block lasts there is more to come. */
  lemma FateNeedsInput(g: Geometry, span: nat, c: Cursor, s: SizeState, items: seq<item>)
    requires Fate(g, span, c, s, items).Some? && (TakesData(c.phase) ==> c.chunk > 0)
    ensures items != []
  {
    NothingTaken(s);
    NothingIsTooLong(s);
  }

  /** A body that comes to an error describes no image. */
  lemma {:induction false} RefusedMeansNothing(g: Geometry, span: nat, base: seq<byte>, c: Cursor, s: SizeState,
                                               items: seq<item>)
    requires |base| == g.from && g.to < 0x1_0000_0000 && Fate(g, span, c, s, items).Some?
    ensures Rebuild(g, base, c, s, items).None?
    decreases |items|, if TakesData(c.phase) && c.chunk == 0 then 1 else 0
  {
    hide TakeSize, TooLong, Fate, Rebuild;
    if TakesSize(c.phase) {
      RefusedSizeMeansNothing(g, span, base, c, s, items);
      var t := TakeSize(s, items);
      if t.Some? && Turned(g, c, t.value.0).Some?
         && Fate(g, span, Turned(g, c, t.value.0).value, First, t.value.1).Some? {
        RefusedMeansNothing(g, span, base, Turned(g, c, t.value.0).value, First, t.value.1);
      }
    } else if TakesData(c.phase) {
      RefusedDataMeansNothing(g, span, base, c, s, items);
      if c.chunk == 0 {
        RefusedMeansNothing(g, span, base, BlockEnd(c), First, items);
      } else if items[0] == GAP {
        RefusedMeansNothing(g, span, base, c, First, items[1..]);
      } else {
        RefusedMeansNothing(g, span, base, Moved(c, 1), First, items[1..]);
      }
    } else {
      NoFate(g, span, c, s, items);
    }
  }

  lemma {:induction false} FateCodes(g: Geometry, span: nat, c: Cursor, s: SizeState, items: seq<item>)
    ensures Fate(g, span, c, s, items).Some? ==>
              Fate(g, span, c, s, items).value in {CORRUPT_PATCH_OVERFLOW, NOT_IMPLEMENTED, CORRUPT_PATCH}
    decreases |items|, if TakesData(c.phase) && c.chunk == 0 then 1 else 0
  {
    hide TakeSize, TooLong;
    if TakesData(c.phase) {
      if c.chunk == 0 {
        FateCodes(g, span, BlockEnd(c), First, items);
      } else if items != [] && items[0] == GAP {
        FateCodes(g, span, c, First, items[1..]);
      } else if items != [] {
        FateCodes(g, span, Moved(c, 1), First, items[1..]);
      }
    } else if TakeSize(s, items).Some? && Turned(g, c, TakeSize(s, items).value.0).Some? {
      FateCodes(g, span, Turned(g, c, TakeSize(s, items).value.0).value, First, TakeSize(s, items).value.1);
    }
  }

  lemma NoFate(g: Geometry, span: nat, c: Cursor, s: SizeState, items: seq<item>)
    requires !TakesSize(c.phase) && !TakesData(c.phase)
    ensures Fate(g, span, c, s, items).None?
  {}

  lemma RefusedSizeMeansNothing(g: Geometry, span: nat, base: seq<byte>, c: Cursor, s: SizeState, items: seq<item>)
    requires |base| == g.from && g.to < 0x1_0000_0000 && Fate(g, span, c, s, items).Some? && TakesSize(c.phase)
    ensures var t := TakeSize(s, items);
            || Rebuild(g, base, c, s, items).None?
            || (t.Some? && Turned(g, c, t.value.0).Some?
                && Fate(g, span, Turned(g, c, t.value.0).value, First, t.value.1).Some?
                && Rebuild(g, base, c, s, items)
                   == Rebuild(g, base, Turned(g, c, t.value.0).value, First, t.value.1))
  {
    hide TakeSize, TooLong, Fate, Rebuild;
    FateAtSize(g, span, c, s, items);
    if TakeSize(s, items).Some? {
      TakenIsNotTooLong(s, items);
    }
    match c.phase
    case DfpatchSize => AtDfpatch(g, base, c, s, items);
    case Adjustment => AtAdjustment(g, base, c, s, items);
    case _ => AtSize(g, base, c, s, items);
  }

  lemma RefusedDataMeansNothing(g: Geometry, span: nat, base: seq<byte>, c: Cursor, s: SizeState, items: seq<item>)
    requires |base| == g.from && Fate(g, span, c, s, items).Some? && TakesData(c.phase)
    ensures if c.chunk == 0 then
              && Fate(g, span, BlockEnd(c), First, items).Some?
              && Rebuild(g, base, c, s, items) == Rebuild(g, base, BlockEnd(c), First, items)
            else
              items != []
              && if items[0] == GAP then
                && Fate(g, span, c, First, items[1..]).Some?
                && Rebuild(g, base, c, s, items) == Rebuild(g, base, c, First, items[1..])
              else
                && Fate(g, span, Moved(c, 1), First, items[1..]).Some?
                && (Rebuild(g, base, c, s, items).Some? ==> Rebuild(g, base, Moved(c, 1), First, items[1..]).Some?)
  {
    hide TakeSize, TooLong;
  }
}
