/**
 * The in-place patch decoder: it shifts the old image up inside the
 * workspace, then rebuilds the new image segment by segment over the space
 * just vacated, reading old bytes from where the shift left them.
 *
 * Every method keeps `mem.Kept`, whatever the patch holds. For a well-formed
 * patch, `Bound` says that memory, decoder state and the input still to come
 * determine the new image; every step keeps it.
 */
module Decoder {
  import opened Bytes
  import opened Flash
  import opened Cache
  import opened Memory
  import opened CrleStream
  import opened Delta
  import opened Refusals
  import opened Shift

  const BAD_PATCH_TYPE: int := -3
  const BAD_COMPRESSION: int := -4
  const INTERNAL_ERROR: int := -5
  const ALREADY_DONE: int := -11
  const SHORT_HEADER: int := -18
  const NOT_ENOUGH_PATCH_DATA: int := -19
  const ALREADY_FAILED: int := -24
  const PATCH_TYPE_IN_PLACE: int := 1
  const COMPRESSION_CRLE: int := 2
  const BLOCK: nat := 128

  /** Two's complement reading of the low 32 bits of `n`. */
  function Signed32(n: int): (r: int32)
    ensures Int32(n) ==> r == n
  {
    var w: int := Wrap32(n);
    if w < 0x8000_0000 then w else w - 0x1_0000_0000
  }

  /** Unsigned division; the Cortex-M4 yields 0 for a zero divisor. */
  function UDiv(n: nat, d: nat): nat {
    if d == 0 then 0 else n / d
  }

  /** The geometry the applier has checked before the decoder is started. */
  ghost predicate GeometryFits(g: Geometry, span: nat) {
    && g.shift % PAGE == 0 && g.shift <= g.memory && g.from <= g.memory - g.shift
    && g.memory <= span && g.to <= span && span % PAGE == 0 && span <= 0x4000_0000
  }

  /** Header fields `i` to 5 (memory, segment, shift, from and to size) and what follows them. */
  ghost function Header(i: nat, s: SizeState, input: seq<byte>): Option<(seq<nat>, seq<byte>)>
    decreases |input|
  {
    if i > 5 then Some(([], input))
    else
      var t := TakeSize(s, input);
      if t.None? then None
      else
        var more := Header(i + 1, First, t.value.1);
        if more.None? then None else Some(([Abs(t.value.0)] + more.value.0, more.value.1))
  }

  /** One of the fields `i` to 5 is too long, and those before it are not. */
  ghost predicate HeaderDoomed(i: nat, s: SizeState, input: seq<byte>)
    decreases |input|
  {
    && i <= 5
    && (TooLong(s, input) || (TakeSize(s, input).Some? && HeaderDoomed(i + 1, First, TakeSize(s, input).value.1)))
  }

  /** The error that a header comes to from field `i` on: -25 for a size it cannot read, -4 for its compression. */
  ghost function HeaderFault(compression: int, i: nat, s: SizeState, input: seq<byte>): Option<int> {
    if HeaderDoomed(i, s, input) then Some(-25)
    else if compression != COMPRESSION_CRLE && Header(i, s, input).Some? then Some(-4)
    else None
  }

  /** The error that a patch comes to in its header; -3 when it is of another kind. */
  ghost function PatchFault(patch: seq<byte>): Option<int> {
    if patch == [] then None
    else if patch[0] / 0x10 % 8 != PATCH_TYPE_IN_PLACE then Some(-3)
    else HeaderFault(patch[0] % 0x10, 1, First, patch[1..])
  }

  /** A patch of the right type whose header the decoder cannot read. */
  ghost predicate PatchDoomed(patch: seq<byte>) {
    patch != [] && patch[0] / 0x10 % 8 == PATCH_TYPE_IN_PLACE && HeaderDoomed(1, First, patch[1..])
  }

  lemma DoomedIsFault(patch: seq<byte>)
    ensures PatchDoomed(patch) <==> PatchFault(patch) == Some(CORRUPT_PATCH_OVERFLOW)
  {
    hide HeaderDoomed, Header;
  }

  /** The error that a patch whose header is that of `g` comes to in its body. */
  ghost function PatchFate(g: Geometry, span: nat, patch: seq<byte>): Option<int> {
    if GeometryFits(g, span) && PatchBody(g, patch).Some? then
      Fate(g, span, StartCursor(g), First, Expand(Idle, PatchBody(g, patch).value))
    else None
  }

  lemma BodyFateNegative(g: Geometry, span: nat, patch: seq<byte>)
    ensures PatchFate(g, span, patch).Some? ==> PatchFate(g, span, patch).value < 0
  {
    hide PatchBody, Fate, Expand;
    if PatchBody(g, patch).Some? {
      FateCodes(g, span, StartCursor(g), First, Expand(Idle, PatchBody(g, patch).value));
    }
  }

  lemma HeaderNeedsInput(i: nat, s: SizeState)
    requires i <= 5
    ensures Header(i, s, []).None? && !HeaderDoomed(i, s, [])
  {
    NothingTaken(s);
    NothingIsTooLong(s);
  }

  function Abs(n: int): nat {
    if n < 0 then -n else n
  }

  function HeaderFields(g: Geometry): seq<nat> {
    [g.memory, PAGE, g.shift, g.from, g.to]
  }

  /** `body`, applied to `base`, is a well-formed description of `image`. */
  ghost predicate BodyMeans(g: Geometry, base: seq<byte>, image: seq<byte>, body: seq<byte>) {
    && |base| == g.from && |image| == g.to
    && Rebuild(g, base, StartCursor(g), First, Expand(Idle, body)) == Some(image)
  }

  /** `patch` is a well-formed in-place patch from `base` to `image`. */
  ghost predicate PatchMeans(g: Geometry, base: seq<byte>, image: seq<byte>, patch: seq<byte>) {
    PatchBody(g, patch).Some? && BodyMeans(g, base, image, PatchBody(g, patch).value)
  }

  /** The body of a patch of the right kind whose header is that of `g`. */
  ghost function PatchBody(g: Geometry, patch: seq<byte>): Option<seq<byte>> {
    if patch != [] && patch[0] / 0x10 % 8 == PATCH_TYPE_IN_PLACE && patch[0] % 0x10 == COMPRESSION_CRLE then
      BodyBehind(g, 1, First, patch[1..])
    else None
  }

  /** The body behind the header fields `i` to 5, if they are those of `g`. */
  ghost function BodyBehind(g: Geometry, i: nat, s: SizeState, input: seq<byte>): Option<seq<byte>>
    requires 1 <= i <= 6
  {
    var h := Header(i, s, input);
    if h.Some? && h.value.0 == HeaderFields(g)[i - 1..] then Some(h.value.1) else None
  }

  lemma HeaderStep(g: Geometry, i: nat, s: SizeState, input: seq<byte>)
    requires 1 <= i <= 5 && BodyBehind(g, i, s, input).Some?
    ensures var t := TakeSize(s, input);
            && t.Some? && Abs(t.value.0) == HeaderFields(g)[i - 1]
            && BodyBehind(g, i + 1, First, t.value.1) == BodyBehind(g, i, s, input)
  {
    var t := TakeSize(s, input);
    var more := Header(i + 1, First, t.value.1);
    var fields := [Abs(t.value.0)] + more.value.0;
    assert fields == HeaderFields(g)[i - 1..];
    assert fields[0] == HeaderFields(g)[i - 1] && fields[1..] == HeaderFields(g)[i..] && fields[1..] == more.value.0;
  }

  /**
   * A size is read, or waits for more, or is given up because no size is
   * there; one whose encoding is too long is an overflow sooner or later.
   */
  ghost predicate SizeRead(s: SizeState, input: seq<byte>, res: int, value: int, s': SizeState, input': seq<byte>,
                           more: bool) {
    var want := TakeSize(s, input);
    && (res == OK ==> want.Some? && value == Abs(want.value.0) && input' == want.value.1 && s' == First)
    && (res == MORE_INPUT ==> TakeSize(s', input') == want && (want.Some? ==> more))
    && (res == CORRUPT_PATCH_OVERFLOW ==> want.None?)
    && (TooLong(s, input) ==> res == CORRUPT_PATCH_OVERFLOW || (res == MORE_INPUT && TooLong(s', input') && more))
  }

  /** From here on the size is the one that was to be read from `s0` and `input0`. */
  ghost predicate SameSize(s0: SizeState, input0: seq<byte>, s: SizeState, input: seq<byte>) {
    TakeSize(s, input) == TakeSize(s0, input0) && TooLong(s, input) == TooLong(s0, input0)
  }

  lemma SameAsItself(s: SizeState, input: seq<byte>)
    ensures SameSize(s, input, s, input)
  {}

  lemma SizeWaits(s0: SizeState, input0: seq<byte>, value: int, s: SizeState, input: seq<byte>)
    requires SameSize(s0, input0, s, input)
    ensures SizeRead(s0, input0, MORE_INPUT, value, s, input, input != [])
  {
    NothingTaken(s);
    NothingIsTooLong(s);
  }

  /** One byte of a size: the last one, one too many, or one that leaves the same size to be read. */
  lemma SizeByte(s0: SizeState, input0: seq<byte>, s: SizeState, b: byte, rest: seq<byte>, more: bool)
    requires SameSize(s0, input0, s, [b] + rest)
    ensures if s.Consecutive? && IsOverflow(s.offset) then
             SizeRead(s0, input0, CORRUPT_PATCH_OVERFLOW, 0, s, rest, more)
            else if CrleStream.Continues(b) then SameSize(s0, input0, WithByte(s, b), rest)
            else
              var w := WithByte(s, b);
              w.Consecutive? && w.value >= 0 && SizeRead(s0, input0, OK, w.value, First, rest, more)
  {
    hide TakeSize, TooLong, Place, IsOverflow, CrleStream.Continues;
    TakeByte(s, b, rest);
    TooLongByte(s, b, rest);
  }

  /** What a header size, as it was read, does for a header that is that of `g`, and for one that ends in an error. */
  lemma HeaderRead(g: Geometry, compression: int, i: nat, s: SizeState, input: seq<byte>,
                   res: int, value: int, s': SizeState, input': seq<byte>, more: bool)
    requires 1 <= i <= 5 && SizeRead(s, input, res, value, s', input', more)
    requires res == OK || res == MORE_INPUT || res == CORRUPT_PATCH_OVERFLOW
    ensures var body := BodyBehind(g, i, s, input);
            body.Some? ==>
              if res == OK then value == HeaderFields(g)[i - 1] && BodyBehind(g, i + 1, First, input') == body
              else res == MORE_INPUT && more && BodyBehind(g, i, s', input') == body
    ensures var fault := HeaderFault(compression, i, s, input);
            fault.Some? ==>
              if res == OK then HeaderFault(compression, i + 1, First, input') == fault
              else res == fault.value || (res == MORE_INPUT && more && HeaderFault(compression, i, s', input') == fault)
  {
    hide TakeSize, TooLong, HeaderDoomed, BodyBehind, Header;
    DoomedStep(i, s, input, s', input');
    HeaderNext(i, s, input);
    DoomedStep(i, s', input', s, input);
    if TakeSize(s', input') == TakeSize(s, input) {
      HeaderSame(i, s, input, s', input');
      if TakeSize(s, input).Some? {
        TakenIsNotTooLong(s', input');
      }
    }
    if BodyBehind(g, i, s, input).Some? {
      HeaderStep(g, i, s, input);
      if res == MORE_INPUT {
        HeaderWaiting(g, i, s, input, s', input');
      }
    }
  }

  lemma HeaderNext(i: nat, s: SizeState, input: seq<byte>)
    requires i <= 5
    ensures Header(i, s, input).Some? <==>
            TakeSize(s, input).Some? && Header(i + 1, First, TakeSize(s, input).value.1).Some?
    ensures i == 5 && TakeSize(s, input).Some? ==> !HeaderDoomed(6, First, TakeSize(s, input).value.1)
  {
    hide TakeSize;
  }

  lemma HeaderSame(i: nat, s: SizeState, input: seq<byte>, s': SizeState, input': seq<byte>)
    requires i <= 5 && TakeSize(s', input') == TakeSize(s, input)
    ensures Header(i, s', input') == Header(i, s, input)
  {
    hide TakeSize;
  }

  /** One field of a header that cannot be read, and the header behind it. */
  lemma DoomedStep(i: nat, s: SizeState, input: seq<byte>, s': SizeState, input': seq<byte>)
    requires i <= 5
    ensures HeaderDoomed(i, s, input) <==>
            TooLong(s, input) || (i < 5 && TakeSize(s, input).Some?
                && HeaderDoomed(i + 1, First, TakeSize(s, input).value.1))
    ensures HeaderDoomed(i, s, input) && !TooLong(s, input) && TakeSize(s', input') == TakeSize(s, input) ==>
              HeaderDoomed(i, s', input')
    ensures TooLong(s', input') ==> HeaderDoomed(i, s', input')
  {
    hide TakeSize, TooLong;
  }

  // ---- one step of a well-formed patch, on values -------------------------

  /**
   * What the shift leaves of the old image in the memory the decoder starts
   * from: all of it, or, without a shift, nothing but erased flash.
   */
  function Base(g: Geometry, start: seq<byte>): (b: seq<byte>)
    ensures g.from <= |start| ==> b == if g.shift > 0 then start[..g.from] else Fill(g.from, 0xFF)
  {
    if g.from > |start| then [] else if g.shift > 0 then start[..g.from] else Fill(g.from, 0xFF)
  }

  /** The decoder rebuilds from the installed image exactly when there is a shift, or nothing to lose. */
  lemma BaseIsImageIff(g: Geometry, start: seq<byte>)
    requires g.from <= |start|
    ensures Base(g, start) == start[..g.from] <==> g.shift > 0 || forall a | 0 <= a < g.from :: start[a] == 0xFF
  {
    assert forall a | 0 <= a < g.from :: start[..g.from][a] == start[a];
    if g.shift == 0 && Base(g, start) == start[..g.from] {
      assert forall a | 0 <= a < g.from :: Fill(g.from, 0xFF)[a] == 0xFF;
    }
  }

  /** The memory once the old image has been shifted; nothing moves when there is nothing to build. */
  function Shifted(g: Geometry, start: seq<byte>): (r: seq<byte>)
    requires GeometryFits(g, |start|)
    ensures |r| == |start|
  {
    if g.to > 0 then MovedPages(g, start) else start
  }

  /** All pages of the old image, shifted. */
  function MovedPages(g: Geometry, r: seq<byte>): (s: seq<byte>)
    requires GeometryFits(g, |r|)
    ensures |s| == |r|
  {
    PagesFit(g, |r|);
    ShiftKeepsSize(r, g.shift, Segments(g));
    ShiftAll(r, g.shift, Segments(g))
  }

  /** The new image up to `pos`, erased flash from there to `top`, and the shifted memory above. */
  function Laid(shifted: seq<byte>, image: seq<byte>, pos: nat, top: nat): (r: seq<byte>)
    requires pos <= |image|
    ensures |r| == |shifted|
    ensures forall a {:trigger r[a]} | 0 <= a < |r| ::
              r[a] == if a < pos then image[a] else if a < top then 0xFF else shifted[a]
  {
    seq(|shifted|, a requires 0 <= a < |shifted| => if a < pos then image[a] else if a < top then 0xFF else shifted[a])
  }

  /** The memory a patch for `image` leaves behind, as the old memory alone determines it. */
  function FinalMemory(g: Geometry, start: seq<byte>, image: seq<byte>): (r: seq<byte>)
    requires GeometryFits(g, |start|) && |image| == g.to
    ensures |r| == |start| && r[..g.to] == image
  {
    Laid(Shifted(g, start), image, g.to, RoundUp(g.to))
  }

  /** The position inside the current segment agrees with the position in the image. */
  ghost predicate Tiled(g: Geometry, c: Cursor, s: SizeState) {
    if c.phase == Done then c.toPos == g.to && PAGE * c.index == RoundUp(g.to)
    else if c.phase == DfpatchSize then c.toPos == PAGE * c.index
    else
      && c.phase != Init && c.phase != Failed
      && c.index > 0 && PAGE * (c.index - 1) < g.to && c.segPos <= SegmentSize(g, c.index - 1)
      && c.toPos == PAGE * (c.index - 1) + c.segPos && Int32(c.fromOffset)
      && (c.phase == DiffData || c.phase == ExtraData ==>
            c.segPos + c.chunk <= SegmentSize(g, c.index - 1) && s == First)
  }

  /**
   * In the body, with workspace content `r` and decoded bytes `pending` to
   * come: memory is what the position in the image says, byte for byte, and
   * what is pending rebuilds the rest of the image.
   */
  ghost predicate Track(g: Geometry, start: seq<byte>, image: seq<byte>, c: Cursor, r: seq<byte>, s: SizeState,
                        pending: seq<item>) {
    && GeometryFits(g, |r|) && |start| == |r| && |image| == g.to && c.toPos <= g.to
    && Tiled(g, c, s)
    && r == Laid(Shifted(g, start), image, c.toPos, PAGE * c.index)
    && Rebuild(g, Base(g, start), c, s, pending) == Some(image[c.toPos..])
  }

  /** Address of segment `index`, in 32-bit arithmetic. */
  function SegmentStart(segment: u32, index: int): u32 {
    Wrap32(segment * index)
  }

  /** Below one gigabyte no size computation of the decoder wraps. */
  lemma NoWrapSegment(g: Geometry, index: nat)
    requires PAGE * index < g.to <= 0x4000_0000 && g.shift <= 0x4000_0000
    ensures SegmentStart(PAGE, index) == PAGE * index && Wrap32(index + 1) == index + 1
    ensures Signed32(Max(SegmentStart(PAGE, index + 1), g.shift)) == SourceLow(g, index)
    ensures Min(PAGE, Wrap32(g.to - PAGE * index)) == SegmentSize(g, index)
  {}

  /** Above the shift stands what is left of the old image. */
  lemma ShiftedHoldsBase(g: Geometry, start: seq<byte>, a: nat)
    requires GeometryFits(g, |start|) && g.to > 0 && g.shift <= a < g.shift + g.from
    ensures Shifted(g, start)[a] == Base(g, start)[a - g.shift]
  {
    hide ShiftAll;
    PagesFit(g, |start|);
    if g.shift > 0 {
      WholePage(g.shift);
      ShiftMoves(start, g.shift, Segments(g));
    } else {
      ShiftZeroErases(start, Segments(g));
    }
  }

  lemma WholePage(n: nat)
    requires n > 0 && n % PAGE == 0
    ensures n >= PAGE
  {}

  /** Bytes a segment may still read are in memory as the old image has them. */
  lemma SourceIntact(g: Geometry, start: seq<byte>, image: seq<byte>, pos: nat, k: nat, at: int, n: nat)
    requires GeometryFits(g, |start|) && |image| == g.to && g.to > 0 && pos <= PAGE * (k + 1) && pos <= g.to
    requires n > 0 && Readable(g, k, at, n)
    ensures var r := Laid(Shifted(g, start), image, pos, PAGE * (k + 1));
            0 <= at && at + n <= |r| && r[at..at + n] == OldBytes(g, Base(g, start), k, at, n)
  {
    hide Shifted;
    var r, old_ := Laid(Shifted(g, start), image, pos, PAGE * (k + 1)), OldBytes(g, Base(g, start), k, at, n);
    forall i | 0 <= i < n ensures r[at..at + n][i] == old_[i] {
      ShiftedHoldsBase(g, start, at + i);
      assert r[at + i] == Shifted(g, start)[at + i];
    }
  }

  /** Erasing the next page makes room for its segment, and touches nothing above it. */
  lemma LaidErase(shifted: seq<byte>, image: seq<byte>, k: nat)
    requires PAGE * k <= |image| && PAGE * (k + 1) <= |shifted|
    ensures Splice(Laid(shifted, image, PAGE * k, PAGE * k), PAGE * k, Fill(PAGE, 0xFF))
             == Laid(shifted, image, PAGE * k, PAGE * (k + 1))
  {}

  /** Writing the next bytes of the image moves the position on. */
  lemma LaidWrite(shifted: seq<byte>, image: seq<byte>, pos: nat, top: nat, done: seq<byte>)
    requires pos + |done| <= top <= |shifted| && pos + |done| <= |image| && image[pos..pos + |done|] == done
    ensures Splice(Laid(shifted, image, pos, top), pos, done) == Laid(shifted, image, pos + |done|, top)
  {
    assert forall i | pos <= i < pos + |done| :: image[i] == image[pos..pos + |done|][i - pos];
  }

  /** Entering a segment erases its page, which no later read needs. */
  lemma TrackDfpatch(g: Geometry, start: seq<byte>, image: seq<byte>, c: Cursor, r: seq<byte>, s: SizeState,
                     pending: seq<item>)
    requires Track(g, start, image, c, r, s, pending) && c.phase == DfpatchSize
    ensures var t := TakeSize(s, pending);
            && t.Some? && t.value.0 <= 0 && PAGE * c.index < g.to
            && g.shift <= 0x4000_0000 && g.to <= 0x4000_0000
            && var n := SegmentSize(g, c.index);
               && n > 0 && PAGE * c.index + n <= |r| && RoundUp(PAGE * c.index + n) <= |r|
               && Track(g, start, image,
                        c.(phase := DiffSize, index := c.index + 1, fromOffset := SourceLow(g, c.index), segPos := 0),
                        Erased(r, PAGE * c.index, n), First, t.value.1)
  {
    hide Rebuild, TakeSize, Erased, RoundUp, PageOf, Shifted, Laid;
    AtDfpatch(g, Base(g, start), c, s, pending);
    SegmentEnd(c.index, SegmentSize(g, c.index), |r|);
    SegmentErased(r, c.index, SegmentSize(g, c.index));
    LaidErase(Shifted(g, start), image, c.index);
  }

  /** Any part of segment `k` lies in one page. */
  lemma SegmentEnd(k: nat, n: nat, size: nat)
    requires 0 < n <= PAGE && PAGE * k + n <= size && size % PAGE == 0
    ensures RoundUp(PAGE * k + n) == PAGE * (k + 1) <= size && PageOf(PAGE * k) == PAGE * k
  {
    PageUnique(PAGE * k, PAGE * k);
    PageUnique(PAGE * k + n, PAGE * (k + 1));
    PageInside(PAGE * k, 0, size);
  }

  /** Erasing any part of a segment erases its page. */
  lemma SegmentErased(r: seq<byte>, k: nat, n: nat)
    requires n > 0 && RoundUp(PAGE * k + n) == PAGE * (k + 1) <= |r| && PageOf(PAGE * k) == PAGE * k
    ensures Erased(r, PAGE * k, n) == Splice(r, PAGE * k, Fill(PAGE, 0xFF))
  {
    hide Splice, RoundUp, PageOf;
  }

  ghost function Flatten(chunks: seq<seq<byte>>): seq<byte> {
    if chunks == [] then [] else chunks[0] + Flatten(chunks[1..])
  }

  lemma DoneNeedsNothing(g: Geometry, base: seq<byte>, c: Cursor, s: SizeState, pending: seq<item>, pending': seq<item>)
    requires |base| == g.from && c.phase == Done
    ensures Rebuild(g, base, c, s, pending) == Rebuild(g, base, c, s, pending')
  {
    hide Rebuild;
    DoneRebuilds(g, base, c, s, pending);
    DoneRebuilds(g, base, c, s, pending');
  }

  lemma HeaderWaiting(g: Geometry, i: nat, s: SizeState, input: seq<byte>, s': SizeState, input': seq<byte>)
    requires 1 <= i <= 5 && TakeSize(s', input') == TakeSize(s, input)
    ensures BodyBehind(g, i, s', input') == BodyBehind(g, i, s, input)
  {}

  /** Decoding starts on track once the old image has been shifted. */
  lemma TrackStart(g: Geometry, start: seq<byte>, image: seq<byte>, r: seq<byte>, body: seq<byte>)
    requires GeometryFits(g, |start|) && BodyMeans(g, Base(g, start), image, body) && r == Shifted(g, start)
    ensures Track(g, start, image, StartCursor(g), r, First, Expand(Idle, body))
  {
    hide Rebuild, Expand, Shifted;
    assert image[0..] == image;
    assert r == Laid(r, image, 0, 0);
    if g.to == 0 {
      DoneRebuilds(g, Base(g, start), StartCursor(g), First, Expand(Idle, body));
    }
  }

  lemma DoneRebuilds(g: Geometry, base: seq<byte>, c: Cursor, s: SizeState, bytes: seq<item>)
    requires |base| == g.from && c.phase == Done
    ensures Rebuild(g, base, c, s, bytes) == Some([])
  {
    hide TakeSize, Expand;
  }

  lemma ImageSplit(image: seq<byte>, pos: nat, done: seq<byte>, rest: seq<byte>)
    requires pos <= |image| && image[pos..] == done + rest
    ensures pos + |done| <= |image| && image[pos..pos + |done|] == done && image[pos + |done|..] == rest
  {
    assert |image| - pos == |done| + |rest|;
    assert forall i | 0 <= i < |done| :: image[pos + i] == image[pos..][i] == done[i];
    assert forall i | 0 <= i < |rest| :: image[pos + |done| + i] == image[pos..][|done| + i] == rest[i];
  }

  /** A diff or extra size of a well-formed patch is not negative and fits the segment. */
  lemma TrackSize(g: Geometry, start: seq<byte>, image: seq<byte>, c: Cursor, r: seq<byte>, s: SizeState,
                  pending: seq<item>)
    requires Track(g, start, image, c, r, s, pending) && (c.phase == DiffSize || c.phase == ExtraSize)
    ensures var t := TakeSize(s, pending);
            && t.Some? && 0 <= t.value.0 && c.toPos + t.value.0 <= g.to <= 0x4000_0000
            && Track(g, start, image, c.(phase := if c.phase == DiffSize then DiffData else ExtraData,
                 chunk := t.value.0),
                     r, First, t.value.1)
  {
    hide Rebuild, TakeSize, Laid, Shifted;
    AtSize(g, Base(g, start), c, s, pending);
  }

  /** Where a well-formed patch has a size, one is there. */
  lemma TrackHasSize(g: Geometry, start: seq<byte>, image: seq<byte>, c: Cursor, r: seq<byte>, s: SizeState,
                     pending: seq<item>)
    requires Track(g, start, image, c, r, s, pending) && TakesSize(c.phase)
    ensures TakeSize(s, pending).Some?
  {
    hide Rebuild, TakeSize, Laid, Shifted;
    match c.phase
    case DfpatchSize => AtDfpatch(g, Base(g, start), c, s, pending);
    case Adjustment => AtAdjustment(g, Base(g, start), c, s, pending);
    case _ => AtSize(g, Base(g, start), c, s, pending);
  }

  /** Waiting in the middle of a size. */
  lemma TrackWaiting(g: Geometry, start: seq<byte>, image: seq<byte>, c: Cursor, r: seq<byte>,
                     s: SizeState, pending: seq<item>, s': SizeState, pending': seq<item>)
    requires Track(g, start, image, c, r, s, pending) && TakeSize(s', pending') == TakeSize(s, pending)
    requires c.phase == DfpatchSize || c.phase == DiffSize || c.phase == ExtraSize || c.phase == Adjustment
    ensures Track(g, start, image, c, r, s', pending')
  {
    hide Rebuild, TakeSize, Laid, Shifted;
    var base := Base(g, start);
    if c.phase == DfpatchSize {
      AtDfpatch(g, base, c, s, pending);
      AtDfpatch(g, base, c, s', pending');
    } else if c.phase == Adjustment {
      AtAdjustment(g, base, c, s, pending);
      AtAdjustment(g, base, c, s', pending');
    } else {
      AtSize(g, base, c, s, pending);
      AtSize(g, base, c, s', pending');
    }
  }

  /** The end of a block of data. */
  lemma TrackBlockEnd(g: Geometry, start: seq<byte>, image: seq<byte>, c: Cursor, r: seq<byte>, pending: seq<item>)
    requires Track(g, start, image, c, r, First, pending) && (c.phase == DiffData || c.phase == ExtraData)
    requires c.chunk == 0
    ensures Track(g, start, image, c.(phase := if c.phase == DiffData then ExtraSize else Adjustment), r, First,
             pending)
  {
    hide Rebuild, TakeSize, Laid, Shifted;
    AtBlockEnd(g, Base(g, start), c, First, pending);
  }

  /** In the middle of a block there is more to come. */
  lemma TrackNeedsInput(g: Geometry, start: seq<byte>, image: seq<byte>, c: Cursor, r: seq<byte>, s: SizeState,
                        pending: seq<item>)
    requires Track(g, start, image, c, r, s, pending) && (c.phase == DiffData || c.phase == ExtraData)
    ensures s == First && (c.chunk > 0 ==> pending != [])
  {
    hide Laid, Shifted;
  }

  /** The numbers of a block of data. */
  lemma TrackNumbers(g: Geometry, start: seq<byte>, image: seq<byte>, c: Cursor, r: seq<byte>, pending: seq<item>)
    requires Track(g, start, image, c, r, First, pending) && (c.phase == DiffData || c.phase == ExtraData)
    ensures c.index > 0 && c.toPos == PAGE * (c.index - 1) + c.segPos
    ensures c.toPos + c.chunk <= PAGE * c.index <= |r| <= 0x4000_0000
    ensures c.toPos + c.chunk <= g.to && g.to > 0
  {
    hide Rebuild, Laid, Shifted;
    PageInside(PAGE * (c.index - 1), 0, |r|);
    PageUnique(PAGE * (c.index - 1), PAGE * (c.index - 1));
  }

  /** An empty run in a block of data leaves everything as it is. */
  lemma TrackGap(g: Geometry, start: seq<byte>, image: seq<byte>, c: Cursor, r: seq<byte>, pending: seq<item>)
    requires Track(g, start, image, c, r, First, [GAP] + pending) && (c.phase == DiffData || c.phase == ExtraData)
    requires c.chunk > 0
    ensures Track(g, start, image, c, r, First, pending)
  {
    hide Rebuild, Laid, Shifted;
    AtGap(g, Base(g, start), c, pending);
  }

  /** Old bytes to be read in the middle of a diff block lie inside memory. */
  lemma TrackSource(g: Geometry, start: seq<byte>, image: seq<byte>, c: Cursor, r: seq<byte>, pending: seq<item>)
    requires Track(g, start, image, c, r, First, pending) && c.phase == DiffData && c.chunk > 0
    ensures 0 <= c.fromOffset < |r| <= 0x4000_0000
  {
    hide Rebuild, Laid, Shifted;
    DiffReadable(g, Base(g, start), c, pending);
  }

  /** A block of diff data: the old bytes are still there, and their sums are the next image bytes. */
  lemma TrackDiff(g: Geometry, start: seq<byte>, image: seq<byte>, c: Cursor, r: seq<byte>, data: seq<byte>,
                  pending: seq<item>)
    requires Track(g, start, image, c, r, First, data + pending) && c.phase == DiffData && 0 < |data| <= c.chunk
    ensures 0 <= c.fromOffset && c.fromOffset + |data| <= |r| && c.toPos + |data| <= |r| <= 0x4000_0000
    ensures Int32(c.fromOffset)
    ensures var sum := AddBytes(r[c.fromOffset..c.fromOffset + |data|], data);
            Track(g, start, image, Moved(c, |data|), Splice(r, c.toPos, sum), First, pending)
  {
    hide Rebuild, Laid, Shifted, AddBytes, Readable;
    TrackNumbers(g, start, image, c, r, data + pending);
    RebuildDiff(g, Base(g, start), c, data, pending);
    SourceIntact(g, start, image, c.toPos, c.index - 1, c.fromOffset, |data|);
    var sum := AddBytes(r[c.fromOffset..c.fromOffset + |data|], data);
    var tail := Rebuild(g, Base(g, start), Moved(c, |data|), First, pending);
    ImageSplit(image, c.toPos, sum, tail.value);
    LaidWrite(Shifted(g, start), image, c.toPos, PAGE * c.index, sum);
    TiledMoved(g, c, |data|);
  }

  lemma TiledMoved(g: Geometry, c: Cursor, n: nat)
    requires Tiled(g, c, First) && (c.phase == DiffData || c.phase == ExtraData) && n <= c.chunk
    requires c.phase == DiffData ==> 0 <= c.fromOffset && c.fromOffset + n <= 0x4000_0000
    ensures Tiled(g, Moved(c, n), First)
  {}

  lemma TrackExtra(g: Geometry, start: seq<byte>, image: seq<byte>, c: Cursor, r: seq<byte>, data: seq<byte>,
                   pending: seq<item>)
    requires Track(g, start, image, c, r, First, data + pending) && c.phase == ExtraData && 0 < |data| <= c.chunk
    ensures c.toPos + |data| <= |r| <= 0x4000_0000
    ensures Track(g, start, image, Moved(c, |data|), Splice(r, c.toPos, data), First, pending)
  {
    hide Rebuild, Laid, Shifted;
    TrackNumbers(g, start, image, c, r, data + pending);
    RebuildExtra(g, Base(g, start), c, data, pending);
    var tail := Rebuild(g, Base(g, start), Moved(c, |data|), First, pending);
    ImageSplit(image, c.toPos, data, tail.value);
    LaidWrite(Shifted(g, start), image, c.toPos, PAGE * c.index, data);
  }

  /** Where an adjustment leads: to the end of the image, to the next segment, or to the next operation. */
  function Landed(g: Geometry, c: Cursor, n: int): Cursor
    requires c.index > 0
  {
    if c.toPos == g.to then c.(phase := Done)
    else if c.segPos == SegmentSize(g, c.index - 1) then c.(phase := DfpatchSize)
    else c.(phase := DiffSize, fromOffset := c.fromOffset + n)
  }

  /** The read position stays a 32-bit number where it matters. */
  predicate Reads(g: Geometry, c: Cursor, n: int)
    requires c.index > 0
  {
    c.toPos == g.to || c.segPos == SegmentSize(g, c.index - 1) || Int32(c.fromOffset + n)
  }

  /** After an operation: the image is complete, or the segment is, or reading moves on. */
  lemma TrackAdjust(g: Geometry, start: seq<byte>, image: seq<byte>, c: Cursor, r: seq<byte>, s: SizeState,
                    pending: seq<item>)
    requires Track(g, start, image, c, r, s, pending) && c.phase == Adjustment
    ensures var t := TakeSize(s, pending);
            && t.Some? && c.index > 0 && Reads(g, c, t.value.0)
            && Track(g, start, image, Landed(g, c, t.value.0), r, First, t.value.1)
  {
    hide Rebuild, TakeSize, Laid, Shifted;
    var t := TakeSize(s, pending);
    AtAdjustment(g, Base(g, start), c, s, pending);
    if c.toPos == g.to {
      PageUnique(g.to, PAGE * c.index);
      DoneRebuilds(g, Base(g, start), c.(phase := Done), First, t.value.1);
    }
  }

  /** The nested record of the segment in hand; `index` counts the segments entered. */
  datatype SegmentState = SegmentState(index: u32, fromOffset: int32, toOffset: u32, toSize: u32, toPos: u32)

  /**
   * The error that what comes next is refused with, whatever patch it belongs
   * to: a run that cannot be read, a size that is too long, code to be
   * patched, or data beyond the end of the image.
   */
  ghost function Refused(phase: Phase, chunk: nat, toPos: nat, toSize: nat, s: SizeState, c: Crle, input: seq<byte>)
    : Option<int>
  {
    if !TakesSize(phase) && !(TakesData(phase) && chunk > 0) then None
    else if RunFault(c, input).Some? then RunFault(c, input)
    else if TakesData(phase) then None
    else SizeRefused(phase, toPos, toSize, s, Expand(c, input))
  }

  /** The error that the size standing next is refused with. */
  ghost function SizeRefused(phase: Phase, toPos: nat, toSize: nat, s: SizeState, items: seq<item>): Option<int> {
    if TooLong(s, items) then Some(CORRUPT_PATCH_OVERFLOW)
    else if TakeSize(s, items).Some? then Verdict(phase, toPos, toSize, TakeSize(s, items).value.0)
    else None
  }

  lemma SizeRefusedNext(phase: Phase, toPos: nat, toSize: nat, s: SizeState, p: seq<item>, res: int, value: int,
                        s': SizeState, p': seq<item>, more: bool)
    requires SizeTaken(s, p, res, value, s', p', more) && (res == OK || res == MORE_INPUT || res < 0)
    ensures var refusal := SizeRefused(phase, toPos, toSize, s, p);
            refusal.Some? ==>
              if res == MORE_INPUT then p' != [] && SizeRefused(phase, toPos, toSize, s', p') == refusal
              else if res == OK then refusal == Verdict(phase, toPos, toSize, value)
              else refusal == Some(res)
  {
    hide TakeSize, TooLong, SizeTaken, Verdict;
    TakenOutcome(s, p, res, value, s', p', more);
    NothingIsTooLong(s');
    if TakeSize(s, p).Some? {
      TakenIsNotTooLong(s, p);
      if res == MORE_INPUT {
        TakenIsNotTooLong(s', p');
      }
    }
  }

  lemma FaultGivesNothing(c: Crle, input: seq<byte>)
    requires RunFault(c, input).Some?
    ensures Expand(c, input) == []
    decreases |input|
  {}

  /** A size refused is refused at once, or when the rest of it has come. */
  lemma RefusedSize(phase: Phase, chunk: nat, toPos: nat, toSize: nat, s: SizeState, c: Crle, input: seq<byte>,
                    res: int, value: int, s': SizeState, c': Crle, input': seq<byte>, more: bool)
    requires TakesSize(phase) && (res == OK || res == MORE_INPUT || res < 0)
    requires SizeTaken(s, Expand(c, input), res, value, s', Expand(c', input'), more)
    requires RunFault(c, input).Some? ==>
               res == RunFault(c, input).value || (res == MORE_INPUT && RunFault(c', input') == RunFault(c, input))
    ensures var refusal := Refused(phase, chunk, toPos, toSize, s, c, input);
            refusal.Some? ==>
              if res == MORE_INPUT then Refused(phase, chunk, toPos, toSize, s', c', input') == refusal
              else if res == OK then refusal == Verdict(phase, toPos, toSize, value)
              else refusal == Some(res)
  {
    hide SizeRefused, Expand, RunFault, SizeTaken, Verdict;
    SizeRefusedNext(phase, toPos, toSize, s, Expand(c, input), res, value, s', Expand(c', input'), more);
    if RunFault(c, input).Some? {
      FaultCode(c, input);
    } else if RunFault(c', input').Some? {
      FaultGivesNothing(c', input');
    }
  }

  lemma TakenOutcome(s: SizeState, p: seq<item>, res: int, value: int, s': SizeState, p': seq<item>, more: bool)
    requires SizeTaken(s, p, res, value, s', p', more)
    ensures TakeSize(s, p).Some? ==>
              || (res == OK && (value, p') == TakeSize(s, p).value)
              || (res == MORE_INPUT && more && TakeSize(s', p') == TakeSize(s, p))
    ensures TooLong(s, p) ==> res == CORRUPT_PATCH_OVERFLOW || (res == MORE_INPUT && more && TooLong(s', p'))
  {
    hide TakeSize, TooLong, Plain;
  }

  /** A size on the way to an error: it waits, it is the error, or the error lies behind it. */
  lemma FateSize(g: Geometry, span: nat, c: Cursor, s: SizeState, p: seq<item>, res: int, value: int, s': SizeState,
                 p': seq<item>, more: bool)
    requires TakesSize(c.phase) && Seated(g, span, c, s) && SizeTaken(s, p, res, value, s', p', more)
    requires Fate(g, span, c, s, p).Some? && (res == OK || res == MORE_INPUT || res < 0)
    ensures Seated(g, span, c, s')
    ensures var fate := Fate(g, span, c, s, p);
            && (res == MORE_INPUT ==> more && Fate(g, span, c, s', p') == fate)
            && (res < 0 ==> fate == Some(res))
            && (res == OK ==>
                  || fate == Verdict(c.phase, c.toPos, g.to, value)
                  || (Verdict(c.phase, c.toPos, g.to, value).None? && Turned(g, c, value).Some?
                      && Fate(g, span, Turned(g, c, value).value, First, p') == fate
                      && Seated(g, span, Turned(g, c, value).value, First)))
  {
    hide TakeSize, TooLong, SizeTaken, Fate, Verdict, Turned, GeometryFits;
    TakenOutcome(s, p, res, value, s', p', more);
    FateAtSize(g, span, c, s, p);
    FateAtSize(g, span, c, s', p');
    if TakeSize(s, p).Some? {
      TakenIsNotTooLong(s, p);
      if res == MORE_INPUT {
        TakenIsNotTooLong(s', p');
      }
    }
    if res == OK && Turned(g, c, value).Some? && Verdict(c.phase, c.toPos, g.to, value).None? {
      SeatedTurned(g, span, c, s, value);
    }
  }

  /** A size that is not refused leads to a place like the one it was taken from. */
  lemma SeatedTurned(g: Geometry, span: nat, c: Cursor, s: SizeState, n: int)
    requires Seated(g, span, c, s) && TakesSize(c.phase) && Turned(g, c, n).Some?
    ensures Seated(g, span, Turned(g, c, n).value, First)
    ensures (c.phase == DiffSize || c.phase == ExtraSize) ==> 0 <= n && c.toPos + n <= g.to <= 0x4000_0000
    ensures c.phase == DfpatchSize ==> EntersPage(g, span, c.index)
  {
    hide RoundUp, PageOf;
    if c.phase == DfpatchSize {
      SegmentEnd(c.index, SegmentSize(g, c.index), span);
    } else if c.phase == Adjustment {
      PageInside(PAGE * (c.index - 1), 0, span);
    }
  }

  lemma TurnedIsLanded(g: Geometry, c: Cursor, n: int)
    requires c.phase == Adjustment && c.index > 0
    ensures Turned(g, c, n).Some? ==> Turned(g, c, n) == Some(Landed(g, c, n)) && Reads(g, c, n)
    ensures Verdict(c.phase, c.toPos, g.to, n).None?
  {}

  lemma TurnedIsData(g: Geometry, c: Cursor, n: int)
    requires (c.phase == DiffSize || c.phase == ExtraSize) && Turned(g, c, n).Some?
    ensures 0 <= n <= g.to
    ensures Turned(g, c, n) == Some(c.(phase := if c.phase == DiffSize then DiffData else ExtraData, chunk := n))
  {}

  /** The cursor at the start of the next segment. */
  function Entered(g: Geometry, c: Cursor): Cursor {
    c.(phase := DiffSize, index := c.index + 1, fromOffset := SourceLow(g, c.index), segPos := 0)
  }

  lemma TurnedIsEntered(g: Geometry, c: Cursor, n: int)
    requires c.phase == DfpatchSize
    ensures Turned(g, c, n).Some? ==> Turned(g, c, n) == Some(Entered(g, c))
  {}

  /** There is a page for segment `index`, and no number on the way to it wraps. */
  ghost predicate EntersPage(g: Geometry, span: nat, index: nat) {
    && PAGE * index < g.to <= 0x4000_0000 && g.shift <= 0x4000_0000
    && var n := SegmentSize(g, index);
       n > 0 && PAGE * index + n <= RoundUp(PAGE * index + n) <= span
  }

  /** The numbers of a place inside the body. */
  ghost predicate Seated(g: Geometry, span: nat, c: Cursor, s: SizeState) {
    GeometryFits(g, span) && c.toPos <= g.to && Tiled(g, c, s)
  }

  /** At the end of a block the error lies behind it; within one there is more to come. */
  lemma BlockGoesOn(g: Geometry, span: nat, c: Cursor, s: SizeState, p: seq<item>)
    requires TakesData(c.phase) && Seated(g, span, c, s) && Fate(g, span, c, s, p).Some?
    ensures s == First
    ensures c.chunk == 0 ==>
              Seated(g, span, BlockEnd(c), First) && Fate(g, span, BlockEnd(c), First, p) == Fate(g, span, c, s, p)
    ensures c.chunk > 0 ==> p != []
  {
    hide Fate;
    if c.chunk == 0 {
      FateAtBlockEnd(g, span, c, p);
    } else {
      FateNeedsInput(g, span, c, s, p);
    }
  }

  /** A block of data on the way to an error fits memory, and the error lies behind it. */
  lemma FateData(g: Geometry, span: nat, c: Cursor, s: SizeState, data: seq<byte>, p: seq<item>)
    requires TakesData(c.phase) && Seated(g, span, c, s) && |data| <= c.chunk && c.chunk > 0
    requires Fate(g, span, c, s, Served(data) + p).Some?
    ensures s == First && c.index > 0 && c.toPos == PAGE * (c.index - 1) + c.segPos
    ensures c.toPos + |data| <= span <= 0x4000_0000
    ensures c.phase == DiffData ==> 0 <= c.fromOffset && c.fromOffset + |data| <= span
    ensures Seated(g, span, Moved(c, |data|), First)
    ensures Fate(g, span, Moved(c, |data|), First, p) == Fate(g, span, c, s, Served(data) + p)
  {
    hide Fate;
    if data == [] {
      FateAtByte(g, span, c, GAP, p);
      assert Moved(c, 0) == c;
    } else {
      FateAtData(g, span, c, data, p);
      TiledMoved(g, c, |data|);
    }
  }

  lemma FaultCode(c: Crle, input: seq<byte>)
    requires RunFault(c, input).Some?
    ensures RunFault(c, input).value < 0
    decreases |input|
  {}

  class InPlaceDecoder {
    const mem: Workspace
    const reader: PatchReader
    var state: Phase
    var initState: nat
    var size: SizeState
    var compression: int
    var memorySize: u32
    var segmentSize: u32
    var shiftSize: u32
    var fromSize: u32
    var toSize: u32
    var toPos: u32
    var chunkSize: u32
    var segment: SegmentState

    ghost predicate Valid()
      reads this, reader, mem, mem.cache, mem.cache.nvm, mem.cache.buf
    {
      mem.Valid() && reader.Valid()
    }

    constructor (m: Workspace)
      requires m.Valid()
      ensures Valid() && mem == m && fresh(reader) && Here() == Cursor(Init, 0, 0, 0, 0, 0) && initState == 0
      ensures reader.ChunkLeft() == 0 && reader.future == [] && reader.crle == Idle && reader.size == First
    {
      mem := m;
      reader := new PatchReader();
      state := Init;
      initState := 0;
      size := First;
      compression := 0;
      memorySize, segmentSize, shiftSize, fromSize, toSize := 0, 0, 0, 0, 0;
      toPos, chunkSize := 0, 0;
      segment := SegmentState(0, 0, 0, 0, 0);
    }

    ghost function Here(): Cursor
      reads this
    {
      Cursor(state, toPos, chunkSize, segment.index, segment.fromOffset, segment.toPos)
    }

    /** The decoder's fields and memory satisfy `Track` for the input still to come. */
    ghost predicate OnTrack(g: Geometry, start: seq<byte>, image: seq<byte>)
      requires Valid()
      reads this, reader, mem, mem.cache, mem.cache.nvm, mem.cache.buf
    {
      Track(g, start, image, Here(), mem.region, reader.size, reader.Pending()) && Geared(g)
    }

    /** The sizes are those of the header, and the segment in hand is the one of its number. */
    ghost predicate Geared(g: Geometry)
      reads this
    {
      && toSize == g.to && shiftSize == g.shift && segmentSize == PAGE
      && (state != Done && state != DfpatchSize ==>
            segment.toOffset == PAGE * (segment.index - 1) && segment.toSize == SegmentSize(g, segment.index - 1))
    }

    /** In the header of a patch for `g`, whose fields have been read up to `initState`: the body that follows. */
    ghost function BodyAhead(g: Geometry): Option<seq<byte>>
      requires Valid()
      reads this, reader, mem, mem.cache, mem.cache.nvm, mem.cache.buf
    {
      if !HeaderSoFar(g) then None
      else if initState == 0 then PatchBody(g, reader.Input())
      else if compression == COMPRESSION_CRLE then BodyBehind(g, initState, size, reader.Input())
      else None
    }

    /** The fields read so far are those of `g`. */
    ghost predicate HeaderSoFar(g: Geometry)
      requires Valid()
      reads this, reader, mem, mem.cache, mem.cache.nvm, mem.cache.buf
    {
      && GeometryFits(g, |mem.region|) && initState <= 5 && Here() == Cursor(Init, 0, 0, 0, 0, 0)
      && (initState > 1 ==> memorySize == g.memory) && (initState > 2 ==> segmentSize == PAGE)
      && (initState > 3 ==> shiftSize == g.shift) && (initState > 4 ==> fromSize == g.from)
    }

    /** In the header of a patch for the image. */
    ghost predicate OnHeader(g: Geometry, start: seq<byte>, image: seq<byte>)
      requires Valid()
      reads this, reader, mem, mem.cache, mem.cache.nvm, mem.cache.buf
    {
      BodyAhead(g).Some? && mem.region == start && BodyMeans(g, Base(g, start), image, BodyAhead(g).value)
    }

    ghost predicate Bound(g: Geometry, start: seq<byte>, image: seq<byte>)
      requires Valid()
      reads this, reader, mem, mem.cache, mem.cache.nvm, mem.cache.buf
    {
      if state == Init then OnHeader(g, start, image) else OnTrack(g, start, image)
    }

    /** The next step has its input, or there will be none. */
    ghost predicate Fed()
      requires Valid()
      reads this, reader, mem, mem.cache, mem.cache.nvm, mem.cache.buf
    {
      reader.ChunkLeft() > 0 || reader.future == [] || state != Init || initState > 0
    }

    /** In the middle of a patch. */
    ghost predicate Starving()
      reads this
    {
      state != Done && state != Failed && (state == Init ==> 0 < initState <= 5)
    }

    /** In a header that comes to an error: which. */
    ghost function HeaderEnd(): Option<int>
      requires Valid()
      reads this, reader, mem, mem.cache, mem.cache.nvm, mem.cache.buf
    {
      if state != Init || initState > 5 then None
      else if initState == 0 then PatchFault(reader.Input())
      else HeaderFault(compression, initState, size, reader.Input())
    }

    /** What a step in such a header comes to: more of the same, or the error. */
    ghost predicate Dooms(res: int, code: int)
      requires Valid()
      reads this, reader, mem, mem.cache, mem.cache.nvm, mem.cache.buf
    {
      res == code || ((res == OK || (res == MORE_INPUT && reader.future != [])) && HeaderEnd() == Some(code))
    }

    /** The fields are those of a body for `g`, and the position in the segment agrees with that in the image. */
    ghost predicate InBody(g: Geometry)
      requires Valid()
      reads this, reader, mem, mem.cache, mem.cache.nvm, mem.cache.buf
    {
      state != Init && Seated(g, |mem.region|, Here(), reader.size) && Geared(g)
    }

    /** The error that a patch for `g` comes to in its body, if it comes to one. */
    ghost function Ahead(g: Geometry): Option<int>
      requires Valid()
      reads this, reader, mem, mem.cache, mem.cache.nvm, mem.cache.buf
    {
      if state == Init && BodyAhead(g).Some? then
        Fate(g, |mem.region|, StartCursor(g), First, Expand(Idle, BodyAhead(g).value))
      else if InBody(g) then Fate(g, |mem.region|, Here(), reader.size, reader.Pending())
      else None
    }

    /** What a step towards that error comes to: more of the same, the error, or flash that failed. */
    ghost predicate LeadsTo(res: int, g: Geometry, code: int)
      requires Valid()
      reads this, reader, mem, mem.cache, mem.cache.nvm, mem.cache.buf
    {
      || res == code
      || ((res == OK || (res == MORE_INPUT && reader.future != [])) && Ahead(g) == Some(code))
      || (res == IO_FAILED && !mem.Sound())
    }

    /** Orders the steps that succeed without consuming input. */
    ghost function Rank(): nat
      reads this
    {
      if state == DiffData || state == ExtraData then 1 else 0
    }

    ghost predicate Progressed(chunkLeft: nat, runLeft: nat, rank: nat)
      requires Valid()
      reads this, reader, mem, mem.cache, mem.cache.nvm, mem.cache.buf
    {
      || reader.ChunkLeft() < chunkLeft
      || (reader.ChunkLeft() == chunkLeft && reader.RunLeft() < runLeft)
      || (reader.ChunkLeft() == chunkLeft && reader.RunLeft() == runLeft && Rank() < rank)
    }

    /** What a step of a well-formed patch may come to: more of the same, waiting for a chunk, or flash that failed. */
    ghost predicate Continues(res: int, g: Geometry, start: seq<byte>, image: seq<byte>)
      requires Valid()
      reads this, reader, mem, mem.cache, mem.cache.nvm, mem.cache.buf
    {
      || (res == OK && Bound(g, start, image))
      || (res == MORE_INPUT && Bound(g, start, image) && reader.future != [])
      || (res == IO_FAILED && !mem.Sound())
    }

    /** The error that what comes next is refused with. */
    ghost function Refusal(): Option<int>
      requires Valid()
      reads this, reader, mem, mem.cache, mem.cache.nvm, mem.cache.buf
    {
      Refused(state, chunkSize, toPos, toSize, reader.size, reader.crle, reader.Input())
    }

    /** Reads the size that stands next. */
    method ReadSize(ghost g: Geometry, ghost start: seq<byte>, ghost image: seq<byte>) returns (res: int, value: int)
      requires Valid() && TakesSize(state)
      modifies reader`offset, reader`crle, reader`size
      ensures Valid() && (res == OK || res == MORE_INPUT || (res < 0 && res != ALREADY_DONE))
      ensures old(reader.Dry()) ==> res == MORE_INPUT && reader.Dry()
      ensures res == MORE_INPUT ==> reader.ChunkLeft() == 0
      ensures res == OK ==> reader.size == First
      ensures res == OK ==> Progressed(old(reader.ChunkLeft()), old(reader.RunLeft()), 0)
      ensures old(Refusal()).Some? ==>
                if res == OK then old(Refusal()) == Verdict(state, toPos, toSize, value)
                else res == old(Refusal()).value || (res == MORE_INPUT && Refusal() == old(Refusal()))
      ensures old(Ahead(g)).Some? ==>
                if res == OK then Behind(g, value, old(Ahead(g)).value) else LeadsTo(res, g, old(Ahead(g)).value)
      ensures old(OnTrack(g, start, image)) ==>
                if res == OK then TakeSize(old(reader.size), old(reader.Pending())) == Some((value, reader.Pending()))
                else Continues(res, g, start, image)
    {
      hide Refused, RunFault, TooLong, Rebuild, TakeSize, Expand, Track, Fate, OnHeader, SegmentSize, Tiled;
      hide Verdict, Turned, GeometryFits, Workspace.Valid, SizeTaken;
      ghost var on, fate := OnTrack(g, start, image), Ahead(g);
      ghost var c, r, s, p := Here(), mem.region, reader.size, reader.Pending();
      ghost var crle, input := reader.crle, reader.Input();
      res, value := reader.UnpackSize();
      RefusedSize(state, chunkSize, toPos, toSize, s, crle, input, res, value, reader.size, reader.crle, reader.Input(),
                  reader.future != []);
      if fate.Some? {
        FateSize(g, |r|, c, s, p, res, value, reader.size, reader.Pending(), reader.future != []);
      }
      if on {
        TrackHasSize(g, start, image, c, r, s, p);
        TakenOutcome(s, p, res, value, reader.size, reader.Pending(), reader.future != []);
        if res == MORE_INPUT {
          TrackWaiting(g, start, image, c, r, s, p, reader.size, reader.Pending());
        }
      }
    }

    /** A size has been taken that brings the error about, or leads to where it lies ahead. */
    ghost predicate Behind(g: Geometry, n: int, code: int)
      requires Valid()
      reads this, reader, mem, mem.cache, mem.cache.nvm, mem.cache.buf
    {
      || Verdict(state, toPos, toSize, n) == Some(code)
      || (Verdict(state, toPos, toSize, n).None? && Turns(g, n) == Some(code))
    }

    /** The error that lies behind the size just taken, which is not refused. */
    ghost function Turns(g: Geometry, n: int): Option<int>
      requires Valid()
      reads this, reader, mem, mem.cache, mem.cache.nvm, mem.cache.buf
    {
      if Geared(g) && Seated(g, |mem.region|, Here(), First) && reader.size == First && TakesSize(state)
         && Verdict(state, toPos, g.to, n).None? && Turned(g, Here(), n).Some? then
        Fate(g, |mem.region|, Turned(g, Here(), n).value, First, reader.Pending())
      else None
    }

    method ProcessDfpatchSize(ghost g: Geometry, ghost start: seq<byte>, ghost image: seq<byte>) returns (res: int)
      requires Valid() && state == DfpatchSize
      modifies this, reader, mem, mem.cache, mem.cache.nvm, mem.cache.buf
      ensures Valid() && mem.Kept(old(mem.cache.nvm.trail), old(mem.cache.nvm.flash))
      ensures res == OK || res == MORE_INPUT || (res < 0 && res != ALREADY_DONE)
      ensures reader.chunk == old(reader.chunk) && reader.future == old(reader.future)
      ensures old(reader.Dry()) ==> res == MORE_INPUT && reader.Dry() && state == old(state)
      ensures state != Init
      ensures res == MORE_INPUT ==> reader.ChunkLeft() == 0
      ensures res == OK ==> Progressed(old(reader.ChunkLeft()), old(reader.RunLeft()), old(Rank()))
      ensures old(Refusal()).Some? ==>
                res == old(Refusal()).value || (res == MORE_INPUT && Refusal() == old(Refusal()))
      ensures old(Ahead(g)).Some? ==> LeadsTo(res, g, old(Ahead(g)).value)
      ensures old(OnTrack(g, start, image)) ==> Continues(res, g, start, image)
    {
      hide Refused, Rebuild, TakeSize, Expand, Track, Fate, Erased, OnHeader, SegmentSize, Tiled, Confined;
      hide Workspace.Valid, GeometryFits, Ahead, InBody, Seated, Turned, Turns;
      mem.KeptNow();
      ghost var on := OnTrack(g, start, image);
      if on {
        TrackDfpatch(g, start, image, Here(), mem.region, reader.size, reader.Pending());
      }
      var value;
      res, value := ReadSize(g, start, image);
      if res != OK {
        return;
      }
      if value > 0 {
        return NOT_IMPLEMENTED;
      }
      res := EnterSegment(value, g, start, image);
    }

    /** Takes the next segment in hand and erases the page it will occupy. */
    method EnterSegment(ghost value: int, ghost g: Geometry, ghost start: seq<byte>, ghost image: seq<byte>)
      returns (res: int)
      requires Valid() && state == DfpatchSize
      modifies this`state, this`segment, mem, mem.cache, mem.cache.nvm, mem.cache.buf
      ensures Valid() && mem.Kept(old(mem.cache.nvm.trail), old(mem.cache.nvm.flash))
      ensures (res == OK || res == IO_FAILED) && state == DiffSize
      ensures old(EntersTrack(g, start, image)) ==> if res == OK then OnTrack(g, start, image) else !mem.Sound()
      ensures old(Turns(g, value)).Some? ==> if res == OK then Ahead(g) == old(Turns(g, value)) else !mem.Sound()
    {
      hide Erased, SegmentSize, Confined, Workspace.Valid, Entered;
      hide Fate, Expand, Rebuild, GeometryFits, Seated, Turned, Ahead, OnTrack, Verdict;
      ghost var on, fate, c, r := EntersTrack(g, start, image), Turns(g, value), Here(), mem.region;
      if fate.Some? {
        SeatedTurned(g, |r|, c, First, value);
        TurnedIsEntered(g, c, value);
      }
      StartSegment(g);
      res := mem.MemErase(segment.toOffset, segment.toSize);
      if res == OK && on {
        TrackAgain(g, start, image);
      }
      if res == OK && fate.Some? {
        AheadAgain(g);
      }
    }

    /** The numbers of the next segment. */
    method StartSegment(ghost g: Geometry)
      requires state == DfpatchSize
      modifies this`state, this`segment
      ensures state == DiffSize
      ensures old(Geared(g)) && EntersPage(g, |mem.region|, old(segment.index)) ==>
                && Geared(g) && Here() == Entered(g, old(Here())) && segment.toOffset == PAGE * old(segment.index)
                && segment.toSize == SegmentSize(g, old(segment.index))
    {
      hide Wrap32, SegmentStart, Signed32, SegmentSize, SourceLow, Max;
      if EntersPage(g, |mem.region|, segment.index) {
        NoWrapSegment(g, segment.index);
      }
      state := DiffSize;
      var toOffset := SegmentStart(segmentSize, segment.index);
      segment := SegmentState(Wrap32(segment.index + 1),
          Signed32(Max(SegmentStart(segmentSize, segment.index + 1), shiftSize)),
                              toOffset, Min(segmentSize, Wrap32(toSize - toOffset)), 0);
    }

    /** There is a page for the next segment, and erasing it puts the decoder on track inside that segment. */
    ghost predicate EntersTrack(g: Geometry, start: seq<byte>, image: seq<byte>)
      requires Valid()
      reads this, reader, mem, mem.cache, mem.cache.nvm, mem.cache.buf
    {
      && Geared(g) && EntersPage(g, |mem.region|, segment.index)
      && Track(g, start, image, Entered(g, Here()),
               Erased(mem.region, PAGE * segment.index, SegmentSize(g, segment.index)), reader.size, reader.Pending())
    }

    method ProcessSize(next: Phase, ghost g: Geometry, ghost start: seq<byte>, ghost image: seq<byte>)
      returns (res: int)
      requires Valid() && (if state == DiffSize then next == DiffData else state == ExtraSize && next == ExtraData)
      modifies this, reader
      ensures Valid()
      ensures res == OK || res == MORE_INPUT || (res < 0 && res != ALREADY_DONE)
      ensures reader.chunk == old(reader.chunk) && reader.future == old(reader.future)
      ensures old(reader.Dry()) ==> res == MORE_INPUT && reader.Dry() && state == old(state)
      ensures state != Init
      ensures res == MORE_INPUT ==> reader.ChunkLeft() == 0
      ensures res == OK ==> Progressed(old(reader.ChunkLeft()), old(reader.RunLeft()), old(Rank()))
      ensures res == OK ==> state == next && Wrap32(toPos + chunkSize) <= toSize
      ensures old(Refusal()).Some? ==>
                res == old(Refusal()).value || (res == MORE_INPUT && Refusal() == old(Refusal()))
      ensures old(Ahead(g)).Some? ==> LeadsTo(res, g, old(Ahead(g)).value)
      ensures old(OnTrack(g, start, image)) ==> Continues(res, g, start, image)
    {
      hide Refused, Beyond, Rebuild, TakeSize, Expand, Track, Fate, OnHeader, SegmentSize, Tiled, GeometryFits;
      hide Workspace.Valid, Signed32, Wrap32, Ahead, InBody, Seated, Turned, Turns;
      ghost var on, c := OnTrack(g, start, image), Here();
      if on {
        TrackSize(g, start, image, c, mem.region, reader.size, reader.Pending());
      }
      var value;
      res, value := ReadSize(g, start, image);
      if res != OK {
        return;
      }
      WrapsOnce(toPos, value, toSize);
      if Wrap32(toPos + Wrap32(value)) > toSize {
        return CORRUPT_PATCH;
      }
      TurnToData(next, value, g);
    }

    /** Turns to the data of the size just taken. */
    method TurnToData(next: Phase, value: int, ghost g: Geometry)
      requires Valid() && (if state == DiffSize then next == DiffData else state == ExtraSize && next == ExtraData)
      modifies this`state, this`chunkSize
      ensures Valid() && state == next && chunkSize == Wrap32(value)
      ensures old(Turns(g, value)).Some? ==> Ahead(g) == old(Turns(g, value))
    {
      hide Fate, Expand, GeometryFits, Seated, Turned, Ahead, Verdict, Wrap32, SegmentSize, Workspace.Valid;
      ghost var fate, c := Turns(g, value), Here();
      if fate.Some? {
        SeatedTurned(g, |mem.region|, c, First, value);
        TurnedIsData(g, c, value);
      }
      state := next;
      chunkSize := Wrap32(value);
      if fate.Some? {
        AheadAgain(g);
      }
    }

    /** Adds each byte of `from` to the byte of `to` in the same place. */
    method Accumulate(to: seq<byte>, from: seq<byte>) returns (sum: seq<byte>)
      requires |to| == |from|
      ensures sum == AddBytes(from, to)
    {
      sum := to;
      for i := 0 to |to|
        invariant |sum| == |to|
        invariant forall j | 0 <= j < |to| :: sum[j] == if j < i then AddBytes(from, to)[j] else to[j]
      {
        sum := sum[i := (to[i] as int + from[i] as int) % 0x100];
      }
    }

    method ProcessData(next: Phase, ghost g: Geometry, ghost start: seq<byte>, ghost image: seq<byte>)
      returns (res: int)
      requires Valid() && (if state == DiffData then next == ExtraSize else state == ExtraData && next == Adjustment)
      modifies this, reader, mem, mem.cache, mem.cache.nvm, mem.cache.buf
      ensures Valid() && mem.Kept(old(mem.cache.nvm.trail), old(mem.cache.nvm.flash))
      ensures res == OK || res == MORE_INPUT || (res < 0 && res != ALREADY_DONE)
      ensures reader.chunk == old(reader.chunk) && reader.future == old(reader.future)
      ensures old(reader.Dry()) ==>
                && reader.Dry() && state == (if res == OK then next else old(state)) && (res == OK || res == MORE_INPUT)
      ensures state != Init
      ensures res == MORE_INPUT ==> reader.ChunkLeft() == 0
      ensures res == OK ==> Progressed(old(reader.ChunkLeft()), old(reader.RunLeft()), old(Rank()))
      ensures old(Refusal()).Some? ==>
                res == old(Refusal()).value || (res == MORE_INPUT && Refusal() == old(Refusal()))
      ensures old(Ahead(g)).Some? ==> LeadsTo(res, g, old(Ahead(g)).value)
      ensures old(OnTrack(g, start, image)) ==> Continues(res, g, start, image)
    {
      hide RunFault, Rebuild, Expand, Track, Splice, AddBytes, OnHeader, Confined, Workspace.Valid, Served;
      hide Fate, GeometryFits, Tiled, SegmentSize;
      mem.KeptNow();
      ghost var on, fate := OnTrack(g, start, image), Ahead(g);
      ghost var c, r, p := Here(), mem.region, reader.Pending();
      if on {
        TrackNeedsInput(g, start, image, c, r, reader.size, p);
      }
      if fate.Some? {
        BlockGoesOn(g, |r|, c, reader.size, p);
      }
      var n := Min(BLOCK, chunkSize);
      if n == 0 {
        if on {
          TrackBlockEnd(g, start, image, c, r, p);
        }
        state := next;
        return OK;
      }
      res := TakeBlock(next, n, g, start, image);
    }

    /** Takes up to `n` bytes of the block and puts them where they belong. */
    method TakeBlock(next: Phase, n: nat, ghost g: Geometry, ghost start: seq<byte>, ghost image: seq<byte>)
      returns (res: int)
      requires Valid() && (if state == DiffData then next == ExtraSize else state == ExtraData && next == Adjustment)
      requires 0 < n <= chunkSize
      modifies this`segment, this`toPos, this`chunkSize
      modifies reader`offset, reader`crle, mem, mem.cache, mem.cache.nvm, mem.cache.buf
      ensures Valid() && mem.Kept(old(mem.cache.nvm.trail), old(mem.cache.nvm.flash))
      ensures res == OK || res == MORE_INPUT || (res < 0 && res != ALREADY_DONE)
      ensures old(reader.Dry()) ==> reader.Dry() && res == MORE_INPUT
      ensures res == MORE_INPUT ==> reader.ChunkLeft() == 0
      ensures res == OK ==> Progressed(old(reader.ChunkLeft()), old(reader.RunLeft()), old(Rank()))
      ensures old(Refusal()).Some? ==>
                res == old(Refusal()).value || (res == MORE_INPUT && Refusal() == old(Refusal()))
      ensures old(Ahead(g)).Some? ==> LeadsTo(res, g, old(Ahead(g)).value)
      ensures old(OnTrack(g, start, image)) ==> Continues(res, g, start, image)
    {
      hide RunFault, Rebuild, Expand, Track, Splice, AddBytes, Confined, Workspace.Valid, Served;
      hide Fate, GeometryFits, Seated, SegmentSize, InBody, OnTrack, Ahead, Refused, Refusal;
      mem.KeptNow();
      ghost var on, fate := OnTrack(g, start, image), Ahead(g);
      ghost var c, r, p := Here(), mem.region, reader.Pending();
      BlockNumbers(g, start, image);
      RefusalIsFault();
      var data;
      res, data := reader.Decompress(n);
      if res != OK {
        RefusalIsFault();
        if on {
          TrackAgain(g, start, image);
        }
        if fate.Some? {
          AheadAgain(g);
        }
        return;
      }
      res := PutBlock(next, data, g, start, image);
    }

    /** Puts a delivered block where it belongs. */
    method PutBlock(next: Phase, data: seq<byte>, ghost g: Geometry, ghost start: seq<byte>, ghost image: seq<byte>)
      returns (res: int)
      requires Valid() && (if state == DiffData then next == ExtraSize else state == ExtraData && next == Adjustment)
      requires |data| <= chunkSize && 0 < chunkSize
      modifies this`segment, this`toPos, this`chunkSize, mem, mem.cache, mem.cache.nvm, mem.cache.buf
      ensures Valid() && mem.Kept(old(mem.cache.nvm.trail), old(mem.cache.nvm.flash))
      ensures res == OK || res == IO_FAILED
      ensures old(DataTracks(data, g, start, image)) ==> if res == OK then OnTrack(g, start, image) else !mem.Sound()
      ensures old(DataLeads(data, g)).Some? ==>
                if res == OK then Ahead(g) == old(DataLeads(data, g)) else !mem.Sound()
    {
      hide Rebuild, Expand, Track, Splice, AddBytes, Confined, Workspace.Valid, Served;
      hide Fate, GeometryFits, Seated, SegmentSize, InBody, OnTrack, Ahead;
      ghost var on, fate := DataTracks(data, g, start, image), DataLeads(data, g);
      ghost var c, r, p := Here(), mem.region, reader.Pending();
      if on {
        DataStored(c, r, data, p, g, start, image);
      }
      if fate.Some? {
        FateData(g, |r|, c, First, data, p);
      }
      res := PlaceData(next, data);
      if res == OK && on {
        TrackAgain(g, start, image);
      }
      if res == OK && fate.Some? {
        AheadAgain(g);
      }
    }

    /** Stands before `data`, which the reader has just delivered. */
    ghost predicate DataTracks(data: seq<byte>, g: Geometry, start: seq<byte>, image: seq<byte>)
      requires Valid()
      reads this, reader, mem, mem.cache, mem.cache.nvm, mem.cache.buf
    {
      && Track(g, start, image, Here(), mem.region, First, Served(data) + reader.Pending())
      && Geared(g) && reader.size == First
    }

    /** The error that lies behind `data`, which the reader has just delivered. */
    ghost function DataLeads(data: seq<byte>, g: Geometry): Option<int>
      requires Valid()
      reads this, reader, mem, mem.cache, mem.cache.nvm, mem.cache.buf
    {
      if Seated(g, |mem.region|, Here(), First) && Geared(g) && reader.size == First then
        Fate(g, |mem.region|, Here(), First, Served(data) + reader.Pending())
      else None
    }

    /** What being on track, or on the way to an error, says in the middle of a block. */
    lemma BlockNumbers(g: Geometry, start: seq<byte>, image: seq<byte>)
      requires Valid() && TakesData(state) && chunkSize > 0
      ensures OnTrack(g, start, image) ==>
                && Track(g, start, image, Here(), mem.region, First, reader.Pending()) && reader.size == First
                && Geared(g) && reader.Pending() != []
      ensures Ahead(g).Some? ==>
                && Seated(g, |mem.region|, Here(), First) && reader.size == First && Geared(g)
                && Fate(g, |mem.region|, Here(), First, reader.Pending()) == Ahead(g) && reader.Pending() != []
    {
      hide Track, Fate, Expand, SegmentSize, GeometryFits;
      if OnTrack(g, start, image) {
        TrackNeedsInput(g, start, image, Here(), mem.region, reader.size, reader.Pending());
      }
      if Ahead(g).Some? {
        BlockGoesOn(g, |mem.region|, Here(), reader.size, reader.Pending());
      }
    }

    lemma RefusalIsFault()
      requires Valid() && TakesData(state) && chunkSize > 0
      ensures Refusal() == reader.Fault()
    {}

    lemma TrackAgain(g: Geometry, start: seq<byte>, image: seq<byte>)
      requires Valid() && Track(g, start, image, Here(), mem.region, reader.size, reader.Pending()) && Geared(g)
      ensures OnTrack(g, start, image)
    {}

    lemma AheadAgain(g: Geometry)
      requires Valid() && state != Init && Seated(g, |mem.region|, Here(), reader.size) && Geared(g)
      ensures Ahead(g) == Fate(g, |mem.region|, Here(), reader.size, reader.Pending())
    {
      hide Fate, Expand;
    }

    /** Combines a delivered block with the old bytes, if it is a diff, and writes it. */
    method PlaceData(next: Phase, data: seq<byte>) returns (res: int)
      requires Valid() && (if state == DiffData then next == ExtraSize else state == ExtraData && next == Adjustment)
      requires |data| <= chunkSize
      modifies this`segment, this`toPos, this`chunkSize, mem, mem.cache, mem.cache.nvm, mem.cache.buf
      ensures Valid() && mem.Kept(old(mem.cache.nvm.trail), old(mem.cache.nvm.flash))
      ensures res == OK || res == IO_FAILED
      ensures old(HasRoom(data)) ==> if res == OK then Placed(data, old(Here()), old(mem.region)) else !mem.Sound()
      ensures segment == old(segment).(fromOffset := segment.fromOffset, toPos := segment.toPos)
    {
      hide Splice, AddBytes, Confined, Workspace.Valid;
      mem.KeptNow();
      var block := data;
      if next == ExtraSize {
        res, block := AddSource(data);
        if res != OK {
          return;
        }
      }
      res := StoreBlock(block);
    }

    /** The block has a place in memory, and so have the old bytes it is added to. */
    ghost predicate HasRoom(data: seq<byte>)
      reads this, mem
    {
      && toPos == segment.toOffset + segment.toPos && toPos + |data| <= |mem.region| <= 0x4000_0000
      && (state == DiffData ==> 0 <= segment.fromOffset && segment.fromOffset + |data| <= |mem.region|)
    }

    /** The block, combined with old bytes if it is a diff, has been written to memory `r` at cursor `was`. */
    ghost predicate Placed(data: seq<byte>, was: Cursor, r: seq<byte>)
      reads this, mem
    {
      && |data| <= was.chunk && Here() == Moved(was, |data|) && was.toPos + |data| <= |r|
      && (was.phase == DiffData ==> 0 <= was.fromOffset && was.fromOffset + |data| <= |r|)
      && mem.region == Splice(r, was.toPos, if was.phase == DiffData
           then AddBytes(r[was.fromOffset..was.fromOffset + |data|], data) else data)
    }

    /** Adds the old bytes at the read position, which moves past them. */
    method AddSource(data: seq<byte>) returns (res: int, sum: seq<byte>)
      requires Valid()
      modifies this`segment
      ensures Valid() && (res == OK || res == IO_FAILED)
      ensures 0 <= old(segment.fromOffset) && old(segment.fromOffset) + |data| <= |mem.region| <= 0x4000_0000 ==>
                && res == OK && segment == old(segment).(fromOffset := old(segment.fromOffset) + |data|)
                && sum == AddBytes(mem.region[old(segment.fromOffset)..old(segment.fromOffset) + |data|], data)
      ensures res == OK ==> |sum| == |data|
      ensures segment == old(segment).(fromOffset := segment.fromOffset)
    {
      hide AddBytes;
      sum := [];
      var from;
      res, from := mem.MemRead(Wrap32(segment.fromOffset), |data|);
      if res != OK {
        return IO_FAILED, [];
      }
      segment := segment.(fromOffset := Signed32(segment.fromOffset + |data|));
      sum := Accumulate(data, from);
    }

    /** Writes a block of the new image and moves on. */
    method StoreBlock(data: seq<byte>) returns (res: int)
      requires Valid() && |data| <= chunkSize
      modifies this`segment, this`toPos, this`chunkSize, mem, mem.cache, mem.cache.nvm, mem.cache.buf
      ensures Valid() && mem.Kept(old(mem.cache.nvm.trail), old(mem.cache.nvm.flash))
      ensures res == OK || res == IO_FAILED
      ensures segment == old(segment).(toPos := segment.toPos)
      ensures old(toPos == segment.toOffset + segment.toPos && toPos + |data| <= |mem.region| <= 0x4000_0000) ==>
                if res == OK then
                  && mem.region == Splice(old(mem.region), old(toPos), data)
                  && toPos == old(toPos) + |data| && segment.toPos == old(segment.toPos) + |data|
                  && chunkSize == old(chunkSize) - |data|
                else !mem.Sound()
    {
      hide Splice, Confined, Workspace.Valid;
      res := mem.MemWrite(Wrap32(segment.toPos + segment.toOffset), data);
      if res != OK {
        return IO_FAILED;
      }
      toPos := Wrap32(toPos + |data|);
      segment := segment.(toPos := Wrap32(segment.toPos + |data|));
      chunkSize := chunkSize - |data|;
    }

    method ProcessAdjustment(ghost g: Geometry, ghost start: seq<byte>, ghost image: seq<byte>) returns (res: int)
      requires Valid() && state == Adjustment
      modifies this, reader
      ensures Valid()
      ensures res == OK || res == MORE_INPUT || (res < 0 && res != ALREADY_DONE)
      ensures reader.chunk == old(reader.chunk) && reader.future == old(reader.future)
      ensures old(reader.Dry()) ==> res == MORE_INPUT && reader.Dry() && state == old(state)
      ensures state != Init
      ensures res == MORE_INPUT ==> reader.ChunkLeft() == 0
      ensures res == OK ==> Progressed(old(reader.ChunkLeft()), old(reader.RunLeft()), old(Rank()))
      ensures res == OK ==>
                && state == (if toPos == toSize then Done else if segment.toPos == segment.toSize then DfpatchSize
                     else DiffSize)
                && (state != DiffSize ==> segment == old(segment))
      ensures old(Refusal()).Some? ==>
                res == old(Refusal()).value || (res == MORE_INPUT && Refusal() == old(Refusal()))
      ensures old(Ahead(g)).Some? ==> LeadsTo(res, g, old(Ahead(g)).value)
      ensures old(OnTrack(g, start, image)) ==> Continues(res, g, start, image)
    {
      hide Refused, Rebuild, TakeSize, Expand, Track, Fate, OnHeader, SegmentSize, Tiled, GeometryFits;
      hide Workspace.Valid, Signed32;
      ghost var on, fate := OnTrack(g, start, image), Ahead(g);
      ghost var c, r := Here(), mem.region;
      if on {
        TrackAdjust(g, start, image, c, r, reader.size, reader.Pending());
      }
      var value;
      res, value := ReadSize(g, start, image);
      if res != OK {
        return;
      }
      if fate.Some? {
        TurnedIsLanded(g, c, value);
        SeatedTurned(g, |r|, c, First, value);
      }
      NextOperation(g, value);
    }

    /** The image may be complete, or the segment; otherwise reading moves on inside it. */
    method NextOperation(ghost g: Geometry, value: int)
      requires state == Adjustment
      modifies this`state, this`segment
      ensures state == (if toPos == toSize then Done else if segment.toPos == segment.toSize then DfpatchSize
                   else DiffSize)
      ensures segment == old(segment).(fromOffset := segment.fromOffset)
      ensures state != DiffSize ==> segment == old(segment)
      ensures toSize == g.to && old(segment.index) > 0 && segment.toSize == SegmentSize(g, segment.index - 1)
              && Reads(g, old(Here()), value) ==>
                Here() == Landed(g, old(Here()), value)
    {
      hide SegmentSize;
      if toPos == toSize {
        state := Done;
      } else if segment.toPos == segment.toSize {
        state := DfpatchSize;
      } else {
        segment := segment.(fromOffset := Signed32(segment.fromOffset + value));
        state := DiffSize;
      }
    }

    /** The shift loop, from the highest segment of the old image to the lowest. */
    method ShiftMemory(memory: u32, from: u32, ghost g: Geometry) returns (res: int)
      requires mem.Valid()
      modifies mem, mem.cache, mem.cache.nvm, mem.cache.buf
      ensures mem.Valid() && mem.Kept(old(mem.cache.nvm.trail), old(mem.cache.nvm.flash))
      ensures res == OK || res == IO_FAILED
      ensures old(ShiftFits(g, memory, from)) ==>
                if res == 0 then mem.region == MovedPages(g, old(mem.region)) else !mem.Sound()
    {
      hide Confined, Workspace.Valid, UDiv, SegmentStart, Segments;
      hide GeometryFits, MovedPages, Moving, SegmentCopied, Wrap32, InReach;
      mem.KeptNow();
      ghost var good := ShiftFits(g, memory, from);
      ghost var r, t, w := mem.region, mem.cache.nvm.trail, mem.cache.nvm.flash;
      var n := UDiv(Wrap32(Min(from, Wrap32(memory as int - shiftSize as int)) + segmentSize as int - 1), segmentSize);
      var read: u32 := SegmentStart(segmentSize, n as int - 1);
      var write: u32 := Wrap32(read + shiftSize);
      if good {
        ShiftNumbers(g, r);
      }
      res := 0;
      var i := 0;
      while i < n
        invariant mem.Valid() && mem.Kept(t, w) && 0 <= i && (good ==> i <= n) && res == 0
        invariant good && i < n ==> read == PAGE * (n - i - 1) && write == g.shift + read
        invariant good ==> Moving(g, r, mem.region, n - i)
      {
        ghost var t', w' := mem.cache.nvm.trail, mem.cache.nvm.flash;
        if good {
          MovingStep(g, r, mem.region, n - i);
        }
        res := CopySegment(mem, segmentSize, read, write);
        mem.KeptThrough(t, w, t', w');
        if res != 0 {
          return;
        }
        write := Wrap32(write as int - segmentSize as int);
        read := Wrap32(read as int - segmentSize as int);
        i := i + 1;
      }
      if good {
        MovingDone(g, r, mem.region);
      }
    }

    /** A header size; the sign bit is decoded but ignored. */
    method UnpackHeaderSize() returns (res: int, value: int)
      requires Valid()
      modifies this`size, reader`offset
      ensures Valid() && (res == OK || res == MORE_INPUT || res == CORRUPT_PATCH_OVERFLOW)
      ensures res == MORE_INPUT ==> reader.ChunkLeft() == 0
      ensures res == OK ==> reader.ChunkLeft() < old(reader.ChunkLeft())
      ensures reader.ChunkLeft() <= old(reader.ChunkLeft())
      ensures value >= 0
      ensures old(reader.ChunkLeft()) == 0 ==> res == MORE_INPUT
      ensures SizeRead(old(size), old(reader.Input()), res, value, size, reader.Input(), reader.future != [])
    {
      hide SizeRead, SameSize, Place, Workspace.Valid, IsOverflow, CrleStream.Continues;
      ghost var s, input := size, reader.Input();
      SameAsItself(s, input);
      value := 0;
      while true
        invariant Valid() && reader.ChunkLeft() <= old(reader.ChunkLeft()) && value == 0
        invariant SameSize(s, input, size, reader.Input())
        decreases reader.ChunkLeft()
      {
        var b;
        res, b := reader.ChunkGet();
        if res != OK {
          SizeWaits(s, input, value, size, reader.Input());
          return;
        }
        SizeByte(s, input, size, b, reader.Input(), reader.future != []);
        if size.First? {
          size := Consecutive(b % 0x40, 6, b / 0x40 % 2 == 1);
        } else {
          if IsOverflow(size.offset) {
            return CORRUPT_PATCH_OVERFLOW, value;
          }
          size := Consecutive(Place(size.value, b, size.offset), size.offset + 7, size.negative);
        }
        if !CrleStream.Continues(b) {
          value := size.value;
          size := First;
          return OK, value;
        }
      }
    }

    method ProcessFixedHeader(ghost g: Geometry) returns (res: int)
      requires Valid() && state == Init && initState == 0
      modifies this`initState, this`compression, this`size, reader`offset
      ensures Valid() && (res == OK || (res < 0 && res != ALREADY_DONE))
      ensures res == OK ==> reader.ChunkLeft() < old(reader.ChunkLeft()) && initState == 1
      ensures old(Fed() && BodyAhead(g).Some?) ==> res == OK && BodyAhead(g) == old(BodyAhead(g))
      ensures old(Fed() && HeaderEnd().Some?) ==> Dooms(res, old(HeaderEnd()).value)
      ensures old(reader.ChunkLeft()) == 0 ==> res == SHORT_HEADER
    {
      hide TakeSize, HeaderDoomed, Header, Workspace.Valid, GeometryFits, BodyBehind;
      var b;
      res, b := reader.ChunkGet();
      if res != OK {
        return SHORT_HEADER;
      }
      compression := b % 0x10;
      if b / 0x10 % 8 != PATCH_TYPE_IN_PLACE {
        return BAD_PATCH_TYPE;
      }
      initState := 1;
      size := First;
    }

    /** One of the memory, segment, shift and from sizes, chosen by `initState`. */
    method ProcessGeometry(ghost g: Geometry) returns (res: int)
      requires Valid() && state == Init && 1 <= initState <= 4
      modifies this`memorySize, this`segmentSize, this`shiftSize, this`fromSize, this`initState, this`size
      modifies reader`offset
      ensures Valid() && (res == OK || res == MORE_INPUT || (res < 0 && res != ALREADY_DONE))
      ensures res == MORE_INPUT ==> reader.ChunkLeft() == 0
      ensures res == OK ==> reader.ChunkLeft() < old(reader.ChunkLeft())
      ensures initState == old(initState) + if res == OK then 1 else 0
      ensures old(BodyAhead(g)).Some? ==>
                BodyAhead(g) == old(BodyAhead(g)) && (res == OK || (res == MORE_INPUT && reader.future != []))
      ensures old(HeaderEnd()).Some? ==> Dooms(res, old(HeaderEnd()).value)
      ensures old(reader.ChunkLeft()) == 0 ==> res == MORE_INPUT
    {
      hide SizeRead, HeaderFault, Workspace.Valid, GeometryFits, BodyBehind, PatchFault, PatchBody, Wrap32;
      ghost var i, s, input := initState, size, reader.Input();
      if BodyAhead(g).Some? {
        FieldsSmall(g, |mem.region|);
      }
      var value;
      res, value := UnpackHeaderSize();
      HeaderRead(g, compression, i, s, input, res, value, size, reader.Input(), reader.future != []);
      if res != OK {
        return;
      }
      StoreField(Wrap32(value));
    }

    method StoreField(value: u32)
      requires 1 <= initState <= 4
      modifies this`memorySize, this`segmentSize, this`shiftSize, this`fromSize, this`initState, this`size
      ensures initState == old(initState) + 1 && size == First
      ensures memorySize == (if old(initState) == 1 then value else old(memorySize))
      ensures segmentSize == (if old(initState) == 2 then value else old(segmentSize))
      ensures shiftSize == (if old(initState) == 3 then value else old(shiftSize))
      ensures fromSize == if old(initState) == 4 then value else old(fromSize)
    {
      match initState {
        case 1 => memorySize := value;
        case 2 => segmentSize := value;
        case 3 => shiftSize := value;
        case _ => fromSize := value;
      }
      initState := initState + 1;
      size := First;
    }

    /** The last header field, the check of the compression, and the shift. */
    method ProcessToSize(ghost g: Geometry) returns (res: int)
      requires Valid() && state == Init && initState == 5
      modifies this, reader, mem, mem.cache, mem.cache.nvm, mem.cache.buf
      ensures old(reader.ChunkLeft()) == 0 ==>
                res == MORE_INPUT && state == Init && initState == 5 && reader.crle == old(reader.crle)
      ensures res == OK ==> state != Init
      ensures res == MORE_INPUT ==> state == Init && initState == 5
      ensures Valid() && mem.Kept(old(mem.cache.nvm.trail), old(mem.cache.nvm.flash))
      ensures res == OK || res == MORE_INPUT || (res < 0 && res != ALREADY_DONE)
      ensures reader.chunk == old(reader.chunk) && reader.future == old(reader.future)
      ensures res == MORE_INPUT ==> reader.ChunkLeft() == 0
      ensures res == OK ==> reader.ChunkLeft() < old(reader.ChunkLeft())
      ensures old(BodyAhead(g)).Some? ==>
                || (res == MORE_INPUT && reader.future != [] && BodyAhead(g) == old(BodyAhead(g))
                    && mem.region == old(mem.region))
                || (res == OK && BodyBegun(g, old(mem.region), old(BodyAhead(g)).value))
                || (res == IO_FAILED && !mem.Sound())
      ensures old(HeaderEnd()).Some? ==>
                && Dooms(res, old(HeaderEnd()).value) && mem.cache.nvm.trail == old(mem.cache.nvm.trail)
                && mem.cache.nvm.flash == old(mem.cache.nvm.flash)
    {
      hide SizeRead, HeaderFault, BodyBehind, PatchFault, PatchBody;
      hide Confined, Workspace.Valid, GeometryFits, Wrap32, BodyBegun;
      mem.KeptNow();
      ghost var s, input, body := size, reader.Input(), BodyAhead(g);
      if body.Some? {
        FieldsSmall(g, |mem.region|);
      }
      var value;
      res, value := UnpackHeaderSize();
      HeaderRead(g, compression, 5, s, input, res, value, size, reader.Input(), reader.future != []);
      if res != OK {
        return;
      }
      NothingBehind(g, compression, reader.Input());
      if compression != COMPRESSION_CRLE {
        return BAD_COMPRESSION;
      }
      reader.crle := Idle;
      reader.size := First;
      if value < 0 {
        return CORRUPT_PATCH;
      }
      res := StartBody(Wrap32(value), g);
    }

    /** The shift is done, and the decoder stands at the start of `body`. */
    ghost predicate BodyBegun(g: Geometry, start: seq<byte>, body: seq<byte>)
      requires Valid()
      reads this, reader, mem, mem.cache, mem.cache.nvm, mem.cache.buf
    {
      && GeometryFits(g, |start|) && mem.region == Shifted(g, start) && Here() == StartCursor(g)
      && reader.size == First && reader.Pending() == Expand(Idle, body)
      && toSize == g.to && shiftSize == g.shift && segmentSize == PAGE
    }

    /** The header is complete and its fields are those of `g`. */
    ghost predicate HeaderDone(g: Geometry)
      requires Valid()
      reads this, reader, mem, mem.cache, mem.cache.nvm, mem.cache.buf
    {
      && GeometryFits(g, |mem.region|) && Here() == Cursor(Init, 0, 0, 0, 0, 0)
      && reader.crle == Idle && reader.size == First
      && memorySize == g.memory && segmentSize == PAGE && shiftSize == g.shift && fromSize == g.from
    }

    /** Shifts the old image and turns to the first segment, if there is one. */
    method StartBody(size: u32, ghost g: Geometry) returns (res: int)
      requires Valid() && state == Init
      modifies this, mem, mem.cache, mem.cache.nvm, mem.cache.buf
      ensures Valid() && mem.Kept(old(mem.cache.nvm.trail), old(mem.cache.nvm.flash))
      ensures (res == OK || res == IO_FAILED) && (res == OK ==> state == DfpatchSize || state == Done)
      ensures res == OK ==> toPos == 0 && toSize == size && segment.index == 0
      ensures size == g.to && old(HeaderDone(g)) ==>
                if res == OK then BodyBegun(g, old(mem.region), reader.Input()) else !mem.Sound()
    {
      hide Confined, Workspace.Valid, MovedPages, GeometryFits, Expand;
      mem.KeptNow();
      toPos := 0;
      toSize := size;
      segment := segment.(index := 0);
      res := OK;
      if size > 0 {
        res := ShiftMemory(memorySize, fromSize, g);
        if res != OK {
          return;
        }
        state := DfpatchSize;
      } else {
        state := Done;
      }
    }

    method ProcessInit(ghost g: Geometry, ghost start: seq<byte>, ghost image: seq<byte>) returns (res: int)
      requires Valid() && state == Init
      modifies this, reader, mem, mem.cache, mem.cache.nvm, mem.cache.buf
      ensures Valid() && mem.Kept(old(mem.cache.nvm.trail), old(mem.cache.nvm.flash))
      ensures reader.chunk == old(reader.chunk) && reader.future == old(reader.future)
      ensures res == OK || res == MORE_INPUT || (res < 0 && res != ALREADY_DONE)
      ensures res == MORE_INPUT ==> reader.ChunkLeft() == 0
      ensures res == OK ==> reader.ChunkLeft() < old(reader.ChunkLeft())
      ensures old(Fed() && OnHeader(g, start, image)) ==> Continues(res, g, start, image)
      ensures old(Fed() && HeaderEnd().Some?) ==>
                && Dooms(res, old(HeaderEnd()).value) && mem.cache.nvm.trail == old(mem.cache.nvm.trail)
                && mem.cache.nvm.flash == old(mem.cache.nvm.flash)
      ensures old(Fed()) && old(Ahead(g)).Some? ==> LeadsTo(res, g, old(Ahead(g)).value)
      ensures old(Starving() && reader.Dry()) ==> (res == MORE_INPUT || res == OK) && Starving() && reader.Dry()
      ensures old(state == Init && initState == 0 && reader.ChunkLeft() == 0) ==> res == SHORT_HEADER
      ensures old(initState) > 5 ==> res == INTERNAL_ERROR
      ensures res >= 0 ==> !(state == Init && initState == 0)
    {
      hide HeaderFault, PatchFault, BodyBehind, PatchBody, BodyMeans, BodyBegun, Base, Fate, Expand;
      hide Confined, Workspace.Valid, Track, GeometryFits;
      mem.KeptNow();
      ghost var body, r := BodyAhead(g), mem.region;
      if initState == 0 {
        res := ProcessFixedHeader(g);
      } else if 1 <= initState <= 4 {
        res := ProcessGeometry(g);
      } else if initState == 5 {
        res := ProcessToSize(g);
        if res == OK && body.Some? {
          BodyEntered(g, r, image, body.value);
        }
      } else {
        res := INTERNAL_ERROR;
      }
    }

    /** From the start of the body on, memory and what is to come are those of the patch. */
    lemma BodyEntered(g: Geometry, start: seq<byte>, image: seq<byte>, body: seq<byte>)
      requires Valid() && BodyBegun(g, start, body)
      ensures BodyMeans(g, Base(g, start), image, body) ==> state != Init && OnTrack(g, start, image)
      ensures Fate(g, |start|, StartCursor(g), First, Expand(Idle, body)).Some? ==>
                state != Init && Ahead(g) == Fate(g, |start|, StartCursor(g), First, Expand(Idle, body))
    {
      hide BodyMeans, Track, Base, Expand, Fate, Shifted;
      if BodyMeans(g, Base(g, start), image, body) {
        TrackStart(g, start, image, mem.region, body);
      }
    }

    /** One step inside the body. */
    method ProcessBody(ghost g: Geometry, ghost start: seq<byte>, ghost image: seq<byte>) returns (res: int)
      requires Valid() && state != Init && state != Done && state != Failed
      modifies this, reader, mem, mem.cache, mem.cache.nvm, mem.cache.buf
      ensures Valid() && mem.Kept(old(mem.cache.nvm.trail), old(mem.cache.nvm.flash))
      ensures reader.chunk == old(reader.chunk) && reader.future == old(reader.future)
      ensures res == OK || res == MORE_INPUT || (res < 0 && res != ALREADY_DONE)
      ensures state != Init
      ensures res == MORE_INPUT ==> reader.ChunkLeft() == 0
      ensures res == OK ==> Progressed(old(reader.ChunkLeft()), old(reader.RunLeft()), old(Rank()))
      ensures old(reader.Dry()) ==>
                && (res == MORE_INPUT || res == OK) && reader.Dry() && state != Done && state != Failed
      ensures old(Refusal()).Some? ==>
                res == old(Refusal()).value || (res == MORE_INPUT && Refusal() == old(Refusal()))
      ensures old(Ahead(g)).Some? ==> LeadsTo(res, g, old(Ahead(g)).value)
      ensures old(OnTrack(g, start, image)) ==> Continues(res, g, start, image)
    {
      hide OnTrack, Continues, LeadsTo, Ahead, Refusal, Progressed, Workspace.Valid, Confined;
      mem.KeptNow();
      match state {
        case DfpatchSize =>
          res := ProcessDfpatchSize(g, start, image);
        case DiffSize =>
          res := ProcessSize(DiffData, g, start, image);
        case DiffData =>
          res := ProcessData(ExtraSize, g, start, image);
        case ExtraSize =>
          res := ProcessSize(ExtraData, g, start, image);
        case ExtraData =>
          res := ProcessData(Adjustment, g, start, image);
        case Adjustment =>
          res := ProcessAdjustment(g, start, image);
      }
    }

    /** One step of the decoder. */
    method ProcessOnce(ghost g: Geometry, ghost start: seq<byte>, ghost image: seq<byte>) returns (res: int)
      requires Valid()
      modifies this, reader, mem, mem.cache, mem.cache.nvm, mem.cache.buf
      ensures Valid() && mem.Kept(old(mem.cache.nvm.trail), old(mem.cache.nvm.flash))
      ensures reader.chunk == old(reader.chunk) && reader.future == old(reader.future)
      ensures res == OK || res == MORE_INPUT || res < 0
      ensures res == MORE_INPUT ==> reader.ChunkLeft() == 0
      ensures res == OK ==> Progressed(old(reader.ChunkLeft()), old(reader.RunLeft()), old(Rank()))
      ensures old(state) == Done ==>
                res == ALREADY_DONE && Bound(g, start, image) == old(Bound(g, start, image)) && state == Done
      ensures old(state) != Done && old(Fed() && Bound(g, start, image)) ==> Continues(res, g, start, image)
      ensures (res == ALREADY_DONE ==> state == Done) && (res < 0 && res != ALREADY_DONE ==> state == Failed)
      ensures old(state) == Failed ==>
                res == ALREADY_FAILED && state == Failed && mem.cache.nvm.trail == old(mem.cache.nvm.trail)
                    && mem.cache.nvm.flash == old(mem.cache.nvm.flash)
      ensures old(Fed() && HeaderEnd().Some?) ==>
                && Dooms(res, old(HeaderEnd()).value) && mem.cache.nvm.trail == old(mem.cache.nvm.trail)
                && mem.cache.nvm.flash == old(mem.cache.nvm.flash)
      ensures old(Fed()) && old(Ahead(g)).Some? ==> LeadsTo(res, g, old(Ahead(g)).value)
      ensures old(Refusal()).Some? ==>
                res == old(Refusal()).value || (res == MORE_INPUT && Refusal() == old(Refusal()))
      ensures old(Starving() && reader.Dry()) ==> (res == MORE_INPUT || res == OK) && Starving() && reader.Dry()
      ensures old(state == Init && initState == 0 && reader.ChunkLeft() == 0) ==> res == SHORT_HEADER
      ensures res >= 0 ==> !(state == Init && initState == 0)
    {
      hide HeaderFault, PatchFault, BodyAhead, Fate, InBody, Confined, Workspace.Valid, Track, OnHeader, Refusal;
      mem.KeptNow();
      NoRefusal(g);
      match state {
        case Init =>
          res := ProcessInit(g, start, image);
        case Done =>
          return ALREADY_DONE;
        case Failed =>
          FailedIsNotBound(g, start, image);
          res := ALREADY_FAILED;
        case _ =>
          res := ProcessBody(g, start, image);
      }
      if res < 0 {
        state := Failed;
      }
    }

    lemma NoRefusal(g: Geometry)
      requires Valid()
      ensures state == Init || state == Done || state == Failed ==> Refusal().None?
      ensures state == Done || state == Failed ==> Ahead(g).None?
      ensures HeaderEnd().Some? ==> state == Init
    {}

    lemma FailedIsNotBound(g: Geometry, start: seq<byte>, image: seq<byte>)
      requires Valid() && state == Failed
      ensures !Bound(g, start, image)
    {}

    /** What a call for one chunk of a well-formed patch may come to. */
    ghost predicate Settled(res: int, g: Geometry, start: seq<byte>, image: seq<byte>)
      requires Valid()
      reads this, reader, mem, mem.cache, mem.cache.nvm, mem.cache.buf
    {
      || (res == OK && Bound(g, start, image) && (state == Done || reader.ChunkLeft() == 0))
      || (res == IO_FAILED && !mem.Sound())
    }

    /** Consumes one chunk of the patch; `rest` is what later chunks will bring. */
    method Process(patch: seq<byte>, ghost rest: seq<byte>, ghost g: Geometry, ghost start: seq<byte>,
                   ghost image: seq<byte>)
      returns (res: int)
      requires Valid()
      modifies this, reader, mem, mem.cache, mem.cache.nvm, mem.cache.buf
      ensures Valid() && mem.Kept(old(mem.cache.nvm.trail), old(mem.cache.nvm.flash))
      ensures reader.future == rest && res <= 0
      ensures if res == OK then state == Done || reader.ChunkLeft() == 0 else state == Failed
      ensures old(state) == Failed && patch != [] ==> res == ALREADY_FAILED
      ensures old(HeaderEnd().Some? && reader.Input() == patch + rest) ==>
                && (res == old(HeaderEnd()).value
                     || (res == OK && HeaderEnd() == old(HeaderEnd()) && reader.ChunkLeft() == 0))
                && mem.cache.nvm.trail == old(mem.cache.nvm.trail) && mem.cache.nvm.flash == old(mem.cache.nvm.flash)
      ensures old(Ahead(g)).Some? && old(reader.Input()) == patch + rest ==>
                || res == old(Ahead(g)).value
                || (res == OK && Ahead(g) == old(Ahead(g)) && reader.ChunkLeft() == 0)
                || (res == IO_FAILED && !mem.Sound())
      ensures old(Settled(OK, g, start, image) && reader.future == patch + rest) ==> Settled(res, g, start, image)
      ensures res == OK && state == Init && initState == 0 ==> patch == [] && old(state == Init && initState == 0)
    {
      hide Confined, Workspace.Valid, OnHeader, OnTrack, HeaderFault, PatchFault, BodyAhead, Fate, InBody;
      hide Ahead, HeaderEnd, Bound, RunFault, Expand;
      mem.KeptNow();
      ghost var t, w := mem.cache.nvm.trail, mem.cache.nvm.flash;
      ghost var same := reader.Input() == patch + rest;
      ghost var fault, fate := if same then HeaderEnd() else None, if same then Ahead(g) else None;
      EndsBadly(g);
      ghost var on := Settled(OK, g, start, image) && reader.future == patch + rest;
      NewChunk(patch, rest, g, start, image);
      res := OK;
      while reader.ChunkAvailable() && res >= 0
        invariant Valid() && mem.Kept(t, w)
        invariant res >= 0 && state == Init && initState == 0 ==>
                    reader.chunk == patch && reader.offset == 0 && old(state == Init && initState == 0)
        invariant reader.future == rest && (res == OK || res == MORE_INPUT || res < 0)
        invariant res == MORE_INPUT ==> reader.ChunkLeft() == 0
        invariant on ==>
                    || (res >= 0 && Bound(g, start, image))
                    || (res == ALREADY_DONE && Bound(g, start, image) && state == Done)
                    || (res == IO_FAILED && !mem.Sound())
        invariant (res == ALREADY_DONE ==> state == Done) && (res < 0 && res != ALREADY_DONE ==> state == Failed)
        invariant fault.Some? ==>
                    && (res == fault.value || (res >= 0 && HeaderEnd() == fault))
                    && mem.cache.nvm.trail == t && mem.cache.nvm.flash == w
        invariant fate.Some? ==>
                    res == fate.value || (res >= 0 && Ahead(g) == fate) || (res == IO_FAILED && !mem.Sound())
        invariant old(state) == Failed ==>
                    && state == Failed
                    && (res == ALREADY_FAILED || (res == OK && reader.chunk == patch && reader.offset == 0))
        decreases res >= 0, reader.ChunkLeft(), reader.RunLeft(), Rank()
      {
        ghost var t', w' := mem.cache.nvm.trail, mem.cache.nvm.flash;
        res := ProcessOnce(g, start, image);
        mem.KeptThrough(t, w, t', w');
      }
      if res == MORE_INPUT || res == ALREADY_DONE {
        res := OK;
      }
    }

    /** The errors that a patch comes to are errors, and none of them stands for its end. */
    lemma EndsBadly(g: Geometry)
      requires Valid()
      ensures HeaderEnd().Some? ==>
                HeaderEnd().value in {CORRUPT_PATCH_OVERFLOW, BAD_PATCH_TYPE, BAD_COMPRESSION} && reader.Input() != []
      ensures Ahead(g).Some? ==> Ahead(g).value in {CORRUPT_PATCH_OVERFLOW, NOT_IMPLEMENTED, CORRUPT_PATCH}
    {
      hide Header, TakeSize, TooLong, Expand, Fate;
      if state == Init && BodyAhead(g).Some? {
        FateCodes(g, |mem.region|, StartCursor(g), First, Expand(Idle, BodyAhead(g).value));
      } else {
        FateCodes(g, |mem.region|, Here(), reader.size, reader.Pending());
      }
      if initState <= 5 {
        HeaderNeedsInput(initState, size);
      }
    }

    /** Hands the reader its next chunk. */
    method NewChunk(patch: seq<byte>, ghost rest: seq<byte>, ghost g: Geometry, ghost start: seq<byte>,
                    ghost image: seq<byte>)
      requires Valid()
      modifies reader
      ensures Valid() && reader.chunk == patch && reader.offset == 0 && reader.future == rest
      ensures reader.Input() == patch + rest && reader.crle == old(reader.crle)
      ensures old(Settled(OK, g, start, image) && reader.future == patch + rest) ==> Bound(g, start, image)
      ensures old(reader.Input()) == patch + rest ==> HeaderEnd() == old(HeaderEnd()) && Ahead(g) == old(Ahead(g))
    {
      hide BodyBehind, PatchBody, BodyMeans, Confined, Workspace.Valid, Rebuild, Fate, HeaderFault, PatchFault;
      ghost var on := Settled(OK, g, start, image) && reader.future == patch + rest;
      ghost var input, p := reader.Input(), reader.Pending();
      reader.chunk := patch;
      reader.offset := 0;
      reader.future := rest;
      assert patch[0..] == patch;
      if on && state == Done {
        DoneNeedsNothing(g, Base(g, start), Here(), reader.size, p, reader.Pending());
      } else if on {
        assert reader.Input() == input;
      }
    }

    /**
     * Runs the decoder dry; the size of the new image, or a negative error. A
     * patch that has not come to its end by then is never taken for one that has.
     */
    method Finalize(ghost g: Geometry, ghost start: seq<byte>, ghost image: seq<byte>) returns (res: int)
      requires Valid()
      modifies this, reader, mem, mem.cache, mem.cache.nvm, mem.cache.buf
      ensures Valid() && mem.Kept(old(mem.cache.nvm.trail), old(mem.cache.nvm.flash))
      ensures res >= 0 ==> state == Done && res == toSize
      ensures old(Starving() && !reader.crle.RepeatedRead?) ==> res == NOT_ENOUGH_PATCH_DATA
      ensures old(Ahead(g)).Some? && old(reader.Input()) == [] ==>
                res == old(Ahead(g)).value || (res == IO_FAILED && !mem.Sound())
      ensures old(state) == Failed ==>
                && res == ALREADY_FAILED
                && mem.cache.nvm.trail == old(mem.cache.nvm.trail) && mem.cache.nvm.flash == old(mem.cache.nvm.flash)
      ensures old(Settled(OK, g, start, image)) ==>
                Concludes(res, old(state == Init && initState == 0), old(reader.future), g, start, image)
    {
      hide Confined, Workspace.Valid, OnHeader, OnTrack, Fate, InBody, Ahead, Bound, RunFault, Expand, Finished;
      hide GeometryFits;
      mem.KeptNow();
      EndsBadly(g);
      ghost var on := Settled(OK, g, start, image);
      ghost var rest := reader.future;
      var nothing: seq<byte> := [];
      assert nothing + rest == rest;
      NewChunk(nothing, rest, g, start, image);
      res := RunDry(g, start, image);
      if res == MORE_INPUT {
        res := NOT_ENOUGH_PATCH_DATA;
      }
      if res == ALREADY_DONE {
        res := OK;
        if on {
          DoneMeansImage(g, start, image);
        }
      }
      if res == OK {
        res := toSize;
      }
    }

    /** Steps until the decoder has nothing left to work on, or is done, or has failed. */
    method RunDry(ghost g: Geometry, ghost start: seq<byte>, ghost image: seq<byte>) returns (res: int)
      requires Valid() && reader.chunk == []
      modifies this, reader, mem, mem.cache, mem.cache.nvm, mem.cache.buf
      ensures Valid() && mem.Kept(old(mem.cache.nvm.trail), old(mem.cache.nvm.flash))
      ensures (res == ALREADY_DONE ==> state == Done) && (res == MORE_INPUT || res < 0)
      ensures old(Bound(g, start, image)) ==>
                || (res == MORE_INPUT && old(reader.future) != [])
                || (res == SHORT_HEADER && old(reader.future) != [] && old(state == Init && initState == 0))
                || (res == ALREADY_DONE && Bound(g, start, image))
                || (res == IO_FAILED && !mem.Sound())
      ensures old(Ahead(g)).Some? && old(reader.Input()) == [] ==>
                res == old(Ahead(g)).value || (res == IO_FAILED && !mem.Sound())
      ensures old(state) == Failed ==>
                && res == ALREADY_FAILED
                && mem.cache.nvm.trail == old(mem.cache.nvm.trail) && mem.cache.nvm.flash == old(mem.cache.nvm.flash)
      ensures old(Starving() && reader.Dry()) ==> res == MORE_INPUT
    {
      hide Confined, Workspace.Valid, OnHeader, OnTrack, Fate, InBody, Ahead, HeaderEnd, Bound, RunFault, Expand;
      mem.KeptNow();
      EndsBadly(g);
      ghost var t, w, rest := mem.cache.nvm.trail, mem.cache.nvm.flash, reader.future;
      ghost var on, starving := Bound(g, start, image), Starving() && reader.Dry();
      ghost var fate := if reader.Input() == [] then Ahead(g) else None;
      res := OK;
      while res == OK
        invariant Valid() && mem.Kept(t, w)
        invariant reader.future == rest && reader.chunk == []
        invariant on ==>
                    || (res == OK && Bound(g, start, image))
                    || (res == MORE_INPUT && rest != [])
                    || (res == SHORT_HEADER && rest != [] && old(state == Init && initState == 0))
                    || (res == ALREADY_DONE && Bound(g, start, image))
                    || (res == IO_FAILED && !mem.Sound())
        invariant res == OK && state == Init && initState == 0 ==> old(state == Init && initState == 0)
        invariant fate.Some? ==>
                    (res == OK && Ahead(g) == fate) || res == fate.value || (res == IO_FAILED && !mem.Sound())
        invariant old(state) == Failed ==>
                    && state == Failed && (res == OK || res == ALREADY_FAILED)
                    && mem.cache.nvm.trail == t && mem.cache.nvm.flash == w
        invariant starving ==> (res == OK || res == MORE_INPUT) && Starving() && reader.Dry()
        invariant (res == ALREADY_DONE ==> state == Done) && (res == OK || res == MORE_INPUT || res < 0)
        decreases res == OK, reader.ChunkLeft(), reader.RunLeft(), Rank()
      {
        ghost var t', w' := mem.cache.nvm.trail, mem.cache.nvm.flash;
        res := ProcessOnce(g, start, image);
        mem.KeptThrough(t, w, t', w');
      }
    }

    /**
     * How a well-formed patch ends when `rest` of it never came: with the
     * image, if nothing of the rest was needed, or for want of data.
     */
    ghost predicate Concludes(res: int, nothing: bool, rest: seq<byte>, g: Geometry, start: seq<byte>, image: seq<byte>)
      reads mem, mem.cache.nvm
    {
      || (res == g.to && Finished(g, start, image))
      || (res == IO_FAILED && !mem.Sound())
      || (rest != [] && (res == NOT_ENOUGH_PATCH_DATA || (res == SHORT_HEADER && nothing)))
    }

    /** Memory is what the old memory and the new image determine. */
    ghost predicate Finished(g: Geometry, start: seq<byte>, image: seq<byte>)
      reads mem
    {
      GeometryFits(g, |start|) && |image| == g.to && mem.region == FinalMemory(g, start, image)
    }

    lemma DoneMeansImage(g: Geometry, start: seq<byte>, image: seq<byte>)
      requires Valid() && Bound(g, start, image) && state == Done
      ensures toSize == g.to && Finished(g, start, image)
    {
      hide Shifted, Laid, Rebuild;
    }

    /** Before the first chunk: `patch` is what all chunks together will bring. */
    ghost method Begin(patch: seq<byte>, g: Geometry, start: seq<byte>, image: seq<byte>)
      requires Valid() && Here() == Cursor(Init, 0, 0, 0, 0, 0) && initState == 0 && reader.ChunkLeft() == 0
      modifies reader`future
      ensures Valid() && reader.future == patch
      ensures GeometryFits(g, |start|) && mem.region == start && PatchMeans(g, Base(g, start), image, patch) ==>
                Settled(OK, g, start, image)
      ensures HeaderEnd() == PatchFault(patch) && reader.Input() == patch
      ensures PatchFate(g, |mem.region|, patch).Some? ==> Ahead(g) == PatchFate(g, |mem.region|, patch)
    {
      hide PatchBody, BodyMeans, Workspace.Valid, PatchFault, Fate;
      reader.future := patch;
      assert reader.Input() == patch;
    }

    /** Feeds the chunks of a patch, of which `rest` is still to come behind them. */
    method FeedChunks(chunks: seq<seq<byte>>, ghost rest: seq<byte>, ghost g: Geometry, ghost start: seq<byte>,
                      ghost image: seq<byte>)
      returns (res: int)
      requires Valid() && reader.ChunkLeft() == 0 && reader.future == Flatten(chunks) + rest
      modifies this, reader, mem, mem.cache, mem.cache.nvm, mem.cache.buf
      ensures Valid() && mem.Kept(old(mem.cache.nvm.trail), old(mem.cache.nvm.flash))
      ensures res <= 0 && (res < 0 ==> state == Failed) && (res == OK ==> reader.future == rest)
      ensures old(Settled(OK, g, start, image)) ==> Settled(res, g, start, image)
      ensures res == OK && state == Init && initState == 0 ==> Flatten(chunks) == []
      ensures rest == [] && old(HeaderEnd()).Some? ==>
                && res == old(HeaderEnd()).value
                && mem.cache.nvm.trail == old(mem.cache.nvm.trail) && mem.cache.nvm.flash == old(mem.cache.nvm.flash)
      ensures rest == [] && old(Ahead(g)).Some? ==>
                || res == old(Ahead(g)).value || (res == IO_FAILED && !mem.Sound())
                || (res == OK && Ahead(g) == old(Ahead(g)) && reader.Input() == [])
    {
      hide Confined, Workspace.Valid, OnTrack, OnHeader, PatchFault, HeaderFault, Fate, InBody;
      hide BodyAhead, PatchBody, Ahead, HeaderEnd, Bound, RunFault, Expand;
      mem.KeptNow();
      ghost var t, w := mem.cache.nvm.trail, mem.cache.nvm.flash;
      ghost var on := Settled(OK, g, start, image);
      ghost var fault, fate := if rest == [] then HeaderEnd() else None, if rest == [] then Ahead(g) else None;
      assert rest == [] ==> reader.Input() == Flatten(chunks);
      EndsBadly(g);
      res := OK;
      var i := 0;
      while i < |chunks| && res == OK
        invariant 0 <= i <= |chunks| && Valid() && mem.Kept(t, w)
        invariant reader.future == Flatten(chunks[i..]) + rest
        invariant on ==> Settled(res, g, start, image)
        invariant res <= 0 && (res < 0 ==> state == Failed)
        invariant state == Init && initState == 0 ==> Flatten(chunks[i..]) == Flatten(chunks)
        invariant fault.Some? ==>
                    && (res == fault.value
                         || (res == OK && HeaderEnd() == fault && reader.Input() == Flatten(chunks[i..])))
                    && mem.cache.nvm.trail == t && mem.cache.nvm.flash == w
        invariant fate.Some? ==>
                    || res == fate.value || (res == IO_FAILED && !mem.Sound())
                    || (res == OK && Ahead(g) == fate && reader.Input() == Flatten(chunks[i..]))
      {
        ghost var t', w' := mem.cache.nvm.trail, mem.cache.nvm.flash;
        assert Flatten(chunks[i..]) == chunks[i] + Flatten(chunks[i + 1..]);
        assert chunks[i] + (Flatten(chunks[i + 1..]) + rest) == Flatten(chunks[i..]) + rest;
        assert rest == [] ==> Flatten(chunks[i..]) + rest == Flatten(chunks[i..]);
        res := Process(chunks[i], Flatten(chunks[i + 1..]) + rest, g, start, image);
        mem.KeptThrough(t, w, t', w');
        i := i + 1;
        assert rest == [] && reader.ChunkLeft() == 0 ==> reader.Input() == Flatten(chunks[i..]);
      }
      if res == OK {
        EndsBadly(g);
      }
    }

    /**
     * Feeds the patch chunk by chunk and finalizes. However the patch is cut,
     * the result and the memory are those that the patch as a whole determines:
     * the image of a well-formed one, and the error that any other comes to.
     */
    method ApplyChunks(chunks: seq<seq<byte>>, ghost rest: seq<byte>, ghost g: Geometry, ghost image: seq<byte>)
      returns (res: int)
      requires Valid() && Here() == Cursor(Init, 0, 0, 0, 0, 0) && initState == 0 && reader.ChunkLeft() == 0
      modifies this, reader, mem, mem.cache, mem.cache.nvm, mem.cache.buf
      ensures Valid() && mem.Kept(old(mem.cache.nvm.trail), old(mem.cache.nvm.flash))
      ensures res >= 0 ==> state == Done && res == toSize
      ensures var start := old(mem.region);
              GeometryFits(g, |start|) && PatchMeans(g, Base(g, start), image, Flatten(chunks) + rest) ==>
                Concludes(res, Flatten(chunks) == [], rest, g, start, image)
      ensures PatchFault(Flatten(chunks)).Some? && rest == [] ==>
                && res == PatchFault(Flatten(chunks)).value
                && mem.cache.nvm.trail == old(mem.cache.nvm.trail) && mem.cache.nvm.flash == old(mem.cache.nvm.flash)
      ensures PatchFate(g, |old(mem.region)|, Flatten(chunks)).Some? && rest == [] ==>
                || res == PatchFate(g, |old(mem.region)|, Flatten(chunks)).value
                || (res == IO_FAILED && !mem.Sound())
    {
      hide PatchMeans, Confined, Workspace.Valid, OnTrack, OnHeader, PatchFault, HeaderFault, Fate, InBody;
      hide BodyAhead, PatchBody, Ahead, HeaderEnd, Bound, RunFault, Expand, Starving, GeometryFits;
      mem.KeptNow();
      ghost var t, w := mem.cache.nvm.trail, mem.cache.nvm.flash;
      ghost var start := mem.region;
      ghost var all := Flatten(chunks) + rest;
      assert rest == [] ==> all == Flatten(chunks);
      Begin(all, g, start, image);
      EndsBadly(g);
      res := FeedChunks(chunks, rest, g, start, image);
      ghost var t', w' := mem.cache.nvm.trail, mem.cache.nvm.flash;
      if res == OK {
        res := Finalize(g, start, image);
      } else {
        var _ := Finalize(g, start, image);
      }
      mem.KeptThrough(t, w, t', w');
    }

    /** The checked geometry, as the shift finds it. */
    ghost predicate ShiftFits(g: Geometry, memory: int, from: int)
      reads this, mem
    {
      && GeometryFits(g, |mem.region|) && segmentSize == PAGE && shiftSize == g.shift && memory == g.memory
      && from == g.from
    }
  }

  /** A delivered block, an empty one included, and where storing it leads. */
  lemma DataStored(c: Cursor, r: seq<byte>, data: seq<byte>, pending: seq<item>, g: Geometry, start: seq<byte>,
                   image: seq<byte>)
    requires Track(g, start, image, c, r, First, Served(data) + pending)
    requires c.phase == DiffData || c.phase == ExtraData
    requires |data| <= c.chunk && c.chunk > 0
    ensures c.index > 0 && c.toPos == PAGE * (c.index - 1) + c.segPos && c.toPos + |data| <= |r| <= 0x4000_0000
    ensures c.phase == DiffData ==>
              && 0 <= c.fromOffset && c.fromOffset + |data| <= |r| && Int32(c.fromOffset)
              && Track(g, start, image, Moved(c, |data|),
                   Splice(r, c.toPos, AddBytes(r[c.fromOffset..c.fromOffset + |data|], data)), First, pending)
    ensures c.phase == ExtraData ==> Track(g, start, image, Moved(c, |data|), Splice(r, c.toPos, data), First, pending)
  {
    hide Track, Rebuild, AddBytes;
    TrackNumbers(g, start, image, c, r, Served(data) + pending);
    if data == [] {
      TrackGap(g, start, image, c, r, pending);
      assert Moved(c, 0) == c && Splice(r, c.toPos, []) == r;
      if c.phase == DiffData {
        TrackSource(g, start, image, c, r, pending);
        assert AddBytes(r[c.fromOffset..c.fromOffset], []) == [];
      }
    } else if c.phase == DiffData {
      TrackDiff(g, start, image, c, r, data, pending);
    } else {
      TrackExtra(g, start, image, c, r, data, pending);
    }
  }

  /** Behind the last header field stands the body, and the compression is checked. */
  lemma NothingBehind(g: Geometry, compression: int, input: seq<byte>)
    ensures BodyBehind(g, 6, First, input) == Some(input)
    ensures HeaderFault(compression, 6, First, input)
         == if compression != COMPRESSION_CRLE then Some(BAD_COMPRESSION) else None
  {}

  /** Pages the old image occupies. */
  function Segments(g: Geometry): nat {
    (g.from + PAGE - 1) / PAGE
  }

  /** None of the header fields wraps. */
  lemma FieldsSmall(g: Geometry, span: nat)
    requires GeometryFits(g, span)
    ensures Wrap32(g.memory) == g.memory && Wrap32(g.shift) == g.shift && Wrap32(g.from) == g.from
    ensures Wrap32(g.to) == g.to
    ensures g.to <= span
  {}

  /** The lowest `left` segments of the old image are still to be moved. */
  ghost predicate Moving(g: Geometry, r0: seq<byte>, r: seq<byte>, left: nat) {
    && GeometryFits(g, |r0|) && |r| == |r0| && left <= Segments(g) && g.shift + PAGE * left <= |r|
    && ShiftAll(r, g.shift, left) == MovedPages(g, r0)
  }

  /** None of the numbers the shift starts with wraps. */
  lemma ShiftNumbers(g: Geometry, r: seq<byte>)
    requires GeometryFits(g, |r|)
    ensures var n := Segments(g);
            && UDiv(Wrap32(Min(g.from, Wrap32(g.memory - g.shift)) + PAGE - 1), PAGE) == n && Moving(g, r, r, n)
            && (n > 0 ==>
                  && SegmentStart(PAGE, n - 1) == PAGE * (n - 1)
                  && Wrap32(PAGE * (n - 1) + g.shift) == PAGE * (n - 1) + g.shift)
  {
    hide ShiftAll;
    PagesFit(g, |r|);
  }

  /** The next segment can be moved, and then the next numbers are those of the one below. */
  lemma MovingStep(g: Geometry, r0: seq<byte>, r: seq<byte>, left: nat)
    requires Moving(g, r0, r, left) && left > 0
    ensures var top := PAGE * (left - 1);
            && InReach(PAGE, top, g.shift + top, r) && Moving(g, r0, SegmentCopied(r, top, g.shift + top), left - 1)
            && (left > 1 ==>
                  && Wrap32(top - PAGE) == PAGE * (left - 2)
                  && Wrap32(g.shift + top - PAGE) == g.shift + PAGE * (left - 2))
  {
    hide MovedPages, Segments;
    StaysOrApart(g.shift, PAGE * (left - 1));
  }

  lemma MovingDone(g: Geometry, r0: seq<byte>, r: seq<byte>)
    requires Moving(g, r0, r, 0)
    ensures r == MovedPages(g, r0)
  {}

  /** A segment overlaps the one it moves to only if it stays. */
  lemma StaysOrApart(shift: nat, read: nat)
    requires shift % PAGE == 0 && read % PAGE == 0
    ensures Apart(read, shift + read) && (shift + read) % PAGE == 0
  {}

  /** The shifted old image, rounded up to whole pages, still fits a page-multiple workspace. */
  lemma PagesFit(g: Geometry, span: nat)
    requires GeometryFits(g, span)
    ensures g.from <= PAGE * Segments(g) < g.from + PAGE && PAGE * Segments(g) == RoundUp(g.from)
    ensures g.shift + PAGE * Segments(g) <= span
  {}
}
