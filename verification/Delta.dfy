/**
 * What an in-place delta means: reconstruction of the new image from an
 * untouched copy of the old one, first at the level of operations, then at the
 * level of the byte stream the decoder consumes, and the proof that printing
 * the operations yields a stream with exactly that meaning.
 */
module Delta {
  import opened Bytes
  import opened Flash
  import opened CrleStream

  /** The sizes in the patch header. The segment size is one flash page. */
  datatype Geometry = Geometry(memory: nat, shift: nat, from: nat, to: nat)

  /** Sum of two byte strings, byte by byte, modulo 256. */
  function AddBytes(a: seq<byte>, b: seq<byte>): (r: seq<byte>)
    requires |a| == |b|
    ensures |r| == |a|
  {
    seq(|a|, i requires 0 <= i < |a| => (a[i] as int + b[i] as int) % 0x100)
  }

  /** The diff that takes `old_` to `wanted`. */
  function Differences(old_: seq<byte>, wanted: seq<byte>): (d: seq<byte>)
    requires |old_| == |wanted|
    ensures |d| == |old_|
  {
    seq(|old_|, i requires 0 <= i < |old_| => (wanted[i] as int - old_[i] as int) % 0x100)
  }

  /** Adding a diff to the bytes it was made from gives the bytes it was made for. */
  lemma DiffRestores(old_: seq<byte>, wanted: seq<byte>)
    requires |old_| == |wanted|
    ensures AddBytes(old_, Differences(old_, wanted)) == wanted
  {
    forall i | 0 <= i < |wanted| ensures AddBytes(old_, Differences(old_, wanted))[i] == wanted[i] {
      var w: int, o: int := wanted[i], old_[i];
      assert (o + (w - o) % 0x100) % 0x100 == w;
    }
  }

  // ---- operations ---------------------------------------------------------

  /** Add `diff` to base bytes, append `extra`, move the read position by `adjust`. */
  datatype Op = Op(diff: seq<byte>, extra: seq<byte>, adjust: int)

  function Produced(op: Op): nat {
    |op.diff| + |op.extra|
  }

  /** The workspace address from which segment `k` may read, and where it starts reading. */
  function SourceLow(g: Geometry, k: nat): nat {
    Max(PAGE * (k + 1), g.shift)
  }

  function SegmentSize(g: Geometry, k: nat): int {
    Min(PAGE, g.to - PAGE * k)
  }

  /**
   * Segment `k` fills its page, or the image; it starts reading at the first
   * byte of the shifted image that its page does not cover.
   */
  lemma SegmentBounds(g: Geometry, k: nat)
    ensures var low, n := SourceLow(g, k), SegmentSize(g, k);
            && g.shift <= low && PAGE * k + PAGE <= low && (low == g.shift || low == PAGE * k + PAGE)
            && n <= PAGE && PAGE * k + n <= g.to && (n == PAGE || PAGE * k + n == g.to)
  {}

  predicate Int32(n: int) {
    -0x8000_0000 <= n < 0x8000_0000
  }

  predicate Packable(n: int) {
    -0x800_0000 < n < 0x800_0000
  }

  /** Workspace addresses `[at, at + n)` hold base bytes that segment `k` has not overwritten. */
  predicate Readable(g: Geometry, k: nat, at: int, n: nat) {
    n > 0 ==> SourceLow(g, k) <= at && at + n <= g.shift + g.from
  }

  /** Old bytes, by their address in the shifted workspace. */
  function OldBytes(g: Geometry, base: seq<byte>, k: nat, at: int, n: nat): (r: seq<byte>)
    requires |base| == g.from && Readable(g, k, at, n)
    ensures |r| == n
  {
    if n == 0 then [] else base[at - g.shift..at - g.shift + n]
  }

  /** The operations of one segment fill `room` bytes exactly, the last one completing it. */
  predicate OpsFit(g: Geometry, k: nat, at: int, room: int, ops: seq<Op>)
    decreases |ops|
  {
    && ops != []
    && var op := ops[0];
    && Readable(g, k, at, |op.diff|) && Packable(|op.diff|) && Packable(|op.extra|) && Packable(op.adjust)
    && if |ops| == 1 then Produced(op) == room
       else
         && Produced(op) < room && Int32(at + |op.diff| + op.adjust)
         && OpsFit(g, k, at + |op.diff| + op.adjust, room - Produced(op), ops[1..])
  }

  /** Segments `k`, `k + 1`, ... of the new image, up to its end. */
  predicate SegmentsFit(g: Geometry, k: nat, segs: seq<seq<Op>>)
    decreases |segs|
  {
    if PAGE * k >= g.to then segs == []
    else segs != [] && OpsFit(g, k, SourceLow(g, k), SegmentSize(g, k), segs[0]) && SegmentsFit(g, k + 1, segs[1..])
  }

  /** Out-of-place reconstruction of one segment. */
  function ApplyOps(g: Geometry, base: seq<byte>, k: nat, at: int, room: int, ops: seq<Op>): seq<byte>
    requires |base| == g.from && OpsFit(g, k, at, room, ops)
    decreases |ops|
  {
    var op := ops[0];
    AddBytes(OldBytes(g, base, k, at, |op.diff|), op.diff) + op.extra
    + if |ops| == 1 then [] else ApplyOps(g, base, k, at + |op.diff| + op.adjust, room - Produced(op), ops[1..])
  }

  /** Out-of-place reconstruction of the new image from segment `k` on. */
  function Reconstruct(g: Geometry, base: seq<byte>, k: nat, segs: seq<seq<Op>>): seq<byte>
    requires |base| == g.from && SegmentsFit(g, k, segs)
    decreases |segs|
  {
    if segs == [] then []
    else ApplyOps(g, base, k, SourceLow(g, k), SegmentSize(g, k), segs[0]) + Reconstruct(g, base, k + 1, segs[1..])
  }

  /** Segments that bring `image` from segment `k` on as extra data, and read nothing of the old image. */
  function Literally(g: Geometry, image: seq<byte>, k: nat): seq<seq<Op>>
    requires |image| == g.to
    decreases g.to - PAGE * k
  {
    if PAGE * k >= g.to then []
    else [[Op([], image[PAGE * k..PAGE * k + SegmentSize(g, k)], 0)]] + Literally(g, image, k + 1)
  }

  /** So every image can be brought to every base. */
  lemma {:induction false} EveryImageHasSegments(g: Geometry, base: seq<byte>, image: seq<byte>, k: nat)
    requires |base| == g.from && |image| == g.to && PAGE * k <= g.to + PAGE
    ensures SegmentsFit(g, k, Literally(g, image, k))
    ensures Reconstruct(g, base, k, Literally(g, image, k)) == if PAGE * k >= g.to then [] else image[PAGE * k..]
    decreases g.to - PAGE * k
  {
    if PAGE * k < g.to {
      EveryImageHasSegments(g, base, image, k + 1);
      var n := SegmentSize(g, k);
      var op := Op([], image[PAGE * k..PAGE * k + n], 0);
      assert Literally(g, image, k)[0] == [op] && Literally(g, image, k)[1..] == Literally(g, image, k + 1);
      assert AddBytes(OldBytes(g, base, k, SourceLow(g, k), 0), []) == [];
      assert ApplyOps(g, base, k, SourceLow(g, k), n, [op]) == op.extra;
    }
  }

  // ---- the byte stream ----------------------------------------------------

  datatype Phase = Init | DfpatchSize | DiffSize | DiffData | ExtraSize | ExtraData | Adjustment | Done | Failed

  /** Where the decoder stands in the body: `index` segments have been entered. */
  datatype Cursor = Cursor(phase: Phase, toPos: nat, chunk: nat, index: nat, fromOffset: int, segPos: nat)

  function Cons(b: byte, r: Option<seq<byte>>): Option<seq<byte>> {
    if r.None? then None else Some([b] + r.value)
  }

  function Prepend(p: seq<byte>, r: Option<seq<byte>>): Option<seq<byte>> {
    if r.None? then None else Some(p + r.value)
  }

  /** The cursor after `n` data bytes. */
  function Moved(c: Cursor, n: nat): Cursor
    requires n <= c.chunk
  {
    c.(chunk := c.chunk - n, toPos := c.toPos + n, segPos := c.segPos + n,
    fromOffset := if c.phase == DiffData then c.fromOffset + n else c.fromOffset)
  }

  /**
   * The rest of the new image that the decoded body `bytes` describes from
   * cursor `c` on, reading an untouched old image; `None` when the patch is
   * not well formed from here. An empty run does no harm inside a block of
   * data, and spoils a size it stands in front of.
   */
  ghost function Rebuild(g: Geometry, base: seq<byte>, c: Cursor, s: SizeState, bytes: seq<item>): Option<seq<byte>>
    requires |base| == g.from
    decreases |bytes|, if (c.phase == DiffData || c.phase == ExtraData) && c.chunk == 0 then 1 else 0
  {
    match c.phase
    case Init => None
    case Failed => None
    case Done => Some([])
    case DfpatchSize =>
      var t := TakeSize(s, bytes);
      if t.None? || t.value.0 > 0 || PAGE * c.index >= g.to then None
      else Rebuild(g, base, c.(phase := DiffSize, index := c.index + 1, fromOffset := SourceLow(g, c.index),
        segPos := 0),
                   First, t.value.1)
    case DiffSize =>
      var t := TakeSize(s, bytes);
      if t.None? || !SizeFits(g, c, t.value.0) then None
      else Rebuild(g, base, c.(phase := DiffData, chunk := t.value.0), First, t.value.1)
    case ExtraSize =>
      var t := TakeSize(s, bytes);
      if t.None? || !SizeFits(g, c, t.value.0) then None
      else Rebuild(g, base, c.(phase := ExtraData, chunk := t.value.0), First, t.value.1)
    case DiffData =>
      if c.chunk == 0 then Rebuild(g, base, c.(phase := ExtraSize), First, bytes)
      else if bytes == [] then None
      else if bytes[0] == GAP then Rebuild(g, base, c, First, bytes[1..])
      else if c.index == 0 || !Readable(g, c.index - 1, c.fromOffset, 1) then None
      else Cons((bytes[0] as int + base[c.fromOffset - g.shift] as int) % 0x100,
        Rebuild(g, base, Moved(c, 1), First, bytes[1..]))
    case ExtraData =>
      if c.chunk == 0 then Rebuild(g, base, c.(phase := Adjustment), First, bytes)
      else if bytes == [] then None
      else if bytes[0] == GAP then Rebuild(g, base, c, First, bytes[1..])
      else Cons(bytes[0], Rebuild(g, base, Moved(c, 1), First, bytes[1..]))
    case Adjustment =>
      var t := TakeSize(s, bytes);
      if t.None? || c.index == 0 then None
      else if c.toPos == g.to then Some([])
      else if c.segPos == SegmentSize(g, c.index - 1) then Rebuild(g, base, c.(phase := DfpatchSize), First, t.value.1)
      else if !Int32(c.fromOffset + t.value.0) then None
      else Rebuild(g, base, c.(phase := DiffSize, fromOffset := c.fromOffset + t.value.0), First, t.value.1)
  }

  /** A diff or extra size that is not negative and stays inside its segment. */
  predicate SizeFits(g: Geometry, c: Cursor, n: int) {
    n >= 0 && c.index > 0 && c.segPos + n <= SegmentSize(g, c.index - 1) && c.toPos + n <= g.to
  }

  function StartCursor(g: Geometry): Cursor {
    Cursor(if g.to == 0 then Done else DfpatchSize, 0, 0, 0, 0, 0)
  }

  // ---- the equations of Rebuild, one by one -------------------------------

  lemma AtDfpatch(g: Geometry, base: seq<byte>, c: Cursor, s: SizeState, bytes: seq<item>)
    requires |base| == g.from && c.phase == DfpatchSize
    ensures var t := TakeSize(s, bytes);
            Rebuild(g, base, c, s, bytes)
            == if t.None? || t.value.0 > 0 || PAGE * c.index >= g.to then None
               else Rebuild(g, base, c.(phase := DiffSize, index := c.index + 1, fromOffset := SourceLow(g, c.index),
                 segPos := 0),
                            First, t.value.1)
  {
    hide TakeSize;
  }

  lemma AtSize(g: Geometry, base: seq<byte>, c: Cursor, s: SizeState, bytes: seq<item>)
    requires |base| == g.from && (c.phase == DiffSize || c.phase == ExtraSize)
    ensures var t := TakeSize(s, bytes);
            Rebuild(g, base, c, s, bytes)
            == if t.None? || !SizeFits(g, c, t.value.0) then None
               else Rebuild(g, base, c.(phase := if c.phase == DiffSize then DiffData else ExtraData,
                 chunk := t.value.0),
                            First, t.value.1)
  {
    hide TakeSize;
  }

  lemma AtBlockEnd(g: Geometry, base: seq<byte>, c: Cursor, s: SizeState, bytes: seq<item>)
    requires |base| == g.from && (c.phase == DiffData || c.phase == ExtraData) && c.chunk == 0
    ensures Rebuild(g, base, c, s, bytes)
         == Rebuild(g, base, c.(phase := if c.phase == DiffData then ExtraSize else Adjustment), First, bytes)
  {
    hide TakeSize;
  }

  /** An empty run inside a block of data changes nothing. */
  lemma AtGap(g: Geometry, base: seq<byte>, c: Cursor, rest: seq<item>)
    requires |base| == g.from && (c.phase == DiffData || c.phase == ExtraData) && c.chunk > 0
    ensures Rebuild(g, base, c, First, [GAP] + rest) == Rebuild(g, base, c, First, rest)
  {
    hide TakeSize;
    assert ([GAP] + rest)[1..] == rest;
  }

  /** Where a size is due, an empty run leaves no meaning at all. */
  lemma GapBeforeSize(g: Geometry, base: seq<byte>, c: Cursor, s: SizeState, rest: seq<item>)
    requires |base| == g.from
    requires c.phase == DfpatchSize || c.phase == DiffSize || c.phase == ExtraSize || c.phase == Adjustment
    ensures Rebuild(g, base, c, s, [GAP] + rest).None?
  {
    hide TakeSize;
    GapSpoils(s, rest);
  }

  /** A block of diff data that goes on, goes on with old bytes to read. */
  lemma {:induction false} DiffReadable(g: Geometry, base: seq<byte>, c: Cursor, bytes: seq<item>)
    requires |base| == g.from && c.phase == DiffData && c.chunk > 0 && Rebuild(g, base, c, First, bytes).Some?
    ensures c.index > 0 && Readable(g, c.index - 1, c.fromOffset, 1)
    decreases |bytes|
  {
    if bytes[0] == GAP {
      DiffReadable(g, base, c, bytes[1..]);
    }
  }

  lemma AtAdjustment(g: Geometry, base: seq<byte>, c: Cursor, s: SizeState, bytes: seq<item>)
    requires |base| == g.from && c.phase == Adjustment
    ensures var t := TakeSize(s, bytes);
            Rebuild(g, base, c, s, bytes)
            == if t.None? || c.index == 0 then None
               else if c.toPos == g.to then Some([])
               else if c.segPos == SegmentSize(g, c.index - 1) then
                 Rebuild(g, base, c.(phase := DfpatchSize), First, t.value.1)
               else if !Int32(c.fromOffset + t.value.0) then None
               else Rebuild(g, base, c.(phase := DiffSize, fromOffset := c.fromOffset + t.value.0), First, t.value.1)
  {
    hide TakeSize;
  }

  lemma AddBytesCons(x: byte, a: seq<byte>, y: byte, b: seq<byte>)
    requires |a| == |b|
    ensures AddBytes([x] + a, [y] + b) == [(x as int + y as int) % 0x100] + AddBytes(a, b)
  {}

  lemma PrependCons(b: byte, p: seq<byte>, r: Option<seq<byte>>)
    ensures Cons(b, Prepend(p, r)) == Prepend([b] + p, r)
  {
    if r.Some? {
      assert [b] + (p + r.value) == [b] + p + r.value;
    }
  }

  lemma PrependNothing(r: Option<seq<byte>>)
    ensures Prepend([], r) == r
  {
    if r.Some? {
      assert [] + r.value == r.value;
    }
  }

  lemma DiffJoin(g: Geometry, base: seq<byte>, k: nat, at: int, data: seq<byte>, tail: Option<seq<byte>>)
    requires |base| == g.from && data != [] && Readable(g, k, at, |data|)
    ensures Readable(g, k, at + 1, |data| - 1)
    ensures Cons((base[at - g.shift] as int + data[0] as int) % 0x100,
                 Prepend(AddBytes(OldBytes(g, base, k, at + 1, |data| - 1), data[1..]), tail))
         == Prepend(AddBytes(OldBytes(g, base, k, at, |data|), data), tail)
  {
    var x := base[at - g.shift];
    var more := OldBytes(g, base, k, at + 1, |data| - 1);
    assert OldBytes(g, base, k, at, |data|) == [x] + more;
    assert data == [data[0]] + data[1..];
    AddBytesCons(x, more, data[0], data[1..]);
    PrependCons((x as int + data[0] as int) % 0x100, AddBytes(more, data[1..]), tail);
  }

  lemma AddNothing(g: Geometry, base: seq<byte>, k: nat, at: int)
    requires |base| == g.from
    ensures AddBytes(OldBytes(g, base, k, at, 0), []) == []
  {}

  /** One diff byte. */
  lemma RebuildDiffByte(g: Geometry, base: seq<byte>, c: Cursor, d: byte, rest: seq<item>)
    requires |base| == g.from && c.phase == DiffData && c.index > 0 && c.chunk > 0
    ensures Rebuild(g, base, c, First, [d] + rest)
         == if Readable(g, c.index - 1, c.fromOffset, 1)
            then Cons((base[c.fromOffset - g.shift] as int + d as int) % 0x100,
                Rebuild(g, base, Moved(c, 1), First, rest))
            else None
  {
    assert ([d] + rest)[1..] == rest;
  }

  /** A block of diff data contributes the old bytes plus the block. */
  lemma {:induction false} RebuildDiff(g: Geometry, base: seq<byte>, c: Cursor, data: seq<byte>, rest: seq<item>)
    requires |base| == g.from && c.phase == DiffData && c.index > 0 && |data| <= c.chunk
    requires Readable(g, c.index - 1, c.fromOffset, |data|) || Rebuild(g, base, c, First, data + rest).Some?
    ensures Readable(g, c.index - 1, c.fromOffset, |data|)
    ensures Rebuild(g, base, c, First, data + rest)
         == Prepend(AddBytes(OldBytes(g, base, c.index - 1, c.fromOffset, |data|), data),
                    Rebuild(g, base, Moved(c, |data|), First, rest))
    decreases |data|
  {
    hide Rebuild, AddBytes, OldBytes;
    var tail := Rebuild(g, base, Moved(c, |data|), First, rest);
    if data == [] {
      assert data + rest == rest && Moved(c, 0) == c;
      AddNothing(g, base, c.index - 1, c.fromOffset);
      PrependNothing(tail);
    } else {
      var k, at := c.index - 1, c.fromOffset;
      assert data + rest == [data[0]] + (data[1..] + rest);
      RebuildDiffByte(g, base, c, data[0], data[1..] + rest);
      assert Readable(g, k, at, |data|) ==> Readable(g, k, at + 1, |data| - 1);
      RebuildDiff(g, base, Moved(c, 1), data[1..], rest);
      assert Moved(Moved(c, 1), |data| - 1) == Moved(c, |data|);
      DiffJoin(g, base, k, at, data, tail);
    }
  }

  /** So an empty run may stand anywhere inside a block. */
  lemma GapInBlock(g: Geometry, base: seq<byte>, c: Cursor, data: seq<byte>, rest: seq<item>)
    requires |base| == g.from && (c.phase == DiffData || c.phase == ExtraData) && c.index > 0 && |data| < c.chunk
    requires c.phase == DiffData ==> Readable(g, c.index - 1, c.fromOffset, |data|)
    ensures Rebuild(g, base, c, First, data + ([GAP] + rest)) == Rebuild(g, base, c, First, data + rest)
  {
    hide Rebuild;
    if c.phase == DiffData {
      RebuildDiff(g, base, c, data, [GAP] + rest);
      RebuildDiff(g, base, c, data, rest);
    } else {
      RebuildExtra(g, base, c, data, [GAP] + rest);
      RebuildExtra(g, base, c, data, rest);
    }
    AtGap(g, base, Moved(c, |data|), rest);
  }

  /** A block of extra data contributes itself. */
  lemma {:induction false} RebuildExtra(g: Geometry, base: seq<byte>, c: Cursor, data: seq<byte>, rest: seq<item>)
    requires |base| == g.from && c.phase == ExtraData && |data| <= c.chunk
    ensures Rebuild(g, base, c, First, data + rest) == Prepend(data, Rebuild(g, base, Moved(c, |data|), First, rest))
    decreases |data|
  {
    var tail := Rebuild(g, base, Moved(c, |data|), First, rest);
    if data == [] {
      assert data + rest == rest && Moved(c, 0) == c;
      PrependNothing(tail);
    } else {
      assert (data + rest)[0] == data[0] && (data + rest)[1..] == data[1..] + rest;
      RebuildExtra(g, base, Moved(c, 1), data[1..], rest);
      assert Moved(Moved(c, 1), |data| - 1) == Moved(c, |data|);
      assert data == [data[0]] + data[1..];
      PrependCons(data[0], data[1..], tail);
    }
  }

  /** An empty run may take the meaning of a patch away, but never changes it. */
  lemma {:induction false} EmptyRunsAddNothing(g: Geometry, base: seq<byte>, c: Cursor, s: SizeState, items: seq<item>)
    requires |base| == g.from && Rebuild(g, base, c, s, items).Some?
    ensures Rebuild(g, base, c, s, Plain(items)) == Rebuild(g, base, c, s, items)
    decreases |items|, if c.phase == DiffData || c.phase == ExtraData then 3 else 1
  {
    hide TakeSize, Plain, Rebuild;
    SizeNeedsNoGap(s, items);
    var t := TakeSize(s, items);
    match c.phase
    case Init => NeverDone(g, base, c, s, items);
    case Failed => NeverDone(g, base, c, s, items);
    case Done => AlwaysDone(g, base, c, s);
    case DfpatchSize =>
      AtDfpatch(g, base, c, s, items);
      AtDfpatch(g, base, c, s, Plain(items));
      EmptyRunsAddNothing(g, base, c.(phase := DiffSize, index := c.index + 1, fromOffset := SourceLow(g, c.index),
          segPos := 0),
                          First, t.value.1);
    case DiffData => EmptyRunsInData(g, base, c, s, items);
    case ExtraData => EmptyRunsInData(g, base, c, s, items);
    case Adjustment =>
      AtAdjustment(g, base, c, s, items);
      AtAdjustment(g, base, c, s, Plain(items));
      if c.toPos != g.to {
        EmptyRunsAddNothing(g, base,
                            if c.segPos == SegmentSize(g, c.index - 1) then c.(phase := DfpatchSize)
                            else c.(phase := DiffSize, fromOffset := c.fromOffset + t.value.0), First, t.value.1);
      }
    case _ =>
      AtSize(g, base, c, s, items);
      AtSize(g, base, c, s, Plain(items));
      EmptyRunsAddNothing(g, base, c.(phase := if c.phase == DiffSize then DiffData else ExtraData, chunk := t.value.0),
                          First, t.value.1);
  }

  lemma NeverDone(g: Geometry, base: seq<byte>, c: Cursor, s: SizeState, items: seq<item>)
    requires |base| == g.from && (c.phase == Init || c.phase == Failed)
    ensures Rebuild(g, base, c, s, items).None?
  {}

  lemma AlwaysDone(g: Geometry, base: seq<byte>, c: Cursor, s: SizeState)
    requires |base| == g.from && c.phase == Done
    ensures forall items :: Rebuild(g, base, c, s, items) == Some([])
  {}

  lemma {:induction false} EmptyRunsInData(g: Geometry, base: seq<byte>, c: Cursor, s: SizeState, items: seq<item>)
    requires |base| == g.from && (c.phase == DiffData || c.phase == ExtraData) && Rebuild(g, base, c, s, items).Some?
    ensures Rebuild(g, base, c, s, Plain(items)) == Rebuild(g, base, c, s, items)
    decreases |items|, if c.chunk == 0 then 2 else 0
  {
    hide TakeSize;
    if c.chunk == 0 {
      EmptyRunsAddNothing(g, base, c.(phase := if c.phase == DiffData then ExtraSize else Adjustment), First, items);
    } else if items[0] == GAP {
      EmptyRunsInData(g, base, c, First, items[1..]);
      StateDoesNotMatter(g, base, c, s, Plain(items[1..]));
    } else {
      assert Plain(items) == [items[0]] + Plain(items[1..]);
      assert ([items[0]] + Plain(items[1..]))[1..] == Plain(items[1..]);
      EmptyRunsInData(g, base, Moved(c, 1), First, items[1..]);
    }
  }

  lemma StateDoesNotMatter(g: Geometry, base: seq<byte>, c: Cursor, s: SizeState, items: seq<item>)
    requires |base| == g.from && (c.phase == DiffData || c.phase == ExtraData)
    ensures Rebuild(g, base, c, s, items) == Rebuild(g, base, c, First, items)
  {}
}
