/**
 * Printing an in-place patch, and the proof that decoding what was printed
 * means out-of-place reconstruction, however the body is cut into runs.
 */
module PatchFormat {
  import opened Bytes
  import opened Flash
  import opened CrleStream
  import opened Delta
  import opened Decoder

  // ---- sizes --------------------------------------------------------------

  /** Groups of seven bits, least significant first. */
  function PrintUsize(n: nat): seq<byte> {
    if n < 0x80 then [n] else [0x80 + n % 0x80] + PrintUsize(n / 0x80)
  }

  /** Sign and six bits, then groups of seven. */
  function PrintSize(n: int): seq<byte> {
    var m := Abs(n);
    var sign := if n < 0 then 0x40 else 0;
    if m < 0x40 then [sign + m] else [0x80 + sign + m % 0x40] + PrintUsize(m / 0x40)
  }

  lemma Pow2Seven(o: nat)
    ensures Pow2(o + 7) == 0x80 * Pow2(o)
  {
    assert Pow2(o + 7) == 2 * Pow2(o + 6) == 4 * Pow2(o + 5) == 8 * Pow2(o + 4) == 16 * Pow2(o + 3);
    assert Pow2(o + 3) == 2 * Pow2(o + 2) == 4 * Pow2(o + 1) == 8 * Pow2(o);
  }

  /** A group of seven bits and the rest of a size make up the size. */
  lemma PlaceDigit(v: nat, n: nat, o: nat)
    requires n >= 0x80
    ensures Place(v, 0x80 + n % 0x80, o) + n / 0x80 * Pow2(o + 7) == v + n * Pow2(o)
    ensures n / 0x80 * Pow2(o + 7) <= n * Pow2(o)
  {
    Pow2Seven(o);
    var p, q, d := Pow2(o), n / 0x80, n % 0x80;
    assert n == 0x80 * q + d;
    assert (0x80 * q + d) * p == q * (0x80 * p) + d * p;
  }

  lemma Pow2Values()
    ensures Pow2(6) == 0x40 && Pow2(7) == 0x80 && Pow2(13) == 0x2000 && Pow2(14) == 0x4000
    ensures Pow2(20) == 0x10_0000 && Pow2(21) == 0x20_0000
  {}

  lemma {:induction false} TakeConsecutive(v: nat, o: nat, neg: bool, n: nat, rest: seq<byte>)
    requires o == 6 || o == 13 || o == 20
    requires n * Pow2(o) < 0x800_0000
    ensures TakeSize(Consecutive(v, o, neg), PrintUsize(n) + rest)
         == Some((if neg then 0 - (v + n * Pow2(o)) else v + n * Pow2(o), rest))
    decreases n
  {
    Pow2Values();
    var bytes := PrintUsize(n) + rest;
    if n < 0x80 {
      assert bytes[1..] == rest;
    } else {
      assert bytes[1..] == PrintUsize(n / 0x80) + rest;
      PlaceDigit(v, n, o);
      TakeConsecutive(Place(v, bytes[0], o), o + 7, neg, n / 0x80, rest);
    }
  }

  lemma TakeFirst(bytes: seq<byte>)
    requires bytes != []
    ensures var b := bytes[0] as int;
            TakeSize(First, bytes)
            == if b >= 0x80 then TakeSize(Consecutive(b % 0x40, 6, b / 0x40 % 2 == 1), bytes[1..])
               else Some((if b / 0x40 % 2 == 1 then 0 - b % 0x40 else b % 0x40, bytes[1..]))
  {}

  lemma FirstByte(n: int)
    ensures PrintSize(n) != []
    ensures var b, m := PrintSize(n)[0] as int, Abs(n);
            && PrintSize(n) == [PrintSize(n)[0]] + (if m < 0x40 then [] else PrintUsize(m / 0x40))
            && b % 0x40 == (if m < 0x40 then m else m % 0x40)
            && (b / 0x40 % 2 == 1 <==> n < 0) && (b >= 0x80 <==> m >= 0x40)
  {}

  /** Unpacking inverts packing for every size the format can carry. */
  lemma SizeRoundTrip(n: int, rest: seq<byte>)
    requires Packable(n)
    ensures TakeSize(First, PrintSize(n) + rest) == Some((n, rest))
  {
    hide TakeSize, PrintSize;
    var m := Abs(n);
    var bytes := PrintSize(n) + rest;
    FirstByte(n);
    TakeFirst(bytes);
    if m < 0x40 {
      assert bytes[1..] == rest;
    } else {
      assert bytes[1..] == PrintUsize(m / 0x40) + rest;
      SizeSplit(m);
      TakeConsecutive(m % 0x40, 6, n < 0, m / 0x40, rest);
    }
  }

  lemma SizeSplit(m: nat)
    requires m < 0x800_0000
    ensures m % 0x40 + m / 0x40 * Pow2(6) == m && m / 0x40 * Pow2(6) < 0x800_0000
  {
    Pow2Values();
  }

  // ---- runs ---------------------------------------------------------------

  datatype Run = Scattered(data: seq<byte>) | Repeated(count: nat, value: byte)

  function RunContent(run: Run): seq<byte> {
    match run
    case Scattered(data) => data
    case Repeated(count, b) => Fill(count, b)
  }

  function PrintRun(run: Run): seq<byte> {
    match run
    case Scattered(data) => [0] + PrintUsize(|data|) + data
    case Repeated(count, b) => [1] + PrintUsize(count) + [b]
  }

  function Content(runs: seq<Run>): seq<byte> {
    if runs == [] then [] else RunContent(runs[0]) + Content(runs[1..])
  }

  function PrintRuns(runs: seq<Run>): seq<byte> {
    if runs == [] then [] else PrintRun(runs[0]) + PrintRuns(runs[1..])
  }

  /** No run is empty, and its size fits 28 bits. */
  predicate RunsFit(runs: seq<Run>) {
    forall r | r in runs :: 0 < |RunContent(r)| < 0x1000_0000
  }

  function SizeState0(repeated: bool, v: nat, o: nat): Crle {
    if repeated then RepeatedSize(v, o) else ScatteredSize(v, o)
  }

  lemma {:induction false} ExpandUsize(repeated: bool, v: nat, o: nat, n: nat, rest: seq<byte>)
    requires o == 0 || o == 7 || o == 14 || o == 21
    requires n * Pow2(o) < 0x1000_0000
    ensures Expand(SizeState0(repeated, v, o), PrintUsize(n) + rest)
         == Expand(if repeated then RepeatedData(v + n * Pow2(o)) else ScatteredData(v + n * Pow2(o)), rest)
    decreases n
  {
    hide Expand, Place;
    Pow2Values();
    if n < 0x80 {
      SizeByte(repeated, v, o, n, rest);
      PlaceLast(v, n, o);
    } else {
      var b := 0x80 + n % 0x80;
      assert PrintUsize(n) + rest == [b] + (PrintUsize(n / 0x80) + rest);
      SizeByte(repeated, v, o, b, PrintUsize(n / 0x80) + rest);
      PlaceDigit(v, n, o);
      ExpandUsize(repeated, Place(v, b, o), o + 7, n / 0x80, rest);
    }
  }

  lemma PlaceLast(v: nat, n: nat, o: nat)
    requires n < 0x80
    ensures Place(v, n, o) == v + n * Pow2(o)
  {}

  /** One byte of a run size. */
  lemma SizeByte(repeated: bool, v: nat, o: nat, b: byte, rest: seq<byte>)
    requires !IsOverflow(o)
    ensures Expand(SizeState0(repeated, v, o), [b] + rest)
         == Expand(if Continues(b) then SizeState0(repeated, Place(v, b, o), o + 7)
                   else if repeated then RepeatedData(Place(v, b, o)) else ScatteredData(Place(v, b, o)), rest)
  {
    hide Place;
    assert ([b] + rest)[1..] == rest;
  }

  lemma ExpandRun(run: Run, rest: seq<byte>)
    requires 0 < |RunContent(run)| < 0x1000_0000
    ensures Expand(Idle, PrintRun(run) + rest) == RunContent(run) + Expand(Idle, rest)
  {
    match run
    case Scattered(data) =>
      assert (PrintRun(run) + rest)[1..] == PrintUsize(|data|) + (data + rest);
      ExpandUsize(false, 0, 0, |data|, data + rest);
      ExpandScattered(|data|, data + rest, |data|);
      assert (data + rest)[..|data|] == data && (data + rest)[|data|..] == rest;
    case Repeated(count, b) =>
      assert (PrintRun(run) + rest)[1..] == PrintUsize(count) + ([b] + rest);
      ExpandUsize(true, 0, 0, count, [b] + rest);
      assert ([b] + rest)[1..] == rest;
  }

  /** Sizes that fit 28 bits; a run may be empty. */
  predicate RunsPrintable(runs: seq<Run>) {
    forall r | r in runs :: |RunContent(r)| < 0x1000_0000
  }

  /**
   * The content of runs with a gap at every empty one. An empty literal run at
   * the very end of the input is not noticed any more.
   */
  function Marked(runs: seq<Run>): seq<item> {
    if runs == [] then []
    else if RunContent(runs[0]) != [] then RunContent(runs[0]) + Marked(runs[1..])
    else if runs[0].Scattered? && runs[1..] == [] then []
    else [GAP] + Marked(runs[1..])
  }

  lemma SomethingPrinted(runs: seq<Run>)
    ensures PrintRuns(runs) == [] <==> runs == []
  {}

  lemma ExpandEmptyRun(run: Run, rest: seq<byte>)
    requires RunContent(run) == []
    ensures Expand(Idle, PrintRun(run) + rest)
         == if run.Scattered? && rest == [] then [] else [GAP] + Expand(Idle, rest)
  {
    match run
    case Scattered(data) =>
      assert (PrintRun(run) + rest)[1..] == PrintUsize(0) + rest;
      ExpandUsize(false, 0, 0, 0, rest);
    case Repeated(count, b) =>
      assert count == |Fill(count, b)| == 0;
      assert (PrintRun(run) + rest)[1..] == PrintUsize(0) + ([b] + rest);
      ExpandUsize(true, 0, 0, 0, [b] + rest);
      assert ([b] + rest)[1..] == rest;
  }

  /** Expanding printed runs, empty ones included, yields their content with its gaps. */
  lemma {:induction false} RunsExpand(runs: seq<Run>)
    requires RunsPrintable(runs)
    ensures Expand(Idle, PrintRuns(runs)) == Marked(runs) && Plain(Marked(runs)) == Content(runs)
  {
    hide Expand, PrintRun;
    if runs == [] {
      ExpandNothing();
    } else {
      var more := PrintRuns(runs[1..]);
      SomethingPrinted(runs[1..]);
      assert runs[0] in runs && forall r | r in runs[1..] :: r in runs;
      RunsExpand(runs[1..]);
      if RunContent(runs[0]) != [] {
        ExpandRun(runs[0], more);
        PlainJoin(RunContent(runs[0]), Marked(runs[1..]));
        PlainBytes(RunContent(runs[0]));
      } else {
        ExpandEmptyRun(runs[0], more);
        PlainServed([], Marked(runs[1..]));
        assert [] + Content(runs[1..]) == Content(runs[1..]);
      }
    }
  }

  lemma ExpandNothing()
    ensures Expand(Idle, []) == []
  {}

  lemma {:induction false} NothingMarked(runs: seq<Run>)
    requires RunsFit(runs)
    ensures Marked(runs) == Content(runs)
  {
    if runs != [] {
      assert runs[0] in runs && forall r | r in runs[1..] :: r in runs;
      NothingMarked(runs[1..]);
    }
  }

  /** Expanding printed runs yields their content, whatever the runs are, as long as none is empty. */
  lemma RunsRoundTrip(runs: seq<Run>)
    requires RunsFit(runs)
    ensures Expand(Idle, PrintRuns(runs)) == Content(runs)
  {
    RunsExpand(runs);
    NothingMarked(runs);
  }

  // ---- operations ---------------------------------------------------------

  function PrintOp(op: Op): seq<byte> {
    PrintSize(|op.diff|) + op.diff + PrintSize(|op.extra|) + op.extra + PrintSize(op.adjust)
  }

  function PrintOps(ops: seq<Op>): seq<byte> {
    if ops == [] then [] else PrintOp(ops[0]) + PrintOps(ops[1..])
  }

  /** Each segment starts with an empty data-format patch. */
  function PrintSegments(segs: seq<seq<Op>>): seq<byte> {
    if segs == [] then [] else PrintSize(0) + PrintOps(segs[0]) + PrintSegments(segs[1..])
  }

  /** The cursor stands at an operation of segment `k` with `room` bytes of it to fill. */
  predicate AtOp(g: Geometry, c: Cursor, k: nat, at: int, room: int) {
    && c.phase == DiffSize && c.index == k + 1 && c.fromOffset == at
    && c.segPos + room == SegmentSize(g, k) && c.toPos == PAGE * k + c.segPos && c.toPos + room <= g.to
  }

  function AfterData(c: Cursor, op: Op): Cursor {
    c.(phase := Adjustment, chunk := 0, toPos := c.toPos + Produced(op), segPos := c.segPos + Produced(op),
    fromOffset := c.fromOffset + |op.diff|)
  }

  function OpData(g: Geometry, base: seq<byte>, k: nat, at: int, op: Op): seq<byte>
    requires |base| == g.from && Readable(g, k, at, |op.diff|)
  {
    AddBytes(OldBytes(g, base, k, at, |op.diff|), op.diff) + op.extra
  }

  lemma StepDiffSize(g: Geometry, base: seq<byte>, c: Cursor, n: nat, rest: seq<byte>)
    requires |base| == g.from && Packable(n) && SizeFits(g, c, n)
    ensures c.phase == DiffSize ==>
              Rebuild(g, base, c, First, PrintSize(n) + rest)
                  == Rebuild(g, base, c.(phase := DiffData, chunk := n), First, rest)
    ensures c.phase == ExtraSize ==>
              Rebuild(g, base, c, First, PrintSize(n) + rest)
                  == Rebuild(g, base, c.(phase := ExtraData, chunk := n), First, rest)
  {
    hide Rebuild, TakeSize, PrintSize;
    SizeRoundTrip(n, rest);
    if c.phase == DiffSize || c.phase == ExtraSize {
      AtSize(g, base, c, First, PrintSize(n) + rest);
    }
  }

  lemma StepBlockEnd(g: Geometry, base: seq<byte>, c: Cursor, rest: seq<byte>)
    requires |base| == g.from && c.chunk == 0
    ensures c.phase == DiffData ==>
              Rebuild(g, base, c, First, rest) == Rebuild(g, base, c.(phase := ExtraSize), First, rest)
    ensures c.phase == ExtraData ==>
              Rebuild(g, base, c, First, rest) == Rebuild(g, base, c.(phase := Adjustment), First, rest)
  {
    hide Rebuild;
    if c.phase == DiffData || c.phase == ExtraData {
      AtBlockEnd(g, base, c, First, rest);
    }
  }

  lemma PrependTwice(a: seq<byte>, b: seq<byte>, r: Option<seq<byte>>)
    ensures Prepend(a, Prepend(b, r)) == Prepend(a + b, r)
  {
    if r.Some? {
      assert a + (b + r.value) == a + b + r.value;
    }
  }

  /** The data of one operation. */
  lemma RebuildData(g: Geometry, base: seq<byte>, c: Cursor, k: nat, at: int, room: int, op: Op, tail: seq<byte>)
    requires |base| == g.from && AtOp(g, c, k, at, room) && Produced(op) <= room
    requires Readable(g, k, at, |op.diff|) && Packable(|op.diff|) && Packable(|op.extra|)
    ensures Rebuild(g, base, c, First, PrintSize(|op.diff|) + (op.diff + (PrintSize(|op.extra|) + (op.extra + tail))))
         == Prepend(OpData(g, base, k, at, op), Rebuild(g, base, AfterData(c, op), First, tail))
  {
    hide Rebuild, PrintSize, AddBytes;
    var d, e := |op.diff|, |op.extra|;
    var afterDiff := PrintSize(e) + (op.extra + tail);
    StepDiffSize(g, base, c, d, op.diff + afterDiff);
    var c1 := c.(phase := DiffData, chunk := d);
    RebuildDiff(g, base, c1, op.diff, afterDiff);
    var c2 := Moved(c1, d);
    StepBlockEnd(g, base, c2, afterDiff);
    StepDiffSize(g, base, c2.(phase := ExtraSize), e, op.extra + tail);
    var c3 := c2.(phase := ExtraData, chunk := e);
    RebuildExtra(g, base, c3, op.extra, tail);
    var c4 := Moved(c3, e);
    StepBlockEnd(g, base, c4, tail);
    assert c4.(phase := Adjustment) == AfterData(c, op);
    PrependTwice(AddBytes(OldBytes(g, base, k, at, d), op.diff), op.extra,
                 Rebuild(g, base, AfterData(c, op), First, tail));
  }

  lemma ConcatRight(a: seq<byte>, b: seq<byte>, c: seq<byte>, d: seq<byte>, e: seq<byte>, r: seq<byte>)
    ensures a + b + c + d + e + r == a + (b + (c + (d + (e + r))))
  {}

  lemma PrintOpParts(op: Op, rest: seq<byte>)
    ensures PrintOp(op) + rest
         == PrintSize(|op.diff|) + (op.diff + (PrintSize(|op.extra|) + (op.extra + (PrintSize(op.adjust) + rest))))
  {
    hide PrintSize;
    ConcatRight(PrintSize(|op.diff|), op.diff, PrintSize(|op.extra|), op.extra, PrintSize(op.adjust), rest);
  }

  /** Before segment `k` with `toPos` bytes written; the other fields are about to be set. */
  function BeforeSegment(k: nat, toPos: nat): Cursor {
    Cursor(DfpatchSize, toPos, 0, k, 0, 0)
  }

  lemma BeforeSegmentFields(g: Geometry, base: seq<byte>, c: Cursor, bytes: seq<byte>)
    requires |base| == g.from && c.phase == DfpatchSize
    ensures Rebuild(g, base, c, First, bytes) == Rebuild(g, base, BeforeSegment(c.index, c.toPos), First, bytes)
  {
    hide Rebuild, TakeSize;
    var t := TakeSize(First, bytes);
    AtDfpatch(g, base, c, First, bytes);
    AtDfpatch(g, base, BeforeSegment(c.index, c.toPos), First, bytes);
    if t.Some? {
      var x := c.(phase := DiffSize, index := c.index + 1, fromOffset := SourceLow(g, c.index), segPos := 0);
      AtSize(g, base, x, First, t.value.1);
      AtSize(g, base, x.(chunk := 0), First, t.value.1);
    }
  }

  /** What follows segment `k`: nothing when the image is complete, the next segment otherwise. */
  ghost function AfterSegment(g: Geometry, base: seq<byte>, k: nat, toPos: nat, rest: seq<byte>): Option<seq<byte>>
    requires |base| == g.from
  {
    if toPos == g.to then Some([]) else Rebuild(g, base, BeforeSegment(k + 1, toPos), First, rest)
  }

  lemma RebuildAdjust(g: Geometry, base: seq<byte>, c: Cursor, n: int, rest: seq<byte>)
    requires |base| == g.from && c.phase == Adjustment && c.index > 0 && Packable(n)
    ensures Rebuild(g, base, c, First, PrintSize(n) + rest)
         == if c.toPos == g.to || c.segPos == SegmentSize(g, c.index - 1) then
             AfterSegment(g, base, c.index - 1, c.toPos, rest)
            else if Int32(c.fromOffset + n) then
              Rebuild(g, base, c.(phase := DiffSize, fromOffset := c.fromOffset + n), First, rest)
            else None
  {
    hide Rebuild, TakeSize, PrintSize;
    SizeRoundTrip(n, rest);
    AtAdjustment(g, base, c, First, PrintSize(n) + rest);
    BeforeSegmentFields(g, base, c.(phase := DfpatchSize), rest);
  }

  /** The operations of one segment rebuild what `ApplyOps` says. */
  lemma {:induction false} RebuildOps(g: Geometry, base: seq<byte>, c: Cursor, k: nat, at: int, room: int, ops: seq<Op>,
                                      rest: seq<byte>)
    requires |base| == g.from && AtOp(g, c, k, at, room) && OpsFit(g, k, at, room, ops)
    ensures Rebuild(g, base, c, First, PrintOps(ops) + rest)
         == Prepend(ApplyOps(g, base, k, at, room, ops), AfterSegment(g, base, k, c.toPos + room, rest))
    decreases |ops|
  {
    hide Rebuild, AfterSegment, PrintOp, AddBytes, PrintSize;
    var op := ops[0];
    var later := PrintOps(ops[1..]) + rest;
    assert PrintOps(ops) + rest == PrintOp(op) + later;
    PrintOpParts(op, later);
    RebuildData(g, base, c, k, at, room, op, PrintSize(op.adjust) + later);
    var c' := AfterData(c, op);
    RebuildAdjust(g, base, c', op.adjust, later);
    var data := OpData(g, base, k, at, op);
    if |ops| == 1 {
      assert later == rest && data + [] == data;
      assert ApplyOps(g, base, k, at, room, ops) == data;
    } else {
      var at' := at + |op.diff| + op.adjust;
      var c'' := c'.(phase := DiffSize, fromOffset := at');
      RebuildOps(g, base, c'', k, at', room - Produced(op), ops[1..], rest);
      PrependTwice(data, ApplyOps(g, base, k, at', room - Produced(op), ops[1..]),
                   AfterSegment(g, base, k, c.toPos + room, rest));
    }
  }

  lemma StepDfpatch(g: Geometry, base: seq<byte>, k: nat, rest: seq<byte>)
    requires |base| == g.from && PAGE * k < g.to
    ensures Rebuild(g, base, BeforeSegment(k, PAGE * k), First, PrintSize(0) + rest)
         == Rebuild(g, base, Cursor(DiffSize, PAGE * k, 0, k + 1, SourceLow(g, k), 0), First, rest)
  {
    hide Rebuild, TakeSize, PrintSize;
    SizeRoundTrip(0, rest);
    AtDfpatch(g, base, BeforeSegment(k, PAGE * k), First, PrintSize(0) + rest);
  }

  /** The whole body: in-place decoding of the printed segments means out-of-place reconstruction. */
  lemma {:induction false} RebuildSegments(g: Geometry, base: seq<byte>, k: nat, segs: seq<seq<Op>>)
    requires |base| == g.from && SegmentsFit(g, k, segs) && PAGE * k < g.to
    ensures Rebuild(g, base, BeforeSegment(k, PAGE * k), First, PrintSegments(segs))
             == Some(Reconstruct(g, base, k, segs))
    decreases |segs|
  {
    hide Rebuild, ApplyOps, OpsFit, PrintOps, PrintSize;
    var later := PrintOps(segs[0]) + PrintSegments(segs[1..]);
    assert PrintSegments(segs) == PrintSize(0) + later;
    StepDfpatch(g, base, k, later);
    var at, room := SourceLow(g, k), SegmentSize(g, k);
    var c := Cursor(DiffSize, PAGE * k, 0, k + 1, at, 0);
    RebuildOps(g, base, c, k, at, room, segs[0], PrintSegments(segs[1..]));
    var data := ApplyOps(g, base, k, at, room, segs[0]);
    if PAGE * k + room == g.to {
      assert data + [] == data;
    } else {
      RebuildSegments(g, base, k + 1, segs[1..]);
    }
  }

  lemma {:induction false} ApplyOpsSize(g: Geometry, base: seq<byte>, k: nat, at: int, room: int, ops: seq<Op>)
    requires |base| == g.from && OpsFit(g, k, at, room, ops)
    ensures |ApplyOps(g, base, k, at, room, ops)| == room
    decreases |ops|
  {
    if |ops| > 1 {
      ApplyOpsSize(g, base, k, at + |ops[0].diff| + ops[0].adjust, room - Produced(ops[0]), ops[1..]);
    }
  }

  /** The segments make up an image of exactly the announced size. */
  lemma {:induction false} ReconstructSize(g: Geometry, base: seq<byte>, k: nat, segs: seq<seq<Op>>)
    requires |base| == g.from && SegmentsFit(g, k, segs) && PAGE * k <= g.to + PAGE
    ensures |Reconstruct(g, base, k, segs)| == Max(g.to - PAGE * k, 0)
    decreases |segs|
  {
    hide ApplyOps, OpsFit, Reconstruct, SegmentsFit, SegmentSize;
    if segs != [] {
      SegmentsStep(g, base, k, segs);
      ApplyOpsSize(g, base, k, SourceLow(g, k), SegmentSize(g, k), segs[0]);
      ReconstructSize(g, base, k + 1, segs[1..]);
      SegmentsLeft(g, k);
    } else {
      SegmentsEnd(g, base, k);
    }
  }

  /** The first of the segments, and those behind it. */
  lemma SegmentsStep(g: Geometry, base: seq<byte>, k: nat, segs: seq<seq<Op>>)
    requires |base| == g.from && SegmentsFit(g, k, segs) && segs != []
    ensures PAGE * k < g.to && OpsFit(g, k, SourceLow(g, k), SegmentSize(g, k), segs[0])
    ensures SegmentsFit(g, k + 1, segs[1..])
    ensures Reconstruct(g, base, k, segs)
         == ApplyOps(g, base, k, SourceLow(g, k), SegmentSize(g, k), segs[0]) + Reconstruct(g, base, k + 1, segs[1..])
  {
    hide ApplyOps, OpsFit, SegmentSize;
  }

  lemma SegmentsEnd(g: Geometry, base: seq<byte>, k: nat)
    requires |base| == g.from && SegmentsFit(g, k, [])
    ensures PAGE * k >= g.to && Reconstruct(g, base, k, []) == []
  {}

  lemma SegmentsLeft(g: Geometry, k: nat)
    requires PAGE * k < g.to
    ensures PAGE * (k + 1) <= g.to + PAGE && SegmentSize(g, k) + Max(g.to - PAGE * (k + 1), 0) == g.to - PAGE * k
  {}

  // ---- the whole patch ----------------------------------------------------

  function PrintHeader(g: Geometry): seq<byte> {
    [0x12] + PrintSize(g.memory) + PrintSize(PAGE) + PrintSize(g.shift) + PrintSize(g.from) + PrintSize(g.to)
  }

  function PrintPatch(g: Geometry, runs: seq<Run>): seq<byte> {
    PrintHeader(g) + PrintRuns(runs)
  }

  lemma HeaderRoundTrip(g: Geometry, body: seq<byte>)
    requires Packable(g.memory) && Packable(g.shift) && Packable(g.from) && Packable(g.to)
    ensures Header(1, First, (PrintHeader(g) + body)[1..]) == Some((HeaderFields(g), body))
  {
    hide PrintSize, Header;
    assert Header(6, First, body) == Some(([], body)) by { HeaderEnd(body); }
    var f5 := PrintSize(g.to) + body;
    var f4 := PrintSize(g.from) + f5;
    var f3 := PrintSize(g.shift) + f4;
    var f2 := PrintSize(PAGE) + f3;
    var f1 := PrintSize(g.memory) + f2;
    ConcatRight(PrintSize(g.memory), PrintSize(PAGE), PrintSize(g.shift), PrintSize(g.from), PrintSize(g.to), body);
    assert PrintHeader(g) + body == [0x12] + f1;
    assert (PrintHeader(g) + body)[1..] == f1;
    HeaderField(5, g.to, body, [], [g.to], body);
    HeaderField(4, g.from, f5, [g.to], [g.from, g.to], body);
    HeaderField(3, g.shift, f4, [g.from, g.to], [g.shift, g.from, g.to], body);
    HeaderField(2, PAGE, f3, [g.shift, g.from, g.to], [PAGE, g.shift, g.from, g.to], body);
    HeaderField(1, g.memory, f2, [PAGE, g.shift, g.from, g.to], HeaderFields(g), body);
  }

  lemma HeaderEnd(body: seq<byte>)
    ensures Header(6, First, body) == Some(([], body))
  {}

  lemma HeaderField(i: nat, n: nat, rest: seq<byte>, later: seq<nat>, values: seq<nat>, body: seq<byte>)
    requires i <= 5 && Packable(n) && values == [n] + later
    requires Header(i + 1, First, rest) == Some((later, body))
    ensures Header(i, First, PrintSize(n) + rest) == Some((values, body))
  {
    SizeRoundTrip(n, rest);
  }

  /**
   * A patch printed from segments that fit, its body cut into runs in any way,
   * is a well-formed patch for the out-of-place reconstruction.
   */
  lemma PrintedPatchMeans(g: Geometry, base: seq<byte>, segs: seq<seq<Op>>, runs: seq<Run>)
    requires |base| == g.from && SegmentsFit(g, 0, segs)
    requires Packable(g.memory) && Packable(g.shift) && Packable(g.from) && Packable(g.to)
    requires RunsFit(runs) && Content(runs) == PrintSegments(segs)
    ensures PatchMeans(g, base, Reconstruct(g, base, 0, segs), PrintPatch(g, runs))
  {
    hide Rebuild, Expand, Reconstruct, PrintHeader, PrintSegments, SegmentsFit;
    RunsRoundTrip(runs);
    HeaderRoundTrip(g, PrintRuns(runs));
    ReconstructSize(g, base, 0, segs);
    PrintHeaderStart(g, PrintRuns(runs));
    BodyRebuilds(g, base, segs);
    assert HeaderFields(g)[0..] == HeaderFields(g);
  }

  lemma PrintHeaderStart(g: Geometry, body: seq<byte>)
    ensures PrintHeader(g) + body != [] && (PrintHeader(g) + body)[0] == 0x12
  {}

  lemma BodyRebuilds(g: Geometry, base: seq<byte>, segs: seq<seq<Op>>)
    requires |base| == g.from && SegmentsFit(g, 0, segs)
    ensures Rebuild(g, base, StartCursor(g), First, PrintSegments(segs)) == Some(Reconstruct(g, base, 0, segs))
  {
    hide Rebuild;
    if g.to > 0 {
      RebuildSegments(g, base, 0, segs);
    } else {
      DoneRebuilds(g, base, StartCursor(g), First, PrintSegments(segs));
    }
  }
}
