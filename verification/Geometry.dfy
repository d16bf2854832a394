/**
 * The pre-flight check of a delta's header, made while the running application
 * is still intact. It has its own size decoder, wider than the decoder's.
 */
module PreFlight {
  import opened Bytes
  import opened Flash
  import opened Cache
  import opened CrleStream
  import opened Delta
  import opened Decoder
  import opened PatchFormat

  const ENDF_LEN: u32 := 56

  /** The size spelled at the start of `bytes` however long its encoding is, and the bytes behind it. */
  ghost function SpelledSize(bytes: seq<byte>): Option<(nat, seq<byte>)> {
    if bytes == [] then None
    else if Continues(bytes[0]) then SpelledTail(bytes[0] % 0x40, 6, bytes[1..])
    else Some((bytes[0] % 0x40 as nat, bytes[1..]))
  }

  ghost function SpelledTail(v: nat, o: nat, bytes: seq<byte>): (r: Option<(nat, seq<byte>)>)
    ensures r.Some? ==> |r.value.1| < |bytes| && r.value.1 == bytes[|bytes| - |r.value.1|..]
    decreases |bytes|
  {
    if bytes == [] then None
    else if Continues(bytes[0]) then SpelledTail(Place(v, bytes[0], o), o + 7, bytes[1..])
    else Some((Place(v, bytes[0], o), bytes[1..]))
  }

  /** `n` sizes in a row. */
  ghost function SpelledSizes(n: nat, bytes: seq<byte>): Option<(seq<nat>, seq<byte>)> {
    if n == 0 then Some(([], bytes))
    else
      var t := SpelledSize(bytes);
      if t.None? then None
      else
        var more := SpelledSizes(n - 1, t.value.1);
        if more.None? then None else Some(([t.value.0] + more.value.0, more.value.1))
  }

  /** The decoder reads the tail of a size as it is spelled, as long as the encoding stays short enough. */
  lemma {:induction false} TailAgrees(v: nat, o: nat, neg: bool, bytes: seq<byte>)
    requires SpelledTail(v, o, bytes).Some?
    requires o == 6 || o == 13 || o == 20 || o >= 27
    ensures var t := SpelledTail(v, o, bytes).value;
            TakeSize(Consecutive(v, o, neg), bytes)
            == if o + 7 * (|bytes| - |t.1|) <= 27 then Some((if neg then 0 - t.0 else t.0, t.1)) else None
    decreases |bytes|
  {
    hide Place;
    if !IsOverflow(o) && Continues(bytes[0]) {
      TailAgrees(Place(v, bytes[0], o), o + 7, neg, bytes[1..]);
    }
  }

  /**
   * A size accepted by the check is either the size the decoder will read, or
   * one the decoder refuses as an overflow; it is read exactly when it is
   * spelled in at most four bytes.
   */
  lemma SizeAgrees(bytes: seq<byte>)
    requires SpelledSize(bytes).Some?
    ensures var t := SpelledSize(bytes).value;
            var d := TakeSize(First, bytes);
            && (d.Some? <==> |bytes| - |t.1| <= 4)
            && (d.Some? ==> Abs(d.value.0) == t.0 && d.value.1 == t.1)
  {
    if Continues(bytes[0]) {
      TailAgrees(bytes[0] % 0x40, 6, bytes[0] / 0x40 % 2 == 1, bytes[1..]);
    }
  }

  /** A tail that goes on too long ends in an overflow, whatever its value. */
  lemma {:induction false} TailTooLong(v: nat, o: nat, neg: bool, bytes: seq<byte>)
    requires SpelledTail(v, o, bytes).Some? && (o == 6 || o == 13 || o == 20 || o >= 27)
    requires o + 7 * (|bytes| - |SpelledTail(v, o, bytes).value.1|) > 27
    ensures TooLong(Consecutive(v, o, neg), bytes)
    decreases |bytes|
  {
    if !IsOverflow(o) {
      TailTooLong(Place(v, bytes[0], o), o + 7, neg, bytes[1..]);
    }
  }

  lemma SizeTooLong(bytes: seq<byte>)
    requires SpelledSize(bytes).Some? && |bytes| - |SpelledSize(bytes).value.1| > 4
    ensures TooLong(First, bytes)
  {
    TailTooLong(bytes[0] % 0x40, 6, bytes[0] / 0x40 % 2 == 1, bytes[1..]);
  }

  /** Each of `n` sizes in a row is spelled in at most four bytes. */
  ghost predicate ShortSizes(n: nat, bytes: seq<byte>) {
    n == 0
    || (SpelledSize(bytes).Some? && |bytes| - |SpelledSize(bytes).value.1| <= 4
      && ShortSizes(n - 1, SpelledSize(bytes).value.1))
  }

  /**
   * So for the sizes of a header: the decoder reads them all, as the check
   * does, exactly when each is spelled in at most four bytes; otherwise it
   * stops with an overflow.
   */
  lemma {:induction false} HeaderAgrees(i: nat, bytes: seq<byte>)
    requires i <= 6 && SpelledSizes(6 - i, bytes).Some?
    ensures Header(i, First, bytes).Some? <==> ShortSizes(6 - i, bytes)
    ensures ShortSizes(6 - i, bytes) ==> Header(i, First, bytes) == SpelledSizes(6 - i, bytes)
    ensures !ShortSizes(6 - i, bytes) ==> HeaderDoomed(i, First, bytes)
    decreases 6 - i
  {
    hide SpelledSize, TakeSize, TooLong;
    if i < 6 {
      SizeAgrees(bytes);
      if |bytes| - |SpelledSize(bytes).value.1| <= 4 {
        HeaderAgrees(i + 1, SpelledSize(bytes).value.1);
      } else {
        SizeTooLong(bytes);
      }
    }
  }

  /** Whatever the decoder reads is spelled, in at most four bytes. */
  lemma {:induction false} TailSpelled(v: nat, o: nat, neg: bool, bytes: seq<byte>)
    requires TakeSize(Consecutive(v, o, neg), bytes).Some?
    ensures SpelledTail(v, o, bytes).Some?
    decreases |bytes|
  {
    if Continues(bytes[0]) {
      TailSpelled(Place(v, bytes[0], o), o + 7, neg, bytes[1..]);
    }
  }

  lemma TakenIsSpelled(bytes: seq<byte>)
    requires TakeSize(First, bytes).Some?
    ensures SpelledSize(bytes).Some? && |bytes| - |SpelledSize(bytes).value.1| <= 4
    ensures SpelledSize(bytes).value == (Abs(TakeSize(First, bytes).value.0), TakeSize(First, bytes).value.1)
  {
    if Continues(bytes[0]) {
      TailSpelled(bytes[0] % 0x40, 6, bytes[0] / 0x40 % 2 == 1, bytes[1..]);
    }
    SizeAgrees(bytes);
  }

  // ---- what the check accepts ---------------------------------------------

  const MAX_SIZE: u32 := 0x7FFF_FFFF

  /** The size at the start, if the check takes it: at most five bytes, and a value that fits a signed integer. */
  ghost function CheckedSize(bytes: seq<byte>): (r: Option<(nat, seq<byte>)>) {
    var t := SpelledSize(bytes);
    if t.Some? && |bytes| - |t.value.1| <= 5 && t.value.0 <= 0x7FFF_FFFF then t else None
  }

  ghost function CheckedSizes(n: nat, bytes: seq<byte>): (r: Option<(seq<nat>, seq<byte>)>)
    ensures r.Some? ==> |r.value.0| == n
  {
    if n == 0 then Some(([], bytes))
    else
      var t := CheckedSize(bytes);
      if t.None? then None
      else
        var more := CheckedSizes(n - 1, t.value.1);
        if more.None? then None else Some(([t.value.0] + more.value.0, more.value.1))
  }

  lemma {:induction false} CheckedIsSpelled(n: nat, bytes: seq<byte>)
    requires CheckedSizes(n, bytes).Some?
    ensures SpelledSizes(n, bytes) == CheckedSizes(n, bytes)
  {
    hide SpelledSize;
    if n > 0 {
      CheckedIsSpelled(n - 1, CheckedSize(bytes).value.1);
    }
  }

  /** The five sizes describe a workspace this installation has room for. */
  predicate GeometryValuesOk(imageSize: u32, bodyLen: u32, span: u32, fixed: byte,
                             memory: nat, segment: nat, shift: nat, from: nat, to: nat) {
    && fixed / 0x10 % 8 == PATCH_TYPE_IN_PLACE && fixed % 0x10 == COMPRESSION_CRLE
    && !(memory == 0 || memory > span || segment != PAGE || shift > memory || shift % segment != 0
         || from > memory - shift || to > memory)
    && bodyLen <= U32_MAX - ENDF_LEN && from == bodyLen + ENDF_LEN
    && to == imageSize && to <= span
  }

  /**
   * The values accepted, in plain arithmetic: an in-place patch compressed by
   * runs; whole pages shifted, with the old body and its trailer above the
   * shift and the new image inside the memory, and the memory inside the workspace.
   */
  lemma ValuesOkIff(imageSize: u32, bodyLen: u32, span: u32, fixed: byte, memory: nat, segment: nat, shift: nat,
                    from: nat, to: nat)
    ensures GeometryValuesOk(imageSize, bodyLen, span, fixed, memory, segment, shift, from, to)
       <==> (fixed == 0x12 || fixed == 0x92) && segment == 0x1000 && shift % 0x1000 == 0
            && 0 < memory <= span && shift + from <= memory && to <= memory
            && from == bodyLen as int + 56 <= 0xFFFF_FFFF && to == imageSize
  {}

  /** Every geometry the decoder works in is accepted for the image and the body it is made for. */
  lemma FittingIsAccepted(g: Geometry, bodyLen: u32, span: u32)
    requires GeometryFits(g, span) && 0 < g.memory && g.to <= g.memory && g.from == bodyLen as int + 56 <= 0xFFFF_FFFF
    ensures GeometryValuesOk(g.to, bodyLen, span, 0x12, g.memory, 0x1000, g.shift, g.from, g.to)
  {
    ValuesOkIff(g.to, bodyLen, span, 0x12, g.memory, 0x1000, g.shift, g.from, g.to);
  }

  /** A patch whose header the check accepts. */
  ghost predicate Accepted(payload: seq<byte>, imageSize: u32, bodyLen: u32, span: u32) {
    && |payload| >= 2 && CheckedSizes(5, payload[1..]).Some?
    && var v := CheckedSizes(5, payload[1..]).value.0;
       GeometryValuesOk(imageSize, bodyLen, span, payload[0], v[0], v[1], v[2], v[3], v[4])
  }

  ghost function AcceptedSizes(payload: seq<byte>, imageSize: u32, bodyLen: u32, span: u32): Geometry
    requires Accepted(payload, imageSize, bodyLen, span)
  {
    var v := CheckedSizes(5, payload[1..]).value.0;
    Geometry(v[0], v[2], v[3], v[4])
  }

  lemma PowersOf2()
    ensures Pow2(6) == 0x40 && Pow2(13) == 0x2000 && Pow2(20) == 0x10_0000 && Pow2(27) == 0x800_0000
  {}

  /** The guard on the seven bits: shifted, they would not fit 32 bits. */
  predicate NoRoom(b: byte, shift: nat) {
    b % 0x80 > 0xFFFF_FFFF / Pow2(shift)
  }

  lemma ShiftIs(k: nat, shift: nat)
    requires shift == 6 + 7 * k && k <= 4
    ensures shift == 6 || shift == 13 || shift == 20 || shift == 27 || (shift == 34 && k == 4)
  {}

  /** The guard on the seven bits keeps the value inside 32 bits. */
  lemma ShiftFits32(v: nat, b: byte, shift: nat)
    requires v < Pow2(shift) && (shift == 6 || shift == 13 || shift == 20 || shift == 27)
    requires !NoRoom(b, shift)
    ensures Place(v, b, shift) < Pow2(shift + 7) && Place(v, b, shift) < 0x1_0000_0000
  {
    PowersOf2();
    assert Pow2(shift + 7) == 0x80 * Pow2(shift) by {
      assert Pow2(shift + 7) == 2 * Pow2(shift + 6) == 4 * Pow2(shift + 5) == 8 * Pow2(shift + 4)
          == 16 * Pow2(shift + 3);
      assert Pow2(shift + 3) == 2 * Pow2(shift + 2) == 4 * Pow2(shift + 1) == 8 * Pow2(shift);
    }
  }

  lemma {:induction false} TailGrows(v: nat, o: nat, bytes: seq<byte>)
    ensures SpelledTail(v, o, bytes).Some? ==> SpelledTail(v, o, bytes).value.0 >= v
    decreases |bytes|
  {
    if bytes != [] && Continues(bytes[0]) {
      TailGrows(Place(v, bytes[0], o), o + 7, bytes[1..]);
    }
  }

  lemma TailByte(v: nat, o: nat, b: byte, rest: seq<byte>)
    ensures SpelledTail(v, o, [b] + rest)
         == if Continues(b) then SpelledTail(Place(v, b, o), o + 7, rest) else Some((Place(v, b, o), rest))
  {
    assert ([b] + rest)[1..] == rest;
  }

  /** A guard that fails stands before a value too large for 32 bits. */
  lemma GuardIsExact(v: nat, b: byte, shift: nat)
    requires NoRoom(b, shift) && (shift == 6 || shift == 13 || shift == 20 || shift == 27)
    ensures Place(v, b, shift) >= 0x1_0000_0000
  {
    PowersOf2();
  }

  lemma NoTail(v: nat, o: nat)
    ensures SpelledTail(v, o, []).None?
  {}

  /** One byte of a staged patch; reading it may fail on an unreliable medium. */
  method ReadByte(payload: seq<byte>, at: nat, reliable: bool) returns (ok: bool, b: byte)
    requires at < |payload|
    ensures ok ==> b == payload[at]
    ensures reliable ==> ok
  {
    ok := reliable;
    if !ok {
      ok := *;
    }
    b := payload[at];
  }

  /** The bytes of a size behind its first one. */
  method HeaderTail(payload: seq<byte>, from: nat, first: byte, reliable: bool) returns (ok: bool, next: nat, v: u32)
    requires from <= |payload| && Continues(first)
    ensures ok ==> from < next <= |payload| && next - from <= 4
    ensures ok ==> SpelledTail(first % 0x40, 6, payload[from..]) == Some((v, payload[next..]))
    ensures var t := SpelledTail(first % 0x40, 6, payload[from..]);
            reliable && !ok ==> t.None? || |payload| - from - |t.value.1| > 4 || t.value.0 > U32_MAX
  {
    hide SpelledTail, Place, Pow2, NoRoom;
    ghost var want := SpelledTail(first % 0x40, 6, payload[from..]);
    v, next, ok := first % 0x40, from, true;
    var b: byte, shift: nat := first, 6;
    PowersOf2();
    while Continues(b)
      invariant from <= next <= |payload| && shift == 6 + 7 * (next - from) && next - from <= 4
      invariant v < Pow2(shift)
      invariant want == if Continues(b) then SpelledTail(v, shift, payload[next..]) else Some((v, payload[next..]))
      invariant next == from ==> Continues(b)
      decreases |payload| - next
    {
      if next >= |payload| {
        assert payload[next..] == [];
        NoTail(v, shift);
        return false, next, v;
      }
      ok, b := ReadByte(payload, next, reliable);
      if !ok {
        return;
      }
      assert payload[next..] == [b] + payload[next + 1..];
      ShiftIs(next - from, shift);
      TailByte(v, shift, b, payload[next + 1..]);
      next := next + 1;
      if shift >= 32 || NoRoom(b, shift) {
        TailRefused(v, shift, b, payload[next..], want);
        return false, next, v;
      }
      ShiftFits32(v, b, shift);
      v := Place(v, b, shift);
      shift := shift + 7;
    }
  }

  /** Why a byte of a tail is refused: a sixth byte, or a value beyond 32 bits. */
  lemma TailRefused(v: nat, shift: nat, b: byte, rest: seq<byte>, want: Option<(nat, seq<byte>)>)
    requires shift >= 32 || ((shift == 6 || shift == 13 || shift == 20 || shift == 27) && NoRoom(b, shift))
    requires want == if Continues(b) then SpelledTail(Place(v, b, shift), shift + 7, rest)
              else Some((Place(v, b, shift), rest))
    ensures want.Some? ==> |want.value.1| <= |rest| && (shift < 32 ==> want.value.0 > U32_MAX)
  {
    TailGrows(Place(v, b, shift), shift + 7, rest);
    if shift < 32 {
      GuardIsExact(v, b, shift);
    }
  }

  /** Reads one size, refusing values that do not fit a signed 32-bit integer. */
  method HeaderU32(payload: seq<byte>, pos: nat, reliable: bool) returns (ok: bool, next: nat, value: u32)
    requires pos <= |payload|
    ensures ok ==> pos < next <= |payload| && CheckedSize(payload[pos..]) == Some((value, payload[next..]))
    ensures reliable ==> (ok <==> CheckedSize(payload[pos..]).Some?)
  {
    hide SpelledTail;
    next, value := pos, 0;
    if next >= |payload| {
      assert payload[pos..] == [];
      return false, next, value;
    }
    var b;
    ok, b := ReadByte(payload, next, reliable);
    if !ok {
      return;
    }
    next := next + 1;
    assert payload[pos..][1..] == payload[next..];
    value := b % 0x40;
    if Continues(b) {
      ok, next, value := HeaderTail(payload, next, b, reliable);
      if !ok {
        return;
      }
    }
    ok := value <= MAX_SIZE;
  }

  /** The check as a whole: the fixed byte and five sizes in a row. */
  method GeometryOk(payload: seq<byte>, imageSize: u32, bodyLen: u32, span: u32, reliable: bool) returns (ok: bool)
    ensures ok ==> Accepted(payload, imageSize, bodyLen, span)
    ensures reliable ==> (ok <==> Accepted(payload, imageSize, bodyLen, span))
    ensures reliable && |payload| >= 2 && CheckedSizes(5, payload[1..]).Some? ==>
              var v := CheckedSizes(5, payload[1..]).value.0;
              (ok <==> (payload[0] == 0x12 || payload[0] == 0x92) && v[1] == 0x1000 && v[2] % 0x1000 == 0
                       && 0 < v[0] <= span && v[2] + v[3] <= v[0] && v[4] <= v[0]
                       && v[3] == bodyLen as int + 56 <= 0xFFFF_FFFF && v[4] == imageSize)
  {
    hide GeometryValuesOk, CheckedSizes;
    if |payload| < 2 {
      return false;
    }
    var fixed;
    ok, fixed := ReadByte(payload, 0, reliable);
    if !ok {
      return;
    }
    var sizes;
    ok, sizes := ReadSizes(payload, reliable);
    if !ok {
      return;
    }
    ValuesOkIff(imageSize, bodyLen, span, fixed, sizes[0], sizes[1], sizes[2], sizes[3], sizes[4]);
    ok := GeometryValuesOk(imageSize, bodyLen, span, fixed, sizes[0], sizes[1], sizes[2], sizes[3], sizes[4]);
  }

  /** Memory, segment, shift, from and to, one after the other. */
  method ReadSizes(payload: seq<byte>, reliable: bool) returns (ok: bool, sizes: seq<u32>)
    requires |payload| >= 2
    ensures ok ==> CheckedSizes(5, payload[1..]).Some? && CheckedSizes(5, payload[1..]).value.0 == sizes
    ensures reliable ==> (ok <==> CheckedSizes(5, payload[1..]).Some?)
  {
    hide CheckedSize;
    sizes := [];
    var p := 1;
    PrependNoSizes(CheckedSizes(5, payload[1..]));
    for i := 0 to 5
      invariant |sizes| == i && 1 <= p <= |payload|
      invariant CheckedSizes(5, payload[1..]) == PrependSizes(sizes, CheckedSizes(5 - i, payload[p..]))
    {
      hide CheckedSizes;
      var next, value;
      ok, next, value := HeaderU32(payload, p, reliable);
      CheckedStep(5 - i, payload[p..]);
      if !ok {
        return;
      }
      PrependSizesStep(sizes, value, CheckedSizes(5 - i - 1, payload[next..]));
      sizes := sizes + [value];
      p := next;
    }
    ok := true;
    assert sizes + [] == sizes;
  }

  lemma CheckedStep(n: nat, bytes: seq<byte>)
    requires n > 0
    ensures CheckedSizes(n, bytes)
            == var t := CheckedSize(bytes);
               if t.None? then None
               else
                 var more := CheckedSizes(n - 1, t.value.1);
                 if more.None? then None else Some(([t.value.0] + more.value.0, more.value.1))
  {
    hide CheckedSize;
  }

  ghost function PrependSizes(sizes: seq<nat>, r: Option<(seq<nat>, seq<byte>)>): Option<(seq<nat>, seq<byte>)> {
    if r.None? then None else Some((sizes + r.value.0, r.value.1))
  }

  lemma PrependNoSizes(r: Option<(seq<nat>, seq<byte>)>)
    ensures PrependSizes([], r) == r
  {
    if r.Some? {
      assert [] + r.value.0 == r.value.0;
    }
  }

  lemma PrependSizesStep(sizes: seq<nat>, n: nat, r: Option<(seq<nat>, seq<byte>)>)
    ensures PrependSizes(sizes, if r.None? then None else Some(([n] + r.value.0, r.value.1)))
             == PrependSizes(sizes + [n], r)
  {
    if r.Some? {
      assert sizes + ([n] + r.value.0) == sizes + [n] + r.value.0;
    }
  }

  /**
   * What the check buys for a page-multiple workspace: the geometry the
   * decoder needs, the shifted image rounded up to whole pages included. A
   * shift of zero is not excluded.
   */
  lemma AcceptedGeometry(g: Geometry, imageSize: u32, bodyLen: u32, span: u32, fixed: byte)
    requires span % PAGE == 0 && span <= 0x4000_0000
    requires GeometryValuesOk(imageSize, bodyLen, span, fixed, g.memory, PAGE, g.shift, g.from, g.to)
    ensures g.shift + RoundUp(g.from) <= span
    ensures GeometryFits(g, span)
  {
    ValuesMean(g, imageSize, bodyLen, span, fixed);
    hide GeometryValuesOk;
    ShiftedFits(g.shift, g.from, span);
  }

  lemma ValuesMean(g: Geometry, imageSize: u32, bodyLen: u32, span: u32, fixed: byte)
    requires GeometryValuesOk(imageSize, bodyLen, span, fixed, g.memory, PAGE, g.shift, g.from, g.to)
    ensures g.shift % PAGE == 0 && g.shift <= g.memory && g.from <= g.memory - g.shift && g.memory <= span
    ensures g.to <= span
  {}

  /** Above a whole-page shift the image ends with a whole page of a whole-page workspace. */
  lemma ShiftedFits(shift: nat, from: nat, span: nat)
    requires shift % PAGE == 0 && span % PAGE == 0 && shift + from <= span
    ensures shift + RoundUp(from) <= span
  {
    RoundUpInside(shift + from, span);
    PageUnique(shift + from, shift + RoundUp(from));
  }

  /**
   * Whatever the check accepted, the decoder reads the same five sizes, or
   * stops with an overflow inside the header: the first exactly when each size
   * is spelled in at most four bytes.
   */
  lemma AcceptedHeader(payload: seq<byte>, imageSize: u32, bodyLen: u32, span: u32)
    requires Accepted(payload, imageSize, bodyLen, span)
    ensures var h := Header(1, First, payload[1..]);
            && (h.Some? <==> ShortSizes(5, payload[1..]))
            && (h.Some? ==> h.value.0 == HeaderFields(AcceptedSizes(payload, imageSize, bodyLen, span)))
            && (h.None? ==> PatchDoomed(payload))
  {
    hide CheckedSizes, Header, HeaderDoomed, ShortSizes;
    CheckedIsSpelled(5, payload[1..]);
    HeaderAgrees(1, payload[1..]);
  }

  /** What the decoder can read, the check can. */
  lemma {:induction false} ReadableIsChecked(i: nat, bytes: seq<byte>)
    requires i <= 6 && Header(i, First, bytes).Some? && forall n | n in Header(i, First, bytes).value.0 :: n <= MAX_SIZE
    ensures CheckedSizes(6 - i, bytes) == Header(i, First, bytes)
    decreases 6 - i
  {
    hide TakeSize, SpelledSize;
    if i < 6 {
      TakenIsSpelled(bytes);
      var t := TakeSize(First, bytes).value;
      var h, more := Header(i, First, bytes).value.0, Header(i + 1, First, t.1).value.0;
      assert h == [Abs(t.0)] + more;
      assert h[0] in h && forall n | n in more :: n in h;
      ReadableIsChecked(i + 1, t.1);
    }
  }

  /** Of the headers as they are printed, the check accepts exactly those whose numbers pass. */
  lemma PrintedIsAcceptedIff(g: Geometry, body: seq<byte>, imageSize: u32, bodyLen: u32, span: u32)
    requires Packable(g.memory) && Packable(g.shift) && Packable(g.from) && Packable(g.to)
    ensures Accepted(PrintHeader(g) + body, imageSize, bodyLen, span)
       <==> g.shift % 0x1000 == 0 && 0 < g.memory <= span && g.shift + g.from <= g.memory && g.to <= g.memory
            && g.from == bodyLen as int + 56 <= 0xFFFF_FFFF && g.to == imageSize
  {
    hide Header, CheckedSizes, GeometryValuesOk, PrintHeader;
    var payload := PrintHeader(g) + body;
    HeaderRoundTrip(g, body);
    HeaderStarts(g, body);
    ReadableIsChecked(1, payload[1..]);
    ValuesOkIff(imageSize, bodyLen, span, 0x12, g.memory, 0x1000, g.shift, g.from, g.to);
  }

  lemma HeaderStarts(g: Geometry, body: seq<byte>)
    ensures |PrintHeader(g) + body| >= 2 && (PrintHeader(g) + body)[0] == 0x12
  {}

  /** A shift of zero is accepted, although it erases what it should move. */
  lemma ZeroShiftAccepted(body: seq<byte>)
    ensures Accepted(PrintHeader(Geometry(0x2000, 0, 100, 200)) + body, 200, 44, 0x2000)
  {
    hide Accepted, PrintHeader;
    PrintedIsAcceptedIff(Geometry(0x2000, 0, 100, 200), body, 200, 44, 0x2000);
  }

  /** An accepted header that the decoder cannot read: the memory size is spelled in five bytes. */
  lemma AcceptedYetDoomed()
    ensures var payload := [0x12] + ([0x80, 0x80, 0x81, 0x80, 0x00] + SmallSizes());
            Accepted(payload, 200, 44, 0x2000) && PatchDoomed(payload)
  {
    hide SpelledSize, PrintSize, TooLong, TakeSize, CheckedSize, CheckedSizes;
    var s5 := PrintSize(200);
    var s4 := PrintSize(100) + s5;
    var s3 := PrintSize(0x1000) + s4;
    var s1 := [0x80, 0x80, 0x81, 0x80, 0x00] + SmallSizes();
    var payload := [0x12] + s1;
    assert payload[1..] == s1 && payload[0] == 0x12;
    FiveByteSize(SmallSizes());
    PrintedIsChecked(0x1000, s3);
    PrintedIsChecked(0x1000, s4);
    PrintedIsChecked(100, s5);
    assert s5 + [] == s5;
    PrintedIsChecked(200, []);
    FiveChecked(s1, SmallSizes(), s3, s4, s5);
  }

  function SmallSizes(): seq<byte> {
    PrintSize(0x1000) + (PrintSize(0x1000) + (PrintSize(100) + PrintSize(200)))
  }

  lemma FiveChecked(s1: seq<byte>, s2: seq<byte>, s3: seq<byte>, s4: seq<byte>, s5: seq<byte>)
    requires CheckedSize(s1) == Some((0x2000, s2)) && CheckedSize(s2) == Some((0x1000, s3))
    requires CheckedSize(s3) == Some((0x1000, s4))
    requires CheckedSize(s4) == Some((100, s5)) && CheckedSize(s5) == Some((200, []))
    ensures CheckedSizes(5, s1) == Some(([0x2000, 0x1000, 0x1000, 100, 200], []))
  {
    hide CheckedSize, CheckedSizes;
    CheckedNone();
    assert [200] + [] == [200] && [100] + [200] == [100, 200] && [0x1000] + [100, 200] == [0x1000, 100, 200];
    assert [0x1000] + [0x1000, 100, 200] == [0x1000, 0x1000, 100, 200];
    assert [0x2000] + [0x1000, 0x1000, 100, 200] == [0x2000, 0x1000, 0x1000, 100, 200];
    CheckedNext(0, s5, 200, [], []);
    CheckedNext(1, s4, 100, s5, [200]);
    CheckedNext(2, s3, 0x1000, s4, [100, 200]);
    CheckedNext(3, s2, 0x1000, s3, [0x1000, 100, 200]);
    CheckedNext(4, s1, 0x2000, s2, [0x1000, 0x1000, 100, 200]);
  }

  lemma CheckedNone()
    ensures CheckedSizes(0, []) == Some(([], []))
  {}

  lemma CheckedNext(n: nat, bytes: seq<byte>, value: nat, rest: seq<byte>, values: seq<nat>)
    requires CheckedSize(bytes) == Some((value, rest)) && CheckedSizes(n, rest) == Some((values, []))
    ensures CheckedSizes(n + 1, bytes) == Some(([value] + values, []))
  {
    hide CheckedSize;
  }

  lemma PrintedIsChecked(n: nat, rest: seq<byte>)
    requires n < 0x800_0000
    ensures CheckedSize(PrintSize(n) + rest) == Some((n, rest))
  {
    hide SpelledSize, PrintSize, TakeSize;
    SizeRoundTrip(n, rest);
    TakenIsSpelled(PrintSize(n) + rest);
  }

  lemma FiveByteSize(rest: seq<byte>)
    ensures var bytes := [0x80, 0x80, 0x81, 0x80, 0x00] + rest;
            CheckedSize(bytes) == Some((0x2000, rest)) && TooLong(First, bytes)
  {
    var bytes := [0x80, 0x80, 0x81, 0x80, 0x00] + rest;
    hide SpelledTail, Place, TooLong;
    PowersOf2();
    assert bytes[1..] == [0x80] + ([0x81] + ([0x80] + ([0x00] + rest)));
    TailByte(0, 6, 0x80, [0x81] + ([0x80] + ([0x00] + rest)));
    TailByte(0, 13, 0x81, [0x80] + ([0x00] + rest));
    PlaceValues();
    TailByte(0x2000, 20, 0x80, [0x00] + rest);
    TailByte(0x2000, 27, 0x00, rest);
    SizeTooLong(bytes);
  }

  lemma PlaceValues()
    ensures Place(0, 0x80, 6) == 0 && Place(0, 0x81, 13) == 0x2000 && Place(0x2000, 0x80, 20) == 0x2000
    ensures Place(0x2000, 0, 27) == 0x2000
  {
    hide Pow2, Place;
    PowersOf2();
    PlaceIs(0, 0x80, 6, 0x40);
    PlaceIs(0, 0x81, 13, 0x2000);
    PlaceIs(0x2000, 0x80, 20, 0x10_0000);
    PlaceIs(0x2000, 0, 27, 0x800_0000);
  }

  lemma PlaceIs(v: nat, b: byte, offset: nat, power: nat)
    requires Pow2(offset) == power
    ensures Place(v, b, offset) == v + b % 0x80 * power
  {}
}
