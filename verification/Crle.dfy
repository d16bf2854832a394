/**
 * The conditional run-length stream that carries the body of a patch, and the
 * resumable reader that decodes it from whatever chunks the patch arrives in.
 *
 * A stream is a sequence of runs: kind 0 is a size and that many literal
 * bytes, kind 1 a size and one byte to repeat. The reader may run out of chunk
 * between any two bytes; `future` stands for the bytes of later chunks. A run
 * of length zero makes one call succeed without a byte; in the expansion of a
 * stream it shows as a gap.
 */
module CrleStream {
  import opened Bytes

  /** A byte of an expanded stream, or the place of an empty run. */
  type item = i: int | 0 <= i <= 0x100

  const GAP: item := 0x100

  const OK: int := 0
  const MORE_INPUT: int := 1
  const AGAIN: int := 2
  const CORRUPT_PATCH_OVERFLOW: int := -25
  const CORRUPT_PATCH_CRLE_KIND: int := -26

  function Pow2(n: nat): (r: nat)
    ensures r > 0
  {
    if n == 0 then 1 else 2 * Pow2(n - 1)
  }

  /** No further seven bits fit a signed 32-bit value at this offset. */
  predicate IsOverflow(offset: int) {
    offset + 7 > 32
  }

  /** `v` with the seven payload bits of `b` placed at `offset`; those bits of `v` are still clear. */
  function Place(v: nat, b: item, offset: nat): nat {
    v + b % 0x80 * Pow2(offset)
  }

  predicate Continues(b: item) {
    b >= 0x80
  }

  datatype Crle =
    | Idle
    | ScatteredSize(value: nat, offset: nat)
    | ScatteredData(left: nat)
    | RepeatedSize(value: nat, offset: nat)
    | RepeatedData(left: nat)
    | RepeatedRead(left: nat, byteValue: byte)

  /**
   * The error that the next run of `input` comes to before it has any data: -26
   * for a kind that does not exist, -25 for a size of more than five bytes.
   */
  ghost function RunFault(c: Crle, input: seq<byte>): Option<int>
    decreases |input|
  {
    if input == [] then None
    else
      match c
      case Idle =>
        if input[0] == 0 then RunFault(ScatteredSize(0, 0), input[1..])
        else if input[0] == 1 then RunFault(RepeatedSize(0, 0), input[1..])
        else Some(-26)
      case ScatteredSize(v, o) =>
        if IsOverflow(o) then Some(-25)
        else if Continues(input[0]) then RunFault(ScatteredSize(Place(v, input[0], o), o + 7), input[1..])
        else None
      case RepeatedSize(v, o) =>
        if IsOverflow(o) then Some(-25)
        else if Continues(input[0]) then RunFault(RepeatedSize(Place(v, input[0], o), o + 7), input[1..])
        else None
      case _ => None
  }

  function AfterScattered(left: nat): Crle {
    if left == 0 then Idle else ScatteredData(left)
  }

  /**
   * Everything the reader in state `c` will ever deliver for `input`, with a
   * gap at every empty run, up to the first malformed run or the end of the
   * input. An empty literal run is noticed only when more input is there.
   */
  ghost function Expand(c: Crle, input: seq<byte>): seq<item>
    decreases |input|, if c.RepeatedRead? || c.ScatteredData? then 1 else 0
  {
    match c
    case Idle =>
      if input == [] then []
      else if input[0] == 0 then Expand(ScatteredSize(0, 0), input[1..])
      else if input[0] == 1 then Expand(RepeatedSize(0, 0), input[1..])
      else []
    case ScatteredSize(v, o) =>
      if input == [] || IsOverflow(o) then []
      else if Continues(input[0]) then Expand(ScatteredSize(Place(v, input[0], o), o + 7), input[1..])
      else Expand(ScatteredData(Place(v, input[0], o)), input[1..])
    case ScatteredData(left) =>
      if input == [] then []
      else if left == 0 then [GAP] + Expand(Idle, input)
      else [input[0]] + Expand(AfterScattered(left - 1), input[1..])
    case RepeatedSize(v, o) =>
      if input == [] || IsOverflow(o) then []
      else if Continues(input[0]) then Expand(RepeatedSize(Place(v, input[0], o), o + 7), input[1..])
      else Expand(RepeatedData(Place(v, input[0], o)), input[1..])
    case RepeatedData(left) =>
      if input == [] then [] else Expand(RepeatedRead(left, input[0]), input[1..])
    case RepeatedRead(left, b) =>
      (if left == 0 then [GAP] else Fill(left, b)) + Expand(Idle, input)
  }

  /** What one successful call consumes of the expansion: its bytes, or one gap. */
  function Served(data: seq<byte>): seq<item> {
    if data == [] then [GAP] else data
  }

  /** The bytes of an expansion. */
  function Plain(items: seq<item>): seq<byte> {
    if items == [] then []
    else if items[0] == GAP then Plain(items[1..])
    else [items[0]] + Plain(items[1..])
  }

  lemma {:induction false} PlainJoin(a: seq<item>, b: seq<item>)
    ensures Plain(a + b) == Plain(a) + Plain(b)
    decreases |a|
  {
    if a == [] {
      assert a + b == b;
    } else {
      assert (a + b)[1..] == a[1..] + b && (a + b)[0] == a[0];
      PlainJoin(a[1..], b);
    }
  }

  lemma {:induction false} PlainBytes(data: seq<byte>)
    ensures Plain(data) == data
    decreases |data|
  {
    if data != [] {
      PlainBytes(data[1..]);
    }
  }

  lemma PlainServed(data: seq<byte>, rest: seq<item>)
    ensures Plain(Served(data) + rest) == data + Plain(rest)
  {
    PlainJoin(Served(data), rest);
    PlainBytes(data);
    assert Plain([GAP]) == Plain([GAP][1..]) == [];
  }

  /** A block of literals leaves the expansion of what follows untouched. */
  lemma {:induction false} ExpandScattered(left: nat, input: seq<byte>, n: nat)
    requires 0 < n <= left && n <= |input|
    ensures Expand(ScatteredData(left), input) == input[..n] + Expand(AfterScattered(left - n), input[n..])
  {
    if n == 1 {
      assert input[..1] == [input[0]];
    } else {
      ExpandScattered(left - 1, input[1..], n - 1);
      assert input[1..][n - 1..] == input[n..];
      assert [input[0]] + input[1..][..n - 1] == input[..n];
      assert [input[0]] + (input[1..][..n - 1] + Expand(AfterScattered(left - n), input[n..]))
          == ([input[0]] + input[1..][..n - 1]) + Expand(AfterScattered(left - n), input[n..]);
    }
  }

  /** One call takes bytes of a run, closes an empty one, or, asked for nothing, does nothing. */
  lemma ScatteredTaken(left: nat, input: seq<byte>, data: seq<byte>, rest: seq<byte>)
    requires input == data + rest && |data| <= left && input != []
    ensures var now, next := Expand(ScatteredData(left), input), Expand(AfterScattered(left - |data|), rest);
            && (data != [] || left == 0 ==> now == Served(data) + next)
            && (data == [] && left > 0 ==> now == next)
            && Plain(now) == data + Plain(next)
  {
    var next := Expand(AfterScattered(left - |data|), rest);
    if data != [] {
      ExpandScattered(left, input, |data|);
      assert input[..|data|] == data && input[|data|..] == rest;
    } else {
      assert input == rest && data + Plain(next) == Plain(next);
    }
    hide Expand, Plain;
    PlainServed(data, next);
  }

  lemma NothingScattered(left: nat)
    ensures Expand(ScatteredData(left), []) == []
  {}

  lemma ExpandRepeated(left: nat, b: byte, input: seq<byte>, n: nat)
    requires 0 < n <= left
    ensures Expand(RepeatedRead(left, b), input)
         == Fill(n, b) + Expand(if n == left then Idle else RepeatedRead(left - n, b), input)
  {
    assert Fill(left, b) == Fill(n, b) + Fill(left - n, b);
    assert Fill(0, b) == [];
  }

  /** A size being unpacked: the sign bit and six payload bits come first, then groups of seven. */
  datatype SizeState = First | Consecutive(value: nat, offset: nat, negative: bool)

  /** The signed size at the start of `bytes`, resuming from `s`, and what is behind it. A gap spoils it. */
  ghost function TakeSize(s: SizeState, bytes: seq<item>): (r: Option<(int, seq<item>)>)
    ensures r.Some? ==> |r.value.1| < |bytes| && r.value.1 == bytes[|bytes| - |r.value.1|..]
    decreases |bytes|
  {
    if bytes == [] || bytes[0] == GAP then None
    else match s
      case First =>
        AddSize(bytes[0] % 0x40, 6, bytes[0] / 0x40 % 2 == 1, bytes)
      case Consecutive(v, o, neg) =>
        if IsOverflow(o) then None else AddSize(Place(v, bytes[0], o), o + 7, neg, bytes)
  }

  ghost function AddSize(v: nat, o: nat, neg: bool, bytes: seq<item>): (r: Option<(int, seq<item>)>)
    requires bytes != []
    ensures r.Some? ==> |r.value.1| < |bytes| && r.value.1 == bytes[|bytes| - |r.value.1|..]
    decreases |bytes|, 0
  {
    if Continues(bytes[0]) then TakeSize(Consecutive(v, o, neg), bytes[1..])
    else Some((if neg then 0 - v else v, bytes[1..]))
  }

  /** The size unpacked so far, one byte later. */
  function WithByte(s: SizeState, b: byte): SizeState {
    match s
    case First => Consecutive(b % 0x40, 6, b / 0x40 % 2 == 1)
    case Consecutive(v, o, neg) => Consecutive(Place(v, b, o), o + 7, neg)
  }

  /** A size whose encoding goes on after its 32 bits are full. */
  ghost predicate TooLong(s: SizeState, items: seq<item>)
    decreases |items|
  {
    && items != [] && items[0] != GAP
    && ((s.Consecutive? && IsOverflow(s.offset))
         || (Continues(items[0]) && TooLong(WithByte(s, items[0]), items[1..])))
  }

  lemma TooLongByte(s: SizeState, b: byte, rest: seq<item>)
    ensures TooLong(s, [b] + rest)
       <==> (s.Consecutive? && IsOverflow(s.offset)) || (Continues(b) && TooLong(WithByte(s, b), rest))
  {
    assert ([b] + rest)[1..] == rest;
  }

  lemma NothingIsTooLong(s: SizeState)
    ensures !TooLong(s, [])
  {}

  lemma TakenIsNotTooLong(s: SizeState, items: seq<item>)
    requires TakeSize(s, items).Some?
    ensures !TooLong(s, items) && items != []
    decreases |items|
  {}

  lemma TakeByte(s: SizeState, b: byte, rest: seq<item>)
    ensures TakeSize(s, [b] + rest)
         == if s.Consecutive? && IsOverflow(s.offset) then None
            else if Continues(b) then TakeSize(WithByte(s, b), rest)
            else var w := WithByte(s, b); Some((if w.negative then 0 - w.value else w.value, rest))
  {
    assert ([b] + rest)[1..] == rest;
  }

  /** The next `k` items are bytes. */
  predicate NoGapIn(items: seq<item>, k: int) {
    0 <= k <= |items| && forall i | 0 <= i < k :: items[i] != GAP
  }

  lemma NoGapStep(b: byte, rest: seq<item>, k: nat)
    ensures NoGapIn([b] + rest, k + 1) <==> NoGapIn(rest, k)
  {
    var items := [b] + rest;
    assert forall i | 0 <= i < |rest| :: items[i + 1] == rest[i];
    if NoGapIn(items, k + 1) {
      forall i | 0 <= i < k ensures rest[i] != GAP {
        assert items[i + 1] != GAP;
      }
    }
  }

  lemma PlainStep(b: byte, rest: seq<item>)
    ensures Plain([b] + rest) == [b] + Plain(rest)
  {
    assert ([b] + rest)[1..] == rest;
  }

  /** A size is there to be read exactly when its bytes are, and no empty run stands before one of them. */
  lemma {:induction false} SizeNeedsNoGap(s: SizeState, items: seq<item>)
    ensures var p := TakeSize(s, Plain(items));
            && (TakeSize(s, items).Some? <==> p.Some? && NoGapIn(items, |Plain(items)| - |p.value.1|))
            && (TakeSize(s, items).Some? ==> p.value == (TakeSize(s, items).value.0, Plain(TakeSize(s, items).value.1)))
    decreases |items|
  {
    hide TakeSize, NoGapIn, Plain;
    if items == [] {
      NothingTaken(s);
    } else if items[0] == GAP {
      assert items == [GAP] + items[1..];
      GapSpoils(s, items[1..]);
      if TakeSize(s, Plain(items)).Some? {
        GapFirst(items[1..], |Plain(items)| - |TakeSize(s, Plain(items)).value.1|);
      }
    } else {
      var b, rest := items[0], items[1..];
      assert items == [b] + rest;
      PlainStep(b, rest);
      TakeByte(s, b, rest);
      TakeByte(s, b, Plain(rest));
      if Continues(b) && !(s.Consecutive? && IsOverflow(s.offset)) {
        SizeNeedsNoGap(WithByte(s, b), rest);
        var p := TakeSize(WithByte(s, b), Plain(rest));
        if p.Some? {
          NoGapStep(b, rest, |Plain(rest)| - |p.value.1|);
        }
      } else {
        NoGapStep(b, rest, 0);
        NoGapNone(rest);
      }
    }
  }

  lemma NothingTaken(s: SizeState)
    ensures TakeSize(s, []).None? && TakeSize(s, Plain([])).None?
  {}

  lemma GapFirst(rest: seq<item>, k: int)
    requires k > 0
    ensures !NoGapIn([GAP] + rest, k)
  {
    assert ([GAP] + rest)[0] == GAP;
  }

  lemma NoGapNone(rest: seq<item>)
    ensures NoGapIn(rest, 0)
  {}

  class PatchReader {
    var chunk: seq<byte>
    var offset: nat
    ghost var future: seq<byte>
    var crle: Crle
    var size: SizeState

    ghost predicate Valid()
      reads this
    {
      offset <= |chunk|
    }

    /** All input still to come, in this chunk and in later ones. */
    ghost function Input(): seq<byte>
      requires Valid()
      reads this
    {
      chunk[offset..] + future
    }

    ghost function Pending(): seq<item>
      requires Valid()
      reads this
    {
      Expand(crle, Input())
    }

    ghost function ChunkLeft(): nat
      requires Valid()
      reads this
    {
      |chunk| - offset
    }

    /** The error that the next run comes to. */
    ghost function Fault(): Option<int>
      requires Valid()
      reads this
    {
      RunFault(crle, Input())
    }

    /** Nothing more can be delivered from this chunk. */
    ghost predicate Dry()
      requires Valid()
      reads this
    {
      ChunkLeft() == 0 && !crle.RepeatedRead?
    }

    /** Bytes a run can still deliver without input, plus the step that closes it. */
    ghost function RunLeft(): nat
      reads this
    {
      if crle.ScatteredData? || crle.RepeatedRead? then crle.left + 1 else 0
    }

    constructor ()
      ensures Valid() && chunk == [] && offset == 0 && future == [] && crle == Idle && size == First
    {
      chunk := [];
      offset := 0;
      future := [];
      crle := Idle;
      size := First;
    }

    predicate ChunkAvailable()
      reads this
    {
      |chunk| > offset
    }

    method ChunkGet() returns (res: int, b: byte)
      requires Valid()
      modifies this`offset
      ensures Valid()
      ensures ChunkLeft() == old(ChunkLeft()) - (if res == OK then 1 else 0)
      ensures if old(ChunkLeft()) > 0 then res == OK && old(Input()) == [b] + Input()
              else res == MORE_INPUT && Input() == old(Input()) == future
    {
      b := 0;
      if !ChunkAvailable() {
        return MORE_INPUT, b;
      }
      b := chunk[offset];
      offset := offset + 1;
      res := OK;
    }

    method ChunkRead(cap: nat) returns (res: int, data: seq<byte>)
      requires Valid()
      modifies this`offset
      ensures Valid()
      ensures if old(ChunkLeft()) > 0
              then res == OK && |data| == Min(cap, old(ChunkLeft())) && old(Input()) == data + Input()
                && ChunkLeft() == old(ChunkLeft()) - |data|
              else res == MORE_INPUT && data == [] && Input() == old(Input()) == future && ChunkLeft() == 0
    {
      if !ChunkAvailable() {
        return MORE_INPUT, [];
      }
      var n := Min(cap, |chunk| - offset);
      data := chunk[offset..offset + n];
      offset := offset + n;
      res := OK;
      assert old(Input()) == data + Input();
    }

    /** One step of decoding in a state that delivers no data. */
    method Advance() returns (res: int)
      requires Valid() && !crle.ScatteredData? && !crle.RepeatedRead?
      modifies this`offset, this`crle
      ensures Valid()
      ensures res == AGAIN || res == MORE_INPUT || res == CORRUPT_PATCH_OVERFLOW || res == CORRUPT_PATCH_CRLE_KIND
      ensures res == AGAIN ==> ChunkLeft() < old(ChunkLeft()) && Pending() == old(Pending())
      ensures res == MORE_INPUT ==>
                ChunkLeft() == 0 && Pending() == old(Pending()) && Input() == future && !crle.RepeatedRead?
                    && !crle.ScatteredData?
      ensures res < 0 ==> old(Pending()) == [] && ChunkLeft() < old(ChunkLeft())
      ensures if res < 0 then old(Fault()) == Some(res) else Fault() == old(Fault())
    {
      match crle
      case Idle =>
        var kind;
        res, kind := ChunkGet();
        if res != OK {
          return;
        }
        if kind == 0 {
          crle := ScatteredSize(0, 0);
          res := AGAIN;
        } else if kind == 1 {
          crle := RepeatedSize(0, 0);
          res := AGAIN;
        } else {
          res := CORRUPT_PATCH_CRLE_KIND;
        }
      case ScatteredSize(_, _) =>
        res := UnpackUsize();
        if res == OK {
          crle := ScatteredData(crle.value);
          res := AGAIN;
        }
      case RepeatedSize(_, _) =>
        res := UnpackUsize();
        if res == OK {
          crle := RepeatedData(crle.value);
          res := AGAIN;
        }
      case RepeatedData(left) =>
        var b;
        res, b := ChunkGet();
        if res != OK {
          return;
        }
        crle := RepeatedRead(left, b);
        res := AGAIN;
    }

    /** Unpacks the run size in progress; on success `crle.value` is the whole size. */
    method UnpackUsize() returns (res: int)
      requires Valid() && (crle.ScatteredSize? || crle.RepeatedSize?)
      modifies this`offset, this`crle
      ensures Valid() && crle.ScatteredSize? == old(crle.ScatteredSize?)
      ensures crle.RepeatedSize? == old(crle.RepeatedSize?)
      ensures res == OK || res == MORE_INPUT || res == CORRUPT_PATCH_OVERFLOW || res == CORRUPT_PATCH_CRLE_KIND
      ensures ChunkLeft() <= old(ChunkLeft())
      ensures res == OK ==> ChunkLeft() < old(ChunkLeft())
      ensures res == OK ==>
                old(Pending()) == Expand(if crle.ScatteredSize? then ScatteredData(crle.value)
                    else RepeatedData(crle.value), Input())
      ensures res == MORE_INPUT ==> ChunkLeft() == 0 && Pending() == old(Pending()) && Input() == future
      ensures res < 0 ==> old(Pending()) == [] && ChunkLeft() < old(ChunkLeft())
      ensures if res < 0 then old(Fault()) == Some(res) else if res == OK then old(Fault()).None?
              else Fault() == old(Fault())
    {
      while true
        invariant Valid() && crle.ScatteredSize? == old(crle.ScatteredSize?)
        invariant crle.RepeatedSize? == old(crle.RepeatedSize?) && Fault() == old(Fault())
        invariant ChunkLeft() <= old(ChunkLeft()) && Pending() == old(Pending())
        decreases ChunkLeft()
      {
        var b;
        res, b := ChunkGet();
        if res != OK {
          return;
        }
        if IsOverflow(crle.offset) {
          return CORRUPT_PATCH_OVERFLOW;
        }
        var v := Place(crle.value, b, crle.offset);
        crle := if crle.ScatteredSize? then ScatteredSize(v, crle.offset + 7) else RepeatedSize(v, crle.offset + 7);
        if !Continues(b) {
          return OK;
        }
      }
    }

    /** Literal bytes, as many as are asked for, left in the run and present in the chunk. */
    method DeliverScattered(cap: nat) returns (res: int, data: seq<byte>)
      requires Valid() && crle.ScatteredData?
      modifies this`offset, this`crle
      ensures Valid() && (res == OK || res == MORE_INPUT) && |data| <= cap
      ensures res == OK && cap > 0 ==> old(Pending()) == Served(data) + Pending()
      ensures res == OK ==> Plain(old(Pending())) == data + Plain(Pending())
      ensures old(crle) == ScatteredData(0) && old(ChunkLeft()) > 0 ==>
                res == OK && data == [] && crle == Idle && Input() == old(Input())
      ensures res == MORE_INPUT ==> data == [] && ChunkLeft() == 0 && Pending() == old(Pending()) && Input() == future
      ensures res == MORE_INPUT && Pending() != [] ==> future != []
      ensures res == MORE_INPUT <==> old(ChunkLeft()) == 0
      ensures res == MORE_INPUT ==> crle == old(crle)
      ensures ChunkLeft() == old(ChunkLeft()) - |data|
      ensures data == [] ==> RunLeft() <= old(RunLeft()) && (res == OK && cap > 0 ==> RunLeft() < old(RunLeft()))
    {
      hide Expand, Served, Plain;
      ghost var input, left := Input(), crle.left;
      res, data := ChunkRead(Min(cap, crle.left));
      if res == OK {
        ScatteredTaken(left, input, data, Input());
        crle := AfterScattered(crle.left - |data|);
      } else {
        NothingScattered(left);
      }
    }

    /** Copies of the repeated byte, as many as are asked for and left in the run. */
    method DeliverRepeated(cap: nat) returns (data: seq<byte>)
      requires Valid() && crle.RepeatedRead?
      modifies this`crle
      ensures Valid() && |data| <= cap
      ensures cap > 0 ==> old(Pending()) == Served(data) + Pending()
      ensures Plain(old(Pending())) == data + Plain(Pending())
      ensures old(crle.left) == 0 ==> data == [] && crle == Idle
      ensures RunLeft() <= old(RunLeft()) && (cap > 0 ==> RunLeft() < old(RunLeft()))
    {
      var left, b := crle.left, crle.byteValue;
      var n := Min(cap, left);
      data := Fill(n, b);
      if n > 0 {
        ExpandRepeated(left, b, Input(), n);
      }
      ghost var p := Pending();
      crle := if left == n then Idle else RepeatedRead(left - n, b);
      PlainServed(data, Pending());
      if n == 0 && left > 0 {
        assert data + Plain(p) == Plain(p);
      }
    }

    /**
     * Up to `cap` decoded bytes. Nothing is lost, repeated or reordered: what
     * is delivered now and what stays pending make up what was pending before.
     * An empty run is a call of its own that delivers nothing.
     */
    method Decompress(cap: nat) returns (res: int, data: seq<byte>)
      requires Valid()
      modifies this`offset, this`crle
      ensures Valid()
      ensures res == OK || res == MORE_INPUT || res == CORRUPT_PATCH_OVERFLOW || res == CORRUPT_PATCH_CRLE_KIND
      ensures |data| <= cap && (res != OK ==> data == [])
      ensures res == MORE_INPUT ==> ChunkLeft() == 0 && Pending() == old(Pending()) && Input() == future
      ensures res == OK && cap > 0 ==> old(Pending()) == Served(data) + Pending()
      ensures res == OK ==> Plain(old(Pending())) == data + Plain(Pending())
      ensures old(crle) == ScatteredData(0) && old(ChunkLeft()) > 0 ==>
                res == OK && data == [] && crle == Idle && Input() == old(Input())
      ensures old(crle).RepeatedRead? && old(crle).left == 0 ==>
                res == OK && data == [] && crle == Idle && Input() == old(Input())
      ensures old(Pending()) != [] ==> res == OK || (res == MORE_INPUT && future != [])
      ensures if res < 0 then old(Fault()) == Some(res) else if res == OK then old(Fault()).None?
              else Fault() == old(Fault())
      ensures old(Dry()) ==> res == MORE_INPUT && Dry()
      ensures ChunkLeft() <= old(ChunkLeft())
      ensures ChunkLeft() == old(ChunkLeft()) ==> RunLeft() <= old(RunLeft())
      ensures res == OK && cap > 0 && ChunkLeft() == old(ChunkLeft()) ==> RunLeft() < old(RunLeft())
    {
      data := [];
      while !crle.ScatteredData? && !crle.RepeatedRead?
        invariant Valid()
        invariant ChunkLeft() <= old(ChunkLeft()) && Pending() == old(Pending()) && Fault() == old(Fault())
        invariant ChunkLeft() == old(ChunkLeft()) ==> crle == old(crle)
        invariant old(crle).ScatteredData? || old(crle).RepeatedRead? ==> crle == old(crle) && offset == old(offset)
        decreases ChunkLeft()
      {
        res := Advance();
        if res != AGAIN {
          assert res == MORE_INPUT && future == [] ==> Expand(crle, []) == [];
          return;
        }
      }
      if crle.ScatteredData? {
        res, data := DeliverScattered(cap);
      } else {
        data := DeliverRepeated(cap);
        res := OK;
      }
    }

    /**
     * The next signed size of the body. When an empty run makes `Decompress`
     * succeed without a byte, no byte is asked for any more, and the byte
     * looked at is whatever it was before.
     */
    method UnpackSize() returns (res: int, value: int)
      requires Valid()
      modifies this`offset, this`crle, this`size
      ensures Valid()
      ensures res == OK || res == MORE_INPUT || res == CORRUPT_PATCH_OVERFLOW || res == CORRUPT_PATCH_CRLE_KIND
      ensures res == OK ==> size == First
      ensures res == MORE_INPUT ==> ChunkLeft() == 0 && Input() == future
      ensures SizeTaken(old(size), old(Pending()), res, value, size, Pending(), future != [])
      ensures old(Fault()).Some? ==>
                res == old(Fault()).value || (res == MORE_INPUT && Fault() == old(Fault()))
      ensures old(Dry()) ==> res == MORE_INPUT && Dry()
      ensures ChunkLeft() <= old(ChunkLeft())
      ensures ChunkLeft() == old(ChunkLeft()) ==> RunLeft() <= old(RunLeft())
      ensures res == OK && ChunkLeft() == old(ChunkLeft()) ==> RunLeft() < old(RunLeft())
    {
      hide SizeTaken, Reading, Expand, Plain, Served, Place, Continues, RunFault, TakeSize, TooLong;
      ghost var s0, p0 := size, Pending();
      ReadingStarts(s0, p0);
      var cap := 1;
      var b: byte := *;
      value := 0;
      while true
        invariant Valid() && 0 <= cap <= 1 && Reading(cap, s0, p0, size, Pending())
        invariant old(Fault()).Some? ==> Fault() == old(Fault())
        invariant old(Dry()) ==> Dry()
        invariant ChunkLeft() <= old(ChunkLeft())
        invariant ChunkLeft() == old(ChunkLeft()) ==> RunLeft() <= old(RunLeft())
        invariant cap == 0 ==> (ChunkLeft() < old(ChunkLeft()) || RunLeft() < old(RunLeft()))
        invariant size.Consecutive? && s0.First? && ChunkLeft() == old(ChunkLeft()) ==> RunLeft() < old(RunLeft())
        decreases if size.First? then 100 else 40 - size.offset
      {
        ghost var before := Pending();
        var data;
        res, data := Decompress(cap);
        if res != OK {
          ReadingWaits(cap, s0, p0, res, value, size, before, Pending(), future != []);
          return;
        }
        ReadsOne(cap, s0, p0, size, before, data, Pending(), future != []);
        if data != [] {
          b := data[0];
        }
        cap := |data|;
        if size.First? {
          size := Consecutive(b % 0x40, 6, b / 0x40 % 2 == 1);
        } else {
          if IsOverflow(size.offset) {
            return CORRUPT_PATCH_OVERFLOW, value;
          }
          size := Consecutive(Place(size.value, b, size.offset), size.offset + 7, size.negative);
        }
        if !Continues(b) {
          value := if size.negative then 0 - size.value else size.value;
          size := First;
          return OK, value;
        }
      }
    }
  }

  /**
   * A size that stands at the start of what is pending is taken, or waits for
   * more; one that is spelled there, but for gaps, comes out as spelled exactly
   * when there is no gap before one of its bytes.
   */
  ghost predicate SizeTaken(s0: SizeState, p0: seq<item>, res: int, value: int, s: SizeState, p: seq<item>,
                            more: bool) {
    var want, spelled := TakeSize(s0, p0), TakeSize(s0, Plain(p0));
    && (want.Some? ==>
          || (res == OK && value == want.value.0 && p == want.value.1)
          || (res == MORE_INPUT && TakeSize(s, p) == want && more))
    && (TooLong(s0, p0) ==> res == CORRUPT_PATCH_OVERFLOW || (res == MORE_INPUT && TooLong(s, p) && more))
    && (res == OK && spelled.Some? ==>
          && (Plain(p) == spelled.value.1 <==> want.Some?)
          && (Plain(p) == spelled.value.1 ==> value == spelled.value.0))
  }

  /** The size of `s0` and `p0` is still to be read, or, with nothing asked for any more, it is spoilt. */
  ghost predicate Reading(cap: nat, s0: SizeState, p0: seq<item>, s: SizeState, p: seq<item>) {
    var want, spelled := TakeSize(s0, p0), TakeSize(s0, Plain(p0));
    if cap > 0 then
      TakeSize(s, p) == want && TakeSize(s, Plain(p)) == spelled && (TooLong(s, p) <==> TooLong(s0, p0))
    else want.None? && !TooLong(s0, p0) && (spelled.Some? ==> |Plain(p)| > |spelled.value.1|)
  }

  lemma ReadingStarts(s: SizeState, p: seq<item>)
    ensures Reading(1, s, p, s, p)
  {}

  lemma ReadingWaits(cap: nat, s0: SizeState, p0: seq<item>, res: int, value: int, s: SizeState, p: seq<item>,
                     p': seq<item>, more: bool)
    requires Reading(cap, s0, p0, s, p) && res != OK && (p != [] ==> res == MORE_INPUT && more)
    requires res == MORE_INPUT ==> p' == p
    ensures SizeTaken(s0, p0, res, value, s, p', more)
  {
    hide Plain;
    if cap > 0 && TakeSize(s0, p0).Some? {
      SomethingTaken(s, p);
    }
    if p == [] {
      NothingIsTooLong(s);
    }
  }

  /** One successful call: nothing at all, a gap, or a byte that is the last one, one too many, or one of several. */
  lemma ReadsOne(cap: nat, s0: SizeState, p0: seq<item>, s: SizeState, p: seq<item>, data: seq<byte>, p': seq<item>,
                 more: bool)
    requires Reading(cap, s0, p0, s, p) && |data| <= cap <= 1 && Plain(p) == data + Plain(p')
    requires cap > 0 ==> p == Served(data) + p'
    ensures if data == [] then
              && (forall s' :: Reading(0, s0, p0, s', p'))
              && (forall s', value :: SizeTaken(s0, p0, OK, value, s', p', more))
              && (forall s', value :: SizeTaken(s0, p0, CORRUPT_PATCH_OVERFLOW, value, s', p', more))
            else if s.Consecutive? && IsOverflow(s.offset) then
              forall value: int :: SizeTaken(s0, p0, CORRUPT_PATCH_OVERFLOW, value, s, p', more)
            else if Continues(data[0]) then Reading(1, s0, p0, WithByte(s, data[0]), p')
            else
              var w := WithByte(s, data[0]);
              w.Consecutive? && SizeTaken(s0, p0, OK, if w.negative then 0 - w.value else w.value, First, p', more)
  {
    hide TakeSize, TooLong, Plain, Served, IsOverflow, Continues, WithByte;
    if cap > 0 {
      OneServed(s, p, data, p');
      if data != [] {
        Consecutively(s, data[0]);
        SizeNeedsNoGap(s0, p0);
      }
    } else {
      assert Plain(p') == Plain(p);
    }
  }

  lemma Consecutively(s: SizeState, b: byte)
    ensures WithByte(s, b).Consecutive?
  {}

  /** One call for one byte of a size: a byte of it, or a gap that spoils it. */
  lemma OneServed(s: SizeState, before: seq<item>, data: seq<byte>, after: seq<item>)
    requires before == Served(data) + after && |data| <= 1
    ensures var want, spelled := TakeSize(s, before), TakeSize(s, Plain(before));
            if data == [] then
              want.None? && !TooLong(s, before) && (spelled.Some? ==> |Plain(after)| > |spelled.value.1|)
            else if s.Consecutive? && IsOverflow(s.offset) then want.None? && spelled.None?
            else if Continues(data[0]) then want == TakeSize(WithByte(s, data[0]), after)
              && spelled == TakeSize(WithByte(s, data[0]), Plain(after))
              && (TooLong(s, before) <==> TooLong(WithByte(s, data[0]), after))
            else
              var w := WithByte(s, data[0]);
              var value := if w.negative then 0 - w.value else w.value;
              !TooLong(s, before) && want == Some((value, after)) && spelled == Some((value, Plain(after)))
  {
    hide TakeSize, TooLong, Plain;
    if data == [] {
      GapSpoils(s, after);
    } else {
      assert data == [data[0]];
      PlainStep(data[0], after);
      TakeByte(s, data[0], after);
      TakeByte(s, data[0], Plain(after));
      TooLongByte(s, data[0], after);
    }
  }

  lemma SomethingTaken(s: SizeState, items: seq<item>)
    requires TakeSize(s, items).Some?
    ensures items != []
  {}

  lemma GapSpoils(s: SizeState, rest: seq<item>)
    ensures TakeSize(s, [GAP] + rest).None? && !TooLong(s, [GAP] + rest) && Plain([GAP] + rest) == Plain(rest)
    ensures TakeSize(s, Plain([GAP] + rest)).Some? ==> |Plain(rest)| > |TakeSize(s, Plain([GAP] + rest)).value.1|
  {
    PlainServed([], rest);
    assert [] + Plain(rest) == Plain(rest);
  }
}
