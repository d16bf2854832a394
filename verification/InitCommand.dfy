/**
 * The init command that announces an image: a fixed envelope around a list of
 * fields, each a key and a number, a digest, or a list of SoftDevice ids.
 * The parser is proved against the meaning of the list of fields, for every
 * way of spelling it in bytes.
 */
module InitCommand {
  import opened Bytes

  const COMMAND_MAX: nat := 256

  /** The image a command announces. */
  datatype Image = Image(size: u32, sha256: seq<byte>)

  /** A field as its sender means it. */
  datatype Field =
    | Number(tag: nat, value: u32)
    | Digest(digest: seq<byte>)
    | SoftDevices(ids: seq<u32>)

  /** What the bootloader expects: its hardware, its SoftDevice and the room it has. */
  datatype Target = Target(hw: u32, fwid: u16, maxImage: u32)

  // ---- numbers in base 128 ------------------------------------------------

  function Value(p: seq<byte>): nat {
    if p == [] then 0 else p[0] % 0x80 + 0x80 * Value(p[1..])
  }

  /** `p` is a number of one to five bytes, each but the last marked as continued. It need not be the shortest. */
  predicate Spells(p: seq<byte>, n: nat) {
    n <= U32_MAX && 1 <= |p| <= 5 && p[|p| - 1] < 0x80 && (forall i | 0 <= i < |p| - 1 :: p[i] >= 0x80) && Value(p) == n
  }

  /** Length of the number at the start of `s`, when it ends within `most` bytes; else 0. */
  function NumberLen(s: seq<byte>, most: nat): (k: nat)
    ensures k <= |s| && k <= most
    ensures k > 0 ==> s[k - 1] < 0x80 && forall i | 0 <= i < k - 1 :: s[i] >= 0x80
    decreases most
  {
    if most == 0 || s == [] then 0
    else if s[0] < 0x80 then 1
    else
      var k := NumberLen(s[1..], most - 1);
      if k == 0 then 0 else k + 1
  }

  /** The number at the start of `s`, and its length. */
  function TakeNumber(s: seq<byte>): (r: Option<(u32, nat)>)
    ensures r.Some? ==> 1 <= r.value.1 <= |s| && Spells(s[..r.value.1], r.value.0)
  {
    var k := NumberLen(s, 5);
    if k == 0 || Value(s[..k]) > U32_MAX then None else Some((Value(s[..k]), k))
  }

  lemma {:induction false} SpelledLen(p: seq<byte>, rest: seq<byte>, most: nat)
    requires 1 <= |p| <= most && p[|p| - 1] < 0x80 && forall i | 0 <= i < |p| - 1 :: p[i] >= 0x80
    ensures NumberLen(p + rest, most) == |p|
    decreases |p|
  {
    assert (p + rest)[0] == p[0];
    if |p| > 1 {
      assert (p + rest)[1..] == p[1..] + rest;
      SpelledLen(p[1..], rest, most - 1);
    }
  }

  /** Whatever the spelling, and whatever follows it, the number is read back. */
  lemma SpelledIsTaken(p: seq<byte>, n: nat, rest: seq<byte>)
    requires Spells(p, n)
    ensures TakeNumber(p + rest) == Some((n, |p|))
  {
    SpelledLen(p, rest, 5);
    assert (p + rest)[..|p|] == p;
  }

  function Pow128(n: nat): (r: nat)
    ensures r > 0
  {
    if n == 0 then 1 else 0x80 * Pow128(n - 1)
  }

  lemma {:induction false} ValueAppend(p: seq<byte>, c: byte)
    ensures Value(p + [c]) == Value(p) + Pow128(|p|) * (c % 0x80)
  {
    hide Value, Pow128;
    if p == [] {
      assert p + [c] == [c] && [c] == [c] + [];
      ValueStep(c, []);
      ValueNone();
    } else {
      var q, d := p[1..], c % 0x80;
      assert p == [p[0]] + q && p + [c] == [p[0]] + (q + [c]);
      ValueAppend(q, c);
      ValueStep(p[0], q);
      ValueStep(p[0], q + [c]);
      PowerStep(|q|, d);
    }
  }

  lemma ValueNone()
    ensures Value([]) == 0 && Pow128(0) == 1
  {}

  lemma ValueStep(b: byte, rest: seq<byte>)
    ensures Value([b] + rest) == b % 0x80 + 0x80 * Value(rest)
  {
    assert ([b] + rest)[1..] == rest;
  }

  lemma PowerStep(n: nat, d: nat)
    ensures Pow128(n + 1) * d == 0x80 * (Pow128(n) * d)
  {}

  lemma {:induction false} ValueBound(p: seq<byte>)
    ensures Value(p) < Pow128(|p|)
  {
    if p != [] {
      ValueBound(p[1..]);
    }
  }

  lemma {:induction false} ValuePrefix(p: seq<byte>, k: nat)
    requires k <= |p|
    ensures Value(p[..k]) <= Value(p)
  {
    if k > 0 {
      assert p[..k][1..] == p[1..][..k - 1];
      ValuePrefix(p[1..], k - 1);
    }
  }

  lemma Powers()
    ensures Pow128(0) == 1 && Pow128(1) == 0x80 && Pow128(2) == 0x4000 && Pow128(3) == 0x20_0000
    ensures Pow128(4) == 0x1000_0000
  {
    assert Pow128(1) == 0x80 * Pow128(0);
    assert Pow128(2) == 0x80 * Pow128(1);
    assert Pow128(3) == 0x80 * Pow128(2);
  }

  lemma {:induction false} NumberLenIs(s: seq<byte>, i: nat, most: nat)
    requires i <= most && i <= |s| && forall j | 0 <= j < i :: s[j] >= 0x80
    ensures i < most && i < |s| && s[i] < 0x80 ==> NumberLen(s, most) == i + 1
    ensures (i == most || i == |s|) ==> NumberLen(s, most) == 0
    decreases i
  {
    if i > 0 {
      NumberLenIs(s[1..], i - 1, most - 1);
    }
  }

  /** Reads one number; a fifth byte that does not fit in 32 bits, or that goes on, is an error. */
  method ReadNumber(s: seq<byte>) returns (ok: bool, n: u32, len: nat)
    ensures ok <==> TakeNumber(s).Some?
    ensures ok ==> TakeNumber(s) == Some((n, len))
  {
    hide NumberLen, Value, Pow128;
    var v := 0;
    var i := 0;
    NoDigits();
    while i < 5 && i < |s|
      invariant 0 <= i <= 5 && i <= |s| && v == Value(s[..i])
      invariant forall j | 0 <= j < i :: s[j] >= 0x80
    {
      var c := s[i];
      NumberLenIs(s, i, 5);
      NextDigit(s, i);
      if i == 4 && c > 15 {
        return false, 0, 0;
      }
      v := v + c % 0x80 * Pow128(i);
      i := i + 1;
      if c < 0x80 {
        return true, v, i;
      }
    }
    NumberLenIs(s, i, 5);
    return false, 0, 0;
  }

  lemma NoDigits()
    ensures forall s: seq<byte> :: Value(s[..0]) == 0
  {
    assert forall s: seq<byte> :: s[..0] == [];
  }

  /** A digit more; a fifth one decides whether the number still fits in 32 bits. */
  lemma NextDigit(s: seq<byte>, i: nat)
    requires i < |s| && i < 5
    ensures Value(s[..i + 1]) == Value(s[..i]) + s[i] % 0x80 * Pow128(i)
    ensures s[i] < 0x80 ==> (Value(s[..i + 1]) <= U32_MAX <==> i < 4 || s[i] <= 15)
  {
    assert s[..i + 1] == s[..i] + [s[i]];
    ValueAppend(s[..i], s[i]);
    ValueBound(s[..i]);
    Powers();
  }

  /** A number is printed in as few bytes as it takes. */
  function PrintNumber(n: nat): (p: seq<byte>)
    ensures p != []
  {
    if n < 0x80 then [n] else [0x80 + n % 0x80] + PrintNumber(n / 0x80)
  }

  lemma {:induction false} PrintedSpells(n: nat, digits: nat)
    requires n < Pow128(digits) && digits > 0
    ensures var p := PrintNumber(n);
            && |p| <= digits && p[|p| - 1] < 0x80 && (forall i | 0 <= i < |p| - 1 :: p[i] >= 0x80) && Value(p) == n
    decreases digits
  {
    if n < 0x80 {
      assert Value([n][1..]) == 0;
    } else {
      Powers();
      assert Pow128(digits) == 0x80 * Pow128(digits - 1);
      PrintedSpells(n / 0x80, digits - 1);
      var p := PrintNumber(n);
      assert p[1..] == PrintNumber(n / 0x80);
    }
  }

  lemma PrintedNumber(n: u32)
    ensures Spells(PrintNumber(n), n)
  {
    Powers();
    assert Pow128(5) == 0x80 * Pow128(4);
    PrintedSpells(n, 5);
  }

  // ---- fields -------------------------------------------------------------

  const HASH_PREFIX: seq<byte> := [0x08, 0x03, 0x12, 0x20]
  const HASH_LEN: nat := 36

  function Reversed(s: seq<byte>): (r: seq<byte>)
    ensures |r| == |s| && forall i | 0 <= i < |s| :: r[i] == s[|s| - 1 - i]
  {
    seq(|s|, i requires 0 <= i < |s| => s[|s| - 1 - i])
  }

  lemma ReversedTwice(s: seq<byte>)
    ensures Reversed(Reversed(s)) == s
  {}

  /** Field number and wire type, joined. */
  function Key(f: Field): nat {
    match f
    case Number(tag, _) => 8 * tag
    case Digest(_) => 8 * 8 + 2
    case SoftDevices(_) => 8 * 3 + 2
  }

  /** Tag of a field, as it counts for duplicates. */
  function Tag(f: Field): nat {
    match f
    case Number(tag, _) => tag
    case Digest(_) => 8
    case SoftDevices(_) => 3
  }

  /** Numbers spelled one after the other. */
  ghost predicate SpellsAll(p: seq<byte>, ns: seq<u32>)
    decreases |ns|
  {
    if ns == [] then p == []
    else exists k | 0 < k <= |p| :: Spells(p[..k], ns[0]) && SpellsAll(p[k..], ns[1..])
  }

  /** A length and exactly as many bytes. */
  ghost predicate SpellsBlock(p: seq<byte>, block: seq<byte>) {
    exists k | 0 < k <= |p| :: Spells(p[..k], |p| - k) && p[k..] == block
  }

  ghost predicate SpellsBody(p: seq<byte>, f: Field) {
    match f
    case Number(_, value) => Spells(p, value)
    case Digest(digest) => |digest| == 32 && SpellsBlock(p, [0x08, 0x03, 0x12, 0x20] + Reversed(digest))
    case SoftDevices(ids) => ids != [] && exists block :: SpellsBlock(p, block) && SpellsAll(block, ids)
  }

  predicate KnownTag(f: Field) {
    f.Number? ==> 1 <= f.tag <= 7 || f.tag == 9
  }

  ghost predicate SpellsField(p: seq<byte>, f: Field) {
    KnownTag(f) && exists k | 0 < k <= |p| :: Spells(p[..k], Key(f)) && SpellsBody(p[k..], f)
  }

  ghost predicate SpellsFields(p: seq<byte>, fs: seq<Field>)
    decreases |fs|
  {
    if fs == [] then p == []
    else exists k | 0 < k <= |p| :: SpellsField(p[..k], fs[0]) && SpellsFields(p[k..], fs[1..])
  }

  // ---- reading fields -----------------------------------------------------

  function TakeAll(s: seq<byte>): Option<seq<u32>>
    decreases |s|
  {
    if s == [] then Some([])
    else
      var n := TakeNumber(s);
      if n.None? then None
      else
        var rest := TakeAll(s[n.value.1..]);
        if rest.None? then None else Some([n.value.0] + rest.value)
  }

  /** The block at the start of `s`, and the length of the whole. */
  function TakeBlock(s: seq<byte>): (r: Option<(seq<byte>, nat)>)
    ensures r.Some? ==> 0 < r.value.1 <= |s|
  {
    var n := TakeNumber(s);
    if n.None? || n.value.0 > |s| - n.value.1 then None
    else Some((s[n.value.1..n.value.1 + n.value.0], n.value.1 + n.value.0))
  }

  /** The body of a field with this key. */
  function TakeBody(key: u32, s: seq<byte>): (r: Option<(Field, nat)>)
    ensures r.Some? ==> 0 < r.value.1 <= |s|
  {
    if key == 8 * 8 + 2 then
      var b := TakeBlock(s);
      if b.None? || |b.value.0| != HASH_LEN || b.value.0[..4] != HASH_PREFIX then None
      else Some((Digest(Reversed(b.value.0[4..])), b.value.1))
    else if key == 8 * 3 + 2 then
      var b := TakeBlock(s);
      if b.None? || b.value.0 == [] then None
      else
        var ids := TakeAll(b.value.0);
        if ids.None? then None else Some((SoftDevices(ids.value), b.value.1))
    else if key % 8 != 0 || key / 8 == 8 || key == 0 || key / 8 > 9 then None
    else
      var n := TakeNumber(s);
      if n.None? then None else Some((Number(key / 8, n.value.0), n.value.1))
  }

  function TakeField(s: seq<byte>): (r: Option<(Field, nat)>)
    ensures r.Some? ==> 0 < r.value.1 <= |s|
  {
    var key := TakeNumber(s);
    if key.None? then None
    else
      var body := TakeBody(key.value.0, s[key.value.1..]);
      if body.None? then None else Some((body.value.0, key.value.1 + body.value.1))
  }

  function TakeFields(s: seq<byte>): Option<seq<Field>>
    decreases |s|
  {
    if s == [] then Some([])
    else
      var f := TakeField(s);
      if f.None? then None
      else
        var rest := TakeFields(s[f.value.1..]);
        if rest.None? then None else Some([f.value.0] + rest.value)
  }

  lemma {:induction false} AllTaken(p: seq<byte>, ns: seq<u32>)
    requires SpellsAll(p, ns)
    ensures TakeAll(p) == Some(ns)
    decreases |ns|
  {
    hide Spells, TakeNumber;
    if ns != [] {
      var k :| 0 < k <= |p| && Spells(p[..k], ns[0]) && SpellsAll(p[k..], ns[1..]);
      SpelledIsTaken(p[..k], ns[0], p[k..]);
      assert p == p[..k] + p[k..] && p != [];
      AllTaken(p[k..], ns[1..]);
      assert ns == [ns[0]] + ns[1..];
    }
  }

  lemma {:induction false} TakenAll(p: seq<byte>)
    requires TakeAll(p).Some?
    ensures SpellsAll(p, TakeAll(p).value)
    ensures p != [] ==> TakeAll(p).value != []
    decreases |p|
  {
    hide Spells;
    if p != [] {
      var n := TakeNumber(p).value;
      TakenAll(p[n.1..]);
      assert TakeAll(p).value[1..] == TakeAll(p[n.1..]).value;
    }
  }

  lemma BlockTaken(p: seq<byte>, block: seq<byte>, rest: seq<byte>)
    requires SpellsBlock(p, block)
    ensures TakeBlock(p + rest) == Some((block, |p|))
  {
    hide Spells, TakeNumber;
    var k :| 0 < k <= |p| && Spells(p[..k], |p| - k) && p[k..] == block;
    SpelledIsTaken(p[..k], |p| - k, p[k..] + rest);
    assert p[..k] + (p[k..] + rest) == p + rest;
    assert (p + rest)[k..|p|] == p[k..];
  }

  lemma TakenBlock(s: seq<byte>)
    requires TakeBlock(s).Some?
    ensures SpellsBlock(s[..TakeBlock(s).value.1], TakeBlock(s).value.0)
  {
    hide Spells;
    var n := TakeNumber(s).value;
    var p := s[..n.1 + n.0];
    assert p[..n.1] == s[..n.1] && p[n.1..] == TakeBlock(s).value.0;
  }

  lemma BodyTaken(p: seq<byte>, f: Field, rest: seq<byte>)
    requires KnownTag(f) && SpellsBody(p, f)
    ensures TakeBody(Key(f), p + rest) == Some((f, |p|))
  {
    hide Spells, TakeNumber, SpellsBlock, TakeBlock, TakeAll, SpellsAll;
    match f
    case Number(_, value) =>
      SpelledIsTaken(p, value, rest);
    case Digest(digest) =>
      var block := HASH_PREFIX + Reversed(digest);
      BlockTaken(p, block, rest);
      assert block[4..] == Reversed(digest) && block[..4] == HASH_PREFIX;
      ReversedTwice(digest);
    case SoftDevices(ids) =>
      var block :| SpellsBlock(p, block) && SpellsAll(block, ids);
      BlockTaken(p, block, rest);
      AllTaken(block, ids);
      NoneSpelled(block, ids);
  }

  lemma NoneSpelled(p: seq<byte>, ns: seq<u32>)
    requires SpellsAll(p, ns) && ns != []
    ensures p != []
  {}

  lemma TakenBody(key: u32, s: seq<byte>)
    requires TakeBody(key, s).Some?
    ensures var (f, k) := TakeBody(key, s).value; KnownTag(f) && Key(f) == key && SpellsBody(s[..k], f)
  {
    hide Spells, SpellsBlock, TakeBlock, TakeAll, SpellsAll;
    var (f, k) := TakeBody(key, s).value;
    match f
    case Number(_, value) =>
    case Digest(digest) =>
      TakenBlock(s);
      var block := TakeBlock(s).value.0;
      ReversedTwice(block[4..]);
      assert block == block[..4] + block[4..];
    case SoftDevices(ids) =>
      TakenBlock(s);
      TakenAll(TakeBlock(s).value.0);
  }

  lemma FieldTaken(p: seq<byte>, f: Field, rest: seq<byte>)
    requires SpellsField(p, f)
    ensures TakeField(p + rest) == Some((f, |p|))
  {
    hide Spells, TakeNumber, SpellsBody, TakeBody;
    var k :| 0 < k <= |p| && Spells(p[..k], Key(f)) && SpellsBody(p[k..], f);
    SpelledIsTaken(p[..k], Key(f), p[k..] + rest);
    assert p[..k] + (p[k..] + rest) == p + rest;
    BodyTaken(p[k..], f, rest);
    assert (p + rest)[k..] == p[k..] + rest;
  }

  lemma TakenField(s: seq<byte>)
    requires TakeField(s).Some?
    ensures SpellsField(s[..TakeField(s).value.1], TakeField(s).value.0)
  {
    hide Spells, SpellsBody, TakeBody;
    var key := TakeNumber(s).value;
    TakenBody(key.0, s[key.1..]);
    var (f, k) := TakeBody(key.0, s[key.1..]).value;
    var p := s[..key.1 + k];
    assert p[..key.1] == s[..key.1] && p[key.1..] == s[key.1..][..k];
  }

  lemma {:induction false} FieldsTaken(p: seq<byte>, fs: seq<Field>)
    requires SpellsFields(p, fs)
    ensures TakeFields(p) == Some(fs)
    decreases |fs|
  {
    hide SpellsField, TakeField;
    if fs != [] {
      var k :| 0 < k <= |p| && SpellsField(p[..k], fs[0]) && SpellsFields(p[k..], fs[1..]);
      FieldTaken(p[..k], fs[0], p[k..]);
      assert p == p[..k] + p[k..] && p != [];
      FieldsTaken(p[k..], fs[1..]);
      assert fs == [fs[0]] + fs[1..];
    }
  }

  lemma {:induction false} TakenFields(p: seq<byte>)
    requires TakeFields(p).Some?
    ensures SpellsFields(p, TakeFields(p).value)
    decreases |p|
  {
    hide SpellsField;
    if p != [] {
      var f := TakeField(p).value;
      TakenField(p);
      TakenFields(p[f.1..]);
      assert TakeFields(p).value[1..] == TakeFields(p[f.1..]).value;
    }
  }

  // ---- what a list of fields announces --------------------------------------

  /** No tag twice, but for the SoftDevice list. */
  predicate NoDuplicates(fs: seq<Field>) {
    forall i, j | 0 <= i < j < |fs| :: Tag(fs[i]) == Tag(fs[j]) ==> Tag(fs[i]) == 3
  }

  /** The values this bootloader can do something with. */
  predicate FieldFits(f: Field, t: Target) {
    match f
    case Number(2, v) => v == t.hw
    case Number(3, v) => v <= U16_MAX
    case Number(tag, v) => tag == 1 || tag == 7 || v == 0
    case Digest(_) => true
    case SoftDevices(ids) => forall i | 0 <= i < |ids| :: ids[i] <= U16_MAX
  }

  predicate Offers(f: Field, fwid: u16) {
    match f
    case Number(tag, v) => tag == 3 && v == fwid
    case Digest(_) => false
    case SoftDevices(ids) => fwid in ids
  }

  predicate SizeFits(size: u32, t: Target) {
    8 <= size <= t.maxImage && size % 4 == 0
  }

  /** The fields announce `image` for this target. */
  ghost predicate Announces(fs: seq<Field>, t: Target, image: Image) {
    && NoDuplicates(fs) && (forall i | 0 <= i < |fs| :: FieldFits(fs[i], t))
    && (exists i | 0 <= i < |fs| :: Tag(fs[i]) == 2) && (exists i | 0 <= i < |fs| :: Offers(fs[i], t.fwid))
    && Number(7, image.size) in fs && Digest(image.sha256) in fs && SizeFits(image.size, t)
  }

  /** The parser's memory while it goes through the fields. */
  datatype Progress = Progress(seen: set<nat>, sdMatch: bool, size: u32, sha256: seq<byte>)

  /** The values a field may have, spelled out. */
  predicate ValueAllowed(f: Field, t: Target) {
    && (f.Number? ==>
          || f.tag == 1 || f.tag == 7 || (f.tag == 2 && f.value == t.hw) || (f.tag == 3 && f.value <= 0xFFFF)
          || (f.tag != 2 && f.value == 0))
    && (f.SoftDevices? ==> forall id | id in f.ids :: id <= 0xFFFF)
  }

  lemma FitsPlainly(f: Field, t: Target)
    ensures FieldFits(f, t) <==> ValueAllowed(f, t)
  {
    if f.SoftDevices? {
      assert FieldFits(f, t) ==> forall id | id in f.ids :: id <= 0xFFFF;
      assert (forall id | id in f.ids :: id <= 0xFFFF) ==> forall i | 0 <= i < |f.ids| :: f.ids[i] in f.ids;
    }
  }

  /** What an announcement is, field by field: who it is for, what it may hold, and what it must. */
  lemma AnnouncesPlainly(fs: seq<Field>, t: Target, image: Image)
    requires forall i | 0 <= i < |fs| :: KnownTag(fs[i])
    ensures Announces(fs, t, image) <==>
              && (forall i, j | 0 <= i < j < |fs| :: fs[i].Number? && fs[j].Number? ==>
                    fs[i].tag != fs[j].tag || fs[i].tag == 3)
              && (forall i, j | 0 <= i < j < |fs| :: !fs[i].Digest? || !fs[j].Digest?)
              && (forall i | 0 <= i < |fs| :: ValueAllowed(fs[i], t))
              && Number(2, t.hw) in fs
              && (Number(3, t.fwid) in fs || exists i | 0 <= i < |fs| :: fs[i].SoftDevices? && t.fwid in fs[i].ids)
              && Number(7, image.size) in fs && Digest(image.sha256) in fs
              && 8 <= image.size <= t.maxImage && image.size % 4 == 0
  {
    hide FieldFits, ValueAllowed;
    forall i | 0 <= i < |fs| ensures FieldFits(fs[i], t) <==> ValueAllowed(fs[i], t) {
      FitsPlainly(fs[i], t);
    }
    if forall i | 0 <= i < |fs| :: FieldFits(fs[i], t) {
      HardwareNamed(fs, t);
    }
    assert (exists i | 0 <= i < |fs| :: Offers(fs[i], t.fwid)) <==>
        Number(3, t.fwid) in fs || exists i | 0 <= i < |fs| :: fs[i].SoftDevices? && t.fwid in fs[i].ids;
  }

  lemma HardwareNamed(fs: seq<Field>, t: Target)
    requires forall i | 0 <= i < |fs| :: KnownTag(fs[i]) && FieldFits(fs[i], t)
    ensures (exists i | 0 <= i < |fs| :: Tag(fs[i]) == 2) <==> Number(2, t.hw) in fs
  {}

  function Start(): Progress { Progress({}, false, 0, Fill(32, 0)) }

  function Absorb(a: Progress, f: Field, t: Target): Option<Progress> {
    if (Tag(f) in a.seen && Tag(f) != 3) || !FieldFits(f, t) then None
    else
      var a' := a.(seen := a.seen + {Tag(f)}, sdMatch := a.sdMatch || Offers(f, t.fwid));
      Some(match f
           case Number(tag, v) => if tag == 7 then a'.(size := v) else a'
           case Digest(d) => a'.(sha256 := d)
           case SoftDevices(_) => a')
  }

  predicate HasTag(fs: seq<Field>, tag: nat) {
    exists i | 0 <= i < |fs| :: Tag(fs[i]) == tag
  }

  /** What the progress says after exactly these fields. */
  ghost predicate Reflects(a: Progress, fs: seq<Field>, t: Target) {
    && NoDuplicates(fs) && (forall i | 0 <= i < |fs| :: FieldFits(fs[i], t) && KnownTag(fs[i]))
    && (forall tag: nat :: tag in a.seen <==> HasTag(fs, tag))
    && (a.sdMatch <==> exists i | 0 <= i < |fs| :: Offers(fs[i], t.fwid))
    && (forall i | 0 <= i < |fs| :: Tag(fs[i]) == 7 ==> fs[i] == Number(7, a.size))
    && (forall i | 0 <= i < |fs| :: Tag(fs[i]) == 8 ==> fs[i] == Digest(a.sha256))
  }

  lemma AbsorbReflects(a: Progress, fs: seq<Field>, f: Field, t: Target)
    requires Reflects(a, fs, t) && KnownTag(f) && Absorb(a, f, t).Some?
    ensures Reflects(Absorb(a, f, t).value, fs + [f], t)
  {
    hide FieldFits, Offers;
    var gs := fs + [f];
    TagsNext(fs, f);
    OffersNext(fs, f, t);
    assert gs[|fs|] == f && forall i | 0 <= i < |fs| :: gs[i] == fs[i];
  }

  lemma TagsNext(fs: seq<Field>, f: Field)
    ensures forall tag: nat :: HasTag(fs + [f], tag) <==> tag == Tag(f) || HasTag(fs, tag)
  {
    var gs := fs + [f];
    assert gs[|fs|] == f && forall i | 0 <= i < |fs| :: gs[i] == fs[i];
  }

  lemma OffersNext(fs: seq<Field>, f: Field, t: Target)
    ensures (exists i | 0 <= i < |fs + [f]| :: Offers((fs + [f])[i], t.fwid))
       <==> Offers(f, t.fwid) || exists i | 0 <= i < |fs| :: Offers(fs[i], t.fwid)
  {
    hide Offers;
    var gs := fs + [f];
    assert gs[|fs|] == f && forall i | 0 <= i < |fs| :: gs[i] == fs[i];
  }

  /** A field that cannot be absorbed spoils every continuation. */
  lemma RefusedSpoils(a: Progress, fs: seq<Field>, f: Field, t: Target, rest: seq<Field>, image: Image)
    requires Reflects(a, fs, t) && Absorb(a, f, t).None?
    ensures !Announces(fs + [f] + rest, t, image)
  {
    var all := fs + [f] + rest;
    assert all[|fs|] == f;
    if FieldFits(f, t) {
      var i :| 0 <= i < |fs| && Tag(fs[i]) == Tag(f);
      assert all[i] == fs[i];
    }
  }

  predicate Complete(a: Progress, t: Target) {
    {2, 3, 7, 8} <= a.seen && a.sdMatch && SizeFits(a.size, t)
  }

  lemma AnnouncedIsComplete(a: Progress, fs: seq<Field>, t: Target, image: Image)
    requires Reflects(a, fs, t) && Announces(fs, t, image)
    ensures Complete(a, t) && image == Image(a.size, a.sha256)
  {
    hide FieldFits;
    var i :| 0 <= i < |fs| && fs[i] == Number(7, image.size);
    var j :| 0 <= j < |fs| && fs[j] == Digest(image.sha256);
    var k :| 0 <= k < |fs| && Offers(fs[k], t.fwid);
    assert Tag(fs[i]) == 7 && Tag(fs[j]) == 8 && Tag(fs[k]) == 3;
  }

  lemma CompleteAnnounces(a: Progress, fs: seq<Field>, t: Target)
    requires Reflects(a, fs, t) && Complete(a, t)
    ensures Announces(fs, t, Image(a.size, a.sha256))
  {
    hide FieldFits, Offers;
    var i :| 0 <= i < |fs| && Tag(fs[i]) == 7;
    var j :| 0 <= j < |fs| && Tag(fs[j]) == 8;
    assert fs[i] == Number(7, a.size) && fs[j] == Digest(a.sha256);
  }

  /** At the end, the progress decides what was announced. */
  lemma ReflectsAnnounces(a: Progress, fs: seq<Field>, t: Target, image: Image)
    requires Reflects(a, fs, t)
    ensures Announces(fs, t, image) <==> Complete(a, t) && image == Image(a.size, a.sha256)
  {
    hide Reflects, Announces, Complete;
    if Announces(fs, t, image) {
      AnnouncedIsComplete(a, fs, t, image);
    }
    if Complete(a, t) {
      CompleteAnnounces(a, fs, t);
    }
  }

  // ---- the parser ---------------------------------------------------------

  method ReadBlock(s: seq<byte>) returns (ok: bool, block: seq<byte>, len: nat)
    ensures ok <==> TakeBlock(s).Some?
    ensures ok ==> TakeBlock(s) == Some((block, len))
  {
    var more, n, k := ReadNumber(s);
    if !more || n > |s| - k {
      return false, [], 0;
    }
    return true, s[k..k + n], k + n;
  }

  /** The list of SoftDevice ids; one that is no 16-bit number ends it. */
  method ReadIds(block: seq<byte>, t: Target) returns (ok: bool, match_: bool)
    ensures ok <==> TakeAll(block).Some? && FieldFits(SoftDevices(TakeAll(block).value), t)
    ensures ok ==> match_ == Offers(SoftDevices(TakeAll(block).value), t.fwid)
  {
    hide TakeNumber;
    match_ := false;
    var rest := block;
    ghost var ids: seq<u32> := [];
    PrependNoIds(TakeAll(block));
    while rest != []
      invariant TakeAll(block) == PrependIds(ids, TakeAll(rest))
      invariant forall i | 0 <= i < |ids| :: ids[i] <= U16_MAX
      invariant match_ <==> t.fwid in ids
      decreases |rest|
    {
      var more, n, k := ReadNumber(rest);
      if !more {
        return false, match_;
      }
      PrependIdsStep(ids, n, TakeAll(rest[k..]));
      ids := ids + [n];
      if n > U16_MAX {
        TooWide(ids, |ids| - 1, TakeAll(rest[k..]), t);
        return false, match_;
      }
      match_ := match_ || n == t.fwid;
      rest := rest[k..];
    }
    ok := true;
  }

  function PrependIds(ids: seq<u32>, rest: Option<seq<u32>>): Option<seq<u32>> {
    if rest.None? then None else Some(ids + rest.value)
  }

  lemma PrependNoIds(rest: Option<seq<u32>>)
    ensures PrependIds([], rest) == rest
  {
    assert rest.Some? ==> [] + rest.value == rest.value;
  }

  lemma PrependIdsStep(ids: seq<u32>, n: u32, rest: Option<seq<u32>>)
    ensures PrependIds(ids, if rest.None? then None else Some([n] + rest.value)) == PrependIds(ids + [n], rest)
  {
    assert rest.Some? ==> ids + ([n] + rest.value) == ids + [n] + rest.value;
  }

  lemma TooWide(ids: seq<u32>, at: nat, rest: Option<seq<u32>>, t: Target)
    requires at < |ids| && ids[at] > U16_MAX
    ensures PrependIds(ids, rest).Some? ==> !FieldFits(SoftDevices(PrependIds(ids, rest).value), t)
  {
    if rest.Some? {
      assert (ids + rest.value)[at] == ids[at];
    }
  }

  /** One field: absorbed, or refused for its spelling or for what it says. */
  method ReadField(s: seq<byte>, a: Progress, t: Target) returns (ok: bool, a': Progress, len: nat)
    requires s != []
    ensures ok <==> TakeField(s).Some? && Absorb(a, TakeField(s).value.0, t).Some?
    ensures ok ==> TakeField(s).value.1 == len && Absorb(a, TakeField(s).value.0, t) == Some(a')
  {
    hide TakeNumber, TakeBlock, TakeAll;
    a', len := a, 0;
    var more, key, k := ReadNumber(s);
    if !more || key == 0 || key / 8 > 9 {
      return false, a', len;
    }
    var field, wire := key / 8, key % 8;
    var body := s[k..];
    assert TakeField(s).Some? ==> Tag(TakeField(s).value.0) == field;
    if field in a.seen && field != 3 {
      return false, a', len;
    }
    a' := a.(seen := a.seen + {field});
    if field == 8 && wire == 2 {
      var isBlock, block, n := ReadBlock(body);
      if !isBlock || |block| != HASH_LEN || block[..4] != HASH_PREFIX {
        return false, a', len;
      }
      return true, a'.(sha256 := Reversed(block[4..])), k + n;
    }
    if field == 3 && wire == 2 {
      var isBlock, block, n := ReadBlock(body);
      if !isBlock || block == [] {
        return false, a', len;
      }
      var fine, matches := ReadIds(block, t);
      return fine, a'.(sdMatch := a.sdMatch || matches), k + n;
    }
    if wire != 0 {
      return false, a', len;
    }
    var isNumber, value, n := ReadNumber(body);
    if !isNumber {
      return false, a', len;
    }
    len := k + n;
    match field {
      case 1 =>
      case 2 =>
        if value != t.hw {
          return false, a', len;
        }
      case 3 =>
        if value > U16_MAX {
          return false, a', len;
        }
        a' := a'.(sdMatch := a.sdMatch || value == t.fwid);
      case 4 | 5 | 6 | 9 =>
        if value != 0 {
          return false, a', len;
        }
      case 7 =>
        a' := a'.(size := value);
      case _ =>
        return false, a', len;
    }
    ok := true;
  }

  /** The fields of a command, one after the other. */
  method ReadFields(s: seq<byte>, t: Target) returns (r: Option<Image>)
    ensures forall image :: r == Some(image) <==> TakeFields(s).Some? && Announces(TakeFields(s).value, t, image)
  {
    hide TakeField, Absorb, Announces, Reflects, Complete;
    var a := Start();
    ghost var fs: seq<Field> := [];
    var rest := s;
    StartReflects(t);
    JoinNone(TakeFields(s));
    while rest != []
      invariant TakeFields(s) == Join(fs, TakeFields(rest))
      invariant Reflects(a, fs, t)
      decreases |rest|
    {
      var ok, a', k := ReadField(rest, a, t);
      if !ok {
        ghost var f := TakeField(rest);
        if f.Some? && TakeFields(s).Some? {
          ghost var after := TakeFields(rest[f.value.1..]).value;
          assert TakeFields(s).value == fs + [f.value.0] + after;
          forall image ensures !Announces(TakeFields(s).value, t, image) {
            RefusedSpoils(a, fs, f.value.0, t, after, image);
          }
        }
        return None;
      }
      ghost var f := TakeField(rest).value.0;
      KnownTaken(rest);
      JoinStep(fs, f, TakeFields(rest[k..]));
      AbsorbReflects(a, fs, f, t);
      fs := fs + [f];
      a := a';
      rest := rest[k..];
    }
    assert fs + [] == fs;
    forall image ensures Announces(fs, t, image) <==> Complete(a, t) && image == Image(a.size, a.sha256) {
      ReflectsAnnounces(a, fs, t, image);
    }
    r := if Complete(a, t) then Some(Image(a.size, a.sha256)) else None;
  }

  lemma StartReflects(t: Target)
    ensures Reflects(Start(), [], t)
  {}

  lemma KnownTaken(s: seq<byte>)
    requires TakeField(s).Some?
    ensures KnownTag(TakeField(s).value.0)
  {
    hide SpellsBody, Spells;
    TakenField(s);
  }

  function Join(fs: seq<Field>, rest: Option<seq<Field>>): Option<seq<Field>> {
    if rest.None? then None else Some(fs + rest.value)
  }

  lemma JoinNone(rest: Option<seq<Field>>)
    ensures Join([], rest) == rest
  {
    assert rest.Some? ==> [] + rest.value == rest.value;
  }

  lemma JoinStep(fs: seq<Field>, f: Field, rest: Option<seq<Field>>)
    ensures Join(fs, if rest.None? then None else Some([f] + rest.value)) == Join(fs + [f], rest)
  {
    assert rest.Some? ==> fs + ([f] + rest.value) == fs + [f] + rest.value;
  }

  /** The envelope: a command that is an init command and nothing else, spelled in full. */
  ghost predicate Wraps(data: seq<byte>, init: seq<byte>) {
    && data != [] && data[0] == 10
    && exists command :: SpellsBlock(data[1..], command)
                         && |command| >= 3 && command[..3] == [8, 1, 18] && SpellsBlock(command[3..], init)
  }

  /** The bytes are a spelling, of whatever kind, of fields that announce the image. */
  ghost predicate Means(data: seq<byte>, t: Target, image: Image) {
    && 0 < |data| <= COMMAND_MAX
    && exists init, fs :: Wraps(data, init) && SpellsFields(init, fs) && Announces(fs, t, image)
  }

  /** Accepts exactly the spellings of an announcement, and returns what they announce. */
  method ParseCommand(data: seq<byte>, t: Target) returns (r: Option<Image>)
    ensures forall image :: r == Some(image) <==> Means(data, t, image)
  {
    hide TakeFields, Announces, TakeBlock, Wraps, SpellsFields;
    if data == [] || |data| > COMMAND_MAX {
      return None;
    }
    ghost var inside := Envelope(data);
    EnvelopeMeans(data, t);
    if data[0] != 10 {
      return None;
    }
    var ok, command, k := ReadBlock(data[1..]);
    if !ok || k != |data| - 1 || |command| == 0 || command[0] != 8 || |command| == 1 || command[1] != 1
       || |command| == 2 || command[2] != 18 {
      return None;
    }
    assert command[..3] == [8, 1, 18];
    var init;
    ok, init, k := ReadBlock(command[3..]);
    if !ok || k != |command| - 3 {
      return None;
    }
    r := ReadFields(init, t);
  }

  ghost function Envelope(data: seq<byte>): Option<seq<byte>> {
    if data == [] || data[0] != 10 then None
    else
      var c := TakeBlock(data[1..]);
      if c.None? || c.value.1 != |data| - 1 || |c.value.0| < 3 || c.value.0[..3] != [8, 1, 18] then None
      else
        var i := TakeBlock(c.value.0[3..]);
        if i.None? || i.value.1 != |c.value.0| - 3 then None else Some(i.value.0)
  }

  lemma BlockWhole(p: seq<byte>, block: seq<byte>)
    ensures SpellsBlock(p, block) <==> TakeBlock(p) == Some((block, |p|))
  {
    hide SpellsBlock, TakeBlock;
    assert p + [] == p;
    if SpellsBlock(p, block) {
      BlockTaken(p, block, []);
    }
    if TakeBlock(p) == Some((block, |p|)) {
      TakenBlock(p);
      assert p[..|p|] == p;
    }
  }

  lemma EnvelopeWraps(data: seq<byte>, init: seq<byte>)
    ensures Wraps(data, init) <==> Envelope(data) == Some(init)
  {
    hide SpellsBlock, TakeBlock;
    if Wraps(data, init) {
      var command :| SpellsBlock(data[1..], command) && |command| >= 3 && command[..3] == [8, 1, 18]
          && SpellsBlock(command[3..], init);
      BlockWhole(data[1..], command);
      BlockWhole(command[3..], init);
    }
    if Envelope(data) == Some(init) {
      var command := TakeBlock(data[1..]).value.0;
      BlockWhole(data[1..], command);
      BlockWhole(command[3..], init);
    }
  }

  lemma EnvelopeMeans(data: seq<byte>, t: Target)
    requires 0 < |data| <= COMMAND_MAX
    ensures forall image ::
              Means(data, t, image) <==> Envelope(data).Some? && TakeFields(Envelope(data).value).Some?
                                         && Announces(TakeFields(Envelope(data).value).value, t, image)
  {
    hide SpellsFields, TakeFields, Announces, Wraps, Envelope;
    forall image
      ensures Means(data, t, image) <==> Envelope(data).Some? && TakeFields(Envelope(data).value).Some?
                                         && Announces(TakeFields(Envelope(data).value).value, t, image)
    {
      if Means(data, t, image) {
        var init, fs :| Wraps(data, init) && SpellsFields(init, fs) && Announces(fs, t, image);
        EnvelopeWraps(data, init);
        FieldsTaken(init, fs);
      }
      if Envelope(data).Some? && TakeFields(Envelope(data).value).Some? {
        var init := Envelope(data).value;
        EnvelopeWraps(data, init);
        TakenFields(init);
      }
    }
  }

  // ---- canonical printing ---------------------------------------------------

  function PrintBlock(block: seq<byte>): seq<byte> { PrintNumber(|block|) + block }

  function PrintAll(ns: seq<u32>): seq<byte> {
    if ns == [] then [] else PrintNumber(ns[0]) + PrintAll(ns[1..])
  }

  function PrintField(f: Field): seq<byte> {
    PrintNumber(Key(f)) +
    match f
    case Number(_, value) => PrintNumber(value)
    case Digest(digest) => PrintBlock(HASH_PREFIX + Reversed(digest))
    case SoftDevices(ids) => PrintBlock(PrintAll(ids))
  }

  function PrintFields(fs: seq<Field>): seq<byte> {
    if fs == [] then [] else PrintField(fs[0]) + PrintFields(fs[1..])
  }

  function PrintCommand(fs: seq<Field>): seq<byte> {
    [10] + PrintBlock([8, 1, 18] + PrintBlock(PrintFields(fs)))
  }

  predicate Printable(f: Field) {
    KnownTag(f) && (f.Digest? ==> |f.digest| == 32) && (f.SoftDevices? ==> f.ids != [] && |PrintAll(f.ids)| <= U32_MAX)
  }

  lemma PrintedBlock(block: seq<byte>)
    requires |block| <= U32_MAX
    ensures SpellsBlock(PrintBlock(block), block)
  {
    PrintedNumber(|block|);
    hide Spells;
    var k := |PrintNumber(|block|)|;
    assert PrintBlock(block)[..k] == PrintNumber(|block|) && PrintBlock(block)[k..] == block;
  }

  lemma {:induction false} PrintedAll(ns: seq<u32>)
    ensures SpellsAll(PrintAll(ns), ns)
    decreases |ns|
  {
    hide Spells;
    if ns != [] {
      PrintedNumber(ns[0]);
      PrintedAll(ns[1..]);
      var k := |PrintNumber(ns[0])|;
      assert PrintAll(ns)[..k] == PrintNumber(ns[0]) && PrintAll(ns)[k..] == PrintAll(ns[1..]);
    }
  }

  lemma PrintedField(f: Field)
    requires Printable(f)
    ensures SpellsField(PrintField(f), f)
  {
    hide Spells, SpellsBlock, SpellsAll;
    PrintedNumber(Key(f));
    var k := |PrintNumber(Key(f))|;
    var body := PrintField(f)[k..];
    assert PrintField(f)[..k] == PrintNumber(Key(f));
    match f
    case Number(_, value) =>
      PrintedNumber(value);
    case Digest(digest) =>
      PrintedBlock(HASH_PREFIX + Reversed(digest));
      assert body == PrintBlock(HASH_PREFIX + Reversed(digest));
    case SoftDevices(ids) =>
      PrintedAll(ids);
      PrintedBlock(PrintAll(ids));
      assert body == PrintBlock(PrintAll(ids));
  }

  lemma {:induction false} PrintedFields(fs: seq<Field>)
    requires forall i | 0 <= i < |fs| :: Printable(fs[i])
    ensures SpellsFields(PrintFields(fs), fs)
    decreases |fs|
  {
    hide SpellsField, PrintField;
    if fs != [] {
      PrintedField(fs[0]);
      PrintedFields(fs[1..]);
      var k := |PrintField(fs[0])|;
      SomethingPrinted(fs[0]);
      assert PrintFields(fs)[..k] == PrintField(fs[0]) && PrintFields(fs)[k..] == PrintFields(fs[1..]);
    }
  }

  lemma SomethingPrinted(f: Field)
    ensures PrintField(f) != []
  {}

  /** A printed announcement that fits the buffer is understood, in whatever order and with whatever lists. */
  lemma PrintedIsMeant(fs: seq<Field>, t: Target, image: Image)
    requires forall i | 0 <= i < |fs| :: Printable(fs[i])
    requires |PrintCommand(fs)| <= COMMAND_MAX && Announces(fs, t, image)
    ensures Means(PrintCommand(fs), t, image)
  {
    hide SpellsFields, Announces, SpellsBlock, PrintFields;
    var init := PrintFields(fs);
    var command := [8, 1, 18] + PrintBlock(init);
    var data := PrintCommand(fs);
    PrintedFields(fs);
    PrintedBlock(init);
    PrintedBlock(command);
    assert data[1..] == PrintBlock(command) && command[3..] == PrintBlock(init) && command[..3] == [8, 1, 18];
    assert Wraps(data, init);
  }

  /** A command means one image at most. */
  lemma MeaningIsUnique(data: seq<byte>, t: Target, image: Image, other: Image)
    requires Means(data, t, image) && Means(data, t, other)
    ensures image == other
  {
    EnvelopeMeans(data, t);
    hide Means, TakeFields, Envelope, Announces;
    AnnouncedIsUnique(TakeFields(Envelope(data).value).value, t, image, other);
  }

  lemma AnnouncedIsUnique(fs: seq<Field>, t: Target, image: Image, other: Image)
    requires Announces(fs, t, image) && Announces(fs, t, other)
    ensures image == other
  {
    hide FieldFits, Offers, SizeFits;
    var i :| 0 <= i < |fs| && fs[i] == Number(7, image.size);
    var i' :| 0 <= i' < |fs| && fs[i'] == Number(7, other.size);
    var j :| 0 <= j < |fs| && fs[j] == Digest(image.sha256);
    var j' :| 0 <= j' < |fs| && fs[j'] == Digest(other.sha256);
    assert Tag(fs[i]) == Tag(fs[i']) == 7 && Tag(fs[j]) == Tag(fs[j']) == 8;
  }

  // ---- which accepted commands are canonical ----------------------------------

  /** A number spelled without a needless last byte. */
  predicate Shortest(p: seq<byte>) {
    p != [] && (|p| == 1 || p[|p| - 1] != 0)
  }

  lemma {:induction false} LastCounts(p: seq<byte>)
    requires p != [] && p[|p| - 1] % 0x80 != 0
    ensures Value(p) > 0
  {
    if |p| > 1 {
      LastCounts(p[1..]);
    }
  }

  lemma {:induction false} PrintedIsShortest(n: nat)
    ensures Shortest(PrintNumber(n)) && (n > 0 ==> PrintNumber(n)[|PrintNumber(n)| - 1] != 0)
  {
    if n >= 0x80 {
      PrintedIsShortest(n / 0x80);
    }
  }

  lemma {:induction false} ShortestIsPrinted(p: seq<byte>)
    requires Shortest(p) && p[|p| - 1] < 0x80 && forall i | 0 <= i < |p| - 1 :: p[i] >= 0x80
    ensures p == PrintNumber(Value(p))
    decreases |p|
  {
    hide Value, PrintNumber;
    assert p == [p[0]] + p[1..];
    ValueStep(p[0], p[1..]);
    if |p| == 1 {
      ValueNone();
      PrintStep(p[0], 0);
    } else {
      LastCounts(p[1..]);
      ShortestIsPrinted(p[1..]);
      PrintStep(p[0], Value(p[1..]));
    }
  }

  lemma PrintStep(b: byte, more: nat)
    requires more == 0 || b >= 0x80
    ensures PrintNumber(b % 0x80 + 0x80 * more) == if more == 0 then [b % 0x80] else [b] + PrintNumber(more)
  {
    var n := b % 0x80 + 0x80 * more;
    assert n % 0x80 == b % 0x80 && n / 0x80 == more;
  }

  /** Among all spellings of a number the printed one is the one without a needless last byte. */
  lemma CanonicalNumber(p: seq<byte>, n: nat)
    requires Spells(p, n)
    ensures p == PrintNumber(n) <==> Shortest(p)
  {
    PrintedIsShortest(n);
    if Shortest(p) {
      ShortestIsPrinted(p);
    }
  }

  /** The number at the start, as it is spelled. */
  function FirstNumber(s: seq<byte>): seq<byte> {
    var n := TakeNumber(s);
    if n.None? then [] else s[..n.value.1]
  }

  /** What follows the number at the start. */
  function AfterNumber(s: seq<byte>): (r: seq<byte>)
    ensures TakeNumber(s).Some? ==> |r| < |s|
  {
    var n := TakeNumber(s);
    if n.None? then [] else s[n.value.1..]
  }

  predicate ShortAll(s: seq<byte>)
    decreases |s|
  {
    s == [] || (TakeNumber(s).Some? && Shortest(FirstNumber(s)) && ShortAll(AfterNumber(s)))
  }

  predicate ShortBody(f: Field, s: seq<byte>) {
    Shortest(FirstNumber(s)) && (f.SoftDevices? ==> ShortAll(AfterNumber(s)))
  }

  /** Every number of a field, its key and lengths included, is spelled as short as it can be. */
  predicate ShortField(f: Field, s: seq<byte>) {
    Shortest(FirstNumber(s)) && ShortBody(f, AfterNumber(s))
  }

  predicate ShortFields(s: seq<byte>)
    decreases |s|
  {
    var f := TakeField(s);
    s == [] || (f.Some? && ShortField(f.value.0, s[..f.value.1]) && ShortFields(s[f.value.1..]))
  }

  /** Every number of a command is spelled as short as it can be. */
  ghost predicate ShortCommand(data: seq<byte>) {
    && data != [] && Shortest(FirstNumber(data[1..])) && |AfterNumber(data[1..])| >= 3
    && Shortest(FirstNumber(AfterNumber(data[1..])[3..])) && Envelope(data).Some? && ShortFields(Envelope(data).value)
  }

  /** A number and what follows it is printed exactly when both are. */
  lemma NumberSplits(p: seq<byte>, k: nat, n: nat, rest: seq<byte>)
    requires 0 < k <= |p| && Spells(p[..k], n)
    ensures FirstNumber(p) == p[..k] && AfterNumber(p) == p[k..]
    ensures p == PrintNumber(n) + rest <==> Shortest(p[..k]) && p[k..] == rest
  {
    hide Spells, TakeNumber, PrintNumber, Shortest;
    SpelledIsTaken(p[..k], n, p[k..]);
    assert p == p[..k] + p[k..];
    NumberInRange(p[..k], n);
    PrintedNumber(n);
    SpelledIsTaken(PrintNumber(n), n, rest);
    CanonicalNumber(p[..k], n);
    if p == PrintNumber(n) + rest {
      assert p[..k] == PrintNumber(n) && p[k..] == rest;
    }
  }

  lemma NumberInRange(p: seq<byte>, n: nat)
    requires Spells(p, n)
    ensures n <= U32_MAX
  {}

  lemma {:induction false} AllCanonical(p: seq<byte>, ns: seq<u32>)
    requires SpellsAll(p, ns)
    ensures p == PrintAll(ns) <==> ShortAll(p)
    decreases |ns|
  {
    hide Spells, TakeNumber, PrintNumber, Shortest;
    if ns != [] {
      var k :| 0 < k <= |p| && Spells(p[..k], ns[0]) && SpellsAll(p[k..], ns[1..]);
      NumberSplits(p, k, ns[0], PrintAll(ns[1..]));
      AllCanonical(p[k..], ns[1..]);
      SpelledIsTaken(p[..k], ns[0], p[k..]);
      assert p == p[..k] + p[k..];
    }
  }

  lemma BlockCanonical(p: seq<byte>, block: seq<byte>)
    requires SpellsBlock(p, block)
    ensures p == PrintBlock(block) <==> Shortest(FirstNumber(p))
    ensures AfterNumber(p) == block
  {
    hide Spells, TakeNumber, PrintNumber, Shortest;
    var k :| 0 < k <= |p| && Spells(p[..k], |p| - k) && p[k..] == block;
    NumberSplits(p, k, |p| - k, block);
  }

  lemma BodyCanonical(p: seq<byte>, f: Field)
    requires SpellsBody(p, f)
    ensures PrintField(f) == PrintNumber(Key(f)) + PrintBody(f)
    ensures p == PrintBody(f) <==> ShortBody(f, p)
  {
    hide Spells, TakeNumber, PrintNumber, Shortest, SpellsBlock;
    match f
    case Number(_, value) =>
      assert p[..|p|] == p && PrintNumber(value) + [] == PrintNumber(value);
      SpelledNotEmpty(p, value);
      NumberSplits(p, |p|, value, []);
    case Digest(digest) =>
      BlockCanonical(p, HASH_PREFIX + Reversed(digest));
    case SoftDevices(ids) =>
      var block :| SpellsBlock(p, block) && SpellsAll(block, ids);
      BlockCanonical(p, block);
      AllCanonical(block, ids);
      PrintAllShort(block, ids);
      BlockFits(p, block);
      BlocksDiffer(p, block, PrintAll(ids));
  }

  lemma BlockFits(p: seq<byte>, block: seq<byte>)
    requires SpellsBlock(p, block)
    ensures |block| <= U32_MAX
  {}

  lemma SpelledNotEmpty(p: seq<byte>, n: nat)
    requires Spells(p, n)
    ensures p != []
  {}

  /** A spelled block is printed as itself and as nothing else. */
  lemma BlocksDiffer(p: seq<byte>, block: seq<byte>, other: seq<byte>)
    requires SpellsBlock(p, block) && |other| <= U32_MAX
    ensures p == PrintBlock(other) ==> other == block
  {
    hide SpellsBlock;
    if p == PrintBlock(other) {
      PrintedBlock(other);
      BlockCanonical(p, block);
      BlockCanonical(p, other);
    }
  }

  function PrintBody(f: Field): seq<byte> {
    match f
    case Number(_, value) => PrintNumber(value)
    case Digest(digest) => PrintBlock(HASH_PREFIX + Reversed(digest))
    case SoftDevices(ids) => PrintBlock(PrintAll(ids))
  }

  lemma FieldCanonical(p: seq<byte>, f: Field)
    requires SpellsField(p, f) && Printable(f)
    ensures p == PrintField(f) <==> ShortField(f, p)
  {
    hide Spells, TakeNumber, PrintNumber, Shortest, SpellsBody, PrintBody, PrintField, ShortBody;
    var k :| 0 < k <= |p| && Spells(p[..k], Key(f)) && SpellsBody(p[k..], f);
    BodyCanonical(p[k..], f);
    NumberSplits(p, k, Key(f), PrintBody(f));
  }

  lemma {:induction false} FieldsCanonical(p: seq<byte>, fs: seq<Field>)
    requires SpellsFields(p, fs) && forall i | 0 <= i < |fs| :: Printable(fs[i])
    ensures p == PrintFields(fs) <==> ShortFields(p)
    decreases |fs|
  {
    hide SpellsField, TakeField, PrintField, ShortField, Printable;
    if fs != [] {
      var k :| 0 < k <= |p| && SpellsField(p[..k], fs[0]) && SpellsFields(p[k..], fs[1..]);
      FieldTaken(p[..k], fs[0], p[k..]);
      assert p == p[..k] + p[k..];
      FieldCanonical(p[..k], fs[0]);
      FieldsCanonical(p[k..], fs[1..]);
      PrintedField(fs[0]);
      FieldTaken(PrintField(fs[0]), fs[0], PrintFields(fs[1..]));
      if p == PrintField(fs[0]) + PrintFields(fs[1..]) {
        assert p[..k] == PrintField(fs[0]) && p[k..] == PrintFields(fs[1..]);
      }
    }
  }

  /** Ids that were read can be printed: their shortest spelling is no longer than the one they came in. */
  lemma {:induction false} PrintAllShort(p: seq<byte>, ns: seq<u32>)
    requires SpellsAll(p, ns)
    ensures |PrintAll(ns)| <= |p|
    decreases |ns|
  {
    hide Spells;
    if ns != [] {
      var k :| 0 < k <= |p| && Spells(p[..k], ns[0]) && SpellsAll(p[k..], ns[1..]);
      PrintNumberShort(p[..k], ns[0]);
      PrintAllShort(p[k..], ns[1..]);
    }
  }

  lemma {:induction false} PrintNumberShortest(p: seq<byte>)
    requires p != []
    ensures |PrintNumber(Value(p))| <= |p|
    decreases |p|
  {
    if |p| == 1 {
      assert Value(p[1..]) == 0;
    } else {
      PrintNumberShortest(p[1..]);
    }
  }

  lemma PrintNumberShort(p: seq<byte>, n: nat)
    requires Spells(p, n)
    ensures |PrintNumber(n)| <= |p|
  {
    PrintNumberShortest(p);
  }

  lemma {:induction false} SpelledPrintable(p: seq<byte>, fs: seq<Field>)
    requires SpellsFields(p, fs) && |p| <= U32_MAX
    ensures forall i | 0 <= i < |fs| :: Printable(fs[i])
    decreases |fs|
  {
    hide SpellsField, Printable;
    if fs != [] {
      var k :| 0 < k <= |p| && SpellsField(p[..k], fs[0]) && SpellsFields(p[k..], fs[1..]);
      FieldPrintable(p[..k], fs[0]);
      SpelledPrintable(p[k..], fs[1..]);
      assert fs == [fs[0]] + fs[1..];
    }
  }

  lemma FieldPrintable(p: seq<byte>, f: Field)
    requires SpellsField(p, f) && |p| <= U32_MAX
    ensures Printable(f)
  {
    hide Spells, PrintAll;
    var k :| 0 < k <= |p| && Spells(p[..k], Key(f)) && SpellsBody(p[k..], f);
    if f.SoftDevices? {
      var block :| SpellsBlock(p[k..], block) && SpellsAll(block, f.ids);
      PrintAllShort(block, f.ids);
    }
  }

  /**
   * Which accepted commands are canonical: an accepted command is the printed
   * form of its fields exactly when every number in it is as short as it can
   * be. Others are accepted as well.
   */
  lemma CommandCanonical(data: seq<byte>, t: Target, image: Image)
    requires Means(data, t, image)
    ensures Envelope(data).Some? && TakeFields(Envelope(data).value).Some?
    ensures data == PrintCommand(TakeFields(Envelope(data).value).value) <==> ShortCommand(data)
  {
    EnvelopeMeans(data, t);
    var init := Envelope(data).value;
    var fs := TakeFields(init).value;
    hide Means, Announces, SpellsBlock, SpellsFields, PrintNumber;
    hide TakeNumber, TakeFields, ShortFields, PrintFields, Shortest;
    EnvelopeWraps(data, init);
    TakenFields(init);
    var command :| SpellsBlock(data[1..], command) && |command| >= 3 && command[..3] == [8, 1, 18]
        && SpellsBlock(command[3..], init);
    BlockShorter(data[1..], command);
    BlockShorter(command[3..], init);
    DataBounded(data, t, image);
    SpelledPrintable(init, fs);
    FieldsCanonical(init, fs);
    BlockCanonical(data[1..], command);
    BlockCanonical(command[3..], init);
    WrappedCanonical(data, command, init, PrintFields(fs));
  }

  lemma DataBounded(data: seq<byte>, t: Target, image: Image)
    requires Means(data, t, image)
    ensures |data| <= COMMAND_MAX
  {}

  lemma BlockShorter(p: seq<byte>, block: seq<byte>)
    requires SpellsBlock(p, block)
    ensures |block| < |p|
  {}

  /** The two length-prefixed layers are printed exactly when both lengths are short and the inside is printed. */
  lemma WrappedCanonical(data: seq<byte>, command: seq<byte>, init: seq<byte>, printed: seq<byte>)
    requires data != [] && data[0] == 10 && |data| <= COMMAND_MAX && SpellsBlock(data[1..], command)
    requires |command| >= 3 && command[..3] == [8, 1, 18] && SpellsBlock(command[3..], init)
    requires data[1..] == PrintBlock(command) <==> Shortest(FirstNumber(data[1..]))
    requires command[3..] == PrintBlock(init) <==> Shortest(FirstNumber(command[3..]))
    ensures data == [10] + PrintBlock([8, 1, 18] + PrintBlock(printed)) <==>
            Shortest(FirstNumber(data[1..])) && Shortest(FirstNumber(command[3..])) && init == printed
  {
    hide Shortest, FirstNumber, SpellsBlock, PrintBlock;
    var inner := [8, 1, 18] + PrintBlock(printed);
    assert data == [10] + data[1..] && command == [8, 1, 18] + command[3..];
    if data == [10] + PrintBlock(inner) {
      assert data[1..] == PrintBlock(inner);
      PrintBlockLength(inner);
      BlocksDiffer(data[1..], command, inner);
      assert command[3..] == PrintBlock(printed);
      PrintBlockLength(printed);
      BlocksDiffer(command[3..], init, printed);
    }
  }

  lemma PrintBlockLength(block: seq<byte>)
    ensures |block| < |PrintBlock(block)|
  {}

  /** An accepted command need not be canonical: here the hardware version is spelled in two bytes. */
  lemma OverlongIsMeant()
    ensures var t := Target(1, 5, 8);
            var image := Image(8, Fill(32, 0));
            var overlong := [0x10, 0x81, 0x00] + PrintFields([Number(3, 5), Number(7, 8), Digest(Fill(32, 0))]);
            var data := [10] + PrintBlock([8, 1, 18] + PrintBlock(overlong));
            |data| <= COMMAND_MAX && Means(data, t, image) && !ShortCommand(data)
  {
    hide PrintFields, PrintBlock, SpellsFields, ShortFields, Announces, Means, ShortCommand, Printable;
    var t, image := Target(1, 5, 8), Image(8, Fill(32, 0));
    var rest := [Number(3, 5), Number(7, 8), Digest(Fill(32, 0))];
    var fs := [Number(2, 1)] + rest;
    var overlong := [0x10, 0x81, 0x00] + PrintFields(rest);
    RestPrinted();
    PrintedFields(rest);
    OverlongField();
    OverlongFields(overlong, rest);
    assert fs == [Number(2, 1), Number(3, 5), Number(7, 8), Digest(Fill(32, 0))];
    ExampleAnnounces(fs, t, image);
    ExampleWrapped(overlong, fs, t, image);
  }

  lemma RestPrinted()
    ensures var rest := [Number(3, 5), Number(7, 8), Digest(Fill(32, 0))];
            |PrintFields(rest)| == 42 && forall i | 0 <= i < |rest| :: Printable(rest[i])
  {
    var d := Digest(Fill(32, 0));
    var rest := [Number(3, 5), Number(7, 8), d];
    assert rest[1..] == [Number(7, 8), d] && rest[1..][1..] == [d] && [d][1..] == [];
    assert |PrintField(d)| == 38;
    assert PrintFields([d]) == PrintField(d) + PrintFields([]);
    assert PrintFields(rest[1..]) == PrintField(Number(7, 8)) + PrintFields([d]);
  }

  lemma OverlongField()
    ensures SpellsField([0x10, 0x81, 0x00], Number(2, 1)) && !Shortest([0x81, 0x00])
    ensures TakeField([0x10, 0x81, 0x00]) == Some((Number(2, 1), 3)) && !ShortField(Number(2, 1), [0x10, 0x81, 0x00])
  {
    hide Spells, TakeNumber, Value;
    var p, v := [0x10, 0x81, 0x00], [0x81, 0x00];
    OverlongNumbers();
    assert p[..1] == [0x10] && p[1..] == v && p == [0x10] + v && p + [] == p && v + [] == v && v[..2] == v;
    assert SpellsBody(p[1..], Number(2, 1));
    FieldTaken(p, Number(2, 1), []);
    SpelledIsTaken([0x10], 16, v);
    SpelledIsTaken(v, 1, []);
  }

  lemma OverlongNumbers()
    ensures Spells([0x10], 16) && Spells([0x81, 0x00], 1)
  {
    hide Value;
    ValueNone();
    ValueStep(0x10, []);
    ValueStep(0x00, []);
    ValueStep(0x81, [0x00]);
    assert [0x10] + [] == [0x10] && [0x00] + [] == [0x00] && [0x81] + [0x00] == [0x81, 0x00];
  }

  lemma OverlongFields(p: seq<byte>, rest: seq<Field>)
    requires p == [0x10, 0x81, 0x00] + PrintFields(rest) && SpellsFields(PrintFields(rest), rest)
    requires SpellsField([0x10, 0x81, 0x00], Number(2, 1)) && !ShortField(Number(2, 1), [0x10, 0x81, 0x00])
    ensures SpellsFields(p, [Number(2, 1)] + rest) && !ShortFields(p)
  {
    hide SpellsField, ShortField, TakeField;
    var fs := [Number(2, 1)] + rest;
    assert p[..3] == [0x10, 0x81, 0x00] && p[3..] == PrintFields(rest) && fs[1..] == rest;
    FieldTaken([0x10, 0x81, 0x00], Number(2, 1), PrintFields(rest));
  }

  lemma ExampleAnnounces(fs: seq<Field>, t: Target, image: Image)
    requires fs == [Number(2, 1), Number(3, 5), Number(7, 8), Digest(Fill(32, 0))] && t == Target(1, 5, 8)
    requires image == Image(8, Fill(32, 0))
    ensures Announces(fs, t, image)
  {
    assert Tag(fs[0]) == 2 && Offers(fs[1], t.fwid) && fs[2] == Number(7, 8) && fs[3] == Digest(Fill(32, 0));
  }

  lemma ExampleWrapped(init: seq<byte>, fs: seq<Field>, t: Target, image: Image)
    requires |init| <= 100 && SpellsFields(init, fs) && Announces(fs, t, image) && !ShortFields(init)
    ensures var data := [10] + PrintBlock([8, 1, 18] + PrintBlock(init));
            |data| <= COMMAND_MAX && Means(data, t, image) && !ShortCommand(data)
  {
    hide SpellsFields, Announces, ShortFields, SpellsBlock;
    var command := [8, 1, 18] + PrintBlock(init);
    var data := [10] + PrintBlock(command);
    PrintedBlock(init);
    PrintedBlock(command);
    assert data[1..] == PrintBlock(command) && command[3..] == PrintBlock(init) && command[..3] == [8, 1, 18];
    assert Wraps(data, init);
    EnvelopeWraps(data, init);
  }
}
