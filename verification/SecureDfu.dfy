/**
 * The Secure DFU session: objects are created, filled by packets, and
 * executed. What the session has given to flash, and what its receipts say,
 * is proved against the transcript of the exchange with the client and
 * against the log of the platform hooks.
 */
module SecureDfu {
  import opened Bytes
  import opened Crc
  import opened InitCommand

  const OBJECT_MAX: nat := 4096

  const CREATE: byte := 1
  const SET_PRN: byte := 2
  const CHECKSUM: byte := 3
  const EXECUTE: byte := 4
  const SELECT: byte := 6

  const NOTHING: byte := 0
  const COMMAND: byte := 1
  const DATA: byte := 2

  const OK: byte := 1
  const NOT_SUPPORTED: byte := 2
  const BAD_PARAMETER: byte := 3
  const BAD_OBJECT: byte := 5
  const BAD_TYPE: byte := 7
  const NOT_PERMITTED: byte := 8
  const FAILED: byte := 10

  // ---- the hooks as flash sees them -----------------------------------------

  /** One call of a platform hook and its outcome. */
  datatype Event =
    | Begin(image: Image, ok: bool)
    | Write(data: seq<byte>, ok: bool)
    | Finish(ok: bool)

  /** Where the device stands after a legal run of hook calls. */
  datatype Phase =
    | Idle
    | Receiving(image: Image, written: seq<byte>)
    | Done(image: Image, written: seq<byte>)
    | Dead

  /** An object that may follow `written`: whole words, one object's length, and inside the image. */
  predicate ObjectFits(image: Image, written: seq<byte>, data: seq<byte>) {
    && |data| == Min(image.size - |written|, OBJECT_MAX) && |data| > 0 && |data| % 4 == 0 && |written| % OBJECT_MAX == 0
  }

  /** The only calls ever made; nothing follows a failed hook or a finish. */
  function Advance(p: Phase, e: Event): Option<Phase> {
    match e
    case Begin(image, ok) =>
      if p.Idle? || p.Receiving? then Some(if ok then Receiving(image, []) else Dead) else None
    case Write(data, ok) =>
      if !p.Receiving? || !ObjectFits(p.image, p.written, data) then None
      else Some(if ok then Receiving(p.image, p.written + data) else Dead)
    case Finish(ok) =>
      if !p.Receiving? || |p.written| != p.image.size then None
      else Some(if ok then Done(p.image, p.written) else Dead)
  }

  function Track(log: seq<Event>): Option<Phase>
    decreases |log|
  {
    if log == [] then Some(Idle)
    else
      var p := Track(log[..|log| - 1]);
      if p.None? then None else Advance(p.value, log[|log| - 1])
  }

  lemma TrackNext(log: seq<Event>, e: Event)
    ensures Track(log + [e]) == if Track(log).None? then None else Advance(Track(log).value, e)
  {
    assert (log + [e])[..|log|] == log;
  }

  /** In a legal log, a failed hook or a finish is the last call of all. */
  lemma {:induction false} NothingFollows(log: seq<Event>, i: nat)
    requires Track(log).Some? && i < |log| && (!log[i].ok || log[i].Finish?)
    ensures i == |log| - 1
  {
    var shorter := log[..|log| - 1];
    if i < |log| - 1 {
      NothingFollows(shorter, i);
    }
  }

  /** All that was successfully written since the last image was begun, in order. */
  function WrittenBytes(log: seq<Event>): seq<byte>
    decreases |log|
  {
    if log == [] then []
    else
      var before := WrittenBytes(log[..|log| - 1]);
      match log[|log| - 1]
      case Begin(_, _) => []
      case Write(data, ok) => if ok then before + data else before
      case Finish(_) => before
  }

  lemma {:induction false} TrackWritten(log: seq<Event>)
    requires Track(log).Some?
    ensures var p := Track(log).value; p.Receiving? || p.Done? ==> p.written == WrittenBytes(log)
    ensures Track(log).value.Done? ==> log != [] && log[|log| - 1] == Finish(true)
    ensures Track(log).value.Dead? ==> log != [] && !log[|log| - 1].ok
    decreases |log|
  {
    if log != [] {
      TrackWritten(log[..|log| - 1]);
    }
  }

  // ---- the exchange as the client sees it -----------------------------------

  datatype Request = Control(bytes: seq<byte>) | Packet(bytes: seq<byte>)

  datatype Exchange = Exchange(request: Request, reply: seq<byte>)

  /** What the client knows from requests and replies alone; the sizes are those it has announced. */
  datatype View = View(
    selected: byte, command: seq<byte>, commandSize: nat, announced: bool, stream: seq<byte>, partial: seq<byte>,
        objectSize: nat)

  const NEW_VIEW: View := View(NOTHING, [], 0, false, [], [], 0)

  /** An accepted command announces its image; an executed object joins the stream, once. */
  function Executed(v: View, status: byte): View {
    if v.selected == DATA && (status == OK || status == BAD_OBJECT) then
      v.(stream := v.stream + v.partial, partial := [], objectSize := 0)
    else if v.selected == COMMAND && status == OK then v.(announced := true)
    else v
  }

  function Created(v: View, type_: byte, n: nat): View {
    if type_ == COMMAND then NEW_VIEW.(selected := COMMAND, commandSize := n)
    else v.(selected := type_, partial := [], objectSize := n)
  }

  function Observe(v: View, x: Exchange): View {
    match x.request
    case Packet(bytes) =>
      if |x.reply| == 3 then v
      else if v.selected == COMMAND then v.(command := v.command + bytes)
      else v.(partial := v.partial + bytes)
    case Control(bytes) =>
      if bytes == [] || |x.reply| < 3 then v
      else if bytes[0] == EXECUTE then Executed(v, x.reply[2])
      else if x.reply[2] != OK || |bytes| < 2 then v
      else if bytes[0] == CREATE then if |bytes| == 6 then Created(v, bytes[1], Get32(bytes[2..])) else v
      else if bytes[0] == SELECT then v.(selected := bytes[1])
      else v
  }

  function Replay(transcript: seq<Exchange>): View
    decreases |transcript|
  {
    if transcript == [] then NEW_VIEW
    else Observe(Replay(transcript[..|transcript| - 1]), transcript[|transcript| - 1])
  }

  lemma ReplayNext(transcript: seq<Exchange>, x: Exchange)
    ensures Replay(transcript + [x]) == Observe(Replay(transcript), x)
  {
    assert (transcript + [x])[..|transcript|] == transcript;
  }

  lemma ObservePacket(v: View, x: Exchange)
    requires x.request.Packet?
    ensures Observe(v, x) == if |x.reply| == 3 then v
                             else if v.selected == COMMAND then v.(command := v.command + x.request.bytes)
                             else v.(partial := v.partial + x.request.bytes)
  {}

  /** A receipt: how many bytes have been received, and their CRC. */
  function Receipt(v: View): (r: seq<byte>)
    ensures |r| == 8
  {
    var received := if v.selected == COMMAND then v.command else v.stream + v.partial;
    Put32(Wrap32(|received|)) + WordBytes(Crc32(received))
  }

  lemma CrcGrows(a: seq<byte>, b: seq<byte>)
    ensures Update(Crc32(a), b) == Crc32(a + b)
  {
    hide Update;
    UpdateAppend(0, a, b);
  }

  lemma CrcOfNothing()
    ensures Crc32([]) == 0
  {
    RunNone(Inv(0));
    InvTwice(0);
  }

  // ---- the session ----------------------------------------------------------

  /** The session's fields; the two buffers are kept beside it. */
  datatype State = State(
    image: Image,
    commandSize: u32, commandOffset: u32, commandCrc: bv32,
    committed: u32, committedCrc: bv32, objectSize: u32, objectOffset: u32, dataCrc: bv32,
    prn: u16, prnCount: u16, selected: byte,
    initialized: bool, executed: bool, completed: bool, failed: bool)

  function Zero(): State {
    State(Image(0, []), 0, 0, 0, 0, 0, 0, 0, 0, 0, 0, NOTHING, false, false, false, false)
  }

  predicate InBounds(s: State) {
    && s.commandOffset <= s.commandSize <= COMMAND_MAX
    && s.objectOffset <= s.objectSize <= OBJECT_MAX
    && (s.prnCount == 0 || s.prnCount < s.prn)
    && s.selected <= DATA
  }

  /** The progress of the image, as far as it is known. */
  predicate ImageInBounds(s: State) {
    && (s.initialized ==>
          && s.image.size % 4 == 0 && 0 < s.image.size && s.committed + s.objectSize <= s.image.size
          && (s.committed % OBJECT_MAX == 0 || s.committed == s.image.size)
          && (s.objectSize > 0 ==>
                && s.objectSize == Min(s.image.size - s.committed, OBJECT_MAX) && !s.executed
                && s.committed < s.image.size)
          && (s.committed == s.image.size ==> s.completed || s.failed))
    && (!s.initialized ==> s.committed == 0 && s.objectSize == 0 && !s.executed && !s.completed)
    && (s.executed ==> s.objectSize == 0)
    && (s.completed ==> s.committed == s.image.size && s.executed && !s.failed)
  }

  /** The fields say what the client's view `v` says. */
  ghost predicate Agrees(s: State, command: seq<byte>, data: seq<byte>, v: View, t: Target) {
    && |command| == COMMAND_MAX && |data| == OBJECT_MAX && s.commandOffset <= COMMAND_MAX
    && s.objectOffset <= OBJECT_MAX
    && v.selected == s.selected && v.commandSize == s.commandSize && v.objectSize == s.objectSize
    && v.announced == s.initialized
    && v.command == command[..s.commandOffset] && s.commandCrc == Crc32(v.command)
    && |v.stream| == s.committed && s.committedCrc == Crc32(v.stream)
    && v.partial == data[..s.objectOffset] && s.dataCrc == Crc32(v.stream + v.partial)
    && (s.initialized ==> s.commandOffset == s.commandSize && Means(v.command, t, s.image))
  }

  /** The fields say how the run of hook calls ended, and `v` what it wrote. */
  predicate Logged(s: State, log: seq<Event>, v: View) {
    var p := Track(log);
    && p.Some?
    && (s.failed <==> p.value == Dead)
    && (if s.completed then p.value == Done(s.image, v.stream) else !p.value.Done?)
    && (s.initialized && !s.failed && !s.completed ==> p.value == Receiving(s.image, v.stream))
  }

  ghost predicate Holds(s: State, command: seq<byte>, data: seq<byte>, log: seq<Event>, v: View, t: Target) {
    InBounds(s) && ImageInBounds(s) && Agrees(s, command, data, v, t) && Logged(s, log, v)
  }

  lemma ZeroHolds(command: seq<byte>, data: seq<byte>, log: seq<Event>, t: Target)
    requires |command| == COMMAND_MAX && |data| == OBJECT_MAX
    requires Track(log).Some? && !Track(log).value.Dead? && !Track(log).value.Done?
    ensures Holds(Zero(), command, data, log, NEW_VIEW, t)
  {
    hide Crc32, Means, Track;
    CrcOfNothing();
    var v := NEW_VIEW;
    assert v.stream + v.partial == [];
  }

  /** Only bytes not yet executed are dropped when a data object is started anew. */
  lemma DataCreated(s: State, command: seq<byte>, data: seq<byte>, log: seq<Event>, v: View, t: Target, n: u32)
    requires Holds(s, command, data, log, v, t) && s.initialized && !s.failed && !s.completed
    requires n == Min(s.image.size - s.committed, OBJECT_MAX)
    ensures n > 0
    ensures Holds(s.(objectSize := n, objectOffset := 0, dataCrc := s.committedCrc, executed := false,
             selected := DATA, prnCount := 0),
                  command, data, log, Created(v, DATA, n), t)
  {
    hide Crc32, Means, Track;
    assert v.stream + [] == v.stream;
  }

  lemma CommandCreated(s: State, command: seq<byte>, data: seq<byte>, log: seq<Event>, v: View, t: Target, n: u32)
    requires Holds(s, command, data, log, v, t) && !s.failed && !s.completed && 0 < n <= COMMAND_MAX
    ensures Holds(Zero().(prn := s.prn, commandSize := n, selected := COMMAND), command, data, log,
             Created(v, COMMAND, n), t)
  {
    hide Crc32, Means, Track;
    ZeroHolds(command, data, log, t);
  }

  /** A parsed command is announced to flash. */
  lemma Begun(s: State, command: seq<byte>, data: seq<byte>, log: seq<Event>, v: View, t: Target, image: Image,
              ok: bool)
    requires Holds(s, command, data, log, v, t) && !s.failed && !s.initialized
    requires s.commandOffset == s.commandSize && Means(v.command, t, image)
    ensures Holds(s.(image := image, initialized := ok, failed := !ok), command, data, log + [Begin(image, ok)],
             v.(announced := ok), t)
  {
    hide Crc32, Means, Track, Agrees, Logged;
    MeansBounds(v.command, t, image);
    StreamIsCommitted(s, command, data, v, t);
    BegunAgrees(s, command, data, v, t, image, ok);
    BegunLogged(s, log, v, image, ok);
  }

  lemma BegunAgrees(s: State, command: seq<byte>, data: seq<byte>, v: View, t: Target, image: Image, ok: bool)
    requires Agrees(s, command, data, v, t) && s.commandOffset == s.commandSize && Means(v.command, t, image)
    ensures Agrees(s.(image := image, initialized := ok, failed := !ok), command, data, v.(announced := ok), t)
  {
    hide Crc32, Means;
  }

  lemma BegunLogged(s: State, log: seq<Event>, v: View, image: Image, ok: bool)
    requires Logged(s, log, v) && !s.failed && !s.initialized && !s.completed && v.stream == []
    ensures Logged(s.(image := image, initialized := ok, failed := !ok), log + [Begin(image, ok)], v.(announced := ok))
  {
    hide Track;
    TrackNext(log, Begin(image, ok));
  }

  lemma MeansBounds(p: seq<byte>, t: Target, image: Image)
    requires Means(p, t, image)
    ensures 8 <= image.size <= t.maxImage && image.size % 4 == 0 && 0 < |p| <= COMMAND_MAX
  {
    hide SpellsFields, Wraps;
  }

  lemma ObjectIsFit(s: State, command: seq<byte>, data: seq<byte>, v: View, t: Target)
    requires InBounds(s) && ImageInBounds(s) && Agrees(s, command, data, v, t) && s.initialized
    requires 0 < s.objectSize == s.objectOffset
    ensures ObjectFits(s.image, v.stream, v.partial)
  {
    hide Agrees;
    StreamIsCommitted(s, command, data, v, t);
    WholeWords(s.image.size, s.committed);
  }

  lemma WholeWords(size: nat, committed: nat)
    requires size % 4 == 0 && committed <= size && (committed % OBJECT_MAX == 0 || committed == size)
    ensures Min(size - committed, OBJECT_MAX) % 4 == 0
  {}

  lemma WriteFails(s: State, command: seq<byte>, data: seq<byte>, log: seq<Event>, v: View, t: Target)
    requires Holds(s, command, data, log, v, t) && !s.failed && s.initialized && 0 < s.objectSize == s.objectOffset
    ensures Holds(s.(failed := true), command, data, log + [Write(v.partial, false)], v, t)
  {
    hide Agrees, Logged, ObjectFits;
    ObjectIsFit(s, command, data, v, t);
    OnlyFlags(s, command, data, v, t, s.completed, true);
    NotCompletedYet(s);
    LogWrite(s, log, v, false);
  }

  lemma NotCompletedYet(s: State)
    requires ImageInBounds(s) && s.initialized && !s.failed && 0 < s.objectSize
    ensures !s.completed && ImageInBounds(s.(failed := true))
  {
  }

  /** A write of the object received is legal while the session is under way. */
  lemma LogWrite(s: State, log: seq<Event>, v: View, ok: bool)
    requires Logged(s, log, v) && !s.failed && s.initialized && !s.completed && ObjectFits(s.image, v.stream, v.partial)
    ensures Track(log + [Write(v.partial, ok)]) == Some(if ok then Receiving(s.image, v.stream + v.partial) else Dead)
    ensures Logged(s.(failed := true), log + [Write(v.partial, false)], v)
  {
    hide Track, ObjectFits;
    TrackNext(log, Write(v.partial, ok));
    TrackNext(log, Write(v.partial, false));
  }

  lemma OnlyFlags(s: State, command: seq<byte>, data: seq<byte>, v: View, t: Target, completed: bool, failed: bool)
    requires Agrees(s, command, data, v, t)
    ensures Agrees(s.(completed := completed, failed := failed), command, data, v, t)
  {
    hide Crc32, Means;
  }

  /** The fields after a full object was written, but for the outcome of the whole. */
  function Advanced(s: State): State
    requires s.committed + s.objectSize <= U32_MAX
  {
    s.(committed := s.committed + s.objectSize, committedCrc := s.dataCrc, objectOffset := 0, objectSize := 0,
        executed := true)
  }

  lemma WriteJoins(s: State, command: seq<byte>, data: seq<byte>, v: View, t: Target)
    requires InBounds(s) && ImageInBounds(s) && Agrees(s, command, data, v, t) && s.initialized
    requires 0 < s.objectSize == s.objectOffset
    ensures s.committed + s.objectSize <= U32_MAX
    ensures Agrees(Advanced(s), command, data, v.(stream := v.stream + v.partial, partial := [], objectSize := 0), t)
  {
    hide Crc32, Means;
    var all := v.stream + v.partial;
    assert all + [] == all;
  }

  /** A full object given to flash is part of the stream; the last one calls for the final check. */
  lemma Written(s: State, command: seq<byte>, data: seq<byte>, log: seq<Event>, v: View, t: Target)
    requires Holds(s, command, data, log, v, t) && !s.failed && s.initialized && 0 < s.objectSize == s.objectOffset
    ensures s.committed + s.objectSize <= U32_MAX
    ensures var log' := log + [Write(v.partial, true)];
            var s' := Advanced(s);
            var v' := v.(stream := v.stream + v.partial, partial := [], objectSize := 0);
            && (s'.committed != s.image.size ==> Holds(s', command, data, log', v', t))
            && (s'.committed == s.image.size ==>
                  && Holds(s'.(completed := true, failed := false), command, data, log' + [Finish(true)], v', t)
                  && Holds(s'.(completed := false, failed := true), command, data, log' + [Finish(false)], v', t))
  {
    hide Agrees, Track, ImageInBounds, ObjectFits;
    ObjectIsFit(s, command, data, v, t);
    WriteJoins(s, command, data, v, t);
    StreamIsCommitted(s, command, data, v, t);
    Advances(s);
    NotCompletedYet(s);
    var v' := v.(stream := v.stream + v.partial, partial := [], objectSize := 0);
    LogWrite(s, log, v, true);
    LogFinish(s, log, v, true);
    LogFinish(s, log, v, false);
    OnlyFlags(Advanced(s), command, data, v', t, true, false);
    OnlyFlags(Advanced(s), command, data, v', t, false, true);
  }

  lemma LogFinish(s: State, log: seq<Event>, v: View, ok: bool)
    requires Track(log + [Write(v.partial, true)]) == Some(Receiving(s.image, v.stream + v.partial))
    ensures |v.stream + v.partial| == s.image.size ==>
              Track(log + [Write(v.partial, true)] + [Finish(ok)])
                  == Some(if ok then Done(s.image, v.stream + v.partial) else Dead)
  {
    hide Track;
    TrackNext(log + [Write(v.partial, true)], Finish(ok));
  }

  lemma Advances(s: State)
    requires InBounds(s) && ImageInBounds(s) && s.initialized && !s.failed && 0 < s.objectSize == s.objectOffset
    ensures s.committed + s.objectSize <= s.image.size
    ensures var s' := Advanced(s);
            && (s'.committed != s.image.size ==> ImageInBounds(s'))
            && (s'.committed == s.image.size ==>
                  ImageInBounds(s'.(completed := true)) && ImageInBounds(s'.(completed := false, failed := true)))
  {}

  lemma StreamIsCommitted(s: State, command: seq<byte>, data: seq<byte>, v: View, t: Target)
    requires Agrees(s, command, data, v, t)
    ensures |v.stream| == s.committed && |v.partial| == s.objectOffset
  {
    hide Crc32, Means;
  }

  /** A packet joins the command, or the object, it is meant for. */
  lemma PacketTaken(s: State, command: seq<byte>, command': seq<byte>, data: seq<byte>, data': seq<byte>,
                    log: seq<Event>, v: View, t: Target,
                    bytes: seq<byte>, count: u16)
    requires Holds(s, command, data, log, v, t) && !s.failed && bytes != [] && (count == 0 || count < s.prn)
    requires |command'| == |command| && |data'| == |data|
    ensures s.selected == COMMAND && !s.initialized && |bytes| <= s.commandSize - s.commandOffset
            && data' == data && command'[..s.commandOffset + |bytes|] == command[..s.commandOffset] + bytes ==>
              Holds(s.(commandOffset := s.commandOffset + |bytes|, commandCrc := Update(s.commandCrc, bytes),
                  prnCount := count),
                    command', data', log, v.(command := v.command + bytes), t)
    ensures s.selected == DATA && s.initialized && |bytes| <= s.objectSize - s.objectOffset
            && command' == command && data'[..s.objectOffset + |bytes|] == data[..s.objectOffset] + bytes ==>
              Holds(s.(objectOffset := s.objectOffset + |bytes|, dataCrc := Update(s.dataCrc, bytes),
                  prnCount := count),
                    command', data', log, v.(partial := v.partial + bytes), t)
  {
    hide Crc32, Means, Track, Update;
    CrcGrows(v.command, bytes);
    CrcGrows(v.stream + v.partial, bytes);
    assert v.stream + (v.partial + bytes) == v.stream + v.partial + bytes;
  }

  /** What executing again leaves as it is. */
  lemma NothingPartial(s: State, command: seq<byte>, data: seq<byte>, log: seq<Event>, v: View, t: Target)
    requires Holds(s, command, data, log, v, t) && s.executed
    ensures v.partial == [] && v.stream + v.partial == v.stream && v.objectSize == 0
  {
    hide Crc32, Means, Track;
  }

  class Session {
    const target: Target
    const command: array<byte>
    const data: array<byte>
    var s: State
    /** Every hook call so far, and every finished exchange. */
    ghost var log: seq<Event>
    ghost var transcript: seq<Exchange>

    ghost predicate Holding(v: View)
      reads this, command, data
    {
      Holds(s, command[..], data[..], log, v, target)
    }

    ghost predicate Valid()
      reads this, command, data
    {
      Holding(Replay(transcript))
    }

    constructor (t: Target)
      ensures Valid() && fresh(command) && fresh(data) && target == t && log == [] && transcript == []
      ensures !s.initialized && !s.failed && !s.completed && s.prn == s.prnCount == 0 && s.selected == 0
    {
      target := t;
      command := new byte[COMMAND_MAX](i => 0);
      data := new byte[OBJECT_MAX](i => 0);
      s := Zero();
      log, transcript := [], [];
      new;
      ZeroHolds(command[..], data[..], log, target);
    }

    /** Starts an object anew; a new command starts everything over. */
    method Create(ghost v: View, type_: byte, n: u32) returns (status: byte, ghost v': View)
      requires Holding(v)
      modifies this`s
      ensures Holding(v')
      ensures v' == if status == OK then Created(v, type_, n) else v
      ensures status == CreateStatus(old(s), type_, n)
      ensures status != OK ==> s == old(s)
      ensures s.prn == old(s).prn && (s.failed <==> old(s).failed) && (s.completed <==> old(s).completed)
    {
      hide Holds;
      Within(v);
      v' := v;
      if s.failed || s.completed {
        return NOT_PERMITTED, v';
      }
      if type_ == COMMAND {
        if n == 0 || n > COMMAND_MAX {
          return BAD_PARAMETER, v';
        }
        CommandCreated(s, command[..], data[..], log, v, target, n);
        var prn := s.prn;
        s := Zero();
        s := s.(prn := prn, commandSize := n);
        v' := Created(v, COMMAND, n);
      } else if type_ == DATA {
        if !s.initialized || s.failed || s.completed {
          return NOT_PERMITTED, v';
        }
        var left := s.image.size - s.committed;
        if n == 0 || n != (if left < OBJECT_MAX then left else OBJECT_MAX) {
          DataCreated(s, command[..], data[..], log, v, target, Min(left, OBJECT_MAX));
          return BAD_PARAMETER, v';
        }
        DataCreated(s, command[..], data[..], log, v, target, n);
        s := s.(objectSize := n, objectOffset := 0, dataCrc := s.committedCrc, executed := false);
        v' := Created(v, DATA, n);
      } else {
        return BAD_TYPE, v';
      }
      s := s.(selected := type_, prnCount := 0);
      status := OK;
    }

    lemma Within(v: View)
      requires Holding(v)
      ensures s.initialized ==> s.committed <= s.image.size
    {
      hide Agrees, Logged;
    }

    method CallBegin(image: Image) returns (ok: bool)
      modifies this`log
      ensures log == old(log) + [Begin(image, ok)]
    {
      ok := *;
      log := log + [Begin(image, ok)];
    }

    method CallWrite(bytes: seq<byte>) returns (ok: bool)
      modifies this`log
      ensures log == old(log) + [Write(bytes, ok)]
    {
      ok := *;
      log := log + [Write(bytes, ok)];
    }

    method CallFinish() returns (ok: bool)
      modifies this`log
      ensures log == old(log) + [Finish(ok)]
    {
      ok := *;
      log := log + [Finish(ok)];
    }

    /** Parses a complete command and announces its image; once is enough. */
    method ExecuteCommand(ghost v: View) returns (status: byte, ghost v': View)
      requires Holding(v) && s.selected == COMMAND && !s.failed
      modifies this`s, this`log
      ensures Holding(v') && v.selected == COMMAND && v' == Executed(v, status)
      ensures ExecuteAnswers(old(s), v.command, target, status)
      ensures (status == FAILED ==> s.failed) && (status == OK ==> !s.failed)
      ensures old(s).initialized ==> status == OK && log == old(log) && s == old(s)
      ensures status == OK ==> s.initialized && Means(v.command, target, s.image)
      ensures log == old(log) || log == old(log) + [Begin(s.image, status == OK)]
      ensures !old(s).initialized && 0 < old(s).commandSize == old(s).commandOffset
               && (exists image :: Means(v.command, target, image)) ==>
                log == old(log) + [Begin(s.image, status == OK)] && (status == OK || status == FAILED)
      ensures !old(s).initialized && status == OK ==> log == old(log) + [Begin(s.image, true)]
    {
      hide Crc32, Means, Track, Logged, ImageInBounds;
      v' := v;
      if s.initialized {
        return OK, v';
      }
      if s.commandSize == 0 || s.commandOffset != s.commandSize {
        return BAD_OBJECT, v';
      }
      var parsed := ParseCommand(command[..s.commandSize], target);
      if parsed.None? {
        return BAD_OBJECT, v';
      }
      var before := s;
      s := s.(image := parsed.value);
      var ok := CallBegin(s.image);
      Begun(before, command[..], data[..], old(log), v, target, parsed.value, ok);
      if !ok {
        s := s.(failed := true);
        return FAILED, v';
      }
      s := s.(initialized := true);
      v' := v.(announced := true);
      status := OK;
    }

    /** Hands a full object to flash, and after the last one the whole image to its final check. */
    method ExecuteData(ghost v: View) returns (status: byte, ghost v': View)
      requires Holding(v) && s.selected == DATA && !s.failed && s.initialized
      modifies this`s, this`log
      ensures Holding(v') && v.selected == DATA
      ensures v' == Executed(v, status) && (status == FAILED ==> s.failed)
      ensures old(s).executed ==> status == OK && log == old(log) && s == old(s)
      ensures ExecuteAnswers(old(s), v.command, target, status)
      ensures status == NOT_PERMITTED ==> log == old(log)
      ensures !old(s).executed && status != NOT_PERMITTED ==>
                |old(log)| < |log| && log[|old(log)|] == Write(v.partial, status == OK || status == BAD_OBJECT)
      ensures status == OK && |v'.stream| == s.image.size ==> s.completed
      ensures (status == BAD_OBJECT ==> s.failed) && (status == OK ==> !s.failed)
    {
      hide Crc32, Means, Track, Logged, Agrees, ImageInBounds;
      v' := v;
      Selected(v);
      if s.executed {
        NothingPartial(s, command[..], data[..], log, v, target);
        AtTheEnd(v);
        return OK, v';
      }
      if s.objectSize == 0 || s.objectOffset != s.objectSize {
        return NOT_PERMITTED, v';
      }
      ghost var before := s;
      var ok := CallWrite(data[..s.objectSize]);
      if !ok {
        WriteFails(before, command[..], data[..], old(log), v, target);
        s := s.(failed := true);
        return FAILED, v';
      }
      Written(before, command[..], data[..], old(log), v, target);
      s := s.(committed := s.committed + s.objectSize, committedCrc := s.dataCrc, objectOffset := 0, objectSize := 0,
              executed := true);
      v' := Executed(v, OK);
      if s.committed == s.image.size {
        ok := CallFinish();
        assert log == old(log) + [Write(v.partial, true)] + [Finish(ok)];
        if !ok {
          s := s.(failed := true);
          return BAD_OBJECT, v';
        }
        s := s.(completed := true);
      }
      AtTheEnd(v');
      status := OK;
    }

    lemma Selected(v: View)
      requires Holding(v)
      ensures InBounds(s) && data.Length == OBJECT_MAX && v.selected == s.selected
      ensures v.partial == data[..s.objectOffset]
      ensures s.completed ==> s.executed && s.initialized
    {
      hide Crc32, Means, Track;
    }

    lemma AtTheEnd(v: View)
      requires Holding(v) && s.initialized && !s.failed
      ensures |v.stream| == s.image.size ==> s.completed
    {
      hide Crc32, Means, Track;
    }

    method Execute(ghost v: View) returns (status: byte, ghost v': View)
      requires Holding(v)
      modifies this`s, this`log
      ensures Holding(v')
      ensures v' == Executed(v, status) && (status == FAILED ==> s.failed)
      ensures old(s).failed || old(s).completed ==> log == old(log) && s == old(s)
      ensures ExecuteAnswers(old(s), v.command, target, status)
      ensures Ready(old(s)) ==>
                |old(log)| < |log| && log[|old(log)|] == Write(v.partial, status == OK || status == BAD_OBJECT)
      ensures (Ready(old(s)) && status != OK ==> s.failed) && (status == OK ==> !s.failed)
    {
      hide Crc32, Means, Track, Logged, Agrees;
      if s.failed {
        return FAILED, v;
      }
      if s.selected == COMMAND {
        status, v' := ExecuteCommand(v);
        return;
      }
      if s.selected != DATA || !s.initialized {
        return NOT_PERMITTED, v;
      }
      status, v' := ExecuteData(v);
    }

    /** The receipt for what is selected. */
    method Checksum(ghost v: View) returns (r: seq<byte>)
      requires Holding(v)
      ensures r == Receipt(v)
    {
      hide Crc32, Means, Track, Put32;
      if s.selected == COMMAND {
        r := Put32(s.commandOffset) + WordBytes(s.commandCrc);
      } else {
        r := Put32(Wrap32(s.committed + s.objectOffset)) + WordBytes(s.dataCrc);
      }
    }

    /** The receipt's byte count is exact: a session never holds 2^32 bytes. */
    lemma ReceiptCounts(v: View)
      requires Holding(v)
      ensures var received := if v.selected == COMMAND then v.command else v.stream + v.partial;
              Wrap32(|received|) == |received|
    {
      hide Crc32, Means, Track;
    }

    /** Answers one control request. */
    method HandleControl(bytes: seq<byte>) returns (reply: seq<byte>)
      requires Valid()
      modifies this
      ensures Valid() && transcript == old(transcript) + [Exchange(Control(bytes), reply)]
      ensures old(s).failed || old(s).completed ==>
                log == old(log) && (s.failed <==> old(s).failed) && (s.completed <==> old(s).completed)
      ensures bytes == [] <==> reply == []
      ensures reply != [] ==>
                && 3 <= |reply| <= 15 && reply[..2] == [0x60, bytes[0]]
                && Answers(old(s), Replay(old(transcript)).command, target, bytes, reply[2])
      ensures reply != [] && bytes[0] == SET_PRN && reply[2] == OK ==> s.prn == Get16(bytes[1..]) && s.prnCount == 0
      ensures bytes == [EXECUTE] && Ready(old(s)) ==>
                |old(log)| < |log| && log[|old(log)|]
                    == Write(Replay(old(transcript)).partial, reply[2] == OK || reply[2] == BAD_OBJECT)
      ensures bytes == [EXECUTE] && ((Ready(old(s)) && reply[2] != OK) || reply[2] == FAILED) ==> s.failed
      ensures bytes == [EXECUTE] && reply[2] == OK ==> !s.failed
      ensures bytes != [] && bytes[0] != EXECUTE ==>
                s.failed == old(s).failed && s.completed == old(s).completed && log == old(log)
      ensures IsReceipt(bytes, reply, Replay(transcript))
    {
      hide Crc32, Means, Track, Put32, Holds, Receipt;
      ghost var v := Replay(transcript);
      ghost var v' := v;
      if bytes == [] {
        reply := [];
      } else {
        var status, extra;
        status, extra, v' := Dispatch(bytes, v);
        reply := [0x60, bytes[0], status] + extra;
      }
      ghost var x := Exchange(Control(bytes), reply);
      ReplayNext(transcript, x);
      transcript := transcript + [x];
    }

    method Select(ghost v: View, k: byte) returns (extra: seq<byte>, ghost v': View)
      requires Holding(v) && (k == COMMAND || k == DATA)
      modifies this`s
      ensures Holding(v') && v' == v.(selected := k) && s == old(s).(selected := k)
      ensures extra == Put32(if k == COMMAND then COMMAND_MAX else OBJECT_MAX) + Receipt(v')
    {
      hide Put32, Holds, Receipt;
      s := s.(selected := k);
      v' := v.(selected := k);
      OnlySelected(old(s), v, k);
      extra := Checksum(v');
      extra := Put32(if s.selected == COMMAND then COMMAND_MAX else OBJECT_MAX) + extra;
    }

    method Dispatch(bytes: seq<byte>, ghost v: View) returns (status: byte, extra: seq<byte>, ghost v': View)
      requires Holding(v) && bytes != []
      modifies this`s, this`log
      ensures Holding(v')
      ensures forall head | |head| == 3 && head[2] == status :: v' == Observe(v, Exchange(Control(bytes), head + extra))
      ensures old(s).failed || old(s).completed ==>
                log == old(log) && (s.failed <==> old(s).failed) && (s.completed <==> old(s).completed)
      ensures |extra| <= 12 && Answers(old(s), v.command, target, bytes, status)
      ensures bytes[0] == SET_PRN && status == OK ==> s.prn == Get16(bytes[1..]) && s.prnCount == 0
      ensures bytes == [EXECUTE] && Ready(old(s)) ==>
                |old(log)| < |log| && log[|old(log)|] == Write(v.partial, status == OK || status == BAD_OBJECT)
      ensures bytes == [EXECUTE] && ((Ready(old(s)) && status != OK) || status == FAILED) ==> s.failed
      ensures bytes == [EXECUTE] && status == OK ==> !s.failed
      ensures bytes[0] != EXECUTE ==> s.failed == old(s).failed && s.completed == old(s).completed && log == old(log)
      ensures bytes[0] == CHECKSUM && status == OK ==> extra == Receipt(v')
      ensures bytes[0] == SELECT && status == OK ==>
                |bytes| == 2 && extra == Put32(if bytes[1] == COMMAND then COMMAND_MAX else OBJECT_MAX) + Receipt(v')
    {
      hide Put32, Get32, Get16, Receipt, Holds;
      status, extra, v' := BAD_PARAMETER, [], v;
      var op := bytes[0];
      if op == CREATE {
        if |bytes| == 6 {
          status, v' := Create(v, bytes[1], Get32(bytes[2..]));
        }
      } else if op == SET_PRN {
        if |bytes| == 3 {
          s := s.(prn := Get16(bytes[1..]), prnCount := 0);
          status := OK;
          OnlyCounts(old(s), s, v);
        }
      } else if op == CHECKSUM {
        if |bytes| == 1 {
          status := if s.failed then FAILED else if s.selected != NOTHING then OK else NOT_PERMITTED;
          if status == OK {
            extra := Checksum(v);
          }
        }
      } else if op == SELECT {
        if |bytes| == 2 {
          status := if bytes[1] == COMMAND || bytes[1] == DATA then OK else BAD_TYPE;
          if status == OK {
            extra, v' := Select(v, bytes[1]);
          }
        }
      } else if op == EXECUTE {
        if |bytes| == 1 {
          status, v' := Execute(v);
        }
      } else {
        status := NOT_SUPPORTED;
      }
    }

    lemma OnlyCounts(was: State, now: State, v: View)
      requires Holds(was, command[..], data[..], log, v, target)
      requires now == was.(prn := now.prn, prnCount := now.prnCount) && (now.prnCount == 0 || now.prnCount < now.prn)
      ensures Holds(now, command[..], data[..], log, v, target)
    {
      hide Crc32, Means, Track;
    }

    lemma OnlySelected(was: State, v: View, k: byte)
      requires Holds(was, command[..], data[..], log, v, target) && k <= DATA
      ensures Holds(was.(selected := k), command[..], data[..], log, v.(selected := k), target)
    {
      hide Crc32, Means, Track;
    }

    /** A new link starts counting towards its first receipt anew. */
    method ForgetCount()
      requires Valid()
      modifies this`s
      ensures Valid() && s == old(s).(prnCount := 0)
    {
      s := s.(prnCount := 0);
      OnlyCounts(old(s), s, Replay(transcript));
    }

    /** Copies a packet that fits to where it belongs. */
    method Take(bytes: seq<byte>, ghost v: View) returns (ghost v': View)
      requires Holding(v) && !s.failed && bytes != [] && Takes(s, |bytes|)
      modifies this`s, command, data
      ensures Holding(v')
      ensures v' == if old(s).selected == COMMAND then v.(command := v.command + bytes)
               else v.(partial := v.partial + bytes)
      ensures v.selected == old(s).selected && s.prn == old(s).prn && s.prnCount == old(s).prnCount
      ensures s.failed == old(s).failed && s.completed == old(s).completed
    {
      hide Crc32, Means, Track, Logged, Update, ImageInBounds;
      ghost var c, d := command[..], data[..];
      if s.selected == COMMAND {
        CopyInto(command, s.commandOffset, bytes);
        PacketTaken(s, c, command[..], d, data[..], log, v, target, bytes, s.prnCount);
        var crc := Crc32Update(s.commandCrc, bytes);
        s := s.(commandOffset := s.commandOffset + |bytes|, commandCrc := crc);
        v' := v.(command := v.command + bytes);
      } else {
        CopyInto(data, s.objectOffset, bytes);
        PacketTaken(s, c, command[..], d, data[..], log, v, target, bytes, s.prnCount);
        var crc := Crc32Update(s.dataCrc, bytes);
        s := s.(objectOffset := s.objectOffset + |bytes|, dataCrc := crc);
        v' := v.(partial := v.partial + bytes);
      }
    }

    method CopyInto(buffer: array<byte>, at: nat, bytes: seq<byte>)
      requires at + |bytes| <= buffer.Length
      modifies buffer
      ensures buffer[..at + |bytes|] == old(buffer[..at]) + bytes
    {
      forall i | 0 <= i < |bytes| {
        buffer[at + i] := bytes[i];
      }
    }

    /** Takes one packet: all of it, or nothing. */
    method HandlePacket(bytes: seq<byte>) returns (reply: seq<byte>)
      requires Valid()
      modifies this, command, data
      ensures Valid() && transcript == old(transcript) + [Exchange(Packet(bytes), reply)] && log == old(log)
      ensures reply == [] || reply == [0x60, 8, NOT_PERMITTED]
               || reply == [0x60, CHECKSUM, OK] + Receipt(Replay(transcript))
      ensures |reply| == 3 <==> old(s).failed || bytes == [] || !old(Takes(s, |bytes|))
      ensures |reply| == 3 ==> s == old(s)
      ensures s.failed == old(s).failed && s.completed == old(s).completed
      ensures |reply| > 3 ==> s.prn > 0 && old(s).prnCount + 1 == s.prn && s.prnCount == 0
      ensures reply == [] ==> s.prnCount == if s.prn > 0 then old(s).prnCount + 1 else 0
    {
      hide Crc32, Means, Track, Holds, Receipt, Update, Observe;
      ghost var v := Replay(transcript);
      ghost var v' := v;
      Selected(v);
      var isCommand := s.selected == COMMAND;
      var offset := if isCommand then s.commandOffset else s.objectOffset;
      var size := if isCommand then s.commandSize else s.objectSize;
      if s.failed || bytes == [] || s.selected == NOTHING || offset > size || |bytes| > size - offset
         || (if isCommand then s.initialized else !s.initialized || s.executed) {
        reply := [0x60, 8, NOT_PERMITTED];
      } else {
        v' := Take(bytes, v);
        reply := [];
        ghost var taken := s;
        if s.prn > 0 {
          s := s.(prnCount := s.prnCount + 1);
          if s.prnCount >= s.prn {
            s := s.(prnCount := 0);
            OnlyCounts(taken, s, v');
            var receipt := Checksum(v');
            reply := [0x60, CHECKSUM, OK] + receipt;
          } else {
            OnlyCounts(taken, s, v');
          }
        }
      }
      ghost var x := Exchange(Packet(bytes), reply);
      ReplayNext(transcript, x);
      ObservePacket(v, x);
      transcript := transcript + [x];
    }
  }

  // ---- a client that keeps to the protocol ------------------------------------

  /** An object has just been created, with room for `n` bytes. */
  predicate Empty(v: View, n: nat) {
    if v.selected == COMMAND then !v.announced && v.command == [] && v.commandSize == n
    else v.selected == DATA && v.announced && v.partial == [] && v.objectSize == n
  }

  function Filled(v: View, bytes: seq<byte>): View {
    if v.selected == COMMAND then v.(command := bytes) else v.(partial := bytes)
  }

  /** What the client knows of the session's fields. */
  lemma Knows(s: State, command: seq<byte>, data: seq<byte>, log: seq<Event>, v: View, t: Target)
    requires Holds(s, command, data, log, v, t)
    ensures s.selected == v.selected && s.initialized == v.announced && s.commandSize == v.commandSize
    ensures s.objectSize == v.objectSize
    ensures s.commandOffset == |v.command| && s.objectOffset == |v.partial| && s.committed == |v.stream|
    ensures s.objectSize > 0 ==> !s.executed
    ensures s.initialized ==> Means(v.command, t, s.image) && |v.stream| <= s.image.size && s.image.size % 4 == 0
    ensures s.initialized && |v.stream| == s.image.size ==> s.completed || s.failed
    ensures s.completed ==> !s.failed && |v.stream| == s.image.size
  {
    hide Crc32, Means, Track;
  }

  /** Fills the object just created, in packets of at most `piece` bytes: every one is taken. */
  method SendObject(session: Session, bytes: seq<byte>, piece: nat)
    requires session.Valid() && !session.s.failed && bytes != [] && piece > 0
    requires Empty(Replay(session.transcript), |bytes|)
    modifies session, session.command, session.data
    ensures session.Valid() && !session.s.failed && session.s.completed == old(session.s.completed)
    ensures session.log == old(session.log)
    ensures Replay(session.transcript) == Filled(old(Replay(session.transcript)), bytes)
  {
    hide Crc32, Means, Track, Holds, Receipt, Replay;
    ghost var v := Replay(session.transcript);
    var sent := 0;
    assert Filled(v, bytes[..0]) == v;
    while sent < |bytes|
      invariant session.Valid() && !session.s.failed && session.s.completed == old(session.s.completed)
      invariant session.log == old(session.log)
      invariant sent <= |bytes| && Replay(session.transcript) == Filled(v, bytes[..sent])
    {
      var n := Min(piece, |bytes| - sent);
      ghost var now, before := Filled(v, bytes[..sent]), session.transcript;
      Knows(session.s, session.command[..], session.data[..], session.log, now, session.target);
      var reply := session.HandlePacket(bytes[sent..sent + n]);
      ReplayNext(before, Exchange(Packet(bytes[sent..sent + n]), reply));
      assert bytes[..sent] + bytes[sent..sent + n] == bytes[..sent + n];
      sent := sent + n;
    }
    assert bytes[..sent] == bytes;
  }

  /** Creates an object, fills it, and executes it; only a hook can stop that. */
  method DeliverObject(session: Session, type_: byte, bytes: seq<byte>, piece: nat) returns (status: byte)
    requires session.Valid() && !session.s.completed && !session.s.failed && bytes != [] && piece > 0
    requires |bytes| <= OBJECT_MAX && CreateStatus(session.s, type_, |bytes|) == OK
    modifies session, session.command, session.data
    ensures session.Valid()
    ensures Replay(session.transcript) == Executed(Filled(Created(old(Replay(session.transcript)), type_, |bytes|),
             bytes), status)
    ensures type_ == COMMAND && (exists image :: Means(bytes, session.target, image)) ==>
              status == OK || session.s.failed
    ensures type_ == DATA ==> status == OK || session.s.failed
    ensures status == OK ==> !session.s.failed
  {
    hide Crc32, Means, Track, Holds, Receipt, Replay, Put32, Get32;
    ghost var t0 := session.transcript;
    Knows(session.s, session.command[..], session.data[..], session.log, Replay(t0), session.target);
    var create := [CREATE, type_] + Put32(|bytes|);
    assert create[2..] == Put32(|bytes|);
    var reply := session.HandleControl(create);
    ReplayNext(t0, Exchange(Control(create), reply));
    SendObject(session, bytes, piece);
    ghost var v, t1 := Replay(session.transcript), session.transcript;
    Knows(session.s, session.command[..], session.data[..], session.log, v, session.target);
    reply := session.HandleControl([EXECUTE]);
    ReplayNext(t1, Exchange(Control([EXECUTE]), reply));
    status := reply[2];
  }

  /**
   * A client that keeps to the protocol, with an accepted command and the
   * image it announces: the session ends completed, with all of the image in
   * flash, unless a hook fails.
   */
  method Upload(session: Session, command: seq<byte>, stream: seq<byte>, piece: nat, ghost image: Image)
    requires session.Valid() && !session.s.completed && !session.s.failed && piece > 0
    requires Means(command, session.target, image) && |stream| == image.size
    modifies session, session.command, session.data
    ensures session.Valid() && (session.s.completed || session.s.failed)
    ensures session.s.completed ==> Replay(session.transcript).stream == stream && session.s.image == image
  {
    hide Crc32, Means, Track, Holds, Receipt, Replay;
    MeansBounds(command, session.target, image);
    var status := DeliverObject(session, COMMAND, command, piece);
    if status != OK {
      Knows(session.s, session.command[..], session.data[..], session.log, Replay(session.transcript), session.target);
      return;
    }
    var sent := 0;
    while sent < |stream|
      invariant session.Valid() && !session.s.failed && sent <= |stream|
      invariant Replay(session.transcript).stream == stream[..sent] && Replay(session.transcript).announced
      invariant Replay(session.transcript).command == command
      decreases |stream| - sent
    {
      ghost var now := Replay(session.transcript);
      Knows(session.s, session.command[..], session.data[..], session.log, now, session.target);
      MeaningIsUnique(command, session.target, image, session.s.image);
      var n := Min(|stream| - sent, OBJECT_MAX);
      status := DeliverObject(session, DATA, stream[sent..sent + n], piece);
      if status != OK {
        Knows(session.s, session.command[..], session.data[..], session.log, Replay(session.transcript),
              session.target);
        return;
      }
      assert stream[..sent] + stream[sent..sent + n] == stream[..sent + n];
      sent := sent + n;
    }
    assert stream[..sent] == stream;
    Knows(session.s, session.command[..], session.data[..], session.log, Replay(session.transcript), session.target);
    MeaningIsUnique(command, session.target, image, session.s.image);
  }

  /**
   * What a session owes at any moment: flash has been given exactly the objects
   * the client executed since the image was begun; a completed session has
   * given it all of the announced image and seen the final check succeed.
   */
  lemma StreamReachedFlash(s: State, command: seq<byte>, data: seq<byte>, log: seq<Event>, transcript: seq<Exchange>,
                           t: Target)
    requires Holds(s, command, data, log, Replay(transcript), t)
    ensures s.initialized && !s.failed ==>
              && WrittenBytes(log) == Replay(transcript).stream && |WrittenBytes(log)| == s.committed <= s.image.size
              && Means(Replay(transcript).command, t, s.image)
    ensures s.completed ==>
              s.initialized && !s.failed && s.committed == s.image.size && log[|log| - 1..] == [Finish(true)]
    ensures s.failed ==> log != [] && !log[|log| - 1].ok
  {
    hide Crc32, Means, Track, Replay;
    TrackWritten(log);
  }

  /** A full object waits to be executed. */
  predicate Ready(s: State) {
    !s.failed && s.initialized && s.selected == DATA && !s.executed && 0 < s.objectSize == s.objectOffset
  }

  predicate CanCreate(s: State, type_: byte, n: u32) {
    && !s.failed && !s.completed
    && ((type_ == COMMAND && 0 < n <= COMMAND_MAX)
        || (type_ == DATA && s.initialized && s.committed <= s.image.size
          && n == Min(s.image.size - s.committed, OBJECT_MAX)))
  }

  function CreateStatus(s: State, type_: byte, n: u32): byte {
    if s.failed || s.completed then NOT_PERMITTED
    else if type_ == COMMAND then if 0 < n <= COMMAND_MAX then OK else BAD_PARAMETER
    else if type_ != DATA then BAD_TYPE
    else if !s.initialized then NOT_PERMITTED
    else if CanCreate(s, type_, n) then OK
    else BAD_PARAMETER
  }

  /** What executing may answer; only a hook leaves it a choice. */
  ghost predicate ExecuteAnswers(s: State, command: seq<byte>, t: Target, status: byte) {
    if s.failed then status == FAILED
    else if s.selected == COMMAND then
      if s.initialized then status == OK
      else if 0 < s.commandSize == s.commandOffset && (exists image :: Means(command, t, image)) then status == OK
        || status == FAILED
      else status == BAD_OBJECT
    else if s.selected != DATA || !s.initialized then status == NOT_PERMITTED
    else if s.executed then status == OK
    else if 0 < s.objectSize == s.objectOffset then status == OK || status == FAILED || status == BAD_OBJECT
    else status == NOT_PERMITTED
  }

  /** The status each request gets. */
  ghost predicate Answers(s: State, command: seq<byte>, t: Target, bytes: seq<byte>, status: byte)
    requires bytes != []
  {
    if bytes[0] == CREATE then status == if |bytes| == 6 then CreateStatus(s, bytes[1], Get32(bytes[2..]))
        else BAD_PARAMETER
    else if bytes[0] == SET_PRN then status == if |bytes| == 3 then OK else BAD_PARAMETER
    else if bytes[0] == CHECKSUM then
      status == if |bytes| != 1 then BAD_PARAMETER else if s.failed then FAILED else if s.selected != NOTHING then OK
          else NOT_PERMITTED
    else if bytes[0] == SELECT then
      status == if |bytes| != 2 then BAD_PARAMETER else if bytes[1] == COMMAND || bytes[1] == DATA then OK else BAD_TYPE
    else if bytes[0] == EXECUTE then if |bytes| == 1 then ExecuteAnswers(s, command, t, status)
      else status == BAD_PARAMETER
    else status == NOT_SUPPORTED
  }

  /** A packet of `n` bytes fits what is being received. */
  predicate Takes(s: State, n: nat) {
    if s.selected == COMMAND then !s.initialized && s.commandOffset + n <= s.commandSize
    else s.selected != NOTHING && s.initialized && !s.executed && s.objectOffset + n <= s.objectSize
  }

  /** A receipt asked for says what has been received. */
  predicate IsReceipt(request: seq<byte>, reply: seq<byte>, v: View) {
    request != [] && |reply| >= 3 && reply[2] == OK ==>
      && (request[0] == CHECKSUM ==> reply[3..] == Receipt(v))
      && (request[0] == SELECT ==>
            |request| == 2 && reply[3..] == Put32(if request[1] == COMMAND then COMMAND_MAX else OBJECT_MAX)
                + Receipt(v))
  }
}
