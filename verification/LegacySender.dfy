/**
 * The host's send loop: the firmware in packets, an exact receipt after every
 * full window, and a tail split so that the last packet never fills one.
 */
module LegacySender {
  import opened Bytes
  import opened AdaptivePrn

  const OP_RECEIVE: byte := 0x03
  const RESULT_SUCCESS: byte := 0x01

  const FAST_PAYLOAD_RATE: real := 1600.0
  const SLOW_PAYLOAD_RATE: real := 800.0
  const LATENCY_ALLOWANCE: real := 0.125
  const FAST_RECEIPTS: nat := 2

  datatype Event = Receipt(byteCount: nat) | Response(opcode: byte, result: byte) | Malformed | Timeout

  datatype Outcome =
    | Sent
    | NotAligned          // nothing to send, or not whole words
    | CannotSplit         // a last word would fill a window
    | NoReceipt           // malformed, missing or timed out
    | WrongReceipt        // short of, or ahead of, what was sent
    | BadSample           // the clock did not advance
    | NoResponse          // anything but the success of the transfer

  /** A packet as it was sent: what was left before it, and how many packets were still due in its window. */
  datatype Packet = Packet(data: seq<byte>, remaining: nat, slots: nat)

  /** The windows that the target's buffers allow for packets of this size, smallest first. */
  function SafeLevels(packetSize: nat): seq<nat> {
    if packetSize > 64 then [4, 8] else if packetSize == 64 then [8, 16] else [8, 16, 32]
  }

  /** Stores that `n` packets cause: up to 64 bytes an accumulator of 240 bytes gathers them, longer ones bypass it. */
  function Stores(n: nat, packetSize: nat): nat
    requires packetSize > 0
  {
    if packetSize > 64 then n else (n + 240 / packetSize - 1) / (240 / packetSize)
  }

  /** The target's eight store buffers take in every safe window; the largest one, doubled, would be too much. */
  lemma LevelsFitStorage(packetSize: nat, level: nat, n: nat)
    requires 20 <= packetSize <= 244 && packetSize % 4 == 0 && level in SafeLevels(packetSize) && n <= level
    ensures Stores(n, packetSize) <= 8
    ensures packetSize >= 60 && level == SafeLevels(packetSize)[|SafeLevels(packetSize)| - 1] ==>
              Stores(2 * level, packetSize) > 8
  {
    hide Stores;
    if packetSize > 64 {
      LongStores(n, packetSize);
      LongStores(2 * level, packetSize);
    } else {
      ShortStores(n, packetSize);
      ShortStores(2 * level, packetSize);
    }
  }

  lemma LongStores(n: nat, packetSize: nat)
    requires packetSize > 64
    ensures Stores(n, packetSize) == n
  {}

  lemma ShortStores(n: nat, packetSize: nat)
    requires 20 <= packetSize <= 64 && packetSize % 4 == 0
    ensures packetSize <= 60 && n <= 32 ==> Stores(n, packetSize) <= 8
    ensures packetSize == 64 && n <= 16 ==> Stores(n, packetSize) <= 8
    ensures (packetSize == 64 && n == 32) || (packetSize == 60 && n == 64) ==> Stores(n, packetSize) > 8
  {
    if packetSize <= 60 && n <= 32 {
      PerStore(packetSize);
      StoresBelow(n, 240 / packetSize);
    }
  }

  lemma PerStore(packetSize: nat)
    requires 0 < packetSize <= 60
    ensures 240 / packetSize >= 4
  {}

  lemma StoresBelow(n: nat, k: nat)
    requires n <= 32 && k >= 4
    ensures (n + k - 1) / k <= 8
  {
    assert n + k - 1 < 9 * k;
  }

  /** What the sender demands of a controller it is given. */
  predicate Safe(packetSize: nat, levels: seq<nat>) {
    levels != [] && levels <= SafeLevels(packetSize)
  }

  function Joined(packets: seq<Packet>): seq<byte>
    decreases |packets|
  {
    if packets == [] then [] else Joined(packets[..|packets| - 1]) + packets[|packets| - 1].data
  }

  /** The byte counts at which a window was full, each of which calls for a receipt. */
  function Due(packets: seq<Packet>): seq<nat>
    decreases |packets|
  {
    if packets == [] then []
    else Due(packets[..|packets| - 1]) + if packets[|packets| - 1].slots == 1 then [|Joined(packets)|] else []
  }

  /** Packets sent since the last full window. */
  function Open(packets: seq<Packet>): nat
    decreases |packets|
  {
    if packets == [] || packets[|packets| - 1].slots == 1 then 0 else Open(packets[..|packets| - 1]) + 1
  }

  /** Bytes sent since the last full window. */
  function Loose(packets: seq<Packet>): nat
    decreases |packets|
  {
    if packets == [] || packets[|packets| - 1].slots == 1 then 0
    else Loose(packets[..|packets| - 1]) + |packets[|packets| - 1].data|
  }

  /** How many packets and bytes went into a window. */
  datatype Window = Window(packets: nat, bytes: nat)

  /** The full windows. */
  function Windows(packets: seq<Packet>): (r: seq<Window>)
    ensures |r| == |Due(packets)|
    decreases |packets|
  {
    if packets == [] then []
    else
      var was, p := packets[..|packets| - 1], packets[|packets| - 1];
      Windows(was) + if p.slots == 1 then [Window(Open(was) + 1, Loose(was) + |p.data|)] else []
  }

  lemma JoinedNext(packets: seq<Packet>, p: Packet)
    ensures Joined(packets + [p]) == Joined(packets) + p.data
    ensures Due(packets + [p]) == Due(packets) + if p.slots == 1 then [|Joined(packets)| + |p.data|] else []
  {
    hide Windows;
    assert (packets + [p])[..|packets|] == packets;
  }

  lemma WindowNext(packets: seq<Packet>, p: Packet)
    ensures Open(packets + [p]) == if p.slots == 1 then 0 else Open(packets) + 1
    ensures Loose(packets + [p]) == if p.slots == 1 then 0 else Loose(packets) + |p.data|
    ensures Windows(packets + [p]) == Windows(packets)
              + if p.slots == 1 then [Window(Open(packets) + 1, Loose(packets) + |p.data|)] else []
  {
    hide Joined, Due;
    assert (packets + [p])[..|packets|] == packets;
  }

  /** Length of the next packet; None when a last word would fill the window. */
  function ChunkLength(remaining: nat, packetSize: nat, slots: nat): Option<nat>
    requires packetSize >= 20
  {
    if slots == 1 && remaining <= packetSize then
      if remaining < 8 then None else Some(4)
    else if slots == 2 && remaining == packetSize + 4 then Some(packetSize - 4)
    else Some(Min(remaining, packetSize))
  }

  /**
   * As long as it may be: all that is left or all that fits, but for the last
   * packet of a window, which leaves a tail, and the one before it, which
   * leaves two words for a tail.
   */
  predicate Longest(n: nat, remaining: nat, packetSize: nat, slots: nat) {
    if slots == 1 && remaining <= packetSize then n == 4 && remaining >= 8
    else if slots == 2 && remaining == packetSize + 4 then n == packetSize - 4
    else n <= remaining && n <= packetSize && (n == remaining || n == packetSize)
  }

  lemma ChunkIsLongest(remaining: nat, packetSize: nat, slots: nat, n: nat)
    requires packetSize >= 20
    ensures ChunkLength(remaining, packetSize, slots) == Some(n) <==> Longest(n, remaining, packetSize, slots)
  {}

  /** With windows of a single packet, every transfer comes to a last word that cannot be sent. */
  lemma {:induction false} SinglePacketWindowsFail(remaining: nat, packetSize: nat)
    requires remaining > 0 && remaining % 4 == 0 && 20 <= packetSize && packetSize % 4 == 0
    ensures SinglesLeave(remaining, packetSize) == 4 && ChunkLength(4, packetSize, 1).None?
    decreases remaining
  {
    var n := ChunkLength(remaining, packetSize, 1);
    if n.Some? {
      SinglePacketWindowsFail(remaining - n.value, packetSize);
    }
  }

  /** What is left when packets, each filling a window of its own, can no longer be sent. */
  function SinglesLeave(remaining: nat, packetSize: nat): nat
    requires packetSize >= 20
    decreases remaining
  {
    var n := ChunkLength(remaining, packetSize, 1);
    if n.None? || n.value > remaining || n.value == 0 then remaining else SinglesLeave(remaining - n.value, packetSize)
  }

  // ---- what a transfer is judged by -----------------------------------------

  /** A packet is whole words, fits, and is not the last one if it fills a window. */
  predicate PacketFits(p: Packet, packetSize: nat) {
    && 0 < |p.data| <= packetSize && |p.data| % 4 == 0 && p.slots > 0 && |p.data| <= p.remaining
    && (p.slots == 1 ==> |p.data| < p.remaining)
  }

  /**
   * Every packet is cut as long as what was left of the `size` bytes, and of
   * the window then in force, asks for; `trace` gives the level of each window.
   */
  predicate InStep(packets: seq<Packet>, size: nat, packetSize: nat, levels: seq<nat>, trace: seq<nat>)
    requires packetSize >= 20
    decreases |packets|
  {
    packets == []
    || (var was, p := packets[..|packets| - 1], packets[|packets| - 1];
        && |Due(was)| < |trace| && trace[|Due(was)|] < |levels|
        && p.slots == levels[trace[|Due(was)|]] - Open(was) && p.remaining == size - |Joined(was)|
        && Longest(|p.data|, p.remaining, packetSize, p.slots) && PacketFits(p, packetSize)
        && InStep(was, size, packetSize, levels, trace))
  }

  /** What the controller was told of: the windows in order, each with the time its receipt took. */
  predicate Measured(observed: seq<Sample>, samples: seq<real>, windows: seq<Window>) {
    && |observed| <= |samples| && |observed| <= |windows|
    && forall i | 0 <= i < |observed| :: observed[i] == Sample(samples[i], windows[i].packets, windows[i].bytes)
  }

  /** The windows that a run of levels changes to, one by one. */
  function Changes(levels: seq<nat>, trace: seq<nat>): seq<nat>
    requires forall i | 0 <= i < |trace| :: trace[i] < |levels|
    decreases |trace|
  {
    if |trace| < 2 then []
    else
      var was, before, now := trace[..|trace| - 1], trace[|trace| - 2], trace[|trace| - 1];
      Changes(levels, was) + if levels[before] != levels[now] then [levels[now]] else []
  }

  lemma ChangesNext(levels: seq<nat>, trace: seq<nat>, level: nat)
    requires (forall i | 0 <= i < |trace| :: trace[i] < |levels|) && trace != [] && level < |levels|
    ensures Changes(levels, trace + [level]) == Changes(levels, trace)
              + if levels[trace[|trace| - 1]] != levels[level] then [levels[level]] else []
  {
    assert (trace + [level])[..|trace|] == trace;
  }

  /** A target told the first window and every change counts by the window in force. */
  lemma {:induction false} TargetKnowsWindow(levels: seq<nat>, trace: seq<nat>)
    requires (forall i | 0 <= i < |trace| :: trace[i] < |levels|) && trace != []
    ensures var told := [levels[trace[0]]] + Changes(levels, trace); told[|told| - 1] == levels[trace[|trace| - 1]]
    decreases |trace|
  {
    if |trace| > 1 {
      TargetKnowsWindow(levels, trace[..|trace| - 1]);
    }
  }

  /**
   * The packets are in step with the levels of the run, the controller has been
   * told of its windows, and the target of every change.
   */
  predicate OnCourse(packets: seq<Packet>, size: nat, packetSize: nat, levels: seq<nat>, trace: seq<nat>,
                     observed: seq<Sample>, samples: seq<real>, announced: seq<nat>)
    requires packetSize >= 20
  {
    && InStep(packets, size, packetSize, levels, trace) && Measured(observed, samples, Windows(packets))
    && |trace| == |observed| + 1 && (forall i | 0 <= i < |trace| :: trace[i] < |levels|)
    && announced == Changes(levels, trace)
  }

  /** Every receipt that was due has come, with the exact count, and the clock advanced before each. */
  predicate Confirmed(heard: seq<Event>, samples: seq<real>, due: seq<nat>) {
    && |heard| == |samples| == |due|
    && forall i | 0 <= i < |due| :: heard[i] == Receipt(due[i]) && samples[i] > 0.0
  }

  /** The last receipt that was due ended the transfer, in the way it calls for. */
  predicate Stops(r: Outcome, heard: seq<Event>, samples: seq<real>, due: seq<nat>) {
    && |heard| == |due| > 0 && |samples| >= |due| - 1
    && Confirmed(heard[..|due| - 1], samples[..|due| - 1], due[..|due| - 1])
    && Closes(r, due[|due| - 1], heard[|due| - 1], samples[..|due| - 1], samples) && r != Sent
  }

  /** What the event behind a full window comes to; time is taken only of the exact receipt. */
  predicate Closes(r: Outcome, sent: nat, e: Event, samples: seq<real>, samples': seq<real>) {
    if e == Receipt(sent) then
      && |samples'| == |samples| + 1 && samples <= samples'
      && r == if samples'[|samples|] > 0.0 then Sent else BadSample
    else samples' == samples && r == if e.Receipt? then WrongReceipt else NoReceipt
  }

  /** The outcome is the one that the events heard and the times measured call for. */
  predicate Concludes(r: Outcome, firmware: seq<byte>, packets: seq<Packet>, heard: seq<Event>, samples: seq<real>) {
    var due := Due(packets);
    match r
    case NotAligned => (firmware == [] || |firmware| % 4 != 0) && packets == [] && heard == [] && samples == []
    case CannotSplit => false
    case Sent | NoResponse =>
      && Joined(packets) == firmware && |heard| == |due| + 1 && Confirmed(heard[..|due|], samples, due)
      && (r == Sent <==> heard[|due|] == Response(OP_RECEIVE, RESULT_SUCCESS))
    case NoReceipt | WrongReceipt | BadSample => Stops(r, heard, samples, due)
  }

  /** A sender for packets of this size: its own controller, or one that it is given and that is safe. */
  method NewSender(packetSize: nat, given: Option<Controller>) returns (dfu: Option<LegacyDfu>)
    requires given.Some? ==> given.value.Valid()
    ensures dfu.Some? <==> 20 <= packetSize <= 244 && packetSize % 4 == 0
                           && (given.Some? ==>
                                 given.value.packetSize == packetSize && Safe(packetSize, given.value.levels))
    ensures dfu.Some? ==> dfu.value.Valid() && dfu.value.packetSize == packetSize && dfu.value.packets == []
    ensures dfu.Some? && given.Some? ==> dfu.value.prn == given.value
    ensures dfu.Some? && given.None? ==>
              && dfu.value.prn.index == 0 && dfu.value.prn.fastRate == 1600.0 && dfu.value.prn.slowRate == 800.0
              && dfu.value.prn.latencyAllowance == 0.125 && dfu.value.prn.fastReceipts == 2
              && dfu.value.prn.levels
                   == if packetSize > 64 then [4, 8] else if packetSize == 64 then [8, 16] else [8, 16, 32]
  {
    if packetSize < 20 || packetSize > 244 || packetSize % 4 != 0 {
      return None;
    }
    var levels := SafeLevels(packetSize);
    var prn;
    if given.None? {
      prn := new Controller(packetSize, FAST_PAYLOAD_RATE, SLOW_PAYLOAD_RATE, LATENCY_ALLOWANCE, FAST_RECEIPTS, levels);
    } else {
      prn := given.value;
      if prn.packetSize != packetSize || |prn.levels| > |levels| || prn.levels != levels[..|prn.levels|] {
        return None;
      }
    }
    var sender := new LegacyDfu(packetSize, prn);
    dfu := Some(sender);
  }

  class LegacyDfu {
    const packetSize: nat
    const prn: Controller
    /** Everything handed to the transport, every event taken from the queue, every time measured. */
    ghost var packets: seq<Packet>
    ghost var heard: seq<Event>
    ghost var samples: seq<real>
    /** The windows that the target has been told since the transfer began. */
    ghost var announced: seq<nat>

    ghost predicate Valid()
      reads this, prn
    {
      && 20 <= packetSize <= 244 && packetSize % 4 == 0 && prn.Valid() && prn.packetSize == packetSize
      && Safe(packetSize, prn.levels)
    }

    constructor (size: nat, controller: Controller)
      requires 20 <= size <= 244 && size % 4 == 0 && controller.Valid() && controller.packetSize == size
      requires Safe(size, controller.levels)
      ensures Valid() && packetSize == size && prn == controller && packets == [] && heard == [] && samples == []
      ensures announced == []
    {
      packetSize := size;
      prn := controller;
      packets, heard, samples, announced := [], [], [], [];
    }

    /** The next event: a notification as it was parsed, or none in time. */
    method NextEvent() returns (e: Event)
      modifies this`heard
      ensures heard == old(heard) + [e]
    {
      e := *;
      heard := heard + [e];
    }

    method Elapsed() returns (elapsed: real)
      modifies this`samples
      ensures samples == old(samples) + [elapsed]
    {
      elapsed := *;
      samples := samples + [elapsed];
    }

    /** Tells the target after how many packets to send a receipt. */
    method SetPrn(count: nat)
      modifies this`announced
      ensures announced == old(announced) + [count]
    {
      announced := announced + [count];
    }

    /** One packet goes out. */
    method WritePacket(data: seq<byte>, ghost remaining: nat, ghost slots: nat)
      modifies this`packets
      ensures packets == old(packets) + [Packet(data, remaining, slots)]
    {
      packets := packets + [Packet(data, remaining, slots)];
    }

    /** A full window waits for its receipt, and the controller learns how long that took. */
    method CloseWindow(sent: nat, windowPackets: nat, windowBytes: nat) returns (r: Outcome)
      requires Valid() && 0 < windowPackets && 0 < windowBytes <= windowPackets * packetSize
      modifies prn, this`heard, this`samples, this`announced
      ensures Valid() && |heard| == |old(heard)| + 1 && old(heard) <= heard
      ensures Closes(r, sent, heard[|old(heard)|], old(samples), samples)
      ensures prn.trace == if r == Sent then old(prn.trace) + [prn.index] else old(prn.trace)
      ensures prn.index < |prn.levels| && old(prn.index) < |prn.levels|
      ensures prn.observed == if r != Sent then old(prn.observed)
                else old(prn.observed) + [Sample(samples[|old(samples)|], windowPackets, windowBytes)]
      ensures announced == if r != Sent then old(announced)
                else old(announced) + if prn.levels[prn.index] != prn.levels[old(prn.index)]
                  then [prn.levels[prn.index]] else []
    {
      Level();
      var event := NextEvent();
      if !event.Receipt? {
        return NoReceipt;
      }
      if event.byteCount != sent {
        return WrongReceipt;
      }
      var elapsed := Elapsed();
      var oldWindow := prn.Window();
      var valid, raised, window := prn.ObserveExactReceipt(elapsed, windowPackets, windowBytes);
      if !valid {
        return BadSample;
      }
      Level();
      if prn.Window() != oldWindow {
        SetPrn(prn.Window());
      }
      r := Sent;
    }

    /** After a packet that filled its window: the receipt keeps the transfer under way, or ends it as it must. */
    method Confirm(sent: nat, windowPackets: nat, windowBytes: nat, ghost firmware: seq<byte>, ghost before: nat,
                   ghost was: seq<Packet>)
      returns (r: Outcome)
      requires Valid() && 0 < windowPackets && 0 < windowBytes <= windowPackets * packetSize
      requires PacketsOut(firmware, sent, before) && Due(packets) == Due(was) + [sent]
      requires Confirmed(heard, samples, Due(was)) && |prn.trace| - before == |Due(was)| + 1
      requires Windows(packets) == Windows(was) + [Window(windowPackets, windowBytes)]
      modifies prn, this`heard, this`samples, this`announced
      ensures Valid() && old(prn.trace) <= prn.trace
      ensures r == Sent ==> Underway(firmware, sent, before)
      ensures r != Sent ==> PacketsOut(firmware, sent, before) && Concludes(r, firmware, packets, heard, samples)
    {
      hide Controller.Valid, Confirmed, Stops, OnCourse, Due, Windows;
      ghost var soFar, times, trace, seen, told := heard, samples, prn.trace, prn.observed, announced;
      Level();
      r := CloseWindow(sent, windowPackets, windowBytes);
      ReceiptIn(Due(was), sent, soFar, times, heard, samples, r);
      if r == Sent {
        assert prn.trace[before..] == trace[before..] + [prn.index];
        assert prn.observed[before..] == seen[before..] + [Sample(samples[|times|], windowPackets, windowBytes)];
        StaysOnCourse(packets, |firmware|, packetSize, prn.levels, trace[before..], seen[before..], times, told,
                      samples, prn.index, Window(windowPackets, windowBytes));
      } else {
        SampleMore(packets, |firmware|, packetSize, prn.levels, trace[before..], seen[before..], times, told, samples);
      }
    }

    /** The next packet, cut so that the last one cannot fill a window. */
    method SendPacket(firmware: seq<byte>, sent: nat, slots: nat) returns (ok: bool, n: nat)
      requires 20 <= packetSize && packetSize % 4 == 0 && sent < |firmware| && (|firmware| - sent) % 4 == 0 && slots > 0
      modifies this`packets
      ensures !ok <==> slots == 1 && |firmware| - sent < 8
      ensures !ok ==> packets == old(packets)
      ensures ok ==> 0 < n <= Min(|firmware| - sent, packetSize) && n % 4 == 0
      ensures ok ==> Longest(n, |firmware| - sent, packetSize, slots)
      ensures ok && n < Min(|firmware| - sent, packetSize) ==>
                || (slots == 1 && |firmware| - sent <= packetSize && n == 4)
                || (slots == 2 && |firmware| - sent == packetSize + 4 && n == packetSize - 4)
      ensures ok && slots == 2 ==> |firmware| == sent + n || |firmware| - sent - n >= 8
      ensures ok && slots == 1 ==> sent + n < |firmware|
      ensures ok ==>
                packets == old(packets) + [Packet(firmware[sent..sent + n], |firmware| - sent, slots)]
    {
      hide ChunkLength;
      var remaining := |firmware| - sent;
      var length := ChunkLength(remaining, packetSize, slots);
      NoLength(remaining, packetSize, slots);
      if length.None? {
        return false, 0;
      }
      n := length.value;
      LengthFits(remaining, packetSize, slots);
      ChunkIsLongest(remaining, packetSize, slots, n);
      WritePacket(firmware[sent..sent + n], remaining, slots);
      ok := true;
    }

    /** The first `sent` bytes are out, in packets that are in step with the controller's run since `before`. */
    ghost predicate PacketsOut(firmware: seq<byte>, sent: nat, before: nat)
      reads this, prn
    {
      && packetSize >= 20 && before < |prn.trace| && sent <= |firmware| && Joined(packets) == firmware[..sent]
      && before <= |prn.observed|
      && OnCourse(packets, |firmware|, packetSize, prn.levels, prn.trace[before..], prn.observed[before..], samples,
           announced)
    }

    /** And every receipt due so far has come. */
    ghost predicate Underway(firmware: seq<byte>, sent: nat, before: nat)
      reads this, prn
    {
      && PacketsOut(firmware, sent, before)
      && Confirmed(heard, samples, Due(packets)) && |prn.trace| - before == |Due(packets)| + 1
    }

    /**
     * Sends the firmware. However the window changes, the packets are the
     * firmware in order, each cut as its window asks for, and none that fills
     * a window is the last; a split never fails. The outcome is the one that
     * the target's events and the clock call for: in particular the transfer
     * succeeds whenever every receipt is exact and comes in time.
     */
    method SendFirmware(firmware: seq<byte>) returns (r: Outcome)
      requires Valid() && packets == [] && heard == [] && samples == [] && announced == []
      modifies this`packets, this`heard, this`samples, this`announced, prn
      ensures Valid()
      ensures r != CannotSplit && (r == NotAligned <==> firmware == [] || |firmware| % 4 != 0)
      ensures Concludes(r, firmware, packets, heard, samples)
      ensures Joined(packets) <= firmware && |old(prn.trace)| <= |prn.trace| && old(prn.trace) != []
      ensures |old(prn.observed)| + 1 == |old(prn.trace)| && |prn.observed| + 1 == |prn.trace|
      ensures OnCourse(packets, |firmware|, packetSize, prn.levels, prn.trace[|old(prn.trace)| - 1..],
               prn.observed[|old(prn.observed)|..], samples, announced)
    {
      hide Controller.Valid, PacketFits, Joined, Due, Open, Loose, Windows, OnCourse, Confirmed, Stops;
      WindowPositive();
      ghost var before := |prn.trace| - 1;
      Level();
      Begins(firmware);
      if firmware == [] || |firmware| % 4 != 0 {
        NothingSent();
        return NotAligned;
      }
      var sent: nat, windowPackets: nat, windowBytes: nat := 0, 0, 0;
      while sent < |firmware|
        invariant Valid() && (|firmware| - sent) % 4 == 0 && Underway(firmware, sent, before)
        invariant old(prn.trace) <= prn.trace
        invariant prn.index < |prn.levels| && prn.trace[|prn.trace| - 1] == prn.index && prn.Window() > 1
        invariant windowPackets == Open(packets) < prn.Window()
        invariant windowBytes == Loose(packets) <= windowPackets * packetSize
        invariant windowPackets > 0 && windowPackets + 1 == prn.Window() ==>
                  sent == |firmware| || |firmware| - sent >= 8
        decreases |firmware| - sent
      {
        ghost var was := packets;
        var ok, n := NextPacket(firmware, sent, windowPackets, windowBytes, before);
        if !ok {
          return CannotSplit;
        }
        sent := sent + n;
        windowPackets := windowPackets + 1;
        windowBytes := windowBytes + n;
        if windowPackets == prn.Window() {
          var closed := Confirm(sent, windowPackets, windowBytes, firmware, before, was);
          Level();
          if closed != Sent {
            return closed;
          }
          WindowPositive();
          windowPackets, windowBytes := 0, 0;
        }
      }
      Level();
      r := Finish(firmware, before);
    }

    /** The next packet of a transfer under way; the split never fails. */
    method NextPacket(firmware: seq<byte>, sent: nat, windowPackets: nat, ghost windowBytes: nat, ghost before: nat)
      returns (ok: bool, n: nat)
      requires Valid() && sent < |firmware| && (|firmware| - sent) % 4 == 0 && Underway(firmware, sent, before)
      requires prn.index < |prn.levels| && prn.trace[|prn.trace| - 1] == prn.index && prn.Window() > 1
      requires windowPackets == Open(packets) < prn.Window()
      requires windowBytes == Loose(packets) <= windowPackets * packetSize
      requires windowPackets > 0 && windowPackets + 1 == prn.Window() ==> |firmware| - sent >= 8
      modifies this`packets
      ensures ok && 0 < n <= |firmware| - sent && (|firmware| - sent - n) % 4 == 0
      ensures windowBytes + n <= (windowPackets + 1) * packetSize && PacketsOut(firmware, sent + n, before)
      ensures if windowPackets + 1 == prn.Window() then
                && sent + n < |firmware| && Open(packets) == Loose(packets) == 0
                && Due(packets) == Due(old(packets)) + [sent + n]
                && Windows(packets) == Windows(old(packets)) + [Window(windowPackets + 1, windowBytes + n)]
              else
                && Open(packets) == windowPackets + 1 && Loose(packets) == windowBytes + n
                && Due(packets) == Due(old(packets)) && Windows(packets) == Windows(old(packets))
      ensures windowPackets + 2 == prn.Window() ==> sent + n == |firmware| || |firmware| - sent - n >= 8
    {
      hide Controller.Valid, PacketFits, Joined, Due, Open, Loose, Windows, OnCourse, Confirmed, Longest;
      ghost var was := packets;
      ok, n := SendPacket(firmware, sent, prn.Window() - windowPackets);
      PacketOut(firmware, sent, n, was, packets[|was|], packetSize, prn.levels, prn.trace[before..],
                prn.observed[before..], samples, announced);
      WordsLeft(|firmware| - sent, n);
      OneMore(windowPackets, windowBytes, n, packetSize);
    }

    /** Everything is out: the response decides. */
    method Finish(ghost firmware: seq<byte>, ghost before: nat) returns (r: Outcome)
      requires Underway(firmware, |firmware|, before)
      modifies this`heard
      ensures PacketsOut(firmware, |firmware|, before) && Concludes(r, firmware, packets, heard, samples)
      ensures r != CannotSplit
    {
      hide InStep;
      assert firmware[..|firmware|] == firmware;
      ghost var confirmed := heard;
      var e := NextEvent();
      assert heard[..|confirmed|] == confirmed;
      r := if e == Response(OP_RECEIVE, RESULT_SUCCESS) then Sent else NoResponse;
    }

    lemma Level()
      requires Valid()
      ensures prn.index < |prn.levels| && |prn.trace| == |prn.observed| + 1 && prn.trace[|prn.trace| - 1] == prn.index
    {}

    lemma WindowPositive()
      requires Valid()
      ensures prn.index < |prn.levels| && prn.Window() > 1 && |prn.trace| > 0 && prn.trace[|prn.trace| - 1] == prn.index
    {}

    lemma Begins(firmware: seq<byte>)
      requires Valid() && packets == [] && heard == [] && samples == [] && announced == []
      ensures Underway(firmware, 0, |prn.trace| - 1) && Open(packets) == 0 && Loose(packets) == 0
    {}
  }

  lemma NothingSent()
    ensures Joined([]) == [] && Due([]) == []
  {}

  /** A packet cut by the rule keeps the transfer on its course. */
  lemma PacketOut(f: seq<byte>, sent: nat, n: nat, packets: seq<Packet>, p: Packet, packetSize: nat, levels: seq<nat>,
                  trace: seq<nat>, observed: seq<Sample>, samples: seq<real>, announced: seq<nat>)
    requires packetSize >= 20 && sent + n <= |f| && n > 0 && Joined(packets) == f[..sent]
    requires OnCourse(packets, |f|, packetSize, levels, trace, observed, samples, announced)
    requires p.data == f[sent..sent + n] && p.remaining == |f| - sent && p.slots > 0
    requires n <= packetSize && n % 4 == 0 && (p.slots == 1 ==> sent + n < |f|)
    requires |Due(packets)| < |trace| && trace[|Due(packets)|] < |levels|
    requires p.slots == levels[trace[|Due(packets)|]] - Open(packets)
    requires Longest(n, |f| - sent, packetSize, p.slots)
    ensures Joined(packets + [p]) == f[..sent + n]
    ensures OnCourse(packets + [p], |f|, packetSize, levels, trace, observed, samples, announced)
    ensures Due(packets + [p]) == if p.slots == 1 then Due(packets) + [sent + n] else Due(packets)
    ensures Open(packets + [p]) == if p.slots == 1 then 0 else Open(packets) + 1
    ensures Loose(packets + [p]) == if p.slots == 1 then 0 else Loose(packets) + n
    ensures Windows(packets + [p]) == Windows(packets)
              + if p.slots == 1 then [Window(Open(packets) + 1, Loose(packets) + n)] else []
  {
    hide Longest, Joined, Due, Open, Loose, Windows, Changes;
    JoinedNext(packets, p);
    WindowNext(packets, p);
    assert f[..sent] + p.data == f[..sent + n];
    assert (packets + [p])[..|packets|] == packets;
  }

  /** A packet is shorter than it could be only to leave the tail that its window needs. */
  predicate NeverShort(p: Packet, packetSize: nat) {
    |p.data| < p.remaining && |p.data| < packetSize ==>
      || (p.slots == 1 && p.remaining <= packetSize && |p.data| == 4)
      || (p.slots == 2 && p.remaining == packetSize + 4 && |p.data| == packetSize - 4)
  }

  /** In step, every packet is whole words, fits, and is as long as it may be; none that fills a window is the last. */
  lemma {:induction false} InStepFits(packets: seq<Packet>, size: nat, packetSize: nat, levels: seq<nat>,
                                      trace: seq<nat>)
    requires packetSize >= 20 && InStep(packets, size, packetSize, levels, trace)
    ensures forall i | 0 <= i < |packets| :: PacketFits(packets[i], packetSize) && NeverShort(packets[i], packetSize)
    decreases |packets|
  {
    if packets != [] {
      InStepFits(packets[..|packets| - 1], size, packetSize, levels, trace);
      assert forall i | 0 <= i < |packets| - 1 :: packets[i] == packets[..|packets| - 1][i];
    }
  }

  /** In step at safe levels, what the target has not confirmed never needs more than its eight store buffers. */
  lemma {:induction false} StorageHolds(packets: seq<Packet>, size: nat, packetSize: nat, levels: seq<nat>,
                                        trace: seq<nat>)
    requires 20 <= packetSize <= 244 && packetSize % 4 == 0 && Safe(packetSize, levels)
    requires InStep(packets, size, packetSize, levels, trace)
    ensures forall k | 0 <= k <= |packets| :: Stores(Open(packets[..k]), packetSize) <= 8
    decreases |packets|
  {
    hide Stores, Longest, SafeLevels;
    assert packets[..|packets|] == packets;
    if packets == [] {
      LevelsFitStorage(packetSize, levels[0], 0);
    } else {
      var was, p := packets[..|packets| - 1], packets[|packets| - 1];
      StorageHolds(was, size, packetSize, levels, trace);
      LevelsFitStorage(packetSize, levels[trace[|Due(was)|]], Open(packets));
      assert forall k | 0 <= k < |packets| :: packets[..k] == was[..k];
    }
  }

  /** A window more does not disturb those before. */
  lemma {:induction false} TraceGrows(packets: seq<Packet>, size: nat, packetSize: nat, levels: seq<nat>,
                                      trace: seq<nat>, level: nat)
    requires packetSize >= 20 && InStep(packets, size, packetSize, levels, trace)
    ensures InStep(packets, size, packetSize, levels, trace + [level])
    decreases |packets|
  {
    if packets != [] {
      TraceGrows(packets[..|packets| - 1], size, packetSize, levels, trace, level);
    }
  }

  /** The receipt that was due is the exact one, or decides how the transfer ends. */
  lemma ReceiptIn(due: seq<nat>, sent: nat, heard: seq<Event>, samples: seq<real>, heard': seq<Event>,
                  samples': seq<real>, r: Outcome)
    requires Confirmed(heard, samples, due) && |heard'| == |heard| + 1 && heard <= heard'
    requires Closes(r, sent, heard'[|heard|], samples, samples')
    ensures r == Sent ==> Confirmed(heard', samples', due + [sent])
    ensures r != Sent ==> Stops(r, heard', samples', due + [sent])
  {
    assert (due + [sent])[..|due|] == due && heard'[..|due|] == heard && samples'[..|due|] == samples;
  }

  /** A confirmed window keeps the transfer on its course, at whatever level comes next. */
  lemma StaysOnCourse(packets: seq<Packet>, size: nat, packetSize: nat, levels: seq<nat>, trace: seq<nat>,
                      observed: seq<Sample>, samples: seq<real>, announced: seq<nat>, samples': seq<real>, level: nat,
                      w: Window)
    requires packetSize >= 20
    requires OnCourse(packets, size, packetSize, levels, trace, observed, samples, announced)
    requires samples <= samples' && |samples| < |samples'| && level < |levels|
    requires |observed| == |samples| < |Windows(packets)| && Windows(packets)[|observed|] == w
    ensures OnCourse(packets, size, packetSize, levels, trace + [level],
             observed + [Sample(samples'[|samples|], w.packets, w.bytes)], samples',
             announced + if levels[trace[|trace| - 1]] != levels[level] then [levels[level]] else [])
  {
    hide InStep, Windows, Changes;
    TraceGrows(packets, size, packetSize, levels, trace, level);
    ChangesNext(levels, trace, level);
  }

  /** A time measured in vain changes nothing of the course. */
  lemma SampleMore(packets: seq<Packet>, size: nat, packetSize: nat, levels: seq<nat>, trace: seq<nat>,
                   observed: seq<Sample>, samples: seq<real>, announced: seq<nat>, samples': seq<real>)
    requires packetSize >= 20 && samples <= samples'
    requires OnCourse(packets, size, packetSize, levels, trace, observed, samples, announced)
    ensures OnCourse(packets, size, packetSize, levels, trace, observed, samples', announced)
  {
    hide InStep, Windows, Changes;
  }

  lemma WordsLeft(remaining: nat, n: nat)
    requires remaining % 4 == 0 && n % 4 == 0 && n <= remaining
    ensures (remaining - n) % 4 == 0
  {}

  lemma OneMore(packets: nat, bytes: nat, n: nat, packetSize: nat)
    requires bytes <= packets * packetSize && n <= packetSize
    ensures bytes + n <= (packets + 1) * packetSize
  {}

  lemma NoLength(remaining: nat, packetSize: nat, slots: nat)
    requires packetSize >= 20
    ensures ChunkLength(remaining, packetSize, slots).None? <==> slots == 1 && remaining < 8
  {}

  lemma LengthFits(remaining: nat, packetSize: nat, slots: nat)
    requires remaining > 0 && remaining % 4 == 0 && 20 <= packetSize && packetSize % 4 == 0 && 1 <= slots
    requires ChunkLength(remaining, packetSize, slots).Some?
    ensures var n := ChunkLength(remaining, packetSize, slots).value;
            && 0 < n <= Min(remaining, packetSize) && n % 4 == 0 && (slots == 1 ==> n < remaining)
            && (slots == 2 ==> remaining == n || remaining - n >= 8)
  {}
}
