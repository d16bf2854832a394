/**
 * The queue of receipts between the Secure DFU session and the radio, and the
 * gate that lets the new image be activated only after its last receipt.
 */
module SecureDfuBle {
  import opened Bytes
  import opened SecureDfu

  const SLOTS: nat := 8
  const INVALID_HANDLE: u16 := 0xFFFF

  /** A queued receipt; `final` marks the one that announces success of the last EXECUTE. */
  datatype Notice = Notice(bytes: seq<byte>, final: bool)

  /** What the radio answers when given a notification. */
  datatype Handover = Sent | Busy | NotReady | LinkLost | Fatal

  /** One call to the radio, with the answer it gave. */
  datatype Attempt = Attempt(bytes: seq<byte>, answer: Handover)

  datatype Attribute = ControlValue | ControlCccd | PacketValue | OtherAttribute
  datatype Operation = WriteRequest | WriteCommand | OtherOperation

  datatype BleEvent =
    | Connected(handle: u16)
    | Disconnected
    | TxComplete(count: byte)
    | AttributeWrite(attribute: Attribute, offset: u16, op: Operation, data: seq<byte>)
    | OtherEvent

  // ---- the ring -------------------------------------------------------------

  /** The receipts waiting, oldest first. */
  function Ring(notices: seq<Notice>, head: nat, count: nat): (r: seq<Notice>)
    requires |notices| == SLOTS && count <= SLOTS
    ensures |r| == count
  {
    seq(count, i requires 0 <= i < count => notices[(head + i) % SLOTS])
  }

  lemma RingPop(notices: seq<Notice>, head: nat, count: nat)
    requires |notices| == SLOTS && head < SLOTS && 0 < count <= SLOTS
    ensures Ring(notices, head, count) == [notices[head]] + Ring(notices, (head + 1) % SLOTS, count - 1)
  {
    var a, b := Ring(notices, head, count), [notices[head]] + Ring(notices, (head + 1) % SLOTS, count - 1);
    forall i | 0 <= i < count ensures a[i] == b[i] {
      if i > 0 {
        assert b[i] == Ring(notices, (head + 1) % SLOTS, count - 1)[i - 1];
      }
    }
  }

  /** Filling the next free slot disturbs no waiting receipt, whether or not it is counted then. */
  lemma RingPush(notices: seq<Notice>, head: nat, count: nat, n: Notice)
    requires |notices| == SLOTS && head < SLOTS && count < SLOTS
    ensures var filled := notices[(head + count) % SLOTS := n];
            && Ring(filled, head, count) == Ring(notices, head, count)
            && Ring(filled, head, count + 1) == Ring(notices, head, count) + [n]
  {
  }

  // ---- the transport --------------------------------------------------------

  /** The flags and counters; `connection` is the handle of the live link. */
  datatype Link = Link(
    connection: u16, blocked: bool, enabled: bool, finalSent: bool, txPending: u16,
    head: nat, count: nat)

  /** Everything the session has answered on this link is handed over or waits, in order and once. */
  predicate Conserved(produced: seq<Notice>, delivered: seq<Notice>, notices: seq<Notice>, l: Link) {
    && |notices| == SLOTS && l.head < SLOTS && l.count <= SLOTS
    && produced == delivered + Ring(notices, l.head, l.count)
    && l.txPending <= |delivered|
  }

  predicate HandedOverFinal(delivered: seq<Notice>) {
    exists i | 0 <= i < |delivered| :: delivered[i] == Notice([0x60, EXECUTE, OK], true)
  }

  /** A final receipt exists only once the session is completed, and the flag only once it is handed over. */
  predicate FinalIsEarned(produced: seq<Notice>, delivered: seq<Notice>, l: Link, completed: bool) {
    && (forall i | 0 <= i < |produced| && produced[i].final :: completed && produced[i].bytes == [0x60, 4, 1])
    && (l.finalSent ==> HandedOverFinal(delivered))
  }

  /** What a flush works on: the receipts answered and handed over, and the counters. */
  datatype Ledger = Ledger(produced: seq<Notice>, delivered: seq<Notice>, link: Link)

  predicate MaySend(l: Link) {
    !l.blocked && l.enabled && l.connection != INVALID_HANDLE
  }

  function Cleared(l: Link): Link {
    l.(head := 0, count := 0, finalSent := false, enabled := false, txPending := 0)
  }

  /** The receipts `passed` left: the radio owes their transmission, and a final one is remembered. */
  predicate Passed(l: Link, l': Link, passed: seq<Notice>) {
    && l' == l.(head := l'.head, count := l'.count, txPending := l'.txPending, finalSent := l'.finalSent)
    && l'.txPending == l.txPending + |passed|
    && (l'.finalSent <==> l.finalSent || exists i | 0 <= i < |passed| :: passed[i].final)
  }

  /** The receipts that wait are tried in order, and none is tried behind one that was refused. */
  predicate Tried(waiting: seq<Notice>, tries: seq<Attempt>) {
    && |tries| <= |waiting|
    && (forall i | 0 <= i < |tries| :: tries[i].bytes == waiting[i].bytes)
    && (forall i | 0 <= i < |tries| - 1 :: tries[i].answer == Sent)
    && (|tries| < |waiting| ==> |tries| > 0 && tries[|tries| - 1].answer != Sent)
  }

  /**
   * What the radio answered decides everything: what it took has left the
   * queue, what it refused waits, and a lost link drops what waits.
   */
  predicate Flushed(was: Ledger, now: Ledger, tries: seq<Attempt>, alive: bool) {
    && was.delivered <= was.produced && Tried(was.produced[|was.delivered|..], tries)
    && if tries == [] || tries[|tries| - 1].answer == Sent then
         && alive && now.produced == now.delivered == was.produced
         && Passed(was.link, now.link, was.produced[|was.delivered|..])
       else if tries[|tries| - 1].answer == LinkLost then
         && alive && now == Ledger([], [], Cleared(was.link))
       else
         var left := |was.delivered| + |tries| - 1;
         && (alive <==> tries[|tries| - 1].answer != Fatal)
         && now.produced == was.produced && now.delivered == was.produced[..left]
         && Passed(was.link, now.link, was.produced[|was.delivered|..left])
  }

  /** So far the radio took everything it was given. */
  predicate Taken(was: Ledger, now: Ledger, tries: seq<Attempt>) {
    && was.delivered <= was.produced && |tries| <= |was.produced| - |was.delivered|
    && (forall i | 0 <= i < |tries| :: tries[i] == Attempt(was.produced[|was.delivered| + i].bytes, Sent))
    && now.produced == was.produced && now.delivered == was.produced[..|was.delivered| + |tries|]
    && Passed(was.link, now.link, was.produced[|was.delivered|..|was.delivered| + |tries|])
  }

  lemma TakenNone(was: Ledger)
    requires was.delivered <= was.produced
    ensures Taken(was, was, [])
  {
  }

  lemma TakenSent(was: Ledger, now: Ledger, tries: seq<Attempt>, head: nat, count: nat)
    requires Taken(was, now, tries) && |now.delivered| < |now.produced| && now.link.txPending < U16_MAX
    ensures var n := now.produced[|now.delivered|];
            var l := now.link.(txPending := now.link.txPending + 1, finalSent := now.link.finalSent || n.final,
                               head := head, count := count);
            Taken(was, Ledger(now.produced, now.delivered + [n], l), tries + [Attempt(n.bytes, Sent)])
  {
    hide Passed;
    var from, n := |was.delivered|, now.produced[|now.delivered|];
    assert was.produced[from..from + |tries| + 1] == was.produced[from..from + |tries|] + [n];
    assert now.delivered + [n] == was.produced[..from + |tries| + 1];
    PassedOne(was.link, now.link, was.produced[from..from + |tries|], n, head, count);
  }

  lemma PassedOne(l: Link, now: Link, passed: seq<Notice>, n: Notice, head: nat, count: nat)
    requires Passed(l, now, passed) && now.txPending < U16_MAX
    ensures Passed(l, now.(txPending := now.txPending + 1, finalSent := now.finalSent || n.final, head := head,
             count := count), passed + [n])
  {
    var more := passed + [n];
    if exists i | 0 <= i < |passed| :: passed[i].final {
      var i :| 0 <= i < |passed| && passed[i].final;
      assert more[i].final;
    }
    assert more[|passed|] == n;
  }

  lemma TakenRefused(was: Ledger, now: Ledger, tries: seq<Attempt>, r: Handover)
    requires Taken(was, now, tries) && |now.delivered| < |now.produced| && r != Sent
    ensures var all := tries + [Attempt(now.produced[|now.delivered|].bytes, r)];
            if r == LinkLost then Flushed(was, Ledger([], [], Cleared(now.link)), all, true)
            else Flushed(was, now, all, r != Fatal)
  {
  }

  lemma TakenAll(was: Ledger, now: Ledger, tries: seq<Attempt>)
    requires Taken(was, now, tries)
    ensures |now.delivered| == |now.produced| ==> Flushed(was, now, tries, true)
  {
    if |now.delivered| == |now.produced| {
      assert now.delivered == now.produced;
      assert was.produced[|was.delivered|..|was.delivered| + |tries|] == was.produced[|was.delivered|..];
    }
  }

  class Transport {
    const session: Session
    /** The radio keeps no more notifications than this, and then answers that it is busy. */
    const radioDepth: nat
    const notices: array<Notice>
    var link: Link
    /** What the session has answered, and what was handed to the radio, since the link came up. */
    ghost var produced: seq<Notice>
    ghost var delivered: seq<Notice>
    /** How many of the receipts handed over the radio has reported as transmitted. */
    ghost var acknowledged: nat
    /** Every call to the radio. */
    ghost var attempts: seq<Attempt>

    ghost function Books(): Ledger
      reads this
    {
      Ledger(produced, delivered, link)
    }

    ghost predicate Valid()
      reads this, notices, session, session.command, session.data
    {
      && session.Valid() && notices.Length == SLOTS && radioDepth <= U16_MAX
      && Conserved(produced, delivered, notices[..], link)
      && FinalIsEarned(produced, delivered, link, session.s.completed)
      && acknowledged + link.txPending == |delivered|
    }

    constructor (s: Session, depth: nat)
      requires s.Valid() && depth <= U16_MAX
      ensures Valid() && session == s && radioDepth == depth && fresh(notices)
      ensures Books() == Ledger([], [], Link(0xFFFF, true, false, false, 0, 0, 0)) && attempts == []
    {
      session := s;
      radioDepth := depth;
      notices := new Notice[SLOTS](i => Notice([], false));
      link := Link(INVALID_HANDLE, true, false, false, 0, 0, 0);
      produced, delivered, attempts, acknowledged := [], [], [], 0;
    }

    method ClearReceipts()
      requires Valid()
      modifies this`link, this`produced, this`delivered, this`acknowledged
      ensures Valid() && produced == [] && delivered == []
      ensures link == Link(old(link).connection, old(link).blocked, false, false, 0, 0, 0)
    {
      link := Cleared(link);
      produced, delivered, acknowledged := [], [], 0;
    }

    /** Gives one notification to the radio. */
    method HandOver(bytes: seq<byte>) returns (r: Handover)
      modifies this`attempts
      ensures attempts == old(attempts) + [Attempt(bytes, r)]
      ensures r == Sent ==> link.txPending < radioDepth
    {
      r := *;
      if r == Sent && link.txPending >= radioDepth {
        r := Busy;
      }
      attempts := attempts + [Attempt(bytes, r)];
    }

    /** Offers the oldest waiting receipt to the radio; `next` says that it took it. */
    method OfferHead(ghost was: Ledger, ghost tries: seq<Attempt>) returns (next: bool, alive: bool, ghost r: Attempt)
      requires Valid() && link.count > 0 && MaySend(link) && Taken(was, Books(), tries)
      modifies this`link, this`produced, this`delivered, this`acknowledged, this`attempts
      ensures Valid() && attempts == old(attempts) + [r]
      ensures acknowledged == old(acknowledged) || (!next && delivered == [])
      ensures if next then Taken(was, Books(), tries + [r]) && MaySend(link) && link.count == old(link).count - 1
              else Flushed(was, Books(), tries + [r], alive)
    {
      hide Session.Valid, Conserved, FinalIsEarned, Flushed, Taken;
      WithinRing(produced, delivered, notices[..], link);
      var head := notices[link.head];
      ghost var books := Books();
      var answer := HandOver(head.bytes);
      r, next, alive := Attempt(head.bytes, answer), answer == Sent, answer != Fatal;
      match answer {
        case Busy | NotReady | Fatal =>
          TakenRefused(was, books, tries, answer);
        case LinkLost =>
          TakenRefused(was, books, tries, answer);
          ClearReceipts();
        case Sent =>
          Popped(produced, delivered, notices[..], link, session.s.completed);
          delivered := delivered + [head];
          link := link.(txPending := link.txPending + 1);
          if head.final {
            link := link.(finalSent := true);
          }
          link := link.(head := (link.head + 1) % SLOTS, count := link.count - 1);
          TakenSent(was, books, tries, link.head, link.count);
      }
    }

    /** Hands over as many waiting receipts as the radio takes. On a fatal error the device resets. */
    method FlushNotifications() returns (alive: bool)
      requires Valid()
      modifies this`link, this`produced, this`delivered, this`acknowledged, this`attempts
      ensures Valid() && FlushFrom(old(Books()), old(attempts), alive)
      ensures acknowledged == old(acknowledged) || delivered == []
    {
      hide Session.Valid, Conserved, FinalIsEarned, Flushed, Taken;
      alive := true;
      ghost var was, tries := Books(), [];
      WithinRing(produced, delivered, notices[..], link);
      TakenNone(was);
      while !link.blocked && link.count > 0 && link.enabled && link.connection != INVALID_HANDLE
        invariant Valid() && old(attempts) <= attempts && attempts[|old(attempts)|..] == tries
        invariant Taken(was, Books(), tries) && MaySend(link) == MaySend(was.link)
        invariant acknowledged == old(acknowledged)
        invariant !MaySend(was.link) ==> Books() == was && tries == []
        decreases link.count
      {
        var next;
        ghost var r;
        ghost var calls := attempts;
        next, alive, r := OfferHead(was, tries);
        assert attempts[|old(attempts)|..] == calls[|old(attempts)|..] + [r];
        tries := tries + [r];
        if !next {
          return;
        }
        alive := true;
      }
      WithinRing(produced, delivered, notices[..], link);
      TakenAll(was, Books(), tries);
    }

    /** A link comes up or goes down: the session stays, the receipts do not. */
    method OnConnected(handle: u16)
      requires Valid()
      modifies this`link, this`produced, this`delivered, this`acknowledged, session`s
      ensures Valid() && Books() == Ledger([], [], Link(handle, false, false, false, 0, 0, 0))
      ensures session.s == old(session.s).(prnCount := 0)
    {
      hide Session.Valid;
      link := link.(connection := handle);
      ClearReceipts();
      link := link.(blocked := false);
      session.ForgetCount();
    }

    method OnDisconnected()
      requires Valid()
      modifies this`link, this`produced, this`delivered, this`acknowledged
      ensures Valid() && Books() == Ledger([], [], Link(0xFFFF, true, false, false, 0, 0, 0))
    {
      link := link.(connection := INVALID_HANDLE, blocked := true);
      ClearReceipts();
    }

    /** The transmissions reported once `count` more are, unless these are more than there can be. */
    ghost function Reported(count: byte): nat
      reads this
    {
      if acknowledged + count <= |delivered| then acknowledged + count else acknowledged
    }

    /** The radio has transmitted: the only place from which the new image is activated. */
    method OnTxComplete(count: byte) returns (activate: bool, alive: bool)
      requires Valid()
      modifies this`link, this`produced, this`delivered, this`acknowledged, this`attempts
      ensures Valid()
      ensures activate <==> !old(link).blocked && old(link).finalSent && old(link).count == 0
                            && old(Reported(count) == |delivered|)
      ensures !old(link).blocked && delivered != [] ==> acknowledged == old(Reported(count))
      ensures activate ==> MayActivate() && alive && attempts == old(attempts)
      ensures activate ==>
                Books() == old(Books()).(link := Acknowledged(old(link), count).(finalSent := false))
      ensures old(link).blocked ==> alive && Books() == old(Books()) && attempts == old(attempts)
      ensures !activate && !old(link).blocked ==>
                FlushFrom(old(Books()).(link := Acknowledged(old(link), count)), old(attempts), alive)
    {
      hide Session.Valid, HandedOverFinal, Ring, Flushed;
      activate, alive := false, true;
      if link.blocked {
        return;
      }
      acknowledged := Reported(count);
      if count <= link.txPending {
        link := link.(txPending := link.txPending - count);
      }
      assert link == Acknowledged(old(link), count);
      if link.finalSent && link.count == 0 && link.txPending == 0 {
        Delivered();
        link := link.(finalSent := false);
        activate := true;
      } else {
        alive := FlushNotifications();
      }
    }

    /**
     * A final receipt handed over, with nothing behind it: however its
     * transmission and those before it are reported, the image is activated,
     * once, by the event that reports the last of them.
     */
    method OnTransmissions(counts: seq<byte>) returns (activated: seq<bool>)
      requires Valid() && !link.blocked && link.finalSent && link.count == 0
      requires counts != [] && (forall i | 0 <= i < |counts| :: counts[i] > 0)
      requires acknowledged + Total(counts) == |delivered|
      modifies this`link, this`produced, this`delivered, this`acknowledged, this`attempts
      ensures Valid() && |activated| == |counts| && delivered == old(delivered) && acknowledged == |delivered|
      ensures forall i | 0 <= i < |counts| :: activated[i] <==> i == |counts| - 1
    {
      hide Session.Valid, Conserved, FinalIsEarned, Flushed, MayActivate;
      activated := [];
      for i := 0 to |counts|
        invariant Valid() && |activated| == i && delivered == old(delivered) && produced == old(produced)
        invariant acknowledged == old(acknowledged) + Total(counts[..i])
        invariant i < |counts| ==> !link.blocked && link.finalSent && link.count == 0
        invariant forall j | 0 <= j < i :: activated[j] <==> j == |counts| - 1
      {
        TotalSplits(counts, i);
        WithinRing(produced, delivered, notices[..], link);
        assert Reported(counts[i]) == old(acknowledged) + Total(counts[..i + 1]);
        ghost var was, calls := Books().(link := Acknowledged(link, counts[i])), attempts;
        var activate, alive := OnTxComplete(counts[i]);
        WithinRing(produced, delivered, notices[..], link);
        assert activate <==> i == |counts| - 1;
        activated := activated + [activate];
        if !activate && MaySend(was.link) {
          NothingToFlush(was, Books(), attempts[|calls|..], alive);
        }
      }
      assert counts[..|counts|] == counts;
    }

    /** The queue has been flushed, if the link allows it, with these books and after these calls. */
    ghost predicate FlushFrom(was: Ledger, calls: seq<Attempt>, alive: bool)
      reads this
    {
      && calls <= attempts
      && if MaySend(was.link) then Flushed(was, Books(), attempts[|calls|..], alive)
         else alive && Books() == was && attempts == calls
    }

    /** The image is complete and checked, and the client's final receipt has left on this very link. */
    ghost predicate MayActivate()
      reads this, session
    {
      && session.s.completed && HandedOverFinal(delivered)
      && link.count == 0 && link.txPending == 0 && produced == delivered
    }

    lemma Delivered()
      requires Valid() && link.finalSent && link.count == 0
      ensures session.s.completed && HandedOverFinal(delivered) && produced == delivered
    {
      assert delivered + [] == delivered;
    }

    /** A write of the client configuration: it alone subscribes, and what waits is offered again. */
    method Subscribe(offset: u16, data: seq<byte>) returns (alive: bool)
      requires Valid()
      modifies this`link, this`produced, this`delivered, this`acknowledged, this`attempts
      ensures Valid()
      ensures FlushFrom(old(Books()).(link := old(link).(enabled := offset == 0 && data == [1, 0])), old(attempts),
               alive)
    {
      hide Session.Valid, Conserved, FinalIsEarned, Flushed;
      var on := offset == 0 && |data| == 2 && data[0] == 1 && data[1] == 0;
      assert on <==> offset == 0 && data == [1, 0];
      LinkFlags(produced, delivered, notices[..], link, session.s.completed, link.blocked, on);
      link := link.(enabled := on);
      alive := FlushNotifications();
    }

    /** A write meant for the session whose receipt has a place: the books with its receipt are flushed. */
    method Serve(control: bool, data: seq<byte>) returns (alive: bool, ghost asked: seq<Notice>)
      requires Valid() && link.count < SLOTS
      modifies this`link, this`produced, this`delivered, this`acknowledged, this`attempts
      modifies notices, session, session.command, session.data
      ensures Valid() && Reached(old(session.transcript), session.transcript, control, data)
      ensures Answered(old(produced), asked, LastReceipt(control, data, session.s, session.transcript))
      ensures FlushFrom(Ledger(asked, old(delivered),
               old(link).(count := old(link).count + |asked| - |old(produced)|)), old(attempts), alive)
      ensures old(session.s).completed ==> session.s.completed
    {
      hide Session.Valid, Conserved, FinalIsEarned, Flushed;
      Enqueue(control, data);
      asked := produced;
      alive := FlushNotifications();
    }

    /**
     * A write reaches the session only when its receipt has a place; a full
     * queue blocks the link instead. What does not concern this service, or
     * comes on a blocked link, changes nothing.
     */
    method OnWrite(attribute: Attribute, offset: u16, op: Operation, data: seq<byte>)
      returns (alive: bool, ghost asked: seq<Notice>)
      requires Valid()
      modifies this`link, this`produced, this`delivered, this`acknowledged, this`attempts
      modifies notices, session, session.command, session.data
      ensures Valid()
      ensures WriteDone(attribute, offset, op, data, old(Books()), old(session.transcript), old(attempts), asked, alive)
      ensures Effect(old(link), attribute, offset, op) != Serves ==>
                session.transcript == old(session.transcript) && session.s == old(session.s)
                    && session.log == old(session.log)
      ensures old(session.s).completed ==> session.s.completed
    {
      hide Session.Valid, Conserved, FinalIsEarned, Flushed, FlushFrom, Reached, Answered;
      WithinRing(produced, delivered, notices[..], link);
      alive, asked := true, produced;
      if link.blocked || link.connection == INVALID_HANDLE {
        return;
      }
      if attribute == ControlCccd {
        alive := Subscribe(offset, data);
        return;
      }
      if !link.enabled {
        return;
      }
      var control := attribute == ControlValue;
      if !control && attribute != PacketValue {
        return;
      }
      if offset != 0 || (op != WriteRequest && op != WriteCommand) {
        return;
      }
      if link.count == SLOTS {
        LinkFlags(produced, delivered, notices[..], link, session.s.completed, true, link.enabled);
        link := link.(blocked := true);
        return;
      }
      alive, asked := Serve(control, data);
    }

    /** What a write does, by the state of the link it comes on. */
    ghost predicate WriteDone(attribute: Attribute, offset: u16, op: Operation, data: seq<byte>, was: Ledger,
                              transcript: seq<Exchange>, calls: seq<Attempt>, asked: seq<Notice>, alive: bool)
      reads this, session
    {
      var control := attribute == ControlValue;
      match Effect(was.link, attribute, offset, op)
      case Serves =>
        && Reached(transcript, session.transcript, control, data)
        && Answered(was.produced, asked, LastReceipt(control, data, session.s, session.transcript))
        && FlushFrom(Ledger(asked, was.delivered,
             was.link.(count := was.link.count + |asked| - |was.produced|)), calls, alive)
      case Subscribes =>
        FlushFrom(was.(link := was.link.(enabled := offset == 0 && data == [1, 0])), calls, alive)
      case Blocks => alive && Books() == was.(link := was.link.(blocked := true)) && attempts == calls
      case Nothing => alive && Books() == was && attempts == calls
    }

    /** Retries a receipt the radio had refused; `due` says that enough time has passed. */
    method Poll(due: bool) returns (alive: bool)
      requires Valid()
      modifies this`link, this`produced, this`delivered, this`acknowledged, this`attempts
      ensures Valid()
      ensures if due then FlushFrom(old(Books()), old(attempts), alive)
              else alive && Books() == old(Books()) && attempts == old(attempts)
    {
      alive := true;
      if !link.blocked && link.count > 0 && link.enabled && link.connection != INVALID_HANDLE && due {
        alive := FlushNotifications();
      } else {
        NothingWaits(produced, delivered, notices[..], link);
        assert attempts[|attempts|..] == [];
      }
    }

    /**
     * Any event in any state: what holds is kept, and the new image is
     * activated only when it may be.
     */
    method OnEvent(e: BleEvent) returns (activate: bool, alive: bool, ghost asked: seq<Notice>)
      requires Valid()
      modifies this`link, this`produced, this`delivered, this`acknowledged, this`attempts
      modifies notices, session, session.command, session.data
      ensures Valid()
      ensures activate ==> e.TxComplete? && !old(link).blocked && MayActivate()
      ensures old(session.s).completed ==> session.s.completed
      ensures e.Connected? ==>
                && alive && Books() == Ledger([], [], Link(e.handle, false, false, false, 0, 0, 0))
                && session.s == old(session.s).(prnCount := 0)
      ensures e.Disconnected? ==>
                && alive && Books() == Ledger([], [], Link(0xFFFF, true, false, false, 0, 0, 0))
                && session.s == old(session.s)
      ensures e.OtherEvent? ==>
                alive && Books() == old(Books()) && attempts == old(attempts) && session.s == old(session.s)
      ensures e.TxComplete? ==>
                && session.s == old(session.s)
                && activate == (!old(link).blocked && old(link).finalSent && old(link).count == 0
                     && old(Reported(e.count) == |delivered|))
                && (old(link).blocked ==> alive && Books() == old(Books()) && attempts == old(attempts))
                && (!activate && !old(link).blocked ==>
                      FlushFrom(old(Books()).(link := Acknowledged(old(link), e.count)), old(attempts), alive))
      ensures e.AttributeWrite? ==>
                && WriteDone(e.attribute, e.offset, e.op, e.data, old(Books()), old(session.transcript), old(attempts),
                     asked, alive)
                && (Effect(old(link), e.attribute, e.offset, e.op) != Serves ==>
                      session.transcript == old(session.transcript) && session.s == old(session.s))
    {
      hide Session.Valid, Conserved, FinalIsEarned, HandedOverFinal, FlushFrom, WriteDone;
      activate, alive, asked := false, true, produced;
      match e
      case Connected(handle) => OnConnected(handle);
      case Disconnected => OnDisconnected();
      case TxComplete(count) => activate, alive := OnTxComplete(count);
      case AttributeWrite(attribute, offset, op, data) => alive, asked := OnWrite(attribute, offset, op, data);
      case OtherEvent =>
    }

    /** The session answers, and its answer takes the next slot. */
    method Enqueue(control: bool, data: seq<byte>)
      requires Valid() && link.count < SLOTS
      modifies this`link, this`produced, notices, session, session.command, session.data
      ensures Valid() && delivered == old(delivered)
      ensures Reached(old(session.transcript), session.transcript, control, data)
      ensures Answered(old(produced), produced, LastReceipt(control, data, session.s, session.transcript))
      ensures old(session.s).completed ==> session.s.completed
      ensures link == old(link).(count := old(link).count + |produced| - |old(produced)|)
    {
      hide Session.Valid, Conserved, FinalIsEarned, Reached, LastReceipt;
      ghost var was, l, done := notices[..], link, session.s.completed;
      WithinRing(produced, delivered, was, l);
      var slot := (link.head + link.count) % SLOTS;
      var reply, final := Ask(control, data);
      notices[slot] := Notice(reply, final);
      assert notices[..] == was[slot := Notice(reply, final)];
      Pushed(produced, delivered, was, l, done, session.s.completed, Notice(reply, final));
      if |reply| > 0 {
        link := link.(count := link.count + 1);
        produced := produced + [Notice(reply, final)];
      }
    }

    /** The session's answer, and whether it is the receipt the activation waits for. */
    method Ask(control: bool, data: seq<byte>) returns (reply: seq<byte>, final: bool)
      requires session.Valid()
      modifies session, session.command, session.data
      ensures session.Valid() && Reached(old(session.transcript), session.transcript, control, data)
      ensures old(session.s).completed ==> session.s.completed
      ensures Notice(reply, final) == LastReceipt(control, data, session.s, session.transcript)
      ensures final ==> session.s.completed && reply == [0x60, EXECUTE, OK]
    {
      hide Holds, Replay;
      if control {
        reply := session.HandleControl(data);
      } else {
        reply := session.HandlePacket(data);
      }
      final := control && |data| == 1 && data[0] == EXECUTE && session.s.selected == DATA && session.s.completed
               && |reply| == 3 && reply[2] == OK;
      assert final ==> reply == reply[..2] + [reply[2]] == [0x60, EXECUTE, OK];
    }
  }

  lemma WithinRing(produced: seq<Notice>, delivered: seq<Notice>, notices: seq<Notice>, l: Link)
    requires Conserved(produced, delivered, notices, l)
    ensures |notices| == SLOTS && l.head < SLOTS && l.count <= SLOTS && l.txPending <= |delivered|
    ensures delivered <= produced && l.count == |produced| - |delivered|
    ensures l.count > 0 ==> produced[|delivered|] == notices[l.head]
  {}

  /** With nothing waiting there is nothing to flush. */
  lemma NothingWaits(produced: seq<Notice>, delivered: seq<Notice>, notices: seq<Notice>, l: Link)
    requires Conserved(produced, delivered, notices, l)
    ensures l.count == 0 ==> Flushed(Ledger(produced, delivered, l), Ledger(produced, delivered, l), [], true)
  {
  }

  lemma NothingToFlush(was: Ledger, now: Ledger, tries: seq<Attempt>, alive: bool)
    requires Flushed(was, now, tries, alive) && |was.produced| == |was.delivered|
    ensures alive && now.produced == was.produced && now.delivered == was.delivered
    ensures now.link == was.link.(head := now.link.head, count := now.link.count)
  {}

  function Total(counts: seq<byte>): nat {
    if counts == [] then 0 else Total(counts[..|counts| - 1]) + counts[|counts| - 1]
  }

  /** What is reported up to an event, with it, and behind it. */
  lemma {:induction false} TotalSplits(counts: seq<byte>, i: nat)
    requires i < |counts| && forall j | 0 <= j < |counts| :: counts[j] > 0
    ensures Total(counts[..i + 1]) == Total(counts[..i]) + counts[i] <= Total(counts)
    ensures Total(counts[..i + 1]) == Total(counts) <==> i == |counts| - 1
    decreases |counts|
  {
    assert counts[..i + 1][..i] == counts[..i];
    if i < |counts| - 1 {
      var shorter := counts[..|counts| - 1];
      TotalSplits(shorter, i);
      assert shorter[..i + 1] == counts[..i + 1] && shorter[..i] == counts[..i];
    } else {
      assert counts[..i + 1] == counts;
    }
  }

  /** A transmit event that reports no more than is owed is taken off. */
  function Acknowledged(l: Link, count: byte): Link {
    if count <= l.txPending then l.(txPending := l.txPending - count) else l
  }

  lemma LinkFlags(produced: seq<Notice>, delivered: seq<Notice>, notices: seq<Notice>, l: Link, completed: bool,
                  blocked: bool, enabled: bool)
    requires Conserved(produced, delivered, notices, l) && FinalIsEarned(produced, delivered, l, completed)
    ensures var l' := l.(blocked := blocked, enabled := enabled);
            Conserved(produced, delivered, notices, l') && FinalIsEarned(produced, delivered, l', completed)
  {}

  /** A slot filled but not counted changes nothing; counted, it is the newest receipt. */
  lemma Pushed(produced: seq<Notice>, delivered: seq<Notice>, notices: seq<Notice>, l: Link, was: bool, completed: bool,
               n: Notice)
    requires Conserved(produced, delivered, notices, l) && FinalIsEarned(produced, delivered, l, was) && l.count < SLOTS
    requires (was ==> completed) && (n.final ==> completed && n.bytes == [0x60, EXECUTE, OK])
    ensures var filled := notices[(l.head + l.count) % SLOTS := n];
            && Conserved(produced, delivered, filled, l) && FinalIsEarned(produced, delivered, l, completed)
            && Conserved(produced + [n], delivered, filled, l.(count := l.count + 1))
            && FinalIsEarned(produced + [n], delivered, l.(count := l.count + 1), completed)
  {
    hide Ring, HandedOverFinal;
    RingPush(notices, l.head, l.count, n);
    assert delivered + (Ring(notices, l.head, l.count) + [n]) == delivered + Ring(notices, l.head, l.count) + [n];
  }

  /** What a write is to the transport, by the state of the link alone. */
  datatype WriteEffect = Serves | Subscribes | Blocks | Nothing

  function Effect(l: Link, attribute: Attribute, offset: u16, op: Operation): WriteEffect {
    if l.blocked || l.connection == INVALID_HANDLE then Nothing
    else if attribute == ControlCccd then Subscribes
    else if !l.enabled || attribute == OtherAttribute || offset != 0 || op == OtherOperation then Nothing
    else if l.count == SLOTS then Blocks
    else Serves
  }

  /** One exchange more, with this request. */
  predicate Reached(before: seq<Exchange>, after: seq<Exchange>, control: bool, data: seq<byte>) {
    && |after| == |before| + 1 && before <= after
    && after[|before|].request == if control then Control(data) else Packet(data)
  }

  /**
   * The answer to the last exchange. It is the final receipt exactly when it
   * tells the client that an EXECUTE of data has completed the image.
   */
  function LastReceipt(control: bool, data: seq<byte>, s: State, transcript: seq<Exchange>): Notice
    requires |transcript| > 0
  {
    var reply := transcript[|transcript| - 1].reply;
    Notice(reply, control && data == [EXECUTE] && s.selected == DATA && s.completed && |reply| == 3 && reply[2] == OK)
  }

  /** An answer that is not empty is the next receipt. */
  predicate Answered(before: seq<Notice>, after: seq<Notice>, n: Notice) {
    after == if n.bytes == [] then before else before + [n]
  }

  lemma Popped(produced: seq<Notice>, delivered: seq<Notice>, notices: seq<Notice>, l: Link, completed: bool)
    requires Conserved(produced, delivered, notices, l) && FinalIsEarned(produced, delivered, l, completed)
    requires l.count > 0
    requires l.txPending < U16_MAX
    ensures var n := notices[l.head];
            var l' := l.(txPending := l.txPending + 1, finalSent := l.finalSent || n.final,
                head := (l.head + 1) % SLOTS, count := l.count - 1);
            Conserved(produced, delivered + [n], notices, l') && FinalIsEarned(produced, delivered + [n], l', completed)
  {
    hide Ring;
    var n := notices[l.head];
    RingPop(notices, l.head, l.count);
    var rest := Ring(notices, (l.head + 1) % SLOTS, l.count - 1);
    assert delivered + ([n] + rest) == delivered + [n] + rest;
    assert produced[|delivered|] == n;
    var now := delivered + [n];
    if l.finalSent {
      var i :| 0 <= i < |delivered| && delivered[i] == Notice([0x60, EXECUTE, OK], true);
      assert now[i] == delivered[i];
    } else if n.final {
      assert now[|delivered|] == Notice([0x60, EXECUTE, OK], true);
    }
  }
}
