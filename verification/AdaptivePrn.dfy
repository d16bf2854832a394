/**
 * The host's controller of the receipt window: it tries the next larger
 * window, keeps it or rolls it back, and falls when receipts turn slow.
 * Clock readings and rates are real numbers.
 */
module AdaptivePrn {
  import opened Bytes

  const NEUTRAL_RECEIPTS_TO_PROBE: nat := 2
  const PROBE_RECEIPTS_TO_DECIDE: nat := 2
  const PROBE_MATERIAL_RATE_RATIO: real := 0.10
  const CLOSE: real := 0.000000001

  datatype Kind = ProbeStarted | ProbeKept | ProbeRolledBack | SlowDemoted

  datatype Decision = Decision(kind: Kind, oldWindow: nat, newWindow: nat)

  // ---- the trace of levels ----------------------------------------------------

  predicate Fell(t: seq<nat>, i: nat)
    requires i + 1 < |t|
  {
    t[i + 1] < t[i]
  }

  predicate Rose(t: seq<nat>, i: nat)
    requires i + 1 < |t|
  {
    t[i] < t[i + 1]
  }

  predicate Near(t: seq<nat>, i: nat)
    requires i + 1 < |t|
  {
    t[i + 1] <= t[i] + 1 && t[i] <= t[i + 1] + 1
  }

  /** One level at a time, and no rise after a fall. */
  predicate RisesThenFalls(t: seq<nat>) {
    && (forall i: nat | i + 1 < |t| :: Near(t, i))
    && (forall i: nat, j: nat | i < j && j + 1 < |t| :: Fell(t, i) ==> !Rose(t, j))
  }

  predicate HasFallen(t: seq<nat>) {
    exists i: nat | i + 1 < |t| :: Fell(t, i)
  }

  function Rises(t: seq<nat>): nat
    decreases |t|
  {
    if |t| < 2 then 0 else Rises(t[..|t| - 1]) + if t[|t| - 2] < t[|t| - 1] then 1 else 0
  }

  function Falls(t: seq<nat>): nat
    decreases |t|
  {
    if |t| < 2 then 0 else Falls(t[..|t| - 1]) + if t[|t| - 1] < t[|t| - 2] then 1 else 0
  }

  /** While nothing has fallen, the level is the number of rises; at all times it is rises less falls. */
  lemma {:induction false} Balance(t: seq<nat>)
    requires RisesThenFalls(t) && t != [] && t[0] == 0
    ensures Rises(t) - Falls(t) == t[|t| - 1]
    ensures !HasFallen(t) ==> Falls(t) == 0
    decreases |t|
  {
    if |t| >= 2 {
      var s := t[..|t| - 1];
      Shorter(t);
      hide RisesThenFalls, HasFallen;
      Balance(s);
    }
  }

  lemma Shorter(t: seq<nat>)
    requires RisesThenFalls(t) && |t| >= 2
    ensures RisesThenFalls(t[..|t| - 1]) && (HasFallen(t[..|t| - 1]) ==> HasFallen(t) && t[|t| - 1] <= t[|t| - 2])
    ensures HasFallen(t) <==> HasFallen(t[..|t| - 1]) || t[|t| - 1] < t[|t| - 2]
    ensures t[|t| - 1] <= t[|t| - 2] + 1 && t[|t| - 2] <= t[|t| - 1] + 1
  {
    var s := t[..|t| - 1];
    forall i: nat | i + 1 < |s| ensures Near(s, i) && Fell(s, i) == Fell(t, i) && Rose(s, i) == Rose(t, i) {
      assert Near(t, i);
    }
    assert Fell(t, |t| - 2) <==> t[|t| - 1] < t[|t| - 2];
    assert Rose(t, |t| - 2) <==> t[|t| - 2] < t[|t| - 1];
    assert Near(t, |t| - 2);
    if HasFallen(t) && !Fell(t, |t| - 2) {
      var i: nat :| i + 1 < |t| && Fell(t, i);
      assert i + 1 < |s| && Fell(s, i);
    }
    if HasFallen(s) {
      var i: nat :| i + 1 < |s| && Fell(s, i);
      assert Fell(t, i);
    }
  }

  /** Below `n` levels there are at most `n - 1` rises. */
  lemma {:induction false} FewRises(t: seq<nat>, n: nat)
    requires RisesThenFalls(t) && t != [] && t[0] == 0 && forall i | 0 <= i < |t| :: t[i] < n
    ensures Rises(t) <= n - 1
    decreases |t|
  {
    if |t| >= 2 {
      Shorter(t);
      hide RisesThenFalls, HasFallen;
      FewRises(t[..|t| - 1], n);
      if !HasFallen(t) {
        Balance(t);
      }
    }
  }

  /** The window changes at most twice for every level above the first. */
  lemma FewChanges(t: seq<nat>, n: nat)
    requires RisesThenFalls(t) && t != [] && t[0] == 0 && forall i | 0 <= i < |t| :: t[i] < n
    ensures Rises(t) + Falls(t) <= 2 * (n - 1)
  {
    FewRises(t, n);
    Balance(t);
  }

  lemma TraceNext(t: seq<nat>, level: nat, blocked: bool, after: bool)
    requires RisesThenFalls(t) && t != [] && (HasFallen(t) ==> blocked)
    requires var last := t[|t| - 1];
             && level <= last + 1 && last <= level + 1
             && (level > last ==> !blocked) && (level < last ==> after)
    requires blocked ==> after
    ensures RisesThenFalls(t + [level]) && (HasFallen(t + [level]) ==> after)
  {
    var s := t + [level];
    forall i: nat | i + 1 < |t| ensures Near(s, i) && Fell(s, i) == Fell(t, i) && Rose(s, i) == Rose(t, i) {
      assert Near(t, i);
    }
    assert Near(s, |t| - 1);
    assert Fell(s, |t| - 1) <==> level < t[|t| - 1];
    assert Rose(s, |t| - 1) <==> level > t[|t| - 1];
    forall i: nat, j: nat | i < j && j + 1 < |s| && Fell(s, i) ensures !Rose(s, j) {
      assert Fell(t, i);
    }
  }

  // ---- the controller ---------------------------------------------------------

  /** A probe of the next level: where it started, and what has been measured since. */
  datatype Probe = Probe(active: bool, origin: Option<nat>, baselineRate: real, rateTotal: real, receipts: nat)

  /** Receipts in a row of one kind, and the sum of their rates. */
  datatype Streak = Streak(count: nat, rateTotal: real)

  datatype ProbeVerdict = Keep | RollBack | Undecided

  /** A receipt: the time it took, and the packets and bytes it stands for. */
  datatype Sample = Sample(elapsed: real, packets: nat, payload: nat)

  const NO_STREAK: Streak := Streak(0, 0.0)
  const NO_PROBE: Probe := Probe(false, None, 0.0, 0.0, 0)

  class Controller {
    const packetSize: nat
    const fastRate: real
    const slowRate: real
    const latencyAllowance: real
    const fastReceipts: nat
    const levels: seq<nat>
    var index: nat
    var fast: Streak
    var neutral: Streak
    var probe: Probe
    var probeBlocked: bool
    var lastDecision: Option<Decision>
    /** The level after the start and after every receipt. */
    ghost var trace: seq<nat>
    /** Every receipt taken. */
    ghost var observed: seq<Sample>

    ghost predicate Valid()
      reads this
    {
      && Configured(packetSize, fastRate, slowRate, latencyAllowance, fastReceipts, levels)
      && index < |levels| && InTrace()
      && (probe.active ==> probe.origin.Some? && probe.origin.value + 1 == index && !probeBlocked)
    }

    /** The run so far, up to the level now in force. */
    ghost predicate InTrace()
      reads this
    {
      && |trace| == |observed| + 1 && trace[0] == 0 && trace[|trace| - 1] == index
      && (forall i | 0 <= i < |trace| :: trace[i] < |levels|)
      && RisesThenFalls(trace) && (HasFallen(trace) ==> probeBlocked)
    }

    constructor (packet: nat, fastR: real, slowR: real, allowance: real, receipts: nat, lv: seq<nat>)
      requires Configured(packet, fastR, slowR, allowance, receipts, lv)
      ensures Valid() && packetSize == packet && levels == lv && trace == [0] && observed == [] && index == 0
      ensures fastRate == fastR && slowRate == slowR && latencyAllowance == allowance && fastReceipts == receipts
      ensures fast == neutral == Streak(0, 0.0) && probe == Probe(false, None, 0.0, 0.0, 0)
      ensures !probeBlocked && lastDecision.None?
    {
      packetSize, fastRate, slowRate, latencyAllowance, fastReceipts, levels := packet, fastR, slowR, allowance,
          receipts, lv;
      index := 0;
      fast, neutral, probe := NO_STREAK, NO_STREAK, NO_PROBE;
      probeBlocked, lastDecision := false, None;
      trace, observed := [0], [];
    }

    function Window(): nat
      requires index < |levels|
      reads this
    {
      levels[index]
    }

    function Budget(payload: nat, rate: real): real
      requires rate > 0.0
    {
      latencyAllowance + payload as real / rate
    }

    /** Goes up one level to try it; there must be one. */
    method StartProbe(baseline: real) returns (raised: bool)
      requires index < |levels|
      modifies this`index, this`probe, this`fast, this`neutral
      ensures raised <==> old(index) + 1 == |levels|
      ensures !raised ==> index == old(index) + 1 && probe == Probe(true, Some(old(index)), baseline, 0.0, 0)
      ensures !raised ==> fast == NO_STREAK && neutral == NO_STREAK
      ensures raised ==> index == old(index) && probe == old(probe)
    {
      if index >= |levels| - 1 {
        return true;
      }
      probe := probe.(origin := Some(index), baselineRate := baseline);
      index := index + 1;
      probe := probe.(active := true, rateTotal := 0.0, receipts := 0);
      fast := NO_STREAK;
      neutral := NO_STREAK;
      raised := false;
    }

    /** Keeps the level tried, or goes back to where the probe came from. */
    method FinishProbe(keep: bool) returns (raised: bool)
      modifies this`index, this`probe, this`fast, this`neutral, this`probeBlocked
      ensures raised <==> !keep && old(probe).origin.None?
      ensures !raised ==> probe == NO_PROBE && fast == NO_STREAK && neutral == NO_STREAK
      ensures !raised ==> index == if keep then old(index) else old(probe).origin.value
      ensures !raised ==> probeBlocked == (old(probeBlocked) || !keep)
    {
      if !keep {
        if probe.origin.None? {
          return true;
        }
        index := probe.origin.value;
        probeBlocked := true;
      }
      probe := NO_PROBE;
      fast := NO_STREAK;
      neutral := NO_STREAK;
      raised := false;
    }

    /**
     * What becomes of a probe: a slow or clearly worse receipt ends it, a clearly better one keeps it,
     * two close ones are averaged.
     */
    function Verdict(p: Probe, elapsed: real, rate: real, slowBudget: real): ProbeVerdict {
      if elapsed >= slowBudget || 10.0 * rate < 9.0 * p.baselineRate then RollBack
      else if 10.0 * rate > 11.0 * p.baselineRate then Keep
      else if p.receipts + 1 < PROBE_RECEIPTS_TO_DECIDE then Undecided
      else
        var average := (p.rateTotal + rate) / (p.receipts + 1) as real;
        if average >= p.baselineRate || IsClose(average, p.baselineRate) then Keep else RollBack
    }

    /** What a receipt says while a probe is under way. */
    method ObserveProbe(elapsed: real, rate: real, slowBudget: real) returns (raised: bool)
      requires Valid() && probe.active && lastDecision.None?
      modifies this`index, this`probe, this`fast, this`neutral, this`probeBlocked, this`lastDecision
      ensures !raised && trace == old(trace)
      ensures index < |levels|
      ensures probe.active ==> probe == old(probe).(rateTotal := probe.rateTotal, receipts := probe.receipts)
      ensures index == old(index) || (index + 1 == old(index) && probeBlocked)
      ensures probe.active || probeBlocked == (index < old(index))
      ensures probe.active ==> index == old(index) && !probeBlocked
      ensures Names(lastDecision, old(index), index, true, !probe.active)
      ensures fast == (if probe.active then old(fast) else NO_STREAK)
      ensures neutral == (if probe.active then old(neutral) else NO_STREAK)
      ensures var v := Verdict(old(probe), elapsed, rate, slowBudget);
              if v == Undecided then probe == old(probe).(rateTotal := old(probe).rateTotal + rate,
                  receipts := old(probe).receipts + 1)
              else probe == NO_PROBE && (index == old(index) <==> v == Keep)
    {
      raised := false;
      var lower := probe.baselineRate * (1.0 - PROBE_MATERIAL_RATE_RATIO);
      var upper := probe.baselineRate * (1.0 + PROBE_MATERIAL_RATE_RATIO);
      var oldWindow := Window();
      if elapsed >= slowBudget || rate < lower {
        raised := FinishProbe(false);
        lastDecision := Some(Decision(ProbeRolledBack, oldWindow, Window()));
      } else if rate > upper {
        raised := FinishProbe(true);
        lastDecision := Some(Decision(ProbeKept, oldWindow, Window()));
      } else {
        probe := probe.(rateTotal := probe.rateTotal + rate, receipts := probe.receipts + 1);
        if probe.receipts >= PROBE_RECEIPTS_TO_DECIDE {
          var average := probe.rateTotal / probe.receipts as real;
          var keep := average >= probe.baselineRate || IsClose(average, probe.baselineRate);
          raised := FinishProbe(keep);
          lastDecision := Some(Decision(if keep then ProbeKept else ProbeRolledBack, oldWindow, Window()));
        }
      }
    }

    /** What a receipt says while no probe is under way. */
    method ObserveLevel(elapsed: real, rate: real, fastBudget: real, slowBudget: real) returns (raised: bool)
      requires Valid() && !probe.active && lastDecision.None?
      modifies this`index, this`probe, this`fast, this`neutral, this`probeBlocked, this`lastDecision
      ensures !raised && trace == old(trace) && index < |levels|
      ensures index <= old(index) + 1 && old(index) <= index + 1
      ensures index > old(index) ==>
                !old(probeBlocked) && !probeBlocked && probe.active && probe.origin == Some(old(index))
      ensures index <= old(index) ==> probe == old(probe)
      ensures probeBlocked <==> old(probeBlocked) || index < old(index)
      ensures index < old(index) ==> elapsed >= slowBudget
      ensures elapsed >= slowBudget ==> index == if old(index) == 0 then 0 else old(index) - 1
      ensures Names(lastDecision, old(index), index, false, index != old(index))
      ensures index > old(index) <==> elapsed < slowBudget && !old(probeBlocked) && old(index) + 1 < |levels|
                                      && (if elapsed <= fastBudget then old(fast).count + 1 >= fastReceipts
                                          else old(neutral).count + 1 >= NEUTRAL_RECEIPTS_TO_PROBE)
      ensures index > old(index) ==>
                var streak := if elapsed <= fastBudget then old(fast) else old(neutral);
                probe == Probe(true, Some(old(index)), (streak.rateTotal + rate) / (streak.count + 1) as real, 0.0, 0)
      ensures Streaks(elapsed >= slowBudget, elapsed <= fastBudget, rate, old(fast), old(neutral), index > old(index))
    {
      raised := false;
      var oldWindow := Window();
      if elapsed >= slowBudget {
        index := Max(0, index - 1);
        fast := NO_STREAK;
        neutral := NO_STREAK;
        if Window() != oldWindow {
          probeBlocked := true;
          lastDecision := Some(Decision(SlowDemoted, oldWindow, Window()));
        }
      } else if elapsed <= fastBudget {
        neutral := NO_STREAK;
        if probeBlocked {
          fast := NO_STREAK;
        } else {
          fast := Streak(fast.count + 1, fast.rateTotal + rate);
          if fast.count >= fastReceipts && index < |levels| - 1 {
            raised := StartProbe(fast.rateTotal / fast.count as real);
            lastDecision := Some(Decision(ProbeStarted, oldWindow, Window()));
          } else if index == |levels| - 1 {
            fast := NO_STREAK;
          }
        }
      } else {
        fast := NO_STREAK;
        if probeBlocked || index == |levels| - 1 {
          neutral := NO_STREAK;
        } else {
          neutral := Streak(neutral.count + 1, neutral.rateTotal + rate);
          if neutral.count >= NEUTRAL_RECEIPTS_TO_PROBE {
            raised := StartProbe(neutral.rateTotal / neutral.count as real);
            lastDecision := Some(Decision(ProbeStarted, oldWindow, Window()));
          }
        }
      }
    }

    /** Streaks grow only by receipts of their own kind, and only while there is a level to win. */
    predicate Streaks(slow: bool, quick: bool, rate: real, fast0: Streak, neutral0: Streak, started: bool)
      reads this
    {
      var open := !slow && !started && !probeBlocked && index + 1 < |levels|;
      && fast == (if open && quick then Streak(fast0.count + 1, fast0.rateTotal + rate) else NO_STREAK)
      && neutral == (if open && !quick then Streak(neutral0.count + 1, neutral0.rateTotal + rate) else NO_STREAK)
    }

    /** A decision is reported exactly when one was taken, and it is the change that happened. */
    predicate Names(d: Option<Decision>, before: nat, after: nat, probing: bool, decided: bool)
      requires before < |levels| && after < |levels|
    {
      && (d.Some? <==> decided)
      && (d.Some? ==>
            && d.value.oldWindow == levels[before] && d.value.newWindow == levels[after]
            && d.value.kind == if before < after then ProbeStarted else if before == after then ProbeKept
                else if probing then ProbeRolledBack else SlowDemoted)
    }

    /** The time behind the latency allowance is too long for the slow rate. */
    predicate TooSlow(elapsed: real, payload: int) {
      (elapsed - latencyAllowance) * slowRate >= payload as real
    }

    /** The time behind the latency allowance is short enough for the fast rate. */
    predicate FastEnough(elapsed: real, payload: int) {
      (elapsed - latencyAllowance) * fastRate <= payload as real
    }

    lemma BudgetIs(elapsed: real, payload: nat, rate: real)
      requires rate > 0.0
      ensures elapsed >= Budget(payload, rate) <==> (elapsed - latencyAllowance) * rate >= payload as real
      ensures elapsed <= Budget(payload, rate) <==> (elapsed - latencyAllowance) * rate <= payload as real
    {
      var d, q := elapsed - latencyAllowance, payload as real / rate;
      assert q * rate == payload as real;
      assert d >= q <==> d * rate >= q * rate by { Scaled(d, q, rate); }
      assert d <= q <==> d * rate <= q * rate by { Scaled(q, d, rate); }
    }

    lemma Scaled(x: real, y: real, rate: real)
      requires rate > 0.0
      ensures x >= y <==> x * rate >= y * rate
    {
      assert x * rate - y * rate == (x - y) * rate;
      if x >= y {
        assert (x - y) * rate >= 0.0;
      } else {
        assert (x - y) * rate < 0.0;
      }
    }

    /**
     * Takes one receipt. A sample that makes no sense is refused and changes
     * nothing; any other moves the window by at most one level.
     */
    method ObserveExactReceipt(elapsed: real, packetCount: int, payload: int)
      returns (valid: bool, raised: bool, window: nat)
      requires Valid()
      modifies this
      ensures Valid() && !raised
      ensures valid <==> elapsed > 0.0 && packetCount > 0 && 0 < payload <= packetCount * packetSize
      ensures !valid ==> Unmoved(old(trace), old(observed), old(index), old(fast), old(neutral), old(probe),
                           old(probeBlocked), old(lastDecision))
      ensures valid ==>
                && trace == old(trace) + [index] && window == Window()
                && observed == old(observed) + [Sample(elapsed, packetCount, payload)]
                && Names(lastDecision, old(index), index, old(probe).active,
                     index != old(index) || (old(probe).active && !probe.active))
                && (probeBlocked <==> old(probeBlocked) || index < old(index))
      ensures valid && old(probe).active ==>
                && index == (if RollsBack(old(probe), elapsed, payload) then old(index) - 1 else old(index))
                && probe == (if Decides(old(probe), elapsed, payload) then NO_PROBE
                     else old(probe).(rateTotal := old(probe).rateTotal + payload as real / elapsed,
                         receipts := old(probe).receipts + 1))
                && (if probe.active then fast == old(fast) && neutral == old(neutral) else fast == neutral == NO_STREAK)
      ensures valid && !old(probe).active ==>
                && (index < old(index) <==> TooSlow(elapsed, payload) && old(index) > 0)
                && (index > old(index) <==>
                      && !TooSlow(elapsed, payload) && !old(probeBlocked) && old(index) + 1 < |levels|
                      && (if FastEnough(elapsed, payload) then old(fast).count + 1 >= fastReceipts
                          else old(neutral).count + 1 >= 2))
                && Streaks(TooSlow(elapsed, payload), FastEnough(elapsed, payload), payload as real / elapsed,
                     old(fast), old(neutral), index > old(index))
      ensures valid && !old(probe).active ==>
                var streak := if FastEnough(elapsed, payload) then old(fast) else old(neutral);
                probe == if index <= old(index) then old(probe)
                  else Probe(true, Some(old(index)),
                    (streak.rateTotal + payload as real / elapsed) / (streak.count + 1) as real, 0.0, 0)
    {
      hide RisesThenFalls, HasFallen, Configured, Budget, TooSlow, FastEnough, Verdict, RollsBack, Decides;
      raised := false;
      if elapsed <= 0.0 || packetCount <= 0 || payload <= 0 || payload > packetCount * packetSize {
        return false, raised, 0;
      }
      Rates();
      Thresholds(probe, elapsed, payload);
      var fastBudget := Budget(payload, fastRate);
      var slowBudget := Budget(payload, slowRate);
      var rate := payload as real / elapsed;
      lastDecision := None;
      ghost var blocked := probeBlocked;
      if probe.active {
        raised := ObserveProbe(elapsed, rate, slowBudget);
      } else {
        raised := ObserveLevel(elapsed, rate, fastBudget, slowBudget);
      }
      TraceNext(trace, index, blocked, probeBlocked);
      trace, observed := trace + [index], observed + [Sample(elapsed, packetCount, payload)];
      return true, raised, Window();
    }

    /**
     * A probe is given up when a receipt is too slow or its rate a tenth below
     * the baseline, and when the average of the two close ones is below it by
     * more than rounding; a receipt a tenth above the baseline saves it.
     */
    predicate RollsBack(p: Probe, elapsed: real, payload: int)
      requires elapsed > 0.0
    {
      var rate := payload as real / elapsed;
      || TooSlow(elapsed, payload) || 10.0 * rate < 9.0 * p.baselineRate
      || (10.0 * rate <= 11.0 * p.baselineRate && p.receipts + 1 >= 2
          && var average := (p.rateTotal + rate) / (p.receipts + 1) as real;
             average < p.baselineRate && !IsClose(average, p.baselineRate))
    }

    /** A receipt ends a probe unless it is the first and neither too slow nor far from the baseline. */
    predicate Decides(p: Probe, elapsed: real, payload: int)
      requires elapsed > 0.0
    {
      var rate := payload as real / elapsed;
      p.receipts >= 1 || TooSlow(elapsed, payload) || 10.0 * rate < 9.0 * p.baselineRate
          || 10.0 * rate > 11.0 * p.baselineRate
    }

    /** Nothing has changed. */
    ghost predicate Unmoved(t: seq<nat>, o: seq<Sample>, i: nat, f: Streak, n: Streak, p: Probe, blocked: bool,
                            d: Option<Decision>)
      reads this
    {
      trace == t && observed == o && index == i && fast == f && neutral == n && probe == p && probeBlocked == blocked
          && lastDecision == d
    }

    /** The budgets compared with, and the verdict on a probe, in plain arithmetic. */
    lemma Thresholds(p: Probe, elapsed: real, payload: nat)
      requires elapsed > 0.0 && fastRate > 0.0 && slowRate > 0.0
      ensures elapsed >= Budget(payload, slowRate) <==> TooSlow(elapsed, payload)
      ensures elapsed <= Budget(payload, fastRate) <==> FastEnough(elapsed, payload)
      ensures Verdict(p, elapsed, payload as real / elapsed, Budget(payload, slowRate)) == RollBack
         <==> RollsBack(p, elapsed, payload)
      ensures Verdict(p, elapsed, payload as real / elapsed, Budget(payload, slowRate)) != Undecided
         <==> Decides(p, elapsed, payload)
    {
      hide Budget, IsClose;
      BudgetIs(elapsed, payload, slowRate);
      BudgetIs(elapsed, payload, fastRate);
    }

    lemma Rates()
      requires Valid()
      ensures fastRate > 0.0 && slowRate > 0.0
    {}

    /** In every run, of any length and any timing, the window changes few times. */
    lemma WindowSettles()
      requires Valid()
      ensures RisesThenFalls(trace) && Rises(trace) + Falls(trace) <= 2 * (|levels| - 1)
    {
      FewChanges(trace, |levels|);
    }
  }

  /** Close in the sense of a relative tolerance of one in a billion. */
  predicate IsClose(a: real, b: real) {
    var abs := (x: real) => if x < 0.0 then -x else x;
    abs(a - b) <= CLOSE * (if abs(a) < abs(b) then abs(b) else abs(a))
  }

  /** Closeness in plain arithmetic: less than a billionth of the larger of the two apart. */
  lemma CloseMeans(a: real, b: real)
    requires 0.0 <= a <= b
    ensures IsClose(a, b) <==> (b - a) * 1000000000.0 <= b
    ensures IsClose(b, a) <==> IsClose(a, b)
  {}

  /** What the constructor checks of its arguments. */
  predicate Configured(packet: nat, fastRate: real, slowRate: real, allowance: real, receipts: nat, levels: seq<nat>) {
    && 20 <= packet <= 244 && packet % 4 == 0
    && 0.0 < slowRate < fastRate && allowance >= 0.0 && receipts >= 1
    && levels != [] && (forall i | 0 <= i < |levels| :: 0 < levels[i] <= 0xFFFF)
    && (forall i, j | 0 <= i < j < |levels| :: levels[i] < levels[j])
  }
}
