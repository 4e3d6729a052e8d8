/** Growth of a TCP receive buffer (boltconn/src/transport/smol.rs).  The clock is a parameter and
    durations are real numbers. */
module TcpTuning {
  import opened Common

  const INIT: nat := 128 * 1024
  const MAX: nat := 4 * 1024 * 1024
  const MULTI_GROW_THRESHOLD: nat := 1024 * 1024
  const LINEAR_GROW_STEP: nat := 1024 * 1024
  const RECENCY_THRESHOLD: nat := 6
  const INITIAL_RTT: real := 0.2

  /** The only capacities a receive buffer ever has. */
  const LADDER: seq<nat> := [INIT, 2 * INIT, 4 * INIT, 8 * INIT, 16 * INIT, 24 * INIT, 32 * INIT]

  /** One pass of `try_recv` that received something. */
  datatype Receipt = Receipt(bytes: nat, now: real, resizeOk: bool)

  /** The tuning of a socket and its capacity, as a value. */
  datatype State = State(rtt: real, last: real, accum: nat, business: nat, capacity: nat) {
    predicate WindowOver(r: Receipt) { r.now - last >= rtt || accum + r.bytes >= capacity }

    /** The window used enough of the buffer for a larger one. */
    predicate UsedWell(r: Receipt) {
      var usage := accum + r.bytes;
      if capacity < MULTI_GROW_THRESHOLD then 3 * usage > capacity
      else capacity < MAX && usage + LINEAR_GROW_STEP > capacity && business > RECENCY_THRESHOLD
    }

    function Grown(): nat {
      if capacity < MULTI_GROW_THRESHOLD then 2 * capacity else capacity + LINEAR_GROW_STEP
    }

    function NextBusiness(r: Receipt): nat {
      if capacity < MULTI_GROW_THRESHOLD || capacity >= MAX then business
      else if UsedWell(r) then 0
      else if 2 * (accum + r.bytes) > capacity then if business < RECENCY_THRESHOLD + 2 then business + 1 else business
      else if business < 3 then 0 else business - 3
    }
  }

  function Next(s: State, r: Receipt): State {
    if !s.WindowOver(r) then s.(accum := s.accum + r.bytes)
    else State(if r.now - s.last < s.rtt then s.rtt * 0.3 + (r.now - s.last) * 0.7 else s.rtt,
               r.now, 0, s.NextBusiness(r),
               if s.UsedWell(r) && r.resizeOk then s.Grown() else s.capacity)
  }

  function After(s: State, receipts: seq<Receipt>): State {
    if receipts == [] then s else Next(After(s, receipts[..|receipts| - 1]), receipts[|receipts| - 1])
  }

  /** The receipts that ended a window in which at least half of a buffer of 1 MiB or more was used,
      and so raised the business count. */
  function BusyWindows(s: State, receipts: seq<Receipt>): nat {
    if receipts == [] then 0
    else
      var before := After(s, receipts[..|receipts| - 1]);
      BusyWindows(s, receipts[..|receipts| - 1])
      + if Next(before, receipts[|receipts| - 1]).business > before.business then 1 else 0
  }

  lemma AfterSnoc(s: State, receipts: seq<Receipt>, i: nat)
    requires i < |receipts|
    ensures var before := After(s, receipts[..i]);
            && After(s, receipts[..i + 1]) == Next(before, receipts[i])
            && BusyWindows(s, receipts[..i + 1])
               == BusyWindows(s, receipts[..i]) + if Next(before, receipts[i]).business > before.business then 1 else 0
  {
    assert receipts[..i + 1][..i] == receipts[..i];
  }

  ghost predicate CapacityAt(s: State, receipts: seq<Receipt>, i: nat, capacity: nat)
    requires i < |receipts|
  {
    capacity == After(s, receipts[..i + 1]).capacity
  }

  /** The ladder in bytes: 128, 256 and 512 KiB, then 1 to 4 MiB. */
  lemma LadderInBytes()
    ensures LADDER == [131072, 262144, 524288, 1048576, 2097152, 3145728, 4194304]
    ensures INIT == 131072 && MAX == 4194304
  {
  }

  /** On rung `level` of the ladder, in the middle of a window. */
  predicate OnRung(s: State, level: nat) {
    level < |LADDER| && s.capacity == LADDER[level] && s.accum < s.capacity && s.business <= RECENCY_THRESHOLD + 2
  }

  /** One receipt leaves the buffer on its rung or lifts it to the next. */
  lemma NextRung(s: State, r: Receipt, level: nat) returns (next: nat)
    requires OnRung(s, level)
    ensures level <= next <= level + 1 && OnRung(Next(s, r), next) && s.capacity <= Next(s, r).capacity
    ensures next == level + 1 <==> r.resizeOk && s.WindowOver(r) && s.UsedWell(r)
  {
    next := if r.resizeOk && s.WindowOver(r) && s.UsedWell(r) then level + 1 else level;
  }

  /** Over any run the capacity stays on the ladder and never shrinks. */
  lemma {:induction false} RunClimbs(s: State, receipts: seq<Receipt>, i: nat, level: nat) returns (last: nat)
    requires OnRung(s, level) && i <= |receipts|
    ensures level <= last <= level + |receipts| && OnRung(After(s, receipts), last)
    ensures After(s, receipts[..i]).capacity <= After(s, receipts).capacity
  {
    if receipts == [] {
      last := level;
    } else {
      var n := |receipts| - 1;
      var before := RunClimbs(s, receipts[..n], if i <= n then i else 0, level);
      last := NextRung(After(s, receipts[..n]), receipts[n], before);
      if i <= n {
        assert receipts[..n][..i] == receipts[..i];
      } else {
        assert receipts[..i] == receipts;
      }
    }
  }

  lemma OnTheLadder(s: State, receipts: seq<Receipt>, capacities: seq<nat>)
    requires OnRung(s, 0) && CapacitiesUpTo(s, receipts, |receipts|, capacities)
    ensures forall i :: 0 <= i < |capacities| ==> capacities[i] in LADDER && INIT <= capacities[i] <= MAX
    ensures forall i, j :: 0 <= i <= j < |capacities| ==> capacities[i] <= capacities[j] <= After(s, receipts).capacity
  {
    forall i, j | 0 <= i <= j < |capacities|
      ensures capacities[i] <= capacities[j] <= After(s, receipts).capacity && capacities[i] in LADDER
    {
      PairClimbs(s, receipts, i, j, capacities[i], capacities[j]);
    }
  }

  lemma PairClimbs(s: State, receipts: seq<Receipt>, i: nat, j: nat, a: nat, b: nat)
    requires OnRung(s, 0) && i <= j < |receipts| && CapacityAt(s, receipts, i, a) && CapacityAt(s, receipts, j, b)
    ensures a <= b <= After(s, receipts).capacity && a in LADDER
  {
    assert receipts[..j + 1][..i + 1] == receipts[..i + 1];
    var _ := RunClimbs(s, receipts[..j + 1], i + 1, 0);
    var _ := RunClimbs(s, receipts, j + 1, 0);
    var rung := RunClimbs(s, receipts[..i + 1], 0, 0);
  }

  class TcpTuning {
    var estimatedRtt: real
    var lastTime: real
    var accumBytes: nat
    var recentBusiness: nat

    constructor (rtt: real, now: real)
      ensures estimatedRtt == rtt && lastTime == now && accumBytes == 0 && recentBusiness == 0
    {
      estimatedRtt, lastTime, accumBytes, recentBusiness := rtt, now, 0, 0;
    }

    /** The window is over: either an estimated round trip passed or a whole buffer was received. */
    predicate WindowOver(bytes: nat, window: nat, now: real)
      reads this
    {
      now - lastTime >= estimatedRtt || accumBytes + bytes >= window
    }

    method IncreaseTcpRevBuf(bytes: nat, window: nat, now: real) returns (grow: Option<nat>)
      requires recentBusiness <= RECENCY_THRESHOLD + 2
      modifies this
      ensures recentBusiness <= RECENCY_THRESHOLD + 2
      ensures !old(WindowOver(bytes, window, now)) ==>
                grow.None? && accumBytes == old(accumBytes) + bytes < window && lastTime == old(lastTime)
                && estimatedRtt == old(estimatedRtt) && recentBusiness == old(recentBusiness)
      ensures old(WindowOver(bytes, window, now)) ==> accumBytes == 0 && lastTime == now
      // the estimate is only ever lowered, towards the time a whole buffer took
      ensures estimatedRtt <= old(estimatedRtt)
      ensures estimatedRtt < old(estimatedRtt) <==>
                now - old(lastTime) < old(estimatedRtt) && old(accumBytes) + bytes >= window
      ensures estimatedRtt < old(estimatedRtt) ==> now - old(lastTime) < estimatedRtt
      // when and by how much the buffer grows
      ensures grow.Some? <==>
                old(WindowOver(bytes, window, now)) &&
                var usage := old(accumBytes) + bytes;
                if window < MULTI_GROW_THRESHOLD then 3 * usage > window
                else window < MAX && usage + LINEAR_GROW_STEP > window && old(recentBusiness) > RECENCY_THRESHOLD
      ensures grow.Some? ==> grow.value == if window < MULTI_GROW_THRESHOLD then 2 * window else window + LINEAR_GROW_STEP
      ensures grow.Some? && window >= MULTI_GROW_THRESHOLD ==> recentBusiness == 0
      // the business count only ever rises by one, and only after a window that was half used
      ensures State(estimatedRtt, lastTime, accumBytes, recentBusiness, window)
           == Next(State(old(estimatedRtt), old(lastTime), old(accumBytes), old(recentBusiness), window), Receipt(bytes, now, false))
      ensures recentBusiness > old(recentBusiness) ==>
                recentBusiness == old(recentBusiness) + 1 && 2 * (old(accumBytes) + bytes) > window >= MULTI_GROW_THRESHOLD
    {
      var elapsed := now - lastTime;
      var usage := accumBytes + bytes;
      if elapsed < estimatedRtt && usage < window {
        accumBytes := accumBytes + bytes;
        return None;
      }
      accumBytes, lastTime := 0, now;
      if elapsed < estimatedRtt {
        estimatedRtt := estimatedRtt * 0.3 + elapsed * 0.7;
      }
      if window < MULTI_GROW_THRESHOLD {
        if 3 * usage > window {
          return Some(window * 2);
        }
      } else if window < MAX {
        if usage + LINEAR_GROW_STEP > window && recentBusiness > RECENCY_THRESHOLD {
          recentBusiness := 0;
          return Some(window + LINEAR_GROW_STEP);
        } else if usage * 2 > window {
          if recentBusiness < RECENCY_THRESHOLD + 2 {
            recentBusiness := recentBusiness + 1;
          }
        } else {
          recentBusiness := if recentBusiness < 3 then 0 else recentBusiness - 3;
        }
      }
      return None;
    }
  }

  /** The receiving half of a TCP task: its socket's capacity and the tuning that drives it.
      `level` is the rung of the ladder, `busy` counts the windows that used at least half of a
      buffer of 1 MiB or more. */
  class Receiver {
    const tuning: TcpTuning
    var capacity: nat
    ghost var level: nat
    ghost var busy: nat

    ghost predicate Valid()
      reads this, tuning
    {
      && level < |LADDER| && capacity == LADDER[level]
      && tuning.accumBytes < capacity
      && tuning.recentBusiness <= RECENCY_THRESHOLD + 2
      && tuning.recentBusiness + BusyNeeded(level) <= busy
    }

    constructor (now: real)
      ensures Valid() && fresh(tuning) && capacity == INIT && level == 0 && busy == 0
      ensures tuning.estimatedRtt == INITIAL_RTT
    {
      tuning := new TcpTuning(INITIAL_RTT, now);
      capacity, level, busy := INIT, 0, 0;
    }

    ghost function View(): State
      reads this, tuning
    {
      State(tuning.estimatedRtt, tuning.lastTime, tuning.accumBytes, tuning.recentBusiness, capacity)
    }

    /** The end of `try_recv`: ask for a larger buffer; the socket may refuse it. */
    method Received(r: Receipt) returns (grew: bool)
      requires Valid()
      modifies this, tuning
      ensures Valid() && tuning.estimatedRtt <= old(tuning.estimatedRtt)
      ensures level == old(level) + (if grew then 1 else 0) && old(capacity) <= capacity
      // it grows exactly when a window ends that was used well enough, and the socket allows it
      ensures grew <==> r.resizeOk && old(View()).WindowOver(r) && old(View()).UsedWell(r)
      ensures View() == Next(old(View()), r)
      ensures busy == old(busy) + if Next(old(View()), r).business > old(View()).business then 1 else 0
      ensures busy > old(busy) ==> 2 * (old(tuning.accumBytes) + r.bytes) > old(capacity) >= MULTI_GROW_THRESHOLD
    {
      ghost var usage, count := tuning.accumBytes + r.bytes, tuning.recentBusiness;
      var grow := tuning.IncreaseTcpRevBuf(r.bytes, capacity, r.now);
      if tuning.recentBusiness > count {
        busy := busy + 1;
      }
      grew := grow.Some? && r.resizeOk;
      if grew {
        capacity, level := grow.value, level + 1;
      }
    }

    /** Any run: the capacity climbs the ladder one rung at a time, at most six times, and each
        rung above 1 MiB costs seven busy windows. */
    method Run(receipts: seq<Receipt>) returns (capacities: seq<nat>, growths: nat)
      requires Valid() && level == 0
      modifies this, tuning
      ensures Valid() && growths == level <= 6
      ensures BusyNeeded(growths) <= busy == old(busy) + BusyWindows(old(View()), receipts)
      ensures growths > 3 ==> 7 * (growths - 3) <= old(busy) + BusyWindows(old(View()), receipts)
      ensures tuning.estimatedRtt <= old(tuning.estimatedRtt)
      // the capacities are those of the tuning rules, receipt by receipt
      ensures View() == After(old(View()), receipts)
      ensures |capacities| == |receipts| && forall i :: 0 <= i < |receipts| ==> CapacityAt(old(View()), receipts, i, capacities[i])
      ensures forall i :: 0 <= i < |capacities| ==> capacities[i] in LADDER && capacities[i] <= MAX
      ensures forall i, j :: 0 <= i <= j < |capacities| ==> INIT <= capacities[i] <= capacities[j] <= capacity
    {
      capacities, growths := ReceiveAll(receipts);
      OnTheLadder(old(View()), receipts, capacities);
    }

    method ReceiveAll(receipts: seq<Receipt>) returns (capacities: seq<nat>, growths: nat)
      requires Valid()
      modifies this, tuning
      ensures Valid() && level == old(level) + growths
      ensures tuning.estimatedRtt <= old(tuning.estimatedRtt)
      ensures View() == After(old(View()), receipts) && busy == old(busy) + BusyWindows(old(View()), receipts)
      ensures CapacitiesUpTo(old(View()), receipts, |receipts|, capacities)
    {
      capacities, growths := [], 0;
      ghost var s := View();
      for i := 0 to |receipts|
        invariant Valid() && level == old(level) + growths
        invariant tuning.estimatedRtt <= old(tuning.estimatedRtt)
        invariant Reached(s, receipts, i, View(), busy - old(busy))
        invariant CapacitiesUpTo(s, receipts, i, capacities)
      {
        ghost var before, windows := View(), busy - old(busy);
        var grew := Received(receipts[i]);
        growths := growths + if grew then 1 else 0;
        ReachNext(s, receipts, i, before, windows, View(), busy - old(busy), capacities);
        capacities := capacities + [capacity];
      }
      assert receipts[..|receipts|] == receipts;
    }
  }

  /** After the first `i` receipts. */
  ghost predicate Reached(s: State, receipts: seq<Receipt>, i: nat, now: State, windows: int)
    requires i <= |receipts|
  {
    now == After(s, receipts[..i]) && windows == BusyWindows(s, receipts[..i])
  }

  ghost predicate CapacitiesUpTo(s: State, receipts: seq<Receipt>, n: nat, capacities: seq<nat>)
    requires n <= |receipts|
  {
    |capacities| == n && forall i :: 0 <= i < n ==> CapacityAt(s, receipts, i, capacities[i])
  }

  lemma ReachNext(s: State, receipts: seq<Receipt>, i: nat, before: State, windows: int, after: State, windows': int, capacities: seq<nat>)
    requires i < |receipts| && Reached(s, receipts, i, before, windows) && CapacitiesUpTo(s, receipts, i, capacities)
    requires after == Next(before, receipts[i])
    requires windows' == windows + if after.business > before.business then 1 else 0
    ensures Reached(s, receipts, i + 1, after, windows')
    ensures CapacitiesUpTo(s, receipts, i + 1, capacities + [after.capacity])
  {
    AfterSnoc(s, receipts, i);
    assert CapacityAt(s, receipts, i, after.capacity);
  }

  /** The busy windows it takes to reach a rung. */
  function BusyNeeded(level: nat): nat {
    if level <= 3 then 0 else (level - 3) * (RECENCY_THRESHOLD + 1)
  }
}
