/**
  Time in the packet tracker.  The queue is in the order of the clock readings at which its filters were last
  sent, whatever the clock does; what follows for the times themselves depends on the clock.
 */
module PacketClock {
  import opened Bytes
  import opened PacketFilter
  import opened PacketTheorems
  import opened ServiceCycle
  import opened PacketLaws

  // ---------- The order of the queue ----------

  /** The filters were last sent at the readings `stamps`, one after the other, all before reading `ticks`. */
  ghost predicate Stamps(filters: seq<Filter>, stamps: seq<nat>, clock: Clock, ticks: nat)
  {
    && |stamps| == |filters|
    && (forall i :: 0 <= i < |filters| ==> filters[i].tSent == clock(stamps[i]) && stamps[i] < ticks)
    && (forall i, j :: 0 <= i < j < |stamps| ==> stamps[i] < stamps[j])
  }

  ghost predicate Stamped(s: State, clock: Clock)
  {
    exists stamps :: Stamps(s.filters, stamps, clock, s.ticks)
  }

  lemma ReadStamped(s: State, clock: Clock)
    requires Stamped(s, clock)
    ensures Stamped(s.(ticks := s.ticks + 1), clock)
  {
    var stamps :| Stamps(s.filters, stamps, clock, s.ticks);
    assert Stamps(s.filters, stamps, clock, s.ticks + 1);
  }

  lemma StepStamped(s: State, clock: Clock, maxRetries: Byte, now: Time)
    requires Stamped(s, clock) && s.filters != []
    ensures Stamped(TimeoutStep(s, clock, maxRetries, now), clock)
  {
    var r := TimeoutStep(s, clock, maxRetries, now);
    var stamps :| Stamps(s.filters, stamps, clock, s.ticks);
    var rest := if r.ticks > s.ticks then stamps[1..] + [s.ticks] else stamps[1..];
    assert Stamps(r.filters, rest, clock, r.ticks);
  }

  /** The state in which the timeout loop reads the clock for the last time. */
  ghost function BeforeLastReading(r: State): State
    requires r.ticks > 0
  {
    r.(ticks := r.ticks - 1)
  }

  /** The loop empties the queue or stops at the first filter it finds not expired. */
  lemma {:induction false} TimeoutStamped(s: State, clock: Clock, maxRetries: Byte)
    requires Stamped(s, clock)
    ensures var r := HandleTimeout(s, clock, maxRetries);
            && Stamped(r, clock)
            && (r.filters != [] ==>
                  r.ticks > 0 && Stamped(BeforeLastReading(r), clock) && !r.filters[0].Expired(clock(r.ticks - 1)))
    decreases Budget(s.filters, maxRetries)
  {
    hide Stamped, TimeoutStep;
    if s.filters != [] {
      var now := clock(s.ticks);
      var s' := s.(ticks := s.ticks + 1);
      ReadStamped(s, clock);
      if s.filters[0].Expired(now) {
        BudgetStep(s', clock, maxRetries, now);
        StepStamped(s', clock, maxRetries, now);
        TimeoutStamped(TimeoutStep(s', clock, maxRetries, now), clock, maxRetries);
      } else {
        assert BeforeLastReading(s') == s;
      }
    }
  }

  lemma ExtendsStamped(s: State, r: State, clock: Clock)
    requires Extends(s, r, clock) && Stamped(s, clock)
    ensures Stamped(r, clock)
  {
    var n := |s.filters|;
    var stamps :| Stamps(s.filters, stamps, clock, s.ticks);
    var more := stamps + seq(|r.filters| - n, k => s.ticks + k);
    forall i | 0 <= i < |r.filters| ensures r.filters[i].tSent == clock(more[i]) && more[i] < r.ticks {
      if i < n {
        assert SameCommand(s.filters[i], r.filters[i]);
      } else {
        assert IsNew(r.filters[i], clock(s.ticks + i - n), s.sent);
      }
    }
    assert Stamps(r.filters, more, clock, r.ticks);
  }

  /** What the sweep leaves is in the same order. */
  lemma {:induction false} SweepStamped(s: State, stamps: seq<nat>, clock: Clock, k: nat) returns (left: seq<nat>)
    requires k <= |s.filters| && Stamps(s.filters, stamps, clock, s.ticks)
    ensures Stamps(SweepUpTo(s, k).filters, left, clock, if k == 0 then 0 else stamps[k - 1] + 1)
    decreases k
  {
    left := [];
    if k > 0 {
      left := SweepStamped(s, stamps, clock, k - 1);
      if !Finished(s.filters[k - 1]) {
        left := left + [stamps[k - 1]];
      }
    }
  }

  lemma CycleStamped(s: State, clock: Clock, c: Cycle)
    requires Good(s) && Stamped(s, clock)
    ensures Stamped(RunCycle(s, clock, c), clock)
  {
    hide Good, HandleTimeout, BeforeSweep, SweepUpTo;
    if c.enabled {
      TimeoutStamped(s, clock, c.maxRetries);
      BeforeSweepGood(s, clock, c);
      var b := BeforeSweep(s, clock, c);
      ExtendsStamped(HandleTimeout(s, clock, c.maxRetries), b, clock);
      var stamps :| Stamps(b.filters, stamps, clock, b.ticks);
      var left := SweepStamped(b, stamps, clock, |b.filters|);
      SweepShape(b, |b.filters|);
      assert Stamps(HandleSuccessful(b).filters, left, clock, b.ticks);
    }
  }

  /** Over every run and for every clock the queue is in the order of the readings. */
  lemma {:induction false} RunsStamped(clock: Clock, cycles: seq<Cycle>)
    ensures CycleInvariant(Run(INIT, clock, cycles)) && Stamped(Run(INIT, clock, cycles), clock)
  {
    hide RunCycle, Good, AllWaiting, NeverAfterAnswer;
    InitInvariant();
    RunsKeep(INIT, clock, cycles);
    if cycles == [] {
      assert Stamps([], [], clock, 0);
    } else {
      var k := |cycles| - 1;
      RunsStamped(clock, cycles[..k]);
      CycleStamped(Run(INIT, clock, cycles[..k]), clock, cycles[k]);
    }
  }

  // ---------- The early stop of the timeout loop ----------

  ghost predicate Sorted(filters: seq<Filter>)
  {
    forall i, j :: 0 <= i < j < |filters| ==> filters[i].tSent <= filters[j].tSent
  }

  ghost predicate NoneExpiredAt(filters: seq<Filter>, now: Time)
  {
    forall i :: 0 <= i < |filters| ==> !filters[i].Expired(now)
  }

  /** Unless the clock has stepped back, the wrapped difference is the time that has passed. */
  lemma ExpiredIff(f: Filter, now: Time)
    ensures f.tSent <= now ==> (f.Expired(now) <==> now - f.tSent > PACKET_TIMEOUT)
    ensures now < f.tSent && f.tSent - now < TWO_64 - PACKET_TIMEOUT ==> f.Expired(now)
  {
  }

  /** In a queue sorted by times that have passed, the first filter speaks for all. */
  lemma FirstSpeaksForAll(filters: seq<Filter>, now: Time)
    requires Sorted(filters) && (forall i :: 0 <= i < |filters| ==> filters[i].tSent <= now)
    requires filters != [] && !filters[0].Expired(now)
    ensures NoneExpiredAt(filters, now)
  {
    forall i | 0 <= i < |filters| ensures !filters[i].Expired(now) {
      ExpiredIff(filters[0], now);
      ExpiredIff(filters[i], now);
    }
  }

  /** After the timeouts no filter anywhere in the queue had expired when the clock was last read. */
  ghost predicate MissesNone(s: State, clock: Clock, maxRetries: Byte)
  {
    var r := HandleTimeout(s, clock, maxRetries);
    r.filters == [] || (r.ticks > 0 && NoneExpiredAt(r.filters, clock(r.ticks - 1)))
  }

  predicate Recent(clock: Clock, i: nat, k: nat)
  {
    (clock(k) - clock(i)) % TWO_64 <= PACKET_TIMEOUT
  }

  /** Whenever a reading is recent, all those after it are. */
  ghost predicate Steady(clock: Clock)
  {
    forall i: nat, j: nat, k: nat {:trigger Recent(clock, i, k), Recent(clock, j, k)} ::
      i < j < k && Recent(clock, i, k) ==> Recent(clock, j, k)
  }

  lemma MonotoneIsSteady(clock: Clock)
    requires Monotone(clock)
    ensures Steady(clock)
  {
    forall i: nat, j: nat, k: nat {:trigger Recent(clock, i, k), Recent(clock, j, k)} |
      i < j < k && Recent(clock, i, k)
      ensures Recent(clock, j, k)
    {
      assert clock(i) <= clock(j) <= clock(k);
    }
  }

  lemma SteadyMissesNone(s: State, clock: Clock, maxRetries: Byte)
    requires Steady(clock) && Stamped(s, clock)
    ensures MissesNone(s, clock, maxRetries)
  {
    hide HandleTimeout, Recent;
    var r := HandleTimeout(s, clock, maxRetries);
    TimeoutStamped(s, clock, maxRetries);
    if r.filters != [] {
      var k := r.ticks - 1;
      var stamps :| Stamps(r.filters, stamps, clock, k);
      forall i | 0 <= i < |r.filters| ensures !r.filters[i].Expired(clock(k)) {
        ExpiredIsOld(r.filters[0], clock, stamps[0], k);
        ExpiredIsOld(r.filters[i], clock, stamps[i], k);
        assert i > 0 ==> stamps[0] < stamps[i];
      }
    }
  }

  lemma ExpiredIsOld(f: Filter, clock: Clock, i: nat, k: nat)
    requires f.tSent == clock(i)
    ensures f.Expired(clock(k)) <==> !Recent(clock, i, k)
  {
  }

  // ---------- A run that reads the clock when it likes ----------

  /** Commands so that those read at `i` and `j` wait for a response and the others, `n` in all, want none. */
  function Probe(i: nat, j: nat, n: nat): (r: seq<Command>)
    ensures |r| == n
    ensures forall k :: 0 <= k < n ==> r[k] == Command(1, if k == i || k == j then "r" else "", "p", DefaultPacket)
  {
    seq(n, k => Command(1, if k == i || k == j then "r" else "", "p", DefaultPacket))
  }

  lemma {:induction false} TwoRemain(s: State, i: nat, j: nat, n: nat)
    requires i < j < |s.filters| && n <= |s.filters|
    requires forall k :: 0 <= k < |s.filters| ==> Finished(s.filters[k]) == (k != i && k != j)
    ensures SweepUpTo(s, n).filters ==
            (if i < n then [s.filters[i]] else []) + (if j < n then [s.filters[j]] else [])
    decreases n
  {
    if n > 0 {
      TwoRemain(s, i, j, n - 1);
    }
  }

  lemma ProbeSent(clock: Clock, c: Cycle)
    requires c.packets == []
    ensures BeforeSweep(INIT, clock, c) == SendAll(INIT, clock, c.commands)
  {
    hide SendAll;
    assert HandleTimeout(INIT, clock, c.maxRetries).(packetsOut := []) == INIT;
  }

  /** Two commands, sent at readings `i` and `j`, and the next cycle's first reading is `k`. */
  lemma ProbeRun(clock: Clock, i: nat, j: nat, k: nat, maxRetries: Byte)
    requires i < j < k
    ensures var s := Run(INIT, clock, [Cycle(true, maxRetries, Probe(i, j, k), [])]);
            && s.ticks == k && |s.filters| == 2
            && s.filters[0].tSent == clock(i) && s.filters[1].tSent == clock(j)
  {
    hide SendAll, HandleTimeout, SweepUpTo;
    var c := Cycle(true, maxRetries, Probe(i, j, k), []);
    assert [c][..0] == [];
    var b := SendAll(INIT, clock, Probe(i, j, k));
    SentInOrder(INIT, clock, Probe(i, j, k));
    ProbeSent(clock, c);
    forall n | 0 <= n < k
      ensures Finished(b.filters[n]) == (n != i && n != j) && b.filters[n].tSent == clock(n)
    {
      assert b.filters[|INIT.filters| + n] == NewFilter(Probe(i, j, k)[n], n, clock(n));
    }
    TwoRemain(b, i, j, k);
    SweepShape(b, k);
    assert Run(INIT, clock, [c]) == RunCycle(INIT, clock, c) == HandleSuccessful(b);
  }

  /** If a reading is recent and a later one is not, a run shows it: the loop stops and leaves an expired filter. */
  lemma UnsteadyMisses(clock: Clock, i: nat, j: nat, k: nat, maxRetries: Byte)
    requires i < j < k && Recent(clock, i, k) && !Recent(clock, j, k)
    ensures var s := Run(INIT, clock, [Cycle(true, maxRetries, Probe(i, j, k), [])]);
            var r := HandleTimeout(s, clock, maxRetries);
            && |r.filters| == 2 && r.filters[1].Expired(clock(k)) && r.ticks == k + 1
            && !MissesNone(s, clock, maxRetries)
  {
    hide Run, Recent;
    ProbeRun(clock, i, j, k, maxRetries);
    var s := Run(INIT, clock, [Cycle(true, maxRetries, Probe(i, j, k), [])]);
    ExpiredIsOld(s.filters[0], clock, i, k);
    ExpiredIsOld(s.filters[1], clock, j, k);
    var r := HandleTimeout(s, clock, maxRetries);
    assert r == s.(ticks := k + 1);
    assert !NoneExpiredAt(r.filters, clock(k));
  }

  /**
    Exactly for which clocks stopping at the first filter that has not expired misses none, in every run: those
    for which no reading finds an earlier one recent and a later one old.
   */
  lemma EarlyStopIff(clock: Clock, maxRetries: Byte)
    ensures (forall cycles :: MissesNone(Run(INIT, clock, cycles), clock, maxRetries)) <==> Steady(clock)
  {
    hide Run, Recent, MissesNone, CycleInvariant;
    if Steady(clock) {
      forall cycles ensures MissesNone(Run(INIT, clock, cycles), clock, maxRetries) {
        RunsStamped(clock, cycles);
        SteadyMissesNone(Run(INIT, clock, cycles), clock, maxRetries);
      }
    } else {
      var i: nat, j: nat, k: nat :| i < j < k && Recent(clock, i, k) && !Recent(clock, j, k);
      UnsteadyMisses(clock, i, j, k, maxRetries);
    }
  }

  /** A clock that is set back by half a second between two commands. */
  function SetBack(n: nat): Time
  {
    if n == 0 then 1000 else if n == 1 then 500 else 1102
  }

  /** With it the loop stops at the first command, 102 ms old, and the second stays, 602 ms old. */
  lemma SetBackMissesOne(maxRetries: Byte)
    ensures var s := Run(INIT, SetBack, [Cycle(true, maxRetries, Probe(0, 1, 2), [])]);
            var r := HandleTimeout(s, SetBack, maxRetries);
            && |r.filters| == 2 && r.filters[0].tSent == 1000 && r.filters[1].tSent == 500 && !Sorted(r.filters)
            && r.ticks == 3 && r.filters[1].Expired(SetBack(2)) && !MissesNone(s, SetBack, maxRetries)
  {
    hide Run;
    ProbeRun(SetBack, 0, 1, 2, maxRetries);
    UnsteadyMisses(SetBack, 0, 1, 2, maxRetries);
  }

  // ---------- Clocks that do not step back ----------

  /** The queue is sorted by send times that have passed. */
  lemma StampedSorted(s: State, clock: Clock, now: nat)
    requires Monotone(clock) && Stamped(s, clock) && s.ticks <= now
    ensures Sorted(s.filters) && forall i :: 0 <= i < |s.filters| ==> s.filters[i].tSent <= clock(now)
  {
  }

  /** Exactly for the clocks that never step back the queue is sorted by send time in every run. */
  lemma SortedIff(clock: Clock)
    ensures (forall cycles :: Sorted(Run(INIT, clock, cycles).filters)) <==> Monotone(clock)
  {
    hide Run, CycleInvariant;
    if Monotone(clock) {
      forall cycles ensures Sorted(Run(INIT, clock, cycles).filters) {
        RunsStamped(clock, cycles);
        StampedSorted(Run(INIT, clock, cycles), clock, Run(INIT, clock, cycles).ticks);
      }
    } else {
      var i: nat, j: nat :| i < j && clock(i) > clock(j);
      ProbeRun(clock, i, j, j + 1, 0);
      assert !Sorted(Run(INIT, clock, [Cycle(true, 0, Probe(i, j, j + 1), [])]).filters);
    }
  }

  /** Each resend came no sooner than one timeout after the one before. */
  ghost predicate FilterTimed(f: Filter)
  {
    f.tSent >= f.tFirst + f.retries * (PACKET_TIMEOUT + 1)
  }

  ghost predicate EventTimed(e: Event)
  {
    && (e.Dropped? ==> e.time >= e.filter.tFirst + (e.filter.retries + 1) * (PACKET_TIMEOUT + 1))
    && (e.Resent? ==> e.time >= e.filter.tSent + PACKET_TIMEOUT + 1)
  }

  ghost predicate Timed(s: State)
  {
    && (forall i :: 0 <= i < |s.filters| ==> FilterTimed(s.filters[i]))
    && (forall i :: 0 <= i < |s.log| ==> EventTimed(s.log[i]))
  }

  lemma StepTimed(s: State, clock: Clock, maxRetries: Byte, now: Time)
    requires Timed(s) && s.filters != [] && s.filters[0].Expired(now) && s.filters[0].tSent <= now <= clock(s.ticks)
    ensures Timed(TimeoutStep(s, clock, maxRetries, now))
  {
    var f := s.filters[0];
    ExpiredIff(f, now);
    assert (f.retries + 1) * (PACKET_TIMEOUT + 1) == f.retries * (PACKET_TIMEOUT + 1) + PACKET_TIMEOUT + 1;
  }

  lemma {:induction false} TimeoutTimed(s: State, clock: Clock, maxRetries: Byte)
    requires Monotone(clock) && Timed(s) && Stamped(s, clock)
    ensures Timed(HandleTimeout(s, clock, maxRetries))
    decreases Budget(s.filters, maxRetries)
  {
    hide Timed, Stamped, TimeoutStep;
    if s.filters != [] {
      var now := clock(s.ticks);
      var s' := s.(ticks := s.ticks + 1);
      StampedSorted(s, clock, s.ticks);
      ReadStamped(s, clock);
      if s.filters[0].Expired(now) {
        assert clock(s.ticks) <= clock(s'.ticks);
        BudgetStep(s', clock, maxRetries, now);
        StepStamped(s', clock, maxRetries, now);
        assert Timed(s') by { ReadTimed(s); }
        StepTimed(s', clock, maxRetries, now);
        TimeoutTimed(TimeoutStep(s', clock, maxRetries, now), clock, maxRetries);
      } else {
        ReadTimed(s);
      }
    }
  }

  lemma ReadTimed(s: State)
    requires Timed(s)
    ensures Timed(s.(ticks := s.ticks + 1))
  {
  }

  lemma ExtendsTimed(s: State, r: State, clock: Clock)
    requires Extends(s, r, clock) && Timed(s)
    ensures Timed(r)
  {
    forall i | 0 <= i < |r.filters| ensures FilterTimed(r.filters[i]) {
      if i < |s.filters| {
        assert SameCommand(s.filters[i], r.filters[i]);
      } else {
        assert IsNew(r.filters[i], clock(s.ticks + i - |s.filters|), s.sent);
      }
    }
  }

  lemma {:induction false} SweepTimed(s: State, k: nat)
    requires k <= |s.filters| && Timed(s)
    ensures Timed(SweepUpTo(s, k))
    decreases k
  {
    hide FilterTimed;
    if k > 0 {
      SweepTimed(s, k - 1);
    }
  }

  lemma {:induction false} RunsTimed(clock: Clock, cycles: seq<Cycle>)
    requires Monotone(clock)
    ensures Timed(Run(INIT, clock, cycles)) && Sorted(Run(INIT, clock, cycles).filters)
  {
    hide Good, HandleTimeout, BeforeSweep, Timed, Stamped, SweepUpTo;
    RunsStamped(clock, cycles);
    StampedSorted(Run(INIT, clock, cycles), clock, Run(INIT, clock, cycles).ticks);
    if cycles == [] {
      assert Timed(INIT) by { InitTimed(); }
    } else {
      var k := |cycles| - 1;
      var before, c := Run(INIT, clock, cycles[..k]), cycles[k];
      RunsTimed(clock, cycles[..k]);
      RunsStamped(clock, cycles[..k]);
      if c.enabled {
        TimeoutTimed(before, clock, c.maxRetries);
        BeforeSweepGood(before, clock, c);
        ExtendsTimed(HandleTimeout(before, clock, c.maxRetries), BeforeSweep(before, clock, c), clock);
        SweepTimed(BeforeSweep(before, clock, c), |BeforeSweep(before, clock, c).filters|);
      }
    }
  }

  lemma InitTimed()
    ensures Timed(INIT)
  {
  }

  /**
    With `max_retries` fixed and a clock that does not step back: a command that is dropped was first sent at
    least (max_retries + 1) * 602 ms earlier.
   */
  lemma DropDistance(clock: Clock, cycles: seq<Cycle>, maxRetries: Byte)
    requires Monotone(clock)
    requires forall i :: 0 <= i < |cycles| ==> cycles[i].maxRetries == maxRetries
    ensures var r := Run(INIT, clock, cycles);
            forall i :: 0 <= i < |r.log| && r.log[i].Dropped? ==>
              r.log[i].time >= r.log[i].filter.tFirst + (maxRetries + 1) * 602
  {
    InitInvariant();
    RunsWithin(INIT, clock, cycles, maxRetries);
    RunsTimed(clock, cycles);
    var r := Run(INIT, clock, cycles);
    forall i | 0 <= i < |r.log| && r.log[i].Dropped?
      ensures r.log[i].time >= r.log[i].filter.tFirst + (maxRetries + 1) * 602
    {
      assert EventTimed(r.log[i]);
    }
  }
}
