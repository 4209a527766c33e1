/**
  The order in which the service loop calls the packet tracker, and what that order guarantees over
  whole runs: an answered unicast command is counted as successful in the cycle that brought the
  answer, and is never resent or dropped.
 */
module ServiceCycle {
  import opened Bytes
  import opened PacketFilter
  import opened PacketTheorems

  datatype Command = Command(address: Byte, expectedResponse: string, packet: string, kind: PacketType)

  /** An accepted packet: what it parsed to, its text, and the responses it announces. */
  datatype Incoming = Incoming(response: Option<Response>, raw: string, additional: seq<string>)

  /** One call of the service loop, with the configuration in force and what arrived. */
  datatype Cycle = Cycle(enabled: bool, maxRetries: Byte, commands: seq<Command>, packets: seq<Incoming>)

  function SendAll(s: State, clock: Clock, commands: seq<Command>): State
    decreases |commands|
  {
    if commands == [] then s
    else
      var c := commands[0];
      SendAll(AddPacket(s, clock, c.address, c.expectedResponse, c.packet, c.kind), clock, commands[1..])
  }

  function ExpectAll(s: State, clock: Clock, address: Byte, packets: seq<string>, kind: PacketType): State
    decreases |packets|
  {
    if packets == [] then s
    else ExpectAll(AddPacket(s, clock, address, packets[0], "", kind), clock, address, packets[1..], kind)
  }

  function Receive(s: State, clock: Clock, p: Incoming): State
  {
    var (r, kind) := MatchResponse(s, p.response, p.raw);
    match p.response
    case None => r
    case Some(response) => ExpectAll(r, clock, response.address, p.additional, kind)
  }

  function ReceiveAll(s: State, clock: Clock, packets: seq<Incoming>): State
    decreases |packets|
  {
    if packets == [] then s else ReceiveAll(Receive(s, clock, packets[0]), clock, packets[1..])
  }

  /** Up to the point where all arrived packets have been processed. */
  function BeforeSweep(s: State, clock: Clock, c: Cycle): State
  {
    var written := HandleTimeout(s, clock, c.maxRetries).(packetsOut := []);
    ReceiveAll(SendAll(written, clock, c.commands), clock, c.packets)
  }

  function RunCycle(s: State, clock: Clock, c: Cycle): State
  {
    if c.enabled then HandleSuccessful(BeforeSweep(s, clock, c)) else s
  }

  function Run(s: State, clock: Clock, cycles: seq<Cycle>): State
  {
    if cycles == [] then s
    else RunCycle(Run(s, clock, cycles[..|cycles| - 1]), clock, cycles[|cycles| - 1])
  }

  // ---------- Between the timeouts and the sweep ----------

  /** The same command, with perhaps more responses credited. */
  ghost predicate SameCommand(f: Filter, g: Filter)
  {
    && g == f.(matchedResponses := g.matchedResponses, matchedAddresses := g.matchedAddresses)
    && f.matchedResponses <= g.matchedResponses && f.matchedAddresses <= g.matchedAddresses
  }

  /** Sending and receiving only append new commands, one for each reading of the clock, and credit responses. */
  ghost predicate Extends(s: State, r: State, clock: Clock)
  {
    && r.log == s.log && r.sent >= s.sent && |r.filters| >= |s.filters|
    && r.ticks - s.ticks == |r.filters| - |s.filters|
    && (forall i :: 0 <= i < |s.filters| ==> SameCommand(s.filters[i], r.filters[i]))
    && (forall i :: |s.filters| <= i < |r.filters| ==> IsNew(r.filters[i], clock(s.ticks + i - |s.filters|), s.sent))
  }

  /** A command first sent at `now`. */
  ghost predicate IsNew(f: Filter, now: Time, sent: nat)
  {
    f.retries == 0 && f.id >= sent && f.tSent == f.tFirst == now
  }

  lemma ExtendsTransitive(s: State, r: State, t: State, clock: Clock)
    requires Extends(s, r, clock) && Extends(r, t, clock)
    ensures Extends(s, t, clock)
  {
  }

  lemma {:induction false} SendAllGood(s: State, clock: Clock, commands: seq<Command>)
    requires Good(s)
    ensures Good(SendAll(s, clock, commands)) && Extends(s, SendAll(s, clock, commands), clock)
    decreases |commands|
  {
    hide Good;
    if commands != [] {
      var c := commands[0];
      AddKeepsGood(s, clock, c.address, c.expectedResponse, c.packet, c.kind);
      var r := AddPacket(s, clock, c.address, c.expectedResponse, c.packet, c.kind);
      SendAllGood(r, clock, commands[1..]);
      ExtendsTransitive(s, r, SendAll(s, clock, commands), clock);
    }
  }

  lemma {:induction false} ExpectAllGood(s: State, clock: Clock, address: Byte, packets: seq<string>, kind: PacketType)
    requires Good(s)
    ensures var r := ExpectAll(s, clock, address, packets, kind); Good(r) && Extends(s, r, clock)
    decreases |packets|
  {
    hide Good;
    if packets != [] {
      AddKeepsGood(s, clock, address, packets[0], "", kind);
      var r := AddPacket(s, clock, address, packets[0], "", kind);
      ExpectAllGood(r, clock, address, packets[1..], kind);
      ExtendsTransitive(s, r, ExpectAll(s, clock, address, packets, kind), clock);
    }
  }

  lemma {:induction false} ReceiveAllGood(s: State, clock: Clock, packets: seq<Incoming>)
    requires Good(s)
    ensures var r := ReceiveAll(s, clock, packets); Good(r) && Extends(s, r, clock)
    decreases |packets|
  {
    hide Good;
    if packets != [] {
      var p := packets[0];
      MatchKeepsGood(s, p.response, p.raw);
      var (m, kind) := MatchResponse(s, p.response, p.raw);
      assert Extends(s, m, clock);
      if p.response.Some? {
        ExpectAllGood(m, clock, p.response.value.address, p.additional, kind);
        ExtendsTransitive(s, m, Receive(s, clock, p), clock);
      }
      ReceiveAllGood(Receive(s, clock, p), clock, packets[1..]);
      ExtendsTransitive(s, Receive(s, clock, p), ReceiveAll(s, clock, packets), clock);
    }
  }

  lemma DrainGood(s: State)
    requires Good(s)
    ensures Good(s.(packetsOut := []))
  {
    var r := s.(packetsOut := []);
    forall id ensures Accounted(r, id) {
      assert Accounted(s, id);
    }
  }

  lemma BeforeSweepGood(s: State, clock: Clock, c: Cycle)
    requires Good(s)
    ensures Good(BeforeSweep(s, clock, c))
    ensures Good(HandleTimeout(s, clock, c.maxRetries))
    ensures Extends(HandleTimeout(s, clock, c.maxRetries), BeforeSweep(s, clock, c), clock)
  {
    hide Good, HandleTimeout;
    TimeoutKeepsGood(s, clock, c.maxRetries);
    var timedOut := HandleTimeout(s, clock, c.maxRetries);
    var written := timedOut.(packetsOut := []);
    DrainGood(timedOut);
    SendAllGood(written, clock, c.commands);
    ReceiveAllGood(SendAll(written, clock, c.commands), clock, c.packets);
    ExtendsTransitive(written, SendAll(written, clock, c.commands), BeforeSweep(s, clock, c), clock);
  }

  // ---------- What holds whenever a cycle starts ----------

  /** Whenever the timeouts are handled, every pending filter waits for a response it has not got. */
  ghost predicate AllWaiting(filters: seq<Filter>)
  {
    forall i :: 0 <= i < |filters| ==> filters[i].ExpectsResponse() && !filters[i].Answered()
  }

  /** No command was ever resent or dropped that wants no response, or is unicast and has one. */
  ghost predicate NeverAfterAnswer(log: seq<Event>)
  {
    forall i :: 0 <= i < |log| && (log[i].Resent? || log[i].Dropped?) ==>
      log[i].filter.ExpectsResponse() && (!log[i].filter.IsBroadcast() ==> log[i].filter.matchedResponses == [])
  }

  /** A sound unicast filter has at most one response, so the byte count cannot wrap for it. */
  lemma UnicastResponses(f: Filter)
    requires FilterOK(f) && !f.IsBroadcast()
    ensures |f.matchedResponses| <= 1 && (f.Answered() <==> f.matchedResponses != [])
  {
    assert f.matchedAddresses == if f.address in f.matchedAddresses then {f.address} else {};
  }

  /**
    A sound broadcast filter has at most one response from each of the 256 addresses; the byte count reads
    0 only for none of them or for all.
   */
  lemma BroadcastResponses(f: Filter)
    requires FilterOK(f)
    ensures |f.matchedResponses| <= 256
    ensures f.NumResponses() == 0 <==> f.matchedResponses == [] || |f.matchedResponses| == 256
  {
    SetBelow(f.matchedAddresses, 256);
  }

  /** What a timeout counts as success: a broadcast with some responses, but not with all 256 of them. */
  lemma BroadcastSucceedsIff(s: State, clock: Clock, maxRetries: Byte, now: Time)
    requires s.filters != [] && FilterOK(s.filters[0]) && s.filters[0].IsBroadcast()
    ensures var r := TimeoutStep(s, clock, maxRetries, now);
            r.successful == s.successful + 1 <==> 1 <= |s.filters[0].matchedResponses| <= 255
    ensures var r := TimeoutStep(s, clock, maxRetries, now);
            |s.filters[0].matchedResponses| == 256 ==>
              r.successful == s.successful && (r.log[|s.log|].Resent? || r.log[|s.log|].Dropped?
                                               || s.filters[0].packetString == "")
  {
    BroadcastResponses(s.filters[0]);
  }

  lemma TimeoutStepWaiting(s: State, clock: Clock, maxRetries: Byte, now: Time)
    requires s.filters != [] && FilterOK(s.filters[0]) && AllWaiting(s.filters) && NeverAfterAnswer(s.log)
    ensures var r := TimeoutStep(s, clock, maxRetries, now); AllWaiting(r.filters) && NeverAfterAnswer(r.log)
  {
    if !s.filters[0].IsBroadcast() {
      UnicastResponses(s.filters[0]);
    }
  }

  lemma {:induction false} TimeoutOnlyWaiting(s: State, clock: Clock, maxRetries: Byte)
    requires Good(s) && AllWaiting(s.filters) && NeverAfterAnswer(s.log)
    ensures NeverAfterAnswer(HandleTimeout(s, clock, maxRetries).log)
    decreases Budget(s.filters, maxRetries)
  {
    hide Good, FilterOK, TimeoutStep, AllWaiting, NeverAfterAnswer;
    if s.filters != [] {
      var now := clock(s.ticks);
      var s' := s.(ticks := s.ticks + 1);
      ReadKeepsGood(s);
      if s.filters[0].Expired(now) {
        BudgetStep(s', clock, maxRetries, now);
        TimeoutStepKeepsGood(s', clock, maxRetries, now);
        GoodFilters(s');
        TimeoutStepWaiting(s', clock, maxRetries, now);
        TimeoutOnlyWaiting(TimeoutStep(s', clock, maxRetries, now), clock, maxRetries);
      }
    }
  }

  lemma GoodFilters(s: State)
    requires Good(s)
    ensures forall i :: 0 <= i < |s.filters| ==> FilterOK(s.filters[i])
  {
  }

  lemma {:induction false} SweepLog(s: State, k: nat)
    requires k <= |s.filters| && NeverAfterAnswer(s.log)
    ensures NeverAfterAnswer(SweepUpTo(s, k).log)
    decreases k
  {
    if k > 0 {
      SweepLog(s, k - 1);
    }
  }

  /** What every run of the service loop keeps from one cycle to the next. */
  ghost predicate CycleInvariant(s: State)
  {
    Good(s) && AllWaiting(s.filters) && NeverAfterAnswer(s.log)
  }

  lemma CycleKeeps(s: State, clock: Clock, c: Cycle)
    requires CycleInvariant(s)
    ensures CycleInvariant(RunCycle(s, clock, c))
  {
    hide Good, HandleTimeout, BeforeSweep;
    if c.enabled {
      TimeoutOnlyWaiting(s, clock, c.maxRetries);
      BeforeSweepGood(s, clock, c);
      var b := BeforeSweep(s, clock, c);
      SuccessKeepsGood(b);
      SweepLog(b, |b.filters|);
    }
  }

  lemma InitInvariant()
    ensures CycleInvariant(INIT)
  {
    forall id ensures Accounted(INIT, id) {
    }
  }

  /**
    Over every run of the service loop, whatever the clock does: every command is accounted for exactly once,
    and nothing was resent or dropped after its answer.
   */
  lemma {:induction false} RunsKeep(s: State, clock: Clock, cycles: seq<Cycle>)
    requires CycleInvariant(s)
    ensures CycleInvariant(Run(s, clock, cycles))
  {
    hide CycleInvariant, RunCycle;
    if cycles != [] {
      RunsKeep(s, clock, cycles[..|cycles| - 1]);
      CycleKeeps(Run(s, clock, cycles[..|cycles| - 1]), clock, cycles[|cycles| - 1]);
    }
  }

  // ---------- The number of retries ----------

  lemma TimeoutStepWithin(s: State, clock: Clock, maxRetries: Byte, now: Time)
    requires Good(s) && s.filters != [] && WithinRetries(s, maxRetries)
    ensures WithinRetries(TimeoutStep(s, clock, maxRetries, now), maxRetries)
  {
    hide Accounted, FilterOK, EventOK;
    var r := TimeoutStep(s, clock, maxRetries, now);
    var e := r.log[|s.log|];
    forall id ensures Resends(r.log, id) <= maxRetries {
      LogOne(s.log, e, id);
    }
  }

  lemma {:induction false} TimeoutWithin(s: State, clock: Clock, maxRetries: Byte)
    requires Good(s) && WithinRetries(s, maxRetries)
    ensures WithinRetries(HandleTimeout(s, clock, maxRetries), maxRetries)
    decreases Budget(s.filters, maxRetries)
  {
    hide Good, TimeoutStep;
    if s.filters != [] {
      var now := clock(s.ticks);
      var s' := s.(ticks := s.ticks + 1);
      ReadKeepsGood(s);
      if s.filters[0].Expired(now) {
        BudgetStep(s', clock, maxRetries, now);
        TimeoutStepKeepsGood(s', clock, maxRetries, now);
        TimeoutStepWithin(s', clock, maxRetries, now);
        TimeoutWithin(TimeoutStep(s', clock, maxRetries, now), clock, maxRetries);
      }
    }
  }

  lemma ExtendsWithin(s: State, r: State, clock: Clock, maxRetries: Byte)
    requires Extends(s, r, clock) && WithinRetries(s, maxRetries)
    ensures WithinRetries(r, maxRetries)
  {
    forall i | 0 <= i < |r.filters| ensures r.filters[i].retries <= maxRetries {
      if i < |s.filters| {
        assert SameCommand(s.filters[i], r.filters[i]);
      }
    }
  }

  lemma {:induction false} SweepWithin(s: State, maxRetries: Byte, k: nat)
    requires k <= |s.filters| && WithinRetries(s, maxRetries)
    ensures WithinRetries(SweepUpTo(s, k), maxRetries)
    decreases k
  {
    if k > 0 {
      SweepWithin(s, maxRetries, k - 1);
      var r := SweepUpTo(s, k - 1);
      forall id ensures Resends(r.log + [Succeeded(s.filters[k - 1])], id) == Resends(r.log, id) {
        LogOne(r.log, Succeeded(s.filters[k - 1]), id);
      }
    }
  }

  lemma {:induction false} RunsWithin(s: State, clock: Clock, cycles: seq<Cycle>, maxRetries: Byte)
    requires CycleInvariant(s) && WithinRetries(s, maxRetries)
    requires forall i :: 0 <= i < |cycles| ==> cycles[i].maxRetries == maxRetries
    ensures WithinRetries(Run(s, clock, cycles), maxRetries)
  {
    hide Good, HandleTimeout, BeforeSweep, WithinRetries;
    if cycles != [] {
      var k := |cycles| - 1;
      var before := Run(s, clock, cycles[..k]);
      RunsWithin(s, clock, cycles[..k], maxRetries);
      RunsKeep(s, clock, cycles[..k]);
      if cycles[k].enabled {
        TimeoutWithin(before, clock, maxRetries);
        BeforeSweepGood(before, clock, cycles[k]);
        ExtendsWithin(HandleTimeout(before, clock, maxRetries), BeforeSweep(before, clock, cycles[k]), clock,
                      maxRetries);
        SweepWithin(BeforeSweep(before, clock, cycles[k]), maxRetries, |BeforeSweep(before, clock, cycles[k]).filters|);
      }
    }
  }

  /** With `max_retries` fixed, over every run and for every clock: no command is resent more often than that. */
  lemma ResendBound(clock: Clock, cycles: seq<Cycle>, maxRetries: Byte, id: nat)
    requires forall i :: 0 <= i < |cycles| ==> cycles[i].maxRetries == maxRetries
    ensures Resends(Run(INIT, clock, cycles).log, id) <= maxRetries
  {
    InitInvariant();
    RunsWithin(INIT, clock, cycles, maxRetries);
  }

  // ---------- Once answered, done ----------

  /** The command was sent and is no longer in the queue. */
  ghost predicate Gone(s: State, id: nat)
  {
    id < s.sent && Pending(s.filters, id) == 0
  }

  /** Nothing more happened to the command. */
  ghost predicate Quiet(s: State, r: State, id: nat)
  {
    Gone(r, id) && Resends(r.log, id) == Resends(s.log, id) && Ended(r.log, id) == Ended(s.log, id)
  }

  lemma TimeoutStepQuiet(s: State, clock: Clock, maxRetries: Byte, now: Time, id: nat)
    requires s.filters != [] && Gone(s, id)
    ensures Quiet(s, TimeoutStep(s, clock, maxRetries, now), id)
  {
    hide Pending, Resends, Ended;
    var r := TimeoutStep(s, clock, maxRetries, now);
    assert s.filters == [s.filters[0]] + s.filters[1..];
    PendingSplit([s.filters[0]], s.filters[1..], id);
    PendingOne(s.filters[0], id);
    if |r.filters| == |s.filters| {
      PendingSplit(s.filters[1..], [r.filters[|r.filters| - 1]], id);
      PendingOne(r.filters[|r.filters| - 1], id);
    }
    LogOne(s.log, r.log[|s.log|], id);
  }

  lemma {:induction false} TimeoutQuiet(s: State, clock: Clock, maxRetries: Byte, id: nat)
    requires Gone(s, id)
    ensures Quiet(s, HandleTimeout(s, clock, maxRetries), id)
    decreases Budget(s.filters, maxRetries)
  {
    if s.filters != [] && s.filters[0].Expired(clock(s.ticks)) {
      var now := clock(s.ticks);
      var s' := s.(ticks := s.ticks + 1);
      BudgetStep(s', clock, maxRetries, now);
      TimeoutStepQuiet(s', clock, maxRetries, now, id);
      TimeoutQuiet(TimeoutStep(s', clock, maxRetries, now), clock, maxRetries, id);
    }
  }

  lemma {:induction false} PendingSame(a: seq<Filter>, b: seq<Filter>, id: nat)
    requires |a| <= |b| && Pending(a, id) == 0
    requires forall i :: 0 <= i < |a| ==> b[i].id == a[i].id
    requires forall i :: |a| <= i < |b| ==> b[i].id != id
    ensures Pending(b, id) == 0
    decreases |b|
  {
    if b != [] {
      var k := |b| - 1;
      if |a| == |b| {
        PendingSame(a[..k], b[..k], id);
      } else {
        PendingSame(a, b[..k], id);
      }
    }
  }

  lemma ExtendsQuiet(s: State, r: State, clock: Clock, id: nat)
    requires Extends(s, r, clock) && Gone(s, id)
    ensures Quiet(s, r, id)
  {
    forall i | 0 <= i < |s.filters| ensures r.filters[i].id == s.filters[i].id {
      assert SameCommand(s.filters[i], r.filters[i]);
    }
    PendingSame(s.filters, r.filters, id);
  }

  lemma {:induction false} SweepQuiet(s: State, id: nat, k: nat)
    requires k <= |s.filters| && id < s.sent && Pending(s.filters[..k], id) == 0
    ensures Quiet(s, SweepUpTo(s, k), id)
    decreases k
  {
    if k > 0 {
      assert s.filters[..k][..k - 1] == s.filters[..k - 1];
      SweepQuiet(s, id, k - 1);
      var r, f := SweepUpTo(s, k - 1), s.filters[k - 1];
      LogOne(r.log, Succeeded(f), id);
      PendingSplit(r.filters, [f], id);
      PendingOne(f, id);
    }
  }

  lemma {:induction false} RunsQuiet(s: State, clock: Clock, cycles: seq<Cycle>, id: nat)
    requires CycleInvariant(s) && Gone(s, id)
    ensures Quiet(s, Run(s, clock, cycles), id)
  {
    hide Good, HandleTimeout, BeforeSweep, Extends;
    if cycles != [] {
      var k := |cycles| - 1;
      var before, c := Run(s, clock, cycles[..k]), cycles[k];
      RunsQuiet(s, clock, cycles[..k], id);
      RunsKeep(s, clock, cycles[..k]);
      if c.enabled {
        var t, b := HandleTimeout(before, clock, c.maxRetries), BeforeSweep(before, clock, c);
        TimeoutQuiet(before, clock, c.maxRetries, id);
        BeforeSweepGood(before, clock, c);
        ExtendsQuiet(t, b, clock, id);
        assert b.filters[..|b.filters|] == b.filters;
        SweepQuiet(b, id, |b.filters|);
      }
    }
  }

  lemma {:induction false} SweepSucceeds(s: State, i: nat, k: nat)
    requires i < k <= |s.filters| && Finished(s.filters[i])
    ensures Succeeded(s.filters[i]) in SweepUpTo(s, k).log
    decreases k
  {
    if i < k - 1 {
      SweepSucceeds(s, i, k - 1);
    }
  }

  /** After the sweep, the queue holds only filters that were there and are not finished. */
  lemma {:induction false} SweepPending(s: State, id: nat, k: nat)
    requires k <= |s.filters|
    requires forall j :: 0 <= j < |s.filters| && s.filters[j].id == id ==> Finished(s.filters[j])
    ensures Pending(SweepUpTo(s, k).filters, id) == 0
    decreases k
  {
    if k > 0 {
      SweepPending(s, id, k - 1);
      PendingSplit(SweepUpTo(s, k - 1).filters, [s.filters[k - 1]], id);
      PendingOne(s.filters[k - 1], id);
    }
  }

  /**
    A unicast command answered during a cycle is counted as successful by the end of that cycle; from
    then on, whatever further cycles bring, it has ended exactly once and is never sent again.
   */
  lemma AnsweredIsDone(s: State, clock: Clock, c: Cycle, i: nat, later: seq<Cycle>)
    requires CycleInvariant(s) && c.enabled
    requires i < |BeforeSweep(s, clock, c).filters| && BeforeSweep(s, clock, c).filters[i].Answered()
    ensures var f := BeforeSweep(s, clock, c).filters[i];
            var r := RunCycle(s, clock, c);
            && Succeeded(f) in r.log && Ended(r.log, f.id) == 1
            && Quiet(r, Run(r, clock, later), f.id)
  {
    hide Good, HandleTimeout, BeforeSweep;
    var b := BeforeSweep(s, clock, c);
    var f, r := b.filters[i], RunCycle(s, clock, c);
    BeforeSweepGood(s, clock, c);
    CycleKeeps(s, clock, c);
    SweepSucceeds(b, i, |b.filters|);
    forall j | 0 <= j < |b.filters| && b.filters[j].id == f.id ensures Finished(b.filters[j]) {
      if j < i {
        DistinctIds(b, j, i);
      } else if i < j {
        DistinctIds(b, i, j);
      }
    }
    SweepPending(b, f.id, |b.filters|);
    Known(b, i);
    SweepShape(b, |b.filters|);
    GoodAccounted(r, f.id);
    RunsQuiet(r, clock, later, f.id);
  }

  lemma GoodAccounted(s: State, id: nat)
    requires Good(s)
    ensures Accounted(s, id)
  {
  }

  // ---------- A broadcast that everybody answers ----------

  const ASK_ALL := Command(BROADCAST, "r", "p", DefaultPacket)

  function Answer(a: Byte): Incoming
  {
    Incoming(Some(Response(a, "r", false)), "r", [])
  }

  /** One answer from every address from `a` on. */
  function AnswersFrom(a: nat): seq<Incoming>
    requires a <= 256
    decreases 256 - a
  {
    if a == 256 then [] else [Answer(a)] + AnswersFrom(a + 1)
  }

  /** A lone broadcast that has had one response from each address below `a`. */
  ghost predicate AnsweredBelow(s: State, a: nat)
  {
    && |s.filters| == 1 && s.filters[0].IsBroadcast() && s.filters[0].responseFilter == "r"
    && s.filters[0].retries == 0 && s.filters[0].packetString == "p"
    && |s.filters[0].matchedResponses| == a
    && forall b: Byte :: b in s.filters[0].matchedAddresses <==> b < a
  }

  lemma AnswerCredited(s: State, clock: Clock, a: Byte)
    requires AnsweredBelow(s, a)
    ensures AnsweredBelow(Receive(s, clock, Answer(a)), a + 1)
    ensures Receive(s, clock, Answer(a)) == s.(filters := Receive(s, clock, Answer(a)).filters)
  {
    assert "r"[0..] == "r";
    assert s.filters[0].Matches(a, "r");
  }

  lemma {:induction false} AllCredited(s: State, clock: Clock, a: nat)
    requires a <= 256 && AnsweredBelow(s, a)
    ensures AnsweredBelow(ReceiveAll(s, clock, AnswersFrom(a)), 256)
    ensures ReceiveAll(s, clock, AnswersFrom(a)) == s.(filters := ReceiveAll(s, clock, AnswersFrom(a)).filters)
    decreases 256 - a
  {
    hide AnsweredBelow, Receive;
    if a < 256 {
      AnswerCredited(s, clock, a);
      assert AnswersFrom(a)[1..] == AnswersFrom(a + 1);
      AllCredited(Receive(s, clock, Answer(a)), clock, a + 1);
    }
  }

  /**
    A broadcast answered by all 256 addresses in the cycle that sent it: the byte count reads 0, and the next
    timeout, whenever it comes, resends it as if nobody had answered.
   */
  lemma FullBroadcast(clock: Clock, maxRetries: Byte, now: Time)
    requires maxRetries > 0
    ensures var s := Run(INIT, clock, [Cycle(true, maxRetries, [ASK_ALL], AnswersFrom(0))]);
            && |s.filters| == 1 && |s.filters[0].matchedResponses| == 256 && s.filters[0].NumResponses() == 0
            && var r := TimeoutStep(s, clock, maxRetries, now);
               r.packetsOut == ["p"] && r.retried == 1 && r.successful == 0
  {
    hide AnsweredBelow, AnswersFrom;
    var c := Cycle(true, maxRetries, [ASK_ALL], AnswersFrom(0));
    assert [c][..0] == [] && [ASK_ALL][1..] == [];
    var sent := AddPacket(INIT, clock, BROADCAST, "r", "p", DefaultPacket);
    assert SendAll(INIT, clock, [ASK_ALL]) == sent;
    assert AnsweredBelow(sent, 0) by { JustSent(clock); }
    AllCredited(sent, clock, 0);
    var b := ReceiveAll(sent, clock, AnswersFrom(0));
    assert BeforeSweep(INIT, clock, c) == b;
    Unfinished(b);
    assert Run(INIT, clock, [c]) == RunCycle(INIT, clock, c);
  }

  lemma JustSent(clock: Clock)
    ensures AnsweredBelow(AddPacket(INIT, clock, BROADCAST, "r", "p", DefaultPacket), 0)
  {
  }

  lemma Unfinished(s: State)
    requires AnsweredBelow(s, 256)
    ensures HandleSuccessful(s) == s
    ensures s.filters[0].IsBroadcast() && s.filters[0].NumResponses() == 0 && |s.filters[0].matchedResponses| == 256
    ensures s.filters[0].packetString == "p" && s.filters[0].retries == 0 && |s.filters| == 1
  {
    assert SweepUpTo(s, 0).filters == [];
    assert SweepUpTo(s, 1).filters == [s.filters[0]] == s.filters;
  }
}
