/**
  What becomes of a command, said from the outside: which response counts for it, what is written for it, and
  that every count has its cause.
 */
module PacketLaws {
  import opened Bytes
  import opened PacketFilter
  import opened PacketTheorems
  import opened ServiceCycle

  predicate StandsAt(part: string, whole: string, i: nat)
  {
    i + |part| <= |whole| && whole[i..i + |part|] == part
  }

  ghost predicate Occurs(part: string, whole: string)
  {
    exists i: nat :: StandsAt(part, whole, i)
  }

  /** A response from `from` with this text could be one to the command. */
  ghost predicate Fits(f: Filter, from: Byte, text: string)
  {
    (f.address == 0xFF || f.address == from) && Occurs(f.responseFilter, text)
  }

  /** And there has not been one from there yet. */
  ghost predicate Waits(f: Filter, from: Byte, text: string)
  {
    Fits(f, from, text) && from !in f.matchedAddresses
  }

  lemma MatchesIff(f: Filter, from: Byte, text: string)
    ensures f.Matches(from, text) <==> Waits(f, from, text)
  {
    if Occurs(f.responseFilter, text) {
      var i: nat :| StandsAt(f.responseFilter, text, i);
      assert f.responseFilter <= text[i..];
    }
    if i :| 0 <= i <= |text| && f.responseFilter <= text[i..] {
      assert StandsAt(f.responseFilter, text, i);
    }
  }

  // ---------- One packet ----------

  /** The oldest command that waits for such a response gets it; nothing else changes. */
  lemma OldestWaitingTakes(s: State, r: Response, text: string, i: nat)
    requires i < |s.filters| && Waits(s.filters[i], r.address, text)
    requires forall j :: 0 <= j < i ==> !Waits(s.filters[j], r.address, text)
    ensures var f := s.filters[i];
            MatchResponse(s, Some(r), text)
            == (s.(filters := s.filters[i := f.(matchedResponses := f.matchedResponses + [r.packet],
                                                matchedAddresses := f.matchedAddresses + {r.address})]), f.kind)
  {
    hide Waits, Filter.Matches;
    FirstIs(s.filters, r.address, text, i);
  }

  lemma FirstIs(filters: seq<Filter>, from: Byte, text: string, i: nat)
    requires i < |filters| && Waits(filters[i], from, text)
    requires forall j :: 0 <= j < i ==> !Waits(filters[j], from, text)
    ensures FirstMatch(filters, from, text) == i
  {
    hide Waits, Filter.Matches;
    var k := FirstMatch(filters, from, text);
    MatchesIff(filters[i], from, text);
    if k < |filters| {
      MatchesIff(filters[k], from, text);
    }
  }

  /** A packet that is no response, or none that any command waits for, is only counted. */
  lemma NobodyTakes(s: State, response: Option<Response>, text: string)
    requires response.Some? ==> forall j :: 0 <= j < |s.filters| ==> !Waits(s.filters[j], response.value.address, text)
    ensures MatchResponse(s, response, text)
         == (if response.Some? && response.value.spontaneous then s.(spontaneous := s.spontaneous + 1)
             else s.(unrequested := s.unrequested + 1), NonePacket)
  {
    hide Waits, Filter.Matches;
    if response.Some? {
      var k := FirstMatch(s.filters, response.value.address, text);
      if k < |s.filters| {
        MatchesIff(s.filters[k], response.value.address, text);
      }
    }
  }

  /** A response from elsewhere, or with another text, leaves a command as it was. */
  lemma OthersLeaveIt(s: State, clock: Clock, p: Incoming, i: nat)
    requires i < |s.filters|
    requires p.response.Some? ==> !Fits(s.filters[i], p.response.value.address, p.raw)
    ensures |Receive(s, clock, p).filters| > i && Receive(s, clock, p).filters[i] == s.filters[i]
  {
    hide Fits, Filter.Matches;
    if p.response.Some? {
      var m, kind := MatchResponse(s, p.response, p.raw).0, MatchResponse(s, p.response, p.raw).1;
      var k := FirstMatch(s.filters, p.response.value.address, p.raw);
      if k < |s.filters| {
        MatchesIff(s.filters[k], p.response.value.address, p.raw);
      }
      ExpectedInOrder(m, clock, p.response.value.address, p.additional, kind);
      assert Receive(s, clock, p).filters[..|m.filters|][i] == m.filters[i];
    }
  }

  function NewFilter(c: Command, id: nat, now: Time): Filter
  {
    Filter(c.address, c.expectedResponse, c.kind, c.packet, now, 0, [], {}, id, now)
  }

  lemma {:induction false} SentInOrder(s: State, clock: Clock, commands: seq<Command>)
    ensures var r, n := SendAll(s, clock, commands), |s.filters|;
            && r == s.(filters := r.filters, sent := s.sent + |commands|, ticks := s.ticks + |commands|)
            && |r.filters| == n + |commands| && r.filters[..n] == s.filters
            && forall k :: 0 <= k < |commands| ==>
                 r.filters[n + k] == NewFilter(commands[k], s.sent + k, clock(s.ticks + k))
    decreases |commands|
  {
    if commands != [] {
      var c := commands[0];
      var t := AddPacket(s, clock, c.address, c.expectedResponse, c.packet, c.kind);
      SentInOrder(t, clock, commands[1..]);
      var r, n := SendAll(s, clock, commands), |s.filters|;
      assert r.filters[..n] == r.filters[..n + 1][..n];
      assert r.filters[n] == r.filters[..n + 1][n];
      forall k | 0 < k < |commands|
        ensures r.filters[n + k] == NewFilter(commands[k], s.sent + k, clock(s.ticks + k))
      {
        assert commands[k] == commands[1..][k - 1] && n + k == n + 1 + (k - 1);
      }
    }
  }

  /** The commands that come of the announced responses. */
  function Announced(address: Byte, texts: seq<string>, kind: PacketType): (r: seq<Command>)
    ensures |r| == |texts| && forall k :: 0 <= k < |r| ==> r[k] == Command(address, texts[k], "", kind)
  {
    seq(|texts|, k requires 0 <= k < |texts| => Command(address, texts[k], "", kind))
  }

  lemma {:induction false} ExpectIsSend(s: State, clock: Clock, address: Byte, texts: seq<string>, kind: PacketType)
    ensures ExpectAll(s, clock, address, texts, kind) == SendAll(s, clock, Announced(address, texts, kind))
    decreases |texts|
  {
    hide AddPacket;
    if texts != [] {
      assert Announced(address, texts, kind)[1..] == Announced(address, texts[1..], kind);
      ExpectIsSend(AddPacket(s, clock, address, texts[0], "", kind), clock, address, texts[1..], kind);
    }
  }

  /** The responses a packet announces are expected from its sender, in their order and silently. */
  lemma ExpectedInOrder(s: State, clock: Clock, address: Byte, texts: seq<string>, kind: PacketType)
    ensures var r, n := ExpectAll(s, clock, address, texts, kind), |s.filters|;
            && r == s.(filters := r.filters, sent := s.sent + |texts|, ticks := s.ticks + |texts|)
            && |r.filters| == n + |texts| && r.filters[..n] == s.filters
            && forall k :: 0 <= k < |texts| ==>
                 r.filters[n + k] == NewFilter(Command(address, texts[k], "", kind), s.sent + k, clock(s.ticks + k))
  {
    hide ExpectAll, SendAll, NewFilter;
    ExpectIsSend(s, clock, address, texts, kind);
    SentInOrder(s, clock, Announced(address, texts, kind));
  }

  // ---------- One cycle ----------

  /** The tracker in cycle `c` when its commands have been sent and its first `m` packets processed. */
  function AfterPackets(s: State, clock: Clock, c: Cycle, m: nat): State
    requires m <= |c.packets|
  {
    ReceiveAll(SendAll(HandleTimeout(s, clock, c.maxRetries).(packetsOut := []), clock, c.commands), clock,
               c.packets[..m])
  }

  lemma {:induction false} ReceiveOneMore(s: State, clock: Clock, packets: seq<Incoming>, m: nat)
    requires m < |packets|
    ensures ReceiveAll(s, clock, packets[..m + 1]) == Receive(ReceiveAll(s, clock, packets[..m]), clock, packets[m])
    decreases m
  {
    hide Receive;
    var first := Receive(s, clock, packets[0]);
    assert packets[..m + 1][1..] == packets[1..][..m] && packets[..m + 1] != [];
    if m > 0 {
      assert packets[..m][1..] == packets[1..][..m - 1];
      ReceiveOneMore(first, clock, packets[1..], m - 1);
    } else {
      assert packets[1..][..0] == [];
    }
  }

  lemma {:induction false} ReceiveRest(s: State, clock: Clock, packets: seq<Incoming>, m: nat)
    requires m <= |packets|
    ensures ReceiveAll(s, clock, packets) == ReceiveAll(ReceiveAll(s, clock, packets[..m]), clock, packets[m..])
    decreases m
  {
    hide Receive;
    if m > 0 {
      assert packets[..m][1..] == packets[1..][..m - 1] && packets[1..][m - 1..] == packets[m..];
      ReceiveRest(Receive(s, clock, packets[0]), clock, packets[1..], m - 1);
    } else {
      assert packets[0..] == packets;
    }
  }

  lemma {:induction false} TimeoutSent(s: State, clock: Clock, maxRetries: Byte)
    ensures HandleTimeout(s, clock, maxRetries).sent == s.sent
    decreases Budget(s.filters, maxRetries)
  {
    if s.filters != [] && s.filters[0].Expired(clock(s.ticks)) {
      var now, s' := clock(s.ticks), s.(ticks := s.ticks + 1);
      BudgetStep(s', clock, maxRetries, now);
      TimeoutSent(TimeoutStep(s', clock, maxRetries, now), clock, maxRetries);
    }
  }

  /** Up to any point in the cycle the tracker is sound, and what was queued then is still queued at its end. */
  lemma Stages(s: State, clock: Clock, c: Cycle, m: nat)
    requires Good(s) && m <= |c.packets|
    ensures Good(AfterPackets(s, clock, c, m))
    ensures Extends(AfterPackets(s, clock, c, 0), AfterPackets(s, clock, c, m), clock)
    ensures Good(BeforeSweep(s, clock, c)) && Extends(AfterPackets(s, clock, c, m), BeforeSweep(s, clock, c), clock)
  {
    hide Good, HandleTimeout, Extends, SendAll;
    TimeoutKeepsGood(s, clock, c.maxRetries);
    DrainGood(HandleTimeout(s, clock, c.maxRetries));
    var written := HandleTimeout(s, clock, c.maxRetries).(packetsOut := []);
    SendAllGood(written, clock, c.commands);
    var sending := SendAll(written, clock, c.commands);
    assert c.packets[..0] == [] && AfterPackets(s, clock, c, 0) == sending;
    ReceiveAllGood(sending, clock, c.packets[..m]);
    ReceiveAllGood(AfterPackets(s, clock, c, m), clock, c.packets[m..]);
    ReceiveRest(sending, clock, c.packets, m);
  }

  /** The filter of the cycle's command `n`, when `m` packets have been processed. */
  lemma SentFilter(s: State, clock: Clock, c: Cycle, n: nat, m: nat)
    requires Good(s) && n < |c.commands| && m <= |c.packets|
    ensures var i := |HandleTimeout(s, clock, c.maxRetries).filters| + n;
            && i < |AfterPackets(s, clock, c, m).filters|
            && var f, cmd := AfterPackets(s, clock, c, m).filters[i], c.commands[n];
               && f.id == s.sent + n && f.address == cmd.address && f.responseFilter == cmd.expectedResponse
               && f.packetString == cmd.packet && f.kind == cmd.kind && f.retries == 0
               && FilterOK(f)
  {
    hide HandleTimeout, SendAll, ReceiveAll, FilterOK;
    var t := HandleTimeout(s, clock, c.maxRetries);
    TimeoutSent(s, clock, c.maxRetries);
    SentInOrder(t.(packetsOut := []), clock, c.commands);
    var sending := SendAll(t.(packetsOut := []), clock, c.commands);
    assert c.packets[..0] == [] && AfterPackets(s, clock, c, 0) == sending by { NothingReceived(s, clock, c); }
    Stages(s, clock, c, m);
    var i := |t.filters| + n;
    assert sending.filters[i] == NewFilter(c.commands[n], t.sent + n, clock(t.ticks + n));
    assert SameCommand(sending.filters[i], AfterPackets(s, clock, c, m).filters[i]);
    GoodFilters(AfterPackets(s, clock, c, m));
  }

  lemma NothingReceived(s: State, clock: Clock, c: Cycle)
    ensures c.packets[..0] == []
    ensures AfterPackets(s, clock, c, 0)
         == SendAll(HandleTimeout(s, clock, c.maxRetries).(packetsOut := []), clock, c.commands)
  {
    hide HandleTimeout, SendAll;
  }

  /** A waiting command that is the oldest to wait for a packet has its response when the cycle ends. */
  lemma AnswerStays(s: State, clock: Clock, c: Cycle, m: nat, i: nat)
    requires Good(s) && m < |c.packets| && i < |AfterPackets(s, clock, c, m).filters|
    requires var before, p := AfterPackets(s, clock, c, m), c.packets[m];
             && p.response.Some? && before.filters[i].address == p.response.value.address != BROADCAST
             && Occurs(before.filters[i].responseFilter, p.raw)
             && forall j :: 0 <= j < i ==> !Waits(before.filters[j], p.response.value.address, p.raw)
    ensures i < |BeforeSweep(s, clock, c).filters| && BeforeSweep(s, clock, c).filters[i].Answered()
    ensures BeforeSweep(s, clock, c).filters[i].id == AfterPackets(s, clock, c, m).filters[i].id
    ensures AfterPackets(s, clock, c, m).filters[i].matchedResponses == [] ==>
              var after := AfterPackets(s, clock, c, m + 1);
              && after.unrequested == AfterPackets(s, clock, c, m).unrequested
              && after.spontaneous == AfterPackets(s, clock, c, m).spontaneous
              && i < |after.filters| && |after.filters[i].matchedResponses| == 1
  {
    hide AfterPackets, Good, BeforeSweep, Occurs, MatchResponse;
    Stages(s, clock, c, m);
    Stages(s, clock, c, m + 1);
    var before, p, after := AfterPackets(s, clock, c, m), c.packets[m], AfterPackets(s, clock, c, m + 1);
    AfterOneMore(s, clock, c, m);
    GoodFilters(before);
    GoodFilters(BeforeSweep(s, clock, c));
    StillThere(before, clock, p);
    assert SameCommand(before.filters[i], after.filters[i]);
    if before.filters[i].matchedResponses == [] {
      assert before.filters[i].matchedAddresses == {};
      OldestWaitingTakes(before, p.response.value, p.raw, i);
      var m, kind := MatchResponse(before, p.response, p.raw).0, MatchResponse(before, p.response, p.raw).1;
      ExpectedInOrder(m, clock, p.response.value.address, p.additional, kind);
      assert after.filters[..|m.filters|][i] == m.filters[i];
    }
    assert after.filters[i].matchedResponses != [];
    assert SameCommand(after.filters[i], BeforeSweep(s, clock, c).filters[i]);
    UnicastResponses(BeforeSweep(s, clock, c).filters[i]);
  }

  lemma AfterOneMore(s: State, clock: Clock, c: Cycle, m: nat)
    requires m < |c.packets|
    ensures AfterPackets(s, clock, c, m + 1) == Receive(AfterPackets(s, clock, c, m), clock, c.packets[m])
  {
    hide HandleTimeout, SendAll, Receive;
    ReceiveOneMore(SendAll(HandleTimeout(s, clock, c.maxRetries).(packetsOut := []), clock, c.commands), clock,
                   c.packets, m);
  }

  lemma StillThere(s: State, clock: Clock, p: Incoming)
    requires Good(s)
    ensures Extends(s, Receive(s, clock, p), clock)
  {
    hide Good, Receive;
    ReceiveAllGood(s, clock, [p]);
    assert [p][1..] == [] && ReceiveAll(s, clock, [p]) == ReceiveAll(Receive(s, clock, p), clock, []);
  }

  /**
    A unicast command of this cycle, and a packet of this cycle from its module that contains what it expects:
    unless an older command still waits for the packet, the command ends as successful in this cycle, once, and is
    never sent again; and if it has had no response before, the packet is counted neither as unrequested nor as
    spontaneous.
   */
  lemma CommandAnswered(s: State, clock: Clock, c: Cycle, n: nat, m: nat, later: seq<Cycle>)
    requires CycleInvariant(s) && c.enabled && n < |c.commands| && m < |c.packets|
    requires var cmd, p := c.commands[n], c.packets[m];
             && cmd.address != BROADCAST && p.response.Some? && p.response.value.address == cmd.address
             && Occurs(cmd.expectedResponse, p.raw)
    requires var i := |HandleTimeout(s, clock, c.maxRetries).filters| + n;
             && i <= |AfterPackets(s, clock, c, m).filters|
             && forall j :: 0 <= j < i ==>
                  !Waits(AfterPackets(s, clock, c, m).filters[j], c.commands[n].address, c.packets[m].raw)
    ensures var r, id := RunCycle(s, clock, c), s.sent + n;
            && (exists f :: Succeeded(f) in r.log && f.id == id)
            && Ended(r.log, id) == 1 && Quiet(r, Run(r, clock, later), id)
    ensures var before, after := AfterPackets(s, clock, c, m), AfterPackets(s, clock, c, m + 1);
            var i := |HandleTimeout(s, clock, c.maxRetries).filters| + n;
            i < |before.filters| && before.filters[i].matchedResponses == [] ==>
              after.unrequested == before.unrequested && after.spontaneous == before.spontaneous
  {
    hide AfterPackets, Good, AllWaiting, NeverAfterAnswer, BeforeSweep, Occurs, HandleTimeout, RunCycle, Run, Waits;
    var i := |HandleTimeout(s, clock, c.maxRetries).filters| + n;
    SentFilter(s, clock, c, n, m);
    AnswerStays(s, clock, c, m, i);
    AnsweredIsDone(s, clock, c, i, later);
    assert Succeeded(BeforeSweep(s, clock, c).filters[i]) in RunCycle(s, clock, c).log;
  }

  /**
    A lone unicast command and one packet in the same cycle: it ends as successful exactly if the packet is a
    response from its module that contains what it expects.  Otherwise it waits on, and the packet is counted.
   */
  lemma LoneCommand(clock: Clock, maxRetries: Byte, cmd: Command, p: Incoming)
    requires cmd.address != BROADCAST && cmd.expectedResponse != "" && p.additional == []
    ensures var s := Run(INIT, clock, [Cycle(true, maxRetries, [cmd], [p])]);
            var spontaneous := p.response.Some? && p.response.value.spontaneous;
            if p.response.Some? && p.response.value.address == cmd.address && Occurs(cmd.expectedResponse, p.raw)
            then s.filters == [] && s.successful == 1 && s.unrequested == 0 && s.spontaneous == 0
            else && s.filters == [NewFilter(cmd, 0, clock(0))] && s.successful == 0
                 && s.unrequested == (if spontaneous then 0 else 1) && s.spontaneous == (if spontaneous then 1 else 0)
  {
    hide Occurs, MatchResponse;
    var c := Cycle(true, maxRetries, [cmd], [p]);
    assert [c][..0] == [] && [cmd][1..] == [] && [p][1..] == [];
    var f := NewFilter(cmd, 0, clock(0));
    var sent := AddPacket(INIT, clock, cmd.address, cmd.expectedResponse, cmd.packet, cmd.kind);
    assert sent.filters == [f] && SendAll(INIT, clock, [cmd]) == sent;
    var heard := Receive(sent, clock, p);
    assert heard == MatchResponse(sent, p.response, p.raw).0;
    assert ReceiveAll(heard, clock, []) == heard;
    assert ReceiveAll(sent, clock, [p]) == ReceiveAll(heard, clock, [p][1..]) == heard;
    assert HandleTimeout(INIT, clock, maxRetries).(packetsOut := []) == INIT;
    assert BeforeSweep(INIT, clock, c) == heard;
    assert Run(INIT, clock, [c]) == HandleSuccessful(heard);
    if p.response.Some? && Waits(f, p.response.value.address, p.raw) {
      OldestWaitingTakes(sent, p.response.value, p.raw, 0);
    } else {
      NobodyTakes(sent, p.response, p.raw);
    }
    SweepOfOne(heard);
  }

  lemma SweepOfOne(s: State)
    requires |s.filters| == 1
    ensures HandleSuccessful(s) ==
            if s.filters[0].responseFilter == "" || s.filters[0].Answered()
            then s.(filters := [], successful := s.successful + 1, log := s.log + [Succeeded(s.filters[0])])
            else s
  {
    assert s.filters == [s.filters[0]];
    assert SweepUpTo(s, 0).filters == [];
  }

  // ---------- What is written ----------

  /** The packets of the resent commands, in the order of the log. */
  function ResentTexts(log: seq<Event>): seq<string>
  {
    if log == [] then []
    else
      var e := log[|log| - 1];
      ResentTexts(log[..|log| - 1]) + if e.Resent? then [e.filter.packetString] else []
  }

  lemma ResentOneMore(log: seq<Event>, e: Event)
    ensures ResentTexts(log + [e]) == ResentTexts(log) + if e.Resent? then [e.filter.packetString] else []
  {
    assert (log + [e])[..|log|] == log;
  }

  lemma {:induction false} ResentSplit(a: seq<Event>, b: seq<Event>)
    ensures ResentTexts(a + b) == ResentTexts(a) + ResentTexts(b)
    decreases |b|
  {
    if b == [] {
      assert a + b == a;
    } else {
      ResentSplit(a, b[..|b| - 1]);
      assert (a + b)[..|a + b| - 1] == a + b[..|b| - 1];
    }
  }

  /** The packets of all commands that a timeout pass resends are queued for writing, in order, behind what was. */
  lemma {:induction false} TimeoutsQueued(s: State, clock: Clock, maxRetries: Byte)
    ensures var r := HandleTimeout(s, clock, maxRetries);
            s.log <= r.log && r.packetsOut == s.packetsOut + ResentTexts(r.log[|s.log|..])
    decreases Budget(s.filters, maxRetries)
  {
    hide TimeoutStep, ResentTexts;
    if s.filters != [] && s.filters[0].Expired(clock(s.ticks)) {
      var now, s' := clock(s.ticks), s.(ticks := s.ticks + 1);
      BudgetStep(s', clock, maxRetries, now);
      StepQueued(s', clock, maxRetries, now);
      var t := TimeoutStep(s', clock, maxRetries, now);
      TimeoutsQueued(t, clock, maxRetries);
      FirstResent(s.log, t.log, HandleTimeout(t, clock, maxRetries).log);
      assert HandleTimeout(s, clock, maxRetries) == HandleTimeout(t, clock, maxRetries);
    } else {
      NoneResent(s.log);
      assert s.packetsOut + [] == s.packetsOut;
    }
  }

  lemma FirstResent(log: seq<Event>, more: seq<Event>, all: seq<Event>)
    requires |more| == |log| + 1 && log == more[..|log|] && more <= all
    ensures log <= all
    ensures ResentTexts(all[|log|..])
         == (if more[|log|].Resent? then [more[|log|].filter.packetString] else []) + ResentTexts(all[|more|..])
  {
    var e := more[|log|];
    assert all[|log|..] == [e] + all[|more|..];
    ResentSplit([e], all[|more|..]);
    ResentOneMore([], e);
    assert [] + [e] == [e];
  }

  lemma NoneResent(log: seq<Event>)
    ensures ResentTexts(log[|log|..]) == []
  {
  }

  lemma StepQueued(s: State, clock: Clock, maxRetries: Byte, now: Time)
    requires s.filters != []
    ensures var r := TimeoutStep(s, clock, maxRetries, now);
            && |r.log| == |s.log| + 1 && r.log[..|s.log|] == s.log
            && r.packetsOut == s.packetsOut + (if r.log[|s.log|].Resent? then [s.filters[0].packetString] else [])
            && r.log[|s.log|].filter == s.filters[0]
  {
  }

  lemma {:induction false} SweepResends(s: State, k: nat)
    requires k <= |s.filters|
    ensures var r := SweepUpTo(s, k);
            s.log <= r.log && ResentTexts(r.log[|s.log|..]) == [] && r.packetsOut == s.packetsOut
    decreases k
  {
    if k > 0 {
      SweepResends(s, k - 1);
      var r, n := SweepUpTo(s, k - 1), |s.log|;
      if Finished(s.filters[k - 1]) {
        var e := Succeeded(s.filters[k - 1]);
        assert (r.log + [e])[n..] == r.log[n..] + [e];
        ResentOneMore(r.log[n..], e);
      }
    }
  }

  /** What a cycle resends is what its log says, and its queue for writing is empty when it ends. */
  lemma CycleWrites(s: State, clock: Clock, c: Cycle)
    requires c.enabled
    ensures var t, r := HandleTimeout(s, clock, c.maxRetries), RunCycle(s, clock, c);
            && s.log <= r.log && t.packetsOut == s.packetsOut + ResentTexts(r.log[|s.log|..])
            && r.packetsOut == []
  {
    hide HandleTimeout, SweepUpTo, SendAll, ReceiveAll, ResentTexts;
    TimeoutsQueued(s, clock, c.maxRetries);
    var t := HandleTimeout(s, clock, c.maxRetries);
    var b := BeforeSweep(s, clock, c);
    QuietMiddle(t.(packetsOut := []), clock, c);
    SweepResends(b, |b.filters|);
    var r := RunCycle(s, clock, c);
    LaterResent(s.log, t.log, r.log);
  }

  lemma LaterResent(log: seq<Event>, more: seq<Event>, all: seq<Event>)
    requires log <= more <= all && ResentTexts(all[|more|..]) == []
    ensures ResentTexts(all[|log|..]) == ResentTexts(more[|log|..])
  {
    assert all[|log|..] == more[|log|..] + all[|more|..];
    ResentSplit(more[|log|..], all[|more|..]);
    assert ResentTexts(more[|log|..]) + [] == ResentTexts(more[|log|..]);
  }

  lemma {:induction false} QuietMiddle(s: State, clock: Clock, c: Cycle)
    ensures var r := ReceiveAll(SendAll(s, clock, c.commands), clock, c.packets);
            r.log == s.log && r.packetsOut == s.packetsOut
  {
    SentInOrder(s, clock, c.commands);
    QuietReceive(SendAll(s, clock, c.commands), clock, c.packets);
  }

  lemma {:induction false} QuietReceive(s: State, clock: Clock, packets: seq<Incoming>)
    ensures var r := ReceiveAll(s, clock, packets); r.log == s.log && r.packetsOut == s.packetsOut
    decreases |packets|
  {
    if packets != [] {
      var p := packets[0];
      var m, kind := MatchResponse(s, p.response, p.raw).0, MatchResponse(s, p.response, p.raw).1;
      if p.response.Some? {
        ExpectedInOrder(m, clock, p.response.value.address, p.additional, kind);
      }
      QuietReceive(Receive(s, clock, p), clock, packets[1..]);
    }
  }

  // ---------- Every count has its cause ----------

  datatype Counts = Counts(successful: nat, dropped: nat, retried: nat, expired: nat)

  function CountsOf(log: seq<Event>): Counts
  {
    if log == [] then Counts(0, 0, 0, 0)
    else
      var n := CountsOf(log[..|log| - 1]);
      match log[|log| - 1]
      case Succeeded(_) => n.(successful := n.successful + 1)
      case Dropped(_, _) => n.(dropped := n.dropped + 1)
      case Resent(_, _) => n.(retried := n.retried + 1)
      case ExpiredSilently(_, _) => n.(expired := n.expired + 1)
  }

  /** The packet of the last command dropped. */
  function LastDropped(log: seq<Event>): string
  {
    if log == [] then ""
    else if log[|log| - 1].Dropped? then log[|log| - 1].filter.packetString
    else LastDropped(log[..|log| - 1])
  }

  ghost predicate StandsFor(f: Filter, asked: seq<Command>)
  {
    f.id < |asked| && asked[f.id] == Command(f.address, f.responseFilter, f.packetString, f.kind)
  }

  /** Some packet was a response that could be one to the command. */
  ghost predicate HeardFor(f: Filter, heard: seq<Incoming>)
  {
    exists k :: 0 <= k < |heard| && heard[k].response.Some? && Fits(f, heard[k].response.value.address, heard[k].raw)
  }

  ghost predicate FilterExplained(f: Filter, asked: seq<Command>, heard: seq<Incoming>)
  {
    StandsFor(f, asked) && (f.matchedResponses != [] ==> HeardFor(f, heard))
  }

  ghost predicate EventExplained(e: Event, asked: seq<Command>, heard: seq<Incoming>)
  {
    && StandsFor(e.filter, asked)
    && (e.Succeeded? ==> e.filter.responseFilter == "" || HeardFor(e.filter, heard))
    && (e.Resent? ==> e.filter.packetString != "") && (e.ExpiredSilently? ==> e.filter.packetString == "")
  }

  /**
    `asked` are all commands ever sent, `heard` all packets.  Every filter and every event is about the command its
    number says; what has responses or counts as a success has been answered; and the counters count the events.
   */
  ghost predicate Explained(s: State, asked: seq<Command>, heard: seq<Incoming>)
  {
    && s.sent == |asked|
    && (forall i :: 0 <= i < |s.filters| ==> FilterExplained(s.filters[i], asked, heard))
    && (forall i :: 0 <= i < |s.log| ==> EventExplained(s.log[i], asked, heard))
    && CountsOf(s.log) == Counts(s.successful, s.dropped, s.retried, s.expired)
    && s.lastDropped == LastDropped(s.log)
  }

  lemma CountOneMore(log: seq<Event>, e: Event)
    ensures var n, m := CountsOf(log), CountsOf(log + [e]);
            m == match e
                 case Succeeded(_) => n.(successful := n.successful + 1)
                 case Dropped(_, _) => n.(dropped := n.dropped + 1)
                 case Resent(_, _) => n.(retried := n.retried + 1)
                 case ExpiredSilently(_, _) => n.(expired := n.expired + 1)
    ensures LastDropped(log + [e]) == if e.Dropped? then e.filter.packetString else LastDropped(log)
  {
    assert (log + [e])[..|log|] == log;
  }

  lemma StepExplained(s: State, clock: Clock, maxRetries: Byte, now: Time, asked: seq<Command>, heard: seq<Incoming>)
    requires Explained(s, asked, heard) && s.filters != []
    ensures Explained(TimeoutStep(s, clock, maxRetries, now), asked, heard)
  {
    hide HeardFor, CountsOf, LastDropped;
    var r := TimeoutStep(s, clock, maxRetries, now);
    assert FilterExplained(s.filters[0], asked, heard);
    CountOneMore(s.log, r.log[|s.log|]);
    if r.log[|s.log|].Resent? {
      SameHeard(s.filters[0], r.filters[|r.filters| - 1], heard);
    }
  }

  /** Only address and expectation matter. */
  lemma SameHeard(f: Filter, g: Filter, heard: seq<Incoming>)
    requires f.address == g.address && f.responseFilter == g.responseFilter
    ensures HeardFor(f, heard) <==> HeardFor(g, heard)
  {
    if HeardFor(f, heard) {
      var k :| 0 <= k < |heard| && heard[k].response.Some? && Fits(f, heard[k].response.value.address, heard[k].raw);
      assert Fits(g, heard[k].response.value.address, heard[k].raw);
    }
    if HeardFor(g, heard) {
      var k :| 0 <= k < |heard| && heard[k].response.Some? && Fits(g, heard[k].response.value.address, heard[k].raw);
      assert Fits(f, heard[k].response.value.address, heard[k].raw);
    }
  }

  lemma {:induction false} TimeoutExplained(s: State, clock: Clock, maxRetries: Byte, asked: seq<Command>,
                                            heard: seq<Incoming>)
    requires Explained(s, asked, heard)
    ensures Explained(HandleTimeout(s, clock, maxRetries), asked, heard)
    decreases Budget(s.filters, maxRetries)
  {
    hide FilterExplained, EventExplained, CountsOf, LastDropped, TimeoutStep;
    if s.filters != [] && s.filters[0].Expired(clock(s.ticks)) {
      var now, s' := clock(s.ticks), s.(ticks := s.ticks + 1);
      BudgetStep(s', clock, maxRetries, now);
      StepExplained(s', clock, maxRetries, now, asked, heard);
      TimeoutExplained(TimeoutStep(s', clock, maxRetries, now), clock, maxRetries, asked, heard);
    }
  }

  /** More commands and packets explain no less. */
  lemma MoreExplains(f: Filter, asked: seq<Command>, heard: seq<Incoming>, asked': seq<Command>, heard': seq<Incoming>)
    requires asked <= asked' && heard <= heard'
    ensures StandsFor(f, asked) ==> StandsFor(f, asked')
    ensures HeardFor(f, heard) ==> HeardFor(f, heard')
  {
    if HeardFor(f, heard) {
      var k :| 0 <= k < |heard| && heard[k].response.Some? && Fits(f, heard[k].response.value.address, heard[k].raw);
      assert heard'[k] == heard[k];
    }
  }

  /** Appended commands that are new, with the same log and counters. */
  lemma AppendedExplained(s: State, r: State, clock: Clock, asked: seq<Command>, heard: seq<Incoming>,
                          more: seq<Command>)
    requires Explained(s, asked, heard) && r.sent == s.sent + |more| && r.log == s.log
    requires r.successful == s.successful && r.dropped == s.dropped && r.retried == s.retried
    requires r.expired == s.expired && r.lastDropped == s.lastDropped
    requires |r.filters| == |s.filters| + |more| && r.filters[..|s.filters|] == s.filters
    requires forall k :: 0 <= k < |more| ==>
               r.filters[|s.filters| + k] == NewFilter(more[k], s.sent + k, clock(s.ticks + k))
    ensures Explained(r, asked + more, heard)
  {
    hide HeardFor, CountsOf, LastDropped;
    forall i | 0 <= i < |r.filters| ensures FilterExplained(r.filters[i], asked + more, heard) {
      if i < |s.filters| {
        assert r.filters[i] == r.filters[..|s.filters|][i] == s.filters[i];
        assert FilterExplained(s.filters[i], asked, heard);
        MoreExplains(s.filters[i], asked, heard, asked + more, heard);
      } else {
        var k := i - |s.filters|;
        assert r.filters[|s.filters| + k] == NewFilter(more[k], s.sent + k, clock(s.ticks + k));
      }
    }
    forall i | 0 <= i < |r.log| ensures EventExplained(r.log[i], asked + more, heard) {
      assert EventExplained(s.log[i], asked, heard);
      MoreExplains(s.log[i].filter, asked, heard, asked + more, heard);
    }
  }

  /** One more packet: the filter it is credited to has been answered by it. */
  lemma MatchExplained(s: State, p: Incoming, asked: seq<Command>, heard: seq<Incoming>)
    requires Explained(s, asked, heard)
    ensures Explained(MatchResponse(s, p.response, p.raw).0, asked, heard + [p])
  {
    hide CountsOf, LastDropped, Fits, Filter.Matches, HeardFor;
    var r, more := MatchResponse(s, p.response, p.raw).0, heard + [p];
    forall i | 0 <= i < |r.filters| ensures FilterExplained(r.filters[i], asked, more) {
      assert FilterExplained(s.filters[i], asked, heard);
      MoreExplains(s.filters[i], asked, heard, asked, more);
      if r.filters[i] != s.filters[i] {
        MatchesIff(s.filters[i], p.response.value.address, p.raw);
        JustHeard(s.filters[i], p, heard);
        SameHeard(s.filters[i], r.filters[i], more);
      }
    }
    forall i | 0 <= i < |r.log| ensures EventExplained(r.log[i], asked, more) {
      assert EventExplained(s.log[i], asked, heard);
      MoreExplains(s.log[i].filter, asked, heard, asked, more);
    }
  }

  lemma JustHeard(f: Filter, p: Incoming, heard: seq<Incoming>)
    requires p.response.Some? && Fits(f, p.response.value.address, p.raw)
    ensures HeardFor(f, heard + [p])
  {
    assert (heard + [p])[|heard|] == p;
  }

  lemma ReceiveExplained(s: State, clock: Clock, p: Incoming, asked: seq<Command>, heard: seq<Incoming>)
    returns (more: seq<Command>)
    requires Explained(s, asked, heard)
    ensures Explained(Receive(s, clock, p), asked + more, heard + [p]) && forall c :: c in more ==> c.packet == ""
  {
    hide Explained, MatchResponse;
    more := [];
    MatchExplained(s, p, asked, heard);
    var m, kind := MatchResponse(s, p.response, p.raw).0, MatchResponse(s, p.response, p.raw).1;
    assert asked + [] == asked;
    if p.response.Some? {
      ExpectedInOrder(m, clock, p.response.value.address, p.additional, kind);
      more := Announced(p.response.value.address, p.additional, kind);
      AppendedExplained(m, Receive(s, clock, p), clock, asked, heard + [p], more);
    }
  }

  lemma {:induction false} ReceiveAllExplained(s: State, clock: Clock, packets: seq<Incoming>, asked: seq<Command>,
                                               heard: seq<Incoming>) returns (more: seq<Command>)
    requires Explained(s, asked, heard)
    ensures Explained(ReceiveAll(s, clock, packets), asked + more, heard + packets)
    ensures forall c :: c in more ==> c.packet == ""
    decreases |packets|
  {
    hide Explained, Receive;
    more := [];
    assert asked + [] == asked;
    if packets == [] {
      assert heard + packets == heard;
    } else {
      var first := ReceiveExplained(s, clock, packets[0], asked, heard);
      var rest := ReceiveAllExplained(Receive(s, clock, packets[0]), clock, packets[1..], asked + first,
                                      heard + [packets[0]]);
      more := first + rest;
      assert asked + more == asked + first + rest && heard + packets == heard + [packets[0]] + packets[1..];
    }
  }

  lemma {:induction false} SweepExplained(s: State, asked: seq<Command>, heard: seq<Incoming>, k: nat)
    requires Explained(s, asked, heard) && k <= |s.filters|
    ensures Explained(SweepUpTo(s, k), asked, heard)
    decreases k
  {
    hide StandsFor, HeardFor, CountsOf, LastDropped;
    if k > 0 {
      SweepExplained(s, asked, heard, k - 1);
      assert FilterExplained(s.filters[k - 1], asked, heard);
      CountOneMore(SweepUpTo(s, k - 1).log, Succeeded(s.filters[k - 1]));
    }
  }

  /** A cycle: its commands are asked in their order, then what its packets announce; its packets are heard. */
  lemma CycleExplained(s: State, clock: Clock, c: Cycle, asked: seq<Command>, heard: seq<Incoming>)
    returns (announced: seq<Command>)
    requires Explained(s, asked, heard) && c.enabled
    ensures Explained(RunCycle(s, clock, c), asked + c.commands + announced, heard + c.packets)
    ensures forall a :: a in announced ==> a.packet == ""
  {
    hide Explained, HandleTimeout, SendAll, ReceiveAll, SweepUpTo;
    TimeoutExplained(s, clock, c.maxRetries, asked, heard);
    var t := HandleTimeout(s, clock, c.maxRetries).(packetsOut := []);
    DrainExplained(HandleTimeout(s, clock, c.maxRetries), asked, heard);
    SentInOrder(t, clock, c.commands);
    AppendedExplained(t, SendAll(t, clock, c.commands), clock, asked, heard, c.commands);
    announced := ReceiveAllExplained(SendAll(t, clock, c.commands), clock, c.packets, asked + c.commands, heard);
    var b := BeforeSweep(s, clock, c);
    SweepExplained(b, asked + c.commands + announced, heard + c.packets, |b.filters|);
  }

  lemma DrainExplained(s: State, asked: seq<Command>, heard: seq<Incoming>)
    requires Explained(s, asked, heard)
    ensures Explained(s.(packetsOut := []), asked, heard)
  {
  }

  function AllPackets(cycles: seq<Cycle>): seq<Incoming>
  {
    if cycles == [] then []
    else
      var c := cycles[|cycles| - 1];
      AllPackets(cycles[..|cycles| - 1]) + if c.enabled then c.packets else []
  }

  /** Over every run and for every clock, everything is explained by the commands and the packets. */
  lemma {:induction false} RunsExplained(clock: Clock, cycles: seq<Cycle>) returns (asked: seq<Command>)
    ensures Explained(Run(INIT, clock, cycles), asked, AllPackets(cycles))
  {
    hide RunCycle;
    asked := [];
    if cycles != [] {
      hide Explained;
      var k := |cycles| - 1;
      asked := RunsExplained(clock, cycles[..k]);
      var before, c := Run(INIT, clock, cycles[..k]), cycles[k];
      if c.enabled {
        var announced := CycleExplained(before, clock, c, asked, AllPackets(cycles[..k]));
        asked := asked + c.commands + announced;
      } else {
        Disabled(before, clock, c);
        assert AllPackets(cycles[..k]) + [] == AllPackets(cycles[..k]);
      }
    }
  }

  lemma Disabled(s: State, clock: Clock, c: Cycle)
    ensures !c.enabled ==> RunCycle(s, clock, c) == s
  {
  }
}
