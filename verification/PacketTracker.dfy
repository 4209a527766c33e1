/**
  The packet tracker and the service loop that drives it, with their queues and counters updated in
  place.  Every method is proved to do what the corresponding function on plain data says.
 */
module PacketTracker {
  import opened Bytes
  import opened PacketFilter
  import opened PacketTheorems
  import opened ServiceCycle
  import opened PacketLaws

  class Tracker {
    const clock: Clock
    var ticks: nat               // readings of the clock so far
    var filters: seq<Filter>
    var packetsOut: seq<string>
    var sent: nat
    var successful: nat
    var dropped: nat
    var retried: nat
    var unrequested: nat
    var spontaneous: nat
    var lastDropped: string
    ghost var expired: nat
    ghost var log: seq<Event>

    constructor (clock: Clock)
      ensures State() == INIT && this.clock == clock
    {
      this.clock := clock;
      ticks, filters, packetsOut := 0, [], [];
      sent, successful, dropped, retried, unrequested, spontaneous := 0, 0, 0, 0, 0, 0;
      lastDropped, expired, log := "", 0, [];
    }

    ghost function State(): State
      reads this
    {
      PacketFilter.State.State(filters, packetsOut, sent, successful, dropped, retried, unrequested, spontaneous,
                               lastDropped, ticks, expired, log)
    }

    method CurrentTimeMs() returns (now: Time)
      modifies `ticks
      ensures now == clock(old(ticks)) && ticks == old(ticks) + 1
    {
      now := clock(ticks);
      ticks := ticks + 1;
    }

    method AddPacket(address: Byte, filter: string, packet: string, kind: PacketType)
      modifies this
      ensures State() == PacketFilter.AddPacket(old(State()), clock, address, filter, packet, kind)
    {
      var now := CurrentTimeMs();
      filters := filters + [Filter(address, filter, kind, packet, now, 0, [], {}, sent, now)];
      sent := sent + 1;
    }

    method HandleTimeoutPackets(maxRetries: Byte)
      modifies this
      ensures State() == HandleTimeout(old(State()), clock, maxRetries)
    {
      hide TimeoutStep;
      while filters != []
        invariant HandleTimeout(State(), clock, maxRetries) == HandleTimeout(old(State()), clock, maxRetries)
        decreases Budget(filters, maxRetries)
      {
        var now := CurrentTimeMs();
        if !filters[0].Expired(now) { return; }
        BudgetStep(State(), clock, maxRetries, now);
        TimeOutFront(maxRetries, now);
      }
    }

    /** The body of the timeout loop: the filter at the front has timed out. */
    method TimeOutFront(maxRetries: Byte, now: Time)
      requires filters != []
      modifies this
      ensures State() == TimeoutStep(old(State()), clock, maxRetries, now)
    {
      var f := filters[0];
      if f.IsBroadcast() && f.NumResponses() > 0 {
        successful := successful + 1;
        log := log + [Succeeded(f)];
      } else if f.retries >= maxRetries {
        dropped := dropped + 1;
        lastDropped := f.packetString;
        log := log + [Dropped(f, now)];
      } else if f.packetString != "" {
        retried := retried + 1;
        var again := CurrentTimeMs();
        var packet := f.(retries := (f.retries + 1) % 256, tSent := again);
        filters := filters + [packet];
        packetsOut := packetsOut + [packet.packetString];
        log := log + [Resent(f, now)];
        assert filters[1..] == old(filters)[1..] + [packet];
      } else {
        expired := expired + 1;
        log := log + [ExpiredSilently(f, now)];
      }
      filters := filters[1..];
    }

    method HandleSuccessfulPackets()
      modifies this
      ensures State() == HandleSuccessful(old(State()))
    {
      hide SweepUpTo;
      ghost var s := State();
      ghost var k := 0;
      SweepNone(s);
      var it := 0;
      while it < |filters|
        invariant 0 <= k <= |s.filters| && it == |SweepUpTo(s, k).filters|
        invariant State() == Midway(s, k)
        decreases |filters| - it
      {
        it := SweepOne(it, s, k);
        k := k + 1;
      }
    }

    lemma SweepNone(s: State)
      ensures SweepUpTo(s, 0).filters == [] && Midway(s, 0) == s
    {
      assert s.filters[0..] == s.filters;
    }

    /** The body of the sweep: one filter examined, and taken out if it is finished. */
    method SweepOne(it: nat, ghost s: State, ghost k: nat) returns (next: nat)
      requires k < |s.filters| && it == |SweepUpTo(s, k).filters| && State() == Midway(s, k)
      modifies this
      ensures next == |SweepUpTo(s, k + 1).filters| && State() == Midway(s, k + 1)
      ensures |filters| - next < |old(filters)| - it
    {
      hide SweepUpTo, Midway;
      MidwayStep(s, k);
      var f := filters[it];
      next := it;
      if f.ExpectsResponse() {
        if !f.IsBroadcast() && f.NumResponses() > 0 {
          successful := successful + 1;
          log := log + [Succeeded(f)];
          filters := filters[..it] + filters[it + 1..];
        } else {
          next := it + 1;
        }
      } else {
        filters := filters[..it] + filters[it + 1..];
        successful := successful + 1;
        log := log + [Succeeded(f)];
      }
    }

    method MatchResponse(response: Option<Response>, raw: string) returns (kind: PacketType)
      modifies this
      ensures (State(), kind) == PacketFilter.MatchResponse(old(State()), response, raw)
    {
      var it := 0;
      while response.Some? && it < |filters| && !filters[it].Matches(response.value.address, raw)
        invariant 0 <= it <= |filters|
        invariant response.Some? ==>
                    FirstMatch(filters, response.value.address, raw) ==
                      it + FirstMatch(filters[it..], response.value.address, raw)
      {
        assert filters[it..][1..] == filters[it + 1..];
        it := it + 1;
      }
      if response.Some? && it < |filters| && filters[it].Matches(response.value.address, raw) {
        kind := filters[it].kind;
        filters := filters[it := Credit(filters[it], response.value)];
      } else if response.None? || !response.value.spontaneous {
        unrequested := unrequested + 1;
        kind := NonePacket;
      } else {
        spontaneous := spontaneous + 1;
        kind := NonePacket;
      }
    }

    /**
      One call of the service loop; `written` is what goes to the serial port: the packets that were queued, those
      of the commands resent in this cycle, in the order of the log, and those of the new commands.
     */
    method Service(cycle: Cycle) returns (written: seq<string>)
      modifies this
      ensures State() == RunCycle(old(State()), clock, cycle)
      ensures !cycle.enabled ==> written == []
      ensures cycle.enabled ==>
                && old(log) <= log && packetsOut == []
                && var n := |written| - |cycle.commands|;
                   && n >= 0 && written[..n] == old(packetsOut) + ResentTexts(log[|old(log)|..])
                   && forall k :: 0 <= k < |cycle.commands| ==> written[n + k] == cycle.commands[k].packet
    {
      hide HandleTimeout, HandleSuccessful, SendAll, ReceiveAll, ResentTexts, RunCycle;
      CycleIs(State(), cycle);
      written := [];
      if !cycle.enabled { return; }
      HandleTimeoutPackets(cycle.maxRetries);
      var resent := WriteOut();
      var sent := SendCommands(cycle.commands);
      written := resent + sent;
      ReceivePackets(cycle.packets);
      HandleSuccessfulPackets();
    }

    lemma CycleIs(s: State, cycle: Cycle)
      ensures !cycle.enabled ==> RunCycle(s, clock, cycle) == s
      ensures cycle.enabled ==>
                && RunCycle(s, clock, cycle) == HandleSuccessful(BeforeSweep(s, clock, cycle))
                && var t, r := HandleTimeout(s, clock, cycle.maxRetries), RunCycle(s, clock, cycle);
                   s.log <= r.log && t.packetsOut == s.packetsOut + ResentTexts(r.log[|s.log|..]) && r.packetsOut == []
    {
      hide HandleTimeout, HandleSuccessful, SendAll, ReceiveAll, ResentTexts;
      if cycle.enabled {
        CycleWrites(s, clock, cycle);
      }
    }

    method WriteOut() returns (written: seq<string>)
      modifies `packetsOut
      ensures written == old(packetsOut) && packetsOut == []
    {
      written := [];
      while packetsOut != []
        invariant written + packetsOut == old(packetsOut)
        decreases |packetsOut|
      {
        written := written + [packetsOut[0]];
        packetsOut := packetsOut[1..];
      }
    }

    method SendCommands(commands: seq<Command>) returns (written: seq<string>)
      modifies this
      ensures State() == SendAll(old(State()), clock, commands)
      ensures |written| == |commands| && forall k :: 0 <= k < |commands| ==> written[k] == commands[k].packet
    {
      hide PacketFilter.AddPacket;
      written := [];
      for i := 0 to |commands|
        invariant |written| == i && forall k :: 0 <= k < i ==> written[k] == commands[k].packet
        invariant SendAll(State(), clock, commands[i..]) == SendAll(old(State()), clock, commands)
      {
        var c := commands[i];
        assert commands[i..][1..] == commands[i + 1..];
        written := written + [c.packet];
        AddPacket(c.address, c.expectedResponse, c.packet, c.kind);
      }
      assert commands[|commands|..] == [];
    }

    method ReceivePackets(packets: seq<Incoming>)
      modifies this
      ensures State() == ReceiveAll(old(State()), clock, packets)
    {
      hide Receive;
      for i := 0 to |packets|
        invariant ReceiveAll(State(), clock, packets[i..]) == ReceiveAll(old(State()), clock, packets)
      {
        assert packets[i..][1..] == packets[i + 1..];
        ReceiveOne(packets[i]);
      }
      assert packets[|packets|..] == [];
    }

    method ReceiveOne(p: Incoming)
      modifies this
      ensures State() == Receive(old(State()), clock, p)
    {
      hide PacketFilter.AddPacket, PacketFilter.MatchResponse;
      var kind := MatchResponse(p.response, p.raw);
      if p.response.Some? {
        ghost var s := State();
        for i := 0 to |p.additional|
          invariant ExpectAll(State(), clock, p.response.value.address, p.additional[i..], kind)
                 == ExpectAll(s, clock, p.response.value.address, p.additional, kind)
        {
          assert p.additional[i..][1..] == p.additional[i + 1..];
          AddPacket(p.response.value.address, p.additional[i], "", kind);
        }
        assert p.additional[|p.additional|..] == [];
      }
    }
  }
}
