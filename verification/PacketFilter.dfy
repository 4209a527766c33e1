/**
  The retransmission queue of the packet tracker as plain data, and what each tracker operation does
  to it.  Time is an arbitrary function `clock` from the number of readings taken so far to
  milliseconds.  `id`, `tFirst`, `expired` and `log` are history the program does not keep: which
  command a filter stands for, when it was first sent, and what became of it.
 */
module PacketFilter {
  import opened Bytes

  const PACKET_TIMEOUT: nat := 601
  const BROADCAST: Byte := 0xFF

  const TWO_64: nat := 0x1_0000_0000_0000_0000

  /** A `uint64_t` of milliseconds. */
  type Time = t: nat | t < TWO_64

  type Clock = nat -> Time

  ghost predicate Monotone(clock: Clock)
  {
    forall i: nat, j: nat {:trigger clock(i), clock(j)} :: i <= j ==> clock(i) <= clock(j)
  }

  datatype PacketType = DefaultPacket | PollPacket | TopoPacket | DebugPacket | CliPacket | NonePacket

  datatype Filter = Filter(
    address: Byte, responseFilter: string, kind: PacketType, packetString: string,
    tSent: Time, retries: Byte, matchedResponses: seq<string>, matchedAddresses: set<Byte>,
    id: nat, tFirst: Time)
  {
    predicate IsBroadcast() { address == BROADCAST }

    predicate ExpectsResponse() { responseFilter != "" }

    /** `num_responses` returns a byte. */
    function NumResponses(): Byte { |matchedResponses| % 256 }

    /** The difference is taken in 64 bits: a clock that has stepped back expires the filter at once. */
    predicate Expired(now: Time) { (now - tSent) % TWO_64 > PACKET_TIMEOUT }

    predicate Matches(from: Byte, packet: string)
    {
      && (IsBroadcast() || from == address)
      && from !in matchedAddresses
      && Contains(packet, responseFilter)
    }

    predicate Answered() { !IsBroadcast() && NumResponses() > 0 }
  }

  /** `part` occurs in `whole`, as `std::string::find` decides. */
  predicate Contains(whole: string, part: string)
  {
    exists i :: 0 <= i <= |whole| && part <= whole[i..]
  }

  /** What became of a filter; `time` is the clock reading that found it timed out. */
  datatype Event =
    | Resent(filter: Filter, time: Time)
    | Dropped(filter: Filter, time: Time)
    | ExpiredSilently(filter: Filter, time: Time)
    | Succeeded(filter: Filter)

  datatype Response = Response(address: Byte, packet: string, spontaneous: bool)

  datatype State = State(
    filters: seq<Filter>, packetsOut: seq<string>,
    sent: nat, successful: nat, dropped: nat, retried: nat, unrequested: nat, spontaneous: nat,
    lastDropped: string, ticks: nat, expired: nat, log: seq<Event>)

  const INIT := State([], [], 0, 0, 0, 0, 0, 0, "", 0, 0, [])

  // ---------- Sending ----------

  function AddPacket(s: State, clock: Clock, address: Byte, filter: string, packet: string, kind: PacketType): State
  {
    var now := clock(s.ticks);
    s.(filters := s.filters + [Filter(address, filter, kind, packet, now, 0, [], {}, s.sent, now)],
       sent := s.sent + 1,
       ticks := s.ticks + 1)
  }

  // ---------- Timeouts ----------

  /** How often the queue can still be popped: each filter once, plus its remaining tries. */
  function Budget(filters: seq<Filter>, maxRetries: Byte): nat
  {
    if filters == [] then 0
    else
      Budget(filters[..|filters| - 1], maxRetries) + Tries(filters[|filters| - 1], maxRetries)
  }

  function Tries(f: Filter, maxRetries: Byte): nat
  {
    if f.retries < maxRetries then 1 + (maxRetries - f.retries) else 1
  }

  /** What happens to a timed-out filter at the head of the queue. */
  function TimeoutStep(s: State, clock: Clock, maxRetries: Byte, now: Time): (r: State)
    requires s.filters != []
  {
    var f := s.filters[0];
    var rest := s.filters[1..];
    if f.IsBroadcast() && f.NumResponses() > 0 then
      s.(filters := rest, successful := s.successful + 1, log := s.log + [Succeeded(f)])
    else if f.retries >= maxRetries then
      s.(filters := rest, dropped := s.dropped + 1, lastDropped := f.packetString,
         log := s.log + [Dropped(f, now)])
    else if f.packetString != "" then
      var again := f.(retries := (f.retries + 1) % 256, tSent := clock(s.ticks));
      s.(filters := rest + [again], packetsOut := s.packetsOut + [f.packetString],
         retried := s.retried + 1, ticks := s.ticks + 1, log := s.log + [Resent(f, now)])
    else
      s.(filters := rest, expired := s.expired + 1, log := s.log + [ExpiredSilently(f, now)])
  }

  function HandleTimeout(s: State, clock: Clock, maxRetries: Byte): State
    decreases Budget(s.filters, maxRetries)
  {
    if s.filters == [] then s
    else
      var now := clock(s.ticks);
      var s' := s.(ticks := s.ticks + 1);
      if !s.filters[0].Expired(now) then s'
      else
        BudgetStep(s', clock, maxRetries, now);
        HandleTimeout(TimeoutStep(s', clock, maxRetries, now), clock, maxRetries)
  }

  lemma {:induction false} BudgetSplit(a: seq<Filter>, b: seq<Filter>, maxRetries: Byte)
    ensures Budget(a + b, maxRetries) == Budget(a, maxRetries) + Budget(b, maxRetries)
    decreases |b|
  {
    if b == [] {
      assert a + b == a;
    } else {
      BudgetSplit(a, b[..|b| - 1], maxRetries);
      assert (a + b)[..|a + b| - 1] == a + b[..|b| - 1];
    }
  }

  /** Every timeout uses up one try, whatever the clock does. */
  lemma BudgetStep(s: State, clock: Clock, maxRetries: Byte, now: Time)
    requires s.filters != []
    ensures Budget(TimeoutStep(s, clock, maxRetries, now).filters, maxRetries) < Budget(s.filters, maxRetries)
  {
    var f, rest := s.filters[0], s.filters[1..];
    assert s.filters == [f] + rest;
    BudgetSplit([f], rest, maxRetries);
    assert [f][..0] == [] && Budget([f], maxRetries) == Tries(f, maxRetries);
    var r := TimeoutStep(s, clock, maxRetries, now);
    if |r.filters| == |s.filters| {
      var again := r.filters[|rest|];
      BudgetSplit(rest, [again], maxRetries);
      assert [again][..0] == [];
    }
  }

  // ---------- Responses ----------

  /** The position of the oldest filter that matches, or the length of the queue. */
  function FirstMatch(filters: seq<Filter>, from: Byte, packet: string): (i: nat)
    ensures i <= |filters|
    ensures i < |filters| ==> filters[i].Matches(from, packet)
    ensures forall j :: 0 <= j < i ==> !filters[j].Matches(from, packet)
  {
    if filters == [] || filters[0].Matches(from, packet) then 0
    else 1 + FirstMatch(filters[1..], from, packet)
  }

  function Credit(f: Filter, r: Response): Filter
  {
    f.(matchedResponses := f.matchedResponses + [r.packet], matchedAddresses := f.matchedAddresses + {r.address})
  }

  /** The new state, and the type of the matched command. */
  function MatchResponse(s: State, response: Option<Response>, raw: string): (State, PacketType)
  {
    match response
    case None => (s.(unrequested := s.unrequested + 1), NonePacket)
    case Some(r) =>
      var i := FirstMatch(s.filters, r.address, raw);
      if i < |s.filters| then
        (s.(filters := s.filters[i := Credit(s.filters[i], r)]), s.filters[i].kind)
      else if !r.spontaneous then (s.(unrequested := s.unrequested + 1), NonePacket)
      else (s.(spontaneous := s.spontaneous + 1), NonePacket)
  }

  // ---------- Clearing what succeeded ----------

  /** Whether `handle_successful_packets` takes the filter out. */
  predicate Finished(f: Filter)
  {
    !f.ExpectsResponse() || f.Answered()
  }

  /** The first `k` filters examined: those finished are out of the queue and counted. */
  function SweepUpTo(s: State, k: nat): State
    requires k <= |s.filters|
  {
    if k == 0 then s.(filters := [])
    else
      var r := SweepUpTo(s, k - 1);
      var f := s.filters[k - 1];
      if Finished(f) then
        r.(successful := r.successful + 1, log := r.log + [Succeeded(f)])
      else r.(filters := r.filters + [f])
  }

  function HandleSuccessful(s: State): State
  {
    SweepUpTo(s, |s.filters|)
  }
}
