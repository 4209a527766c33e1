/**
  What every state of the packet tracker satisfies, however sends, timeouts, responses and sweeps are
  mixed, and whatever the clock does: each command ever sent is accounted for exactly once, each response is
  credited to one filter, and the retry counter tells how often the command was resent.
 */
module PacketTheorems {
  import opened Bytes
  import opened PacketFilter

  // ---------- Counting what became of one command ----------

  ghost function Pending(filters: seq<Filter>, id: nat): nat
  {
    if filters == [] then 0
    else Pending(filters[..|filters| - 1], id) + (if filters[|filters| - 1].id == id then 1 else 0)
  }

  /** How often the command was taken out of the queue for good. */
  ghost function Ended(log: seq<Event>, id: nat): nat
  {
    if log == [] then 0
    else
      var e := log[|log| - 1];
      Ended(log[..|log| - 1], id) + (if e.filter.id == id && !e.Resent? then 1 else 0)
  }

  ghost function Resends(log: seq<Event>, id: nat): nat
  {
    if log == [] then 0
    else
      var e := log[|log| - 1];
      Resends(log[..|log| - 1], id) + (if e.filter.id == id && e.Resent? then 1 else 0)
  }

  lemma {:induction false} PendingSplit(a: seq<Filter>, b: seq<Filter>, id: nat)
    ensures Pending(a + b, id) == Pending(a, id) + Pending(b, id)
    decreases |b|
  {
    if b == [] {
      assert a + b == a;
    } else {
      PendingSplit(a, b[..|b| - 1], id);
      assert (a + b)[..|a + b| - 1] == a + b[..|b| - 1];
    }
  }

  lemma PendingOne(f: Filter, id: nat)
    ensures Pending([f], id) == if f.id == id then 1 else 0
  {
    assert [f][..0] == [];
  }

  lemma {:induction false} PendingPositive(filters: seq<Filter>, i: nat)
    requires i < |filters|
    ensures Pending(filters, filters[i].id) > 0
  {
    if i < |filters| - 1 {
      PendingPositive(filters[..|filters| - 1], i);
    }
  }

  lemma LogOne(log: seq<Event>, e: Event, id: nat)
    ensures Ended(log + [e], id) == Ended(log, id) + (if e.filter.id == id && !e.Resent? then 1 else 0)
    ensures Resends(log + [e], id) == Resends(log, id) + (if e.filter.id == id && e.Resent? then 1 else 0)
  {
    assert (log + [e])[..|log|] == log;
  }

  // ---------- The invariant ----------

  ghost predicate FilterOK(f: Filter)
  {
    && |f.matchedResponses| == |f.matchedAddresses|
    && (!f.IsBroadcast() ==> f.matchedAddresses <= {f.address})
  }

  ghost predicate EventOK(e: Event)
  {
    FilterOK(e.filter) && (e.ExpiredSilently? ==> e.filter.packetString == "")
  }

  /** Every command ever sent is in the queue once or was taken out once; no other ones exist. */
  ghost predicate Accounted(s: State, id: nat)
  {
    && Pending(s.filters, id) + Ended(s.log, id) == (if id < s.sent then 1 else 0)
    && (id >= s.sent ==> Resends(s.log, id) == 0)
  }

  ghost predicate Good(s: State)
  {
    && (forall i :: 0 <= i < |s.filters| ==>
          FilterOK(s.filters[i]) && Resends(s.log, s.filters[i].id) == s.filters[i].retries)
    && (forall i :: 0 <= i < |s.log| ==> EventOK(s.log[i]))
    && (forall id :: Accounted(s, id))
    && s.sent == |s.filters| + s.successful + s.dropped + s.expired
  }

  /** With `max_retries` fixed, no command is resent more often than that, or dropped after fewer tries. */
  ghost predicate WithinRetries(s: State, maxRetries: Byte)
  {
    && (forall i :: 0 <= i < |s.filters| ==> s.filters[i].retries <= maxRetries)
    && (forall id :: Resends(s.log, id) <= maxRetries)
    && (forall i :: 0 <= i < |s.log| && s.log[i].Dropped? ==> s.log[i].filter.retries == maxRetries)
  }

  /** Filters in the queue have distinct ids. */
  lemma DistinctIds(s: State, i: nat, j: nat)
    requires Good(s) && i < j < |s.filters|
    ensures s.filters[i].id != s.filters[j].id
  {
    var id := s.filters[i].id;
    assert s.filters == s.filters[..j] + s.filters[j..];
    PendingSplit(s.filters[..j], s.filters[j..], id);
    PendingPositive(s.filters[..j], i);
    assert Accounted(s, id);
    if s.filters[j].id == id {
      PendingPositive(s.filters[j..], 0);
    }
  }

  lemma Known(s: State, i: nat)
    requires Good(s) && i < |s.filters|
    ensures s.filters[i].id < s.sent && Pending(s.filters, s.filters[i].id) == 1
  {
    PendingPositive(s.filters, i);
    assert Accounted(s, s.filters[i].id);
  }

  // ---------- Each operation keeps it ----------

  lemma AddKeepsGood(s: State, clock: Clock, address: Byte, filter: string, packet: string, kind: PacketType)
    requires Good(s)
    ensures Good(AddPacket(s, clock, address, filter, packet, kind))
  {
    var r := AddPacket(s, clock, address, filter, packet, kind);
    var f := r.filters[|s.filters|];
    forall id ensures Accounted(r, id) {
      assert Accounted(s, id);
      PendingSplit(s.filters, [f], id);
      PendingOne(f, id);
    }
    assert Accounted(s, s.sent);
  }

  /** Taking the head out, whatever it is counted as. */
  lemma PopAccounted(s: State, r: State, e: Event, id: nat)
    requires Good(s) && s.filters != [] && e.filter == s.filters[0] && !e.Resent?
    requires r.filters == s.filters[1..] && r.log == s.log + [e] && r.sent == s.sent
    ensures Accounted(r, id)
  {
    assert Accounted(s, id);
    assert s.filters == [s.filters[0]] + s.filters[1..];
    PendingSplit([s.filters[0]], s.filters[1..], id);
    PendingOne(s.filters[0], id);
    LogOne(s.log, e, id);
  }

  lemma ResendAccounted(s: State, r: State, e: Event, id: nat)
    requires Good(s) && s.filters != [] && e.filter == s.filters[0] && e.Resent?
    requires |r.filters| == |s.filters| && r.filters[..|r.filters| - 1] == s.filters[1..]
    requires r.filters[|r.filters| - 1].id == s.filters[0].id
    requires r.log == s.log + [e] && r.sent == s.sent
    ensures Accounted(r, id)
  {
    assert Accounted(s, id);
    assert s.filters == [s.filters[0]] + s.filters[1..];
    PendingSplit([s.filters[0]], s.filters[1..], id);
    PendingOne(s.filters[0], id);
    LogOne(s.log, e, id);
    Known(s, 0);
  }

  lemma TimeoutStepKeepsGood(s: State, clock: Clock, maxRetries: Byte, now: Time)
    requires Good(s) && s.filters != []
    ensures Good(TimeoutStep(s, clock, maxRetries, now))
  {
    hide Pending, Ended, Resends, FilterOK, EventOK, Accounted;
    var r := TimeoutStep(s, clock, maxRetries, now);
    var e := r.log[|s.log|];
    Known(s, 0);
    TimeoutFilterOK(s, clock, maxRetries, now);
    forall id ensures Accounted(r, id) {
      if e.Resent? {
        ResendAccounted(s, r, e, id);
      } else {
        PopAccounted(s, r, e, id);
      }
    }
    forall i | 0 <= i < |r.filters|
      ensures FilterOK(r.filters[i]) && Resends(r.log, r.filters[i].id) == r.filters[i].retries
    {
      LogOne(s.log, e, r.filters[i].id);
      if i < |s.filters| - 1 {
        assert r.filters[i] == s.filters[i + 1];
        DistinctIds(s, 0, i + 1);
      }
    }
    forall i | 0 <= i < |r.log| ensures EventOK(r.log[i]) {
      if i < |s.log| {
        assert r.log[i] == s.log[i];
      }
    }
  }

  /** The filter and the log entry a timeout leaves behind. */
  lemma TimeoutFilterOK(s: State, clock: Clock, maxRetries: Byte, now: Time)
    requires s.filters != [] && FilterOK(s.filters[0])
    ensures var r := TimeoutStep(s, clock, maxRetries, now);
            && |r.log| == |s.log| + 1 && r.log[..|s.log|] == s.log
            && r.log[|s.log|].filter == s.filters[0]
            && EventOK(r.log[|s.log|])
            && (r.log[|s.log|].Resent? ==>
                  var again := r.filters[|s.filters| - 1];
                  FilterOK(again) && again.id == s.filters[0].id && again.retries == s.filters[0].retries + 1)
  {
  }

  /** The whole timeout pass keeps the invariant, for every clock. */
  lemma {:induction false} TimeoutKeepsGood(s: State, clock: Clock, maxRetries: Byte)
    requires Good(s)
    ensures Good(HandleTimeout(s, clock, maxRetries))
    decreases Budget(s.filters, maxRetries)
  {
    hide Good, TimeoutStep;
    if s.filters != [] {
      var now := clock(s.ticks);
      var s' := s.(ticks := s.ticks + 1);
      ReadKeepsGood(s);
      if s.filters[0].Expired(now) {
        BudgetStep(s', clock, maxRetries, now);
        TimeoutStepKeepsGood(s', clock, maxRetries, now);
        TimeoutKeepsGood(TimeoutStep(s', clock, maxRetries, now), clock, maxRetries);
      }
    }
  }

  lemma ReadKeepsGood(s: State)
    requires Good(s)
    ensures Good(s.(ticks := s.ticks + 1))
  {
    var r := s.(ticks := s.ticks + 1);
    forall id ensures Accounted(r, id) {
      assert Accounted(s, id);
    }
  }

  lemma {:induction false} PendingReplaced(filters: seq<Filter>, i: nat, f: Filter, id: nat)
    requires i < |filters| && f.id == filters[i].id
    ensures Pending(filters[i := f], id) == Pending(filters, id)
  {
    var k := |filters| - 1;
    if i < k {
      PendingReplaced(filters[..k], i, f, id);
      assert filters[i := f][..k] == filters[..k][i := f];
    } else {
      assert filters[i := f][..k] == filters[..k];
    }
  }

  /** Crediting a response does not change the accounting, and each address counts once. */
  lemma CreditKeepsGood(s: State, i: nat, r: Response, raw: string)
    requires Good(s) && i < |s.filters| && s.filters[i].Matches(r.address, raw)
    ensures Good(s.(filters := s.filters[i := Credit(s.filters[i], r)]))
  {
    hide Pending, Resends, Ended, EventOK, Contains;
    var f := Credit(s.filters[i], r);
    var t := s.(filters := s.filters[i := f]);
    assert FilterOK(f);
    forall id ensures Accounted(t, id) {
      assert Accounted(s, id);
      PendingReplaced(s.filters, i, f, id);
    }
  }

  lemma CountersKeepGood(s: State, t: State)
    requires Good(s) && t == s.(unrequested := t.unrequested, spontaneous := t.spontaneous)
    ensures Good(t)
  {
    forall id ensures Accounted(t, id) {
      assert Accounted(s, id);
    }
  }

  lemma MatchKeepsGood(s: State, response: Option<Response>, raw: string)
    requires Good(s)
    ensures Good(MatchResponse(s, response, raw).0)
  {
    hide Good;
    var i := if response.Some? then FirstMatch(s.filters, response.value.address, raw) else |s.filters|;
    if i < |s.filters| {
      CreditKeepsGood(s, i, response.value, raw);
    } else {
      CountersKeepGood(s, MatchResponse(s, response, raw).0);
    }
  }

  // ---------- The sweep ----------

  /** The state half way through a sweep, with the filters not yet examined put back. */
  ghost function Midway(s: State, k: nat): State
    requires k <= |s.filters|
  {
    var r := SweepUpTo(s, k);
    r.(filters := r.filters + s.filters[k..])
  }

  /** One more filter examined: the sweep's position either stays, with the filter gone, or moves on. */
  lemma MidwayStep(s: State, k: nat)
    requires k < |s.filters|
    ensures var m := Midway(s, k);
            var it := |SweepUpTo(s, k).filters|;
            && it < |m.filters|
            && (if Finished(m.filters[it]) then
                  && |SweepUpTo(s, k + 1).filters| == it
                  && Midway(s, k + 1) == m.(filters := m.filters[..it] + m.filters[it + 1..],
                                            successful := m.successful + 1, log := m.log + [Succeeded(m.filters[it])])
                else |SweepUpTo(s, k + 1).filters| == it + 1 && Midway(s, k + 1) == m)
  {
    var r, m := SweepUpTo(s, k), Midway(s, k);
    var it := |r.filters|;
    assert s.filters[k..] == [s.filters[k]] + s.filters[k + 1..];
    assert m.filters[it] == s.filters[k];
    assert m.filters[..it] == r.filters && m.filters[it + 1..] == s.filters[k + 1..];
  }

  lemma {:induction false} SweepShape(s: State, k: nat)
    requires k <= |s.filters|
    ensures var r := SweepUpTo(s, k);
            && r.sent == s.sent && r.ticks == s.ticks && r.dropped == s.dropped && r.expired == s.expired
            && |r.filters| <= k
            && forall i :: 0 <= i < |r.filters| ==> !Finished(r.filters[i])
    decreases k
  {
    if k > 0 {
      SweepShape(s, k - 1);
    }
  }

  lemma {:induction false} SweepKeepsGood(s: State, k: nat)
    requires Good(s) && k <= |s.filters|
    ensures Good(Midway(s, k))
    decreases k
  {
    if k == 0 {
      assert Midway(s, 0) == s by { assert s.filters[0..] == s.filters; }
    } else {
      SweepKeepsGood(s, k - 1);
      SweepShape(s, k - 1);
      SweepStepKeepsGood(s, k);
    }
  }

  lemma SweepStepKeepsGood(s: State, k: nat)
    requires 0 < k <= |s.filters| && Good(Midway(s, k - 1))
    ensures Good(Midway(s, k))
  {
    hide Pending, Ended, Resends, FilterOK, Accounted, Finished, EventOK;
    var m, r := Midway(s, k - 1), Midway(s, k);
    var a, f, b := SweepUpTo(s, k - 1).filters, s.filters[k - 1], s.filters[k..];
    assert s.filters[k - 1..] == [f] + b;
    assert m.filters == a + [f] + b && m.filters[|a|] == f;
    if !Finished(f) {
      assert r == m;
    } else {
      var e := Succeeded(f);
      assert r.filters == a + b && r.log == m.log + [e];
      assert EventOK(e) by { SucceededOK(f); }
      forall i | 0 <= i < |r.filters|
        ensures FilterOK(r.filters[i]) && Resends(r.log, r.filters[i].id) == r.filters[i].retries
      {
        LogOne(m.log, e, r.filters[i].id);
        assert r.filters[i] == m.filters[if i < |a| then i else i + 1];
      }
      forall id ensures Accounted(r, id) {
        TakenOutAccounted(m, r, a, f, b, id);
      }
    }
  }

  lemma SucceededOK(f: Filter)
    requires FilterOK(f)
    ensures EventOK(Succeeded(f))
  {
  }

  lemma TakenOutAccounted(m: State, r: State, a: seq<Filter>, f: Filter, b: seq<Filter>, id: nat)
    requires Accounted(m, id) && m.filters == a + [f] + b && r.filters == a + b
    requires r.log == m.log + [Succeeded(f)] && r.sent == m.sent
    ensures Accounted(r, id)
  {
    PendingSplit(a + [f], b, id);
    PendingSplit(a, [f], id);
    PendingSplit(a, b, id);
    PendingOne(f, id);
    LogOne(m.log, Succeeded(f), id);
  }

  lemma SuccessKeepsGood(s: State)
    requires Good(s)
    ensures Good(HandleSuccessful(s))
    ensures forall i :: 0 <= i < |HandleSuccessful(s).filters| ==> !Finished(HandleSuccessful(s).filters[i])
  {
    SweepKeepsGood(s, |s.filters|);
    SweepShape(s, |s.filters|);
    assert Midway(s, |s.filters|) == HandleSuccessful(s);
  }
}
