/**
  Debouncing of the addresses a module reports for its downstream ports, against a plain definition over
  the whole history of reports.
 */
module Debounce {
  import opened Bytes

  const TOPOLOGY_CONSISTENCY_COUNT: nat := 3
  const NO_MODULE: Byte := 0xFF
  const NO_NAME: string := "N/A"

  datatype Port = Port(addrCurrent: Byte, addrDiff: Byte, consistencyCount: Byte, name: string)

  const EMPTY_PORT := Port(NO_MODULE, NO_MODULE, 0, NO_NAME)

  /** What a module asks for while it is unsure. */
  datatype Query = PortNames | Topology

  // ---------- The plain definition ----------

  /** The current address, and the reports that differed from it since it became current. */
  datatype Settled = Settled(current: Byte, differing: seq<Byte>)

  /** The last four are all `a`. */
  predicate Agreed(reports: seq<Byte>, a: Byte)
  {
    |reports| >= 4 && forall i :: |reports| - 4 <= i < |reports| ==> reports[i] == a
  }

  function Settle(s: Settled, a: Byte): Settled
  {
    if a == s.current then s
    else if Agreed(s.differing + [a], a) then Settled(a, [])
    else s.(differing := s.differing + [a])
  }

  /** After a whole history of reports about a port that starts out empty. */
  function After(reports: seq<Byte>): Settled
  {
    if reports == [] then Settled(NO_MODULE, [])
    else Settle(After(reports[..|reports| - 1]), reports[|reports| - 1])
  }

  // ---------- One report ----------

  /** The port after a report, and whether its address has changed. */
  function Report(p: Port, a: Byte): (Port, bool)
  {
    if a == p.addrCurrent then (p, false)
    else if a != p.addrDiff then (p.(addrDiff := a, consistencyCount := 0), false)
    else
      var count := (p.consistencyCount + 1) % 256;
      if count == TOPOLOGY_CONSISTENCY_COUNT then (p.(addrCurrent := a, addrDiff := a, consistencyCount := count), true)
      else (p.(consistencyCount := count), false)
  }

  /** How many of the last reports are `a`. */
  function Run(reports: seq<Byte>, a: Byte): nat
  {
    if reports == [] || reports[|reports| - 1] != a then 0 else 1 + Run(reports[..|reports| - 1], a)
  }

  lemma {:induction false} RunMeans(reports: seq<Byte>, a: Byte)
    ensures Run(reports, a) <= |reports|
    ensures forall i :: |reports| - Run(reports, a) <= i < |reports| ==> reports[i] == a
    ensures Run(reports, a) < |reports| ==> reports[|reports| - Run(reports, a) - 1] != a
  {
    if reports != [] && reports[|reports| - 1] == a {
      RunMeans(reports[..|reports| - 1], a);
    }
  }

  lemma AgreedIsRun(reports: seq<Byte>, a: Byte)
    ensures Agreed(reports, a) <==> Run(reports, a) >= 4
  {
    RunMeans(reports, a);
  }

  /** How the counter of a port stands for the reports it has seen. */
  predicate Counts(p: Port, s: Settled)
  {
    && p.addrCurrent == s.current
    && if s.differing == []
       then p.addrDiff == p.addrCurrent && p.consistencyCount <= 3
       else
         && p.addrDiff == s.differing[|s.differing| - 1] != s.current
         && p.consistencyCount + 1 == Run(s.differing, p.addrDiff) <= 3
  }

  lemma ReportSettles(p: Port, s: Settled, a: Byte)
    requires Counts(p, s)
    ensures Counts(Report(p, a).0, Settle(s, a))
    ensures Report(p, a).1 <==> Settle(s, a).current != s.current
    ensures Report(p, a).0.consistencyCount <= 3
  {
    if a != s.current {
      var more := s.differing + [a];
      assert more[..|more| - 1] == s.differing;
      AgreedIsRun(more, a);
      assert Run(more, a) == 1 + Run(s.differing, a);
      if s.differing == [] {
        assert Run(s.differing, a) == 0;
      }
    }
  }

  /**
    A report leaves the module unsure if it differs from the current address, repeats the last report that did,
    and is still not enough.
   */
  predicate Unsure(s: Settled, a: Byte)
  {
    a != s.current && s.differing != [] && s.differing[|s.differing| - 1] == a && !Agreed(s.differing + [a], a)
  }

  lemma UnsureIs(p: Port, s: Settled, a: Byte)
    requires Counts(p, s)
    ensures Unsure(s, a) <==> a != p.addrCurrent && a == p.addrDiff && !Report(p, a).1
  {
    ReportSettles(p, s, a);
    if a != s.current && Agreed(s.differing + [a], a) {
      assert (s.differing + [a])[|s.differing| - 1] == a;
    }
  }

  // ---------- All ports of a module ----------

  /** A port that is not in the list yet is empty and has no name. */
  function PortIn(ports: seq<Port>, i: nat): Port
  {
    if i < |ports| then ports[i] else EMPTY_PORT
  }

  datatype Incoming = Incoming(ind: Byte, addr: Byte)

  /** What the history says about one port. */
  function About(history: seq<Incoming>, ind: nat): seq<Byte>
  {
    if history == [] then []
    else
      var last := history[|history| - 1];
      About(history[..|history| - 1], ind) + if last.ind == ind then [last.addr] else []
  }

  /** One more report is about its own port only. */
  lemma AboutMore(history: seq<Incoming>, e: Incoming)
    ensures About(history + [e], e.ind) == About(history, e.ind) + [e.addr]
    ensures forall i {:trigger About(history + [e], i)} :: i != e.ind ==> About(history + [e], i) == About(history, i)
  {
    assert (history + [e])[..|history|] == history;
  }

  lemma AfterMore(reports: seq<Byte>, a: Byte)
    ensures After(reports + [a]) == Settle(After(reports), a)
  {
    assert (reports + [a])[..|reports|] == reports;
  }

  class Module {
    var downstreamList: seq<Port>
    var commands: seq<Query>
    ghost var history: seq<Incoming>

    /** Every port stands as the reports about it say; there are no reports about ports not in the list. */
    ghost predicate Valid()
      reads this
    {
      && (forall i {:trigger downstreamList[i]} :: 0 <= i < |downstreamList| ==>
         Counts(downstreamList[i], After(About(history, i))))
      && (forall i {:trigger About(history, i)} :: i >= |downstreamList| ==> About(history, i) == [])
    }

    constructor ()
      ensures Valid() && downstreamList == [] && history == [] && commands == []
    {
      downstreamList, commands, history := [], [], [];
    }

    /** Makes room for port `ind`; the ports before it are left as they are. */
    method MakeRoom(ind: Byte)
      requires Valid()
      modifies `downstreamList
      ensures Valid() && |downstreamList| >= |old(downstreamList)|
      ensures |downstreamList| == if ind < |old(downstreamList)| then |old(downstreamList)| else ind as int + 1
      ensures downstreamList == old(downstreamList) + seq(|downstreamList| - |old(downstreamList)|, _ => EMPTY_PORT)
    {
      if ind >= |downstreamList| {
        downstreamList := downstreamList + seq(ind + 1 - |downstreamList|, _ => EMPTY_PORT);
        assert Counts(EMPTY_PORT, After([]));
      }
    }

    /** A report about one port: `changed` exactly when the address of that port is a new one now. */
    method UpdateDownstream(ind: Byte, nodeAddr: Byte) returns (changed: bool)
      requires Valid()
      modifies this
      ensures Valid() && history == old(history) + [Incoming(ind, nodeAddr)]
      ensures |downstreamList| > ind
      ensures downstreamList[ind].addrCurrent == After(About(history, ind)).current
      ensures changed <==> After(About(history, ind)).current != After(About(old(history), ind)).current
      ensures |downstreamList| == if ind < |old(downstreamList)| then |old(downstreamList)| else ind as int + 1
      ensures downstreamList[ind].name == PortIn(old(downstreamList), ind).name
      ensures forall i :: 0 <= i < |downstreamList| && i != ind ==> downstreamList[i] == PortIn(old(downstreamList), i)
      ensures commands == old(commands)
                          + (if PortIn(old(downstreamList), ind).name == NO_NAME then [PortNames] else [])
                          + (if Unsure(After(About(old(history), ind)), nodeAddr) then [Topology] else [])
    {
      hide Run, After, Counts, About, Unsure;
      MakeRoom(ind);
      ghost var before := About(history, ind);
      UnsureIs(downstreamList[ind], After(before), nodeAddr);
      if downstreamList[ind].name == NO_NAME {
        commands := commands + [PortNames];
      }
      var downstream := downstreamList[ind];
      ghost var port := downstream;
      changed := false;
      if nodeAddr != downstream.addrCurrent {
        if nodeAddr != downstream.addrDiff {
          downstream := downstream.(addrDiff := nodeAddr, consistencyCount := 0);
        } else {
          downstream := downstream.(consistencyCount := (downstream.consistencyCount + 1) % 256);
          if downstream.consistencyCount == TOPOLOGY_CONSISTENCY_COUNT {
            downstream := downstream.(addrCurrent := nodeAddr, addrDiff := nodeAddr);
            changed := true;
          } else {
            commands := commands + [Topology];
          }
        }
        downstreamList := downstreamList[ind := downstream];
      }
      assert (downstream, changed) == Report(port, nodeAddr);
      Noted(ind, nodeAddr, port, before);
    }

    /** The report enters the history: only the one port's reports grow. */
    ghost method Noted(ind: Byte, nodeAddr: Byte, port: Port, before: seq<Byte>)
      requires ind < |downstreamList| && before == About(history, ind) && Counts(port, After(before))
      requires downstreamList[ind] == Report(port, nodeAddr).0
      requires forall i {:trigger downstreamList[i]} :: 0 <= i < |downstreamList| && i != ind ==>
               Counts(downstreamList[i], After(About(history, i)))
      requires forall i {:trigger About(history, i)} :: i >= |downstreamList| ==> About(history, i) == []
      modifies `history
      ensures Valid() && history == old(history) + [Incoming(ind, nodeAddr)]
      ensures downstreamList[ind].addrCurrent == After(About(history, ind)).current
      ensures Report(port, nodeAddr).1 <==> After(About(history, ind)).current != After(before).current
    {
      hide Run, Report, Settle, Counts, About, After;
      AboutMore(history, Incoming(ind, nodeAddr));
      history := history + [Incoming(ind, nodeAddr)];
      AfterMore(before, nodeAddr);
      ReportSettles(port, After(before), nodeAddr);
      CountsCurrent(Report(port, nodeAddr).0, After(before + [nodeAddr]));
    }

    lemma CountsCurrent(p: Port, s: Settled)
      requires Counts(p, s)
      ensures p.addrCurrent == s.current
    {
    }

    /** Naming a port changes nothing about its address. */
    method SetDownstreamName(ind: Byte, name: string)
      requires Valid()
      modifies `downstreamList
      ensures Valid() && |downstreamList| > ind && downstreamList[ind].name == name
      ensures |downstreamList| == if ind < |old(downstreamList)| then |old(downstreamList)| else ind as int + 1
      ensures forall i :: 0 <= i < |downstreamList| ==>
                downstreamList[i] == if i == ind then PortIn(old(downstreamList), i).(name := name)
                                     else PortIn(old(downstreamList), i)
    {
      hide Run, After, About;
      MakeRoom(ind);
      downstreamList := downstreamList[ind := downstreamList[ind].(name := name)];
    }
  }

  // ---------- What the plain definition promises ----------

  /** A report equal to the current address neither helps nor resets. */
  lemma RepeatsAreIgnored(reports: seq<Byte>)
    ensures After(reports + [After(reports).current]) == After(reports)
  {
    assert (reports + [After(reports).current])[..|reports|] == reports;
  }

  /**
    After any reports: the address changes with the next report exactly when that report differs from it and
    so do the last three that differed since the previous change, and all four agree.  It never comes late:
    the reports that have differed since the previous change do not end in four equal ones.
   */
  lemma {:induction false} ChangesIff(reports: seq<Byte>, a: Byte)
    ensures var s := After(reports);
            (After(reports + [a]).current != s.current
             <==> a != s.current && |s.differing| >= 3 &&
                  forall i :: |s.differing| - 3 <= i < |s.differing| ==> s.differing[i] == a)
    ensures After(reports + [a]).current in {After(reports).current, a}
    ensures After(reports).current !in After(reports).differing
    ensures forall b :: !Agreed(After(reports).differing, b)
  {
    DifferingDiffers(reports);
    assert (reports + [a])[..|reports|] == reports;
    var s := After(reports);
    var more := s.differing + [a];
    if a != s.current && Agreed(more, a) {
      forall i | |s.differing| - 3 <= i < |s.differing|
        ensures s.differing[i] == a
      {
        assert more[i] == a;
      }
    }
  }

  /** The differing reports are all differing, and never agree already. */
  lemma {:induction false} DifferingDiffers(reports: seq<Byte>)
    ensures After(reports).current !in After(reports).differing
    ensures forall a :: !Agreed(After(reports).differing, a)
    decreases |reports|
  {
    if reports != [] {
      DifferingDiffers(reports[..|reports| - 1]);
      var s := After(reports[..|reports| - 1]);
      var a := reports[|reports| - 1];
      AgreedLast(s.differing + [a]);
    }
  }

  lemma AgreedLast(reports: seq<Byte>)
    ensures forall a :: Agreed(reports, a) ==> reports[|reports| - 1] == a
  {
  }
}
