/**
  Where each module hangs.  Following one module through the history, by itself, gives the parent and the
  port fields that the tracker records for it.
 */
module TopologyPlaces {
  import opened Bytes
  import opened TopologyGraph
  import opened TopologyUpdates
  import opened TopologyNode
  import opened TopologyTracker

  /** Every recorded module has port fields and hangs below a recorded one or the root. */
  ghost predicate Matched(t: Topology)
  {
    && t.parents.Keys == t.tags.Keys && ROOT !in t.parents
    && forall b :: b in t.parents ==> t.parents[b] == ROOT || t.parents[b] in t.parents
  }

  /** `b` is recorded below `parent`, with these port fields. */
  predicate HangsAt(t: Topology, b: Byte, parent: Byte, id: Byte, name: string)
  {
    b in t.parents && b in t.tags && t.parents[b] == parent && t.tags[b] == PortTag(id, name)
  }

  /** `b` hangs where it did, or is as unknown as it was. */
  predicate Untouched(t: Topology, r: Topology, b: Byte)
  {
    && (b in r.parents <==> b in t.parents) && (b in r.tags <==> b in t.tags)
    && (b in t.parents && b in r.parents ==> r.parents[b] == t.parents[b])
    && (b in t.tags && b in r.tags ==> r.tags[b] == t.tags[b])
  }

  predicate Names(ports: seq<Port>, b: Byte)
  {
    exists i :: 0 <= i < |ports| && ports[i].addrCurrent == b
  }

  /** The first port that names `b`. */
  function PortOf(ports: seq<Port>, b: Byte): (i: nat)
    requires Names(ports, b)
    ensures i < |ports| && ports[i].addrCurrent == b && forall j :: 0 <= j < i ==> ports[j].addrCurrent != b
  {
    if ports[0].addrCurrent == b then 0
    else
      assert Names(ports[1..], b) by {
        var i :| 0 <= i < |ports| && ports[i].addrCurrent == b;
        assert ports[1..][i - 1].addrCurrent == b;
      }
      1 + PortOf(ports[1..], b)
  }

  // ---------- One update ----------

  /** A module that is added leaves everybody else alone, and itself as well if it is recorded already. */
  lemma AddedPlaces(t: Topology, a: Byte, ports: seq<Port>)
    requires Matched(t) && a != ROOT
    ensures var r := Apply(t, Update(ModuleAdded, a, Some(ports)));
            && Matched(r)
            && (forall b :: b != a || b in t.parents ==> Untouched(t, r, b))
            && (a !in t.parents ==> HangsAt(r, a, ROOT, 0xFF, ""))
  {
  }

  lemma {:induction false} PortsMatched(t: Topology, n: Byte, ports: seq<Port>, k: nat)
    requires Matched(t) && n in t.parents && k <= |ports|
    ensures Matched(AttachPorts(t, n, ports, k)) && n in AttachPorts(t, n, ports, k).parents
    decreases k
  {
    if k > 0 {
      PortsMatched(t, n, ports, k - 1);
    }
  }

  /** The first `k` ports of a report move `b` if one of them names it, unless it is there already. */
  lemma {:induction false} PortsPlace(t: Topology, n: Byte, ports: seq<Port>, k: nat, b: Byte)
    requires Matched(t) && n in t.parents && k <= |ports|
    ensures var r := AttachPorts(t, n, ports, k);
            if b == ROOT || !Names(ports[..k], b) || (b in t.parents && t.parents[b] == n) then Untouched(t, r, b)
            else HangsAt(r, b, n, PortOf(ports[..k], b) % 256, ports[PortOf(ports[..k], b)].name)
    decreases k
  {
    hide Names, PortOf, AttachPort;
    if k > 0 {
      PortsPlace(t, n, ports, k - 1, b);
      MoreNames(ports, k, b);
      OnePort(AttachPorts(t, n, ports, k - 1), n, ports[k - 1], (k - 1) % 256, b);
    } else {
      NamesNothing(ports[..0], b);
    }
  }

  lemma OnePort(t: Topology, n: Byte, port: Port, ind: Byte, b: Byte)
    ensures var r := AttachPort(t, n, port, ind);
            if b == ROOT || port.addrCurrent != b || (b in t.parents && t.parents[b] == n) then Untouched(t, r, b)
            else HangsAt(r, b, n, ind, port.name)
  {
  }

  lemma NamesNothing(ports: seq<Port>, b: Byte)
    requires ports == []
    ensures !Names(ports, b)
  {
  }

  lemma MoreNames(ports: seq<Port>, k: nat, b: Byte)
    requires 0 < k <= |ports|
    ensures Names(ports[..k], b) <==> Names(ports[..k - 1], b) || ports[k - 1].addrCurrent == b
    ensures Names(ports[..k - 1], b) ==> Names(ports[..k], b) && PortOf(ports[..k], b) == PortOf(ports[..k - 1], b)
    ensures !Names(ports[..k - 1], b) && Names(ports[..k], b) ==> PortOf(ports[..k], b) == k - 1
  {
    var front, all := ports[..k - 1], ports[..k];
    assert forall i :: 0 <= i < k - 1 ==> front[i] == all[i];
    assert all[k - 1] == ports[k - 1];
    if Names(front, b) {
      var i := PortOf(front, b);
      assert all[i].addrCurrent == b;
      var j := PortOf(all, b);
      assert j <= i;
    }
  }

  /**
    A report changes only modules that its ports name, and of these only the ones that do not hang below the
    reporter yet.  They end below it, with the number and the name of the first port that names them.
   */
  lemma ReportPlaces(t: Topology, n: Byte, ports: seq<Port>)
    requires Matched(t) && n in t.parents
    ensures var r := Apply(t, Update(ModuleDownstream, n, Some(ports)));
            && Matched(r)
            && (forall b :: b == ROOT || !Names(ports, b) || (b in t.parents && t.parents[b] == n) ==>
                  Untouched(t, r, b))
            && (forall b :: b != ROOT && Names(ports, b) && !(b in t.parents && t.parents[b] == n) ==>
                  HangsAt(r, b, n, PortOf(ports, b) % 256, ports[PortOf(ports, b)].name))
  {
    hide AttachPorts, Names, PortOf, Untouched, HangsAt;
    PortsMatched(t, n, ports, |ports|);
    assert ports[..|ports|] == ports;
    forall b
      ensures var r := AttachPorts(t, n, ports, |ports|);
              if b == ROOT || !Names(ports, b) || (b in t.parents && t.parents[b] == n) then Untouched(t, r, b)
              else HangsAt(r, b, n, PortOf(ports, b) % 256, ports[PortOf(ports, b)].name)
    {
      PortsPlace(t, n, ports, |ports|, b);
    }
  }

  /** A removal takes out the module, and its children go below the root; nobody else is touched. */
  lemma RemovalPlaces(t: Topology, a: Byte, ports: Option<seq<Port>>)
    requires Matched(t)
    ensures var r := Apply(t, Update(ModuleRemoved, a, ports));
            && Matched(r) && a !in r.parents
            && (forall b :: a != ROOT && b != a && b in t.parents && t.parents[b] == a ==>
                  HangsAt(r, b, ROOT, 0xFF, ""))
            && (forall b :: b != a && (a == ROOT || !(b in t.parents && t.parents[b] == a)) ==> Untouched(t, r, b))
  {
  }

  /** Nothing else does anything: a report of an unrecorded module, updates that carry none, other updates. */
  lemma NothingElse(t: Topology, u: Update)
    requires u == NullUpdate || u.kind == OtherKind || (u.kind != ModuleRemoved && u.ports.None?)
             || (u.kind == ModuleDownstream && u.address !in t.parents)
    ensures Apply(t, u) == t
  {
  }

  // ---------- One module through the whole history ----------

  datatype Place = Place(parent: Byte, id: Byte, name: string)

  const TOP := Place(ROOT, 0xFF, "")

  /** Where `b` is, by the updates about itself and about the module it hangs below. */
  function PlaceOf(us: seq<Update>, b: Byte): Option<Place>
    decreases |us|
  {
    if us == [] then None
    else
      var front, u := us[..|us| - 1], us[|us| - 1];
      var was := PlaceOf(front, b);
      if u == NullUpdate then was
      else if u.kind == ModuleAdded && u.ports.Some? && u.address == b && was.None? then Some(TOP)
      else if u.kind == ModuleRemoved && u.address == b then None
      else if u.kind == ModuleRemoved && u.address != ROOT && was.Some? && was.value.parent == u.address then Some(TOP)
      else if && u.kind == ModuleDownstream && u.ports.Some? && PlaceOf(front, u.address).Some?
              && b != ROOT && Names(u.ports.value, b) && !(was.Some? && was.value.parent == u.address)
      then
        var i := PortOf(u.ports.value, b);
        Some(Place(u.address, i % 256, u.ports.value[i].name))
      else was
  }

  /** What the tracker has recorded for `b`. */
  function Recorded(t: Topology, b: Byte): Option<Place>
    requires b in t.parents ==> b in t.tags
  {
    if b in t.parents then Some(Place(t.parents[b], t.tags[b].id, t.tags[b].name)) else None
  }

  lemma OneUpdate(t: Topology, u: Update)
    requires Matched(t) && Admissible(u)
    ensures Matched(Apply(t, u))
  {
    hide Apply;
    if u.Update? && u.kind == ModuleAdded && u.ports.Some? {
      AddedPlaces(t, u.address, u.ports.value);
    } else if u.Update? && u.kind == ModuleRemoved {
      RemovalPlaces(t, u.address, u.ports);
    } else if u.Update? && u.kind == ModuleDownstream && u.ports.Some? && u.address in t.parents {
      ReportPlaces(t, u.address, u.ports.value);
    } else {
      NothingElse(t, u);
    }
  }

  /** After every history the tracker has recorded of each module what following it alone gives. */
  lemma {:induction false} PlacesRight(us: seq<Update>, b: Byte)
    requires forall i :: 0 <= i < |us| ==> Admissible(us[i])
    ensures var t := Run(Topology(map[], map[]), us);
            Matched(t) && Recorded(t, b) == PlaceOf(us, b)
    decreases |us|
  {
    hide Apply, Names, PortOf;
    if us != [] {
      var front, u := us[..|us| - 1], us[|us| - 1];
      PlacesRight(front, b);
      var t := Run(Topology(map[], map[]), front);
      OneUpdate(t, u);
      if u.Update? && u.kind == ModuleAdded && u.ports.Some? {
        AddedPlaces(t, u.address, u.ports.value);
      } else if u.Update? && u.kind == ModuleRemoved {
        RemovalPlaces(t, u.address, u.ports);
      } else if u.Update? && u.kind == ModuleDownstream && u.ports.Some? {
        PlacesRight(front, u.address);
        if u.address in t.parents {
          ReportPlaces(t, u.address, u.ports.value);
        } else {
          NothingElse(t, u);
        }
      } else {
        NothingElse(t, u);
      }
    }
  }

  /** A module that a neighbour has reported before it is heard itself stays below that neighbour. */
  lemma ReportedBeforeHeard()
    ensures var us := [Update(ModuleAdded, 1, Some([])), Update(ModuleDownstream, 1, Some([Port(2, "p")])),
                       Update(ModuleAdded, 2, Some([]))];
            var t := Run(Topology(map[], map[]), us);
            HangsAt(t, 1, ROOT, 0xFF, "") && HangsAt(t, 2, 1, 0, "p")
  {
    var us := [Update(ModuleAdded, 1, Some([])), Update(ModuleDownstream, 1, Some([Port(2, "p")])),
               Update(ModuleAdded, 2, Some([]))];
    assert us[..3] == us && us[..0] == [];
    assert us[..3][..2] == us[..2] && us[..2][..1] == us[..1] && us[..1][..0] == [];
    assert PlaceOf(us[..1], 1) == Some(TOP) && PlaceOf(us[..1], 2) == None;
    assert [Port(2, "p")][0].addrCurrent == 2;
    assert PlaceOf(us[..2], 2) == Some(Place(1, 0, "p"));
    PlacesRight(us, 1);
    PlacesRight(us, 2);
  }

  /** The fields of the tracker's nodes, when its updates have been `us`. */
  lemma NodeFields(t: Tracker, us: seq<Update>, n: Node)
    requires t.Valid() && n in t.nodes && n != t.root
    requires forall i :: 0 <= i < |us| ==> Admissible(us[i])
    requires t.Topology() == Run(Topology(map[], map[]), us)
    ensures n.parent != null && PlaceOf(us, n.addr) == Some(Place(n.parent.addr, n.portId, n.portName))
  {
    hide Tracker.Valid, Run, PlaceOf;
    t.FieldsAgree(n);
    PlacesRight(us, n.addr);
  }
}
