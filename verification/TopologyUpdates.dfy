/**
  What each module update does to the topology, as a function of plain data: who hangs below whom,
  and the port each node was last attached through.
 */
module TopologyUpdates {
  import opened Bytes
  import opened TopologyGraph

  datatype PortTag = PortTag(id: Byte, name: string)
  datatype Port = Port(addrCurrent: Byte, name: string)
  datatype Kind = ModuleDownstream | ModuleAdded | ModuleRemoved | OtherKind

  /** `module` is the pointer the update carries: the module's downstream ports, or null. */
  datatype Update = NullUpdate | Update(kind: Kind, address: Byte, ports: Option<seq<Port>>)

  datatype Topology = Topology(parents: Parents, tags: map<Byte, PortTag>)

  const TOP_TAG := PortTag(0xFF, "")

  /** No update names the root's address as a module: `EigenModule::valid` refuses it. */
  predicate Admissible(u: Update)
  {
    u.Update? && u.kind == ModuleAdded ==> u.address != ROOT
  }

  function AttachPort(t: Topology, n: Byte, port: Port, ind: Byte): Topology
  {
    var c := port.addrCurrent;
    if c == ROOT || (c in t.parents && t.parents[c] == n) then t
    else Topology(t.parents[c := n], t.tags[c := PortTag(ind, port.name)])
  }

  /** The first `k` ports attached, in order; the port index is a byte. */
  function AttachPorts(t: Topology, n: Byte, ports: seq<Port>, k: nat): Topology
    requires k <= |ports|
  {
    if k == 0 then t else AttachPort(AttachPorts(t, n, ports, k - 1), n, ports[k - 1], (k - 1) % 256)
  }

  lemma NoPorts(t: Topology, n: Byte, ports: seq<Port>)
    ensures AttachPorts(t, n, ports, 0) == t
  {
  }

  lemma OneMorePort(t: Topology, n: Byte, ports: seq<Port>, k: nat)
    requires k < |ports|
    ensures AttachPorts(t, n, ports, k + 1) == AttachPort(AttachPorts(t, n, ports, k), n, ports[k], k % 256)
  {
  }

  /** `a` hangs directly below the root, wherever it was. */
  function AtTop(t: Topology, a: Byte): Topology
  {
    Topology(t.parents[a := ROOT], t.tags[a := TOP_TAG])
  }

  function Add(t: Topology, a: Byte): Topology
  {
    if a in t.parents then t else AtTop(t, a)
  }

  /** `a` is gone, its children with addresses below `k` hang below the root, the others nowhere. */
  function RemoveUpTo(t: Topology, a: Byte, k: nat): Topology
  {
    Topology(
      map c | c in t.parents && c != a && (t.parents[c] == a ==> c < k) ::
        if t.parents[c] == a then ROOT else t.parents[c],
      map c | c in t.tags && c != a ::
        if c in t.parents && t.parents[c] == a && c < k then TOP_TAG else t.tags[c])
  }

  function Remove(t: Topology, a: Byte): Topology
  {
    if a in t.parents then RemoveUpTo(t, a, 256) else t
  }

  function Apply(t: Topology, u: Update): Topology
  {
    match u
    case NullUpdate => t
    case Update(ModuleDownstream, a, Some(ports)) =>
      if a in t.parents then AttachPorts(t, a, ports, |ports|) else t
    case Update(ModuleAdded, a, Some(_)) => Add(t, a)
    case Update(ModuleRemoved, a, _) => Remove(t, a)
    case _ => t
  }

  /** The state after all of `us`, oldest first. */
  function Run(t: Topology, us: seq<Update>): Topology
  {
    if us == [] then t else Apply(Run(t, us[..|us| - 1]), us[|us| - 1])
  }

  /** Hanging one more orphan below the root. */
  lemma RemoveStep(t: Topology, a: Byte, k: Byte)
    requires t.parents.Keys == t.tags.Keys
    ensures var less := RemoveUpTo(t, a, k); var more := RemoveUpTo(t, a, k + 1);
            if k in t.parents && t.parents[k] == a && k != a
            then k !in less.parents && more == Topology(less.parents[k := ROOT], less.tags[k := TOP_TAG])
            else more == less
  {
  }

  /** The children of `a`, once `a` itself hangs nowhere. */
  ghost function Orphans(t: Topology, a: Byte): set<Byte>
  {
    set c | c in t.parents && c != a && t.parents[c] == a
  }

  lemma RemoveNone(t: Topology, a: Byte)
    requires t.parents.Keys == t.tags.Keys
    ensures RemoveUpTo(t, a, 0) == Topology((t.parents - {a}) - Orphans(t, a), t.tags - {a})
    ensures Orphans(t, a) == set c | c in t.parents - {a} && (t.parents - {a})[c] == a
  {
  }

  lemma RunOneMore(t: Topology, us: seq<Update>, i: nat)
    requires i < |us|
    ensures Run(t, us[..i + 1]) == Apply(Run(t, us[..i]), us[i])
  {
    assert us[..i + 1][..i] == us[..i];
  }
}
