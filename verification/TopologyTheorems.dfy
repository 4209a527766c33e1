/**
  When the topology stays a tree.  Hanging `c` below `n` closes a loop exactly when `c` is `n` or one
  of its ancestors; additions and removals never do.  Over a whole history the graph stays one tree
  as long as no downstream report names the reporting node or an ancestor of it.
 */
module TopologyTheorems {
  import opened Bytes
  import opened TopologyGraph
  import opened TopologyUpdates

  // ---------- One link ----------

  /** Moving `c` does not matter to those who never climb to it. */
  lemma {:induction false} ClimbsAvoiding(par: Parents, c: Byte, n: Byte, a: Byte, x: Byte, k: nat)
    requires !AncestorOrSelf(par, c, a)
    ensures Climbs(par[c := n], a, x, k) <==> Climbs(par, a, x, k)
    decreases k
  {
    assert a != c by { assert Climbs(par, a, a, 0); }
    if k > 0 && a in par {
      if j: nat :| Climbs(par, par[a], c, j) {
        assert Climbs(par, a, c, j + 1);
      }
      ClimbsAvoiding(par, c, n, par[a], x, k - 1);
    }
  }

  /** Whoever climbs to `c` still does so after `c` has moved. */
  lemma ClimbsToMoved(par: Parents, c: Byte, n: Byte, a: Byte)
    requires AncestorOrSelf(par, c, a)
    ensures AncestorOrSelf(par[c := n], c, a)
  {
    var k: nat :| Climbs(par, a, c, k);
    var rest := par - {c};
    assert rest[c := n] == par[c := n];
    var j: nat := k;
    if c in par {
      assert rest[c := par[c]] == par;
      j := ClimbsInSmaller(rest, c, par[c], a, c, k);
      if Climbs(rest, a, c, k) {
        j := k;
      }
    } else {
      assert rest == par;
    }
    ClimbsInLarger(rest, c, n, a, c, j);
  }

  lemma AttachClosesLoop(par: Parents, c: Byte, n: Byte)
    requires ROOT !in par && c != ROOT && AncestorOrSelf(par, c, n)
    ensures !Rooted(par[c := n], n)
  {
    var par' := par[c := n];
    ClimbsToMoved(par, c, n, n);
    var j: nat :| Climbs(par', n, c, j);
    assert Climbs(par', c, n, 1) by { assert Climbs(par', n, n, 0); }
    ClimbsCompose(par', n, c, n, j, 1);
    if d: nat :| Climbs(par', n, ROOT, d) {
      ClimbsThrough(par', n, n, ROOT, j + 1, d);
      ClimbsUnique(par', n, ROOT, d, d - j - 1);
    }
  }

  lemma AttachKeepsAncestors(par: Parents, c: Byte, n: Byte, x: Byte)
    requires !AncestorOrSelf(par, c, n)
    ensures AncestorOrSelf(par[c := n], x, n) <==> AncestorOrSelf(par, x, n)
  {
    var par' := par[c := n];
    if k: nat :| Climbs(par', n, x, k) {
      ClimbsAvoiding(par, c, n, n, x, k);
    }
    if k: nat :| Climbs(par, n, x, k) {
      ClimbsAvoiding(par, c, n, n, x, k);
    }
  }

  lemma AttachKeepsTree(par: Parents, c: Byte, n: Byte)
    requires Tree(par) && n in par && c != ROOT && !AncestorOrSelf(par, c, n)
    ensures Tree(par[c := n])
  {
    var par' := par[c := n];
    AttachKeepsAncestors(par, c, n, ROOT);
    var e: nat :| Climbs(par', n, ROOT, e);
    forall a | a in par' ensures Rooted(par', a) {
      if AncestorOrSelf(par, c, a) || a == c {
        if AncestorOrSelf(par, c, a) {
          ClimbsToMoved(par, c, n, a);
        } else {
          assert Climbs(par', c, c, 0);
        }
        var j: nat :| Climbs(par', a, c, j);
        assert Climbs(par', c, n, 1) by { assert Climbs(par', n, n, 0); }
        ClimbsCompose(par', a, c, n, j, 1);
        ClimbsCompose(par', a, n, ROOT, j + 1, e);
      } else {
        var d: nat :| Climbs(par, a, ROOT, d);
        ClimbsAvoiding(par, c, n, a, ROOT, d);
      }
    }
  }

  /** In a tree, hanging `c` below `n` gives a tree exactly when `c` is not `n` or above it. */
  lemma AttachKeepsTreeIff(par: Parents, c: Byte, n: Byte)
    requires Tree(par) && n in par && c != ROOT
    ensures Tree(par[c := n]) <==> !AncestorOrSelf(par, c, n)
  {
    if AncestorOrSelf(par, c, n) {
      AttachClosesLoop(par, c, n);
      assert n in par[c := n];
    } else {
      AttachKeepsTree(par, c, n);
    }
  }

  // ---------- One update ----------

  /** The first `k` ports name neither the reporting node nor an ancestor of it. */
  ghost predicate LoopFreePorts(par: Parents, n: Byte, ports: seq<Port>, k: nat)
    requires k <= |ports|
  {
    forall i :: 0 <= i < k ==> ports[i].addrCurrent == ROOT || !AncestorOrSelf(par, ports[i].addrCurrent, n)
  }

  /**
    Attaching ports in order: while none names the reporter or an ancestor, the graph stays a tree
    and the reporter's ancestors stay the same; once one does, the reporter is cut off for good.
   */
  lemma {:induction false} PortsFromTree(t: Topology, n: Byte, ports: seq<Port>, k: nat)
    requires Tree(t.parents) && n in t.parents && k <= |ports|
    ensures var par := AttachPorts(t, n, ports, k).parents;
            && ROOT !in par && n in par
            && (LoopFreePorts(t.parents, n, ports, k) ==>
                  Tree(par) && forall x :: AncestorOrSelf(par, x, n) <==> AncestorOrSelf(t.parents, x, n))
            && (!LoopFreePorts(t.parents, n, ports, k) ==> !Rooted(par, n))
    decreases k
  {
    if k > 0 {
      PortsFromTree(t, n, ports, k - 1);
      var par := AttachPorts(t, n, ports, k - 1).parents;
      var c := ports[k - 1].addrCurrent;
      if c == ROOT || (c in par && par[c] == n) {
        if c != ROOT && Tree(par) {
          NoChildAbove(par, c, n);
        }
      } else if AncestorOrSelf(par, c, n) {
        AttachClosesLoop(par, c, n);
      } else {
        forall x ensures AncestorOrSelf(par[c := n], x, n) <==> AncestorOrSelf(par, x, n) {
          AttachKeepsAncestors(par, c, n, x);
        }
        if LoopFreePorts(t.parents, n, ports, k - 1) {
          AttachKeepsTree(par, c, n);
        }
      }
    }
  }

  /** In a tree a child is never above its parent. */
  lemma NoChildAbove(par: Parents, c: Byte, n: Byte)
    requires Tree(par) && c in par && par[c] == n && n in par
    ensures !AncestorOrSelf(par, c, n)
  {
    assert par[c := n] == par;
    if AncestorOrSelf(par, c, n) {
      AttachClosesLoop(par, c, n);
    }
  }

  /** A downstream report keeps the tree exactly when no port names the reporter or an ancestor. */
  lemma DownstreamKeepsTreeIff(t: Topology, n: Byte, ports: seq<Port>)
    requires Tree(t.parents) && n in t.parents
    ensures Tree(AttachPorts(t, n, ports, |ports|).parents) <==> LoopFreePorts(t.parents, n, ports, |ports|)
  {
    PortsFromTree(t, n, ports, |ports|);
  }

  lemma AddKeepsTree(t: Topology, a: Byte)
    requires Tree(t.parents) && a != ROOT
    ensures Tree(Add(t, a).parents)
  {
    if a !in t.parents {
      var par' := t.parents[a := ROOT];
      forall b | b in par' ensures Rooted(par', b) {
        if b == a {
          assert Climbs(par', ROOT, ROOT, 0) && Climbs(par', a, ROOT, 1);
        } else {
          var d: nat :| Climbs(t.parents, b, ROOT, d);
          ClimbsInLarger(t.parents, a, ROOT, b, ROOT, d);
        }
      }
    }
  }

  /** Whoever reached the root still does when another node is removed. */
  lemma {:induction false} RemoveKeepsRooted(t: Topology, a: Byte, b: Byte, d: nat)
    requires ROOT !in t.parents && a in t.parents && b != a && Climbs(t.parents, b, ROOT, d)
    ensures Rooted(Remove(t, a).parents, b)
    decreases d
  {
    var par' := Remove(t, a).parents;
    if d == 0 {
      assert Climbs(par', b, ROOT, 0);
    } else if t.parents[b] == a {
      assert par'[b] == ROOT && Climbs(par', ROOT, ROOT, 0);
      assert Climbs(par', b, ROOT, 1);
    } else {
      RemoveKeepsRooted(t, a, t.parents[b], d - 1);
      var e: nat :| Climbs(par', t.parents[b], ROOT, e);
      assert Climbs(par', b, ROOT, e + 1);
    }
  }

  lemma RemoveKeepsTree(t: Topology, a: Byte)
    requires Tree(t.parents)
    ensures Tree(Remove(t, a).parents)
  {
    if a in t.parents {
      forall b | b in Remove(t, a).parents ensures Rooted(Remove(t, a).parents, b) {
        var d: nat :| Climbs(t.parents, b, ROOT, d);
        RemoveKeepsRooted(t, a, b, d);
      }
    }
  }

  // ---------- Whole histories ----------

  /** A downstream report that, in state `t`, names the reporter or one of its ancestors. */
  ghost predicate ClosesLoop(t: Topology, u: Update)
  {
    && u.Update? && u.kind == ModuleDownstream && u.ports.Some? && u.address in t.parents
    && !LoopFreePorts(t.parents, u.address, u.ports.value, |u.ports.value|)
  }

  /** From a tree, one update gives a tree exactly when it is not a report that closes a loop. */
  lemma ApplyKeepsTreeIff(t: Topology, u: Update)
    requires Tree(t.parents) && Admissible(u)
    ensures Tree(Apply(t, u).parents) <==> !ClosesLoop(t, u)
  {
    match u
    case NullUpdate =>
    case Update(ModuleDownstream, a, Some(ports)) =>
      if a in t.parents {
        DownstreamKeepsTreeIff(t, a, ports);
      }
    case Update(ModuleAdded, a, Some(_)) => AddKeepsTree(t, a);
    case Update(ModuleRemoved, a, _) => RemoveKeepsTree(t, a);
    case _ =>
  }

  /** Over any history without loop-closing reports the graph is one tree below the root. */
  lemma {:induction false} HistoryKeepsTree(t: Topology, us: seq<Update>)
    requires Tree(t.parents)
    requires forall i :: 0 <= i < |us| ==> Admissible(us[i]) && !ClosesLoop(Run(t, us[..i]), us[i])
    ensures Tree(Run(t, us).parents)
  {
    if us != [] {
      var k := |us| - 1;
      forall i | 0 <= i < k ensures Admissible(us[..k][i]) && !ClosesLoop(Run(t, us[..k][..i]), us[..k][i]) {
        assert us[..k][..i] == us[..i];
      }
      HistoryKeepsTree(t, us[..k]);
      ApplyKeepsTreeIff(Run(t, us[..k]), us[k]);
    }
  }

  ghost predicate TreeThroughout(t: Topology, us: seq<Update>)
  {
    forall i :: 0 <= i <= |us| ==> Tree(Run(t, us[..i]).parents)
  }

  ghost predicate NeverCloses(t: Topology, us: seq<Update>)
  {
    forall i :: 0 <= i < |us| ==> !ClosesLoop(Run(t, us[..i]), us[i])
  }

  /**
    Exactly which histories keep the strict tree: from a tree, the graph is one tree after every prefix if
    and only if no report, at its turn, names the reporter or one of its ancestors.
   */
  lemma {:induction false} HistoryIsTreeIff(t: Topology, us: seq<Update>)
    requires Tree(t.parents) && forall i :: 0 <= i < |us| ==> Admissible(us[i])
    ensures TreeThroughout(t, us) <==> NeverCloses(t, us)
  {
    assert us[..0] == [];
    if NeverCloses(t, us) {
      forall i | 0 <= i <= |us| ensures Tree(Run(t, us[..i]).parents) {
        forall j | 0 <= j < i ensures Admissible(us[..i][j]) && !ClosesLoop(Run(t, us[..i][..j]), us[..i][j]) {
          assert us[..i][..j] == us[..j];
        }
        HistoryKeepsTree(t, us[..i]);
      }
    }
    if TreeThroughout(t, us) {
      forall i | 0 <= i < |us| ensures !ClosesLoop(Run(t, us[..i]), us[i]) {
        assert Tree(Run(t, us[..i]).parents) && Tree(Run(t, us[..i + 1]).parents);
        RunOneMore(t, us, i);
        ApplyKeepsTreeIff(Run(t, us[..i]), us[i]);
      }
    }
  }

  const EMPTY := Topology(map[], map[])

  /** The shortest history that breaks the tree: module 1 is added and reports itself at its first port. */
  lemma SelfReportBreaksTree()
    ensures var us := [Update(ModuleAdded, 1, Some([])), Update(ModuleDownstream, 1, Some([Port(1, "")]))];
            && Tree(EMPTY.parents) && Tree(Run(EMPTY, us[..1]).parents)
            && !Tree(Run(EMPTY, us).parents) && Run(EMPTY, us).parents == map[1 := 1]
  {
    var added, report := Update(ModuleAdded, 1, Some([])), Update(ModuleDownstream, 1, Some([Port(1, "")]));
    var us := [added, report];
    var t := Run(EMPTY, us[..1]);
    RunOneMore(EMPTY, us, 0);
    RunOneMore(EMPTY, us, 1);
    assert us[..0] == [] && us[..2] == us && Run(EMPTY, us[..0]) == EMPTY;
    assert t == Add(EMPTY, 1) == Topology(map[1 := ROOT], map[1 := TOP_TAG]);
    AddKeepsTree(EMPTY, 1);
    assert Climbs(t.parents, 1, 1, 0);
    assert [Port(1, "")][0].addrCurrent == 1 && AncestorOrSelf(t.parents, 1, 1);
    assert ClosesLoop(t, report);
    ApplyKeepsTreeIff(t, report);
    OneMorePort(t, 1, [Port(1, "")], 0);
    NoPorts(t, 1, [Port(1, "")]);
  }
}
