/**
  Two histories after which the number of levels in the index is not one more than the depth of the deepest
  node: an empty level that stays, and a chain so long that the number does not fit a byte.
 */
module TopologyLevels {
  import opened Bytes
  import opened TopologyGraph
  import opened TopologyNode
  import opened TopologyIndex
  import opened TopologyUpdates
  import opened TopologyTracker

  // ---------- Small levels ----------

  lemma Drop1(n: Node, a: Byte)
    ensures Without([n], a) == if n.addr == a then [] else [n]
  {
  }

  lemma Drop2(n: Node, m: Node, a: Byte)
    ensures Without([n, m], a) == Without([n], a) + Without([m], a)
  {
    assert [n, m][1..] == [m];
  }

  lemma Drop3(n: Node, m: Node, o: Node, a: Byte)
    ensures Without([n, m, o], a) == Without([n], a) + Without([m, o], a)
  {
    assert [n, m, o][1..] == [m, o];
  }

  ghost predicate Four(r: Node, a: Node, b: Node, c: Node)
  {
    r.addr == ROOT && a.addr == 1 && b.addr == 2 && c.addr == 3
  }

  /** Three new modules below the root. */
  lemma AfterAdding(r: Node, a: Node, b: Node, c: Node)
    requires Four(r, a, b, c)
    ensures Relisted([[r]], a, 0, 1) == [[r], [a]]
    ensures Relisted([[r], [a]], b, 0, 1) == [[r], [a, b]]
    ensures Relisted([[r], [a, b]], c, 0, 1) == [[r], [a, b, c]]
  {
    hide Added;
    Drop1(r, 1);
    Drop1(r, 2);
    Drop1(r, 3);
    assert Removed([[r]], 1, 0) == [[r]];
    assert Removed([[r], [a]], 2, 0) == [[r], [a]];
    assert Removed([[r], [a, b]], 3, 0) == [[r], [a, b]];
    OneNewLevel([[r]], a);
    NoNewLevel([[r], [a]], b, 1);
    NoNewLevel([[r], [a, b]], c, 1);
    assert [a] + [b] == [a, b] && [a, b] + [c] == [a, b, c];
  }

  /** The second below the first; the move goes through the index twice. */
  lemma AfterMovingSecond(r: Node, a: Node, b: Node, c: Node)
    requires Four(r, a, b, c)
    ensures Relisted([[r], [a, b, c]], b, 1, 2) == [[r], [a, c], [b]]
    ensures Relisted([[r], [a, c], [b]], b, 2, 2) == [[r], [a, c], [b]]
  {
    hide Added, Without;
    Drop3(a, b, c, 2);
    Drop2(b, c, 2);
    Drop1(a, 2);
    Drop1(b, 2);
    Drop1(c, 2);
    assert Without([a, b, c], 2) == [a] + ([] + [c]) == [a, c];
    assert Removed([[r], [a, b, c]], 2, 1) == [[r], [a, b, c]][1 := [a, c]] == [[r], [a, c]];
    assert Removed([[r], [a, c], [b]], 2, 2) == [[r], [a, c]];
    OneNewLevel([[r], [a, c]], b);
  }

  /** The third below the second: a level is passed over and created. */
  lemma AfterMovingThird(r: Node, a: Node, b: Node, c: Node)
    requires Four(r, a, b, c)
    ensures Relisted([[r], [a, c], [b]], c, 1, 3) == [[r], [a], [b], [c]]
    ensures Relisted([[r], [a], [b], [c]], c, 3, 3) == [[r], [a], [b], [c]]
  {
    hide Added, Without;
    Drop2(a, c, 3);
    Drop1(a, 3);
    Drop1(c, 3);
    assert Without([a, c], 3) == [a] + [] == [a];
    assert Removed([[r], [a, c], [b]], 3, 1) == [[r], [a, c], [b]][1 := [a]] == [[r], [a], [b]];
    assert Removed([[r], [a], [b], [c]], 3, 3) == [[r], [a], [b]];
    OneNewLevel([[r], [a], [b]], c);
  }

  /** The second goes, the third moves up from the level below: only one empty level is dropped. */
  lemma AfterRemoving(r: Node, a: Node, b: Node, c: Node)
    requires Four(r, a, b, c)
    ensures Removed([[r], [a], [b], [c]], 2, 2) == [[r], [a], [], [c]]
    ensures Relisted([[r], [a], [], [c]], c, 3, 1) == [[r], [a, c], []]
  {
    hide Added, Without;
    Drop1(b, 2);
    Drop1(c, 3);
    assert Removed([[r], [a], [b], [c]], 2, 2) == [[r], [a], [b], [c]][2 := []];
    assert Removed([[r], [a], [], [c]], 3, 3) == [[r], [a], []];
    NoNewLevel([[r], [a], []], c, 1);
    assert [a] + [c] == [a, c];
  }

  // ---------- An empty level that stays ----------

  /** A tracker with the three modules, hanging as `par` says and indexed as `levels`. */
  ghost predicate Stands(t: Tracker, a: Node, b: Node, c: Node, par: Parents, levels: Levels)
    reads t, t.nodes
  {
    && t.Valid() && t.parents == par && t.depthList == levels
    && a in t.nodes && b in t.nodes && c in t.nodes && Four(t.root, a, b, c)
  }

  method ThreeModules() returns (t: Tracker, a: Node, b: Node, c: Node)
    ensures fresh(t) && fresh(t.nodes)
    ensures Stands(t, a, b, c, map[1 := ROOT, 2 := ROOT, 3 := ROOT], [[t.root], [a, b, c]])
  {
    hide Tracker.Valid, Relisted;
    t := new Tracker();
    a := NewModule(t, 1);
    b := NewModule(t, 2);
    c := NewModule(t, 3);
    OnlyThese(t);
    AfterAdding(t.root, a, b, c);
  }

  method NewModule(t: Tracker, address: Byte) returns (n: Node)
    requires t.Valid() && address != ROOT && address !in t.parents
    modifies t, t.nodes
    ensures t.Valid() && t.parents == old(t.parents)[address := ROOT]
    ensures t.depthList == Relisted(old(t.depthList), n, 0, 1)
    ensures n.addr == address && n in t.nodes && old(t.nodes) <= t.nodes && fresh(t.nodes - old(t.nodes))
  {
    hide Tracker.Valid, Relisted;
    OnlyThese(t);
    n := t.AddNode(address, null);
  }

  lemma OnlyThese(t: Tracker)
    requires t.Valid()
    ensures t.nodeMap.Keys == t.parents.Keys && t.root.addr == ROOT
  {
  }

  method MoveSecond(t: Tracker, a: Node, b: Node, c: Node)
    requires Stands(t, a, b, c, map[1 := ROOT, 2 := ROOT, 3 := ROOT], [[t.root], [a, b, c]])
    modifies t, t.nodes
    ensures fresh(t.nodes - old(t.nodes))
    ensures Stands(t, a, b, c, map[1 := ROOT, 2 := 1, 3 := ROOT], [[t.root], [a, c], [b]])
  {
    hide Tracker.Valid, Relisted;
    Leaf(t, a);
    Leaf(t, b);
    AtDepth(t, a, 1);
    AtDepth(t, b, 1);
    OnlyThese(t);
    t.AttachChild(a, Port(2, ""), 0);
    AfterMovingSecond(t.root, a, b, c);
  }

  method MoveThird(t: Tracker, a: Node, b: Node, c: Node)
    requires Stands(t, a, b, c, map[1 := ROOT, 2 := 1, 3 := ROOT], [[t.root], [a, c], [b]])
    modifies t, t.nodes
    ensures fresh(t.nodes - old(t.nodes))
    ensures Stands(t, a, b, c, map[1 := ROOT, 2 := 1, 3 := 2], [[t.root], [a], [b], [c]])
  {
    hide Tracker.Valid, Relisted;
    Leaf(t, b);
    Leaf(t, c);
    AtDepth(t, b, 2);
    AtDepth(t, c, 1);
    OnlyThese(t);
    t.AttachChild(b, Port(3, ""), 0);
    AfterMovingThird(t.root, a, b, c);
  }

  /**
    Three modules in a chain, then the middle one goes: the deepest node is at depth 1, and `max_depth` is 3.
   */
  method EmptyLevelStays() returns (t: Tracker)
    ensures t.Valid() && t.parents == map[1 := ROOT, 3 := ROOT]
    ensures t.Deepest(1) && t.MaxDepth() == 3
  {
    hide Tracker.Valid, Tracker.Deepest, Relisted, Removed;
    var a, b, c;
    t, a, b, c := ThreeModules();
    MoveSecond(t, a, b, c);
    MoveThird(t, a, b, c);
    Chained(t, b, c);
    AtDepth(t, b, 2);
    AtDepth(t, c, 3);
    t.RemoveNode(2, c);
    AfterRemoving(t.root, a, b, c);
    assert t.parents == map[1 := ROOT, 3 := ROOT];
    DepthOne(t, a);
  }

  lemma Leaf(t: Tracker, n: Node)
    requires t.Valid() && n in t.nodes && forall x :: x in t.parents ==> t.parents[x] != n.addr
    ensures n.children == map[] && (n != t.root ==> t.nodeMap[n.addr] == n)
  {
    t.InAllChildren(n);
    assert n.children.Keys == {};
  }

  lemma AtDepth(t: Tracker, n: Node, d: nat)
    requires t.Valid() && n in t.nodes && Climbs(t.parents, n.addr, ROOT, d)
    ensures n.depth == d
  {
    t.DepthIsDistance(n, d);
  }

  /** In the chain 1, 2, 3 the last is the only child of the middle one. */
  lemma Chained(t: Tracker, b: Node, c: Node)
    requires t.Valid() && b in t.nodes && c in t.nodes && b.addr == 2 && c.addr == 3
    requires t.parents == map[1 := ROOT, 2 := 1, 3 := 2]
    ensures 2 in t.nodeMap && t.nodeMap[2] == b && t.LoneLeaf(b, c)
  {
    hide Tracker.Valid;
    RootOnly(t, b);
    RootOnly(t, c);
    Leaf(t, c);
    Family(t, b);
    Family(t, c);
    assert b.children.Keys == {3} && b.children[3] == c;
    assert b.children == map[3 := c];
  }

  lemma Family(t: Tracker, n: Node)
    requires t.Valid() && n in t.nodes && n != t.root
    ensures n.addr in t.nodeMap && t.nodeMap[n.addr] == n && n.addr in t.parents
    ensures n.parent != null && n.parent.addr == t.parents[n.addr]
    ensures forall x :: x in n.children <==> x in t.parents && t.parents[x] == n.addr
    ensures forall x :: x in n.children ==> x in t.nodeMap && n.children[x] == t.nodeMap[x]
  {
    t.ParentOf(n);
    t.InAllChildren(n);
    forall x | x in n.children ensures x in t.nodeMap && n.children[x] == t.nodeMap[x] {
      t.LinksAgree(n, x);
    }
  }

  lemma DepthOne(t: Tracker, a: Node)
    requires t.Valid() && t.parents == map[1 := ROOT, 3 := ROOT] && a in t.nodes && a.addr == 1
    ensures t.Deepest(1)
  {
    AtDepth(t, a, 1);
    forall n | n in t.nodes ensures n.depth <= 1 {
      AddressOf(t, n);
      AtDepth(t, n, if n.addr == ROOT then 0 else 1);
    }
  }

  lemma AddressOf(t: Tracker, n: Node)
    requires t.Valid() && n in t.nodes
    ensures n.addr == ROOT || n.addr in t.parents
  {
  }

  // ---------- A full chain ----------

  /** The addresses below `k` in a chain, 0 below the root. */
  function Chain(k: nat): (par: Parents)
    requires k <= 255
    ensures forall a: Byte :: a in par <==> a < k
  {
    if k == 0 then map[] else Chain(k - 1)[k - 1 := if k == 1 then ROOT else k - 2]
  }

  lemma {:induction false} ChainClimbs(k: nat)
    requires 0 < k <= 255
    ensures Climbs(Chain(k), k - 1, ROOT, k)
  {
    if k > 1 {
      ChainClimbs(k - 1);
      ClimbsInLarger(Chain(k - 1), k - 1, k - 2, k - 2, ROOT, k - 1);
    } else {
      assert Climbs(Chain(1), ROOT, ROOT, 0);
    }
  }

  /** 255 modules in a chain: the deepest node is at depth 255, and `max_depth` is 0. */
  method FullChain() returns (t: Tracker)
    ensures t.Valid() && t.parents == Chain(255)
    ensures t.Deepest(255) && t.MaxDepth() == 0
  {
    hide Tracker.Valid, Tracker.Deepest, Relisted;
    t := new Tracker();
    var last := t.AddNode(0, null);
    assert t.parents == Chain(1) by { assert Chain(0) == map[]; }
    for k := 1 to 255
      invariant fresh(t) && fresh(t.nodes) && t.Valid() && t.parents == Chain(k)
      invariant last in t.nodes && last.addr == k - 1
    {
      last := Lengthen(t, last, k);
    }
    ChainDepth(t, last);
  }

  method Lengthen(t: Tracker, last: Node, k: nat) returns (next: Node)
    requires 0 < k < 255 && t.Valid() && t.parents == Chain(k) && last in t.nodes && last.addr == k - 1
    modifies t, t.nodes
    ensures t.Valid() && t.parents == Chain(k + 1) && fresh(t.nodes - old(t.nodes))
    ensures next in t.nodes && next.addr == k
  {
    hide Tracker.Valid, Relisted;
    RootOnly(t, last);
    t.AttachChild(last, Port(k, ""), 0);
    AddressInMap(t, k);
    next := t.nodeMap[k];
  }

  lemma RootOnly(t: Tracker, n: Node)
    requires t.Valid() && n in t.nodes && n.addr != ROOT
    ensures n != t.root
  {
  }

  lemma AddressInMap(t: Tracker, a: Byte)
    requires t.Valid() && a in t.parents
    ensures a in t.nodeMap && t.nodeMap[a] in t.nodes && t.nodeMap[a].addr == a
  {
    t.NodeAt(a);
  }

  lemma ChainDepth(t: Tracker, last: Node)
    requires t.Valid() && t.parents == Chain(255) && last in t.nodes && last.addr == 254
    ensures t.Deepest(255) && t.MaxDepth() == 0
  {
    hide Chain, Climbs, Tracker.Valid;
    ChainClimbs(255);
    AtDepth(t, last, 255);
    t.MaxDepthIff(255);
    LevelsAreBytes(t, last);
  }

  lemma LevelsAreBytes(t: Tracker, n: Node)
    requires t.Valid() && n in t.nodes && n.depth == 255
    ensures |t.depthList| == 256
  {
    hide Tracker.Valid;
    t.LevelCount();
    t.LevelIsDepth(255);
  }
}
