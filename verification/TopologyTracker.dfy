/**
  The topology tracker: nodes linked through `parent` and `children` fields, an address map and a
  by-depth index, all updated in place.  `parents` is the ghost record of which child map holds
  whom, `depths` that of all depth fields; everything the methods promise is stated against these.
 */
module TopologyTracker {
  import opened Bytes
  import opened TopologyGraph
  import opened TopologyDepths
  import opened TopologyIndex
  import opened TopologyNode
  import opened TopologyUpdates

  class Tracker {
    const root: Node
    var nodeMap: map<Byte, Node>
    var depthList: Levels
    ghost var nodes: set<Node>   // the nodes in the address map, and the root
    ghost var parents: Parents   // which child map holds whom
    ghost var depths: Depths     // everybody's depth field
    ghost var tags: map<Byte, PortTag>  // the port fields of all nodes but the root
    var updates: seq<Update>

    constructor ()
      ensures Valid() && QueueValid() && updates == []
      ensures Topology() == TopologyUpdates.Topology.Topology(map[], map[]) && Tree(parents)
      ensures fresh(nodes) && depthList == [[root]]
    {
      root := new Node(ROOT, null);
      nodeMap, depthList := map[], [];
      parents, depths, tags, updates := map[], map[ROOT := 0], map[], [];
      new;
      nodes := {root};
      AddDepth(root, 0);
      OneNewLevel([], root);
      assert IndexOf([], Table(), depths, {});
      AddedIndex([], Table(), depths, {}, root);
      assert {} + {ROOT} == {ROOT} == depths.Keys;
    }

    // ---------- What the fields mean together ----------

    /** All nodes by address, the root under 0xFF. */
    ghost function Table(): Table
      reads `nodeMap
    {
      nodeMap[ROOT := root]
    }

    ghost predicate Known()
      reads `nodeMap, `nodes
    {
      && root.addr == ROOT && ROOT !in nodeMap && root in nodes
      && (forall a :: a in nodeMap ==> nodeMap[a].addr == a && nodeMap[a] in nodes)
      && (forall n :: n in nodes ==> n.addr in Table() && Table()[n.addr] == n)
    }

    /** `parents` is exactly what the child maps say, and the parent fields agree (except `skip`'s). */
    ghost predicate Wired(skip: Node?)
      requires Known()
      reads `nodeMap, `nodes, `parents, nodes`children, nodes`parent
    {
      && (forall c {:trigger c in parents} :: c in parents ==>
            && c in nodeMap && parents[c] in Table()
            && c in Table()[parents[c]].children
            && (nodeMap[c] != skip ==> nodeMap[c].parent == Table()[parents[c]]))
      && (forall n, c {:trigger c in n.children} :: n in nodes && c in n.children ==>
            c in parents && parents[c] == n.addr && n.children[c] == nodeMap[c])
    }

    ghost predicate Linked()
      reads `nodeMap, `nodes, `parents, nodes`children, nodes`parent
    {
      Known() && Wired(null)
    }

    ghost predicate Mirrored()
      reads `nodeMap, `nodes, `depths, nodes`depth
    {
      && Known()
      && depths.Keys == Table().Keys
      && depths[ROOT] == 0
      && forall n :: n in nodes ==> n.depth == depths[n.addr]
    }

    ghost predicate Indexed(s: set<Byte>)
      reads `nodeMap, `depths, `depthList
    {
      IndexOf(depthList, Table(), depths, s)
    }

    /** The parent field of `n`, if set, points to a node of the graph. */
    ghost predicate Pointed(n: Node)
      reads `nodes, n`parent
    {
      n.parent != null ==> n.parent in nodes
    }

    /** The depth that the parent field gives `n`. */
    ghost function DepthDue(n: Node): Byte
      requires Mirrored() && Pointed(n)
      reads `nodeMap, `nodes, `depths, nodes`depth, n`parent
    {
      if n.parent == null then 0 else Next(depths[n.parent.addr])
    }

    lemma Addressed(n: Node, below: Parents, start: Byte)
      requires Linked() && Mirrored() && n in nodes && n != root && Pointed(n)
      ensures n.addr in depths && n.addr != ROOT
      ensures n.addr in parents ==> n.parent != null && parents[n.addr] == n.parent.addr
      ensures Cut(below, start) && n.addr in below ==> n.parent != null && below[n.addr] == n.parent.addr
    {
    }

    /** `below` is the graph without the link of the node a recalculation started from. */
    ghost predicate Cut(below: Parents, start: Byte)
      reads `parents
    {
      below == parents - {start}
    }

    lemma CutWithin(below: Parents, start: Byte)
      requires Linked() && Mirrored() && Cut(below, start)
      ensures Within(below, depths) && start !in below
    {
    }

    /** What the child map of `node` says about an entry. */
    lemma ChildOf(node: Node, c: Byte, below: Parents, caller: Node)
      requires Linked() && Mirrored() && node in nodes && c in node.children
      requires caller in nodes && Cut(below, caller.addr)
      ensures var child := node.children[c];
              && child in nodes && child != root && child.addr == c && child.parent == node
              && c in depths
              && (if child == caller then c !in below else c in below && below[c] == node.addr)
    {
    }

    lemma NotChildOf(node: Node, c: Byte, below: Parents, start: Byte)
      requires Linked() && Cut(below, start) && node in nodes && c !in node.children
      ensures !(c in below && below[c] == node.addr)
    {
    }

    // ---------- The by-depth index ----------

    method RemoveDepth(node: Node, depth: Byte)
      modifies `depthList
      ensures depthList == Removed(old(depthList), node.addr, depth)
    {
      hide Without, Removed;
      RemovedIs(depthList, node.addr, depth);
      if depth >= |depthList| { return; }
      ghost var before := depthList[depth];
      var i := 0;
      while i < |depthList[depth]|
        invariant depth < |depthList| == |old(depthList)|
        invariant 0 <= i <= |depthList[depth]|
        invariant depthList == old(depthList)[depth := depthList[depth]]
        invariant Without(before, node.addr) == depthList[depth][..i] + Without(depthList[depth][i..], node.addr)
        decreases |depthList[depth]| - i
      {
        var level := depthList[depth];
        WithoutNext(level, i, node.addr);
        if level[i].addr == node.addr {
          depthList := depthList[depth := level[..i] + level[i + 1..]];
          assert depthList[depth][..i] == level[..i] && depthList[depth][i..] == level[i + 1..];
        } else {
          assert level[..i + 1] == level[..i] + [level[i]];
          i := i + 1;
        }
      }
      WithoutEnd(depthList[depth], node.addr);
      if depth == |depthList| - 1 && depthList[depth] == [] {
        depthList := depthList[..|depthList| - 1];
        assert depthList == old(depthList)[..depth];
      }
    }

    method AddDepth(node: Node, depth: Byte)
      modifies `depthList
      ensures depthList == Added(old(depthList), node, depth)
    {
      while depth >= |depthList|
        invariant Extended(depthList, depth) == Extended(old(depthList), depth)
        decreases depth as int + 1 - |depthList|
      {
        depthList := depthList + [[]];
      }
      depthList := depthList[depth := depthList[depth] + [node]];
    }

    // ---------- Depth recalculation ----------

    /**
      Recalculates the depths below `node`.  `visited` records the nodes that are given a new depth, in
      order: all that climb to `node`, each exactly once, however the recursion gets around.
     */
    method UpdateDepth(node: Node, caller: Node?, ghost below: Parents, ghost k: nat, ghost listed: bool)
      returns (ghost visited: seq<Byte>)
      requires Linked() && Mirrored() && node in nodes && node != root && Pointed(node)
      requires caller != null ==> caller in nodes && node.parent != null
      requires var start := (if caller == null then node else caller).addr;
               Cut(below, start) && (caller != node ==> Climbs(below, node.addr, start, k))
      requires caller != null ==> listed
      requires Indexed(if listed then depths.Keys else depths.Keys - {node.addr})
      modifies `depthList, `depths, nodes`depth
      ensures Mirrored() && Indexed(depths.Keys) && depths.Keys == old(depths).Keys
      ensures caller == node ==> depths == old(depths) && visited == []
      ensures caller != node ==> Recalculated(below, node.addr, old(DepthDue(node)), old(depths), depths)
      ensures caller != node ==> VisitsOnce(below, node.addr, visited)
      ensures caller != node && node.children == map[] ==>
                depths == old(depths)[node.addr := old(DepthDue(node))]
                && depthList == Relisted(old(depthList), node, old(node.depth), old(DepthDue(node)))
      decreases if caller == node then 0 else 1 + |below| - k, 2
    {
      hide IndexOf, Wired, Known, Mirrored, Cut, Recalculated, Partial, Climbs, AncestorOrSelf, Removed, Added,
        VisitsOnce, VisitsUnder;
      var caller_ := caller;
      visited := [];
      if caller == null {
        caller_ := node;
      } else if caller == node {
        return;
      }
      Addressed(node, below, caller_.addr);
      CutWithin(below, caller_.addr);
      ClimbsBound(below, node.addr, caller_.addr, k);
      ghost var d := DepthDue(node);
      Reindex(node, listed);
      ghost var kids := UpdateChildren(node, caller_, below, k);
      visited := [node.addr] + kids;
      AllDone(below, caller_.addr, node.addr, k, d, old(depths), depths);
      SelfVisited(below, caller_.addr, node.addr, k, kids);
    }

    method UpdateChildren(node: Node, caller: Node, ghost below: Parents, ghost k: nat)
      returns (ghost visited: seq<Byte>)
      requires Linked() && Mirrored() && node in nodes && caller in nodes
      requires Cut(below, caller.addr) && Climbs(below, node.addr, caller.addr, k)
      requires Indexed(depths.Keys)
      modifies `depthList, `depths, nodes`depth
      ensures Mirrored() && Indexed(depths.Keys)
      ensures depths.Keys == old(depths).Keys && Partial(below, node.addr, 256, old(depths), depths)
      ensures VisitsUnder(below, node.addr, 256, visited)
      ensures node.children == map[] ==> depthList == old(depthList) && depths == old(depths)
      decreases 1 + |below| - k, 1
    {
      hide IndexOf, Wired, Known, Mirrored, Cut, Partial, Climbs, VisitsUnder;
      assert Partial(below, node.addr, 0, depths, depths) by { NoneDone(below, node.addr, depths); }
      CutWithin(below, caller.addr);
      ClimbsBound(below, node.addr, caller.addr, k);
      NoneVisited(below, node.addr);
      visited := [];
      for c := 0 to 256
        invariant Mirrored() && Indexed(depths.Keys)
        invariant depths.Keys == old(depths).Keys && Partial(below, node.addr, c, old(depths), depths)
        invariant VisitsUnder(below, node.addr, c, visited)
        invariant node.children == map[] ==> depthList == old(depthList) && depths == old(depths)
      {
        ghost var kids := [];
        if c in node.children {
          ChildOf(node, c, below, caller);
          kids := VisitChild(node.children[c], caller, below, node.addr, k, old(depths));
        } else {
          NotChildOf(node, c, below, caller.addr);
          NoChild(below, node.addr, c, old(depths), depths);
        }
        ChildVisited(below, caller.addr, node.addr, k, c, visited, kids);
        visited := visited + kids;
      }
    }

    method VisitChild(child: Node, caller: Node, ghost below: Parents, ghost r: Byte, ghost k: nat, ghost first: Depths)
      returns (ghost visited: seq<Byte>)
      requires Linked() && Mirrored() && Indexed(depths.Keys)
      requires child in nodes && caller in nodes && child != root
      requires child.parent != null && child.parent in nodes && child.parent.addr == r
      requires Cut(below, caller.addr) && caller.addr !in below && Climbs(below, r, caller.addr, k) && k <= |below|
      requires if child == caller then child.addr !in below
               else child.addr in below && below[child.addr] == r
      requires Within(below, first) && Partial(below, r, child.addr, first, depths)
      modifies `depthList, `depths, nodes`depth
      ensures Mirrored() && Indexed(depths.Keys)
      ensures depths.Keys == old(depths).Keys && Partial(below, r, child.addr + 1, first, depths)
      ensures if child == caller then visited == [] else VisitsOnce(below, child.addr, visited)
      decreases 1 + |below| - k, 0
    {
      hide IndexOf, Indexed, Table, Wired, Known, Linked, Mirrored, Cut, Within, Partial, Recalculated, Climbs,
        AncestorOrSelf,
        Under, VisitsOnce, Removed, Added;
      if child != caller {
        StepDown(below, caller.addr, r, k, child.addr);
      }
      ParentHasDepth(child);
      visited := UpdateDepth(child, caller, below, k + 1, true);
      Visited(below, caller.addr, r, k, child.addr, first, old(depths), depths);
    }

    lemma ParentHasDepth(n: Node)
      requires Mirrored() && n.parent != null && n.parent in nodes
      ensures n.parent.addr in depths && DepthDue(n) == Next(depths[n.parent.addr])
    {
    }

    method SetDepth(node: Node, d: Byte)
      requires Mirrored() && node in nodes && node != root
      modifies `depths, node`depth
      ensures Mirrored() && node.depth == d && depths == old(depths)[node.addr := d]
    {
      node.depth := d;
      depths := depths[node.addr := d];
    }

    /** The part of a recalculation that concerns the node itself. */
    method Reindex(node: Node, ghost listed: bool)
      requires Mirrored() && node in nodes && node != root && Pointed(node)
      requires Indexed(if listed then depths.Keys else depths.Keys - {node.addr})
      modifies `depthList, `depths, node`depth
      ensures Mirrored() && Indexed(depths.Keys)
      ensures depths == old(depths)[node.addr := old(DepthDue(node))]
      ensures depthList == Relisted(old(depthList), node, old(node.depth), old(DepthDue(node)))
    {
      hide IndexOf, Removed, Added, Mirrored, DepthDue;
      ghost var levels, table, before := depthList, Table(), depths;
      DueFrom(node);
      Listing(node);
      RemoveDepth(node, node.depth);
      var d: Byte := 0;
      if node.parent != null {
        d := Next(node.parent.depth);
      }
      SetDepth(node, d);
      assert depths.Keys == before.Keys && Table() == table;
      RelistedIndex(levels, table, before, if listed then before.Keys else before.Keys - {node.addr}, node, d);
      AddDepth(node, node.depth);
    }

    lemma Listing(node: Node)
      requires Mirrored() && node in nodes
      ensures node.addr in depths && depths[node.addr] == node.depth && node.addr in Table() &&
              Table()[node.addr] == node
      ensures forall b :: b in Table() ==> Table()[b].addr == b
    {
    }

    // ---------- Linking nodes ----------

    ghost predicate Tagged()
      reads `nodeMap, `nodes, `tags, nodes`portId, nodes`portName
    {
      && tags.Keys == nodeMap.Keys
      && forall n :: n in nodes && n.addr in tags ==> tags[n.addr] == PortTag(n.portId, n.portName)
    }

    /** Points `node` to a new parent, or to none, and recalculates the depths below it. */
    method SetParent(node: Node, parent: Node?, ghost listed: bool)
      requires Known() && Mirrored() && Wired(node) && Tagged()
      requires node in nodes && node != root && (parent != null ==> parent in nodes)
      requires node.addr in parents ==> parent != null && parents[node.addr] == parent.addr
      requires Indexed(if listed then depths.Keys else depths.Keys - {node.addr})
      requires Exact(parents - {node.addr}, depths)
      modifies `depthList, `depths, `tags, nodes`depth, node`parent, node`portId, node`portName
      ensures Linked() && Mirrored() && Tagged() && Indexed(depths.Keys) && Exact(parents, depths)
      ensures depths.Keys == old(depths).Keys
      ensures node.parent == parent && tags == old(tags)[node.addr := TOP_TAG]
      ensures node.children == map[] ==>
                var d := if parent == null then 0 else Next(old(parent.depth));
                depths == old(depths)[node.addr := d] && depthList == Relisted(old(depthList), node, old(node.depth), d)
    {
      hide IndexOf, Indexed, Wired, Known, Mirrored, Tagged, Exact, Climbs, AncestorOrSelf, Recalculated, Within,
        Removed, Added,
        VisitsOnce, DepthDue;
      Repoint(node, parent);
      SetPort(node, 0xFF, "");
      ghost var below := parents - {node.addr};
      ClimbsSelf(below, node.addr);
      CutWithin(below, node.addr);
      Addressed(node, below, node.addr);
      DueFrom(node);
      ghost var d := DepthDue(node);
      ghost var visited := UpdateDepth(node, null, below, 0, listed);
      DetachedExact(below, node.addr, d, old(depths), depths);
      if parent != null {
        RecalculatedExact(below, node.addr, parent.addr, old(depths), depths);
      }
      assert parents == if node.addr in parents then below[node.addr := parent.addr] else below;
    }

    lemma DueFrom(n: Node)
      requires Mirrored() && Pointed(n)
      ensures DepthDue(n) == if n.parent == null then 0 else Next(n.parent.depth)
      ensures n.parent != null ==> n.parent.addr in depths && depths[n.parent.addr] == n.parent.depth
    {
    }

    method SetPort(node: Node, id: Byte, name: string)
      requires Known() && Tagged() && node in nodes && node != root
      modifies `tags, node`portId, node`portName
      ensures Tagged() && tags == old(tags)[node.addr := PortTag(id, name)]
    {
      node.portId := id;
      node.portName := name;
      tags := tags[node.addr := PortTag(id, name)];
    }

    method Repoint(node: Node, parent: Node?)
      requires Known() && Wired(node)
      requires node in nodes && node != root && (parent != null ==> parent in nodes)
      requires node.addr in parents ==> parent != null && parents[node.addr] == parent.addr
      modifies node`parent
      ensures Linked() && node.parent == parent && ROOT !in parents
    {
      node.parent := parent;
    }

    method AddChild(node: Node, child: Node, ghost listed: bool)
      requires Linked() && Mirrored() && Tagged()
      requires node in nodes && child in nodes && child != root && child.addr !in parents
      requires Indexed(if listed then depths.Keys else depths.Keys - {child.addr})
      requires Exact(parents, depths)
      modifies `depthList, `depths, `tags, `parents, nodes
      ensures Linked() && Mirrored() && Tagged() && Indexed(depths.Keys) && Exact(parents, depths)
      ensures depths.Keys == old(depths).Keys
      ensures parents == old(parents)[child.addr := node.addr]
      ensures tags == old(tags)[child.addr := TOP_TAG]
      ensures node != child ==> child.children == old(child.children)
      ensures old(child.children) == map[] && node != child ==>
                depths == old(depths)[child.addr := Next(old(node.depth))]
                && depthList == Relisted(old(depthList), child, old(child.depth), Next(old(node.depth)))
    {
      hide IndexOf, Indexed, Wired, Known, Mirrored, Tagged, Exact, Removed, Added;
      assert child.addr !in node.children by { NotInChildren(node, child); }
      if child.addr !in node.children {
        Enter(node, child);
        assert parents - {child.addr} == old(parents);
        SetParent(child, node, listed);
      }
    }

    lemma NotInChildren(node: Node, child: Node)
      requires Linked() && node in nodes && child.addr !in parents
      ensures child.addr !in node.children
    {
    }

    method Enter(node: Node, child: Node)
      requires Linked()
      requires node in nodes && child in nodes && child != root && child.addr !in parents
      modifies `parents, node`children
      ensures Known() && Wired(child)
      ensures parents == old(parents)[child.addr := node.addr]
    {
      node.children := node.children[child.addr := child];
      parents := parents[child.addr := node.addr];
    }

    // ---------- Whole operations ----------

    ghost predicate Valid()
      reads `nodeMap, `nodes, `depths, `tags, `parents, `depthList, nodes
    {
      && Linked() && Mirrored() && Tagged() && Indexed(depths.Keys)
      && Exact(parents, depths)
      && parents.Keys == nodeMap.Keys
    }

    ghost predicate QueueValid()
      reads `updates
    {
      forall i :: 0 <= i < |updates| ==> Admissible(updates[i])
    }

    ghost function Topology(): Topology
      reads `parents, `tags
    {
      TopologyUpdates.Topology.Topology(parents, tags)
    }

    method RemoveChild(node: Node, address: Byte)
      requires Linked() && node in nodes && address in parents && parents[address] == node.addr
      modifies `parents, node`children
      ensures Linked() && parents == old(parents) - {address} && node.children == old(node.children) - {address}
    {
      node.children := node.children - {address};
      parents := parents - {address};
    }

    method CreateNode(address: Byte, parent: Node?) returns (node: Node)
      requires Valid() && address != ROOT && address !in nodeMap
      modifies `nodeMap, `nodes, `depths, `tags
      ensures Detached(node, false)
      ensures fresh(node) && node.addr == address && nodes == old(nodes) + {node}
      ensures node.children == map[] && node.depth == 0
      ensures nodeMap.Keys == old(nodeMap).Keys + {address}
      ensures tags.Keys == old(tags).Keys + {address} && tags - {address} == old(tags)
    {
      hide IndexOf, Wired, Exact, Known, Mirrored, Tagged;
      node := new Node(address, parent);
      Unused(address);
      ghost var before := Table();
      Register(node);
      assert Table() - {address} == before;
      RegisterFields(node);
      RegisterDepth(node, old(depths));
    }

    lemma Unused(address: Byte)
      requires Valid() && address != ROOT && address !in nodeMap
      ensures address !in depths && address !in tags && (forall n :: n in nodes ==> n.addr != address)
      ensures depths.Keys == Table().Keys && tags.Keys == nodeMap.Keys && depths[ROOT] == 0
      ensures forall n :: n in nodes ==> n.depth == depths[n.addr]
      ensures forall n :: n in nodes && n.addr in tags ==> tags[n.addr] == PortTag(n.portId, n.portName)
    {
    }

    /** The index is still that of the nodes there were before. */
    lemma RegisterDepth(node: Node, before: Depths)
      requires Known() && Mirrored() && node in nodes && node.addr !in before && node.addr != ROOT
      requires depths == before[node.addr := 0]
      requires IndexOf(depthList, Table() - {node.addr}, before, before.Keys)
      requires node.addr !in parents && Exact(parents, before)
      ensures Indexed(depths.Keys - {node.addr}) && Exact(parents, depths)
    {
      hide IndexOf, Known, Exact, Climbs;
      OthersIrrelevant(depthList, Table() - {node.addr}, Table(), before, depths, before.Keys);
      assert depths.Keys - {node.addr} == before.Keys;
      NewcomerExact(parents, before, node.addr);
    }

    method Register(node: Node)
      requires Linked() && node !in nodes && node.addr !in nodeMap && node.addr != ROOT && node.children == map[]
      modifies `nodeMap, `nodes
      ensures Linked() && nodeMap == old(nodeMap)[node.addr := node] && nodes == old(nodes) + {node}
      ensures node.addr !in parents
    {
      nodeMap := nodeMap[node.addr := node];
      nodes := nodes + {node};
    }

    method RegisterFields(node: Node)
      requires Known() && node in nodes && node != root && node.depth == 0
      requires depths.Keys == Table().Keys - {node.addr} && depths[ROOT] == 0
      requires tags.Keys == nodeMap.Keys - {node.addr}
      requires forall n :: n in nodes && n != node ==> n.depth == depths[n.addr]
      requires forall n :: n in nodes && n.addr in tags ==> tags[n.addr] == PortTag(n.portId, n.portName)
      modifies `depths, `tags
      ensures Mirrored() && Tagged()
      ensures depths == old(depths)[node.addr := 0] && tags.Keys == old(tags).Keys + {node.addr}
      ensures tags - {node.addr} == old(tags)
    {
      depths := depths[node.addr := 0];
      tags := tags[node.addr := PortTag(node.portId, node.portName)];
    }

    /**
      Fetches or creates the node at `address`.  Without a parent the node goes below the root, wherever
      it was before; with one it is detached, and the caller adds it to the parent's child map, unless it
      is there already.
     */
    method AddNode(address: Byte, parent: Node?) returns (node: Node)
      requires Valid() && address != ROOT && (parent != null ==> parent in nodes)
      modifies `nodeMap, `nodes, `depths, `tags, `parents, `depthList, nodes
      ensures node.addr == address && node in nodes && node != root && old(nodes) <= nodes && fresh(nodes - old(nodes))
      ensures nodeMap.Keys == old(nodeMap).Keys + {address}
      ensures parent == null ==> Valid() && Topology() == AtTop(old(Topology()), address)
      ensures parent != null && address in old(parent.children) ==> Valid() && Topology() == old(Topology())
      ensures parent != null && address !in old(parent.children) ==>
                && Detached(node, address in old(nodeMap)) && parents == old(parents) - {address}
                && tags - {address} == old(tags) - {address}
      ensures address !in old(nodeMap) && parent == null ==> depthList == Relisted(old(depthList), node, 0, 1)
      ensures address in old(nodeMap) ==> node == old(nodeMap)[address]
      ensures address in old(nodeMap) && parent != null && address !in old(parent.children)
              && old(nodeMap[address].children) == map[] ==>
                node.children == map[] && depths == old(depths)[address := Next(old(parent.depth))]
                && depthList == Relisted(old(depthList), node, old(nodeMap[address].depth), Next(old(parent.depth)))
    {
      hide IndexOf, Wired, Known, Exact, Indexed, Mirrored, Tagged, Removed, Added, Relisted;
      if address !in nodeMap {
        if parent != null {
          NotAChild(address, parent);
        }
        node := AddNew(address, parent);
      } else {
        KnownNodes();
        node := nodeMap[address];
        ParentOf(node);
        AddOld(node, parent);
      }
    }

    /** `AddNode` for an address that is not in the map. */
    method AddNew(address: Byte, parent: Node?) returns (node: Node)
      requires Valid() && address != ROOT && address !in nodeMap
      modifies `nodeMap, `nodes, `depths, `tags, `parents, `depthList, nodes
      ensures node.addr == address && node != root && nodes == old(nodes) + {node} && fresh(node)
      ensures nodeMap.Keys == old(nodeMap).Keys + {address}
      ensures parent == null ==>
                && Valid() && Topology() == AtTop(old(Topology()), address)
                && depthList == Relisted(old(depthList), node, 0, 1)
      ensures parent != null ==>
                && Detached(node, false) && parents == old(parents) - {address}
                && tags - {address} == old(tags) - {address}
    {
      hide IndexOf, Wired, Known, Exact, Indexed, Mirrored, Tagged, Removed, Added, Relisted;
      Unused(address);
      ghost var before := tags;
      node := CreateNode(address, parent);
      assert old(parents) - {address} == old(parents) && before - {address} == before;
      if parent == null {
        ghost var tags' := tags;
        AddTop(node, false);
        SameTop(before, tags', address);
      }
    }

    /** `AddNode` for a node that exists. */
    method AddOld(node: Node, parent: Node?)
      requires Valid() && node in nodes && node != root && (parent != null ==> parent in nodes)
      modifies `depths, `tags, `parents, `depthList, nodes
      ensures parent == null ==> Valid() && Topology() == AtTop(old(Topology()), node.addr)
      ensures parent != null && parent == old(node.parent) ==> Valid() && Topology() == old(Topology())
      ensures parent != null && parent != old(node.parent) ==>
                && Detached(node, true) && parents == old(parents) - {node.addr}
                && tags - {node.addr} == old(tags) - {node.addr}
                && (old(node.children) == map[] ==>
                      && node.children == map[] && depths == old(depths)[node.addr := Next(old(parent.depth))]
                      && depthList == Relisted(old(depthList), node, old(node.depth), Next(old(parent.depth))))
    {
      hide IndexOf, Wired, Known, Exact, Indexed, Mirrored, Tagged, Removed, Added, Relisted;
      ParentOf(node);
      if node.parent != parent {
        ghost var before := tags;
        Rehome(node, parent);
        OnlyThere(before, node.addr, TOP_TAG);
      }
      if parent == null {
        AddTop(node, true);
      }
    }

    lemma OnlyThere(t: map<Byte, PortTag>, c: Byte, x: PortTag)
      ensures t[c := x] - {c} == t - {c} && t[c := x][c := x] == t[c := x]
    {
    }

    lemma NotAChild(address: Byte, parent: Node)
      requires Linked() && address !in nodeMap && parent in nodes
      ensures address !in parent.children
    {
    }

    lemma SameTop(t: map<Byte, PortTag>, t': map<Byte, PortTag>, c: Byte)
      requires c !in t && t' - {c} == t
      ensures t'[c := TOP_TAG] == t[c := TOP_TAG]
    {
      forall b | b in t' && b != c ensures b in t && t[b] == t'[b] {
        assert b in t' - {c};
      }
      forall b | b in t ensures b in t' && t[b] == t'[b] {
        assert b in t' - {c};
      }
    }

    /** Hangs a detached node below the root. */
    method AddTop(node: Node, ghost listed: bool)
      requires Detached(node, listed) && nodeMap.Keys == parents.Keys + {node.addr}
      modifies `depthList, `depths, `tags, `parents, nodes
      ensures Valid() && parents == old(parents)[node.addr := ROOT] && tags == old(tags)[node.addr := TOP_TAG]
      ensures old(node.children) == map[] ==> depthList == Relisted(old(depthList), node, old(node.depth), 1)
    {
      hide IndexOf, Wired, Exact, Indexed, Tagged, Relisted;
      AddChild(root, node, listed);
    }

    lemma KnownNodes()
      requires Known()
      ensures root in nodes && root.addr == ROOT
      ensures forall a :: a in nodeMap ==> nodeMap[a].addr == a && nodeMap[a] in nodes && nodeMap[a] != root
    {
    }

    /** The middle of `AddNode`: a node that exists leaves its parent for another or for none. */
    method Rehome(node: Node, parent: Node?)
      requires Valid() && node in nodes && node != root && node.parent != parent
      requires parent != null ==> parent in nodes
      modifies `depths, `tags, `parents, `depthList, nodes
      ensures Detached(node, true)
      ensures parents == old(parents) - {node.addr} && tags == old(tags)[node.addr := TOP_TAG]
      ensures old(node.children) == map[] ==>
                var d := if parent == null then 0 else Next(old(parent.depth));
                && node.children == map[] && depths == old(depths)[node.addr := d]
                && depthList == Relisted(old(depthList), node, old(node.depth), d)
    {
      hide IndexOf, Wired, Known, Exact, Indexed, Mirrored, Tagged, Removed, Added;
      ParentOf(node);
      FewerExact(parents, {node.addr}, depths);
      if node.parent != null {
        RemoveChild(node.parent, node.addr);
      }
      assert parents - {node.addr} == parents;
      WiredExcept(node);
      SetParent(node, parent, true);
    }

    lemma WiredExcept(skip: Node)
      requires Linked()
      ensures Wired(skip)
    {
    }

    /** Part of the graph but in nobody's child map; `listed` says whether the index has it. */
    ghost predicate Detached(node: Node, listed: bool)
      reads this, nodes
    {
      && Linked() && Mirrored() && Tagged() && Exact(parents, depths)
      && Indexed(if listed then depths.Keys else depths.Keys - {node.addr})
      && node in nodes && node != root && node.addr !in parents && node.addr in nodeMap
    }

    lemma ParentOf(node: Node)
      requires Valid() && node in nodes && node != root
      ensures node.addr in nodeMap && nodeMap[node.addr] == node && node.addr in parents
      ensures node.parent != null && node.parent in nodes && parents[node.addr] == node.parent.addr
      ensures forall p :: p in nodes && p.addr == node.parent.addr ==> p == node.parent
      ensures forall p :: p in nodes ==> (node.addr in p.children <==> p == node.parent)
    {
    }

    lemma SameUpdate(t: map<Byte, PortTag>, t': map<Byte, PortTag>, c: Byte, x: PortTag)
      requires t - {c} == t' - {c}
      ensures t[c := x] == t'[c := TOP_TAG][c := x]
    {
      forall b | b in t && b != c ensures b in t' && t'[b] == t[b] {
        assert b in t - {c} && (t - {c})[b] == t[b] && (t' - {c})[b] == t'[b];
      }
      forall b | b in t' && b != c ensures b in t {
        assert b in t' - {c};
      }
    }

    /** One port of a downstream report. */
    method AttachChild(node: Node, port: Port, ind: Byte)
      requires Valid() && node in nodes && node != root
      modifies `nodeMap, `nodes, `depths, `tags, `parents, `depthList, nodes
      ensures Valid() && Topology() == AttachPort(old(Topology()), node.addr, port, ind)
      ensures old(nodes) <= nodes && fresh(nodes - old(nodes))
      ensures var c := port.addrCurrent;
              c != 0xFF && c in old(nodeMap) && c !in old(node.children) && c != node.addr &&
                old(nodeMap[c].children) == map[] ==>
                var child, d := old(nodeMap)[c], Next(old(node.depth));
                depthList == Relisted(Relisted(old(depthList), child, old(nodeMap[c].depth), d), child, d, d)
    {
      hide Wired, Known, Exact, Indexed, Mirrored, Tagged, Relisted;
      var c := port.addrCurrent;
      InChildren(node, c);
      if c != 0xFF && c !in node.children {
        Attach(node, c, ind, port.name);
      }
    }

    /** The branch of a port that names a module not known there yet. */
    method Attach(node: Node, c: Byte, ind: Byte, name: string)
      requires Valid() && node in nodes && node != root && c != ROOT && c !in node.children
      modifies `nodeMap, `nodes, `depths, `tags, `parents, `depthList, nodes
      ensures Valid() && parents == old(parents)[c := node.addr] && tags == old(tags)[c := PortTag(ind, name)]
      ensures old(nodes) <= nodes && fresh(nodes - old(nodes))
      ensures c in old(nodeMap) && c != node.addr && old(nodeMap[c].children) == map[] ==>
                var child, d := old(nodeMap)[c], Next(old(node.depth));
                depthList == Relisted(Relisted(old(depthList), child, old(nodeMap[c].depth), d), child, d, d)
    {
      hide Wired, Known, Exact, Indexed, Mirrored, Tagged, Relisted;
      DepthNow(node);
      ghost var listed, before := c in nodeMap, tags;
      var child := AddNode(c, node);
      ghost var tags' := tags;
      if listed && old(nodeMap[c].children) == map[] && c != node.addr {
        DepthNow(node);
        DepthNow(child);
      }
      Hook(node, child, ind, name, listed);
      SameUpdate(before, tags', c, PortTag(ind, name));
      assert parents == old(parents)[c := node.addr];
    }

    lemma DepthNow(n: Node)
      requires Mirrored() && n in nodes
      ensures n.addr in depths && depths[n.addr] == n.depth
    {
    }

    /** Enters a detached node into a child map and notes the port. */
    method Hook(node: Node, child: Node, ind: Byte, name: string, ghost listed: bool)
      requires Detached(child, listed) && node in nodes
      requires nodeMap.Keys == parents.Keys + {child.addr}
      modifies `depths, `tags, `parents, `depthList, nodes
      ensures Valid() && parents == old(parents)[child.addr := node.addr]
      ensures tags == old(tags)[child.addr := TOP_TAG][child.addr := PortTag(ind, name)]
      ensures old(child.children) == map[] && node != child ==>
                depthList == Relisted(old(depthList), child, old(child.depth), Next(old(node.depth)))
    {
      hide Wired, Known, Exact, Indexed, Mirrored, Tagged, Relisted;
      AddChild(node, child, listed);
      SetPort(child, ind, name);
    }

    lemma InChildren(node: Node, c: Byte)
      requires Linked() && node in nodes
      ensures c in node.children <==> c in parents && parents[c] == node.addr
    {
    }

    /** `child` is the only child of `node`, has none itself, and is not above it. */
    ghost predicate LoneLeaf(node: Node, child: Node)
      reads node, child
    {
      node.children == map[child.addr := child] && child.children == map[] && child != node.parent && child != node
    }

    /** Removes a module.  `lone` may name its only child, if that is a leaf, to learn what the index becomes. */
    method RemoveNode(address: Byte, ghost lone: Node?)
      requires Valid()
      requires lone != null ==> lone in nodes && address in nodeMap && LoneLeaf(nodeMap[address], lone)
      modifies `nodeMap, `nodes, `depths, `tags, `parents, `depthList, nodes
      ensures Valid() && Topology() == Remove(old(Topology()), address)
      ensures nodes <= old(nodes)
      ensures address in old(nodeMap) ==> nodes == old(nodes) - {old(nodeMap)[address]}
      ensures lone != null ==>
                depthList == Relisted(Removed(old(depthList), address, old(nodeMap[address].depth)), lone,
                  old(lone.depth), 1)
    {
      hide IndexOf, Wired, Known, Exact, Indexed, Mirrored, Tagged, RemoveUpTo, Climbs, Relisted, Removed;
      if address in nodeMap {
        var node := nodeMap[address];
        ghost var t := Topology();
        NodeAt(address);
        if lone != null {
          OtherAddress(node, lone);
        }
        Withdraw(node);
        AdoptChildren(node, t, lone);
        AllRemoved(t, address);
      }
    }

    lemma OtherAddress(n: Node, m: Node)
      requires Known() && n in nodes && m in nodes && n != m
      ensures n.addr != m.addr
    {
    }

    /** Hangs the children of a withdrawn node below the root, in the order of their addresses. */
    method AdoptChildren(node: Node, ghost t: Topology, ghost lone: Node?)
      requires Linked() && Mirrored() && Tagged() && Indexed(depths.Keys) && Exact(parents, depths)
      requires Topology() == RemoveUpTo(t, node.addr, 0) && t.parents.Keys == t.tags.Keys
      requires KidsOf(node, node.children, t, node.addr)
      requires lone != null ==> lone in nodes && node.children == map[lone.addr := lone] && lone.children == map[]
      modifies `depthList, `depths, `tags, `parents, nodes
      ensures Linked() && Mirrored() && Tagged() && Indexed(depths.Keys) && Exact(parents, depths)
      ensures Topology() == RemoveUpTo(t, node.addr, 256)
      ensures lone != null ==> depthList == Relisted(old(depthList), lone, old(lone.depth), 1)
    {
      hide IndexOf, Wired, Known, Exact, Indexed, Mirrored, Tagged, RemoveUpTo, Climbs, Relisted;
      for c := 0 to 256
        invariant Linked() && Mirrored() && Tagged() && Indexed(depths.Keys) && Exact(parents, depths)
        invariant Topology() == RemoveUpTo(t, node.addr, c)
        invariant lone != null && c <= lone.addr as int ==>
                    lone.children == map[] && lone.depth == old(lone.depth) && depthList == old(depthList)
        invariant lone != null && c > lone.addr as int ==>
                  depthList == Relisted(old(depthList), lone, old(lone.depth), 1)
      {
        RemoveStep(t, node.addr, c);
        if c in node.children {
          Adopt(node.children[c]);
        }
      }
    }

    lemma NodeAt(address: Byte)
      requires Valid() && address in nodeMap
      ensures nodeMap[address] in nodes && nodeMap[address] != root && nodeMap[address].addr == address
      ensures address in parents && parents.Keys == tags.Keys
    {
    }

    /** The children a withdrawn node still lists are the orphans. */
    ghost predicate KidsOf(node: Node, kids: map<Byte, Node>, t: Topology, address: Byte)
      reads `nodes
    {
      && node !in nodes
      && (forall c :: c in kids <==> c in t.parents && t.parents[c] == address && c != address)
      && (forall c :: c in kids ==> kids[c] in nodes && kids[c] != root && kids[c].addr == c)
    }

    method Adopt(child: Node)
      requires Linked() && Mirrored() && Tagged() && Indexed(depths.Keys) && Exact(parents, depths)
      requires child in nodes && child != root && child.addr !in parents
      modifies `depthList, `depths, `tags, `parents, nodes
      ensures Linked() && Mirrored() && Tagged() && Indexed(depths.Keys) && Exact(parents, depths)
      ensures Topology() == TopologyUpdates.Topology.Topology(
                old(parents)[child.addr := ROOT], old(tags)[child.addr := TOP_TAG])
      ensures old(child.children) == map[] ==> depthList == Relisted(old(depthList), child, old(child.depth), 1)
    {
      RootDepth();
      hide IndexOf, Wired, Exact, Indexed, Mirrored, Tagged;
      AddChild(root, child, true);
    }

    lemma RootDepth()
      requires Mirrored()
      ensures root in nodes && root.depth == 0 && root.addr == ROOT
    {
    }

    /** Takes a node out of every structure, leaving its children hanging nowhere. */
    method Withdraw(node: Node)
      requires Valid() && node in nodes && node != root
      modifies `nodeMap, `nodes, `depths, `tags, `parents, `depthList, nodes`children
      ensures Linked() && Mirrored() && Tagged() && Indexed(depths.Keys) && Exact(parents, depths)
      ensures Topology() == RemoveUpTo(old(Topology()), node.addr, 0)
      ensures nodeMap == old(nodeMap) - {node.addr} && nodes == old(nodes) - {node}
      ensures KidsOf(node, node.children, old(Topology()), node.addr)
      ensures depthList == Removed(old(depthList), node.addr, old(node.depth))
      ensures forall n :: n in nodes && n != old(node.parent) ==> n.children == old(n.children)
      ensures node.children == old(node.children) - {node.addr}
    {
      hide IndexOf, Wired, Known, Exact, Indexed, Mirrored, Tagged, Climbs, Removed, RemoveUpTo, KidsOf;
      ParentOf(node);
      NodeAt(node.addr);
      ghost var t := Topology();
      FewerExact(parents, {node.addr}, depths);
      RemoveChild(node.parent, node.addr);
      WithdrawDepth(node);
      Unregister(node, t);
    }

    method WithdrawDepth(node: Node)
      requires Mirrored() && node in nodes && node != root && Indexed(depths.Keys)
      modifies `depthList
      ensures Indexed(depths.Keys - {node.addr})
      ensures depthList == Removed(old(depthList), node.addr, node.depth)
    {
      hide IndexOf, Removed;
      RemovedIndex(depthList, Table(), depths, depths.Keys, node.addr);
      RemoveDepth(node, node.depth);
    }

    method Unregister(node: Node, ghost t: Topology)
      requires Linked() && Mirrored() && Tagged() && Indexed(depths.Keys - {node.addr}) && Exact(parents, depths)
      requires node in nodes && node != root
      requires parents == t.parents - {node.addr} && tags == t.tags && t.parents.Keys == t.tags.Keys
      modifies `nodeMap, `nodes, `depths, `tags, `parents
      ensures Linked() && Mirrored() && Tagged() && Indexed(depths.Keys) && Exact(parents, depths)
      ensures Topology() == RemoveUpTo(t, node.addr, 0)
      ensures nodeMap == old(nodeMap) - {node.addr} && nodes == old(nodes) - {node}
      ensures KidsOf(node, node.children, t, node.addr)
    {
      hide Wired, Known, Mirrored, Tagged, Exact, Climbs, RemoveUpTo, Orphans, IndexOf, Surplus, KidsOf;
      var a := node.addr;
      ghost var table, before := Table(), depths;
      RemoveNone(t, a);
      FewerExact(parents, Orphans(t, a), depths);
      FieldsOf(node);
      Unlist(node, Orphans(t, a));
      UnregisterFields(node);
      UnregisterDepth(a, table, before);
      KidsAreOrphans(node, t);
    }

    lemma KidsAreOrphans(node: Node, t: Topology)
      requires node !in nodes && forall c :: c in node.children <==> c in Orphans(t, node.addr)
      requires forall c :: c in Orphans(t, node.addr) ==>
                 node.children[c] in nodes && node.children[c] != root && node.children[c].addr == c
      ensures KidsOf(node, node.children, t, node.addr)
    {
    }

    /** For the nodes and addresses given, depth and tag records are right, and they still have `node`. */
    ghost predicate Surplus(node: Node, left: set<Node>, all: map<Byte, Node>)
      reads `depths, `tags, left`depth, left`portId, left`portName
    {
      && node.addr !in all && depths.Keys == all.Keys + {ROOT, node.addr} && depths[ROOT] == 0
      && tags.Keys == all.Keys + {node.addr}
      && (forall n :: n in left ==> n.addr in depths && n.depth == depths[n.addr])
      && (forall n :: n in left && n.addr in tags ==> tags[n.addr] == PortTag(n.portId, n.portName))
    }

    lemma FieldsOf(node: Node)
      requires Mirrored() && Tagged() && node in nodes && node != root
      ensures Surplus(node, nodes - {node}, nodeMap - {node.addr})
      ensures node.addr != ROOT && node.addr in Table() &&
              Table() - {node.addr} == (nodeMap - {node.addr})[ROOT := root]
    {
    }

    lemma UnregisterDepth(a: Byte, table: Table, before: Depths)
      requires Known() && Mirrored() && a != ROOT && a in table && Table() == table - {a} && depths == before - {a}
      requires IndexOf(depthList, table, before, before.Keys - {a}) && Exact(parents, before)
      ensures Indexed(depths.Keys) && Exact(parents, depths)
    {
      hide IndexOf, Exact, Known, Climbs;
      assert before.Keys - {a} == depths.Keys;
      OthersIrrelevant(depthList, table, Table(), before, depths, depths.Keys);
      FewerDepths(parents, before, a);
    }

    method Unlist(node: Node, ghost orphans: set<Byte>)
      requires Linked() && node in nodes && node != root && node.addr !in parents
      requires orphans == set c | c in parents && parents[c] == node.addr
      modifies `nodeMap, `nodes, `parents
      ensures Linked() && nodeMap == old(nodeMap) - {node.addr} && nodes == old(nodes) - {node}
      ensures parents == old(parents) - orphans
      ensures forall c :: c in node.children <==> c in orphans
      ensures forall c :: c in orphans ==>
                node.children[c] in nodes && node.children[c] != root && node.children[c].addr == c
    {
      InAllChildren(node);
      nodeMap := nodeMap - {node.addr};
      nodes := nodes - {node};
      parents := parents - orphans;
    }

    lemma InAllChildren(node: Node)
      requires Linked() && node in nodes
      ensures forall c :: c in node.children <==> c in parents && parents[c] == node.addr
      ensures forall c :: c in node.children ==>
                node.children[c] in nodes && node.children[c] != root && node.children[c].addr == c
    {
      forall c ensures c in node.children <==> c in parents && parents[c] == node.addr {
        InChildren(node, c);
      }
    }

    method UnregisterFields(node: Node)
      requires Known() && node !in nodes && node.addr != ROOT && Surplus(node, nodes, nodeMap)
      modifies `depths, `tags
      ensures Mirrored() && Tagged()
      ensures depths == old(depths) - {node.addr} && tags == old(tags) - {node.addr}
    {
      depths := depths - {node.addr};
      tags := tags - {node.addr};
    }

    lemma AllRemoved(t: Topology, a: Byte)
      requires t.parents.Keys == t.tags.Keys && a in t.parents
      ensures Remove(t, a) == RemoveUpTo(t, a, 256) && RemoveUpTo(t, a, 256).parents.Keys == t.parents.Keys - {a}
    {
    }

    // ---------- The update queue ----------

    method AddUpdate(update: Update)
      modifies `updates
      ensures updates == old(updates) + [update]
      ensures QueueValid() <==> old(QueueValid()) && Admissible(update)
    {
      updates := updates + [update];
      assert updates[|old(updates)|] == update;
      assert forall i :: 0 <= i < |old(updates)| ==> updates[i] == old(updates)[i];
    }

    method AttachDownstream(node: Node, ports: seq<Port>)
      requires Valid() && node in nodes && node != root
      modifies `nodeMap, `nodes, `depths, `tags, `parents, `depthList, nodes
      ensures Valid() && Topology() == AttachPorts(old(Topology()), node.addr, ports, |ports|)
      ensures fresh(nodes - old(nodes))
    {
      hide AttachPort, AttachPorts, Valid;
      var ind: Byte := 0;
      ghost var t := Topology();
      NoPorts(t, node.addr, ports);
      for k := 0 to |ports|
        invariant Valid() && node in nodes && old(nodes) <= nodes && fresh(nodes - old(nodes))
        invariant Topology() == AttachPorts(t, node.addr, ports, k)
        invariant ind == k % 256
      {
        AttachChild(node, ports[k], ind);
        OneMorePort(t, node.addr, ports, k);
        ind := (ind + 1) % 256;
      }
    }

    /**
      Applies the queued updates in order.  A null update stops the processing and stays at the head
      of the queue.
     */
    method ProcessUpdates()
      requires Valid() && QueueValid()
      modifies `nodeMap, `nodes, `depths, `tags, `parents, `depthList, `updates, nodes
      ensures Valid() && QueueValid() && fresh(nodes - old(nodes))
      ensures updates == [] || updates[0] == NullUpdate
      ensures |updates| <= |old(updates)|
      ensures var done := |old(updates)| - |updates|;
              && updates == old(updates)[done..]
              && (forall i :: 0 <= i < done ==> old(updates)[i] != NullUpdate)
              && Topology() == Run(old(Topology()), old(updates)[..done])
    {
      hide Valid, Admissible, Add, Remove, AttachPorts;
      ghost var i := 0;
      while updates != []
        invariant 0 <= i <= |old(updates)| && updates == old(updates)[i..]
        invariant Valid() && QueueValid() && fresh(nodes - old(nodes))
        invariant forall j :: 0 <= j < i ==> old(updates)[j] != NullUpdate
        invariant Topology() == Run(old(Topology()), old(updates)[..i])
        decreases |updates|
      {
        var update := updates[0];
        if update == NullUpdate { return; }
        RunOneMore(old(Topology()), old(updates), i);
        ApplyUpdate(update);
        updates := updates[1..];
        i := i + 1;
      }
    }

    method ApplyUpdate(update: Update)
      requires Valid() && update != NullUpdate && Admissible(update)
      modifies `nodeMap, `nodes, `depths, `tags, `parents, `depthList, nodes
      ensures Valid() && fresh(nodes - old(nodes))
      ensures Topology() == Apply(old(Topology()), update)
    {
      hide Remove, AttachPorts, Linked, Mirrored, Tagged, Indexed, Exact;
      if update.kind == ModuleDownstream && update.ports.Some? {
        if update.address in nodeMap {
          NodeAt(update.address);
          AttachDownstream(nodeMap[update.address], update.ports.value);
        }
      } else if update.kind == ModuleAdded && update.ports.Some? {
        if update.address !in nodeMap {
          var node := AddNode(update.address, null);
        }
      } else if update.kind == ModuleRemoved {
        RemoveNode(update.address, null);
      }
    }

    // ---------- Queries ----------

    method GetDepthList(depth: Byte) returns (level: seq<Node>)
      requires Valid()
      ensures NoRepeats(level)
      ensures forall n :: n in level <==> n in nodes && n.depth == depth
    {
      if depth < |depthList| {
        level := depthList[depth];
      } else {
        level := [];
      }
      LevelIsDepth(depth);
    }

    /** `max_depth`: the number of levels of the index, as a byte. */
    function MaxDepth(): Byte
      reads `depthList
    {
      |depthList| % 256
    }

    ghost predicate Deepest(d: Byte)
      reads `nodes, nodes`depth
    {
      (exists n :: n in nodes && n.depth == d) && forall n :: n in nodes ==> n.depth <= d
    }

    /**
      Exactly when `max_depth` is what it is meant to be, with `d` the depth of the deepest node.  It is one
      more than `d` if and only if the last level is in use and a byte holds the number of levels; it is `d`
      itself only for a lone root under 255 empty levels.
     */
    lemma MaxDepthIff(d: Byte)
      requires Valid() && Deepest(d)
      ensures 0 < |depthList| <= 256
      ensures MaxDepth() == d as int + 1 <==> |depthList| < 256 && depthList[|depthList| - 1] != []
      ensures MaxDepth() == d <==> |depthList| == 256 && d == 0
    {
      hide Valid;
      LevelCount();
      var n :| n in nodes && n.depth == d;
      LevelIsDepth(d);
      assert d < |depthList| && n in depthList[d];
      var top := |depthList| - 1;
      LevelIsDepth(top);
      if depthList[top] != [] {
        var m := depthList[top][0];
        assert m in depthList[top] && m in nodes && m.depth == top <= d;
      } else {
        assert n !in depthList[top];
      }
    }

    lemma LevelCount()
      requires Valid()
      ensures |depthList| <= 256
    {
    }

    lemma LevelIsDepth(depth: Byte)
      requires Valid()
      ensures forall n :: n in (if depth < |depthList| then depthList[depth] else []) <==>
              n in nodes && n.depth == depth
      ensures depth < |depthList| ==> NoRepeats(depthList[depth])
    {
      var table := Table();
      var level := if depth < |depthList| then depthList[depth] else [];
      forall n | n in level ensures n in nodes && n.depth == depth {
        var i :| 0 <= i < |level| && level[i] == n;
        assert Placed(depthList[depth][i], depth, table, depths, depths.Keys);
      }
      forall n | n in nodes && n.depth == depth ensures n in level {
        assert n.addr in depths && table[n.addr] == n;
      }
    }

    /**
      In every state, loops or not: a node that reaches the root has for its depth field the number
      of parent links up to the root, which a byte holds.
     */
    lemma DepthIsDistance(n: Node, d: nat)
      requires Valid() && n in nodes && Climbs(parents, n.addr, ROOT, d)
      ensures n.depth == d <= 255
    {
      ClimbsBound(parents, n.addr, ROOT, d);
      AddressCount(parents);
    }

    /** In a tree, the list for depth `d` holds exactly the nodes `d` links away from the root. */
    lemma DepthListIsDistance(d: Byte, n: Node)
      requires Valid() && Tree(parents) && n in nodes
      ensures (d < |depthList| && n in depthList[d]) <==> Climbs(parents, n.addr, ROOT, d)
    {
      LevelIsDepth(d);
      assert Rooted(parents, n.addr) by {
        if n == root {
          ClimbsSelf(parents, ROOT);
        } else {
          NodeAt(n.addr);
        }
      }
      var e: nat :| Climbs(parents, n.addr, ROOT, e);
      DepthIsDistance(n, e);
      if Climbs(parents, n.addr, ROOT, d) {
        DepthIsDistance(n, d);
      }
    }

    /** The parent and port fields of a node are those recorded. */
    lemma FieldsAgree(n: Node)
      requires Valid() && n in nodes && n != root
      ensures n.addr in parents && n.parent != null && n.parent.addr == parents[n.addr]
      ensures n.addr in tags && tags[n.addr] == PortTag(n.portId, n.portName)
    {
      ParentOf(n);
    }

    /** `parent` and `children` are inverse, and node and address map agree. */
    lemma LinksAgree(n: Node, c: Byte)
      requires Valid() && n in nodes
      ensures c in n.children <==> c in nodeMap && nodeMap[c].parent == n
      ensures c in n.children ==> n.children[c] == nodeMap[c] && nodeMap[c].addr == c
      ensures n != root ==> n.parent != null && n.parent in nodes && n.addr in n.parent.children
    {
      if c in nodeMap {
        NodeAt(c);
        ParentOf(nodeMap[c]);
      }
      if n != root {
        ParentOf(n);
      }
    }
  }
}
