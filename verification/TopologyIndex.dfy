/**
  The by-depth index as plain data: level `d` lists the nodes of depth `d`.  A node enters at the
  end of a level and leaves by address.
 */
module TopologyIndex {
  import opened Bytes
  import opened TopologyGraph
  import opened TopologyDepths
  import opened TopologyNode

  type Levels = seq<seq<Node>>
  type Table = map<Byte, Node>

  ghost predicate NoRepeats(level: seq<Node>)
  {
    forall i, j :: 0 <= i < j < |level| ==> level[i] != level[j]
  }

  /**
    The index holds the node of each address in `s` exactly once, at its depth, and nothing else.  Depths
    are bytes, so there are never more than 256 levels.
   */
  ghost predicate IndexOf(levels: Levels, table: Table, depths: Depths, s: set<Byte>)
  {
    && |levels| <= 256
    && (forall a :: a in s ==>
          a in table && a in depths && depths[a] < |levels| && table[a] in levels[depths[a]])
    && (forall d, i :: 0 <= d < |levels| && 0 <= i < |levels[d]| ==> Placed(levels[d][i], d, table, depths, s))
    && (forall d :: 0 <= d < |levels| ==> NoRepeats(levels[d]))
  }

  ghost predicate Placed(n: Node, d: int, table: Table, depths: Depths, s: set<Byte>)
  {
    n.addr in s && n.addr in table && table[n.addr] == n && n.addr in depths && depths[n.addr] == d
  }

  function Without(level: seq<Node>, addr: Byte): seq<Node>
  {
    if level == [] then []
    else if level[0].addr == addr then Without(level[1..], addr)
    else [level[0]] + Without(level[1..], addr)
  }

  /** Out of level `depth` by address; a last level left empty is dropped. */
  function Removed(levels: Levels, addr: Byte, depth: Byte): Levels
  {
    if depth >= |levels| then levels
    else
      var level := Without(levels[depth], addr);
      if depth == |levels| - 1 && level == [] then levels[..depth] else levels[depth := level]
  }

  lemma RemovedIs(levels: Levels, addr: Byte, depth: Byte)
    ensures depth >= |levels| ==> Removed(levels, addr, depth) == levels
    ensures depth < |levels| ==>
              var level := Without(levels[depth], addr);
              Removed(levels, addr, depth)
              == if depth == |levels| - 1 && level == [] then levels[..depth] else levels[depth := level]
  {
  }

  lemma WithoutNext(level: seq<Node>, i: nat, addr: Byte)
    requires i < |level|
    ensures Without(level[i..], addr)
         == (if level[i].addr == addr then [] else [level[i]]) + Without(level[i + 1..], addr)
  {
    assert level[i..][1..] == level[i + 1..];
  }

  lemma WithoutEnd(level: seq<Node>, addr: Byte)
    ensures level[..|level|] + Without(level[|level|..], addr) == level
  {
  }

  /** Levels up to `depth` exist. */
  function Extended(levels: Levels, depth: Byte): (r: Levels)
    ensures |r| == (if depth < |levels| then |levels| else depth as int + 1) && levels <= r
    ensures forall d :: |levels| <= d < |r| ==> r[d] == []
    decreases depth as int + 1 - |levels|
  {
    if depth < |levels| then levels else Extended(levels + [[]], depth)
  }

  function Added(levels: Levels, node: Node, depth: Byte): Levels
  {
    var r := Extended(levels, depth);
    r[depth := r[depth] + [node]]
  }

  lemma NoNewLevel(levels: Levels, node: Node, depth: Byte)
    requires depth < |levels|
    ensures Added(levels, node, depth) == levels[depth := levels[depth] + [node]]
  {
  }

  lemma OneNewLevel(levels: Levels, node: Node)
    requires |levels| < 256
    ensures Added(levels, node, |levels|) == levels + [[node]]
  {
    assert Extended(levels, |levels|) == Extended(levels + [[]], |levels|) == levels + [[]];
    var r := levels + [[]];
    assert r[|levels|] == [] && r[|levels|] + [node] == [node];
  }

  /** What re-indexing one node does: out of its old level, into the new one. */
  function Relisted(levels: Levels, node: Node, from: Byte, to: Byte): Levels
  {
    Added(Removed(levels, node.addr, from), node, to)
  }

  lemma {:induction false} WithoutFrom(level: seq<Node>, addr: Byte, i: nat) returns (j: nat)
    requires i < |Without(level, addr)|
    ensures i <= j < |level| && level[j] == Without(level, addr)[i] && level[j].addr != addr
  {
    if level[0].addr == addr {
      j := WithoutFrom(level[1..], addr, i);
      j := j + 1;
    } else if i == 0 {
      j := 0;
    } else {
      j := WithoutFrom(level[1..], addr, i - 1);
      j := j + 1;
    }
  }

  lemma {:induction false} WithoutKeeps(level: seq<Node>, addr: Byte, n: Node)
    requires n in level && n.addr != addr
    ensures n in Without(level, addr)
  {
    if level[0] != n {
      assert n in level[1..];
      WithoutKeeps(level[1..], addr, n);
    }
  }

  lemma {:induction false} WithoutNoRepeats(level: seq<Node>, addr: Byte)
    requires NoRepeats(level)
    ensures NoRepeats(Without(level, addr))
  {
    if level != [] {
      assert NoRepeats(level[1..]);
      WithoutNoRepeats(level[1..], addr);
      forall i | 0 <= i < |Without(level[1..], addr)| ensures Without(level[1..], addr)[i] != level[0] {
        var j := WithoutFrom(level[1..], addr, i);
      }
    }
  }

  /** Taking the node at `a` out leaves the index of the others. */
  lemma RemovedIndex(levels: Levels, table: Table, depths: Depths, s: set<Byte>, a: Byte)
    requires IndexOf(levels, table, depths, s)
    requires forall b :: b in table ==> table[b].addr == b
    requires a in depths
    ensures IndexOf(Removed(levels, a, depths[a]), table, depths, s - {a})
  {
    var d := depths[a];
    var r := Removed(levels, a, d);
    if d < |levels| {
      WithoutNoRepeats(levels[d], a);
      forall e, i | 0 <= e < |r| && 0 <= i < |r[e]| ensures Placed(r[e][i], e, table, depths, s - {a}) {
        if e == d {
          var j := WithoutFrom(levels[d], a, i);
          assert Placed(levels[d][j], d, table, depths, s);
        } else {
          assert Placed(levels[e][i], e, table, depths, s);
        }
      }
      forall b | b in s - {a} ensures depths[b] < |r| && table[b] in r[depths[b]] {
        assert table[b].addr == b;
        if depths[b] == d {
          WithoutKeeps(levels[d], a, table[b]);
        }
      }
    } else {
      forall e, i | 0 <= e < |r| && 0 <= i < |r[e]| ensures Placed(r[e][i], e, table, depths, s - {a}) {
        assert Placed(levels[e][i], e, table, depths, s);
      }
    }
  }

  /** Nodes outside the index may change depth, come and go. */
  lemma OthersIrrelevant(levels: Levels, table: Table, table': Table, depths: Depths, depths': Depths, s: set<Byte>)
    requires IndexOf(levels, table, depths, s)
    requires forall a :: a in s ==> a in table' && table'[a] == table[a] && a in depths' && depths'[a] == depths[a]
    ensures IndexOf(levels, table', depths', s)
  {
    forall d, i | 0 <= d < |levels| && 0 <= i < |levels[d]| ensures Placed(levels[d][i], d, table', depths', s) {
      assert Placed(levels[d][i], d, table, depths, s);
    }
  }

  lemma AddedIndex(levels: Levels, table: Table, depths: Depths, s: set<Byte>, node: Node)
    requires IndexOf(levels, table, depths, s)
    requires node.addr in table && table[node.addr] == node && node.addr in depths && node.addr !in s
    ensures IndexOf(Added(levels, node, depths[node.addr]), table, depths, s + {node.addr})
  {
    var d := depths[node.addr];
    var r := Added(levels, node, d);
    var x := Extended(levels, d);
    forall e, i | 0 <= e < |r| && 0 <= i < |r[e]| ensures Placed(r[e][i], e, table, depths, s + {node.addr}) {
      if e == d && i == |r[e]| - 1 {
        assert r[e][i] == node;
      } else {
        assert r[e][i] == x[e][i] && e < |levels|;
        assert Placed(levels[e][i], e, table, depths, s);
      }
    }
    forall e | 0 <= e < |r| ensures NoRepeats(r[e]) {
      if e == d && e < |levels| {
        forall i | 0 <= i < |levels[e]| ensures levels[e][i] != node {
          assert Placed(levels[e][i], e, table, depths, s);
        }
      }
    }
    forall b | b in s ensures depths[b] < |r| && table[b] in r[depths[b]] {
      assert table[b] in x[depths[b]];
    }
  }

  /** Out of the old level and into the new one: the index of everybody again, with the one new depth. */
  lemma RelistedIndex(levels: Levels, table: Table, depths: Depths, s: set<Byte>, node: Node, d: Byte)
    requires IndexOf(levels, table, depths, s) && (forall b :: b in table ==> table[b].addr == b)
    requires node.addr in table && table[node.addr] == node && node.addr in depths
    requires s == depths.Keys || s == depths.Keys - {node.addr}
    ensures IndexOf(Relisted(levels, node, depths[node.addr], d), table, depths[node.addr := d], depths.Keys)
  {
    hide IndexOf, Removed, Added;
    var a := node.addr;
    RemovedIndex(levels, table, depths, s, a);
    var less := Removed(levels, a, depths[a]);
    OthersIrrelevant(less, table, table, depths, depths[a := d], s - {a});
    AddedIndex(less, table, depths[a := d], s - {a}, node);
    assert s - {a} + {a} == depths.Keys;
  }

  /**
    Why no module may have the root's address: re-indexing a node at that address from depth 0, as a new
    node is, takes the root out of the index.
   */
  lemma RootAddressUnlistsRoot(levels: Levels, table: Table, depths: Depths, s: set<Byte>, node: Node, d: Byte)
    requires IndexOf(levels, table, depths, s) && ROOT in s && depths[ROOT] == 0
    requires table[ROOT].addr == ROOT && node.addr == ROOT && node != table[ROOT]
    ensures var after := Relisted(levels, node, 0, d); table[ROOT] !in after[0]
  {
    var root, less := table[ROOT], Removed(levels, ROOT, 0);
    if |less| > 0 && root in less[0] {
      var i :| 0 <= i < |less[0]| && less[0][i] == root;
      var j := WithoutFrom(levels[0], ROOT, i);
    }
  }
}
