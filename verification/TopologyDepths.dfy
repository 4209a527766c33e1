/**
  What one recursive depth recalculation does to the table of all depths, without the heap.  `below`
  is the graph without the link of the node the recalculation started from, so that every climb
  inside it stops there.
 */
module TopologyDepths {
  import opened Bytes
  import opened TopologyGraph

  type Depths = map<Byte, Byte>

  /** `r` got depth `d`, all that climb to `r` the depth after their parents'; nobody else changed. */
  ghost predicate Recalculated(below: Parents, r: Byte, d: Byte, old_: Depths, new_: Depths)
  {
    && new_.Keys == old_.Keys
    && r in new_ && new_[r] == d
    && (forall a {:trigger AncestorOrSelf(below, r, a)} ::
          a in below && a in new_ && below[a] in new_ && AncestorOrSelf(below, r, a) ==>
          new_[a] == Next(new_[below[a]]))
    && (forall a {:trigger AncestorOrSelf(below, r, a)} ::
          a in old_ && !AncestorOrSelf(below, r, a) ==> new_[a] == old_[a])
  }

  /** `a` climbs to `r` through one of `r`'s children with an address below `bound`. */
  ghost predicate Under(below: Parents, r: Byte, bound: int, a: Byte)
  {
    exists c :: c < bound && c in below && below[c] == r && AncestorOrSelf(below, c, a)
  }

  /** Half way: the subtrees of `r`'s children with addresses below `bound` are done. */
  ghost predicate Partial(below: Parents, r: Byte, bound: int, old_: Depths, new_: Depths)
  {
    && new_.Keys == old_.Keys
    && (forall a {:trigger Under(below, r, bound, a)} ::
          a in below && a in new_ && below[a] in new_ && Under(below, r, bound, a) ==>
          new_[a] == Next(new_[below[a]]))
    && (forall a {:trigger Under(below, r, bound, a)} ::
          a in old_ && !Under(below, r, bound, a) ==> new_[a] == old_[a])
  }

  ghost predicate NoneTwice(visited: seq<Byte>)
  {
    forall i, j :: 0 <= i < j < |visited| ==> visited[i] != visited[j]
  }

  /** The visit of `r` took in all that climb to `r`, each exactly once. */
  ghost predicate VisitsOnce(below: Parents, r: Byte, visited: seq<Byte>)
  {
    && NoneTwice(visited)
    && forall a {:trigger a in visited} {:trigger AncestorOrSelf(below, r, a)} :: a in visited <==>
       AncestorOrSelf(below, r, a)
  }

  /** Half way: it took in all that climb to `r` through children with addresses below `bound`. */
  ghost predicate VisitsUnder(below: Parents, r: Byte, bound: int, visited: seq<Byte>)
  {
    && NoneTwice(visited)
    && forall a {:trigger a in visited} {:trigger Under(below, r, bound, a)} :: a in visited <==>
       Under(below, r, bound, a)
  }

  ghost predicate Within(below: Parents, depths: Depths)
  {
    forall a :: a in below ==> a in depths && below[a] in depths
  }

  /** A node never climbs to its own child. */
  lemma {:induction false} ParentNotBelow(below: Parents, s: Byte, r: Byte, k: nat, c: Byte)
    requires s !in below && Climbs(below, r, s, k)
    requires c in below && below[c] == r
    ensures !AncestorOrSelf(below, c, r)
  {
    if j: nat :| Climbs(below, r, c, j) {
      assert Climbs(below, r, r, 0);
      // r -> .. -> c -> r would be a way round that never meets s
      ClimbsCompose(below, r, c, r, j, 1);
      ClimbsThrough(below, r, r, s, j + 1, k);
      ClimbsUnique(below, r, s, k, k - j - 1);
    }
  }

  /** Nobody climbs to two children of the same node. */
  lemma SiblingsDisjoint(below: Parents, s: Byte, r: Byte, k: nat, c: Byte, e: Byte, a: Byte)
    requires s !in below && Climbs(below, r, s, k)
    requires c in below && below[c] == r && e in below && below[e] == r
    requires AncestorOrSelf(below, c, a) && AncestorOrSelf(below, e, a)
    ensures c == e
  {
    var i: nat :| Climbs(below, a, c, i);
    var j: nat :| Climbs(below, a, e, j);
    assert Climbs(below, c, s, k + 1) && Climbs(below, e, s, k + 1);
    ClimbsCompose(below, a, c, s, i, k + 1);
    ClimbsCompose(below, a, e, s, j, k + 1);
    ClimbsUnique(below, a, s, i + k + 1, j + k + 1);
    ClimbsFunctional(below, a, c, e, i);
  }

  /** Climbing to `r` is being `r` or climbing to one of its children. */
  lemma BelowIsUnder(below: Parents, r: Byte, a: Byte)
    ensures AncestorOrSelf(below, r, a) <==> a == r || Under(below, r, 256, a)
  {
    if k: nat :| Climbs(below, a, r, k) {
      if k > 0 {
        var c := LastStep(below, a, r, k);
        assert AncestorOrSelf(below, c, a);
      }
    }
    if a == r {
      assert Climbs(below, a, r, 0);
    }
    if c :| c in below && below[c] == r && AncestorOrSelf(below, c, a) {
      var k: nat :| Climbs(below, a, c, k);
      assert Climbs(below, c, r, 1) by { assert Climbs(below, r, r, 0); }
      ClimbsCompose(below, a, c, r, k, 1);
    }
  }

  lemma {:induction false} LastStep(below: Parents, a: Byte, r: Byte, k: nat) returns (c: Byte)
    requires k > 0 && Climbs(below, a, r, k)
    ensures c in below && below[c] == r && Climbs(below, a, c, k - 1)
    decreases k
  {
    if k == 1 {
      c := a;
      assert Climbs(below, below[a], r, 0);
    } else {
      c := LastStep(below, below[a], r, k - 1);
    }
  }

  lemma StepDown(below: Parents, s: Byte, r: Byte, k: nat, c: Byte)
    requires s !in below && Climbs(below, r, s, k) && c in below && below[c] == r
    ensures Climbs(below, c, s, k + 1) && k + 1 <= |below|
  {
    ClimbsBound(below, c, s, k + 1);
  }

  lemma NoneDone(below: Parents, r: Byte, depths: Depths)
    ensures Partial(below, r, 0, depths, depths)
  {
  }

  /** A child's whole subtree is added to what is done. */
  lemma ChildDone(below: Parents, s: Byte, r: Byte, k: nat, c: Byte, start: Depths, mid: Depths, end: Depths)
    requires s !in below && Climbs(below, r, s, k) && c in below && below[c] == r
    requires Within(below, start)
    requires Partial(below, r, c, start, mid) && r in mid && Recalculated(below, c, Next(mid[r]), mid, end)
    ensures Partial(below, r, c + 1, start, end)
  {
    ParentNotBelow(below, s, r, k, c);
    forall a | a in below && Under(below, r, c + 1, a) ensures end[a] == Next(end[below[a]]) {
      if !AncestorOrSelf(below, c, a) {
        var e :| e < c + 1 && e in below && below[e] == r && AncestorOrSelf(below, e, a);
        assert e != c && Under(below, r, c, a);
        var i: nat :| Climbs(below, a, e, i);
        if i > 0 {
          assert Climbs(below, below[a], e, i - 1);
          if AncestorOrSelf(below, c, below[a]) {
            SiblingsDisjoint(below, s, r, k, c, e, below[a]);
          }
        } else {
          ParentNotBelow(below, s, r, k, c);
        }
      }
    }
    forall a | a in start && !Under(below, r, c + 1, a) ensures end[a] == start[a] {
      assert !Under(below, r, c, a);
    }
  }

  lemma NoChild(below: Parents, r: Byte, c: Byte, start: Depths, mid: Depths)
    requires Partial(below, r, c, start, mid) && !(c in below && below[c] == r)
    ensures Partial(below, r, c + 1, start, mid)
  {
    forall a ensures Under(below, r, c + 1, a) <==> Under(below, r, c, a) {
      if e :| e < c + 1 && e in below && below[e] == r && AncestorOrSelf(below, e, a) {
        assert e != c;
      }
    }
    forall a | a in below && a in mid && below[a] in mid && Under(below, r, c + 1, a)
      ensures mid[a] == Next(mid[below[a]])
    {
      assert Under(below, r, c, a);
    }
    forall a | a in start && !Under(below, r, c + 1, a) ensures mid[a] == start[a] {
      assert !Under(below, r, c, a);
    }
  }

  /** One entry of the child map dealt with, whether a child to descend to or the start again. */
  lemma Visited(below: Parents, s: Byte, r: Byte, k: nat, c: Byte, start: Depths, mid: Depths, end: Depths)
    requires s !in below && Climbs(below, r, s, k)
    requires Within(below, start) && Partial(below, r, c, start, mid)
    requires c in below ==> below[c] == r && r in mid && Recalculated(below, c, Next(mid[r]), mid, end)
    requires c !in below ==> mid == end
    ensures Partial(below, r, c + 1, start, end)
  {
    if c in below {
      ChildDone(below, s, r, k, c, start, mid, end);
    } else {
      NoChild(below, r, c, start, mid);
    }
  }

  /** All children done: the recalculation at `r` is complete. */
  lemma AllDone(below: Parents, s: Byte, r: Byte, k: nat, d: Byte, old_: Depths, end: Depths)
    requires s !in below && Climbs(below, r, s, k)
    requires Within(below, old_) && r in old_ && (r in below ==> d == Next(old_[below[r]]))
    requires Partial(below, r, 256, old_[r := d], end)
    ensures Recalculated(below, r, d, old_, end)
  {
    var start := old_[r := d];
    if c :| c in below && below[c] == r && AncestorOrSelf(below, c, r) {
      ParentNotBelow(below, s, r, k, c);
    }
    assert !Under(below, r, 256, r);
    forall a ensures AncestorOrSelf(below, r, a) <==> a == r || Under(below, r, 256, a) {
      BelowIsUnder(below, r, a);
    }
    if r in below {
      ParentNotItsChild(below, s, r, k);
    }
  }

  // ---------- Who is visited ----------

  lemma NoneTwiceInBoth(a: seq<Byte>, b: seq<Byte>)
    requires NoneTwice(a) && NoneTwice(b) && forall x :: x in a ==> x !in b
    ensures NoneTwice(a + b)
  {
    forall i, j | 0 <= i < j < |a + b| ensures (a + b)[i] != (a + b)[j] {
      assert i < |a| ==> a[i] in a;
    }
  }

  lemma NoneVisited(below: Parents, r: Byte)
    ensures VisitsUnder(below, r, 0, [])
  {
  }

  /** One entry of the child map: the child's subtree is new, or the start is met again and not entered. */
  lemma ChildVisited(below: Parents, s: Byte, r: Byte, k: nat, c: Byte, before: seq<Byte>, kids: seq<Byte>)
    requires s !in below && Climbs(below, r, s, k) && VisitsUnder(below, r, c, before)
    requires if c in below && below[c] == r then VisitsOnce(below, c, kids) else kids == []
    ensures VisitsUnder(below, r, c + 1, before + kids)
  {
    forall a
      ensures Under(below, r, c + 1, a) <==>
              Under(below, r, c, a) || (c in below && below[c] == r && AncestorOrSelf(below, c, a))
    {
      if e :| e < c + 1 && e in below && below[e] == r && AncestorOrSelf(below, e, a) {
        assert e < c ==> Under(below, r, c, a);
      }
    }
    forall a | a in before ensures a !in kids {
      if a in kids {
        var e :| e < c && e in below && below[e] == r && AncestorOrSelf(below, e, a);
        SiblingsDisjoint(below, s, r, k, c, e, a);
      }
    }
    NoneTwiceInBoth(before, kids);
    assert forall a :: a in before + kids <==> a in before || a in kids;
  }

  /** The node itself and its children's subtrees, which do not lead back to it. */
  lemma SelfVisited(below: Parents, s: Byte, r: Byte, k: nat, kids: seq<Byte>)
    requires s !in below && Climbs(below, r, s, k) && VisitsUnder(below, r, 256, kids)
    ensures VisitsOnce(below, r, [r] + kids)
  {
    if c :| c in below && below[c] == r && AncestorOrSelf(below, c, r) {
      ParentNotBelow(below, s, r, k, c);
    }
    forall a ensures AncestorOrSelf(below, r, a) <==> a == r || Under(below, r, 256, a) {
      BelowIsUnder(below, r, a);
    }
    NoneTwiceInBoth([r], kids);
    assert forall a :: a in [r] + kids <==> a == r || a in kids;
  }

  lemma ParentNotItsChild(below: Parents, s: Byte, r: Byte, k: nat)
    requires s !in below && Climbs(below, r, s, k) && r in below
    ensures !AncestorOrSelf(below, r, below[r])
  {
    assert k > 0 && Climbs(below, below[r], s, k - 1);
    ParentNotBelow(below, s, below[r], k - 1, r);
  }

  lemma ClimbsSelf(par: Parents, a: Byte)
    ensures Climbs(par, a, a, 0)
  {
  }

  /**
    What one depth recalculation restores.  `s` is hung below `p`; then all depths agree with the
    larger graph, whether or not the new link closed a loop, and with the graph without the link.
   */
  lemma RecalculatedExact(par: Parents, s: Byte, p: Byte, old_: Depths, new_: Depths)
    requires ROOT !in par && s !in par && s != ROOT
    requires Exact(par, old_) && Within(par, old_) && s in old_ && p in old_
    requires Recalculated(par, s, Next(old_[p]), old_, new_)
    ensures Exact(par, new_) && Exact(par[s := p], new_)
  {
    var par' := par[s := p];
    forall a, d: nat | a in new_ && Climbs(par', a, ROOT, d) ensures new_[a] == d {
      HangKeepsDepth(par, s, p, old_, new_, a, d);
    }
    DetachedExact(par, s, Next(old_[p]), old_, new_);
  }

  /** Whatever depth a node that hangs nowhere gets, those that reach the root keep theirs. */
  lemma DetachedExact(par: Parents, s: Byte, d: Byte, old_: Depths, new_: Depths)
    requires ROOT !in par && s !in par && s != ROOT
    requires Exact(par, old_) && Recalculated(par, s, d, old_, new_)
    ensures Exact(par, new_)
  {
    forall a, e: nat | a in new_ && Climbs(par, a, ROOT, e) ensures new_[a] == e {
      if AncestorOrSelf(par, s, a) {
        var j: nat :| Climbs(par, a, s, j);
        ClimbsThrough(par, a, s, ROOT, j, e);
      }
    }
  }

  lemma {:induction false} HangKeepsDepth(par: Parents, s: Byte, p: Byte, old_: Depths, new_: Depths, a: Byte, d: nat)
    requires ROOT !in par && s !in par && s != ROOT
    requires Exact(par, old_) && Within(par, old_) && s in old_ && p in old_
    requires Recalculated(par, s, Next(old_[p]), old_, new_)
    requires a in new_ && Climbs(par[s := p], a, ROOT, d)
    ensures new_[a] == d
    decreases d
  {
    var par' := par[s := p];
    ClimbsBound(par', a, ROOT, d);
    AddressCount(par');
    var j := ClimbsInSmaller(par, s, p, a, ROOT, d);
    if a == s {
      ParentClimbs(par, s, p, d);
      assert old_[p] == d - 1;
    } else if AncestorOrSelf(par, s, a) {
      var i: nat :| Climbs(par, a, s, i);
      assert AncestorOrSelf(par, s, par[a]) by { assert Climbs(par, par[a], s, i - 1); }
      HangKeepsDepth(par, s, p, old_, new_, par[a], d - 1);
    } else {
      assert Climbs(par, a, ROOT, d);
    }
  }

  /** A node that hangs nowhere yet may have any depth. */
  lemma NewcomerExact(par: Parents, depths: Depths, a: Byte)
    requires Exact(par, depths) && a !in par && a != ROOT
    ensures Exact(par, depths[a := 0])
  {
  }

  lemma {:induction false} ClimbsInFewer(par: Parents, s: set<Byte>, a: Byte, target: Byte, k: nat)
    requires Climbs(par - s, a, target, k)
    ensures Climbs(par, a, target, k)
    decreases k
  {
    if k > 0 {
      ClimbsInFewer(par, s, par[a], target, k - 1);
    }
  }

  /** Cutting links keeps all depths exact: fewer nodes reach the root. */
  lemma FewerExact(par: Parents, s: set<Byte>, depths: Depths)
    requires Exact(par, depths)
    ensures Exact(par - s, depths)
  {
    var less := par - s;
    forall a, d: nat | a in depths && Climbs(less, a, ROOT, d) ensures depths[a] == d {
      ClimbsInFewer(par, s, a, ROOT, d);
    }
  }

  lemma FewerDepths(par: Parents, depths: Depths, a: Byte)
    requires Exact(par, depths)
    ensures Exact(par, depths - {a})
  {
  }
}
