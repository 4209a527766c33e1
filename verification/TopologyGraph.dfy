/**
  The topology graph as plain data: which address hangs below which.  `parents[c] == p` says that
  the node at address `c` sits in the child map of the node at address `p`; the root has address
  0xFF and is nobody's child.
 */
module TopologyGraph {
  import opened Bytes

  const ROOT: Byte := 0xFF

  type Parents = map<Byte, Byte>

  /** Adding one to a `uint8_t`. */
  function Next(d: Byte): Byte
  {
    (d as int + 1) % 256
  }

  /** Following `k` parent links from `a` ends at `target`. */
  ghost predicate Climbs(par: Parents, a: Byte, target: Byte, k: nat)
    decreases k
  {
    if k == 0 then a == target else a in par && Climbs(par, par[a], target, k - 1)
  }

  /** `c` is `a` itself or one of its ancestors. */
  ghost predicate AncestorOrSelf(par: Parents, c: Byte, a: Byte)
  {
    exists k: nat :: Climbs(par, a, c, k)
  }

  ghost predicate Rooted(par: Parents, a: Byte)
  {
    AncestorOrSelf(par, ROOT, a)
  }

  /** One tree below the root: every recorded address reaches the root. */
  ghost predicate Tree(par: Parents)
  {
    ROOT !in par && forall a :: a in par ==> Rooted(par, a)
  }

  /** The depths agree with the graph: whoever reaches the root in `d` links has depth `d`. */
  ghost predicate Exact(par: Parents, depth: map<Byte, Byte>)
  {
    forall a, d: nat :: a in depth && Climbs(par, a, ROOT, d) ==> depth[a] == d
  }

  // ---------- Climbing ----------

  lemma {:induction false} ClimbsCompose(par: Parents, a: Byte, b: Byte, c: Byte, j: nat, k: nat)
    requires Climbs(par, a, b, j) && Climbs(par, b, c, k)
    ensures Climbs(par, a, c, j + k)
    decreases j
  {
    if j > 0 {
      ClimbsCompose(par, par[a], b, c, j - 1, k);
    }
  }

  /** The same number of links always ends at the same place. */
  lemma {:induction false} ClimbsFunctional(par: Parents, a: Byte, b: Byte, c: Byte, k: nat)
    requires Climbs(par, a, b, k) && Climbs(par, a, c, k)
    ensures b == c
    decreases k
  {
    if k > 0 {
      ClimbsFunctional(par, par[a], b, c, k - 1);
    }
  }

  /** Splitting a climb: the first `j` links of a longer climb end at some `b` that finishes it. */
  lemma {:induction false} ClimbsSuffix(par: Parents, a: Byte, b: Byte, c: Byte, j: nat, k: nat)
    requires Climbs(par, a, b, j) && Climbs(par, a, c, k) && j <= k
    ensures Climbs(par, b, c, k - j)
    decreases j
  {
    if j > 0 {
      ClimbsSuffix(par, par[a], b, c, j - 1, k - 1);
    }
  }

  /** A climb that passes through `b` has fixed length to an end that has no parent. */
  lemma ClimbsUnique(par: Parents, a: Byte, top: Byte, j: nat, k: nat)
    requires top !in par
    requires Climbs(par, a, top, j) && Climbs(par, a, top, k)
    ensures j == k
  {
    if j < k {
      ClimbsSuffix(par, a, top, top, j, k);
    } else if k < j {
      ClimbsSuffix(par, a, top, top, k, j);
    }
  }

  /** A climb to a parentless end passes through any `b` that `a` climbs to. */
  lemma ClimbsThrough(par: Parents, a: Byte, b: Byte, top: Byte, j: nat, k: nat)
    requires top !in par
    requires Climbs(par, a, b, j) && Climbs(par, a, top, k)
    ensures j <= k && Climbs(par, b, top, k - j)
  {
    if k < j {
      ClimbsSuffix(par, a, top, b, k, j);
    }
    ClimbsSuffix(par, a, b, top, j, k);
  }

  /** The addresses passed on the first `k` links. */
  ghost function Trail(par: Parents, a: Byte, k: nat): set<Byte>
    decreases k
  {
    if k == 0 || a !in par then {} else {a} + Trail(par, par[a], k - 1)
  }

  lemma {:induction false} TrailPosition(par: Parents, a: Byte, top: Byte, k: nat, x: Byte) returns (j: nat)
    requires Climbs(par, a, top, k) && x in Trail(par, a, k)
    ensures j < k && Climbs(par, a, x, j)
    decreases k
  {
    if x == a {
      j := 0;
    } else {
      j := TrailPosition(par, par[a], top, k - 1, x);
      j := j + 1;
    }
  }

  lemma {:induction false} TrailSize(par: Parents, a: Byte, top: Byte, k: nat)
    requires top !in par && Climbs(par, a, top, k)
    ensures Trail(par, a, k) <= par.Keys && |Trail(par, a, k)| == k
    decreases k
  {
    if k > 0 {
      TrailSize(par, par[a], top, k - 1);
      if a in Trail(par, par[a], k - 1) {
        var j := TrailPosition(par, par[a], top, k - 1, a);
        ClimbsThrough(par, par[a], a, top, j, k - 1);
        ClimbsUnique(par, a, top, k, k - 1 - j);
      }
    }
  }

  /** No climb to a parentless end repeats an address, so it is no longer than the graph is big. */
  lemma ClimbsBound(par: Parents, a: Byte, top: Byte, k: nat)
    requires top !in par && Climbs(par, a, top, k)
    ensures k <= |par|
  {
    TrailSize(par, a, top, k);
    SubsetSize(Trail(par, a, k), par.Keys);
  }

  /** There are 255 addresses other than the root's, so a depth fits in a byte. */
  lemma AddressCount(par: Parents)
    requires ROOT !in par
    ensures |par| <= 255
  {
    SetBelow(par.Keys, 255);
  }

  // ---------- Hanging one address below another ----------

  lemma {:induction false} ClimbsInLarger(par: Parents, s: Byte, p: Byte, a: Byte, target: Byte, k: nat)
    requires s !in par && Climbs(par, a, target, k)
    ensures Climbs(par[s := p], a, target, k)
    decreases k
  {
    if k > 0 {
      ClimbsInLarger(par, s, p, par[a], target, k - 1);
    }
  }

  /** A climb in the larger graph either avoids `s`, or reaches `s` along the smaller graph first. */
  lemma {:induction false} ClimbsInSmaller(par: Parents, s: Byte, p: Byte, a: Byte, target: Byte, k: nat)
    returns (j: nat)
    requires s !in par && Climbs(par[s := p], a, target, k)
    ensures j <= k
    ensures Climbs(par, a, target, k) || (j < k && Climbs(par, a, s, j))
    decreases k
  {
    if k == 0 || a == s {
      j := 0;
    } else {
      j := ClimbsInSmaller(par, s, p, par[a], target, k - 1);
      j := j + 1;
    }
  }

  /** If `s` reaches the root through `p`, then `p` reaches it without `s`. */
  lemma ParentClimbs(par: Parents, s: Byte, p: Byte, d: nat)
    requires ROOT !in par && s !in par && s != ROOT
    requires Climbs(par[s := p], s, ROOT, d)
    ensures d > 0 && Climbs(par, p, ROOT, d - 1) && !AncestorOrSelf(par, s, p)
  {
    var par' := par[s := p];
    assert Climbs(par', p, ROOT, d - 1);
    if i: nat :| Climbs(par, p, s, i) {
      // that would make the climb from s to the root too short
      ClimbsInLarger(par, s, p, p, s, i);
      ClimbsThrough(par', p, s, ROOT, i, d - 1);
      ClimbsUnique(par', s, ROOT, d, d - 1 - i);
    }
    var i := ClimbsInSmaller(par, s, p, p, ROOT, d - 1);
  }
}
