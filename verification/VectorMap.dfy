/**
  The module list: a vector sorted by address and a map from addresses, over the same modules.
 */
module VectorMap {
  import opened Bytes

  const TWO_64: nat := 0x1_0000_0000_0000_0000

  class Module {
    const address: Byte
    var tLastUpdate: nat

    constructor (address: Byte, now: nat)
      ensures this.address == address && tLastUpdate == now
    {
      this.address, tLastUpdate := address, now;
    }

    /** Has there been no update for longer than `tStale`?  The difference is taken in 64 bits. */
    predicate Stale(tNow: nat, tStale: nat)
      reads this
    {
      (tNow - tLastUpdate) % TWO_64 > tStale
    }
  }

  ghost predicate Ascending(v: seq<Module>)
  {
    forall i, j {:trigger v[i], v[j]} :: 0 <= i < j < |v| ==> v[i].address < v[j].address
  }

  function Addresses(v: seq<Module>): (r: seq<Byte>)
    ensures |r| == |v| && forall i :: 0 <= i < |v| ==> r[i] == v[i].address
  {
    seq(|v|, i requires 0 <= i < |v| => v[i].address)
  }

  /** The modules of `v` that are or are not stale, in their order. */
  ghost function Select(v: seq<Module>, stale: bool, tNow: nat, tStale: nat): seq<Module>
    reads v
  {
    if v == [] then []
    else
      Select(v[..|v| - 1], stale, tNow, tStale)
      + if v[|v| - 1].Stale(tNow, tStale) == stale then [v[|v| - 1]] else []
  }

  /** Stale is more than `tStale` without an update; an update dated in the future counts as very old. */
  lemma StaleIff(m: Module, tNow: nat, tStale: nat)
    requires tNow < TWO_64 && m.tLastUpdate < TWO_64
    ensures m.tLastUpdate <= tNow ==> (m.Stale(tNow, tStale) <==> tNow - m.tLastUpdate > tStale)
    ensures tNow < m.tLastUpdate && m.tLastUpdate - tNow < TWO_64 - tStale ==> m.Stale(tNow, tStale)
  {
  }

  /** Addresses are bytes, so ascending modules cannot be ahead of their addresses. */
  lemma {:induction false} AtOrAbove(v: seq<Module>, i: nat)
    requires Ascending(v) && i < |v|
    ensures v[i].address >= i
    decreases i
  {
    if i > 0 {
      AtOrAbove(v, i - 1);
    }
  }

  /** Without a module at address 0xFF there are at most 255 of them. */
  lemma AtMost255(v: seq<Module>)
    requires Ascending(v) && forall m :: m in v ==> m.address != 0xFF
    ensures |v| <= 255
  {
    if |v| > 255 {
      AtOrAbove(v, 255);
    }
  }

  class VectorMap {
    var map_: map<Byte, Module>
    var vector_: seq<Module>

    /** The vector is sorted, and both structures hold the same modules. */
    ghost predicate Valid()
      reads this
    {
      && Ascending(vector_)
      && (forall m {:trigger m in vector_} :: m in vector_ ==> m.address in map_ && map_[m.address] == m)
      && (forall a {:trigger a in map_} :: a in map_ ==> map_[a].address == a && map_[a] in vector_)
    }

    constructor ()
      ensures Valid() && vector_ == [] && map_ == map[]
    {
      map_, vector_ := map[], [];
    }

    /** `std::lower_bound`: the first position whose address is not below `key`. */
    method LowerBound(key: Byte) returns (where: nat)
      requires Valid()
      ensures where <= |vector_|
      ensures forall i :: 0 <= i < where ==> vector_[i].address < key
      ensures forall i :: where <= i < |vector_| ==> vector_[i].address >= key
    {
      where := 0;
      var count := |vector_|;
      while count > 0
        invariant 0 <= count && where + count <= |vector_|
        invariant forall i :: 0 <= i < where ==> vector_[i].address < key
        invariant forall i :: where + count <= i < |vector_| ==> vector_[i].address >= key
      {
        var step := count / 2;
        if vector_[where + step].address < key {
          where := where + step + 1;
          count := count - step - 1;
        } else {
          count := step;
        }
      }
    }

    method Insert(m: Module)
      requires Valid()
      modifies this
      ensures Valid()
      ensures map_ == if m.address in old(map_) then old(map_) else old(map_)[m.address := m]
      ensures m.address in old(map_) ==> vector_ == old(vector_)
    {
      if m.address in map_ { return; }
      var where := LowerBound(m.address);
      forall i | 0 <= i < |vector_|
        ensures vector_[i].address != m.address
      {
        assert vector_[i] in vector_;
      }
      OneMore(vector_, where, m);
      map_ := map_[m.address := m];
      vector_ := vector_[..where] + [m] + vector_[where..];
      assert forall x :: x in vector_ <==> x == m || x in old(vector_);
    }

    /** Removal by address.  The exception for a vector that does not match the map is never thrown. */
    method Remove(key: Byte) returns (thrown: bool)
      requires Valid()
      modifies this
      ensures Valid() && !thrown
      ensures map_ == old(map_) - {key}
    {
      thrown := false;
      if key !in map_ { return; }
      ghost var was := vector_;
      ghost var m := map_[key];
      var where := LowerBound(key);
      Found(was, m, where);
      map_ := map_ - {key};
      if where >= |vector_| || vector_[where].address != key {
        thrown := true;
      } else {
        vector_ := vector_[..where] + vector_[where + 1..];
        WithoutOne(was, where);
      }
    }

    /** Removal by position. */
    method RemoveInd(ind: Byte) returns (done: bool, thrown: bool)
      requires Valid()
      modifies this
      ensures Valid() && !thrown && (done <==> ind < |old(vector_)|)
      ensures vector_ == if done then old(vector_)[..ind] + old(vector_)[ind + 1..] else old(vector_)
      ensures map_ == if done then old(map_) - {old(vector_)[ind].address} else old(map_)
    {
      done, thrown := false, false;
      if ind >= |vector_| { return; }
      var key := vector_[ind].address;
      ghost var was := vector_;
      assert was[ind] in was;
      if key !in map_ {
        thrown := true;
      } else {
        map_ := map_ - {key};
        vector_ := vector_[..ind] + vector_[ind + 1..];
        WithoutOne(was, ind);
        done := true;
      }
    }

    /** The first `i` modules of `was` have been looked at: `ind` of them were kept, the rest is in `removed`. */
    ghost predicate Swept(was: seq<Module>, i: nat, ind: nat, removed: seq<Byte>, all: map<Byte, Module>, tNow: nat,
                          tStale: nat)
      reads this, was
    {
      && i <= |was| && ind == |Select(was[..i], false, tNow, tStale)|
      && vector_ == Select(was[..i], false, tNow, tStale) + was[i..]
      && removed == Addresses(Select(was[..i], true, tNow, tStale))
      && map_ == all - AddressSet(removed)
    }

    /**
      Removes every stale module and no other, and reports their addresses in ascending order.  The index
      is one byte wide: the loop ends whenever there is room for it or something to remove.
     */
    method ClearOld(tNow: nat, tStale: nat) returns (removed: seq<Byte>)
      requires Valid()
      requires |vector_| <= 255 || exists m :: m in vector_ && m.Stale(tNow, tStale)
      modifies this
      ensures Valid()
      ensures vector_ == Select(old(vector_), false, tNow, tStale)
      ensures removed == Addresses(Select(old(vector_), true, tNow, tStale))
      ensures map_ == old(map_) - AddressSet(removed)
    {
      hide Select, Addresses, AddressSet, Ascending, Module.Stale;
      ghost var was, i := vector_, 0;
      var ind: Byte := 0;
      removed := [];
      Nothing(was, tNow, tStale);
      while ind < |vector_|
        invariant Valid() && Swept(was, i, ind, removed, old(map_), tNow, tStale)
        decreases |was| - i
      {
        assert vector_[ind] == was[i];
        if vector_[ind].Stale(tNow, tStale) {
          var addr := DropStale(ind, was, i, removed, old(map_), tNow, tStale);
          removed := removed + [addr];
        } else {
          KeepFresh(ind, was, i, removed, old(map_), tNow, tStale);
          Room(was, i, ind, tNow, tStale);
          ind := ind + 1;
        }
        i := i + 1;
      }
      assert i == |was| && was[..i] == was;
    }

    method DropStale(ind: Byte, ghost was: seq<Module>, ghost i: nat, ghost removed: seq<Byte>,
                     ghost all: map<Byte, Module>, ghost tNow: nat, ghost tStale: nat) returns (addr: Byte)
      requires Valid() && Swept(was, i, ind, removed, all, tNow, tStale) && i < |was| && was[i].Stale(tNow, tStale)
      modifies this
      ensures Valid() && Swept(was, i + 1, ind, removed + [addr], all, tNow, tStale)
    {
      hide Select, Addresses, AddressSet, Ascending, Module.Stale;
      assert vector_[ind] == was[i];
      StaleStep(was, i, tNow, tStale);
      addr := vector_[ind].address;
      assert vector_[..ind] + vector_[ind + 1..] == Select(was[..i], false, tNow, tStale) + was[i + 1..];
      AddressSetStep(all, removed, addr);
      var done, thrown := RemoveInd(ind);
    }

    lemma KeepFresh(ind: nat, was: seq<Module>, i: nat, removed: seq<Byte>, all: map<Byte, Module>,
                    tNow: nat, tStale: nat)
      requires Swept(was, i, ind, removed, all, tNow, tStale) && i < |was| && !was[i].Stale(tNow, tStale)
      ensures Swept(was, i + 1, ind + 1, removed, all, tNow, tStale)
    {
      hide Select, Addresses, AddressSet, Module.Stale;
      FreshStep(was, i, tNow, tStale);
      assert was[i..] == [was[i]] + was[i + 1..];
    }

    method Keys() returns (keys: set<Byte>)
      requires Valid()
      ensures keys == map_.Keys
    {
      keys := {};
      for i := 0 to |vector_|
        invariant keys == set m | m in vector_[..i] :: m.address
      {
        assert vector_[..i + 1] == vector_[..i] + [vector_[i]];
        keys := keys + {vector_[i].address};
      }
      assert vector_[..|vector_|] == vector_;
    }
  }

  /** Taking one element out of an ascending vector. */
  lemma WithoutOne(v: seq<Module>, k: nat)
    requires Ascending(v) && k < |v|
    ensures Ascending(v[..k] + v[k + 1..])
    ensures forall m :: m in v[..k] + v[k + 1..] <==> m in v && m.address != v[k].address
  {
    forall m | m in v && m.address != v[k].address
      ensures m in v[..k] + v[k + 1..]
    {
      var i :| 0 <= i < |v| && v[i] == m;
      if i < k {
        assert (v[..k] + v[k + 1..])[i] == m;
      } else {
        assert (v[..k] + v[k + 1..])[i - 1] == m;
      }
    }
  }

  lemma OneMore(v: seq<Module>, k: nat, m: Module)
    requires Ascending(v) && k <= |v|
    requires forall i :: 0 <= i < k ==> v[i].address < m.address
    requires forall i :: k <= i < |v| ==> v[i].address > m.address
    ensures Ascending(v[..k] + [m] + v[k..])
  {
    var more := v[..k] + [m] + v[k..];
    forall i, j | 0 <= i < j < |more|
      ensures more[i].address < more[j].address
    {
      if i < k && j > k {
        assert v[i].address < v[j - 1].address;
      }
    }
  }

  lemma Found(v: seq<Module>, m: Module, k: nat)
    requires Ascending(v) && m in v && k <= |v|
    requires forall i :: 0 <= i < k ==> v[i].address < m.address
    requires forall i :: k <= i < |v| ==> v[i].address >= m.address
    ensures k < |v| && v[k] == m
  {
    var i :| 0 <= i < |v| && v[i] == m;
    assert forall j :: 0 <= j < i ==> v[j].address < v[i].address;
    assert forall j :: i < j < |v| ==> v[i].address < v[j].address;
  }

  ghost function AddressSet(addresses: seq<Byte>): set<Byte>
  {
    set a | a in addresses
  }

  lemma AddressSetStep(m: map<Byte, Module>, addresses: seq<Byte>, a: Byte)
    ensures m - AddressSet(addresses + [a]) == m - AddressSet(addresses) - {a}
  {
    assert AddressSet(addresses + [a]) == AddressSet(addresses) + {a};
  }

  lemma Nothing(v: seq<Module>, tNow: nat, tStale: nat)
    ensures Select(v[..0], false, tNow, tStale) == Select(v[..0], true, tNow, tStale) == []
    ensures Addresses([]) == [] && AddressSet([]) == {}
  {
  }

  lemma StaleStep(v: seq<Module>, i: nat, tNow: nat, tStale: nat)
    requires i < |v| && v[i].Stale(tNow, tStale)
    ensures Select(v[..i + 1], false, tNow, tStale) == Select(v[..i], false, tNow, tStale)
    ensures Select(v[..i + 1], true, tNow, tStale) == Select(v[..i], true, tNow, tStale) + [v[i]]
    ensures Addresses(Select(v[..i + 1], true, tNow, tStale)) ==
             Addresses(Select(v[..i], true, tNow, tStale)) + [v[i].address]
  {
    assert v[..i + 1][..i] == v[..i];
  }

  lemma FreshStep(v: seq<Module>, i: nat, tNow: nat, tStale: nat)
    requires i < |v| && !v[i].Stale(tNow, tStale)
    ensures Select(v[..i + 1], false, tNow, tStale) == Select(v[..i], false, tNow, tStale) + [v[i]]
    ensures Select(v[..i + 1], true, tNow, tStale) == Select(v[..i], true, tNow, tStale)
  {
    assert v[..i + 1][..i] == v[..i];
  }

  /** The index has room to grow, or is not at the end of its range yet. */
  lemma Room(v: seq<Module>, i: nat, ind: Byte, tNow: nat, tStale: nat)
    requires i < |v| && ind == |Select(v[..i], false, tNow, tStale)|
    requires Ascending(v) && (|v| <= 255 || exists m :: m in v && m.Stale(tNow, tStale))
    requires !v[i].Stale(tNow, tStale)
    ensures ind < 255
  {
    SelectSize(v[..i], tNow, tStale);
    AtOrAbove(v, |v| - 1);
    if ind >= 255 {
      var m :| m in v && m.Stale(tNow, tStale);
      var k :| 0 <= k < |v| && v[k] == m;
      SelectFewer(v[..i], k, tNow, tStale);
    }
  }

  lemma {:induction false} SelectSize(v: seq<Module>, tNow: nat, tStale: nat)
    ensures |Select(v, false, tNow, tStale)| <= |v|
  {
    if v != [] {
      SelectSize(v[..|v| - 1], tNow, tStale);
    }
  }

  lemma {:induction false} SelectFewer(v: seq<Module>, k: nat, tNow: nat, tStale: nat)
    requires k < |v| && v[k].Stale(tNow, tStale)
    ensures |Select(v, false, tNow, tStale)| < |v|
  {
    if k == |v| - 1 {
      SelectSize(v[..k], tNow, tStale);
    } else {
      SelectFewer(v[..|v| - 1], k, tNow, tStale);
    }
  }

  // ---------- The loop on a full list ----------

  /** The list and the one-byte index after `n` rounds of the loop of `ClearOld`, as far as its guard lets it run. */
  ghost function Rounds(v: seq<Module>, tNow: nat, tStale: nat, n: nat): (seq<Module>, Byte)
    reads v
  {
    if n == 0 then (v, 0)
    else
      var (w, ind) := Rounds(v, tNow, tStale, n - 1);
      if ind >= |w| then (w, ind)
      else if w[ind] in v && w[ind].Stale(tNow, tStale) then (w[..ind] + w[ind + 1..], ind)
      else (w, (ind + 1) % 256)
  }

  /**
    Why `ClearOld` asks for room or for something to remove: with a module at every one of the 256
    addresses and none of them stale, the index wraps around and the guard holds for ever.
   */
  lemma {:induction false} FullListNeverEnds(v: seq<Module>, tNow: nat, tStale: nat, n: nat)
    requires |v| == 256 && forall m :: m in v ==> !m.Stale(tNow, tStale)
    ensures Rounds(v, tNow, tStale, n) == (v, n % 256)
  {
    hide Module.Stale;
    if n > 0 {
      FullListNeverEnds(v, tNow, tStale, n - 1);
      WrapsAround(n);
    }
  }

  lemma WrapsAround(n: nat)
    requires n > 0
    ensures ((n - 1) % 256 + 1) % 256 == n % 256
  {
  }
}
