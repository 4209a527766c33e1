/**
  The parameter set of a module: how its counter of received parameters relates to the filled slots, and
  when the set counts as complete.
 */
module Parameters {
  import opened Bytes

  const NOT_KNOWN: Byte := 0xFF

  datatype Item<T> = Item(name: string, value: Option<T>)

  datatype Addition = Addition(id: Byte, name: string)

  /** The slots that hold a parameter. */
  function FilledIds<T>(list: seq<Item<T>>): (ids: set<nat>)
    ensures forall i: nat :: i in ids <==> i < |list| && list[i].name != ""
  {
    set i: nat | i < |list| && list[i].name != ""
  }

  /** How many additions had no name. */
  function Blanks(history: seq<Addition>): nat
  {
    if history == [] then 0
    else Blanks(history[..|history| - 1]) + if history[|history| - 1].name == "" then 1 else 0
  }

  /** The ids that the history has named, the last addition deciding. */
  function Named(history: seq<Addition>): set<nat>
  {
    if history == [] then {}
    else
      var last := history[|history| - 1];
      var before := Named(history[..|history| - 1]);
      if last.name == "" then before - {last.id} else before + {last.id}
  }

  /** What the counter counts: named slots and nameless additions. */
  function Counted(history: seq<Addition>): nat
  {
    |Named(history)| + Blanks(history)
  }

  predicate Proper(history: seq<Addition>)
  {
    forall a :: a in history ==> a.name != "" && a.id != 0
  }

  class ParameterSet<T> {
    var paramList: seq<Item<T>>
    var expectedNumParams: Byte
    var receivedParams: Byte
    ghost var history: seq<Addition>

    /**
      The counter is the number of filled slots and of nameless additions, in one byte.  Named additions
      fill slots and nameless ones empty them.
     */
    ghost predicate Valid()
      reads this
    {
      && paramList != [] && |paramList| <= 256
      && FilledIds(paramList) == Named(history)
      && receivedParams == Counted(history) % 256
    }

    constructor ()
      ensures Valid() && history == [] && expectedNumParams == NOT_KNOWN
    {
      paramList := [Item("", None)];
      expectedNumParams, receivedParams, history := NOT_KNOWN, 0, [];
    }

    method Add(id: Byte, item: T, name: string)
      requires Valid()
      modifies this
      ensures Valid() && history == old(history) + [Addition(id, name)]
      ensures |paramList| == if id < |old(paramList)| then |old(paramList)| else id as int + 1
      ensures paramList[id] == Item(name, Some(item))
      ensures forall i :: 0 <= i < |paramList| && i != id ==>
                paramList[i] == if i < |old(paramList)| then old(paramList)[i] else Item("", None)
      ensures expectedNumParams == old(expectedNumParams)
    {
      hide Named, Counted, FilledIds;
      var list := paramList;
      if id >= |list| {
        list := list + seq(id + 1 - |list|, _ => Item("", None));
      }
      Padded(paramList, list);
      var received: int := receivedParams;
      if list[id].name == "" {
        received := (received + 1) % 256;
      }
      Replaced(list, id, Item(name, Some(item)));
      CountStep(history, Addition(id, name));
      paramList, receivedParams, history :=
        list[id := Item(name, Some(item))], received, history + [Addition(id, name)];
    }

    method SetExpectedParameters(numParameters: Byte)
      requires Valid()
      modifies `expectedNumParams
      ensures Valid() && expectedNumParams == numParameters
    {
      expectedNumParams := numParameters;
    }

    function ParametersLeft(): (left: Byte)
      reads this
    {
      if receivedParams > expectedNumParams || expectedNumParams == NOT_KNOWN then 0
      else expectedNumParams - receivedParams
    }

    /** `valid()`: nothing is missing. */
    predicate Complete()
      reads this
    {
      expectedNumParams != NOT_KNOWN && ParametersLeft() == 0
    }

    /**
      With named parameters at ids from 1 on, the counter never wraps and is the number of filled slots; the
      set is complete exactly when as many slots are filled as are expected.  If no id lies beyond the
      expected ones, that means that every slot from 1 to the expected number is filled.
     */
    lemma CompleteIff()
      requires Valid() && Proper(history)
      ensures receivedParams == |FilledIds(paramList)| <= 255
      ensures Complete() <==> expectedNumParams != NOT_KNOWN && |FilledIds(paramList)| >= expectedNumParams
      ensures expectedNumParams != NOT_KNOWN && (forall i :: i in FilledIds(paramList) ==> i <= expectedNumParams) ==>
                (Complete() <==> AllFilled(paramList, expectedNumParams))
    {
      hide Named, Blanks, FilledIds, UpTo;
      ProperCounts(history);
      var filled := FilledIds(paramList);
      FilledSize(filled, 255);
      assert receivedParams == |filled|;
      if forall i :: i in filled ==> i <= expectedNumParams {
        FilledSize(filled, expectedNumParams);
        SlotsFilled(paramList, expectedNumParams);
      }
    }

    /** In general the counter is right exactly when the nameless additions are a multiple of 256. */
    lemma CounterRightIff()
      requires Valid()
      ensures receivedParams == |FilledIds(paramList)| % 256 <==> Blanks(history) % 256 == 0
    {
      hide Named, Blanks;
    }
  }

  /** The numbers from 1 to `n`. */
  function UpTo(n: nat): (r: set<nat>)
    ensures forall i: nat :: i in r <==> 1 <= i <= n
    ensures |r| == n
  {
    if n == 0 then {} else UpTo(n - 1) + {n}
  }

  /** Slots from 1 to `n` only: there are at most `n`, and exactly `n` if there are all of them. */
  lemma FilledSize(filled: set<nat>, n: nat)
    requires forall i :: i in filled ==> 1 <= i <= n
    ensures |filled| <= n && (|filled| == n <==> filled == UpTo(n))
  {
    assert filled <= UpTo(n);
    SubsetSize(filled, UpTo(n));
    if |filled| == n {
      Whole(filled, UpTo(n));
    }
  }

  /** Every slot from 1 to `n` holds a parameter. */
  predicate AllFilled<T>(list: seq<Item<T>>, n: nat)
  {
    forall i: nat :: 1 <= i <= n ==> i < |list| && list[i].name != ""
  }

  lemma SlotsFilled<T>(list: seq<Item<T>>, n: nat)
    requires forall i :: i in FilledIds(list) ==> 1 <= i <= n
    ensures FilledIds(list) == UpTo(n) <==> AllFilled(list, n)
  {
    if AllFilled(list, n) {
      assert forall i: nat :: i in UpTo(n) ==> i in FilledIds(list);
    } else if FilledIds(list) == UpTo(n) {
      forall i: nat | 1 <= i <= n
        ensures i < |list| && list[i].name != ""
      {
        assert i in UpTo(n);
      }
    }
  }

  lemma Whole<T>(a: set<T>, b: set<T>)
    requires a <= b && |a| >= |b|
    ensures a == b
  {
    assert b == a + (b - a);
  }

  lemma {:induction false} ProperCounts(history: seq<Addition>)
    requires Proper(history)
    ensures Blanks(history) == 0 && 0 !in Named(history)
    ensures forall i :: i in Named(history) ==> i < 256
  {
    if history != [] {
      var front := history[..|history| - 1];
      assert history[|history| - 1] in history;
      assert forall a :: a in front ==> a in history;
      ProperCounts(front);
    }
  }

  /** Padding with empty slots fills none. */
  lemma Padded<T>(list: seq<Item<T>>, longer: seq<Item<T>>)
    requires list <= longer && forall i :: |list| <= i < |longer| ==> longer[i].name == ""
    ensures FilledIds(longer) == FilledIds(list)
  {
  }

  lemma Replaced<T>(list: seq<Item<T>>, id: nat, item: Item<T>)
    requires id < |list|
    ensures FilledIds(list[id := item]) == if item.name == "" then FilledIds(list) - {id} else FilledIds(list) + {id}
    ensures id in FilledIds(list) <==> list[id].name != ""
  {
  }

  /** An addition to a slot that is not filled counts, with or without a name. */
  lemma CountStep(history: seq<Addition>, a: Addition)
    ensures Named(history + [a]) ==
            if a.name == "" then Named(history) - {a.id as nat} else Named(history) + {a.id as nat}
    ensures Counted(history + [a]) == Counted(history) + if a.id as nat in Named(history) then 0 else 1
  {
    assert (history + [a])[..|history|] == history;
    var before := Named(history);
    if a.name != "" && a.id as nat in before {
      assert before + {a.id as nat} == before;
    } else if a.name == "" && a.id as nat !in before {
      assert before - {a.id as nat} == before;
    }
  }
}
