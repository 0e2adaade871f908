/** Delta coding of indexed attribute sets, src/delta_update.cc. */
module DeltaUpdates {
  import opened AttributeCoding

  // ----- what is sent for a set, given what the sender remembers

  /** The values of cur that differ from the remembered ones. */
  ghost function Emitted<K>(remembered: map<K, Value>, cur: map<K, Value>): map<K, Value> {
    map i | i in cur && !(i in remembered && remembered[i] == cur[i]) :: cur[i]
  }

  /** Nothing remembered is missing: a delta cannot delete. */
  ghost predicate Supported<K(!new)>(remembered: map<K, Value>, cur: map<K, Value>) {
    remembered.Keys <= cur.Keys
  }

  /** One index more in the set. */
  lemma EmittedGrows(remembered: map<int, Value>, cur: map<int, Value>, index: int, value: Value)
    requires index !in cur
    ensures var e := SetOnly(Emitted(remembered, cur));
            SetOnly(Emitted(remembered, cur[index := value])) ==
            if (index in remembered && remembered[index] == value) || value == NotSet then e else e[index := value]
  {
    var e, e' := SetOnly(Emitted(remembered, cur)), SetOnly(Emitted(remembered, cur[index := value]));
    assert index !in e;
    assert forall i :: i != index ==> (i in e' <==> i in e);
  }

  /** cur repeats only remembered values that were received. */
  ghost predicate RepeatsReceived<K(!new)>(received: map<K, Value>, remembered: map<K, Value>, cur: map<K, Value>) {
    forall i :: i in cur && i in remembered && remembered[i] == cur[i] ==> i in received && received[i] == cur[i]
  }

  /** A receiver that has nothing that the sender does not remember gets a supported set right from its
      delta if and only if all its values are set and it repeats only values that were received. */
  lemma DeltaIsRightIff<K(!new)>(received: map<K, Value>, remembered: map<K, Value>, cur: map<K, Value>)
    requires received.Keys <= remembered.Keys && Supported(remembered, cur)
    requires forall i :: i in received ==> received[i] != NotSet
    ensures received + SetOnly(Emitted(remembered, cur)) == cur <==>
            (forall i :: i in cur ==> cur[i] != NotSet) && RepeatsReceived(received, remembered, cur)
  {
    var e := SetOnly(Emitted(remembered, cur));
    var r := received + e;
    if r == cur {
      forall i | i in cur ensures cur[i] != NotSet { assert r[i] == cur[i]; }
      forall i | i in cur && i in remembered && remembered[i] == cur[i]
        ensures i in received && received[i] == cur[i]
      {
        assert i !in e && i in r;
      }
    }
    if (forall i :: i in cur ==> cur[i] != NotSet) && RepeatsReceived(received, remembered, cur) {
      forall i ensures i in r <==> i in cur { }
      forall i | i in cur ensures r[i] == cur[i] { }
    }
  }

  // ----- as the source runs it

  /** tracking is false for the variant that never skips anything. */
  class DeltaUpdate {
    const tracking: bool
    var prevSet: set<int>
    var prevMap: map<int, Value>

    constructor (tracking: bool)
      ensures this.tracking == tracking && prevMap == map[]
    {
      this.tracking := tracking;
      prevSet, prevMap := {}, map[];
    }

    method Start()
      modifies this`prevSet
      ensures tracking ==> prevSet == prevMap.Keys
    {
      if !tracking { return; }
      prevSet := prevMap.Keys;
    }

    /** Whether the index has this value already. */
    method Check(index: int, value: Value) returns (same: bool)
      modifies this
      ensures same == (tracking && index in old(prevMap) && old(prevMap)[index] == value)
      ensures prevMap == if tracking then old(prevMap)[index := value] else old(prevMap)
      ensures tracking ==> prevSet == old(prevSet) - {index}
    {
      if !tracking { return false; }
      same := index in prevMap && prevMap[index] == value;
      if !same {
        prevMap := prevMap[index := value];
      }
      prevSet := prevSet - {index};
      assert prevMap == old(prevMap)[index := value];
    }

    method Finish() returns (supported: bool)
      ensures supported == (!tracking || prevSet == {})
    {
      return !tracking || prevSet == {};
    }
  }
}
