/** The metaclass that makes the container-list popup a singleton: a shared
    table from class to its one instance. Calling a class looks the class up;
    only when it is absent is the constructor run (with the call's arguments)
    and its result stored. Object construction is a function parameter. */
module Singleton {

  /** The table after one call, the instance the call returned, and whether
      the call ran the constructor. */
  datatype Call<K, I> = Call(instances: map<K, I>, instance: I, constructed: bool)

  /** One call of class `cls` with arguments `args`. */
  function GetOrCreate<K, A, I>(instances: map<K, I>, cls: K, args: A, construct: A -> I): (c: Call<K, I>)
    ensures cls in c.instances && c.instances[cls] == c.instance
    ensures c.constructed <==> cls !in instances
    ensures c.constructed ==> c.instance == construct(args)
    ensures !c.constructed ==> c.instances == instances && c.instance == instances[cls]
    ensures c.instances.Keys == instances.Keys + {cls}
    ensures forall k :: k in instances ==> c.instances[k] == instances[k]
  {
    if cls !in instances then
      var made := construct(args);
      Call(instances[cls := made], made, true)
    else
      Call(instances, instances[cls], false)
  }

  /** Calling the same class a second time, with any arguments, returns the
      first call's instance, constructs nothing and leaves the table as the
      first call left it. */
  lemma SecondCallReturnsFirst<K, A, I>(instances: map<K, I>, cls: K, first: A, second: A, construct: A -> I)
    ensures var c1 := GetOrCreate(instances, cls, first, construct);
            var c2 := GetOrCreate(c1.instances, cls, second, construct);
            && c2.instance == c1.instance
            && c2.instances == c1.instances
            && !c2.constructed
  {
  }

  /** The outcome of a sequence of calls: the final table, the instance each
      call returned, and how many calls ran the constructor. */
  datatype Trace<K, I> = Trace(instances: map<K, I>, returned: seq<I>, constructions: nat)

  /** Perform the calls in order, each on the table the previous one left. */
  function Replay<K, A, I>(instances: map<K, I>, calls: seq<(K, A)>, construct: A -> I): (t: Trace<K, I>)
    decreases |calls|
  {
    if |calls| == 0 then Trace(instances, [], 0)
    else
      var c := GetOrCreate(instances, calls[0].0, calls[0].1, construct);
      var rest := Replay(c.instances, calls[1..], construct);
      Trace(rest.instances, [c.instance] + rest.returned, rest.constructions + (if c.constructed then 1 else 0))
  }

  /** The classes named by a sequence of calls. */
  function Classes<K, A>(calls: seq<(K, A)>): (ks: set<K>)
    ensures forall i :: 0 <= i < |calls| ==> calls[i].0 in ks
    ensures forall k :: k in ks ==> exists i :: 0 <= i < |calls| && calls[i].0 == k
  {
    set i | 0 <= i < |calls| :: calls[i].0
  }

  /** The classes of a non-empty sequence of calls: the first call's class
      and those of the rest. */
  lemma ClassesCons<K, A>(calls: seq<(K, A)>)
    requires |calls| > 0
    ensures Classes(calls) == {calls[0].0} + Classes(calls[1..])
  {
    var tail := calls[1..];
    forall k | k in Classes(calls) ensures k in {calls[0].0} + Classes(tail) {
      var i :| 0 <= i < |calls| && calls[i].0 == k;
      if i > 0 { assert tail[i - 1] == calls[i]; }
    }
    forall k | k in Classes(tail) ensures k in Classes(calls) {
      var i :| 0 <= i < |tail| && tail[i].0 == k;
      assert calls[i + 1] == tail[i];
    }
  }

  /** Over any sequence of calls the table only grows, by exactly the classes
      called, and entries present at the start keep their instance. */
  lemma {:induction false} ReplayTable<K, A, I>(instances: map<K, I>, calls: seq<(K, A)>, construct: A -> I)
    ensures var t := Replay(instances, calls, construct);
            && t.instances.Keys == instances.Keys + Classes(calls)
            && (forall k :: k in instances ==> t.instances[k] == instances[k])
    decreases |calls|
  {
    if |calls| > 0 {
      var c := GetOrCreate(instances, calls[0].0, calls[0].1, construct);
      ReplayTable(c.instances, calls[1..], construct);
      ClassesCons(calls);
    }
  }

  /** Every call returns the instance the final table holds for its class:
      once a class is in the table, later calls get the same object. */
  lemma {:induction false} ReplayReturns<K, A, I>(instances: map<K, I>, calls: seq<(K, A)>, construct: A -> I)
    ensures var t := Replay(instances, calls, construct);
            && |t.returned| == |calls|
            && (forall i :: 0 <= i < |calls| ==> calls[i].0 in t.instances && t.returned[i] == t.instances[calls[i].0])
    decreases |calls|
  {
    ReplayTable(instances, calls, construct);
    if |calls| > 0 {
      var c := GetOrCreate(instances, calls[0].0, calls[0].1, construct);
      var tail := calls[1..];
      ReplayTable(c.instances, tail, construct);
      ReplayReturns(c.instances, tail, construct);
      var t := Replay(instances, calls, construct);
      var rest := Replay(c.instances, tail, construct);
      assert t.returned == [c.instance] + rest.returned;
      forall i | 0 <= i < |calls| ensures calls[i].0 in t.instances && t.returned[i] == t.instances[calls[i].0] {
        if i > 0 { assert calls[i] == tail[i - 1]; }
      }
    }
  }

  /** The constructor runs exactly once per class that was not yet in the
      table at the start: the number of constructions is the number of
      entries the table gained. */
  lemma {:induction false} ReplayConstructsOnce<K, A, I>(instances: map<K, I>, calls: seq<(K, A)>, construct: A -> I)
    ensures Replay(instances, calls, construct).constructions + |instances| == |Replay(instances, calls, construct).instances|
    decreases |calls|
  {
    if |calls| > 0 {
      var c := GetOrCreate(instances, calls[0].0, calls[0].1, construct);
      ReplayConstructsOnce(c.instances, calls[1..], construct);
      if c.constructed {
        assert |c.instances.Keys| == |instances.Keys| + 1;
      }
    }
  }

  /** Hence the constructor runs once for each class called that was not in
      the table at the start, however often and with whatever arguments the
      class is called. */
  lemma ReplayConstructsPerNewClass<K, A, I>(instances: map<K, I>, calls: seq<(K, A)>, construct: A -> I)
    ensures Replay(instances, calls, construct).constructions == |Classes(calls) - instances.Keys|
  {
    var t := Replay(instances, calls, construct);
    ReplayTable(instances, calls, construct);
    ReplayConstructsOnce(instances, calls, construct);
    var newClasses := Classes(calls) - instances.Keys;
    assert t.instances.Keys == instances.Keys + newClasses;
    assert instances.Keys !! newClasses;
    assert |t.instances.Keys| == |instances.Keys| + |newClasses|;
  }
}
