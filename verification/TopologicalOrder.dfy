/** Kahn's algorithm over the registrations, with its fallback for cyclic graphs. */
module TopologicalOrder {
  import opened Common
  import opened DependencyGraph

  function Elems(s: seq<Id>): set<Id> { set x | x in s }

  /** Dependency entries, repetitions included, that are registered and not done yet. */
  function Remaining(g: Graph, deps: seq<Id>, done: set<Id>): nat {
    if deps == [] then 0
    else Remaining(g, deps[..|deps| - 1], done) +
         (if deps[|deps| - 1] in g && deps[|deps| - 1] !in done then 1 else 0)
  }

  function Count(s: seq<Id>, x: Id): nat {
    if s == [] then 0 else Count(s[..|s| - 1], x) + if s[|s| - 1] == x then 1 else 0
  }

  lemma CountSnoc(s: seq<Id>, y: Id, x: Id)
    ensures Count(s + [y], x) == Count(s, x) + if y == x then 1 else 0
  {
    assert (s + [y])[..|s|] == s;
  }

  lemma {:induction false} CountPrefix(s: seq<Id>, i: nat, x: Id)
    requires i <= |s|
    ensures Count(s[..i], x) <= Count(s, x)
    decreases |s|
  {
    if i == |s| {
      assert s[..i] == s;
    } else {
      assert s[..|s| - 1][..i] == s[..i];
      CountPrefix(s[..|s| - 1], i, x);
    }
  }

  lemma {:induction false} CountPositive(s: seq<Id>, x: Id)
    ensures Count(s, x) > 0 <==> x in s
  {
    if s != [] {
      CountPositive(s[..|s| - 1], x);
      assert s == s[..|s| - 1] + [s[|s| - 1]];
    }
  }

  lemma {:induction false} RemainingAfter(g: Graph, deps: seq<Id>, done: set<Id>, t: Id)
    requires t in g && t !in done
    ensures Remaining(g, deps, done + {t}) == Remaining(g, deps, done) - Count(deps, t)
  {
    if deps != [] { RemainingAfter(g, deps[..|deps| - 1], done, t); }
  }

  lemma {:induction false} RemainingZero(g: Graph, deps: seq<Id>, done: set<Id>)
    ensures Remaining(g, deps, done) == 0 <==> forall d :: d in deps && d in g ==> d in done
  {
    if deps != [] {
      RemainingZero(g, deps[..|deps| - 1], done);
      assert deps == deps[..|deps| - 1] + [deps[|deps| - 1]];
    }
  }

  function Dependents(dependents: map<Id, seq<Id>>, d: Id): seq<Id> {
    if d in dependents then dependents[d] else []
  }

  /** How often `x` is listed among the dependents of `d`. */
  function Listed(dependents: map<Id, seq<Id>>, d: Id, x: Id): nat { Count(Dependents(dependents, d), x) }

  /** One pass of the counting loop: bean `v` and its dependency entries. */
  method CountOne(g: Graph, v: Id, dependents: map<Id, seq<Id>>)
    returns (degree: nat, dependents': map<Id, seq<Id>>)
    requires v in g
    ensures degree == Remaining(g, g[v], {})
    ensures forall d, x :: d in g ==>
              Listed(dependents', d, x) == Listed(dependents, d, x) + if x == v then Count(g[v], d) else 0
  {
    degree, dependents' := 0, dependents;
    var deps := g[v];
    forall d ensures Count(deps[..0], d) == 0 { assert deps[..0] == []; }
    for i := 0 to |deps|
      invariant degree == Remaining(g, deps[..i], {})
      invariant forall d, x :: d in g ==>
                  Listed(dependents', d, x) == Listed(dependents, d, x) + if x == v then Count(deps[..i], d) else 0
    {
      var dep := deps[i];
      assert deps[..i + 1] == deps[..i] + [dep];
      assert deps[..i + 1][..i] == deps[..i];
      var next := if dep in g then dependents'[dep := Dependents(dependents', dep) + [v]] else dependents';
      forall d, x | d in g
        ensures Listed(next, d, x) == Listed(dependents, d, x) + if x == v then Count(deps[..i + 1], d) else 0
      {
        CountSnoc(deps[..i], dep, d);
        CountSnoc(Dependents(dependents', d), v, x);
      }
      if dep in g { degree := degree + 1; }
      dependents' := next;
    }
    assert deps[..|deps|] == deps;
  }

  function Expected(g: Graph, keys: seq<Id>, d: Id, x: Id): nat {
    if x in g && x in keys then Count(g[x], d) else 0
  }

  method CountAll(g: Graph, keys: seq<Id>) returns (inDegree: map<Id, nat>, dependents: map<Id, seq<Id>>)
    requires Lists(keys, g)
    ensures inDegree.Keys == g.Keys
    ensures forall v :: v in g ==> inDegree[v] == Remaining(g, g[v], {})
    ensures forall d, x :: d in g ==> Listed(dependents, d, x) == if x in g then Count(g[x], d) else 0
  {
    hide Remaining, Count;
    inDegree, dependents := map[], map[];
    assert Count([], 0) == 0 by { CountPositive([], 0); }
    forall d, x ensures Listed(dependents, d, x) == 0 { CountPositive([], x); }
    for i := 0 to |keys|
      invariant forall v :: v in inDegree <==> v in keys[..i]
      invariant forall v :: v in inDegree ==> v in g && inDegree[v] == Remaining(g, g[v], {})
      invariant forall d, x :: d in g ==> Listed(dependents, d, x) == Expected(g, keys[..i], d, x)
    {
      var v := keys[i];
      assert v in keys && v !in keys[..i];
      assert keys[..i + 1] == keys[..i] + [v];
      var degree;
      degree, dependents := CountOne(g, v, dependents);
      inDegree := inDegree[v := degree];
    }
    assert keys[..|keys|] == keys;
    assert inDegree.Keys == g.Keys;
  }

  /** The loop over the dependents of a finished bean: decrement, and queue what reaches zero. */
  method Release(ds: seq<Id>, inDegree: map<Id, nat>) returns (inDegree': map<Id, nat>, ready: seq<Id>)
    requires forall v :: v in ds ==> v in inDegree && Count(ds, v) <= inDegree[v]
    ensures inDegree'.Keys == inDegree.Keys
    ensures forall v :: v in inDegree ==> inDegree'[v] == inDegree[v] - Count(ds, v)
    ensures Distinct(ready)
    ensures forall v :: v in ready <==> v in inDegree && inDegree[v] > 0 && inDegree'[v] == 0
  {
    inDegree', ready := inDegree, [];
    for i := 0 to |ds|
      invariant inDegree'.Keys == inDegree.Keys
      invariant forall v :: v in inDegree ==> inDegree'[v] + Count(ds[..i], v) == inDegree[v]
      invariant Distinct(ready)
      invariant forall v :: v in ready <==> v in inDegree && inDegree[v] > 0 && inDegree'[v] == 0
    {
      var d := ds[i];
      assert d in ds;
      assert ds[..i + 1] == ds[..i] + [d];
      forall v ensures Count(ds[..i + 1], v) == Count(ds[..i], v) + if v == d then 1 else 0 {
        CountSnoc(ds[..i], d, v);
      }
      CountPrefix(ds, i + 1, d);
      inDegree' := inDegree'[d := inDegree'[d] - 1];
      if inDegree'[d] == 0 { ready := ready + [d]; }
    }
    assert ds[..|ds|] == ds;
  }

  ghost predicate Counted(g: Graph, inDegree: map<Id, nat>, topo: seq<Id>) {
    inDegree.Keys == g.Keys && forall v :: v in g ==> inDegree[v] == Remaining(g, g[v], Elems(topo))
  }

  ghost predicate Kahn(g: Graph, inDegree: map<Id, nat>, queue: seq<Id>, topo: seq<Id>) {
    && Counted(g, inDegree, topo)
    && Distinct(topo + queue)
    && (forall v :: v in topo || v in queue <==> v in g && inDegree[v] == 0)
    && DepsFirst(g, topo)
  }

  lemma DepsFirstSnoc(g: Graph, topo: seq<Id>, t: Id)
    requires DepsFirst(g, topo) && forall d :: Edge(g, t, d) ==> d in topo
    ensures DepsFirst(g, topo + [t])
  {
    var order := topo + [t];
    forall i, d | 0 <= i < |order| && Edge(g, order[i], d) ensures d in order[..i] {
      assert order[..i] == topo[..i];
    }
  }

  /** The beans without registered dependencies, in whichever order the degree table is walked. */
  method InitialQueue(inDegree: map<Id, nat>, order: seq<Id>) returns (queue: seq<Id>)
    requires Distinct(order) && forall v :: v in order <==> v in inDegree
    ensures Distinct(queue) && forall v :: v in queue <==> v in inDegree && inDegree[v] == 0
  {
    queue := [];
    for i := 0 to |order|
      invariant Distinct(queue)
      invariant forall v :: v in queue <==> v in order[..i] && v in inDegree && inDegree[v] == 0
    {
      assert order[i] in order && order[i] !in order[..i];
      assert order[..i + 1] == order[..i] + [order[i]];
      if inDegree[order[i]] == 0 { queue := queue + [order[i]]; }
    }
    assert order[..|order|] == order;
  }

  lemma HeadNotDone(topo: seq<Id>, queue: seq<Id>)
    requires Distinct(topo + queue) && queue != []
    ensures queue[0] !in topo
  {
    forall i | 0 <= i < |topo| ensures topo[i] != queue[0] {
      assert (topo + queue)[i] == topo[i] && (topo + queue)[|topo|] == queue[0];
    }
  }

  lemma ElemsSnoc(topo: seq<Id>, t: Id)
    ensures Elems(topo + [t]) == Elems(topo) + {t}
  {
  }

  /** One bean leaves the queue: what the counters must become, and what that keeps. */
  lemma KahnStep(g: Graph, inDegree: map<Id, nat>, queue: seq<Id>, topo: seq<Id>, inDegree': map<Id, nat>,
                 ready: seq<Id>)
    requires Kahn(g, inDegree, queue, topo) && queue != [] && inDegree'.Keys == inDegree.Keys
    requires forall v :: v in g ==> inDegree'[v] == inDegree[v] - Count(g[v], queue[0])
    requires Distinct(ready) && forall v :: v in ready <==> v in g && inDegree[v] > 0 && inDegree'[v] == 0
    ensures Kahn(g, inDegree', queue[1..] + ready, topo + [queue[0]])
  {
    hide Remaining, Count, DepsFirst;
    var t, topo' := queue[0], topo + [queue[0]];
    assert t in queue && t in g;
    HeadNotDone(topo, queue);
    ElemsSnoc(topo, t);
    forall v | v in g ensures inDegree'[v] == Remaining(g, g[v], Elems(topo')) {
      RemainingAfter(g, g[v], Elems(topo), t);
    }
    RemainingZero(g, g[t], Elems(topo));
    DepsFirstSnoc(g, topo, t);
    KahnQueues(topo, queue, ready);
    forall v ensures v in topo' || v in queue[1..] + ready <==> v in g && inDegree'[v] == 0 {
      assert queue == [t] + queue[1..];
    }
  }

  lemma KahnQueues(topo: seq<Id>, queue: seq<Id>, ready: seq<Id>)
    requires Distinct(topo + queue) && queue != [] && Distinct(ready)
    requires forall v :: v in ready ==> v !in topo && v !in queue
    ensures Distinct(topo + [queue[0]] + (queue[1..] + ready))
  {
    var a := topo + queue;
    assert topo + [queue[0]] + (queue[1..] + ready) == a + ready;
    forall i, j | 0 <= i < j < |a + ready| ensures (a + ready)[i] != (a + ready)[j] {
      if i < |a| <= j {
        assert (a + ready)[j] == ready[j - |a|] && ready[j - |a|] in ready;
        assert a[i] in topo || a[i] in queue;
      }
    }
  }

  ghost predicate ListsDependents(g: Graph, dependents: map<Id, seq<Id>>) {
    forall d, x :: d in g ==> Listed(dependents, d, x) == if x in g then Count(g[x], d) else 0
  }

  lemma DependentsFit(g: Graph, dependents: map<Id, seq<Id>>, inDegree: map<Id, nat>, queue: seq<Id>, topo: seq<Id>)
    requires Kahn(g, inDegree, queue, topo) && queue != [] && ListsDependents(g, dependents)
    ensures queue[0] in g
    ensures var ds := Dependents(dependents, queue[0]);
            && (forall v :: v in ds ==> v in g)
            && (forall v :: v in g ==> Count(ds, v) == Count(g[v], queue[0]) <= inDegree[v])
  {
    hide Remaining, Count, DepsFirst;
    var t := queue[0];
    assert t in queue && t in g;
    var ds := Dependents(dependents, t);
    HeadNotDone(topo, queue);
    forall v | v in g ensures Count(ds, v) == Count(g[v], t) <= inDegree[v] {
      assert Listed(dependents, t, v) == Count(ds, v);
      RemainingAfter(g, g[v], Elems(topo), t);
    }
    forall v | v in ds ensures v in g {
      assert Listed(dependents, t, v) == Count(ds, v);
      CountPositive(ds, v);
    }
  }

  /** Whoever is left over waits for someone else who is. */
  ghost predicate Stuck(g: Graph, topo: seq<Id>) {
    IsTrap(g, g.Keys - Elems(topo))
  }

  lemma DrainedIsStuck(g: Graph, inDegree: map<Id, nat>, topo: seq<Id>)
    requires Kahn(g, inDegree, [], topo)
    ensures Distinct(topo) && (forall v :: v in topo ==> v in g) && DepsFirst(g, topo) && Stuck(g, topo)
  {
    hide DepsFirst;
    assert topo + [] == topo;
    var left := g.Keys - Elems(topo);
    forall v | v in left ensures DependsInside(g, left, v) {
      assert inDegree[v] != 0;
      RemainingZero(g, g[v], Elems(topo));
      var d :| d in g[v] && d in g && d !in Elems(topo);
      assert d in left && Edge(g, v, d);
    }
  }

  /** Kahn's loop lists beans once, dependencies first, until no bean is ready. */
  method Drain(g: Graph, keys: seq<Id>, degreeKeys: seq<Id>) returns (topo: seq<Id>)
    requires Lists(keys, g) && Lists(degreeKeys, g)
    ensures Distinct(topo) && (forall v :: v in topo ==> v in g) && DepsFirst(g, topo) && Stuck(g, topo)
  {
    hide Remaining, Count, DepsFirst;
    var degrees, dependents := CountAll(g, keys);
    var queue := InitialQueue(degrees, degreeKeys);
    topo := [];
    assert Elems(topo) == {} && topo + queue == queue;
    assert DepsFirst(g, topo) by { OrderOfNothing(g); }
    while queue != []
      invariant Kahn(g, degrees, queue, topo)
      decreases |g| - |topo|
    {
      var tid := queue[0];
      var ds := Dependents(dependents, tid);
      DependentsFit(g, dependents, degrees, queue, topo);
      var degrees', ready := Release(ds, degrees);
      KahnStep(g, degrees, queue, topo, degrees', ready);
      degrees, queue, topo := degrees', queue[1..] + ready, topo + [tid];
      KahnFits(g, degrees, queue, topo);
    }
    DrainedIsStuck(g, degrees, topo);
  }

  lemma OrderOfNothing(g: Graph)
    ensures DepsFirst(g, [])
  {
  }

  lemma KahnFits(g: Graph, inDegree: map<Id, nat>, queue: seq<Id>, topo: seq<Id>)
    requires Kahn(g, inDegree, queue, topo)
    ensures |topo| <= |g|
  {
    forall i, j | 0 <= i < j < |topo| ensures topo[i] != topo[j] {
      assert (topo + queue)[i] == topo[i] && (topo + queue)[j] == topo[j];
    }
    DistinctLength(topo, g.Keys);
  }

  /** On an acyclic graph, nothing is left over. */
  lemma DrainedCoversAcyclic(g: Graph, topo: seq<Id>)
    requires Stuck(g, topo) && Acyclic(g)
    ensures forall v :: v in g ==> v in topo
  {
    var left := g.Keys - Elems(topo);
    forall v | v in g ensures v in left || v in topo {}
    if left != {} { TrapHasCycle(g, left); }
  }

  /** Every registration once; dependencies come first exactly when the graph has no cycle. */
  method TopoOrder(g: Graph, keys: seq<Id>, degreeKeys: seq<Id>) returns (topo: seq<Id>)
    requires Lists(keys, g) && Lists(degreeKeys, g)
    ensures Lists(topo, g)
    ensures DepsFirst(g, topo) <==> Acyclic(g)
  {
    hide Remaining, DepsFirst, Acyclic;
    topo := Drain(g, keys, degreeKeys);
    ghost var drained := topo;
    if Acyclic(g) { DrainedCoversAcyclic(g, topo); }
    if |topo| < |g| {
      for i := 0 to |keys|
        invariant Distinct(topo) && (forall v :: v in topo ==> v in g)
        invariant forall k :: 0 <= k < i ==> keys[k] in topo
        invariant Acyclic(g) ==> topo == drained
      {
        assert keys[i] in keys;
        if keys[i] !in topo { topo := topo + [keys[i]]; }
      }
    } else {
      DistinctCovers(topo, g.Keys);
    }
    forall v | v in g ensures v in topo { assert v in keys; }
    if DepsFirst(g, topo) { OrderedIsAcyclic(g, topo); }
  }

  lemma DistinctCovers(s: seq<Id>, values: set<Id>)
    requires Distinct(s) && (forall x :: x in s ==> x in values) && |s| >= |values|
    ensures forall x :: x in values ==> x in s
  {
    forall x | x in values ensures x in s {
      if x !in s { DistinctLength(s, values - {x}); }
    }
  }
}
