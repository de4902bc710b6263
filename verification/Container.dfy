/**
 The root container: `build` constructs the eager beans in dependency order and runs their
 post-construct hooks; `shutdown` runs pre-destroy hooks and destructors in reverse.
 Factories and hooks are modelled by the log of calls made to them.
 */
module Container {
  import opened Common
  import opened DependencyGraph
  import opened TopologicalOrder

  datatype Scope = Singleton | Prototype | Connection | Request

  /** A registration; the three flags say which callbacks it carries. */
  datatype Registration = Registration(
    deps: seq<Id>, scope: Scope, isLazy: bool, postConstruct: bool, preDestroy: bool, destructor: bool)

  /** An instance, numbered in order of construction. */
  datatype Bean = Bean(id: Id, instance: nat, postConstruct: bool, preDestroy: bool, destructor: bool)

  datatype Event =
    | Constructed(bean: Bean)
    | PostConstructed(bean: Bean)
    | PreDestroyed(bean: Bean)
    | Destroyed(bean: Bean)

  datatype BuildResult = Built | BuiltTwice | Circular(path: seq<Id>)

  type Registrations = map<Id, Registration>

  function GraphOf(regs: Registrations): Graph { map id | id in regs :: regs[id].deps }

  predicate Eager(regs: Registrations, id: Id) {
    id in regs && regs[id].scope != Prototype && !regs[id].isLazy
  }

  // ---------------------------------------------------------------- what the loops produce

  /** The beans made by walking `order`, numbered from `first`. */
  function Made(regs: Registrations, order: seq<Id>, first: nat): seq<Bean> {
    if order == [] then []
    else
      var made := Made(regs, order[..|order| - 1], first);
      var id := order[|order| - 1];
      if Eager(regs, id)
      then made + [Bean(id, first + |made|, regs[id].postConstruct, regs[id].preDestroy, regs[id].destructor)]
      else made
  }

  function Constructions(beans: seq<Bean>): seq<Event> {
    if beans == [] then [] else Constructions(beans[..|beans| - 1]) + [Constructed(beans[|beans| - 1])]
  }

  function PostConstructions(beans: seq<Bean>): seq<Event> {
    if beans == [] then []
    else PostConstructions(beans[..|beans| - 1]) +
         if beans[|beans| - 1].postConstruct then [PostConstructed(beans[|beans| - 1])] else []
  }

  /** Last bean first. */
  function PreDestructions(beans: seq<Bean>): seq<Event> {
    if beans == [] then []
    else (if beans[|beans| - 1].preDestroy then [PreDestroyed(beans[|beans| - 1])] else []) +
         PreDestructions(beans[..|beans| - 1])
  }

  function Destructions(beans: seq<Bean>): seq<Event> {
    if beans == [] then []
    else (if beans[|beans| - 1].destructor then [Destroyed(beans[|beans| - 1])] else []) +
         Destructions(beans[..|beans| - 1])
  }

  /** Instance numbers below `next`: no later bean can be one of these. */
  ghost predicate Numbered(beans: seq<Bean>, next: nat) {
    forall i :: 0 <= i < |beans| ==> beans[i].instance < next
  }

  lemma NumberedAppend(beans: seq<Bean>, made: seq<Bean>, next: nat)
    requires Numbered(beans, next) && Numbered(made, next + |made|)
    ensures Numbered(beans + made, next + |made|)
  {
  }

  lemma {:induction false} MadeIsNumbered(regs: Registrations, order: seq<Id>, first: nat)
    ensures var made := Made(regs, order, first);
            Numbered(made, first + |made|) && forall i :: 0 <= i < |made| ==> first <= made[i].instance
    decreases |order|
  {
    if order != [] { MadeIsNumbered(regs, order[..|order| - 1], first); }
  }

  class RootContainer {
    var registrations: Registrations
    var topoOrder: seq<Id>
    /** The lifecycle manager's entries. */
    var entries: seq<Bean>
    var owned: seq<Bean>
    var built: bool
    var nextInstance: nat
    var log: seq<Event>

    /** What is owned are the latest entries, and nothing is owned while not built. */
    ghost predicate Valid()
      reads this
    {
      && (!built ==> owned == [])
      && |owned| <= |entries| && entries[|entries| - |owned|..] == owned
      && Numbered(entries, nextInstance)
    }

    constructor ()
      ensures Valid()
      ensures registrations == map[] && !built && entries == [] && owned == [] && log == [] && nextInstance == 0
    {
      registrations, topoOrder, entries, owned, built, nextInstance, log := map[], [], [], [], false, 0, [];
      new;
      assert |entries| == 0 && |owned| == 0;
      assert entries[0..] == owned;
    }

    method Register(id: Id, registration: Registration)
      modifies this`registrations
      ensures registrations == old(registrations)[id := registration]
    {
      registrations := registrations[id := registration];
    }

    method Build(keys: seq<Id>, degreeKeys: seq<Id>) returns (result: BuildResult)
      requires Valid()
      requires Lists(keys, GraphOf(registrations)) && Lists(degreeKeys, GraphOf(registrations))
      modifies this
      ensures Valid() && registrations == old(registrations)
      ensures result.BuiltTwice? <==> old(built)
      ensures result.Circular? <==> !old(built) && !Acyclic(GraphOf(registrations))
      ensures result.Circular? ==> IsCycle(GraphOf(registrations), result.path)
      ensures !result.Built? ==>
                && built == old(built) && log == old(log) && owned == old(owned)
                && entries == old(entries) && nextInstance == old(nextInstance)
      ensures result.Built? ==>
                && built
                && Lists(topoOrder, GraphOf(registrations)) && DepsFirst(GraphOf(registrations), topoOrder)
                && var made := Made(registrations, topoOrder, old(nextInstance));
                && owned == old(owned) + made && entries == old(entries) + made
                && nextInstance == old(nextInstance) + |made|
                && log == old(log) + Constructions(made) + PostConstructions(entries)
    {
      hide DepsFirst, Acyclic, IsCycle, Made, Constructions, PostConstructions, Valid;
      if built { return BuiltTwice; }
      var g := GraphOf(registrations);
      var detector := new CycleDetector(g);
      var cycle := detector.DetectCycles(keys);
      if cycle.Some? { return Circular(cycle.value); }
      var order := TopoOrder(g, keys, degreeKeys);
      Construct(order);
      return Built;
    }

    /** The part of `build` after the order is known. */
    method Construct(order: seq<Id>)
      requires Valid() && !built
      modifies this
      ensures Valid() && built && registrations == old(registrations) && topoOrder == order
      ensures var made := Made(registrations, order, old(nextInstance));
              && owned == old(owned) + made && entries == old(entries) + made
              && nextInstance == old(nextInstance) + |made|
              && log == old(log) + Constructions(made) + PostConstructions(entries)
    {
      hide Made, Constructions, PostConstructions;
      topoOrder := order;
      ghost var made := Made(registrations, order, nextInstance);
      MadeIsNumbered(registrations, order, nextInstance);
      NumberedAppend(entries, made, nextInstance);
      InstantiateAll();
      assert owned == made && entries[|entries| - |made|..] == made;
      InvokePostConstructs();
      built := true;
    }

    method InstantiateAll()
      modifies this`owned, this`entries, this`nextInstance, this`log
      ensures var made := Made(registrations, topoOrder, old(nextInstance));
              && owned == old(owned) + made && entries == old(entries) + made
              && nextInstance == old(nextInstance) + |made| && log == old(log) + Constructions(made)
    {
      ghost var made: seq<Bean> := [];
      for i := 0 to |topoOrder|
        invariant made == Made(registrations, topoOrder[..i], old(nextInstance))
        invariant owned == old(owned) + made && entries == old(entries) + made
        invariant nextInstance == old(nextInstance) + |made| && log == old(log) + Constructions(made)
      {
        var id := topoOrder[i];
        assert topoOrder[..i + 1][..i] == topoOrder[..i];
        if id !in registrations { continue; }
        var reg := registrations[id];
        if reg.scope == Prototype { continue; }
        if reg.isLazy { continue; }
        var bean := Bean(id, nextInstance, reg.postConstruct, reg.preDestroy, reg.destructor);
        assert (made + [bean])[..|made|] == made;
        made := made + [bean];
        nextInstance := nextInstance + 1;
        log := log + [Constructed(bean)];
        entries := entries + [bean];
        owned := owned + [bean];
      }
      assert topoOrder[..|topoOrder|] == topoOrder;
    }

    method InvokePostConstructs()
      modifies this`log
      ensures log == old(log) + PostConstructions(entries)
    {
      for i := 0 to |entries|
        invariant log == old(log) + PostConstructions(entries[..i])
      {
        assert entries[..i + 1][..i] == entries[..i];
        if entries[i].postConstruct { log := log + [PostConstructed(entries[i])]; }
      }
      assert entries[..|entries|] == entries;
    }

    /** The entries of the lifecycle manager outlive the beans. */
    method Shutdown()
      requires Valid()
      modifies this
      ensures Valid() && !built && registrations == old(registrations) && topoOrder == old(topoOrder)
      ensures entries == old(entries) && nextInstance == old(nextInstance)
      ensures !old(built) ==> log == old(log) && owned == old(owned)
      ensures old(built) ==> log == old(log) + PreDestructions(entries) + Destructions(old(owned)) && owned == []
    {
      if !built { return; }
      InvokePreDestroys();
      DestroyOwned();
      owned := [];
      built := false;
    }

    method InvokePreDestroys()
      modifies this`log
      ensures log == old(log) + PreDestructions(entries)
    {
      var i := |entries|;
      assert entries[..i] == entries;
      while i > 0
        invariant 0 <= i <= |entries|
        invariant old(log) + PreDestructions(entries) == log + PreDestructions(entries[..i])
      {
        assert entries[..i][..i - 1] == entries[..i - 1];
        i := i - 1;
        if entries[i].preDestroy { log := log + [PreDestroyed(entries[i])]; }
      }
    }

    method DestroyOwned()
      modifies this`log
      ensures log == old(log) + Destructions(owned)
    {
      var i := |owned|;
      assert owned[..i] == owned;
      while i > 0
        invariant 0 <= i <= |owned|
        invariant old(log) + Destructions(owned) == log + Destructions(owned[..i])
      {
        assert owned[..i][..i - 1] == owned[..i - 1];
        i := i - 1;
        if owned[i].destructor { log := log + [Destroyed(owned[i])]; }
      }
    }
  }

  // ---------------------------------------------------------------- order of lives

  ghost predicate Precedes(log: seq<Event>, e: Event, f: Event) {
    exists i, j :: 0 <= i < j < |log| && log[i] == e && log[j] == f
  }

  lemma PrecedesIn(before: seq<Event>, log: seq<Event>, after: seq<Event>, e: Event, f: Event)
    requires Precedes(log, e, f)
    ensures Precedes(before + log + after, e, f)
  {
    var i, j :| 0 <= i < j < |log| && log[i] == e && log[j] == f;
    var whole := before + log + after;
    assert whole[|before| + i] == e && whole[|before| + j] == f;
  }

  lemma PrecedesAcross(a: seq<Event>, b: seq<Event>, e: Event, f: Event)
    requires e in a && f in b
    ensures Precedes(a + b, e, f)
  {
    var i :| 0 <= i < |a| && a[i] == e;
    var j :| 0 <= j < |b| && b[j] == f;
    assert (a + b)[i] == e && (a + b)[|a| + j] == f;
  }

  lemma {:induction false} LoggedBeans(beans: seq<Bean>, b: Bean)
    requires b in beans
    ensures Constructed(b) in Constructions(beans)
    ensures b.postConstruct ==> PostConstructed(b) in PostConstructions(beans)
    ensures b.preDestroy ==> PreDestroyed(b) in PreDestructions(beans)
    ensures b.destructor ==> Destroyed(b) in Destructions(beans)
  {
    if b != beans[|beans| - 1] {
      assert beans == beans[..|beans| - 1] + [beans[|beans| - 1]];
      LoggedBeans(beans[..|beans| - 1], b);
    }
  }

  /** Hooks run in order on the way up, and in reverse on the way down. */
  lemma {:induction false} LogFollowsBeans(beans: seq<Bean>, i: nat, j: nat)
    requires i < j < |beans|
    ensures Precedes(Constructions(beans), Constructed(beans[i]), Constructed(beans[j]))
    ensures beans[i].preDestroy && beans[j].preDestroy ==>
              Precedes(PreDestructions(beans), PreDestroyed(beans[j]), PreDestroyed(beans[i]))
    ensures beans[i].destructor && beans[j].destructor ==>
              Precedes(Destructions(beans), Destroyed(beans[j]), Destroyed(beans[i]))
  {
    hide Precedes;
    var front, last := beans[..|beans| - 1], beans[|beans| - 1];
    var up, pre, down := Constructions(front), PreDestructions(front), Destructions(front);
    var lastPre := if last.preDestroy then [PreDestroyed(last)] else [];
    var lastDown := if last.destructor then [Destroyed(last)] else [];
    if j < |front| {
      LogFollowsBeans(front, i, j);
      PrecedesIn([], up, [Constructed(last)], Constructed(beans[i]), Constructed(beans[j]));
      assert [] + up == up;
      if beans[i].preDestroy && beans[j].preDestroy {
        PrecedesIn(lastPre, pre, [], PreDestroyed(beans[j]), PreDestroyed(beans[i]));
        assert lastPre + pre + [] == lastPre + pre;
      }
      if beans[i].destructor && beans[j].destructor {
        PrecedesIn(lastDown, down, [], Destroyed(beans[j]), Destroyed(beans[i]));
        assert lastDown + down + [] == lastDown + down;
      }
    } else {
      assert front[i] == beans[i];
      LoggedBeans(front, beans[i]);
      PrecedesAcross(up, [Constructed(last)], Constructed(beans[i]), Constructed(last));
      if beans[i].preDestroy && last.preDestroy {
        PrecedesAcross(lastPre, pre, PreDestroyed(last), PreDestroyed(beans[i]));
      }
      if beans[i].destructor && last.destructor {
        PrecedesAcross(lastDown, down, Destroyed(last), Destroyed(beans[i]));
      }
    }
  }

  /** Post-construct hooks run in the order of construction. */
  lemma {:induction false} PostConstructsFollow(beans: seq<Bean>, i: nat, j: nat)
    requires i < j < |beans| && beans[i].postConstruct && beans[j].postConstruct
    ensures Precedes(PostConstructions(beans), PostConstructed(beans[i]), PostConstructed(beans[j]))
    decreases |beans|
  {
    hide Precedes;
    var front, last := beans[..|beans| - 1], beans[|beans| - 1];
    var log := PostConstructions(front);
    if j < |front| {
      PostConstructsFollow(front, i, j);
      var more := if last.postConstruct then [PostConstructed(last)] else [];
      PrecedesIn([], log, more, PostConstructed(beans[i]), PostConstructed(beans[j]));
      assert [] + log + more == log + more;
    } else {
      assert front[i] == beans[i];
      LoggedBeans(front, beans[i]);
      PrecedesAcross(log, [PostConstructed(last)], PostConstructed(beans[i]), PostConstructed(last));
    }
  }

  ghost predicate Holds(beans: seq<Bean>, id: Id) { exists k :: 0 <= k < |beans| && beans[k].id == id }

  lemma HoldsSnoc(beans: seq<Bean>, b: Bean, id: Id)
    ensures Holds(beans + [b], id) <==> Holds(beans, id) || b.id == id
  {
    var more := beans + [b];
    assert more[|beans|] == b;
    if k :| 0 <= k < |beans| && beans[k].id == id { assert more[k].id == id; }
  }

  /** Exactly the eager registrations are built. */
  lemma {:induction false} MadeIsEager(regs: Registrations, order: seq<Id>, first: nat, id: Id)
    ensures Holds(Made(regs, order, first), id) <==> id in order && Eager(regs, id)
    decreases |order|
  {
    if order != [] {
      var front, last := order[..|order| - 1], order[|order| - 1];
      MadeIsEager(regs, front, first, id);
      assert order == front + [last];
      if Eager(regs, last) {
        var made := Made(regs, order, first);
        HoldsSnoc(Made(regs, front, first), made[|made| - 1], id);
      }
    }
  }

  lemma {:induction false} MadeInOrder(regs: Registrations, order: seq<Id>, first: nat, d: Id, t: Id)
    requires Distinct(order) && DepsFirst(GraphOf(regs), order) && t in order
    requires Eager(regs, t) && Eager(regs, d) && Edge(GraphOf(regs), t, d)
    ensures exists i, j :: 0 <= i < j < |Made(regs, order, first)| &&
                           Made(regs, order, first)[i].id == d && Made(regs, order, first)[j].id == t
    decreases |order|
  {
    var front, last := order[..|order| - 1], order[|order| - 1];
    var before, made := Made(regs, front, first), Made(regs, order, first);
    if t == last {
      assert d in order[..|order| - 1];
      MadeIsEager(regs, front, first, d);
      var i :| 0 <= i < |before| && before[i].id == d;
      assert made[i].id == d && made[|before|].id == t;
    } else {
      forall i, e | 0 <= i < |front| && Edge(GraphOf(regs), front[i], e) ensures e in front[..i] {
        assert front[i] == order[i] && front[..i] == order[..i];
      }
      MadeInOrder(regs, front, first, d, t);
      var i, j :| 0 <= i < j < |before| && before[i].id == d && before[j].id == t;
      assert made[i].id == d && made[j].id == t;
    }
  }

  // ---------------------------------------------------------------- whole lives

  /** What a container logs from `build` to the end of `shutdown`, when `earlier` beans have been destroyed before. */
  function Life(earlier: seq<Bean>, made: seq<Bean>): seq<Event> {
    Constructions(made) + PostConstructions(earlier + made) + PreDestructions(earlier + made) + Destructions(made)
  }

  /** One life of a container, which may have lived before. */
  method Live(c: RootContainer, keys: seq<Id>, degreeKeys: seq<Id>) returns (result: BuildResult, ghost made: seq<Bean>)
    requires c.Valid() && !c.built
    requires Lists(keys, GraphOf(c.registrations)) && Lists(degreeKeys, GraphOf(c.registrations))
    modifies c
    ensures c.Valid() && !c.built && c.registrations == old(c.registrations)
    ensures result == Built <==> Acyclic(GraphOf(c.registrations))
    ensures result != Built ==> made == [] && c.log == old(c.log) && c.entries == old(c.entries)
    ensures result == Built ==>
              && c.log == old(c.log) + Life(old(c.entries), made) && c.entries == old(c.entries) + made
              && (forall b :: b in made ==> b !in old(c.entries))
              && Lists(c.topoOrder, GraphOf(c.registrations)) && DepsFirst(GraphOf(c.registrations), c.topoOrder)
              && made == Made(c.registrations, c.topoOrder, old(c.nextInstance))
  {
    hide DepsFirst, Acyclic, IsCycle, Made, Lists, Constructions, PostConstructions, PreDestructions, Destructions;
    ghost var first, earlier := c.nextInstance, c.entries;
    result := c.Build(keys, degreeKeys);
    if result != Built { made := []; return; }
    made := Made(c.registrations, c.topoOrder, first);
    MadeIsNumbered(c.registrations, c.topoOrder, first);
    assert [] + made == made;
    c.Shutdown();
    forall b | b in made ensures b !in earlier {}
  }

  /** In every life, a dependency is constructed before, and torn down after, whatever depends on it. */
  lemma LivesNest(regs: Registrations, order: seq<Id>, first: nat, earlier: seq<Bean>, d: Id, t: Id)
    returns (bd: Bean, bt: Bean)
    requires Distinct(order) && DepsFirst(GraphOf(regs), order) && t in order
    requires Eager(regs, t) && Eager(regs, d) && Edge(GraphOf(regs), t, d)
    ensures var made := Made(regs, order, first);
            var life := Life(earlier, made);
            && bd in made && bt in made && bd.id == d && bt.id == t
            && Precedes(life, Constructed(bd), Constructed(bt))
            && (bd.postConstruct && bt.postConstruct ==> Precedes(life, PostConstructed(bd), PostConstructed(bt)))
            && (bd.postConstruct ==> Precedes(life, Constructed(bt), PostConstructed(bd)))
            && (bd.preDestroy && bt.preDestroy ==> Precedes(life, PreDestroyed(bt), PreDestroyed(bd)))
            && (bd.destructor && bt.destructor ==> Precedes(life, Destroyed(bt), Destroyed(bd)))
            && (bd.destructor && bt.preDestroy ==> Precedes(life, PreDestroyed(bt), Destroyed(bd)))
  {
    hide Precedes, Made, Constructions, PostConstructions, PreDestructions, Destructions;
    var made := Made(regs, order, first);
    var all := earlier + made;
    MadeInOrder(regs, order, first, d, t);
    var i, j :| 0 <= i < j < |made| && made[i].id == d && made[j].id == t;
    bd, bt := made[i], made[j];
    assert all[|earlier| + i] == bd && all[|earlier| + j] == bt;
    LogFollowsBeans(made, i, j);
    LogFollowsBeans(all, |earlier| + i, |earlier| + j);
    LoggedBeans(made, bd);
    LoggedBeans(all, bt);
    var a, b, c, e := Constructions(made), PostConstructions(all), PreDestructions(all), Destructions(made);
    assert Life(earlier, made) == [] + a + (b + c + e) == (a + b) + c + e == (a + b + c) + e + [];
    PrecedesIn([], a, b + c + e, Constructed(bd), Constructed(bt));
    PostConstructsToo(made, all, bd, bt, |earlier| + i, |earlier| + j, c + e);
    assert a + b + (c + e) == Life(earlier, made);
    if bd.preDestroy && bt.preDestroy { PrecedesIn(a + b, c, e, PreDestroyed(bt), PreDestroyed(bd)); }
    if bd.destructor && bt.destructor { PrecedesIn(a + b + c, e, [], Destroyed(bt), Destroyed(bd)); }
    if bd.destructor && bt.preDestroy {
      assert PreDestroyed(bt) in a + b + c;
      PrecedesAcross(a + b + c, e, PreDestroyed(bt), Destroyed(bd));
    }
  }

  lemma PostConstructsToo(made: seq<Bean>, all: seq<Bean>, bd: Bean, bt: Bean, i: nat, j: nat, rest: seq<Event>)
    requires bt in made && i < j < |all| && all[i] == bd && all[j] == bt
    ensures var life := Constructions(made) + PostConstructions(all) + rest;
            && (bd.postConstruct && bt.postConstruct ==> Precedes(life, PostConstructed(bd), PostConstructed(bt)))
            && (bd.postConstruct ==> Precedes(life, Constructed(bt), PostConstructed(bd)))
  {
    hide Precedes, Constructions, PostConstructions;
    var a, b := Constructions(made), PostConstructions(all);
    LoggedBeans(made, bt);
    LoggedBeans(all, bd);
    if bd.postConstruct {
      PrecedesAcross(a, b + rest, Constructed(bt), PostConstructed(bd));
      assert a + (b + rest) == a + b + rest;
      if bt.postConstruct {
        PostConstructsFollow(all, i, j);
        PrecedesIn(a, b, rest, PostConstructed(bd), PostConstructed(bt));
      }
    }
  }

  /** A bean stands for one registration that is neither lazy nor a prototype, and has the callbacks of that one. */
  lemma {:induction false} MadeFromRegistration(regs: Registrations, order: seq<Id>, first: nat, b: Bean)
    requires b in Made(regs, order, first)
    ensures b.id in order && b.id in regs && regs[b.id].scope != Prototype && !regs[b.id].isLazy
    ensures b.postConstruct == regs[b.id].postConstruct && b.preDestroy == regs[b.id].preDestroy
    ensures b.destructor == regs[b.id].destructor
    decreases |order|
  {
    var front, last := order[..|order| - 1], order[|order| - 1];
    assert order == front + [last];
    if b in Made(regs, front, first) { MadeFromRegistration(regs, front, first, b); }
  }

  lemma {:induction false} MadeIsDistinct(regs: Registrations, order: seq<Id>, first: nat)
    ensures Distinct(Made(regs, order, first))
    decreases |order|
  {
    if order != [] {
      var front := order[..|order| - 1];
      MadeIsDistinct(regs, front, first);
      MadeIsNumbered(regs, front, first);
    }
  }

  lemma {:induction false} EventsOnce(beans: seq<Bean>)
    requires Distinct(beans)
    ensures Distinct(Constructions(beans)) && Distinct(PostConstructions(beans))
    ensures Distinct(PreDestructions(beans)) && Distinct(Destructions(beans))
  {
    if beans != [] {
      var front, last := beans[..|beans| - 1], beans[|beans| - 1];
      EventsOnce(front);
      assert last !in front;
      EventsOf(front, Constructed(last));
      EventsOf(front, PostConstructed(last));
      EventsOf(front, PreDestroyed(last));
      EventsOf(front, Destroyed(last));
      DistinctJoin(Constructions(front), [Constructed(last)]);
      DistinctJoin(PostConstructions(front), if last.postConstruct then [PostConstructed(last)] else []);
      DistinctJoin(if last.preDestroy then [PreDestroyed(last)] else [], PreDestructions(front));
      DistinctJoin(if last.destructor then [Destroyed(last)] else [], Destructions(front));
    }
  }

  lemma DistinctJoin(a: seq<Event>, b: seq<Event>)
    requires Distinct(a) && Distinct(b) && forall e :: e in a ==> e !in b
    ensures Distinct(a + b)
  {
    forall i, j | 0 <= i < j < |a + b| ensures (a + b)[i] != (a + b)[j] {
      if i < |a| <= j { assert a[i] in a && b[j - |a|] in b; }
    }
  }

  /** In one life every bean is constructed, and each of its callbacks is called, exactly once. */
  lemma OncePerLife(earlier: seq<Bean>, made: seq<Bean>)
    requires Distinct(earlier + made)
    ensures Distinct(Life(earlier, made))
    ensures forall b :: b in made ==>
              && Constructed(b) in Life(earlier, made)
              && (PostConstructed(b) in Life(earlier, made) <==> b.postConstruct)
              && (PreDestroyed(b) in Life(earlier, made) <==> b.preDestroy)
              && (Destroyed(b) in Life(earlier, made) <==> b.destructor)
  {
    hide Constructions, PostConstructions, PreDestructions, Destructions;
    var all := earlier + made;
    forall i, j | 0 <= i < j < |made| ensures made[i] != made[j] {
      assert all[|earlier| + i] == made[i] && all[|earlier| + j] == made[j];
    }
    EventsOnce(made);
    EventsOnce(all);
    forall e ensures
      && (e in Constructions(made) <==> e.Constructed? && e.bean in made)
      && (e in PostConstructions(all) <==> e.PostConstructed? && e.bean in all && e.bean.postConstruct)
      && (e in PreDestructions(all) <==> e.PreDestroyed? && e.bean in all && e.bean.preDestroy)
      && (e in Destructions(made) <==> e.Destroyed? && e.bean in made && e.bean.destructor)
    {
      EventsOf(made, e);
      EventsOf(all, e);
    }
    var a, b, c, d := Constructions(made), PostConstructions(all), PreDestructions(all), Destructions(made);
    DistinctJoin(a, b);
    DistinctJoin(a + b, c);
    DistinctJoin(a + b + c, d);
  }

  // ---------------------------------------------------------------- living again

  lemma {:induction false} EventsOf(beans: seq<Bean>, e: Event)
    ensures e in Constructions(beans) <==> e.Constructed? && e.bean in beans
    ensures e in PostConstructions(beans) <==> e.PostConstructed? && e.bean in beans && e.bean.postConstruct
    ensures e in PreDestructions(beans) <==> e.PreDestroyed? && e.bean in beans && e.bean.preDestroy
    ensures e in Destructions(beans) <==> e.Destroyed? && e.bean in beans && e.bean.destructor
  {
    if beans != [] {
      EventsOf(beans[..|beans| - 1], e);
      assert beans == beans[..|beans| - 1] + [beans[|beans| - 1]];
    }
  }

  ghost predicate TouchesOnly(log: seq<Event>, beans: seq<Bean>) { forall e :: e in log ==> e.bean in beans }

  predicate Hookless(beans: seq<Bean>) { forall b :: b in beans ==> !b.postConstruct && !b.preDestroy }

  /**
   `shutdown` keeps the lifecycle entries, so another life runs the hooks of destroyed beans too: it touches only its
   own beans if and only if no earlier bean has a post-construct or a pre-destroy hook.
   */
  lemma StaleHooks(earlier: seq<Bean>, made: seq<Bean>)
    requires forall b :: b in made ==> b !in earlier
    ensures TouchesOnly(Life(earlier, made), made) <==> Hookless(earlier)
  {
    hide Constructions, PostConstructions, PreDestructions, Destructions;
    forall e
      ensures e in Life(earlier, made) ==>
                e.bean in made || (e.bean in earlier && (e.bean.postConstruct || e.bean.preDestroy))
    {
      EventsOf(made, e);
      EventsOf(earlier + made, e);
    }
    if b :| b in earlier && (b.postConstruct || b.preDestroy) {
      assert b in earlier + made;
      LoggedBeans(earlier + made, b);
      var e := if b.postConstruct then PostConstructed(b) else PreDestroyed(b);
      assert e in Life(earlier, made) && e.bean !in made;
    }
  }

  /**
   Build, shut down, build and shut down again: the second life leaves the beans of the first alone exactly if they
   had no hooks.
   */
  method LiveTwice(c: RootContainer, keys: seq<Id>, degreeKeys: seq<Id>)
    returns (result: BuildResult, ghost first: seq<Bean>, ghost second: seq<Bean>)
    requires c.Valid() && !c.built && c.entries == []
    requires Lists(keys, GraphOf(c.registrations)) && Lists(degreeKeys, GraphOf(c.registrations))
    modifies c
    ensures result == Built <==> Acyclic(GraphOf(c.registrations))
    ensures result == Built ==>
              && c.log == old(c.log) + Life([], first) + Life(first, second)
              && (TouchesOnly(Life(first, second), second) <==> Hookless(first))
  {
    result, first := Live(c, keys, degreeKeys);
    second := [];
    if result != Built { return; }
    assert [] + first == first;
    result, second := Live(c, keys, degreeKeys);
    StaleHooks(first, second);
  }

  /**
   One registration with nothing but a pre-destroy hook and a destructor: the hook runs again on the destroyed bean.
   */
  lemma DestroyedBeanIsCalled()
    ensures var regs := map[7 := Registration([], Singleton, false, false, true, true)];
            var first, second := Made(regs, [7], 0), Made(regs, [7], 1);
            var bean := Bean(7, 0, false, true, true);
            && first == [bean] && Destroyed(bean) in Life([], first)
            && PreDestroyed(bean) in Life(first, second)
  {
    var regs := map[7 := Registration([], Singleton, false, false, true, true)];
    var bean := Bean(7, 0, false, true, true);
    assert [7][..0] == [] && Made(regs, [], 0) == [] && Made(regs, [], 1) == [];
    assert Made(regs, [7], 0) == [bean];
    var second := Made(regs, [7], 1);
    EventsOf([bean], Destroyed(bean));
    EventsOf([bean] + second, PreDestroyed(bean));
  }
}
