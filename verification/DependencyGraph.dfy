/**
 The dependency graph of the container: cycles, dependency-first orders and three-colour detection.
 A hash map's iteration order is a parameter: any sequence listing the registrations once.
 */
module DependencyGraph {
  import opened Common

  type Id = nat

  /** Registered beans and their declared dependencies, which may repeat and may be unregistered. */
  type Graph = map<Id, seq<Id>>

  predicate Edge(g: Graph, a: Id, b: Id) { a in g && b in g && b in g[a] }

  ghost predicate IsWalk(g: Graph, w: seq<Id>) {
    forall i, j :: 0 <= i && j == i + 1 && j < |w| ==> Edge(g, w[i], w[j])
  }

  lemma WalkSnoc(g: Graph, w: seq<Id>, d: Id)
    requires IsWalk(g, w) && (w != [] ==> Edge(g, w[|w| - 1], d))
    ensures IsWalk(g, w + [d])
  {
  }

  lemma WalkSlice(g: Graph, w: seq<Id>, lo: nat, hi: nat)
    requires IsWalk(g, w) && lo <= hi <= |w|
    ensures IsWalk(g, w[lo..hi])
  {
    var s := w[lo..hi];
    forall i, j | 0 <= i && j == i + 1 && j < |s| ensures Edge(g, s[i], s[j]) {
      assert s[i] == w[lo + i] && s[j] == w[lo + j];
    }
  }

  ghost predicate IsCycle(g: Graph, c: seq<Id>) {
    |c| >= 2 && c[0] == c[|c| - 1] && IsWalk(g, c)
  }

  ghost predicate Acyclic(g: Graph) { forall c :: !IsCycle(g, c) }

  /** Every registered dependency of an element stands somewhere before it. */
  ghost predicate DepsFirst(g: Graph, order: seq<Id>) {
    forall i, d :: 0 <= i < |order| && Edge(g, order[i], d) ==> d in order[..i]
  }

  // ---------------------------------------------------------------- orders and cycles exclude each other

  lemma {:induction false} WalkDescends(g: Graph, order: seq<Id>, w: seq<Id>, n: nat)
    requires DepsFirst(g, order) && IsWalk(g, w) && n < |w| && w[0] in order
    ensures w[n] in order && Find(order, w[n], 0) <= Find(order, w[0], 0) - n
  {
    if n > 0 {
      WalkDescends(g, order, w, n - 1);
      var p := Find(order, w[n - 1], 0);
      assert Edge(g, w[n - 1], w[n]);
      var q :| 0 <= q < p && order[q] == w[n];
    }
  }

  lemma OrderedIsAcyclic(g: Graph, order: seq<Id>)
    requires DepsFirst(g, order) && forall k :: k in g ==> k in order
    ensures Acyclic(g)
  {
    forall c | IsCycle(g, c) ensures false {
      assert Edge(g, c[0], c[1]);
      WalkDescends(g, order, c, |c| - 1);
    }
  }

  ghost predicate DependsInside(g: Graph, trap: set<Id>, v: Id) { exists d :: d in trap && Edge(g, v, d) }

  ghost predicate IsTrap(g: Graph, trap: set<Id>) {
    forall v {:trigger DependsInside(g, trap, v)} :: v in trap ==> DependsInside(g, trap, v)
  }

  lemma {:induction false} WalkInside(g: Graph, trap: set<Id>, start: Id, n: nat) returns (w: seq<Id>)
    requires start in trap && IsTrap(g, trap)
    ensures |w| == n + 1 && IsWalk(g, w) && forall v :: v in w ==> v in trap
  {
    if n == 0 {
      w := [start];
    } else {
      var front := WalkInside(g, trap, start, n - 1);
      var last := front[n - 1];
      assert last in trap && DependsInside(g, trap, last);
      var d :| d in trap && Edge(g, last, d);
      w := front + [d];
      WalkSnoc(g, front, d);
    }
  }

  /** A non-empty set in which everyone depends on a member holds a cycle. */
  lemma TrapHasCycle(g: Graph, trap: set<Id>)
    requires trap != {} && IsTrap(g, trap)
    ensures !Acyclic(g)
  {
    var start :| start in trap;
    var w := WalkInside(g, trap, start, |trap|);
    if Distinct(w) { DistinctLength(w, trap); }
    var i, j :| 0 <= i < j < |w| && w[i] == w[j];
    WalkSlice(g, w, i, j + 1);
    assert IsCycle(g, w[i..j + 1]);
  }

  // ---------------------------------------------------------------- cycle detection

  datatype Color = White | Gray | Black

  function Whites(color: map<Id, Color>): set<Id> { set v | v in color && color[v] == White }

  class CycleDetector {
    const g: Graph
    var color: map<Id, Color>
    var path: seq<Id>
    /** Beans in the order in which their exploration ended. */
    ghost var finished: seq<Id>

    ghost predicate Valid()
      reads this
    {
      && color.Keys == g.Keys
      && IsWalk(g, path)
      && (forall v :: v in g ==> (color[v] == Gray <==> v in path))
      && (forall v :: v in g ==> (color[v] == Black <==> v in finished))
      && (forall v :: v in path || v in finished ==> v in g)
      && DepsFirst(g, finished)
    }

    constructor (g: Graph)
      ensures Valid() && this.g == g && path == [] && finished == [] && forall v :: v in g ==> color[v] == White
    {
      this.g := g;
      color := map v | v in g :: White;
      path, finished := [], [];
    }

    /** Nothing explored before is forgotten, and the path is back where it was. */
    twostate predicate Progress()
      reads this
    {
      && Valid() && path == old(path)
      && Whites(color) <= old(Whites(color))
      && old(finished) <= finished
    }

    method Dfs(tid: Id) returns (cycle: Option<seq<Id>>)
      requires Valid() && tid in g && color[tid] == White
      requires path != [] ==> Edge(g, path[|path| - 1], tid)
      modifies this
      ensures cycle.Some? ==> IsCycle(g, cycle.value)
      ensures cycle.None? ==> Progress() && tid in finished
      decreases Whites(color)
    {
      hide IsWalk, DepsFirst;
      ghost var before := path;
      Enter(tid);
      for i := 0 to |g[tid]|
        invariant Valid() && path == before + [tid]
        invariant Whites(color) <= old(Whites(color)) - {tid}
        invariant old(finished) <= finished
        invariant forall k :: 0 <= k < i && g[tid][k] in g ==> g[tid][k] in finished
      {
        var dep := g[tid][i];
        if dep !in color { continue; }
        assert Edge(g, tid, dep);
        if color[dep] == Gray {
          cycle := Some(ReportCycle(dep));
          return;
        }
        if color[dep] == White {
          cycle := Dfs(dep);
          if cycle.Some? { return; }
        }
      }
      assert forall d :: Edge(g, tid, d) ==> d in finished;
      Finish(tid, before);
      cycle := None;
    }

    method Enter(tid: Id)
      requires Valid() && tid in g && color[tid] == White
      requires path != [] ==> Edge(g, path[|path| - 1], tid)
      modifies this`color, this`path
      ensures Valid() && path == old(path) + [tid] && Whites(color) == old(Whites(color)) - {tid}
    {
      WalkSnoc(g, path, tid);
      color := color[tid := Gray];
      path := path + [tid];
    }

    /** The part of the path from `dep` on, closed by `dep` again. */
    function ReportCycle(dep: Id): (c: seq<Id>)
      requires Valid() && dep in path && Edge(g, path[|path| - 1], dep)
      reads this
      ensures IsCycle(g, c)
    {
      var start := Find(path, dep, 0);
      WalkSlice(g, path, start, |path|);
      WalkSnoc(g, path[start..], dep);
      path[start..] + [dep]
    }

    method Finish(tid: Id, ghost before: seq<Id>)
      requires Valid() && tid in g && color[tid] == Gray && path == before + [tid] && tid !in before
      requires forall d :: Edge(g, tid, d) ==> d in finished
      modifies this
      ensures Valid() && path == before && color == old(color)[tid := Black] && finished == old(finished) + [tid]
    {
      WalkSlice(g, path, 0, |before|);
      path := path[..|path| - 1];
      assert path == before;
      color := color[tid := Black];
      finished := finished + [tid];
      forall i, d | 0 <= i < |finished| && Edge(g, finished[i], d) ensures d in finished[..i] {
        assert finished[..i] == old(finished)[..i];
      }
    }

    /** Reports a cycle exactly when there is one, and what it reports is one. */
    method DetectCycles(keys: seq<Id>) returns (cycle: Option<seq<Id>>)
      requires Valid() && path == [] && finished == [] && Lists(keys, g)
      modifies this
      ensures cycle.Some? <==> !Acyclic(g)
      ensures cycle.Some? ==> IsCycle(g, cycle.value)
    {
      hide IsWalk, DepsFirst;
      for i := 0 to |keys|
        invariant Valid() && path == []
        invariant forall k :: 0 <= k < i ==> keys[k] in finished
      {
        assert keys[i] in keys;
        if color[keys[i]] == White {
          cycle := Dfs(keys[i]);
          if cycle.Some? { return; }
        }
      }
      OrderedIsAcyclic(g, finished);
      cycle := None;
    }
  }
}
