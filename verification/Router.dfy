/**
 The URL router: a trie of path segments with static, parameter and wildcard children, shared by HTTP
 routes and WebSocket routes. The trie search is proved equal to a linear scan of the registrations.
 */
module Router {
  import opened Common

  datatype Method = GET | POST | PUT | DELETE | PATCH | HEAD | OPTIONS | ANY

  /** A handler cell of a trie node: one per HTTP method, and one for WebSocket. */
  datatype Slot = Http(verb: Method) | WebSocket

  /** Handlers are told apart by number; `None` in a registration is an empty function object. */
  type Handler = nat

  type Cells = map<Slot, Handler>

  datatype Node = Node(cells: Cells, children: seq<Child>, param: Option<Named>, wildcard: Option<Leaf>)
  datatype Child = Child(segment: string, node: Node)
  datatype Named = Named(name: string, node: Node)
  datatype Leaf = Leaf(name: string, cells: Cells)

  const EMPTY := Node(map[], [], None, None)

  function SetCell(cells: Cells, slot: Slot, handler: Option<Handler>): Cells {
    if handler.None? then cells - {slot} else cells[slot := handler.value]
  }

  /** A lookup for a method falls back to the handler for any method. */
  function Pick(cells: Cells, want: Slot): Option<Handler> {
    if want in cells then Some(cells[want])
    else if want.Http? && Http(ANY) in cells then Some(cells[Http(ANY)])
    else None
  }

  // ---------------------------------------------------------------- paths

  function Head(r: string): string { r[..Find(r, '/', 0)] }

  function Tail(r: string): (t: string)
    ensures r != "" ==> |t| < |r|
  {
    var slash := Find(r, '/', 0);
    if slash == |r| then "" else r[slash + 1..]
  }

  predicate IsWildcard(segment: string) { segment != "" && segment[0] == '*' }

  predicate IsParameter(segment: string) { segment != "" && segment[0] == ':' }

  // ---------------------------------------------------------------- insertion

  /** The first child holding `segment`, or `|children|`. */
  function ChildIndex(children: seq<Child>, segment: string, from: nat := 0): (k: nat)
    requires from <= |children|
    ensures from <= k <= |children|
    ensures forall i :: from <= i < k ==> children[i].segment != segment
    ensures k < |children| ==> children[k].segment == segment
    decreases |children| - from
  {
    if from == |children| || children[from].segment == segment then from
    else ChildIndex(children, segment, from + 1)
  }

  function ParamNode(node: Node): Node { if node.param.Some? then node.param.value.node else EMPTY }

  function StaticNode(node: Node, segment: string): Node {
    var k := ChildIndex(node.children, segment);
    if k < |node.children| then node.children[k].node else EMPTY
  }

  function PutStatic(node: Node, segment: string, child: Node): Node {
    var k := ChildIndex(node.children, segment);
    if k < |node.children| then node.(children := node.children[k := Child(segment, child)])
    else node.(children := node.children + [Child(segment, child)])
  }

  /** Names belong to whoever creates the child: later patterns do not rename it. */
  function PutParam(node: Node, name: string, child: Node): Node {
    node.(param := Some(Named(if node.param.Some? then node.param.value.name else name, child)))
  }

  function WildcardCells(node: Node): Cells { if node.wildcard.Some? then node.wildcard.value.cells else map[] }

  function PutWildcard(node: Node, name: string, cells: Cells): Node {
    node.(wildcard := Some(Leaf(if node.wildcard.Some? then node.wildcard.value.name else name, cells)))
  }

  function Insert(node: Node, r: string, slot: Slot, handler: Option<Handler>): (n: Node)
    decreases |r|
  {
    if r == "" then node.(cells := SetCell(node.cells, slot, handler))
    else
      var segment := Head(r);
      if IsWildcard(segment) then
        PutWildcard(node, segment[1..], SetCell(WildcardCells(node), slot, handler))
      else if IsParameter(segment) then
        PutParam(node, segment[1..], Insert(ParamNode(node), Tail(r), slot, handler))
      else
        PutStatic(node, segment, Insert(StaticNode(node, segment), Tail(r), slot, handler))
  }

  // ---------------------------------------------------------------- search

  datatype Found = Found(handler: Option<Handler>, params: map<string, string>)

  /**
   The two lookups of the original in one: they differ in what a failed branch leaves behind. An HTTP
   lookup keeps the parameters it set there; a WebSocket lookup removes a parameter that led nowhere and
   binds a wildcard only when there is a handler.
   */
  function Search(node: Node, r: string, want: Slot, params: map<string, string>): Found
    decreases |r|, |node.children| + 1
  {
    if r == "" then Found(Pick(node.cells, want), params)
    else
      var s := SearchStatic(node.children, 0, r, want, params);
      if s.handler.Some? then s
      else
        var p := SearchParam(node.param, r, want, s.params);
        if p.handler.Some? || node.wildcard.None? then p
        else SearchWildcard(node.wildcard.value, r, want, p.params)
  }

  function SearchStatic(children: seq<Child>, i: nat, r: string, want: Slot, params: map<string, string>): Found
    requires r != "" && i <= |children|
    decreases |r|, |children| - i
  {
    if i == |children| then Found(None, params)
    else if children[i].segment == Head(r) then
      var f := Search(children[i].node, Tail(r), want, params);
      if f.handler.Some? then f else SearchStatic(children, i + 1, r, want, f.params)
    else SearchStatic(children, i + 1, r, want, params)
  }

  function SearchParam(param: Option<Named>, r: string, want: Slot, params: map<string, string>): Found
    requires r != ""
    decreases |r|, 0
  {
    if param.None? then Found(None, params)
    else
      var f := Search(param.value.node, Tail(r), want, params[param.value.name := Head(r)]);
      if f.handler.None? && want.WebSocket? then Found(None, f.params - {param.value.name}) else f
  }

  function SearchWildcard(leaf: Leaf, r: string, want: Slot, params: map<string, string>): Found {
    var handler := Pick(leaf.cells, want);
    if handler.None? && want.WebSocket? then Found(None, params) else Found(handler, params[leaf.name := r])
  }

  // ---------------------------------------------------------------- route shapes

  /** A pattern without its names. Nothing follows a wildcard. */
  datatype Elem = Static(text: string) | Param | Wild

  type Shape = seq<Elem>

  function ShapeOf(r: string): Shape
    decreases |r|
  {
    if r == "" then []
    else if IsWildcard(Head(r)) then [Wild]
    else if IsParameter(Head(r)) then [Param] + ShapeOf(Tail(r))
    else [Static(Head(r))] + ShapeOf(Tail(r))
  }

  /** Segment by segment: a wildcard takes the whole non-empty remainder. */
  predicate Matches(shape: Shape, r: string)
    decreases |shape|
  {
    if shape == [] then r == ""
    else if r == "" then false
    else match shape[0]
      case Wild => |shape| == 1
      case Param => Matches(shape[1..], Tail(r))
      case Static(text) => text == Head(r) && Matches(shape[1..], Tail(r))
  }

  function Rank(e: Elem): nat { match e case Static(_) => 0 case Param => 1 case Wild => 2 }

  /** The leftmost difference decides: static, then parameter, then wildcard. */
  predicate Before(a: Shape, b: Shape)
    decreases |a|
  {
    a != [] && b != [] &&
    (Rank(a[0]) < Rank(b[0]) || (Rank(a[0]) == Rank(b[0]) && Before(a[1..], b[1..])))
  }

  /** Of two different shapes matching one path, exactly one comes first. */
  lemma {:induction false} BeforeIsTotal(a: Shape, b: Shape, r: string)
    requires Matches(a, r) && Matches(b, r)
    ensures a != b ==> Before(a, b) != Before(b, a)
    ensures a == b ==> !Before(a, b)
    decreases |a|
  {
    if a != [] && b != [] && Rank(a[0]) == Rank(b[0]) {
      assert a == [a[0]] + a[1..] && b == [b[0]] + b[1..];
      if !a[0].Wild? { BeforeIsTotal(a[1..], b[1..], Tail(r)); }
    }
  }

  // ---------------------------------------------------------------- the trie as a table of shapes

  /** The handler cells stored at a shape. */
  function Lookup(node: Node, shape: Shape): Cells
    decreases |shape|
  {
    if shape == [] then node.cells
    else match shape[0]
      case Wild => if |shape| == 1 then WildcardCells(node) else map[]
      case Param => Lookup(ParamNode(node), shape[1..])
      case Static(text) => Lookup(StaticNode(node, text), shape[1..])
  }

  /** Siblings have different segments, at every node. */
  ghost predicate WellFormed(node: Node) {
    && (forall i, j :: 0 <= i < j < |node.children| ==> node.children[i].segment != node.children[j].segment)
    && (forall i :: 0 <= i < |node.children| ==> WellFormed(node.children[i].node))
    && (node.param.Some? ==> WellFormed(node.param.value.node))
  }

  lemma EmptyLookup(shape: Shape)
    ensures Lookup(EMPTY, shape) == map[]
    decreases |shape|
  {
    if shape != [] && !(shape[0].Wild?) { EmptyLookup(shape[1..]); }
  }

  lemma PutStaticChildren(node: Node, segment: string, child: Node, other: string)
    ensures StaticNode(PutStatic(node, segment, child), other) == if other == segment then child
            else StaticNode(node, other)
  {
    var k := ChildIndex(node.children, segment);
    var put := PutStatic(node, segment, child).children;
    var j := ChildIndex(node.children, other);
    if other == segment { j := k; } else if j == |node.children| { j := |put|; }
    ChildIndexUnique(put, other, j);
  }

  lemma {:induction false} ChildIndexUnique(children: seq<Child>, segment: string, k: nat, from: nat := 0)
    requires from <= k <= |children|
    requires forall i :: from <= i < k ==> children[i].segment != segment
    requires k < |children| ==> children[k].segment == segment
    ensures ChildIndex(children, segment, from) == k
    decreases k - from
  {
    if from < k { ChildIndexUnique(children, segment, k, from + 1); }
  }

  /** Insertion changes the cells of its own shape, in one slot, and no other shape. */
  lemma {:induction false} InsertLookup(node: Node, r: string, slot: Slot, handler: Option<Handler>, shape: Shape)
    ensures Lookup(Insert(node, r, slot, handler), shape) ==
            if shape == ShapeOf(r) then SetCell(Lookup(node, shape), slot, handler) else Lookup(node, shape)
    decreases |r|
  {
    hide Head, Tail, SetCell, IsWildcard, IsParameter;
    if r != "" && shape != [] {
      assert shape == [shape[0]] + shape[1..];
      if IsWildcard(Head(r)) {
        assert |shape| == 1 ==> shape[1..] == [];
      } else if IsParameter(Head(r)) {
        InsertLookup(ParamNode(node), Tail(r), slot, handler, shape[1..]);
        assert ShapeOf(r)[1..] == ShapeOf(Tail(r));
      } else {
        InsertLookup(StaticNode(node, Head(r)), Tail(r), slot, handler, shape[1..]);
        InsertLookupStatic(node, r, slot, handler, shape);
      }
    }
  }

  lemma InsertLookupStatic(node: Node, r: string, slot: Slot, handler: Option<Handler>, shape: Shape)
    requires r != "" && shape != [] && !IsWildcard(Head(r)) && !IsParameter(Head(r))
    requires var below := StaticNode(node, Head(r));
             Lookup(Insert(below, Tail(r), slot, handler), shape[1..]) ==
             if shape[1..] == ShapeOf(Tail(r)) then SetCell(Lookup(below, shape[1..]), slot, handler)
             else Lookup(below, shape[1..])
    ensures Lookup(Insert(node, r, slot, handler), shape) ==
            if shape == ShapeOf(r) then SetCell(Lookup(node, shape), slot, handler) else Lookup(node, shape)
  {
    hide Head, Tail, SetCell, IsWildcard, IsParameter, StaticNode;
    assert shape == [shape[0]] + shape[1..];
    assert ShapeOf(r)[1..] == ShapeOf(Tail(r));
    var child := Insert(StaticNode(node, Head(r)), Tail(r), slot, handler);
    if shape[0].Static? { PutStaticChildren(node, Head(r), child, shape[0].text); }
  }

  lemma {:induction false} InsertWellFormed(node: Node, r: string, slot: Slot, handler: Option<Handler>)
    requires WellFormed(node)
    ensures WellFormed(Insert(node, r, slot, handler))
    decreases |r|
  {
    if r != "" && !IsWildcard(Head(r)) {
      assert WellFormed(EMPTY);
      if IsParameter(Head(r)) {
        InsertWellFormed(ParamNode(node), Tail(r), slot, handler);
      } else {
        InsertWellFormed(StaticNode(node, Head(r)), Tail(r), slot, handler);
      }
    }
  }

  // ---------------------------------------------------------------- what the search finds

  /** The shape whose handler a backtracking search settles on. */
  function Winner(node: Node, r: string, want: Slot): (w: Option<Shape>)
    decreases |r|
  {
    if r == "" then (if Pick(node.cells, want).Some? then Some([]) else None)
    else
      var viaStatic := Winner(StaticNode(node, Head(r)), Tail(r), want);
      if viaStatic.Some? then Some([Static(Head(r))] + viaStatic.value)
      else
        var viaParam := Winner(ParamNode(node), Tail(r), want);
        if viaParam.Some? then Some([Param] + viaParam.value)
        else if Pick(WildcardCells(node), want).Some? then Some([Wild])
        else None
  }

  function HandlerAt(node: Node, shape: Option<Shape>, want: Slot): Option<Handler> {
    if shape.None? then None else Pick(Lookup(node, shape.value), want)
  }

  lemma {:induction false} WinnerIsCandidate(node: Node, r: string, want: Slot)
    requires Winner(node, r, want).Some?
    ensures var w := Winner(node, r, want).value;
            Matches(w, r) && Pick(Lookup(node, w), want).Some?
    decreases |r|
  {
    if r != "" {
      var w := Winner(node, r, want).value;
      if w[0].Static? {
        WinnerIsCandidate(StaticNode(node, Head(r)), Tail(r), want);
        assert w[1..] == Winner(StaticNode(node, Head(r)), Tail(r), want).value;
      } else if w[0].Param? {
        WinnerIsCandidate(ParamNode(node), Tail(r), want);
        assert w[1..] == Winner(ParamNode(node), Tail(r), want).value;
      }
    }
  }

  /** Nothing that matches and has a handler comes before the winner. */
  lemma {:induction false} WinnerIsFirst(node: Node, r: string, want: Slot, shape: Shape)
    requires Matches(shape, r) && Pick(Lookup(node, shape), want).Some?
    ensures Winner(node, r, want).Some?
    ensures Winner(node, r, want).value == shape || Before(Winner(node, r, want).value, shape)
    decreases |r|
  {
    if r != "" {
      assert shape == [shape[0]] + shape[1..];
      match shape[0]
      case Static(_) =>
        WinnerIsFirst(StaticNode(node, Head(r)), Tail(r), want, shape[1..]);
        assert Winner(node, r, want).value[1..] == Winner(StaticNode(node, Head(r)), Tail(r), want).value;
      case Param =>
        WinnerIsFirst(ParamNode(node), Tail(r), want, shape[1..]);
        assert Winner(node, r, want).value[0].Param? ==>
            Winner(node, r, want).value[1..] == Winner(ParamNode(node), Tail(r), want).value;
      case Wild =>
        assert shape[1..] == [];
    }
  }

  lemma EmptyHasNoWinner(r: string, want: Slot)
    ensures Winner(EMPTY, r, want).None?
    decreases |r|
  {
    if r != "" { EmptyHasNoWinner(Tail(r), want); }
  }

  /** Both lookups return the winner's handler, whatever parameters they have collected. */
  lemma {:induction false} SearchFindsWinner(node: Node, r: string, want: Slot, params: map<string, string>)
    requires WellFormed(node)
    ensures Search(node, r, want, params).handler == HandlerAt(node, Winner(node, r, want), want)
    decreases |r|, |node.children| + 1
  {
    if r != "" {
      hide Search, SearchStatic, SearchParam, Winner, Head, Tail, Lookup, Matches, ChildIndex;
      StaticSearchFinds(node, 0, r, want, params);
      EmptyHasNoWinner(Tail(r), want);
      WinnerTail(node, r, want);
      var s := SearchStatic(node.children, 0, r, want, params);
      SearchUnfolded(node, r, want, params);
      if node.param.Some? {
        var bound := s.params[node.param.value.name := Head(r)];
        SearchFindsWinner(node.param.value.node, Tail(r), want, bound);
      }
    }
  }

  lemma WinnerTail(node: Node, r: string, want: Slot)
    requires r != ""
    ensures var viaStatic := Winner(StaticNode(node, Head(r)), Tail(r), want);
            var viaParam := Winner(ParamNode(node), Tail(r), want);
            && HandlerAt(StaticNode(node, Head(r)), viaStatic, want).Some? == viaStatic.Some?
            && HandlerAt(ParamNode(node), viaParam, want).Some? == viaParam.Some?
            && HandlerAt(node, Winner(node, r, want), want) ==
               if viaStatic.Some? then HandlerAt(StaticNode(node, Head(r)), viaStatic, want)
               else if viaParam.Some? then HandlerAt(ParamNode(node), viaParam, want)
               else Pick(WildcardCells(node), want)
  {
    var viaStatic := Winner(StaticNode(node, Head(r)), Tail(r), want);
    var viaParam := Winner(ParamNode(node), Tail(r), want);
    if viaStatic.Some? {
      WinnerIsCandidate(StaticNode(node, Head(r)), Tail(r), want);
      assert Winner(node, r, want).value[1..] == viaStatic.value;
    }
    if viaParam.Some? {
      WinnerIsCandidate(ParamNode(node), Tail(r), want);
      if viaStatic.None? { assert Winner(node, r, want).value[1..] == viaParam.value; }
    }
  }

  lemma {:induction false} StaticSearchFinds(node: Node, i: nat, r: string, want: Slot, params: map<string, string>)
    requires r != "" && i <= |node.children| && WellFormed(node)
    ensures var k := ChildIndex(node.children, Head(r), i);
            SearchStatic(node.children, i, r, want, params).handler ==
            if k == |node.children| then None
            else HandlerAt(node.children[k].node, Winner(node.children[k].node, Tail(r), want), want)
    decreases |r|, |node.children| - i
  {
    hide Search, Winner, Head, Tail, Lookup, Matches, Pick, HandlerAt;
    if i < |node.children| {
      var child := node.children[i];
      if child.segment == Head(r) {
        SearchFindsWinner(child.node, Tail(r), want, params);
        ChildIndexUnique(node.children, Head(r), |node.children|, i + 1);
        StaticSearchFinds(node, i + 1, r, want, Search(child.node, Tail(r), want, params).params);
      } else {
        StaticSearchFinds(node, i + 1, r, want, params);
      }
    }
  }

  // ---------------------------------------------------------------- the registrations, scanned

  /** A registration; the pattern is given without its leading slash. */
  datatype Route = Route(pattern: string, slot: Slot, handler: Option<Handler>)

  function Build(routes: seq<Route>): Node {
    if routes == [] then EMPTY
    else
      var last := routes[|routes| - 1];
      Insert(Build(routes[..|routes| - 1]), last.pattern, last.slot, last.handler)
  }

  /** What was registered last for this shape and this slot. */
  function LastFor(routes: seq<Route>, shape: Shape, slot: Slot): Option<Handler> {
    if routes == [] then None
    else
      var last := routes[|routes| - 1];
      if ShapeOf(last.pattern) == shape && last.slot == slot then last.handler
      else LastFor(routes[..|routes| - 1], shape, slot)
  }

  function Effective(routes: seq<Route>, shape: Shape, want: Slot): Option<Handler> {
    if LastFor(routes, shape, want).Some? then LastFor(routes, shape, want)
    else if want.Http? then LastFor(routes, shape, Http(ANY))
    else None
  }

  predicate Candidate(routes: seq<Route>, shape: Shape, r: string, want: Slot) {
    Matches(shape, r) && Effective(routes, shape, want).Some?
  }

  /** The reference: walk the first `n` registrations and keep the candidate that comes first. */
  function Scan(routes: seq<Route>, n: nat, r: string, want: Slot): Option<Shape>
    requires n <= |routes|
  {
    if n == 0 then None
    else
      var best := Scan(routes, n - 1, r, want);
      var shape := ShapeOf(routes[n - 1].pattern);
      if Candidate(routes, shape, r, want) && (best.None? || Before(shape, best.value)) then Some(shape) else best
  }

  function Scanned(routes: seq<Route>, r: string, want: Slot): Option<Handler> {
    var best := Scan(routes, |routes|, r, want);
    if best.None? then None else Effective(routes, best.value, want)
  }

  function CellAt(cells: Cells, slot: Slot): Option<Handler> {
    if slot in cells then Some(cells[slot]) else None
  }

  lemma {:induction false} BuildLookup(routes: seq<Route>, shape: Shape, slot: Slot)
    ensures CellAt(Lookup(Build(routes), shape), slot) == LastFor(routes, shape, slot)
  {
    hide Lookup, Insert, ShapeOf;
    if routes == [] {
      EmptyLookup(shape);
    } else {
      var front, last := routes[..|routes| - 1], routes[|routes| - 1];
      BuildLookup(front, shape, slot);
      InsertLookup(Build(front), last.pattern, last.slot, last.handler, shape);
    }
  }

  lemma BuildEffective(routes: seq<Route>, shape: Shape, want: Slot)
    ensures Pick(Lookup(Build(routes), shape), want) == Effective(routes, shape, want)
  {
    hide Lookup, Build, LastFor;
    BuildLookup(routes, shape, want);
    BuildLookup(routes, shape, Http(ANY));
  }

  lemma {:induction false} BuildWellFormed(routes: seq<Route>)
    ensures WellFormed(Build(routes))
  {
    if routes != [] {
      var front, last := routes[..|routes| - 1], routes[|routes| - 1];
      BuildWellFormed(front);
      InsertWellFormed(Build(front), last.pattern, last.slot, last.handler);
    }
  }

  lemma {:induction false} BeforeTransitive(a: Shape, b: Shape, c: Shape)
    requires Before(a, b) && Before(b, c)
    ensures Before(a, c)
    decreases |a|
  {
    if Rank(a[0]) == Rank(b[0]) && Rank(b[0]) == Rank(c[0]) { BeforeTransitive(a[1..], b[1..], c[1..]); }
  }

  lemma {:induction false} ScanIsCandidate(routes: seq<Route>, n: nat, r: string, want: Slot)
    requires n <= |routes| && Scan(routes, n, r, want).Some?
    ensures Candidate(routes, Scan(routes, n, r, want).value, r, want)
  {
    if n > 0 && Scan(routes, n - 1, r, want).Some? { ScanIsCandidate(routes, n - 1, r, want); }
  }

  lemma {:induction false} ScanIsFirst(routes: seq<Route>, n: nat, r: string, want: Slot, i: nat)
    requires i < n <= |routes| && Candidate(routes, ShapeOf(routes[i].pattern), r, want)
    ensures Scan(routes, n, r, want).Some?
    ensures var best := Scan(routes, n, r, want).value;
            best == ShapeOf(routes[i].pattern) || Before(best, ShapeOf(routes[i].pattern))
    decreases n
  {
    hide ShapeOf, Effective;
    var shape := ShapeOf(routes[i].pattern);
    var best := Scan(routes, n - 1, r, want);
    if i < n - 1 {
      ScanIsFirst(routes, n - 1, r, want, i);
      var newest := ShapeOf(routes[n - 1].pattern);
      if best.value != shape && Candidate(routes, newest, r, want) && Before(newest, best.value) {
        BeforeTransitive(newest, best.value, shape);
      }
    } else if best.Some? {
      ScanIsCandidate(routes, n - 1, r, want);
      BeforeIsTotal(shape, best.value, r);
    }
  }

  lemma {:induction false} CandidateIsRegistered(routes: seq<Route>, shape: Shape, slot: Slot)
    requires LastFor(routes, shape, slot).Some?
    ensures exists i :: 0 <= i < |routes| && ShapeOf(routes[i].pattern) == shape
  {
    var n := |routes| - 1;
    if ShapeOf(routes[n].pattern) != shape || routes[n].slot != slot {
      CandidateIsRegistered(routes[..n], shape, slot);
      var i :| 0 <= i < n && ShapeOf(routes[..n][i].pattern) == shape;
      assert routes[i] == routes[..n][i];
    }
  }

  lemma WinnerIsScan(routes: seq<Route>, r: string, want: Slot)
    ensures Winner(Build(routes), r, want) == Scan(routes, |routes|, r, want)
  {
    hide Winner, Lookup, Build, Scan, Matches, ShapeOf, LastFor;
    var root := Build(routes);
    var w, best := Winner(root, r, want), Scan(routes, |routes|, r, want);
    if w.Some? {
      WinnerIsCandidate(root, r, want);
      BuildEffective(routes, w.value, want);
      ScanReaches(routes, r, want, w.value);
    }
    if best.Some? {
      ScanIsCandidate(routes, |routes|, r, want);
      BuildEffective(routes, best.value, want);
      WinnerIsFirst(root, r, want, best.value);
      BeforeIsTotal(w.value, best.value, r);
    }
  }

  /** For every list of registrations and every path, the trie search is the linear scan. */
  lemma TrieIsScan(routes: seq<Route>, r: string, want: Slot, params: map<string, string>)
    ensures Search(Build(routes), r, want, params).handler == Scanned(routes, r, want)
  {
    hide Search, Winner, Lookup, Build, Scan, LastFor, Effective;
    BuildWellFormed(routes);
    SearchFindsWinner(Build(routes), r, want, params);
    WinnerIsScan(routes, r, want);
    var best := Scan(routes, |routes|, r, want);
    if best.Some? { BuildEffective(routes, best.value, want); }
  }

  lemma ScanReaches(routes: seq<Route>, r: string, want: Slot, shape: Shape)
    requires Candidate(routes, shape, r, want)
    ensures var best := Scan(routes, |routes|, r, want);
            best.Some? && (best.value == shape || Before(best.value, shape))
  {
    CandidateIsRegistered(routes, shape, if LastFor(routes, shape, want).Some? then want else Http(ANY));
    var i :| 0 <= i < |routes| && ShapeOf(routes[i].pattern) == shape;
    ScanIsFirst(routes, |routes|, r, want, i);
  }

  /** A lookup succeeds exactly when a registered pattern with a handler for it matches. */
  lemma FoundExactlyWhenMatched(routes: seq<Route>, r: string, want: Slot)
    ensures Search(Build(routes), r, want, map[]).handler.Some? <==>
            exists i :: 0 <= i < |routes| && Candidate(routes, ShapeOf(routes[i].pattern), r, want)
  {
    TrieIsScan(routes, r, want, map[]);
    var best := Scan(routes, |routes|, r, want);
    if best.Some? {
      ScanIsCandidate(routes, |routes|, r, want);
      var slot := if LastFor(routes, best.value, want).Some? then want else Http(ANY);
      CandidateIsRegistered(routes, best.value, slot);
    }
    if i :| 0 <= i < |routes| && Candidate(routes, ShapeOf(routes[i].pattern), r, want) {
      ScanIsFirst(routes, |routes|, r, want, i);
      ScanIsCandidate(routes, |routes|, r, want);
    }
  }

  // ---------------------------------------------------------------- parameters

  /** The bindings a shape stands for: parameter names and the wildcard name, as the trie holds them. */
  function Bindings(node: Node, shape: Shape, r: string): map<string, string>
    decreases |shape|
  {
    if shape == [] then map[]
    else match shape[0]
      case Wild => if node.wildcard.Some? then map[node.wildcard.value.name := r] else map[]
      case Param =>
        if node.param.Some?
        then map[node.param.value.name := Head(r)] + Bindings(node.param.value.node, shape[1..], Tail(r))
        else map[]
      case Static(text) => Bindings(StaticNode(node, text), shape[1..], Tail(r))
  }

  /** No name occurs twice on a way down from `node`, nor is one of `used`. */
  ghost predicate Separate(node: Node, used: set<string>) {
    && (forall i :: 0 <= i < |node.children| ==> Separate(node.children[i].node, used))
    && (node.param.Some? ==>
          node.param.value.name !in used && Separate(node.param.value.node, used + {node.param.value.name}))
    && (node.wildcard.Some? ==> node.wildcard.value.name !in used)
  }

  function Bound(params: map<string, string>, node: Node, shape: Option<Shape>, r: string): map<string, string> {
    if shape.None? then params else params + Bindings(node, shape.value, r)
  }

  /** Siblings differ, so the loop over children is a search of the one that fits. */
  lemma {:induction false} StaticIsChild(node: Node, i: nat, r: string, want: Slot, params: map<string, string>)
    requires r != "" && i <= |node.children| && WellFormed(node)
    ensures var k := ChildIndex(node.children, Head(r), i);
            SearchStatic(node.children, i, r, want, params) ==
            if k == |node.children| then Found(None, params) else Search(node.children[k].node, Tail(r), want, params)
    decreases |node.children| - i
  {
    hide Search, Head, Tail;
    if i < |node.children| {
      if node.children[i].segment == Head(r) {
        var f := Search(node.children[i].node, Tail(r), want, params);
        ChildIndexUnique(node.children, Head(r), |node.children|, i + 1);
        StaticIsChild(node, i + 1, r, want, f.params);
      } else {
        StaticIsChild(node, i + 1, r, want, params);
      }
    }
  }

  lemma EmptySearch(r: string, want: Slot, params: map<string, string>)
    ensures Search(EMPTY, r, want, params) == Found(None, params)
  {
    if r != "" { assert SearchStatic([], 0, r, want, params) == Found(None, params); }
  }

  /** The search with the loop over children resolved. */
  lemma SearchByBranch(node: Node, r: string, want: Slot, params: map<string, string>)
    requires r != "" && WellFormed(node)
    ensures var s := Search(StaticNode(node, Head(r)), Tail(r), want, params);
            var p := SearchParam(node.param, r, want, s.params);
            Search(node, r, want, params) ==
            if s.handler.Some? then s
            else if p.handler.Some? || node.wildcard.None? then p
            else SearchWildcard(node.wildcard.value, r, want, p.params)
  {
    hide Head, Tail;
    StaticIsChild(node, 0, r, want, params);
    EmptySearch(Tail(r), want, params);
  }

  /** What each branch finds. */
  lemma BranchHandlers(node: Node, r: string, want: Slot, params: map<string, string>)
    requires WellFormed(node)
    ensures Search(node, r, want, params).handler.Some? == Winner(node, r, want).Some?
  {
    hide Search, Winner, Lookup, Matches, Pick;
    SearchFindsWinner(node, r, want, params);
    if Winner(node, r, want).Some? { WinnerIsCandidate(node, r, want); }
  }

  // ---------------------------------------------------------------- what failed branches leave behind

  /** Everything a failing HTTP search sets: it enters every child that fits, and sets a wildcard before asking it. */
  function Debris(node: Node, r: string): map<string, string>
    decreases |r|, 1
  {
    if r == "" then map[]
    else
      Debris(StaticNode(node, Head(r)), Tail(r)) + ParamDebris(node, r) +
      if node.wildcard.Some? then map[node.wildcard.value.name := r] else map[]
  }

  function ParamDebris(node: Node, r: string): map<string, string>
    requires r != ""
    decreases |r|, 0
  {
    if node.param.None? then map[]
    else map[node.param.value.name := Head(r)] + Debris(node.param.value.node, Tail(r))
  }

  predicate WildcardServes(node: Node, want: Slot) {
    node.wildcard.Some? && Pick(node.wildcard.value.cells, want).Some?
  }

  /** What failed branches of an HTTP search set and the winner does not set again afterwards. */
  function Stale(node: Node, r: string, want: Slot): map<string, string>
    decreases |r|
  {
    if r == "" then map[]
    else
      var child, below := StaticNode(node, Head(r)), Winner(ParamNode(node), Tail(r), want);
      if Winner(child, Tail(r), want).Some? then Stale(child, Tail(r), want)
      else if below.Some? && node.param.Some? then
        (Debris(child, Tail(r)) - Rebound(node, below.value, r)) + Stale(ParamNode(node), Tail(r), want)
      else if WildcardServes(node, want) then
        (Debris(child, Tail(r)) + ParamDebris(node, r)) - {node.wildcard.value.name}
      else Debris(node, r)
  }

  /** The names bound from a parameter child on. */
  function Rebound(node: Node, below: Shape, r: string): set<string>
    requires node.param.Some?
  {
    {node.param.value.name} + Bindings(node.param.value.node, below, Tail(r)).Keys
  }

  /** The parameters a failing WebSocket search enters, and removes again. */
  function Vain(node: Node, r: string): set<string>
    decreases |r|, 1
  {
    if r == "" then {} else Vain(StaticNode(node, Head(r)), Tail(r)) + ParamVain(node, r)
  }

  function ParamVain(node: Node, r: string): set<string>
    requires r != ""
    decreases |r|, 0
  {
    if node.param.None? then {} else {node.param.value.name} + Vain(node.param.value.node, Tail(r))
  }

  /** The parameters a WebSocket search removes and the winner does not bind again afterwards. */
  function Lost(node: Node, r: string): set<string>
    decreases |r|
  {
    if r == "" then {}
    else
      var child, below := StaticNode(node, Head(r)), Winner(ParamNode(node), Tail(r), WebSocket);
      if Winner(child, Tail(r), WebSocket).Some? then Lost(child, Tail(r))
      else if below.Some? && node.param.Some? then
        (Vain(child, Tail(r)) - Rebound(node, below.value, r)) + Lost(ParamNode(node), Tail(r))
      else if WildcardServes(node, WebSocket) then
        (Vain(child, Tail(r)) + ParamVain(node, r)) - {node.wildcard.value.name}
      else Vain(node, r)
  }

  lemma {:induction false} FailingStale(node: Node, r: string, want: Slot)
    requires Winner(node, r, want).None?
    ensures Stale(node, r, want) == Debris(node, r)
    ensures want.WebSocket? ==> Lost(node, r) == Vain(node, r)
  {
  }

  lemma ParamBindings(node: Node, below: Shape, r: string)
    requires node.param.Some?
    ensures Bindings(node, [Param] + below, r) ==
            map[node.param.value.name := Head(r)] + Bindings(node.param.value.node, below, Tail(r))
  {
    assert ([Param] + below)[1..] == below;
  }

  lemma SearchUnfolded(node: Node, r: string, want: Slot, params: map<string, string>)
    requires r != ""
    ensures var s := SearchStatic(node.children, 0, r, want, params);
            var p := SearchParam(node.param, r, want, s.params);
            Search(node, r, want, params) ==
            if s.handler.Some? then s
            else if p.handler.Some? || node.wildcard.None? then p
            else SearchWildcard(node.wildcard.value, r, want, p.params)
    ensures var s := SearchStatic(node.children, 0, r, want, params);
            var p := SearchParam(node.param, r, want, s.params);
            if node.param.None? then p == Found(None, s.params)
            else p.handler == Search(node.param.value.node, Tail(r), want,
                s.params[node.param.value.name := Head(r)]).handler
  {
  }

  lemma WinnerValue(node: Node, r: string, want: Slot)
    requires r != ""
    ensures var viaStatic := Winner(StaticNode(node, Head(r)), Tail(r), want);
            var viaParam := Winner(ParamNode(node), Tail(r), want);
            Winner(node, r, want) ==
            if viaStatic.Some? then Some([Static(Head(r))] + viaStatic.value)
            else if viaParam.Some? then Some([Param] + viaParam.value)
            else if Pick(WildcardCells(node), want).Some? then Some([Wild])
            else None
  {
  }

  lemma BindingsUnfolded(node: Node, r: string, want: Slot)
    requires r != ""
    ensures var viaStatic := Winner(StaticNode(node, Head(r)), Tail(r), want);
            viaStatic.Some? ==>
              Bindings(node, [Static(Head(r))] + viaStatic.value, r) ==
              Bindings(StaticNode(node, Head(r)), viaStatic.value, Tail(r))
    ensures node.wildcard.Some? ==> Bindings(node, [Wild], r) == map[node.wildcard.value.name := r]
  {
    var viaStatic := Winner(StaticNode(node, Head(r)), Tail(r), want);
    if viaStatic.Some? { assert ([Static(Head(r))] + viaStatic.value)[1..] == viaStatic.value; }
  }

  /** Which branch wins, and what its shape binds. */
  lemma WinnerCases(node: Node, r: string, want: Slot)
    requires r != ""
    ensures var child, below := StaticNode(node, Head(r)), Winner(ParamNode(node), Tail(r), want);
            var w, viaStatic := Winner(node, r, want), Winner(child, Tail(r), want);
            if viaStatic.Some? then w.Some? && Bindings(node, w.value, r) == Bindings(child, viaStatic.value, Tail(r))
            else if below.Some? then
              w.Some? && node.param.Some? && Bindings(node, w.value, r).Keys == Rebound(node, below.value, r)
              && Bindings(node, w.value, r) ==
                 map[node.param.value.name := Head(r)] + Bindings(ParamNode(node), below.value, Tail(r))
            else if WildcardServes(node, want) then w.Some?
                && Bindings(node, w.value, r) == map[node.wildcard.value.name := r]
            else w.None?
  {
    hide Head, Tail, Winner, Bindings;
    WinnerValue(node, r, want);
    BindingsUnfolded(node, r, want);
    EmptyHasNoWinner(Tail(r), want);
    var below := Winner(ParamNode(node), Tail(r), want);
    if below.Some? { ParamBindings(node, below.value, r); }
  }

  /**
   Exactly what an HTTP search returns, whatever the names in the trie: the winner's bindings, overlaid with what
   failed branches set after them or beside them.
   */
  lemma {:induction false} HttpParams(node: Node, r: string, want: Slot, params: map<string, string>)
    requires WellFormed(node) && want.Http?
    ensures Search(node, r, want, params).params == Bound(params, node, Winner(node, r, want), r) + Stale(node, r, want)
    decreases |r|
  {
    if r == "" {
      assert params + map[] == params;
    } else {
      HttpParamsStep(node, r, want, params);
    }
  }

  /** The parameter branch of an HTTP search. */
  lemma {:induction false} HttpParamBranch(node: Node, r: string, want: Slot, params: map<string, string>)
    requires r != "" && WellFormed(node) && want.Http?
    ensures var below, p := Winner(ParamNode(node), Tail(r), want), SearchParam(node.param, r, want, params);
            && p.handler.Some? == below.Some?
            && (below.None? ==> p.params == params + ParamDebris(node, r))
            && (below.Some? ==> node.param.Some?)
            && (below.Some? ==>
                  p.params == params + (map[node.param.value.name := Head(r)]
                      + Bindings(ParamNode(node), below.value, Tail(r)))
                              + Stale(ParamNode(node), Tail(r), want))
    decreases |r|, 0
  {
    hide Head, Tail, Lookup, Matches, Search, Winner, Bindings, Pick, Stale, Debris, WellFormed;
    EmptyHasNoWinner(Tail(r), want);
    if node.param.Some? {
      var name, child := node.param.value.name, node.param.value.node;
      var bound := params[name := Head(r)];
      assert WellFormed(child) by { ChildrenWellFormed(node, r); }
      HttpParams(child, Tail(r), want, bound);
      BranchHandlers(child, Tail(r), want, bound);
      var below := Winner(child, Tail(r), want);
      if below.Some? {
        SetThenAdd(params, name, Head(r), Bindings(child, below.value, Tail(r)));
      } else {
        FailingStale(child, Tail(r), want);
        SetThenAdd(params, name, Head(r), Debris(child, Tail(r)));
      }
    }
  }

  lemma ChildrenWellFormed(node: Node, r: string)
    requires WellFormed(node)
    ensures WellFormed(StaticNode(node, Head(r))) && WellFormed(ParamNode(node))
  {
    assert WellFormed(EMPTY);
  }

  lemma SetThenAdd(params: map<string, string>, name: string, value: string, more: map<string, string>)
    ensures params[name := value] + more == params + (map[name := value] + more)
  {
  }

  /** A later binding makes an earlier leftover of the same name disappear. */
  lemma Overlay(params: map<string, string>, left: map<string, string>, bound: map<string, string>,
                more: map<string, string>)
    ensures params + left + bound + more == params + bound + ((left - bound.Keys) + more)
  {
  }

  lemma WildcardOverlay(params: map<string, string>, left: map<string, string>, name: string, value: string)
    ensures (params + left)[name := value] == params + (left + map[name := value])
    ensures (params + left)[name := value] == params + map[name := value] + (left - {name})
  {
  }

  lemma AddThenAdd(a: map<string, string>, b: map<string, string>, c: map<string, string>)
    ensures a + b + c == a + (b + c) && a + map[] == a
  {
  }

  lemma {:induction false} HttpParamsStep(node: Node, r: string, want: Slot, params: map<string, string>)
    requires r != "" && WellFormed(node) && want.Http?
    ensures Search(node, r, want, params).params == Bound(params, node, Winner(node, r, want), r) + Stale(node, r, want)
    decreases |r|, 1
  {
    hide Head, Tail, ChildIndex, Lookup, Matches, Search, Winner, Bindings, Pick, SearchParam, WellFormed, Debris,
         ParamDebris, StaticNode, ParamNode, Rebound, Stale;
    var child, below := StaticNode(node, Head(r)), Winner(ParamNode(node), Tail(r), want);
    ChildrenWellFormed(node, r);
    HttpParams(child, Tail(r), want, params);
    BranchHandlers(child, Tail(r), want, params);
    WinnerCases(node, r, want);
    SearchByBranch(node, r, want, params);
    StaleCases(node, r, want);
    if Winner(child, Tail(r), want).None? {
      var left, more := Debris(child, Tail(r)), ParamDebris(node, r);
      FailingStale(child, Tail(r), want);
      HttpParamBranch(node, r, want, params + left);
      if below.Some? {
        Overlay(params, left, Bindings(node, Winner(node, r, want).value, r), Stale(ParamNode(node), Tail(r), want));
      } else {
        AddThenAdd(params, left, more);
        if node.wildcard.Some? {
          WildcardOverlay(params, left + more, node.wildcard.value.name, r);
        }
      }
    }
  }

  lemma StaleCases(node: Node, r: string, want: Slot)
    requires r != ""
    ensures var child, below := StaticNode(node, Head(r)), Winner(ParamNode(node), Tail(r), want);
            var left, more := Debris(child, Tail(r)), ParamDebris(node, r);
            Stale(node, r, want) ==
            if Winner(child, Tail(r), want).Some? then Stale(child, Tail(r), want)
            else if below.Some? && node.param.Some? then
              (left - Rebound(node, below.value, r)) + Stale(ParamNode(node), Tail(r), want)
            else if WildcardServes(node, want) then (left + more) - {node.wildcard.value.name}
            else if node.wildcard.Some? then left + more + map[node.wildcard.value.name := r]
            else left + more
  {
    hide Head, Tail, Winner, Pick, ParamDebris, StaticNode, ParamNode, Rebound;
    AddThenAdd(Debris(StaticNode(node, Head(r)), Tail(r)) + ParamDebris(node, r), map[], map[]);
  }

  /** Exactly what a WebSocket search returns: the winner's bindings, without those removed again. */
  lemma {:induction false} WebSocketParams(node: Node, r: string, params: map<string, string>)
    requires WellFormed(node)
    ensures Search(node, r, WebSocket, params).params ==
            Bound(params, node, Winner(node, r, WebSocket), r) - Lost(node, r)
    decreases |r|
  {
    if r == "" {
      assert params + map[] == params;
    } else {
      WebSocketParamsStep(node, r, params);
    }
  }

  /** The parameter branch of a WebSocket search. */
  lemma {:induction false} WebSocketParamBranch(node: Node, r: string, params: map<string, string>)
    requires r != "" && WellFormed(node)
    ensures var below, p := Winner(ParamNode(node), Tail(r), WebSocket), SearchParam(node.param, r, WebSocket, params);
            && p.handler.Some? == below.Some?
            && (below.None? ==> p.params == params - ParamVain(node, r))
            && (below.Some? ==> node.param.Some?)
            && (below.Some? ==>
                  p.params == params + (map[node.param.value.name := Head(r)]
                      + Bindings(ParamNode(node), below.value, Tail(r)))
                              - Lost(ParamNode(node), Tail(r)))
    decreases |r|, 0
  {
    hide Head, Tail, Lookup, Matches, Search, Winner, Bindings, Pick, Lost, Vain, WellFormed;
    EmptyHasNoWinner(Tail(r), WebSocket);
    if node.param.Some? {
      var name, child := node.param.value.name, node.param.value.node;
      var bound := params[name := Head(r)];
      assert WellFormed(child) by { ChildrenWellFormed(node, r); }
      WebSocketParams(child, Tail(r), bound);
      BranchHandlers(child, Tail(r), WebSocket, bound);
      var below := Winner(child, Tail(r), WebSocket);
      if below.Some? {
        SetThenAdd(params, name, Head(r), Bindings(child, below.value, Tail(r)));
      } else {
        FailingStale(child, Tail(r), WebSocket);
        assert bound - Vain(child, Tail(r)) - {name} == params - ParamVain(node, r);
      }
    }
  }

  lemma {:induction false} WebSocketParamsStep(node: Node, r: string, params: map<string, string>)
    requires r != "" && WellFormed(node)
    ensures Search(node, r, WebSocket, params).params ==
            Bound(params, node, Winner(node, r, WebSocket), r) - Lost(node, r)
    decreases |r|, 1
  {
    hide Head, Tail, ChildIndex, Lookup, Matches, Search, Winner, Bindings, Pick, SearchParam, WellFormed, ParamVain,
         StaticNode, ParamNode, Rebound;
    var child, below := StaticNode(node, Head(r)), Winner(ParamNode(node), Tail(r), WebSocket);
    ChildrenWellFormed(node, r);
    WebSocketParams(child, Tail(r), params);
    BranchHandlers(child, Tail(r), WebSocket, params);
    WinnerCases(node, r, WebSocket);
    SearchByBranch(node, r, WebSocket, params);
    if Winner(child, Tail(r), WebSocket).None? {
      var gone, more := Vain(child, Tail(r)), ParamVain(node, r);
      FailingStale(child, Tail(r), WebSocket);
      WebSocketParamBranch(node, r, params - gone);
      if below.Some? {
        Withdrawn(params, gone, Bindings(node, Winner(node, r, WebSocket).value, r), Lost(ParamNode(node), Tail(r)));
      } else {
        assert params - gone - more == params - (gone + more);
        if WildcardServes(node, WebSocket) {
          var bound := map[node.wildcard.value.name := r];
          Withdrawn(params, gone + more, bound, {});
          assert (params - (gone + more) + bound) - {} == (params - (gone + more))[node.wildcard.value.name := r];
          assert ((gone + more) - bound.Keys) + {} == (gone + more) - {node.wildcard.value.name};
        }
      }
    }
  }

  /** A later binding restores a name removed earlier. */
  lemma Withdrawn(params: map<string, string>, gone: set<string>, bound: map<string, string>, lost: set<string>)
    ensures (params - gone + bound) - lost == (params + bound) - ((gone - bound.Keys) + lost)
  {
  }

  /** A WebSocket lookup is exact if and only if no name of the winner is removed after the winner bound it. */
  lemma WebSocketExactness(node: Node, r: string, shape: Shape)
    requires WellFormed(node) && Winner(node, r, WebSocket) == Some(shape)
    ensures Search(node, r, WebSocket, map[]).params == Bindings(node, shape, r) <==>
            Lost(node, r) !! Bindings(node, shape, r).Keys
  {
    hide Search, Winner, Lost, Bindings;
    WebSocketParams(node, r, map[]);
    var none: map<string, string> := map[];
    var b := Bindings(node, shape, r);
    assert none + b == b;
    if Lost(node, r) !! b.Keys { assert b - Lost(node, r) == b; }
    if n :| n in Lost(node, r) && n in b { assert n !in b - Lost(node, r); }
  }

  /**
   An HTTP lookup is exact if and only if failed branches left nothing but what the winner binds, to the same values.
   */
  lemma HttpExactness(node: Node, r: string, want: Slot, shape: Shape)
    requires WellFormed(node) && want.Http? && Winner(node, r, want) == Some(shape)
    ensures var b := Bindings(node, shape, r);
            Search(node, r, want, map[]).params == b <==>
            forall n :: n in Stale(node, r, want) ==> n in b && b[n] == Stale(node, r, want)[n]
  {
    hide Search, Winner, Stale, Bindings;
    HttpParams(node, r, want, map[]);
    var none: map<string, string> := map[];
    var b, stale := Bindings(node, shape, r), Stale(node, r, want);
    assert none + b == b;
    if b + stale == b {
      forall n | n in stale ensures n in b && b[n] == stale[n] { assert n in b + stale && (b + stale)[n] == stale[n]; }
    }
    if forall n :: n in stale ==> n in b && b[n] == stale[n] { assert b + stale == b; }
  }

  // ---------------------------------------------------------------- tries whose names do not repeat on a way down

  /** The names of parameter and wildcard children entered on failed branches of an HTTP search. */
  function Left(node: Node, r: string, want: Slot): set<string>
    decreases |r|
  {
    if r == "" then {}
    else
      var child := StaticNode(node, Head(r));
      if Winner(child, Tail(r), want).Some? then Left(child, Tail(r), want)
      else if Winner(ParamNode(node), Tail(r), want).Some? then
        Debris(child, Tail(r)).Keys + Left(ParamNode(node), Tail(r), want)
      else if WildcardServes(node, want) then Debris(child, Tail(r)).Keys + ParamDebris(node, r).Keys
      else Debris(node, r).Keys
  }

  lemma {:induction false} DebrisIsSeparate(node: Node, r: string, used: set<string>)
    requires Separate(node, used)
    ensures Debris(node, r).Keys !! used && Vain(node, r) <= Debris(node, r).Keys
    ensures r != "" ==> ParamDebris(node, r).Keys !! used && ParamVain(node, r) <= ParamDebris(node, r).Keys
    decreases |r|
  {
    hide Head, Tail, ChildIndex;
    if r != "" {
      assert Separate(EMPTY, used) && Separate(StaticNode(node, Head(r)), used);
      DebrisIsSeparate(StaticNode(node, Head(r)), Tail(r), used);
      if node.param.Some? { DebrisIsSeparate(node.param.value.node, Tail(r), used + {node.param.value.name}); }
    }
  }

  function BoundNames(node: Node, r: string, want: Slot): set<string> {
    var w := Winner(node, r, want);
    if w.None? then {} else Bindings(node, w.value, r).Keys
  }

  ghost predicate Apart(stale: set<string>, left: set<string>, bound: set<string>, used: set<string>) {
    stale !! used && bound !! used && stale == left - bound
  }

  /** What is left over are the names entered in vain that the winner does not bind. */
  lemma {:induction false} StaleIsSeparate(node: Node, r: string, want: Slot, used: set<string>)
    requires Separate(node, used)
    ensures Apart(Stale(node, r, want).Keys, Left(node, r, want), BoundNames(node, r, want), used)
    decreases |r|
  {
    hide Head, Tail, ChildIndex, Winner, Bindings, Pick, Debris, ParamDebris;
    if r == "" {
      NoBindings(node, want);
    } else {
      var child := StaticNode(node, Head(r));
      assert Separate(EMPTY, used) && Separate(child, used);
      WinnerCases(node, r, want);
      DebrisIsSeparate(node, r, used);
      DebrisIsSeparate(child, Tail(r), used);
      if Winner(child, Tail(r), want).Some? {
        StaleIsSeparate(child, Tail(r), want, used);
      } else if Winner(ParamNode(node), Tail(r), want).Some? {
        var name := node.param.value.name;
        StaleIsSeparate(ParamNode(node), Tail(r), want, used + {name});
        StaleInParam(node, r, want, used);
      }
    }
  }

  lemma StaleInParam(node: Node, r: string, want: Slot, used: set<string>)
    requires r != "" && node.param.Some? && node.param.value.name !in used
    requires Winner(StaticNode(node, Head(r)), Tail(r), want).None? && Winner(ParamNode(node), Tail(r), want).Some?
    requires Debris(StaticNode(node, Head(r)), Tail(r)).Keys !! used
    requires Apart(Stale(ParamNode(node), Tail(r), want).Keys, Left(ParamNode(node), Tail(r), want),
                   BoundNames(ParamNode(node), Tail(r), want), used + {node.param.value.name})
    ensures Apart(Stale(node, r, want).Keys, Left(node, r, want), BoundNames(node, r, want), used)
  {
    hide Head, Tail, ChildIndex, Winner, Bindings, Pick, Debris, ParamDebris, StaticNode, ParamNode;
    WinnerCases(node, r, want);
    StaleCases(node, r, want);
    var name, below := node.param.value.name, Winner(ParamNode(node), Tail(r), want).value;
    var inner := BoundNames(ParamNode(node), Tail(r), want);
    assert node.param.value.node == ParamNode(node) by { ParamIs(node); }
    assert BoundNames(node, r, want) == {name} + inner;
    assert name !in Left(ParamNode(node), Tail(r), want);
  }

  lemma ParamIs(node: Node)
    requires node.param.Some?
    ensures node.param.value.node == ParamNode(node)
  {
  }

  /** A parameter removed for good is one that an HTTP lookup would leave behind. */
  lemma {:induction false} LostIsStale(node: Node, r: string, used: set<string>)
    requires Separate(node, used)
    ensures Lost(node, r) <= Stale(node, r, WebSocket).Keys
    decreases |r|
  {
    hide Head, Tail, ChildIndex, Winner, Bindings, Pick, Debris, ParamDebris, Vain, ParamVain;
    if r != "" {
      var child := StaticNode(node, Head(r));
      assert Separate(EMPTY, used) && Separate(child, used);
      DebrisIsSeparate(node, r, used);
      DebrisIsSeparate(child, Tail(r), used);
      LostIsStale(child, Tail(r), used);
      if node.param.Some? { LostIsStale(ParamNode(node), Tail(r), used + {node.param.value.name}); }
    }
  }

  lemma NoBindings(node: Node, want: Slot)
    ensures Winner(node, "", want).Some? ==> Bindings(node, Winner(node, "", want).value, "") == map[]
  {
  }

  /**
   With separate names: the parameters are those of the winner and those entered in vain, and exactness is the absence
   of the latter.
   */
  lemma HttpSeparate(node: Node, r: string, want: Slot, shape: Shape)
    requires WellFormed(node) && Separate(node, {}) && want.Http? && Winner(node, r, want) == Some(shape)
    ensures var f, b := Search(node, r, want, map[]), Bindings(node, shape, r);
            && f.params.Keys == Left(node, r, want) + b.Keys
            && (forall n :: n in b ==> n in f.params && f.params[n] == b[n])
            && (f.params == b <==> Left(node, r, want) <= b.Keys)
  {
    hide Search, Winner, Stale, Bindings, Left, Separate;
    HttpParams(node, r, want, map[]);
    StaleIsSeparate(node, r, want, {});
    var none: map<string, string> := map[];
    var b, stale := Bindings(node, shape, r), Stale(node, r, want);
    assert none + b == b;
    if Left(node, r, want) <= b.Keys { assert stale.Keys == {}; assert b + stale == b; }
    if b + stale == b { assert (b + stale).Keys == b.Keys + stale.Keys; }
  }

  /** A WebSocket lookup returns exactly the winner's bindings, and none when it fails. */
  lemma WebSocketParamsExact(node: Node, r: string, params: map<string, string>)
    requires WellFormed(node) && Separate(node, params.Keys)
    ensures Search(node, r, WebSocket, params).params == Bound(params, node, Winner(node, r, WebSocket), r)
  {
    hide Search, Winner, Stale, Bindings, Left, Separate, Lost;
    WebSocketParams(node, r, params);
    StaleIsSeparate(node, r, WebSocket, params.Keys);
    LostIsStale(node, r, params.Keys);
    var bound := Bound(params, node, Winner(node, r, WebSocket), r);
    assert Lost(node, r) !! bound.Keys;
    assert bound - Lost(node, r) == bound;
  }

  // ---------------------------------------------------------------- inputs where a lookup is not exact

  /** The segment split of `head/tail` and of a path without a slash. */
  lemma Split(head: string, tail: string)
    requires '/' !in head
    ensures Head(head + "/" + tail) == head && Tail(head + "/" + tail) == tail
    ensures Head(head) == head && Tail(head) == ""
  {
    var r := head + "/" + tail;
    assert r[|head|] == '/' && forall i :: 0 <= i < |head| ==> r[i] == head[i] && head[i] in head;
    FindUnique(r, '/', 0, |head|);
    FindUnique(head, '/', 0, |head|);
    assert r[..|head|] == head && r[|head| + 1..] == tail && head[..|head|] == head;
  }

  function OneChild(text: string, handler: Handler, want: Slot): Node {
    Node(map[], [Child(text, Node(map[want := handler], [], None, None))], None, None)
  }

  lemma DeadEnd(text: string, handler: Handler, segment: string, want: Slot, params: map<string, string>)
    requires segment != "" && '/' !in segment && segment != text
    ensures Search(OneChild(text, handler, want), segment, want, params) == Found(None, params)
  {
    Split(segment, "");
    var children := OneChild(text, handler, want).children;
    assert SearchStatic(children, 1, segment, want, params) == Found(None, params);
    assert SearchStatic(children, 0, segment, want, params) == Found(None, params);
  }

  /** The trie of `:id/x` and a wildcard `rest`: HTTP returns the wildcard's handler with `id` left behind. */
  lemma HttpKeepsStaleParameter()
    ensures var get := Http(GET);
            var root := Node(map[], [], Some(Named("id", OneChild("x", 1, get))), Some(Leaf("rest", map[get := 2])));
            && Search(root, "7/y", get, map[]) == Found(Some(2), map["id" := "7", "rest" := "7/y"])
            && Bindings(root, [Wild], "7/y") == map["rest" := "7/y"]
  {
    assert "7" + "/" + "y" == "7/y";
    Split("7", "y");
    DeadEnd("x", 1, "y", Http(GET), map["id" := "7"]);
    var none: map<string, string> := map[];
    assert none["id" := "7"] == map["id" := "7"];
    assert map["id" := "7"]["rest" := "7/y"] == map["id" := "7", "rest" := "7/y"];
  }

  /**
   A wildcard `inner` for POST under `a`, a wildcard `rest` for GET: `inner` is left behind, with no parameter
   anywhere.
   */
  lemma HttpKeepsStaleWildcard()
    ensures var get := Http(GET);
            var child := Node(map[], [], None, Some(Leaf("inner", map[Http(POST) := 1])));
            var root := Node(map[], [Child("a", child)], None, Some(Leaf("rest", map[get := 2])));
            && Search(root, "a/b", get, map[]) == Found(Some(2), map["inner" := "b", "rest" := "a/b"])
            && Bindings(root, [Wild], "a/b") == map["rest" := "a/b"]
  {
    var get := Http(GET);
    var child := Node(map[], [], None, Some(Leaf("inner", map[Http(POST) := 1])));
    var root := Node(map[], [Child("a", child)], None, Some(Leaf("rest", map[get := 2])));
    assert "a" + "/" + "b" == "a/b";
    Split("a", "b");
    Split("b", "");
    var none: map<string, string> := map[];
    assert SearchStatic([], 0, "b", get, none) == Found(None, none);
    assert Search(child, "b", get, none) == Found(None, map["inner" := "b"]);
    assert SearchStatic(root.children, 1, "a/b", get, map["inner" := "b"]) == Found(None, map["inner" := "b"]);
    assert map["inner" := "b"]["rest" := "a/b"] == map["inner" := "b", "rest" := "a/b"];
  }

  /** And a WebSocket lookup loses an outer binding when an inner parameter repeats its name and fails. */
  lemma RepeatedNameLosesBinding()
    ensures var rest := Leaf("rest", map[WebSocket := 2]);
            var inner := Node(map[], [], Some(Named("a", OneChild("x", 1, WebSocket))), Some(rest));
            var outer := Node(map[], [], Some(Named("a", inner)), None);
            && Search(outer, "1/2/y", WebSocket, map[]) == Found(Some(2), map["rest" := "2/y"])
            && Bindings(outer, [Param, Wild], "1/2/y") == map["a" := "1", "rest" := "2/y"]
  {
    assert "1" + "/" + "2/y" == "1/2/y" && "2" + "/" + "y" == "2/y";
    Split("1", "2/y");
    Split("2", "y");
    var inner := Node(map[], [], Some(Named("a", OneChild("x", 1, WebSocket))),
        Some(Leaf("rest", map[WebSocket := 2])));
    DeadEnd("x", 1, "y", WebSocket, map["a" := "2"]);
    assert map["a" := "1"]["a" := "2"] == map["a" := "2"] && map["a" := "2"] - {"a"} == map[];
    assert SearchParam(inner.param, "2/y", WebSocket, map["a" := "1"]) == Found(None, map[]);
    assert Search(inner, "2/y", WebSocket, map["a" := "1"]) == Found(Some(2), map["rest" := "2/y"]);
    assert [Param, Wild][1..] == [Wild];
  }

  // ---- the same tries, registered

  lemma InsertLast(node: Node, segment: string, slot: Slot, handler: Handler)
    requires segment != "" && '/' !in segment
    ensures IsWildcard(segment) ==>
              Insert(node, segment, slot, Some(handler)) ==
              PutWildcard(node, segment[1..], SetCell(WildcardCells(node), slot, Some(handler)))
    ensures !IsWildcard(segment) && !IsParameter(segment) ==>
              Insert(node, segment, slot, Some(handler)) ==
              PutStatic(node, segment, Insert(StaticNode(node, segment), "", slot, Some(handler)))
  {
    Split(segment, "");
  }

  lemma InsertThrough(node: Node, segment: string, more: string, slot: Slot, handler: Handler)
    requires segment != "" && '/' !in segment && !IsWildcard(segment)
    ensures Insert(node, segment + "/" + more, slot, Some(handler)) ==
            if IsParameter(segment)
            then PutParam(node, segment[1..], Insert(ParamNode(node), more, slot, Some(handler)))
            else PutStatic(node, segment, Insert(StaticNode(node, segment), more, slot, Some(handler)))
  {
    Split(segment, more);
  }

  /** What is inserted into an empty node under one static segment. */
  lemma InsertOneChild(text: string, handler: Handler, want: Slot)
    requires text != "" && '/' !in text && !IsWildcard(text) && !IsParameter(text)
    ensures Insert(EMPTY, text, want, Some(handler)) == OneChild(text, handler, want)
  {
    InsertLast(EMPTY, text, want, handler);
    var none: Cells := map[];
    assert none[want := handler] == map[want := handler];
  }

  lemma BuildTwo(first: Route, second: Route)
    ensures Build([first, second]) ==
            Insert(Insert(EMPTY, first.pattern, first.slot, first.handler), second.pattern, second.slot, second.handler)
  {
    assert [first, second][..1] == [first] && [first][..0] == [];
    assert Build([]) == EMPTY;
    assert Build([first]) == Insert(EMPTY, first.pattern, first.slot, first.handler);
  }

  /** Two registrations give the trie of `HttpKeepsStaleParameter`. */
  lemma StaleParameterIsRegistered()
    ensures var get := Http(GET);
            Build([Route(":id/x", get, Some(1)), Route("*rest", get, Some(2))]) ==
            Node(map[], [], Some(Named("id", OneChild("x", 1, get))), Some(Leaf("rest", map[get := 2])))
  {
    hide Insert, Build;
    var get := Http(GET);
    assert ":id" + "/" + "x" == ":id/x" && ":id"[1..] == "id" && "*rest"[1..] == "rest";
    BuildTwo(Route(":id/x", get, Some(1)), Route("*rest", get, Some(2)));
    InsertThrough(EMPTY, ":id", "x", get, 1);
    InsertOneChild("x", 1, get);
    var one := Insert(EMPTY, ":id/x", get, Some(1));
    assert one == Node(map[], [], Some(Named("id", OneChild("x", 1, get))), None);
    InsertLast(one, "*rest", get, 2);
    var none: Cells := map[];
    assert none[get := 2] == map[get := 2];
  }

  /** Two registrations, for different methods, give the trie of `HttpKeepsStaleWildcard`. */
  lemma StaleWildcardIsRegistered()
    ensures var get := Http(GET);
            var child := Node(map[], [], None, Some(Leaf("inner", map[Http(POST) := 1])));
            Build([Route("a/" + "*inner", Http(POST), Some(1)), Route("*rest", get, Some(2))]) ==
            Node(map[], [Child("a", child)], None, Some(Leaf("rest", map[get := 2])))
  {
    hide Insert, Build;
    var get, post := Http(GET), Http(POST);
    assert "a" + "/" + "*inner" == "a/" + "*inner" && "*inner"[1..] == "inner" && "*rest"[1..] == "rest";
    BuildTwo(Route("a/" + "*inner", post, Some(1)), Route("*rest", get, Some(2)));
    InsertThrough(EMPTY, "a", "*inner", post, 1);
    InsertLast(EMPTY, "*inner", post, 1);
    var none: Cells := map[];
    assert none[post := 1] == map[post := 1] && none[get := 2] == map[get := 2];
    var child := Node(map[], [], None, Some(Leaf("inner", map[post := 1])));
    var one := Insert(EMPTY, "a/" + "*inner", post, Some(1));
    assert one == Node(map[], [Child("a", child)], None, None);
    InsertLast(one, "*rest", get, 2);
  }

  /** Two registrations give the trie of `RepeatedNameLosesBinding`. */
  lemma RepeatedNameIsRegistered()
    ensures var rest := Leaf("rest", map[WebSocket := 2]);
            var inner := Node(map[], [], Some(Named("a", OneChild("x", 1, WebSocket))), Some(rest));
            Build([Route(":a/:a/x", WebSocket, Some(1)), Route(":a/" + "*rest", WebSocket, Some(2))]) ==
            Node(map[], [], Some(Named("a", inner)), None)
  {
    hide Insert, Build;
    assert ":a" + "/" + ":a/x" == ":a/:a/x" && ":a" + "/" + "x" == ":a/x" && ":a" + "/" + "*rest" == ":a/" + "*rest";
    assert ":a"[1..] == "a" && "*rest"[1..] == "rest";
    BuildTwo(Route(":a/:a/x", WebSocket, Some(1)), Route(":a/" + "*rest", WebSocket, Some(2)));
    InsertThrough(EMPTY, ":a", ":a/x", WebSocket, 1);
    InsertThrough(EMPTY, ":a", "x", WebSocket, 1);
    InsertOneChild("x", 1, WebSocket);
    var below := Node(map[], [], Some(Named("a", OneChild("x", 1, WebSocket))), None);
    assert Insert(EMPTY, ":a/x", WebSocket, Some(1)) == below;
    var one := Insert(EMPTY, ":a/:a/x", WebSocket, Some(1));
    assert one == Node(map[], [], Some(Named("a", below)), None);
    InsertThrough(one, ":a", "*rest", WebSocket, 2);
    InsertLast(below, "*rest", WebSocket, 2);
    var none: Cells := map[];
    assert none[WebSocket := 2] == map[WebSocket := 2];
  }

  // ---------------------------------------------------------------- where the names come from

  function Descend(node: Node, e: Elem): Node {
    match e
    case Param => ParamNode(node)
    case Static(text) => StaticNode(node, text)
    case Wild => EMPTY
  }

  function NodeAt(node: Node, prefix: Shape): Node
    decreases |prefix|
  {
    if prefix == [] then node else NodeAt(Descend(node, prefix[0]), prefix[1..])
  }

  lemma {:induction false} NodeAtSnoc(node: Node, prefix: Shape, e: Elem)
    ensures NodeAt(node, prefix + [e]) == Descend(NodeAt(node, prefix), e)
    decreases |prefix|
  {
    if prefix == [] {
      assert ([] + [e])[1..] == [];
    } else {
      assert (prefix + [e])[1..] == prefix[1..] + [e];
      NodeAtSnoc(Descend(node, prefix[0]), prefix[1..], e);
    }
  }

  /** The name a node gives to its parameter child or to its wildcard. */
  function NodeName(node: Node, e: Elem): Option<string> {
    if e.Param? && node.param.Some? then Some(node.param.value.name)
    else if e.Wild? && node.wildcard.Some? then Some(node.wildcard.value.name)
    else None
  }

  function ElemOf(segment: string): Elem {
    if IsWildcard(segment) then Wild else if IsParameter(segment) then Param else Static(segment)
  }

  /** The name pattern `r` writes for the parameter or wildcard standing right after `prefix`. */
  function NameIn(r: string, prefix: Shape, e: Elem): Option<string>
    decreases |prefix|
  {
    if r == "" then None
    else if prefix == [] then (if ElemOf(Head(r)) == e && !e.Static? then Some(Head(r)[1..]) else None)
    else if ElemOf(Head(r)) == prefix[0] && !prefix[0].Wild? then NameIn(Tail(r), prefix[1..], e)
    else None
  }

  function Either(first: Option<string>, second: Option<string>): Option<string> {
    if first.Some? then first else second
  }

  lemma EmptyDescends(prefix: Shape)
    ensures NodeAt(EMPTY, prefix) == EMPTY
    decreases |prefix|
  {
    if prefix != [] { EmptyDescends(prefix[1..]); }
  }

  /** The first pattern to need a name fixes it. */
  lemma {:induction false} InsertName(node: Node, r: string, slot: Slot, handler: Option<Handler>, prefix: Shape,
                                      e: Elem)
    ensures NodeName(NodeAt(Insert(node, r, slot, handler), prefix), e) ==
            Either(NodeName(NodeAt(node, prefix), e), NameIn(r, prefix, e))
    decreases |r|
  {
    hide Head, Tail, SetCell, IsWildcard, IsParameter;
    if r != "" && prefix != [] {
      if IsWildcard(Head(r)) {
      } else if IsParameter(Head(r)) {
        InsertName(ParamNode(node), Tail(r), slot, handler, prefix[1..], e);
      } else {
        InsertName(StaticNode(node, Head(r)), Tail(r), slot, handler, prefix[1..], e);
        var child := Insert(StaticNode(node, Head(r)), Tail(r), slot, handler);
        if prefix[0].Static? { PutStaticChildren(node, Head(r), child, prefix[0].text); }
      }
    }
  }

  function FirstName(routes: seq<Route>, prefix: Shape, e: Elem): Option<string> {
    if routes == [] then None
    else Either(FirstName(routes[..|routes| - 1], prefix, e), NameIn(routes[|routes| - 1].pattern, prefix, e))
  }

  lemma {:induction false} BuildNames(routes: seq<Route>, prefix: Shape, e: Elem)
    ensures NodeName(NodeAt(Build(routes), prefix), e) == FirstName(routes, prefix, e)
  {
    hide NodeAt, Insert, NameIn;
    if routes == [] {
      EmptyDescends(prefix);
    } else {
      var front, last := routes[..|routes| - 1], routes[|routes| - 1];
      BuildNames(front, prefix, e);
      InsertName(Build(front), last.pattern, last.slot, last.handler, prefix, e);
    }
  }

  /** The bindings of `shape` read off the registrations: every name is that of the first pattern using it. */
  function TableBindings(routes: seq<Route>, prefix: Shape, shape: Shape, r: string): map<string, string>
    decreases |shape|
  {
    if shape == [] then map[]
    else
      var name := FirstName(routes, prefix, shape[0]);
      match shape[0]
      case Wild => if name.Some? then map[name.value := r] else map[]
      case Param =>
        if name.Some? then map[name.value := Head(r)] + TableBindings(routes, prefix + [Param], shape[1..], Tail(r))
        else map[]
      case Static(_) => TableBindings(routes, prefix + [shape[0]], shape[1..], Tail(r))
  }

  lemma {:induction false} BindingsFromTable(routes: seq<Route>, prefix: Shape, shape: Shape, r: string)
    ensures Bindings(NodeAt(Build(routes), prefix), shape, r) == TableBindings(routes, prefix, shape, r)
    decreases |shape|
  {
    hide NodeAt, Build, FirstName, Head, Tail;
    if shape != [] {
      BuildNames(routes, prefix, shape[0]);
      if !shape[0].Wild? {
        NodeAtSnoc(Build(routes), prefix, shape[0]);
        BindingsFromTable(routes, prefix + [shape[0]], shape[1..], Tail(r));
      }
    }
  }

  /** The bindings of the scan's choice. */
  function ScanBindings(routes: seq<Route>, r: string, want: Slot): map<string, string> {
    var best := Scan(routes, |routes|, r, want);
    if best.None? then map[] else TableBindings(routes, [], best.value, r)
  }

  lemma ScanBindingsAre(routes: seq<Route>, r: string, want: Slot)
    ensures ScanBindings(routes, r, want) == Bound(map[], Build(routes), Winner(Build(routes), r, want), r)
  {
    hide Build, Scan, Bindings, TableBindings, Winner;
    WinnerIsScan(routes, r, want);
    var best := Scan(routes, |routes|, r, want);
    if best.Some? {
      BindingsFromTable(routes, [], best.value, r);
      var none: map<string, string> := map[];
      assert none + Bindings(Build(routes), best.value, r) == Bindings(Build(routes), best.value, r);
    }
  }

  /**
   The whole WebSocket lookup, told from the registrations: the bindings of the scan's choice, but for those removed
   again.
   */
  lemma WebSocketLookup(routes: seq<Route>, r: string)
    ensures Search(Build(routes), r, WebSocket, map[]) ==
            Found(Scanned(routes, r, WebSocket), ScanBindings(routes, r, WebSocket) - Lost(Build(routes), r))
    ensures Separate(Build(routes), {}) ==>
              Search(Build(routes), r, WebSocket, map[]).params == ScanBindings(routes, r, WebSocket)
  {
    hide Search, Build, Separate, Winner, Scanned, ScanBindings, Lost, Bound;
    BuildWellFormed(routes);
    TrieIsScan(routes, r, WebSocket, map[]);
    ScanBindingsAre(routes, r, WebSocket);
    WebSocketParams(Build(routes), r, map[]);
    var none: map<string, string> := map[];
    assert none.Keys == {};
    if Separate(Build(routes), {}) { WebSocketParamsExact(Build(routes), r, map[]); }
  }

  /**
   The whole HTTP lookup: the bindings of the scan's choice, overlaid with what failed branches left. When names do
   not repeat on a way down, it is exact if and only if those branches entered no name but the bound ones.
   */
  lemma HttpLookup(routes: seq<Route>, r: string, verb: Method)
    ensures var f, b := Search(Build(routes), r, Http(verb), map[]), ScanBindings(routes, r, Http(verb));
            && f == Found(Scanned(routes, r, Http(verb)), b + Stale(Build(routes), r, Http(verb)))
            && (f.handler.Some? && Separate(Build(routes), {}) ==>
                  (f.params == b <==> Left(Build(routes), r, Http(verb)) <= b.Keys))
  {
    hide Search, Build, Separate, Winner, Scanned, ScanBindings, Stale, Left, Bindings;
    var root := Build(routes);
    BuildWellFormed(routes);
    TrieIsScan(routes, r, Http(verb), map[]);
    ScanBindingsAre(routes, r, Http(verb));
    HttpParams(root, r, Http(verb), map[]);
    BranchHandlers(root, r, Http(verb), map[]);
    if Search(root, r, Http(verb), map[]).handler.Some? {
      var w := Winner(root, r, Http(verb)).value;
      var none: map<string, string> := map[];
      assert none + Bindings(root, w, r) == Bindings(root, w, r);
      if Separate(root, {}) { HttpSeparate(root, r, Http(verb), w); }
    }
  }

  // ---------------------------------------------------------------- the router object

  /** The part of a request path after its first slash, without the query; `None` never matches. */
  function RoutedPath(path: string): Option<string> {
    var p := path[..Find(path, '?', 0)];
    if p == "" || p[0] != '/' then None else Some(p[1..])
  }

  /** A request path asks for `r`: it is `/r`, or `/r?` and a query. */
  ghost predicate Asks(path: string, r: string) { '?' !in r && (path == "/" + r || "/" + r + "?" <= path) }

  /** Every path that starts with a slash asks for one thing, and no other path asks for anything. */
  lemma AsksForOne(path: string)
    ensures RoutedPath(path).Some? <==> path != "" && path[0] == '/'
    ensures RoutedPath(path).Some? ==> Asks(path, RoutedPath(path).value)
    ensures forall r :: Asks(path, r) ==> RoutedPath(path) == Some(r)
  {
    var n := Find(path, '?', 0);
    if RoutedPath(path).Some? {
      var r := RoutedPath(path).value;
      assert path[..n] == "/" + r;
      assert '?' !in path[..n];
      if n < |path| { assert path[..n + 1] == "/" + r + "?"; }
    }
    forall r | Asks(path, r) ensures RoutedPath(path) == Some(r) {
      var k := |r| + 1;
      assert path[..k] == "/" + r;
      forall i | 0 <= i < k ensures path[i] != '?' { assert path[i] == path[..k][i]; }
      FindUnique(path, '?', 0, k);
    }
  }

  // ---------------------------------------------------------------- patterns and paths as segments

  function Joined(segments: seq<string>): string {
    if segments == [] then "" else if |segments| == 1 then segments[0] else segments[0] + "/" + Joined(segments[1..])
  }

  /** Segments without slashes, the last of which is not empty: what a pattern or a path is made of. */
  predicate Segments(segments: seq<string>) {
    (forall i :: 0 <= i < |segments| ==> '/' !in segments[i]) && (segments != [] ==> segments[|segments| - 1] != "")
  }

  /** Segment by segment: `:name` takes one, `*name` takes all that is left, anything else is taken literally. */
  predicate Fits(pattern: seq<string>, path: seq<string>) {
    if pattern == [] then path == []
    else if path == [] then false
    else if pattern[0] != "" && pattern[0][0] == '*' then true
    else ((pattern[0] != "" && pattern[0][0] == ':') || pattern[0] == path[0]) && Fits(pattern[1..], path[1..])
  }

  lemma JoinedSplits(segments: seq<string>)
    requires Segments(segments) && segments != []
    ensures Joined(segments) != "" && Head(Joined(segments)) == segments[0]
    ensures Tail(Joined(segments)) == Joined(segments[1..]) && Segments(segments[1..])
  {
    if |segments| == 1 {
      Split(segments[0], "");
    } else {
      Split(segments[0], Joined(segments[1..]));
    }
  }

  /** The trie's notion of a match is that of the segments. */
  lemma {:induction false} MatchesSegments(pattern: seq<string>, path: seq<string>)
    requires Segments(pattern) && Segments(path)
    ensures Matches(ShapeOf(Joined(pattern)), Joined(path)) <==> Fits(pattern, path)
    decreases |pattern|
  {
    hide Head, Tail;
    if pattern != [] {
      JoinedSplits(pattern);
      var shape := ShapeOf(Joined(pattern));
      if path != [] {
        JoinedSplits(path);
        MatchesSegments(pattern[1..], path[1..]);
        if !shape[0].Wild? { assert shape[1..] == ShapeOf(Joined(pattern[1..])); }
      }
    }
  }

  /** A request finds a handler exactly when some pattern that fits it has one, for its method or for any. */
  lemma FoundExactlyWhenFits(patterns: seq<seq<string>>, routes: seq<Route>, path: seq<string>, want: Slot)
    requires |patterns| == |routes| && Segments(path)
    requires forall i :: 0 <= i < |routes| ==> Segments(patterns[i]) && routes[i].pattern == Joined(patterns[i])
    ensures Scanned(routes, Joined(path), want).Some? <==>
            exists i :: 0 <= i < |routes| && Fits(patterns[i], path) &&
              Effective(routes, ShapeOf(routes[i].pattern), want).Some?
  {
    hide Matches, ShapeOf, Fits, Effective, Scan;
    var r := Joined(path);
    FoundExactlyWhenMatched(routes, r, want);
    TrieIsScan(routes, r, want, map[]);
    forall i | 0 <= i < |routes|
      ensures Candidate(routes, ShapeOf(routes[i].pattern), r, want) <==>
              Fits(patterns[i], path) && Effective(routes, ShapeOf(routes[i].pattern), want).Some?
    {
      MatchesSegments(patterns[i], path);
    }
  }

  function FourRoutes(pattern: string): seq<Route> {
    [Route(pattern, Http(GET), Some(1)), Route(pattern, Http(ANY), Some(2)),
     Route(pattern, Http(PUT), Some(3)), Route(pattern, Http(PUT), Some(4))]
  }

  /** A handler for the method comes before one for any method, and the latest registration before earlier ones. */
  lemma MethodThenAny(pattern: string, shape: Shape)
    requires shape == ShapeOf(pattern)
    ensures var routes := FourRoutes(pattern);
            && Effective(routes, shape, Http(GET)) == Some(1) && Effective(routes, shape, Http(POST)) == Some(2)
            && Effective(routes, shape, Http(PUT)) == Some(4) && Effective(routes, shape, WebSocket) == None
  {
    hide ShapeOf;
    var routes := FourRoutes(pattern);
    assert routes[..3][..2] == routes[..2] && routes[..2][..1] == routes[..1] && routes[..1][..0] == [];
    forall slot: Slot ensures LastFor(routes[..1], shape, slot) == if slot == Http(GET) then Some(1) else None {
      assert LastFor([], shape, slot) == None;
    }
    forall slot: Slot
      ensures LastFor(routes[..2], shape, slot) ==
              if slot == Http(ANY) then Some(2) else LastFor(routes[..1], shape, slot)
    {}
    forall slot: Slot
      ensures LastFor(routes[..3], shape, slot) ==
              if slot == Http(PUT) then Some(3) else LastFor(routes[..2], shape, slot)
    {}
    forall slot: Slot
      ensures LastFor(routes, shape, slot) == if slot == Http(PUT) then Some(4) else LastFor(routes[..3], shape, slot)
    {}
  }

  /** At every segment a literal comes before a parameter, and a parameter before a wildcard. */
  lemma {:induction false} EarlierWins(front: seq<string>, a: seq<string>, b: seq<string>)
    requires Segments(front + a) && Segments(front + b) && a != [] && b != []
    requires forall i :: 0 <= i < |front| ==> !IsWildcard(front[i])
    requires b[0] != "" && (a[0] == "" || a[0][0] != '*')
    requires b[0][0] == '*' || (b[0][0] == ':' && (a[0] == "" || a[0][0] != ':'))
    ensures Before(ShapeOf(Joined(front + a)), ShapeOf(Joined(front + b)))
    decreases |front|
  {
    hide ShapeOf, Joined, Before;
    if front == [] {
      assert front + a == a && front + b == b;
      ShapeCons(a);
      ShapeCons(b);
      BeforeHere(ShapeOf(Joined(a)), ShapeOf(Joined(b)));
    } else {
      var more, less := front[1..] + a, front[1..] + b;
      assert (front + a)[1..] == more && (front + b)[1..] == less;
      ShapeCons(front + a);
      ShapeCons(front + b);
      EarlierWins(front[1..], a, b);
      BeforeLater(ElemOf(front[0]), ShapeOf(Joined(more)), ShapeOf(Joined(less)));
    }
  }

  lemma ShapeCons(segments: seq<string>)
    requires Segments(segments) && segments != []
    ensures Segments(segments[1..])
    ensures ShapeOf(Joined(segments)) ==
            if IsWildcard(segments[0]) then [Wild] else [ElemOf(segments[0])] + ShapeOf(Joined(segments[1..]))
  {
    hide Head, Tail;
    JoinedSplits(segments);
  }

  lemma BeforeHere(x: Shape, y: Shape)
    requires x != [] && y != [] && Rank(x[0]) < Rank(y[0])
    ensures Before(x, y)
  {
  }

  lemma BeforeLater(e: Elem, x: Shape, y: Shape)
    requires Before(x, y)
    ensures Before([e] + x, [e] + y)
  {
    assert ([e] + x)[1..] == x && ([e] + y)[1..] == y;
  }

  datatype RouteInfo = RouteInfo(verb: Method, pattern: string)

  class Router {
    var root: Node
    var routeCount: nat
    var routeInfos: seq<RouteInfo>
    var webSocketInfos: seq<string>
    ghost var routes: seq<Route>

    ghost predicate Valid()
      reads this
    {
      root == Build(routes) && routeCount == |routeInfos| && |routes| == |routeInfos| + |webSocketInfos|
    }

    constructor ()
      ensures Valid() && routes == [] && routeInfos == [] && webSocketInfos == []
    {
      root, routeCount, routeInfos, webSocketInfos, routes := EMPTY, 0, [], [], [];
    }

    /** `false` is the exception for a pattern that does not start with a slash. */
    method AddRoute(verb: Method, pattern: string, handler: Option<Handler>) returns (ok: bool)
      requires Valid()
      modifies this
      ensures Valid() && ok == (pattern != "" && pattern[0] == '/') && webSocketInfos == old(webSocketInfos)
      ensures routes == old(routes) + if ok then [Route(pattern[1..], Http(verb), handler)] else []
      ensures routeInfos == old(routeInfos) + if ok then [RouteInfo(verb, pattern)] else []
    {
      if pattern == "" || pattern[0] != '/' { return false; }
      Register(Route(pattern[1..], Http(verb), handler));
      routeCount := routeCount + 1;
      routeInfos := routeInfos + [RouteInfo(verb, pattern)];
      return true;
    }

    method AddWebSocket(pattern: string, handler: Handler) returns (ok: bool)
      requires Valid()
      modifies this
      ensures Valid() && ok == (pattern != "" && pattern[0] == '/') && routeInfos == old(routeInfos)
      ensures routes == old(routes) + if ok then [Route(pattern[1..], WebSocket, Some(handler))] else []
      ensures webSocketInfos == old(webSocketInfos) + if ok then [pattern] else []
    {
      if pattern == "" || pattern[0] != '/' { return false; }
      Register(Route(pattern[1..], WebSocket, Some(handler)));
      webSocketInfos := webSocketInfos + [pattern];
      return true;
    }

    method Register(route: Route)
      requires root == Build(routes)
      modifies `root, `routes
      ensures root == Build(routes) && routes == old(routes) + [route]
    {
      root := Insert(root, route.pattern, route.slot, route.handler);
      routes := routes + [route];
      assert routes[..|routes| - 1] == old(routes);
    }

    /**
     For whatever the path asks, the handler and the bindings of a linear scan of the registrations, and what failed
     branches left. A path that does not start with a slash finds nothing.
     */
    method Match(verb: Method, path: string) returns (found: Found)
      requires Valid()
      ensures path == "" || path[0] != '/' ==> found == Found(None, map[])
      ensures found.handler.None? ==> found.params == map[]
      ensures forall r :: Asks(path, r) ==>
                var want := Http(verb);
                var bindings := ScanBindings(routes, r, want);
                && found.handler == Scanned(routes, r, want)
                && (found.handler.Some? ==> found.params == bindings + Stale(root, r, want))
                && (found.handler.Some? && Separate(root, {}) ==>
                      (found.params == bindings <==> Left(root, r, want) <= bindings.Keys))
    {
      hide Search, Build, Scanned, ScanBindings, Stale, Left, Separate, Asks, RoutedPath;
      AsksForOne(path);
      var remaining := RoutedPath(path);
      if remaining.None? { return Found(None, map[]); }
      HttpLookup(routes, remaining.value, verb);
      found := Search(root, remaining.value, Http(verb), map[]);
      if found.handler.None? { found := Found(None, map[]); }
    }

    /** The same without the bindings that were removed again; none was if names do not repeat on a way down. */
    method MatchWebSocket(path: string) returns (found: Found)
      requires Valid()
      ensures path == "" || path[0] != '/' ==> found == Found(None, map[])
      ensures found.handler.None? ==> found.params == map[]
      ensures forall r :: Asks(path, r) ==>
                var bindings := ScanBindings(routes, r, WebSocket);
                && found.handler == Scanned(routes, r, WebSocket)
                && (found.handler.Some? ==> found.params == bindings - Lost(root, r))
                && (found.handler.Some? && Separate(root, {}) ==> found.params == bindings)
    {
      hide Search, Build, Scanned, ScanBindings, Lost, Separate, Asks, RoutedPath;
      AsksForOne(path);
      var remaining := RoutedPath(path);
      if remaining.None? { return Found(None, map[]); }
      WebSocketLookup(routes, remaining.value);
      found := Search(root, remaining.value, WebSocket, map[]);
      if found.handler.None? { found := Found(None, map[]); }
    }
  }
}
