/** The edge walker: the single hop along the first edge leaving a node, and
    the walk that repeats that hop until it reaches a valid node. */
module EdgeWalker {
  import opened Diagrams

  /** What the single hop answers when no edge leaves the node. */
  const NO_EDGE := -1

  /** `k` is the first position of `edges` holding an edge that leaves `id`. */
  predicate IsFirstEdgeFrom(edges: seq<Edge>, id: int, k: int) {
    0 <= k < |edges| && edges[k].from == id && forall j | 0 <= j < k :: edges[j].from != id
  }

  /** Every id some edge points to. */
  function Targets(edges: seq<Edge>): set<int> {
    set e | e in edges :: e.to
  }

  /** The target of the first edge, in sequence order, that leaves `id`; NO_EDGE when none does. */
  function EdgeToIdWithFromId(id: int, edges: seq<Edge>): (r: int)
    ensures r == NO_EDGE || r in Targets(edges)
  {
    if edges == [] then NO_EDGE
    else if edges[0].from == id then edges[0].to
    else EdgeToIdWithFromId(id, edges[1..])
  }

  /** The single hop follows the first edge, in sequence order, that leaves `id`. */
  lemma {:induction false} EdgeToIdIsFirst(edges: seq<Edge>, id: int, k: int)
    requires IsFirstEdgeFrom(edges, id, k)
    ensures EdgeToIdWithFromId(id, edges) == edges[k].to
  {
    if k > 0 {
      assert IsFirstEdgeFrom(edges[1..], id, k - 1);
      EdgeToIdIsFirst(edges[1..], id, k - 1);
    }
  }

  /** With no edge leaving `id`, the single hop answers NO_EDGE. */
  lemma {:induction false} EdgeToIdNone(edges: seq<Edge>, id: int)
    requires forall e | e in edges :: e.from != id
    ensures EdgeToIdWithFromId(id, edges) == NO_EDGE
  {
    if edges != [] {
      EdgeToIdNone(edges[1..], id);
    }
  }

  /** Some edge leaves `id` exactly when there is a first such edge. */
  lemma {:induction false} FirstEdgeFromExists(edges: seq<Edge>, id: int, e: Edge)
    requires e in edges && e.from == id
    ensures exists k :: IsFirstEdgeFrom(edges, id, k)
  {
    if edges[0].from == id {
      assert IsFirstEdgeFrom(edges, id, 0);
    } else {
      FirstEdgeFromExists(edges[1..], id, e);
      var k :| IsFirstEdgeFrom(edges[1..], id, k);
      assert IsFirstEdgeFrom(edges, id, k + 1);
    }
  }

  /** Whether the walk stops at `k`: a cached valid node stops it at once;
      otherwise the node is looked up, and a missing node is an error. */
  function ValidAt(d: Diagram, cache: map<int, Node>, k: int): Result<bool> {
    if k in cache && NodeIsValid(cache[k]) then Success(true)
    else match FindNode(k, d.nodes)
      case None => Failure(NodeNotFound(k))
      case Some(n) => Success(NodeIsValid(n))
  }

  /** The walk from `start`, now at `next`, having passed the ids in `visited`. */
  function WalkFrom(d: Diagram, cache: map<int, Node>, start: int, next: int, visited: set<int>): Result<int>
    requires next >= 0 ==> next in Targets(d.edges)
    decreases Targets(d.edges) - visited
  {
    if next < 0 then Failure(IncompletePath(start))
    else if next in visited then Failure(CycleDetected(start))
    else match ValidAt(d, cache, next)
      case Failure(err) => Failure(err)
      case Success(true) => Success(next)
      case Success(false) => WalkFrom(d, cache, start, EdgeToIdWithFromId(next, d.edges), visited + {next})
  }

  /** The walk to the next valid node: it starts at the successor of `start`, never tests `start` itself. */
  function Walk(d: Diagram, cache: map<int, Node>, start: int): Result<int> {
    WalkFrom(d, cache, start, EdgeToIdWithFromId(start, d.edges), {})
  }

  /** The walk as the reducer runs it: a loop that reassigns the current id. */
  method IdNextValidNode(id: int, d: Diagram, cache: map<int, Node>) returns (r: Result<int>)
    ensures r == Walk(d, cache, id)
  {
    var nextId := EdgeToIdWithFromId(id, d.edges);
    var visited: set<int> := {};
    while nextId >= 0
      invariant nextId >= 0 ==> nextId in Targets(d.edges)
      invariant WalkFrom(d, cache, id, nextId, visited) == Walk(d, cache, id)
      decreases Targets(d.edges) - visited
    {
      if nextId in visited {
        return Failure(CycleDetected(id));
      }
      if nextId in cache && NodeIsValid(cache[nextId]) {
        return Success(nextId);
      }
      var found := FindNode(nextId, d.nodes);
      if found.None? {
        return Failure(NodeNotFound(nextId));
      }
      if NodeIsValid(found.value) {
        return Success(nextId);
      }
      visited := visited + {nextId};
      nextId := EdgeToIdWithFromId(nextId, d.edges);
    }
    return Failure(IncompletePath(id));
  }

  /** A cache agrees with the diagram when every entry is what the lookup finds. */
  ghost predicate CacheAgrees(d: Diagram, cache: map<int, Node>) {
    forall k | k in cache :: FindNode(k, d.nodes) == Some(cache[k])
  }

  lemma {:induction false} WalkFromCacheIndependent(d: Diagram, cache: map<int, Node>, start: int, next: int, visited: set<int>)
    requires CacheAgrees(d, cache)
    requires next >= 0 ==> next in Targets(d.edges)
    ensures WalkFrom(d, cache, start, next, visited) == WalkFrom(d, map[], start, next, visited)
    decreases Targets(d.edges) - visited
  {
    if next >= 0 && next !in visited {
      assert ValidAt(d, cache, next) == ValidAt(d, map[], next);
      if ValidAt(d, cache, next) == Success(false) {
        WalkFromCacheIndependent(d, cache, start, EdgeToIdWithFromId(next, d.edges), visited + {next});
      }
    }
  }

  /** Supplying a cache that agrees with the diagram does not change where the walk ends. */
  lemma WalkCacheIndependent(d: Diagram, cache: map<int, Node>, start: int)
    requires CacheAgrees(d, cache)
    ensures Walk(d, cache, start) == Walk(d, map[], start)
  {
    WalkFromCacheIndependent(d, cache, start, EdgeToIdWithFromId(start, d.edges), {});
  }

  /** The id reached from `id` after `k` single hops. */
  function Hop(edges: seq<Edge>, id: int, k: nat): int {
    if k == 0 then id else EdgeToIdWithFromId(Hop(edges, id, k - 1), edges)
  }

  /** The node at hop `j` exists and is not valid, so the source's loop goes on past it. */
  ghost predicate PassesAt(d: Diagram, id: int, j: nat) {
    var h := Hop(d.edges, id, j);
    h >= 0 && FindNode(h, d.nodes).Some? && !NodeIsValid(FindNode(h, d.nodes).value)
  }

  /** The first `m` hops from `id` all pass through invalid nodes. */
  ghost predicate PassesThrough(d: Diagram, id: int, m: nat) {
    forall j | 1 <= j <= m :: PassesAt(d, id, j)
  }

  function HopSet(edges: seq<Edge>, id: int, m: nat): set<int> {
    set j | 1 <= j <= m :: Hop(edges, id, j)
  }

  lemma {:induction false} HopShift(edges: seq<Edge>, id: int, a: nat, b: nat, t: nat)
    requires Hop(edges, id, a) == Hop(edges, id, b)
    ensures Hop(edges, id, a + t) == Hop(edges, id, b + t)
  {
    if t > 0 {
      HopShift(edges, id, a, b, t - 1);
      assert Hop(edges, id, a + t) == EdgeToIdWithFromId(Hop(edges, id, a + (t - 1)), edges);
      assert Hop(edges, id, b + t) == EdgeToIdWithFromId(Hop(edges, id, b + (t - 1)), edges);
    }
  }

  /** Once hop `m + 1` returns to hop `j`, every later hop repeats one of the first `m`. */
  lemma {:induction false} CycleRepeats(d: Diagram, id: int, j: nat, m: nat, k: nat)
    requires 1 <= j <= m
    requires Hop(d.edges, id, m + 1) == Hop(d.edges, id, j)
    requires PassesThrough(d, id, m)
    requires 1 <= k
    ensures PassesAt(d, id, k)
    decreases k
  {
    if k > m {
      var t := k - (m + 1);
      HopShift(d.edges, id, m + 1, j, t);
      CycleRepeats(d, id, j, m, j + t);
    }
  }

  lemma {:induction false} WalkFromShape(d: Diagram, id: int, next: int, visited: set<int>, m: nat)
    requires next == Hop(d.edges, id, m + 1)
    requires next >= 0 ==> next in Targets(d.edges)
    requires visited == HopSet(d.edges, id, m)
    requires PassesThrough(d, id, m)
    ensures var w := WalkFrom(d, map[], id, next, visited);
      && (w.Success? ==> exists k :: k >= 1 && Hop(d.edges, id, k) == w.value && PassesThrough(d, id, k - 1)
                                       && w.value >= 0 && FindNode(w.value, d.nodes).Some?
                                       && NodeIsValid(FindNode(w.value, d.nodes).value))
      && (w == Failure(IncompletePath(id)) ==> exists k :: k >= 1 && Hop(d.edges, id, k) < 0 && PassesThrough(d, id, k - 1))
      && (w.Failure? && w.error.NodeNotFound? ==>
            exists k :: k >= 1 && Hop(d.edges, id, k) == w.error.id >= 0 && PassesThrough(d, id, k - 1)
                        && FindNode(w.error.id, d.nodes).None?)
      && (w == Failure(CycleDetected(id)) ==> forall k :: k >= 1 ==> PassesAt(d, id, k))
      && (w.Failure? ==> w.error == IncompletePath(id) || w.error == CycleDetected(id) || w.error.NodeNotFound?)
    decreases Targets(d.edges) - visited
  {
    var w := WalkFrom(d, map[], id, next, visited);
    if next < 0 {
      assert Hop(d.edges, id, m + 1) < 0;
    } else if next in visited {
      var j :| 1 <= j <= m && Hop(d.edges, id, j) == next;
      forall k | k >= 1 ensures PassesAt(d, id, k) {
        CycleRepeats(d, id, j, m, k);
      }
    } else {
      match FindNode(next, d.nodes)
      case None =>
      case Some(n) =>
        if !NodeIsValid(n) {
          assert PassesAt(d, id, m + 1);
          assert PassesThrough(d, id, m + 1);
          assert HopSet(d.edges, id, m + 1) == visited + {next};
          WalkFromShape(d, id, EdgeToIdWithFromId(next, d.edges), visited + {next}, m + 1);
        }
    }
  }

  /** Where the walk from `id` ends, stated over the hops of the source's loop:
      a success is the first valid node reached, an incomplete path is a hop
      that found no edge, a missing node is the first hop that resolves to
      nothing, and a detected cycle is a chain whose every hop passes an
      invalid node, on which the source's loop never ends. */
  lemma WalkOutcome(d: Diagram, id: int)
    ensures var w := Walk(d, map[], id);
      && (w.Success? ==> exists k :: k >= 1 && Hop(d.edges, id, k) == w.value && PassesThrough(d, id, k - 1)
                                       && w.value >= 0 && FindNode(w.value, d.nodes).Some?
                                       && NodeIsValid(FindNode(w.value, d.nodes).value))
      && (w == Failure(IncompletePath(id)) ==> exists k :: k >= 1 && Hop(d.edges, id, k) < 0 && PassesThrough(d, id, k - 1))
      && (w.Failure? && w.error.NodeNotFound? ==>
            exists k :: k >= 1 && Hop(d.edges, id, k) == w.error.id >= 0 && PassesThrough(d, id, k - 1)
                        && FindNode(w.error.id, d.nodes).None?)
      && (w == Failure(CycleDetected(id)) ==> forall k :: k >= 1 ==> PassesAt(d, id, k))
      && (w.Failure? ==> w.error == IncompletePath(id) || w.error == CycleDetected(id) || w.error.NodeNotFound?)
  {
    assert HopSet(d.edges, id, 0) == {};
    WalkFromShape(d, id, EdgeToIdWithFromId(id, d.edges), {}, 0);
  }
}
