/** The reducer: one pass over the input edges that keeps the valid nodes,
    redirects edges that point into a ServiceTask to the next valid node
    downstream, and drops repeated edges. */
module Reducer {
  import opened Diagrams
  import opened EdgeWalker
  import opened Sequences

  /** The reducer's working values: the node cache (id to node), the set of
      edges already emitted, and the output node and edge sequences. */
  datatype ReduceState = ReduceState(cachedNodes: map<int, Node>, cachedEdges: set<Edge>,
                                     nodes: seq<Node>, edges: seq<Edge>)

  const EMPTY_STATE := ReduceState(map[], {}, [], [])

  /** What caching endpoint `p` adds to the output nodes: the node it resolves
      to, when it is not cached yet and the node is valid; nothing otherwise. */
  function FirstSight(d: Diagram, cache: map<int, Node>, p: int): seq<Node> {
    if p in cache then []
    else match FindNode(p, d.nodes)
      case Some(n) => if NodeIsValid(n) then [n] else []
      case None => []
  }

  /** First sight of an edge endpoint: look it up, cache it, and output it when it is valid.
      A missing node is where the source calls the validity test on null and aborts. */
  function CacheEndpoint(d: Diagram, s: ReduceState, p: int): (r: Result<ReduceState>)
    ensures r.Success? ==> r.value.cachedNodes.Keys == s.cachedNodes.Keys + {p}
  {
    if p in s.cachedNodes then Success(s)
    else match FindNode(p, d.nodes)
      case None => Failure(NodeNotFound(p))
      case Some(n) =>
        Success(s.(cachedNodes := s.cachedNodes[p := n],
                   nodes := if NodeIsValid(n) then s.nodes + [n] else s.nodes))
  }

  /** The two endpoints of an edge cached in the source's order: `from`, then `to`. */
  function CacheEdgeEnds(d: Diagram, s: ReduceState, e: Edge): (r: Result<ReduceState>)
    ensures r.Success? ==> r.value.cachedNodes.Keys == s.cachedNodes.Keys + {e.from, e.to}
  {
    match CacheEndpoint(d, s, e.from)
    case Failure(err) => Failure(err)
    case Success(s1) => CacheEndpoint(d, s1, e.to)
  }

  /** Caching one endpoint fails exactly when it is not cached yet and resolves
      to no node. An endpoint already cached changes nothing; a new one is cached
      as the node the lookup finds, and the output nodes gain it exactly when it
      is valid. The edges are untouched. */
  lemma CacheEndpointOutcome(d: Diagram, s: ReduceState, p: int)
    ensures var r := CacheEndpoint(d, s, p);
      && (r.Failure? <==> p !in s.cachedNodes && FindNode(p, d.nodes).None?)
      && (r.Failure? ==> r.error == NodeNotFound(p))
      && (p in s.cachedNodes ==> r == Success(s))
      && (r.Success? && p !in s.cachedNodes ==>
            && FindNode(p, d.nodes) == Some(r.value.cachedNodes[p])
            && r.value.cachedNodes == s.cachedNodes[p := r.value.cachedNodes[p]])
      && (r.Success? ==> && r.value.nodes == s.nodes + FirstSight(d, s.cachedNodes, p)
                         && r.value.edges == s.edges && r.value.cachedEdges == s.cachedEdges)
  {
  }

  /** Caching an edge's two endpoints fails exactly when one of them is not
      cached yet and resolves to no node; otherwise the output nodes gain each
      new valid endpoint, `from` first, and a self-loop's one node once. */
  lemma CacheEdgeEndsOutcome(d: Diagram, s: ReduceState, e: Edge)
    ensures var r := CacheEdgeEnds(d, s, e);
      && (r.Failure? <==> || (e.from !in s.cachedNodes && FindNode(e.from, d.nodes).None?)
                          || (e.to !in s.cachedNodes && FindNode(e.to, d.nodes).None?))
      && (r.Success? ==>
            && r.value.nodes == s.nodes + FirstSight(d, s.cachedNodes, e.from)
                                + (if e.to == e.from then [] else FirstSight(d, s.cachedNodes, e.to))
            && r.value.edges == s.edges && r.value.cachedEdges == s.cachedEdges)
  {
    CacheEndpointOutcome(d, s, e.from);
    if CacheEndpoint(d, s, e.from).Success? {
      CacheEndpointOutcome(d, CacheEndpoint(d, s, e.from).value, e.to);
    }
  }

  /** Emit an edge unless the same (from, to) pair was emitted before. */
  function EmitEdge(s: ReduceState, newEdge: Edge): ReduceState {
    if newEdge in s.cachedEdges then s
    else s.(edges := s.edges + [newEdge], cachedEdges := s.cachedEdges + {newEdge})
  }

  /** First sight of an edge's output target: look it up, cache it, and output
      it unless it is a ServiceTask. A missing node is where the source reads
      the type of null and aborts. */
  function CacheTarget(d: Diagram, s: ReduceState, toId: int): Result<ReduceState> {
    if toId in s.cachedNodes then Success(s)
    else match FindNode(toId, d.nodes)
      case None => Failure(NodeNotFound(toId))
      case Some(n) =>
        Success(s.(cachedNodes := s.cachedNodes[toId := n],
                   nodes := if n.kind != SERVICE_TASK then s.nodes + [n] else s.nodes))
  }

  /** An edge whose endpoints are cached: skipped when it leaves an invalid node,
      otherwise emitted with its target redirected past a ServiceTask. */
  function Redirect(d: Diagram, s: ReduceState, e: Edge): Result<ReduceState>
    requires e.from in s.cachedNodes && e.to in s.cachedNodes
  {
    var from := s.cachedNodes[e.from];
    var to := s.cachedNodes[e.to];
    if !NodeIsValid(from) then Success(s)
    else
      match (if to.kind == SERVICE_TASK then Walk(d, s.cachedNodes, to.id) else Success(to.id))
      case Failure(err) => Failure(err)
      case Success(toId) => CacheTarget(d, EmitEdge(s, Edge(from.id, toId)), toId)
  }

  /** What the reducer does with one input edge. */
  function Step(d: Diagram, s: ReduceState, e: Edge): Result<ReduceState> {
    match CacheEdgeEnds(d, s, e)
    case Failure(err) => Failure(err)
    case Success(s2) => Redirect(d, s2, e)
  }

  /** The state after the first `n` input edges. */
  function ReducePrefix(d: Diagram, n: nat): Result<ReduceState>
    requires n <= |d.edges|
  {
    if n == 0 then Success(EMPTY_STATE)
    else match ReducePrefix(d, n - 1)
      case Failure(err) => Failure(err)
      case Success(s) => Step(d, s, d.edges[n - 1])
  }

  /** The rest of the reduction from state `s`, with the edges before `i` done;
      the first edge that fails ends it. */
  function ReduceFrom(d: Diagram, s: ReduceState, i: nat): Result<Diagram>
    requires i <= |d.edges|
    decreases |d.edges| - i
  {
    if i == |d.edges| then Success(Diagram(s.nodes, s.edges))
    else match Step(d, s, d.edges[i])
      case Failure(err) => Failure(err)
      case Success(s') => ReduceFrom(d, s', i + 1)
  }

  /** The reduced diagram: the output nodes and edges after every input edge. */
  function Reduce(d: Diagram): Result<Diagram> {
    ReduceFrom(d, EMPTY_STATE, 0)
  }

  /** Once an edge aborts the reduction, the whole reduction fails with that error. */
  lemma {:induction false} FailureSticks(d: Diagram, n: nat, m: nat)
    requires n <= m <= |d.edges|
    requires ReducePrefix(d, n).Failure?
    ensures ReducePrefix(d, m) == ReducePrefix(d, n)
    decreases m
  {
    if m > n {
      FailureSticks(d, n, m - 1);
    }
  }

  /** The two endpoints of an edge cached as the source's inner loop does it:
      `from`, then `to`; each one not yet cached is looked up, cached, and
      output when it is valid. */
  method CacheEnds(diagram: Diagram, s: ReduceState, e: Edge) returns (r: Result<ReduceState>)
    ensures r == CacheEdgeEnds(diagram, s, e)
  {
    var cachedNodes := s.cachedNodes;
    var outNodes := s.nodes;
    var ends := [e.from, e.to];
    for j := 0 to |ends|
      invariant Success(s.(cachedNodes := cachedNodes, nodes := outNodes))
                == if j == 0 then Success(s)
                   else if j == 1 then CacheEndpoint(diagram, s, e.from)
                   else CacheEdgeEnds(diagram, s, e)
    {
      var p := ends[j];
      if p !in cachedNodes {
        var found := FindNode(p, diagram.nodes);
        if found.None? {
          return Failure(NodeNotFound(p));
        }
        cachedNodes := cachedNodes[p := found.value];
        if NodeIsValid(found.value) {
          outNodes := outNodes + [found.value];
        }
      }
    }
    return Success(s.(cachedNodes := cachedNodes, nodes := outNodes));
  }

  /** One pass of the source's loop body over edge `e`. */
  method ProcessEdge(diagram: Diagram, s: ReduceState, e: Edge) returns (r: Result<ReduceState>)
    ensures r == Step(diagram, s, e)
  {
    var cached := CacheEnds(diagram, s, e);
    if cached.Failure? {
      return Failure(cached.error);
    }
    var cachedNodes := cached.value.cachedNodes;
    var cachedEdges := cached.value.cachedEdges;
    var outNodes := cached.value.nodes;
    var outEdges := cached.value.edges;
    var from := cachedNodes[e.from];
    var to := cachedNodes[e.to];
    if !NodeIsValid(from) {
      return cached;
    }
    var toId: int;
    if to.kind == SERVICE_TASK {
      var walked := IdNextValidNode(to.id, diagram, cachedNodes);
      if walked.Failure? {
        return Failure(walked.error);
      }
      toId := walked.value;
    } else {
      toId := to.id;
    }
    var newEdge := Edge(from.id, toId);
    if newEdge !in cachedEdges {
      outEdges := outEdges + [newEdge];
      cachedEdges := cachedEdges + {newEdge};
    }
    assert ReduceState(cachedNodes, cachedEdges, outNodes, outEdges) == EmitEdge(cached.value, newEdge);
    if toId !in cachedNodes {
      var found := FindNode(toId, diagram.nodes);
      if found.None? {
        return Failure(NodeNotFound(toId));
      }
      cachedNodes := cachedNodes[toId := found.value];
      if found.value.kind != SERVICE_TASK {
        outNodes := outNodes + [found.value];
      }
    }
    return Success(ReduceState(cachedNodes, cachedEdges, outNodes, outEdges));
  }

  /** The reduced diagram read off a final state, or the error that ended the fold. */
  function Finish(r: Result<ReduceState>): Result<Diagram> {
    match r
    case Failure(err) => Failure(err)
    case Success(s) => Success(Diagram(s.nodes, s.edges))
  }

  lemma ReducePrefixNext(d: Diagram, n: nat, s: ReduceState)
    requires 0 < n <= |d.edges|
    requires ReducePrefix(d, n - 1) == Success(s)
    ensures ReducePrefix(d, n) == Step(d, s, d.edges[n - 1])
  {
  }

  /** Going on from the state after the first `i` edges ends where the fold
      over all edges ends. */
  lemma {:induction false} ReduceFromPrefix(d: Diagram, i: nat, s: ReduceState)
    requires i <= |d.edges| && ReducePrefix(d, i) == Success(s)
    ensures ReduceFrom(d, s, i) == Finish(ReducePrefix(d, |d.edges|))
    decreases |d.edges| - i
  {
    if i < |d.edges| {
      var r := Step(d, s, d.edges[i]);
      ReducePrefixNext(d, i + 1, s);
      if r.Failure? {
        FailureSticks(d, i + 1, |d.edges|);
        assert ReduceFrom(d, s, i) == Failure(r.error);
      } else {
        ReduceFromPrefix(d, i + 1, r.value);
        assert ReduceFrom(d, s, i) == ReduceFrom(d, r.value, i + 1);
      }
    }
  }

  /** The reduction is the fold of the single-edge step over the input edges. */
  lemma ReduceIsFold(d: Diagram)
    ensures Reduce(d) == Finish(ReducePrefix(d, |d.edges|))
  {
    ReduceFromPrefix(d, 0, EMPTY_STATE);
  }

  /** The reducer as the source writes it: a loop over the input edges that
      updates a node cache, a set of emitted edges, and the output sequences. */
  method FilterHumanTasks(diagram: Diagram) returns (r: Result<Diagram>)
    ensures r == Reduce(diagram)
  {
    var state := EMPTY_STATE;
    for i := 0 to |diagram.edges|
      invariant ReduceFrom(diagram, state, i) == Reduce(diagram)
    {
      var next := ProcessEdge(diagram, state, diagram.edges[i]);
      if next.Failure? {
        return Failure(next.error);
      }
      state := next.value;
    }
    return Success(Diagram(state.nodes, state.edges));
  }
}
