/** What the reducer computes, stated without its caches: the output edges are
    the edges it proposes, one per input edge that leaves a valid node, with
    repeats dropped; the output nodes are the valid nodes among those it looks
    at, in the order it first looks at them. */
module ReducerProperties {
  import opened Diagrams
  import opened EdgeWalker
  import opened Sequences
  import opened Reducer

  /** Where the output copy of an edge points: past a ServiceTask target, to
      the valid node the walk reaches; otherwise to the target itself. */
  function Target(d: Diagram, e: Edge): Result<int>
    requires FindNode(e.to, d.nodes).Some?
  {
    if FindNode(e.to, d.nodes).value.kind == SERVICE_TASK then Walk(d, map[], e.to) else Success(e.to)
  }

  /** An edge the reducer gets through: both ends resolve, and when it leaves
      a valid node its target can be found. */
  ghost predicate EdgeOk(d: Diagram, e: Edge) {
    && FindNode(e.from, d.nodes).Some?
    && FindNode(e.to, d.nodes).Some?
    && (NodeIsValid(FindNode(e.from, d.nodes).value) ==> Target(d, e).Success?)
  }

  /** Each of the first `n` input edges is one the reducer gets through. */
  ghost predicate AllEdgesOk(d: Diagram, n: nat)
    requires n <= |d.edges|
  {
    n == 0 || (AllEdgesOk(d, n - 1) && EdgeOk(d, d.edges[n - 1]))
  }

  /** The proposed output edges after one more input edge: one edge more
      when it leaves a valid node, none otherwise. */
  function ProposeEdge(d: Diagram, cands: seq<Edge>, e: Edge): seq<Edge>
    requires EdgeOk(d, e)
  {
    if NodeIsValid(FindNode(e.from, d.nodes).value) then cands + [Edge(e.from, Target(d, e).value)] else cands
  }

  /** The nodes looked at after one more input edge, in the order the reducer
      looks at them: the origin, the target, and, for an edge it keeps, the
      output target. */
  function SeeEdge(d: Diagram, vis: seq<Node>, e: Edge): seq<Node>
    requires EdgeOk(d, e)
  {
    var from := FindNode(e.from, d.nodes).value;
    var vis2 := vis + [from] + [FindNode(e.to, d.nodes).value];
    if !NodeIsValid(from) then vis2
    else match FindNode(Target(d, e).value, d.nodes)
      case Some(t) => vis2 + [t]
      case None => vis2
  }

  /** The output edges the reducer proposes for the first `n` input edges, repeats included. */
  function Candidates(d: Diagram, n: nat): seq<Edge>
    requires n <= |d.edges| && AllEdgesOk(d, n)
  {
    if n == 0 then [] else ProposeEdge(d, Candidates(d, n - 1), d.edges[n - 1])
  }

  /** The nodes the reducer looks at for the first `n` input edges, repeats included. */
  function Visited(d: Diagram, n: nat): seq<Node>
    requires n <= |d.edges| && AllEdgesOk(d, n)
  {
    if n == 0 then [] else SeeEdge(d, Visited(d, n - 1), d.edges[n - 1])
  }

  /** The valid nodes of `ns`, in order. */
  function ValidOnly(ns: seq<Node>): (r: seq<Node>)
    ensures forall n | n in r :: n in ns && NodeIsValid(n)
    ensures forall n | n in ns && NodeIsValid(n) :: n in r
  {
    if ns == [] then []
    else
      var init := ns[..|ns| - 1];
      ValidOnly(init) + if NodeIsValid(ns[|ns| - 1]) then [ns[|ns| - 1]] else []
  }

  lemma {:induction false} ValidOnlyDistinct(ns: seq<Node>)
    requires Distinct(ns)
    ensures Distinct(ValidOnly(ns))
  {
    if ns != [] {
      var init := ns[..|ns| - 1];
      assert Distinct(init);
      ValidOnlyDistinct(init);
    }
  }

  lemma ValidOnlySnoc(ns: seq<Node>, n: Node)
    ensures ValidOnly(ns + [n]) == ValidOnly(ns) + if NodeIsValid(n) then [n] else []
  {
    assert (ns + [n])[..|ns|] == ns;
  }

  lemma {:induction false} ValidOnlyPrefix(ns: seq<Node>, ms: seq<Node>)
    requires ns <= ms
    ensures ValidOnly(ns) <= ValidOnly(ms)
    decreases |ms|
  {
    if |ns| < |ms| {
      var init := ms[..|ms| - 1];
      assert ns <= init;
      ValidOnlyPrefix(ns, init);
      assert ms == init + [ms[|ms| - 1]];
      ValidOnlySnoc(init, ms[|ms| - 1]);
    } else {
      assert ns == ms;
    }
  }

  function Ids(ns: seq<Node>): set<int> {
    set n | n in ns :: n.id
  }

  /** The node half of the reducer's state agrees with the nodes looked at:
      every cached node is what the lookup finds, the cache holds exactly the
      ids looked at, and the output nodes are the valid ones among them, each once. */
  ghost predicate NodesMatch(d: Diagram, cache: map<int, Node>, nodes: seq<Node>, vis: seq<Node>) {
    && CacheAgrees(d, cache)
    && (forall v | v in vis :: FindNode(v.id, d.nodes) == Some(v))
    && cache.Keys == Ids(vis)
    && nodes == ValidOnly(Dedup(vis))
  }

  /** The edge half agrees with the proposed edges: the output edges are
      those with repeats dropped, and the dedup set holds exactly them. */
  ghost predicate EdgesMatch(cachedEdges: set<Edge>, edges: seq<Edge>, cands: seq<Edge>) {
    && edges == Dedup(cands)
    && cachedEdges == set c | c in cands
  }

  ghost predicate Matches(d: Diagram, s: ReduceState, vis: seq<Node>, cands: seq<Edge>) {
    NodesMatch(d, s.cachedNodes, s.nodes, vis) && EdgesMatch(s.cachedEdges, s.edges, cands)
  }

  /** Looking at node `x` once more leaves the node half as it was, since its
      id is cached already. */
  lemma SeeCachedNode(d: Diagram, cache: map<int, Node>, nodes: seq<Node>, vis: seq<Node>, x: Node)
    requires NodesMatch(d, cache, nodes, vis)
    requires FindNode(x.id, d.nodes) == Some(x) && x.id in cache
    ensures NodesMatch(d, cache, nodes, vis + [x])
  {
    var v :| v in vis && v.id == x.id;
    assert v == x;
    DedupSnoc(vis, x);
    assert Ids(vis + [x]) == Ids(vis);
  }

  /** Looking at node `x` for the first time caches it, and outputs it when it is valid. */
  lemma SeeNewNode(d: Diagram, cache: map<int, Node>, nodes: seq<Node>, vis: seq<Node>, x: Node)
    requires NodesMatch(d, cache, nodes, vis)
    requires FindNode(x.id, d.nodes) == Some(x) && x.id !in cache
    ensures NodesMatch(d, cache[x.id := x], if NodeIsValid(x) then nodes + [x] else nodes, vis + [x])
  {
    assert x !in vis by {
      assert x.id !in Ids(vis);
    }
    var cache' := cache[x.id := x];
    assert CacheAgrees(d, cache') by {
      forall k | k in cache' ensures FindNode(k, d.nodes) == Some(cache'[k]) {
        if k != x.id { assert k in cache; }
      }
    }
    assert Ids(vis + [x]) == Ids(vis) + {x.id};
    assert Dedup(vis + [x]) == Dedup(vis) + [x] by {
      DedupSnoc(vis, x);
    }
    ValidOnlySnoc(Dedup(vis), x);
  }

  lemma SeeNodeMatches(d: Diagram, s: ReduceState, vis: seq<Node>, cands: seq<Edge>, x: Node)
    requires Matches(d, s, vis, cands)
    requires FindNode(x.id, d.nodes) == Some(x)
    ensures x.id in s.cachedNodes ==> Matches(d, s, vis + [x], cands)
    ensures x.id !in s.cachedNodes ==>
              Matches(d, s.(cachedNodes := s.cachedNodes[x.id := x],
                            nodes := if NodeIsValid(x) then s.nodes + [x] else s.nodes), vis + [x], cands)
  {
    if x.id in s.cachedNodes {
      SeeCachedNode(d, s.cachedNodes, s.nodes, vis, x);
    } else {
      SeeNewNode(d, s.cachedNodes, s.nodes, vis, x);
    }
  }

  lemma CacheEndpointMatches(d: Diagram, s: ReduceState, vis: seq<Node>, cands: seq<Edge>, p: int)
    requires Matches(d, s, vis, cands)
    ensures CacheEndpoint(d, s, p).Success? <==> FindNode(p, d.nodes).Some?
    ensures FindNode(p, d.nodes).Some? ==>
              Matches(d, CacheEndpoint(d, s, p).value, vis + [FindNode(p, d.nodes).value], cands)
  {
    if FindNode(p, d.nodes).Some? {
      SeeNodeMatches(d, s, vis, cands, FindNode(p, d.nodes).value);
    }
  }

  lemma EndpointsMatch(d: Diagram, s: ReduceState, vis: seq<Node>, cands: seq<Edge>, e: Edge)
    requires Matches(d, s, vis, cands)
    ensures var r := CacheEdgeEnds(d, s, e);
      && (r.Success? <==> FindNode(e.from, d.nodes).Some? && FindNode(e.to, d.nodes).Some?)
      && (r.Success? ==> Matches(d, r.value, vis + [FindNode(e.from, d.nodes).value] + [FindNode(e.to, d.nodes).value], cands))
  {
    CacheEndpointMatches(d, s, vis, cands, e.from);
    if FindNode(e.from, d.nodes).Some? {
      var from := FindNode(e.from, d.nodes).value;
      CacheEndpointMatches(d, CacheEndpoint(d, s, e.from).value, vis + [from], cands, e.to);
    }
  }

  lemma EmitEdgeMatches(d: Diagram, s: ReduceState, vis: seq<Node>, cands: seq<Edge>, newEdge: Edge)
    requires Matches(d, s, vis, cands)
    ensures Matches(d, EmitEdge(s, newEdge), vis, cands + [newEdge])
  {
    DedupSnoc(cands, newEdge);
  }

  lemma CacheTargetMatches(d: Diagram, s: ReduceState, vis: seq<Node>, cands: seq<Edge>, toId: int, t: Node)
    requires Matches(d, s, vis, cands)
    requires FindNode(toId, d.nodes) == Some(t)
    requires toId !in s.cachedNodes ==> NodeIsValid(t)
    ensures CacheTarget(d, s, toId).Success?
    ensures Matches(d, CacheTarget(d, s, toId).value, vis + [t], cands)
  {
    SeeNodeMatches(d, s, vis, cands, t);
    if toId !in s.cachedNodes {
      NodeIsValidExactly(t);
    }
  }

  /** One input edge keeps the reducer's state in agreement with the reference
      sequences, and it goes through exactly when the edge is one it can process. */
  lemma StepMatches(d: Diagram, s: ReduceState, vis: seq<Node>, cands: seq<Edge>, e: Edge)
    requires Matches(d, s, vis, cands)
    ensures Step(d, s, e).Success? <==> EdgeOk(d, e)
    ensures EdgeOk(d, e) ==> Matches(d, Step(d, s, e).value, SeeEdge(d, vis, e), ProposeEdge(d, cands, e))
  {
    EndpointsMatch(d, s, vis, cands, e);
    if FindNode(e.from, d.nodes).None? || FindNode(e.to, d.nodes).None? {
      return;
    }
    var from := FindNode(e.from, d.nodes).value;
    var s2 := CacheEdgeEnds(d, s, e).value;
    var vis2 := vis + [from] + [FindNode(e.to, d.nodes).value];
    assert Step(d, s, e) == Redirect(d, s2, e);
    if !NodeIsValid(from) {
      return;
    }
    WalkCacheIndependent(d, s2.cachedNodes, e.to);
    if Target(d, e).Failure? {
      return;
    }
    var toId := Target(d, e).value;
    var newEdge := Edge(e.from, toId);
    EmitEdgeMatches(d, s2, vis2, cands, newEdge);
    if toId != e.to {
      WalkOutcome(d, e.to);
    }
    CacheTargetMatches(d, EmitEdge(s2, newEdge), vis2, cands + [newEdge], toId, FindNode(toId, d.nodes).value);
  }

  /** One more input edge: the reducer goes on from the state after the previous ones. */
  lemma ReducePrefixUnfold(d: Diagram, n: nat)
    requires 0 < n <= |d.edges|
    ensures ReducePrefix(d, n) == match ReducePrefix(d, n - 1)
                                  case Failure(err) => Failure(err)
                                  case Success(s) => Step(d, s, d.edges[n - 1])
  {
  }

  /** The reducer gets through the first `n` edges exactly when each of them is
      one it can process, and its state then agrees with the reference sequences. */
  lemma {:induction false} ReducePrefixMatches(d: Diagram, n: nat)
    requires n <= |d.edges|
    ensures ReducePrefix(d, n).Success? <==> AllEdgesOk(d, n)
    ensures AllEdgesOk(d, n) ==> Matches(d, ReducePrefix(d, n).value, Visited(d, n), Candidates(d, n))
  {
    if n == 0 {
      assert Matches(d, EMPTY_STATE, [], []);
    } else {
      ReducePrefixMatches(d, n - 1);
      assert AllEdgesOk(d, n - 1) ==> Matches(d, ReducePrefix(d, n - 1).value, Visited(d, n - 1), Candidates(d, n - 1));
      if AllEdgesOk(d, n - 1) {
        var s := ReducePrefix(d, n - 1).value;
        var vis := Visited(d, n - 1);
        var cands := Candidates(d, n - 1);
        assert Matches(d, s, vis, cands);
        StepMatches(d, s, vis, cands, d.edges[n - 1]);
        ReducePrefixUnfold(d, n);
        assert ReducePrefix(d, n) == Step(d, s, d.edges[n - 1]);
        assert ReducePrefix(d, n).Success? <==> AllEdgesOk(d, n);
        if AllEdgesOk(d, n) {
          assert Visited(d, n) == SeeEdge(d, vis, d.edges[n - 1]);
          assert Candidates(d, n) == ProposeEdge(d, cands, d.edges[n - 1]);
          assert Matches(d, ReducePrefix(d, n).value, Visited(d, n), Candidates(d, n));
        }
      } else {
        ReducePrefixUnfold(d, n);
      }
    }
  }

  lemma {:induction false} AllEdgesOkEach(d: Diagram, n: nat)
    requires n <= |d.edges| && AllEdgesOk(d, n)
    ensures forall i | 0 <= i < n :: EdgeOk(d, d.edges[i])
  {
    if n > 0 {
      AllEdgesOkEach(d, n - 1);
      forall i | 0 <= i < n ensures EdgeOk(d, d.edges[i]) {
        if i == n - 1 {
          assert AllEdgesOk(d, n) == (AllEdgesOk(d, n - 1) && EdgeOk(d, d.edges[n - 1]));
        }
      }
    }
  }

  lemma {:induction false} EachEdgeOkAll(d: Diagram, n: nat)
    requires n <= |d.edges|
    requires forall i | 0 <= i < n :: EdgeOk(d, d.edges[i])
    ensures AllEdgesOk(d, n)
  {
    if n > 0 {
      EachEdgeOkAll(d, n - 1);
    }
  }

  /** The whole reduction, stated without caches: it succeeds exactly when every
      input edge is one it can process, and then its nodes are the valid nodes
      looked at, each once, and its edges the proposed edges, each once. */
  lemma ReduceCharacterised(d: Diagram)
    ensures Reduce(d).Success? <==> forall e | e in d.edges :: EdgeOk(d, e)
    ensures Reduce(d).Success? ==>
              && AllEdgesOk(d, |d.edges|)
              && Reduce(d).value == Diagram(ValidOnly(Dedup(Visited(d, |d.edges|))), Dedup(Candidates(d, |d.edges|)))
  {
    ReduceIsFold(d);
    ReducePrefixMatches(d, |d.edges|);
    if AllEdgesOk(d, |d.edges|) {
      AllEdgesOkEach(d, |d.edges|);
    }
    if forall e | e in d.edges :: EdgeOk(d, e) {
      EachEdgeOkAll(d, |d.edges|);
    }
  }

  /** Input edge `e` makes the reducer propose output edge `c`: `e` leaves a
      valid node, and `c` keeps its origin and points at its target, past a
      ServiceTask to the valid node the walk reaches. */
  ghost predicate Proposes(d: Diagram, e: Edge, c: Edge) {
    && FindNode(e.from, d.nodes).Some?
    && FindNode(e.to, d.nodes).Some?
    && NodeIsValid(FindNode(e.from, d.nodes).value)
    && Target(d, e).Success?
    && c == Edge(e.from, Target(d, e).value)
  }

  /** Processing input edge `e` looks at node `v`: one of its endpoints, or the
      node its output copy points at. */
  ghost predicate Sees(d: Diagram, e: Edge, v: Node) {
    || FindNode(e.from, d.nodes) == Some(v)
    || FindNode(e.to, d.nodes) == Some(v)
    || (&& FindNode(e.from, d.nodes).Some?
        && FindNode(e.to, d.nodes).Some?
        && NodeIsValid(FindNode(e.from, d.nodes).value)
        && Target(d, e).Success?
        && FindNode(Target(d, e).value, d.nodes) == Some(v))
  }

  lemma ProposeEdgeProposes(d: Diagram, cands: seq<Edge>, e: Edge)
    requires EdgeOk(d, e)
    ensures forall c :: c in ProposeEdge(d, cands, e) <==> c in cands || Proposes(d, e, c)
  {
  }

  lemma SeeEdgeSees(d: Diagram, vis: seq<Node>, e: Edge)
    requires EdgeOk(d, e)
    ensures forall v :: v in SeeEdge(d, vis, e) <==> v in vis || Sees(d, e, v)
  {
  }

  lemma {:induction false} CandidatesAre(d: Diagram, n: nat)
    requires n <= |d.edges| && AllEdgesOk(d, n)
    ensures forall c :: c in Candidates(d, n) <==> exists i | 0 <= i < n :: Proposes(d, d.edges[i], c)
  {
    if n > 0 {
      CandidatesAre(d, n - 1);
      var e := d.edges[n - 1];
      var cands := Candidates(d, n - 1);
      assert Candidates(d, n) == ProposeEdge(d, cands, e);
      ProposeEdgeProposes(d, cands, e);
      forall c ensures c in Candidates(d, n) <==> exists i | 0 <= i < n :: Proposes(d, d.edges[i], c) {
        if c in cands {
          var i :| 0 <= i < n - 1 && Proposes(d, d.edges[i], c);
        }
        if i :| 0 <= i < n - 1 && Proposes(d, d.edges[i], c) {
          assert c in cands;
        }
      }
    }
  }

  lemma {:induction false} VisitedAre(d: Diagram, n: nat)
    requires n <= |d.edges| && AllEdgesOk(d, n)
    ensures forall v :: v in Visited(d, n) <==> exists i | 0 <= i < n :: Sees(d, d.edges[i], v)
  {
    if n > 0 {
      VisitedAre(d, n - 1);
      var e := d.edges[n - 1];
      var vis := Visited(d, n - 1);
      assert Visited(d, n) == SeeEdge(d, vis, e);
      SeeEdgeSees(d, vis, e);
      forall v ensures v in Visited(d, n) <==> exists i | 0 <= i < n :: Sees(d, d.edges[i], v) {
        if v in vis {
          var i :| 0 <= i < n - 1 && Sees(d, d.edges[i], v);
        }
        if i :| 0 <= i < n - 1 && Sees(d, d.edges[i], v) {
          assert v in vis;
        }
      }
    }
  }

  /** An output edge leaves a valid node the reducer looked at, and never
      points at a ServiceTask: its target is a node of some other kind,
      looked at too. */
  lemma ProposedEdgeShape(d: Diagram, e: Edge, c: Edge)
    requires Proposes(d, e, c)
    ensures FindNode(c.from, d.nodes).Some? && NodeIsValid(FindNode(c.from, d.nodes).value)
    ensures Sees(d, e, FindNode(c.from, d.nodes).value)
    ensures FindNode(c.to, d.nodes).Some? && FindNode(c.to, d.nodes).value.kind != SERVICE_TASK
    ensures Sees(d, e, FindNode(c.to, d.nodes).value)
  {
    var to := FindNode(e.to, d.nodes).value;
    if to.kind == SERVICE_TASK {
      WalkOutcome(d, e.to);
      NodeIsValidExactly(FindNode(c.to, d.nodes).value);
    }
  }

  /** The output edges: exactly the edges the input edges propose, each once,
      each leaving a valid output node and none pointing at a ServiceTask. */
  lemma ReduceEdges(d: Diagram)
    requires Reduce(d).Success?
    ensures var r := Reduce(d).value;
      && Distinct(r.edges)
      && (forall c :: c in r.edges <==> exists i | 0 <= i < |d.edges| :: Proposes(d, d.edges[i], c))
      && (forall c | c in r.edges ::
            && FindNode(c.from, d.nodes).Some?
            && FindNode(c.from, d.nodes).value in r.nodes
            && FindNode(c.to, d.nodes).Some?
            && FindNode(c.to, d.nodes).value.kind != SERVICE_TASK
            && (NodeIsValid(FindNode(c.to, d.nodes).value) ==> FindNode(c.to, d.nodes).value in r.nodes))
  {
    ReduceCharacterised(d);
    var n := |d.edges|;
    var r := Reduce(d).value;
    DedupDistinct(Candidates(d, n));
    CandidatesAre(d, n);
    VisitedAre(d, n);
    forall c | c in r.edges
      ensures && FindNode(c.from, d.nodes).Some?
              && FindNode(c.from, d.nodes).value in r.nodes
              && FindNode(c.to, d.nodes).Some?
              && FindNode(c.to, d.nodes).value.kind != SERVICE_TASK
              && (NodeIsValid(FindNode(c.to, d.nodes).value) ==> FindNode(c.to, d.nodes).value in r.nodes)
    {
      var i :| 0 <= i < n && Proposes(d, d.edges[i], c);
      ProposedEdgeShape(d, d.edges[i], c);
    }
  }

  /** The output nodes: exactly the valid nodes the reducer looks at, each
      one a node of the input. */
  lemma ReduceNodes(d: Diagram)
    requires Reduce(d).Success?
    ensures var r := Reduce(d).value;
      && (forall v :: v in r.nodes <==> NodeIsValid(v) && exists i | 0 <= i < |d.edges| :: Sees(d, d.edges[i], v))
      && (forall v | v in r.nodes :: v in d.nodes)
  {
    var n := |d.edges|;
    var r := Reduce(d).value;
    ReduceCharacterised(d);
    var vis := Visited(d, n);
    assert forall v :: v in r.nodes <==> NodeIsValid(v) && v in vis;
    VisitedAre(d, n);
    forall v | v in r.nodes ensures v in d.nodes {
      var i :| 0 <= i < n && Sees(d, d.edges[i], v);
    }
  }

  /** No two output nodes carry one id. */
  lemma ReduceNodeIdsDistinct(d: Diagram)
    requires Reduce(d).Success?
    ensures var r := Reduce(d).value;
      forall i, j | 0 <= i < j < |r.nodes| :: r.nodes[i].id != r.nodes[j].id
  {
    var r := Reduce(d).value;
    assert Distinct(r.nodes) by {
      ReduceCharacterised(d);
      DedupDistinct(Visited(d, |d.edges|));
      ValidOnlyDistinct(Dedup(Visited(d, |d.edges|)));
    }
    forall v | v in r.nodes ensures FindNode(v.id, d.nodes) == Some(v) {
      ReduceNodes(d);
      var i :| 0 <= i < |d.edges| && Sees(d, d.edges[i], v);
    }
    forall i, j | 0 <= i < j < |r.nodes| ensures r.nodes[i].id != r.nodes[j].id {
      assert r.nodes[i] in r.nodes && r.nodes[j] in r.nodes;
    }
  }

  /** The reference sequences for a prefix of the input edges are prefixes of
      those for the whole input. */
  lemma {:induction false} ReferencePrefix(d: Diagram, m: nat, n: nat)
    requires m <= n <= |d.edges| && AllEdgesOk(d, n)
    ensures AllEdgesOk(d, m)
    ensures Visited(d, m) <= Visited(d, n)
    ensures Candidates(d, m) <= Candidates(d, n)
    decreases n
  {
    if m < n {
      ReferencePrefix(d, m, n - 1);
      var e := d.edges[n - 1];
      assert Visited(d, n) == SeeEdge(d, Visited(d, n - 1), e);
      assert Candidates(d, n) == ProposeEdge(d, Candidates(d, n - 1), e);
    }
  }

  /** Reducing more input edges only appends to the output edges and nodes. */
  lemma OutputPrefix(d: Diagram, b: nat)
    requires Reduce(d).Success?
    requires b <= |d.edges|
    ensures AllEdgesOk(d, b)
    ensures Dedup(Candidates(d, b)) <= Reduce(d).value.edges
    ensures ValidOnly(Dedup(Visited(d, b))) <= Reduce(d).value.nodes
  {
    var n := |d.edges|;
    ReduceCharacterised(d);
    ReferencePrefix(d, b, n);
    DedupPrefix(Candidates(d, b), Candidates(d, n));
    DedupPrefix(Visited(d, b), Visited(d, n));
    ValidOnlyPrefix(Dedup(Visited(d, b)), Dedup(Visited(d, n)));
  }

  /** The output edges keep the order of the input edges: for every position
      `b`, the edges proposed by the input edges before `b` form a prefix of
      the output edges. */
  lemma ReduceEdgesInOrder(d: Diagram, b: nat)
    requires Reduce(d).Success?
    requires b <= |d.edges|
    ensures var r := Reduce(d).value;
      exists k | 0 <= k <= |r.edges| ::
        forall c :: c in r.edges[..k] <==> exists i | 0 <= i < b :: Proposes(d, d.edges[i], c)
  {
    OutputPrefix(d, b);
    var out := Reduce(d).value.edges;
    var pre := Dedup(Candidates(d, b));
    assert out[..|pre|] == pre;
    forall c ensures c in pre <==> exists i | 0 <= i < b :: Proposes(d, d.edges[i], c) {
      CandidatesAre(d, b);
      assert c in pre <==> c in Candidates(d, b);
    }
  }

  /** The output nodes keep the order of the input edges: for every position
      `b`, the valid nodes the input edges before `b` look at form a prefix of
      the output nodes. */
  lemma ReduceNodesInOrder(d: Diagram, b: nat)
    requires Reduce(d).Success?
    requires b <= |d.edges|
    ensures var r := Reduce(d).value;
      exists k | 0 <= k <= |r.nodes| ::
        forall v :: v in r.nodes[..k] <==> NodeIsValid(v) && exists i | 0 <= i < b :: Sees(d, d.edges[i], v)
  {
    OutputPrefix(d, b);
    var out := Reduce(d).value.nodes;
    var pre := ValidOnly(Dedup(Visited(d, b)));
    assert out[..|pre|] == pre;
    forall v ensures v in pre <==> NodeIsValid(v) && exists i | 0 <= i < b :: Sees(d, d.edges[i], v) {
      VisitedAre(d, b);
      assert v in pre <==> NodeIsValid(v) && v in Visited(d, b);
    }
  }

  /** An edge between two valid nodes goes through unchanged: it proposes
      itself, and looks at its two endpoints only. */
  lemma ValidEdgeKept(d: Diagram, e: Edge)
    requires FindNode(e.from, d.nodes).Some? && NodeIsValid(FindNode(e.from, d.nodes).value)
    requires FindNode(e.to, d.nodes).Some? && NodeIsValid(FindNode(e.to, d.nodes).value)
    ensures EdgeOk(d, e)
    ensures forall c :: Proposes(d, e, c) <==> c == e
    ensures forall v :: Sees(d, e, v) <==> FindNode(e.from, d.nodes) == Some(v) || FindNode(e.to, d.nodes) == Some(v)
  {
    NodeIsValidExactly(FindNode(e.to, d.nodes).value);
    assert Target(d, e) == Success(e.to);
  }

  /** A diagram whose nodes are all valid and whose edges all resolve: the
      shape the reducer's own output has when every edge points at a known node. */
  ghost predicate AlreadyReduced(d: Diagram) {
    && (forall v | v in d.nodes :: NodeIsValid(v))
    && (forall e | e in d.edges :: FindNode(e.from, d.nodes).Some? && FindNode(e.to, d.nodes).Some?)
  }

  /** Reducing an already reduced diagram keeps every edge and drops only repeated ones. */
  lemma ReduceReducedEdges(d: Diagram)
    requires AlreadyReduced(d)
    ensures Reduce(d).Success?
    ensures forall c :: c in Reduce(d).value.edges <==> c in d.edges
  {
    assert Reduce(d).Success? by {
      forall e | e in d.edges ensures EdgeOk(d, e) {
        ValidEdgeKept(d, e);
      }
      ReduceCharacterised(d);
    }
    var r := Reduce(d).value;
    forall c ensures c in r.edges <==> c in d.edges {
      ReduceEdges(d);
      if c in d.edges {
        var i :| 0 <= i < |d.edges| && d.edges[i] == c;
        ValidEdgeKept(d, d.edges[i]);
      }
      if c in r.edges {
        var i :| 0 <= i < |d.edges| && Proposes(d, d.edges[i], c);
        ValidEdgeKept(d, d.edges[i]);
      }
    }
  }

  lemma ReducedNodeTouched(d: Diagram, v: Node)
    requires AlreadyReduced(d) && Reduce(d).Success?
    requires v in Reduce(d).value.nodes
    ensures exists e | e in d.edges :: FindNode(e.from, d.nodes) == Some(v) || FindNode(e.to, d.nodes) == Some(v)
  {
    ReduceNodes(d);
    var i :| 0 <= i < |d.edges| && Sees(d, d.edges[i], v);
    ValidEdgeKept(d, d.edges[i]);
  }

  lemma TouchedNodeReduced(d: Diagram, e: Edge, v: Node)
    requires AlreadyReduced(d) && Reduce(d).Success?
    requires e in d.edges && (FindNode(e.from, d.nodes) == Some(v) || FindNode(e.to, d.nodes) == Some(v))
    ensures v in Reduce(d).value.nodes
  {
    ReduceNodes(d);
    var i :| 0 <= i < |d.edges| && d.edges[i] == e;
    ValidEdgeKept(d, e);
    assert Sees(d, d.edges[i], v);
  }

  /** Reducing an already reduced diagram keeps exactly the nodes some edge
      touches (and so drops a node no edge touches). */
  lemma ReduceReducedNodes(d: Diagram)
    requires AlreadyReduced(d)
    ensures Reduce(d).Success?
    ensures forall v :: v in Reduce(d).value.nodes <==>
              exists e | e in d.edges :: FindNode(e.from, d.nodes) == Some(v) || FindNode(e.to, d.nodes) == Some(v)
  {
    ReduceReducedEdges(d);
    forall v ensures v in Reduce(d).value.nodes <==>
        exists e | e in d.edges :: FindNode(e.from, d.nodes) == Some(v) || FindNode(e.to, d.nodes) == Some(v)
    {
      if v in Reduce(d).value.nodes {
        ReducedNodeTouched(d, v);
      }
      if e :| e in d.edges && (FindNode(e.from, d.nodes) == Some(v) || FindNode(e.to, d.nodes) == Some(v)) {
        TouchedNodeReduced(d, e, v);
      }
    }
  }

  /** A node that no input edge touches, at either end, is not output, even when it is valid:
      the output target of a kept edge is always some input edge's `to`. */
  lemma UntouchedNodeDropped(d: Diagram, v: Node)
    requires Reduce(d).Success?
    requires forall e | e in d.edges :: FindNode(e.from, d.nodes) != Some(v) && FindNode(e.to, d.nodes) != Some(v)
    ensures v !in Reduce(d).value.nodes
  {
    forall i | 0 <= i < |d.edges| ensures !Sees(d, d.edges[i], v) {
      var e := d.edges[i];
      assert e in d.edges;
      if && FindNode(e.from, d.nodes).Some? && FindNode(e.to, d.nodes).Some?
         && NodeIsValid(FindNode(e.from, d.nodes).value) && Target(d, e).Success?
      {
        var t := Target(d, e).value;
        if t != e.to {
          WalkOutcome(d, e.to);
          var k :| k >= 1 && Hop(d.edges, e.to, k) == t && PassesThrough(d, e.to, k - 1)
                   && t >= 0 && FindNode(t, d.nodes).Some? && NodeIsValid(FindNode(t, d.nodes).value);
          assert t in Targets(d.edges);
          var e2 :| e2 in d.edges && e2.to == t;
        }
      }
    }
    ReduceNodes(d);
  }

  /** The smallest case: a diagram of one valid node and no edges reduces to
      the empty diagram, so reducing is not the identity on a diagram that has
      no ServiceTask. */
  lemma IsolatedNodeDropped()
    ensures Reduce(Diagram([Node(1, "Begin", START)], [])) == Success(Diagram([], []))
  {
  }
}
