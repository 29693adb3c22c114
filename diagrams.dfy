/** The diagram data model and the node index: what a process diagram is,
    which node kinds a human operator sees, and lookup of a node by its id. */
module Diagrams {

  datatype Option<+T> = None | Some(value: T)

  /** The ways a reduction can stop short of a result. */
  datatype Error =
    | NodeNotFound(id: int)        // an id that no node of the diagram carries
    | IncompletePath(start: int)   // a walk that ran out of edges before a valid node
    | CycleDetected(start: int)    // a walk that came back to a node it had passed

  datatype Result<+T> = Success(value: T) | Failure(error: Error)

  /** A node; `kind` holds the diagram's `type` string as it was read. */
  datatype Node = Node(id: int, name: string, kind: string)

  datatype Edge = Edge(from: int, to: int)

  datatype Diagram = Diagram(nodes: seq<Node>, edges: seq<Edge>)

  const START := "Start"
  const HUMAN_TASK := "HumanTask"
  const SERVICE_TASK := "ServiceTask"
  const GATEWAY := "Gateway"
  const END := "End"

  /** A node is kept for the human operator when its kind is one of four;
      a ServiceTask and every kind the reducer does not know are not. */
  predicate NodeIsValid(n: Node) {
    match n.kind
    case "HumanTask" => true
    case "Gateway" => true
    case "Start" => true
    case "End" => true
    case _ => false
  }

  lemma NodeIsValidExactly(n: Node)
    ensures NodeIsValid(n) <==> n.kind in {START, HUMAN_TASK, GATEWAY, END}
    ensures n.kind == SERVICE_TASK ==> !NodeIsValid(n)
    ensures n.kind == "Test Type" ==> !NodeIsValid(n)
  {
  }

  /** `k` is the first position of `nodes` holding a node with this id. */
  predicate IsFirstWithId(nodes: seq<Node>, id: int, k: int) {
    0 <= k < |nodes| && nodes[k].id == id && forall j | 0 <= j < k :: nodes[j].id != id
  }

  /** The linear scan of the node sequence: the first node carrying `id`. */
  function ScanNodes(id: int, nodes: seq<Node>): (r: Option<Node>)
    ensures r.Some? ==> r.value in nodes && r.value.id == id
    ensures r.None? ==> forall n | n in nodes :: n.id != id
  {
    if nodes == [] then None
    else if nodes[0].id == id then Some(nodes[0])
    else ScanNodes(id, nodes[1..])
  }

  /** The scan finds the first node, in sequence order, carrying the id. */
  lemma {:induction false} ScanNodesIsFirst(id: int, nodes: seq<Node>, k: int)
    requires IsFirstWithId(nodes, id, k)
    ensures ScanNodes(id, nodes) == Some(nodes[k])
  {
    if k > 0 {
      assert IsFirstWithId(nodes[1..], id, k - 1);
      ScanNodesIsFirst(id, nodes[1..], k - 1);
    }
  }

  /** Node lookup by id: the node at position `id` when it carries that id,
      otherwise the first node that does; None when no node does. */
  function FindNode(id: int, nodes: seq<Node>): (r: Option<Node>)
    ensures r.Some? ==> r.value in nodes && r.value.id == id
    ensures r.None? <==> forall n | n in nodes :: n.id != id
  {
    if 0 <= id < |nodes| && nodes[id].id == id then Some(nodes[id])
    else ScanNodes(id, nodes)
  }

  /** Ids identify nodes: two nodes of the sequence with one id are the same node. */
  ghost predicate IdsIdentifyNodes(nodes: seq<Node>) {
    forall a, b | a in nodes && b in nodes && a.id == b.id :: a == b
  }

  /** When ids identify nodes, the lookup finds THE node with that id, whatever its position. */
  lemma FindNodeFindsTheNode(id: int, nodes: seq<Node>, n: Node)
    requires IdsIdentifyNodes(nodes)
    ensures FindNode(id, nodes) == Some(n) <==> n in nodes && n.id == id
  {
  }

  /** The lookup does not depend on the order of the node sequence. */
  lemma FindNodeOrderIndependent(id: int, a: seq<Node>, b: seq<Node>)
    requires multiset(a) == multiset(b)
    requires IdsIdentifyNodes(a)
    ensures FindNode(id, a) == FindNode(id, b)
  {
    assert forall n :: n in a <==> n in multiset(a);
    assert forall n :: n in b <==> n in multiset(b);
    if n :| n in a && n.id == id {
      FindNodeFindsTheNode(id, a, n);
      FindNodeFindsTheNode(id, b, n);
    }
  }
}
