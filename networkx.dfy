/**
 * The part of networkx's graph classes that the pipeline uses: nodes carrying
 * an optional `label` attribute, added with `add_node` and, implicitly, by
 * `add_edge`, which creates a missing endpoint without attributes.
 */
module Networkx {
  import opened Wrappers

  /** The node map after `add_edge` has made sure `n` exists: an existing node keeps its label. */
  function EnsureNode<N>(nodes: map<N, Option<string>>, n: N): (r: map<N, Option<string>>)
  {
    if n in nodes then nodes else nodes[n := None]
  }

  /** Every edge joins two nodes. */
  ghost predicate Joined<N>(nodes: map<N, Option<string>>, edges: set<(N, N)>)
  {
    forall e :: e in edges ==> e.0 in nodes && e.1 in nodes
  }

  /** Every edge is there in both orientations. */
  ghost predicate Symmetric<N>(edges: set<(N, N)>)
  {
    forall e :: e in edges ==> (e.1, e.0) in edges
  }

  /** `add_node` keeps every edge between nodes. */
  lemma {:induction false} AddNodeKeepsJoined<N>(nodes: map<N, Option<string>>, edges: set<(N, N)>, n: N, name: string)
    requires Joined(nodes, edges)
    ensures Joined(nodes[n := Some(name)], edges)
  {
  }

  /** `add_edge` keeps every edge between nodes, because it creates missing endpoints. */
  lemma {:induction false} AddEdgeKeepsJoined<N>(nodes: map<N, Option<string>>, edges: set<(N, N)>, u: N, v: N)
    requires Joined(nodes, edges)
    ensures Joined(EnsureNode(EnsureNode(nodes, u), v), edges + {(u, v)})
  {
  }

  /** `add_edge` on an undirected graph keeps adjacency symmetric. */
  lemma {:induction false} AddUndirectedKeepsSymmetric<N>(edges: set<(N, N)>, u: N, v: N)
    requires Symmetric(edges)
    ensures Symmetric(edges + {(u, v), (v, u)})
  {
  }

  /** `networkx.DiGraph`, keyed by strings. */
  class DiGraph {
    var nodes: map<string, Option<string>>
    var edges: set<(string, string)>

    /** Every edge joins two nodes. */
    ghost predicate Valid()
      reads this
    {
      Joined(nodes, edges)
    }

    constructor ()
      ensures Valid()
      ensures nodes == map[] && edges == {}
    {
      nodes := map[];
      edges := {};
    }

    /** `add_node(n, label=name)`: creates `n` or overwrites its label. */
    method AddNode(n: string, name: string)
      modifies this
      ensures nodes == old(nodes)[n := Some(name)]
      ensures edges == old(edges)
      ensures old(Valid()) ==> Valid()
    {
      if Valid() {
        AddNodeKeepsJoined(nodes, edges, n, name);
      }
      nodes := nodes[n := Some(name)];
    }

    /** `add_edge(u, v)`: adds the directed edge and any missing endpoint. */
    method AddEdge(u: string, v: string)
      modifies this
      ensures nodes == EnsureNode(EnsureNode(old(nodes), u), v)
      ensures edges == old(edges) + {(u, v)}
      ensures old(Valid()) ==> Valid()
    {
      if Valid() {
        AddEdgeKeepsJoined(nodes, edges, u, v);
      }
      nodes := EnsureNode(EnsureNode(nodes, u), v);
      edges := edges + {(u, v)};
    }
  }

  /** `networkx.Graph`, keyed by integers; an undirected edge is stored in both orientations. */
  class Graph {
    var nodes: map<int, Option<string>>
    var adj: set<(int, int)>

    /** Every edge joins two nodes, and adjacency is symmetric. */
    ghost predicate Valid()
      reads this
    {
      Joined(nodes, adj) && Symmetric(adj)
    }

    constructor ()
      ensures Valid()
      ensures nodes == map[] && adj == {}
    {
      nodes := map[];
      adj := {};
    }

    /** `add_node(n, label=name)`: creates `n` or overwrites its label. */
    method AddNode(n: int, name: string)
      modifies this
      ensures nodes == old(nodes)[n := Some(name)]
      ensures adj == old(adj)
      ensures old(Valid()) ==> Valid()
    {
      if Valid() {
        AddNodeKeepsJoined(nodes, adj, n, name);
      }
      nodes := nodes[n := Some(name)];
    }

    /** `add_edge(u, v)`: adds the undirected edge `{u, v}` and any missing endpoint. */
    method AddEdge(u: int, v: int)
      modifies this
      ensures nodes == EnsureNode(EnsureNode(old(nodes), u), v)
      ensures adj == old(adj) + {(u, v), (v, u)}
      ensures old(Valid()) ==> Valid()
    {
      if Valid() {
        AddEdgeKeepsJoined(nodes, adj, u, v);
        AddEdgeKeepsJoined(EnsureNode(EnsureNode(nodes, u), v), adj + {(u, v)}, v, u);
        AddUndirectedKeepsSymmetric(adj, u, v);
      }
      nodes := EnsureNode(EnsureNode(nodes, u), v);
      adj := adj + {(u, v), (v, u)};
    }
  }
}
