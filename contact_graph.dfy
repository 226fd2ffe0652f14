/**
 The contact network, given as adjacency lists over the nodes 0 .. N-1
 (`adj[u]` lists the neighbours of node `u`). The network is generated
 elsewhere and never changes during a run; here it is only required to be an
 undirected simple graph.
 */
module ContactGraph {

  /** Every neighbour is a node of the graph. */
  predicate NeighboursInRange(adj: seq<seq<nat>>) {
    forall u, j :: 0 <= u < |adj| && 0 <= j < |adj[u]| ==> adj[u][j] < |adj|
  }

  /** Undirected simple graph: neighbours in range, no self-loops, no parallel edges, symmetric. */
  predicate ValidGraph(adj: seq<seq<nat>>) {
    NeighboursInRange(adj) &&
    (forall u, j :: 0 <= u < |adj| && 0 <= j < |adj[u]| ==> adj[u][j] != u) &&
    (forall u, i, j :: 0 <= u < |adj| && 0 <= i < j < |adj[u]| ==> adj[u][i] != adj[u][j]) &&
    (forall u, j :: 0 <= u < |adj| && 0 <= j < |adj[u]| ==> u in adj[adj[u][j]])
  }
}
