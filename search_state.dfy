/** The state of the search in `encontrarRutaMasRapida` and the invariants
    it keeps: distances, predecessor links, expansion order and the queue. */
module SearchState {
  import opened Text
  import opened Graphs

  /** The "not reached" distance: `Integer.MAX_VALUE`. */
  const INF := INT_MAX

  /** The distances before the search: `MAX_VALUE` for every node, 0 for the origin. */
  ghost function InitialDistances(g: Graph, src: string): map<string, int>
  {
    map v | v in Nodes(g) :: if v == src then 0 else INF
  }

  /** Every origin and every edge destination has a distance entry. */
  ghost predicate Closed(g: Graph, d: map<string, int>)
  {
    forall k {:trigger k in g} :: k in g ==> k in d && forall e {:trigger e in g[k]} :: e in g[k] ==> e.locEnd in d
  }

  /** A node with a distance: the distance lies in `[0, INF]`, and once the
      node is reached it has a predecessor link unless it is the origin. */
  ghost predicate Reached(src: string, d: map<string, int>, pred: map<string, string>, v: string)
    requires v in d
  {
    0 <= d[v] <= INF && (v != src && d[v] < INF ==> v in pred)
  }

  /** An expanded node has a distance and a rank below `next`. */
  ghost predicate Expanded(d: map<string, int>, rank: map<string, nat>, next: nat, s: string)
  {
    s in d && s in rank && rank[s] < next
  }

  /** The link stored for `v`: an expanded node `pred[v]` whose edge `via[v]`
      leads to `v`, `v`'s distance exactly that edge's time more than its
      predecessor's, and, if `v` is expanded too, its predecessor was
      expanded before it. */
  ghost predicate Linked(g: Graph, d: map<string, int>, pred: map<string, string>, via: map<string, Edge>,
                         S: set<string>, rank: map<string, nat>, v: string)
    requires v in pred
  {
    && v in d && pred[v] in S && pred[v] in d && pred[v] in g && v in via
    && via[v] in g[pred[v]] && via[v].locEnd == v && d[v] == d[pred[v]] + via[v].time
    && (v in S && v in rank && pred[v] in rank ==> rank[pred[v]] < rank[v])
  }

  /** The shortest-path tree built so far: the origin at distance 0 without
      a predecessor, every reached node linked back towards it. `S` holds
      the nodes already expanded, in the order `rank` numbers them; `via[v]`
      is the edge that set `d[v]`, leaving `pred[v]`. */
  ghost predicate Tree(g: Graph, src: string, d: map<string, int>, pred: map<string, string>,
                       via: map<string, Edge>, S: set<string>, rank: map<string, nat>, next: nat)
  {
    && Closed(g, d) && src in d && d[src] == 0 && src !in pred
    && (forall v {:trigger Reached(src, d, pred, v)} :: v in d ==> Reached(src, d, pred, v))
    && (forall s {:trigger Expanded(d, rank, next, s)} :: s in S ==> Expanded(d, rank, next, s))
    && (forall v :: v in pred ==> Linked(g, d, pred, via, S, rank, v))
  }

  /** A queue entry: at least its node's distance, below `INF`, at least
      `lo`, the distance last expanded, and stale if its node is expanded. */
  ghost predicate Entry(d: map<string, int>, S: set<string>, lo: int, p: (string, int))
  {
    p.0 in d && d[p.0] <= p.1 < INF && lo <= p.1 && (p.0 in S ==> d[p.0] < p.1)
  }

  /** A node reached but not expanded has its current distance queued; an
      expanded node is no farther than `lo`. */
  ghost predicate Queued(d: map<string, int>, pq: set<(string, int)>, S: set<string>, lo: int, v: string)
    requires v in d
  {
    (v !in S && d[v] < INF ==> (v, d[v]) in pq) && (v in S ==> d[v] <= lo)
  }

  /** The queue, entry by entry and node by node. */
  ghost predicate Queue(d: map<string, int>, pq: set<(string, int)>, S: set<string>, lo: int)
  {
    && (forall p :: p in pq ==> Entry(d, S, lo, p))
    && (forall v :: v in d ==> Queued(d, pq, S, lo, v))
  }

  /** The loop invariant of the search: the tree, the queue, and the
      destination not yet expanded. */
  ghost predicate Core(g: Graph, src: string, dst: string, d: map<string, int>, pred: map<string, string>,
                       via: map<string, Edge>, pq: set<(string, int)>,
                       S: set<string>, rank: map<string, nat>, next: nat, lo: int)
  {
    && Tree(g, src, d, pred, via, S, rank, next)
    && dst in d && dst !in S
    && Queue(d, pq, S, lo)
  }

  /** No edge out of an expanded node can shorten any distance. */
  ghost predicate Settled(g: Graph, d: map<string, int>, S: set<string>)
    requires Closed(g, d)
  {
    forall u, e {:trigger e in g[u]} :: u in S && u in g && e in g[u] ==> d[e.locEnd] <= d[u] + e.time
  }

  /** The first `i` edges of `u` can no longer improve anything. */
  ghost predicate EdgesDone(d: map<string, int>, edges: seq<Edge>, du: int, i: int)
    requires 0 <= i <= |edges|
  {
    forall j :: 0 <= j < i ==> edges[j].locEnd in d && d[edges[j].locEnd] <= du + edges[j].time
  }
}
