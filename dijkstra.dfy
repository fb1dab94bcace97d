/** The search inside `encontrarRutaMasRapida`: Dijkstra's algorithm over the
    adjacency map with a priority queue of (node, distance) entries, stale
    entries skipped on poll, an early stop at the destination, and the route
    rebuilt by following predecessors back from the destination. */
module Dijkstra {
  import opened Options
  import opened Text
  import opened Graphs
  import opened SearchState

  /** A non-empty queue has an entry no larger than any other: what `poll` returns. */
  lemma {:induction false} MinEntry(pq: set<(string, int)>) returns (m: (string, int))
    requires |pq| > 0
    ensures m in pq && forall q :: q in pq ==> m.1 <= q.1
    decreases |pq|
  {
    var x :| x in pq;
    var rest := pq - {x};
    if |rest| == 0 {
      m := x;
      assert pq == rest + {x};
    } else {
      var r := MinEntry(rest);
      assert pq == rest + {x};
      m := if x.1 <= r.1 then x else r;
    }
  }

  /** Every walk from `a` that ends outside `S` passes a node outside `S`
      whose distance is at most `d[a]` plus the walk's time. */
  lemma {:induction false} ReachesUnsettled(g: Graph, d: map<string, int>, S: set<string>,
                                            p: seq<Edge>, a: string, b: string) returns (x: string)
    requires NonNegative(g) && Closed(g, d) && a in d
    requires Settled(g, d, S) && IsPath(g, p, a, b) && b !in S
    ensures x in d && x !in S && d[x] <= d[a] + Weight(p)
    decreases |p|
  {
    if a !in S {
      x := a;
      WeightNonNegative(g, p, a, b);
    } else {
      var e := p[0];
      x := ReachesUnsettled(g, d, S, p[1..], e.locEnd, b);
    }
  }

  /** When the destination is polled with its current distance, no walk from
      the origin to it is shorter: the early `break` is sound. */
  lemma OptimalAtPop(g: Graph, src: string, dst: string, d: map<string, int>, pred: map<string, string>,
                     via: map<string, Edge>, pq: set<(string, int)>,
                     S: set<string>, rank: map<string, nat>, next: nat, lo: int, m: (string, int))
    requires NonNegative(g)
    requires Core(g, src, dst, d, pred, via, pq, S, rank, next, lo) && Settled(g, d, S)
    requires m in pq && (forall q :: q in pq ==> m.1 <= q.1)
    requires m.0 == dst && m.1 <= d[dst]
    ensures d[dst] < INF
    ensures forall p :: IsPath(g, p, src, dst) ==> d[dst] <= Weight(p)
  {
    forall p | IsPath(g, p, src, dst) ensures d[dst] <= Weight(p) {
      var x := ReachesUnsettled(g, d, S, p, src, dst);
      if d[x] < INF {
        assert (x, d[x]) in pq;
      }
    }
  }

  /** When the queue runs dry the destination was never reached, and every
      walk to it takes at least `INF`. */
  lemma Exhausted(g: Graph, src: string, dst: string, d: map<string, int>, pred: map<string, string>,
                  via: map<string, Edge>, S: set<string>, rank: map<string, nat>, next: nat, lo: int)
    requires NonNegative(g)
    requires Core(g, src, dst, d, pred, via, {}, S, rank, next, lo) && Settled(g, d, S)
    ensures d[dst] == INF
    ensures forall p :: IsPath(g, p, src, dst) ==> INF <= Weight(p)
  {
    assert Reached(src, d, pred, dst);
    forall p | IsPath(g, p, src, dst) ensures INF <= Weight(p) {
      var x := ReachesUnsettled(g, d, S, p, src, dst);
      assert Reached(src, d, pred, x) && Queued(d, {}, S, lo, x);
    }
  }

  /** One improving edge `e` out of the expanded node `u` keeps the tree:
      the neighbour is neither the origin nor expanded, so it takes `u` as
      its predecessor and no other link changes. */
  lemma TreeRelax(g: Graph, src: string, u: string, du: int,
                  d: map<string, int>, pred: map<string, string>, via: map<string, Edge>,
                  S: set<string>, rank: map<string, nat>, next: nat, e: Edge)
    requires u in g && e in g[u]
    requires u in S && u in d && d[u] == du && e.locEnd !in S && e.locEnd != src
    requires e.locEnd in d && 0 <= du + e.time < d[e.locEnd]
    ensures Tree(g, src, d, pred, via, S, rank, next) ==>
            Tree(g, src, d[e.locEnd := du + e.time], pred[e.locEnd := u], via[e.locEnd := e], S, rank, next)
  {
    if !Tree(g, src, d, pred, via, S, rank, next) { return; }
    var v, nd := e.locEnd, du + e.time;
    var d', pred', via' := d[v := nd], pred[v := u], via[v := e];
    forall w | w in d' ensures Reached(src, d', pred', w) {
      assert Reached(src, d, pred, w);
    }
    forall s | s in S ensures Expanded(d', rank, next, s) {
      assert Expanded(d, rank, next, s);
    }
    forall w | w in pred' ensures Linked(g, d', pred', via', S, rank, w) {
      if w != v {
        assert Linked(g, d, pred, via, S, rank, w);
        assert pred'[w] == pred[w] && pred[w] != v;
      }
    }
  }

  /** Lowering an unexpanded node's distance to `nd >= lo` and queueing it
      keeps the queue invariant; the entry was not queued before, since every
      entry is at least its node's old distance. */
  lemma QueueRelax(d: map<string, int>, pq: set<(string, int)>, S: set<string>, lo: int, v: string, nd: int)
    requires v in d && v !in S && lo <= nd < d[v] <= INF
    ensures Queue(d, pq, S, lo) ==> (v, nd) !in pq && Queue(d[v := nd], pq + {(v, nd)}, S, lo)
  {
    if !Queue(d, pq, S, lo) { return; }
    var d', pq' := d[v := nd], pq + {(v, nd)};
    forall q | q in pq' ensures Entry(d', S, lo, q) {
      if q != (v, nd) {
        assert Entry(d, S, lo, q);
      }
    }
    forall w | w in d' ensures Queued(d', pq', S, lo, w) {
      if w != v {
        assert Queued(d, pq, S, lo, w);
      }
    }
  }

  /** A node whose edges are all settled can join the settled set. */
  lemma SettledExtend(g: Graph, d: map<string, int>, S: set<string>, u: string)
    requires Closed(g, d) && u in d && Settled(g, d, S)
    requires u in g ==> forall e :: e in g[u] ==> d[e.locEnd] <= d[u] + e.time
    ensures Settled(g, d, S + {u})
  {
  }

  /** Updating an existing entry leaves the keys as they were. */
  lemma UpdateKeys(d: map<string, int>, v: string, x: int)
    requires v in d
    ensures d[v := x].Keys == d.Keys
  {
  }

  /** Lowering the distance of a node outside `S` keeps `S` settled. */
  lemma SettledLowered(g: Graph, d: map<string, int>, S: set<string>, v: string, nd: int)
    requires Closed(g, d) && Settled(g, d, S)
    requires v in d && v !in S && nd < d[v]
    ensures Closed(g, d[v := nd]) && Settled(g, d[v := nd], S)
  {
    var d' := d[v := nd];
    forall u, e | u in S && u in g && e in g[u] ensures d'[e.locEnd] <= d'[u] + e.time {
      assert d'[u] == d[u] && d[e.locEnd] <= d[u] + e.time;
    }
  }


  /** The body of the inner `if`: going through `u` by edge `e` beats the
      neighbour's distance, so the neighbour gets the new distance, `u` as
      predecessor and a queue entry that was not there before. The search
      invariant survives, and no distance of a node expanded before `u`
      changes. */
  method RelaxEdge(g: Graph, src: string, dst: string, u: string, du: int, e: Edge,
                   d0: map<string, int>, pred0: map<string, string>, ghost via0: map<string, Edge>,
                   pq0: set<(string, int)>, ghost S0: set<string>, ghost S: set<string>,
                   ghost rank: map<string, nat>, ghost next: nat)
    returns (d: map<string, int>, pred: map<string, string>, ghost via: map<string, Edge>, pq: set<(string, int)>)
    requires NonNegative(g) && u in g && e in g[u] && S == S0 + {u} && u !in S0
    requires Core(g, src, dst, d0, pred0, via0, pq0, S, rank, next, du)
    requires d0[u] == du && Settled(g, d0, S0)
    requires e.locEnd in d0 && du + e.time < d0[e.locEnd]
    ensures (e.locEnd, du + e.time) !in pq0 && pq == pq0 + {(e.locEnd, du + e.time)}
    ensures Core(g, src, dst, d, pred, via, pq, S, rank, next, du)
    ensures d[u] == du && Settled(g, d, S0)
    ensures d.Keys == d0.Keys && d[e.locEnd] == du + e.time
    ensures forall w :: w in d0 ==> d[w] <= d0[w]
  {
    var v := e.locEnd;
    var nd := du + e.time;
    assert v !in S && v != src && 0 <= nd && d0[v] <= INF by {
      assert Queued(d0, pq0, S, du, v);
      assert Reached(src, d0, pred0, u) && Reached(src, d0, pred0, v);
    }
    TreeRelax(g, src, u, du, d0, pred0, via0, S, rank, next, e);
    QueueRelax(d0, pq0, S, du, v, nd);
    SettledLowered(g, d0, S0, v, nd);
    UpdateKeys(d0, v, nd);
    d := d0[v := nd];
    pred := pred0[v := u];
    via := via0[v := e];
    pq := pq0 + {(v, nd)};
  }

  /** The inner `for` over the polled node's edges. Afterwards `u` has joined
      the settled nodes `S0`: none of its edges can improve a distance. */
  method RelaxEdges(g: Graph, src: string, dst: string, u: string, du: int,
                    d0: map<string, int>, pred0: map<string, string>, ghost via0: map<string, Edge>,
                    pq0: set<(string, int)>, ghost S0: set<string>, ghost S: set<string>,
                    ghost rank: map<string, nat>, ghost next: nat)
    returns (d: map<string, int>, pred: map<string, string>, ghost via: map<string, Edge>, pq: set<(string, int)>)
    requires NonNegative(g) && u in g && S == S0 + {u} && u !in S0
    requires Core(g, src, dst, d0, pred0, via0, pq0, S, rank, next, du)
    requires d0[u] == du && Settled(g, d0, S0)
    ensures Core(g, src, dst, d, pred, via, pq, S, rank, next, du)
    ensures d.Keys == d0.Keys && Settled(g, d, S)
  {
    d, pred, via, pq := d0, pred0, via0, pq0;
    var edges := g[u];
    var i := 0;
    while i < |edges|
      invariant 0 <= i <= |edges|
      invariant Core(g, src, dst, d, pred, via, pq, S, rank, next, du)
      invariant d[u] == du && Settled(g, d, S0)
      invariant d.Keys == d0.Keys && EdgesDone(d, edges, du, i)
    {
      ghost var before := d;
      var e := edges[i];
      assert e in g[u];
      if du + e.time < d[e.locEnd] {
        d, pred, via, pq := RelaxEdge(g, src, dst, u, du, e, d, pred, via, pq, S0, S, rank, next);
      }
      EdgesStayDone(before, d, edges, du, i);
      i := i + 1;
    }
    forall e | e in g[u] ensures d[e.locEnd] <= du + e.time {
      var j :| 0 <= j < |edges| && edges[j] == e;
      assert EdgesDone(d, edges, du, |edges|);
    }
    SettledExtend(g, d, S0, u);
  }

  /** Distances that only went down keep the edges already done done, and the
      edge just relaxed joins them. */
  lemma EdgesStayDone(d0: map<string, int>, d: map<string, int>, edges: seq<Edge>, du: int, i: nat)
    requires i < |edges| && EdgesDone(d0, edges, du, i)
    requires d.Keys == d0.Keys && (forall w :: w in d0 ==> d[w] <= d0[w])
    requires edges[i].locEnd in d && d[edges[i].locEnd] <= du + edges[i].time
    ensures EdgesDone(d, edges, du, i + 1)
  {
    forall j | 0 <= j < i + 1
      ensures edges[j].locEnd in d && d[edges[j].locEnd] <= du + edges[j].time
    {
      if j < i {
        assert edges[j].locEnd in d0;
      }
    }
  }

  /** Polling a stale entry: dropping it keeps the invariant. */
  lemma PopStale(g: Graph, src: string, dst: string, d: map<string, int>, pred: map<string, string>,
                 via: map<string, Edge>, pq: set<(string, int)>,
                 S: set<string>, rank: map<string, nat>, next: nat, lo: int, m: (string, int))
    requires Core(g, src, dst, d, pred, via, pq, S, rank, next, lo)
    requires m in pq && m.0 in d && m.1 > d[m.0]
    ensures Core(g, src, dst, d, pred, via, pq - {m}, S, rank, next, lo)
  {
    var pq' := pq - {m};
    forall v | v in d ensures Queued(d, pq', S, lo, v) {
      assert Queued(d, pq, S, lo, v);
    }
  }

  /** Polling the smallest entry with its node's current distance: the node
      was not expanded before, and expanding it now (next in rank, `lo` raised
      to its distance) keeps the invariant. */
  lemma PopSettle(g: Graph, src: string, dst: string, d: map<string, int>, pred: map<string, string>,
                  via: map<string, Edge>, pq: set<(string, int)>,
                  S: set<string>, rank: map<string, nat>, next: nat, lo: int, m: (string, int))
    requires Core(g, src, dst, d, pred, via, pq, S, rank, next, lo)
    requires m in pq && (forall q :: q in pq ==> m.1 <= q.1)
    requires m.0 in d && m.1 == d[m.0] && m.0 != dst
    ensures m.0 !in S
    ensures Core(g, src, dst, d, pred, via, pq - {m}, S + {m.0}, rank[m.0 := next], next + 1, m.1)
  {
    var u, du := m.0, m.1;
    var pq', S', rank' := pq - {m}, S + {u}, rank[u := next];
    assert Entry(d, S, lo, m);
    forall s | s in S' ensures Expanded(d, rank', next + 1, s) {
      if s != u {
        assert Expanded(d, rank, next, s);
      }
    }
    forall w | w in pred ensures Linked(g, d, pred, via, S', rank', w) {
      assert Linked(g, d, pred, via, S, rank, w);
      assert Expanded(d, rank, next, pred[w]);
      if w in S {
        assert Expanded(d, rank, next, w);
      }
    }
    forall q | q in pq' ensures Entry(d, S', du, q) {
      assert Entry(d, S, lo, q);
    }
    forall w | w in d ensures Queued(d, pq', S', du, w) {
      assert Queued(d, pq, S, lo, w);
    }
  }

  /** Expanding the polled node `m.0`: it joins the expanded nodes as the
      next in rank, `lo` rises to its distance, and each of its edges is
      relaxed. The invariant survives and the node is settled. */
  method ExpandNode(g: Graph, src: string, dst: string,
                    d0: map<string, int>, pred0: map<string, string>, ghost via0: map<string, Edge>,
                    ghost polled: set<(string, int)>, pq0: set<(string, int)>,
                    ghost S0: set<string>, ghost rank0: map<string, nat>, ghost next0: nat, ghost lo: int,
                    m: (string, int))
    returns (d: map<string, int>, pred: map<string, string>, ghost via: map<string, Edge>, pq: set<(string, int)>,
             ghost S: set<string>, ghost rank: map<string, nat>, ghost next: nat)
    requires NonNegative(g)
    requires Core(g, src, dst, d0, pred0, via0, polled, S0, rank0, next0, lo) && Settled(g, d0, S0)
    requires m in polled && (forall q :: q in polled ==> m.1 <= q.1) && pq0 == polled - {m}
    requires m.0 in d0 && m.1 == d0[m.0] && m.0 != dst
    ensures m.0 !in S0 && S == S0 + {m.0}
    ensures Core(g, src, dst, d, pred, via, pq, S, rank, next, m.1)
    ensures Settled(g, d, S) && d.Keys == d0.Keys
  {
    var u, du := m.0, m.1;
    PopSettle(g, src, dst, d0, pred0, via0, polled, S0, rank0, next0, lo, m);
    S, rank, next := S0 + {u}, rank0[u := next0], next0 + 1;
    if u in g {
      d, pred, via, pq := RelaxEdges(g, src, dst, u, du, d0, pred0, via0, pq0, S0, S, rank, next);
    } else {
      d, pred, via, pq := d0, pred0, via0, pq0;
      SettledExtend(g, d, S0, u);
    }
  }

  /** The main `while` loop: poll the smallest entry, skip it if stale, stop
      at the destination, otherwise expand the node. On exit the tree is
      intact, and the destination's distance is the least walk time when it
      was reached and `INF` (with every walk at least that long) when not. */
  method Explore(g: Graph, src: string, dst: string, d0: map<string, int>)
    returns (d: map<string, int>, pred: map<string, string>, ghost via: map<string, Edge>,
             ghost S: set<string>, ghost rank: map<string, nat>, ghost next: nat)
    requires NonNegative(g) && src in Nodes(g) && dst in Nodes(g)
    requires d0 == InitialDistances(g, src)
    ensures Tree(g, src, d, pred, via, S, rank, next) && dst in d && d[dst] <= INF
    ensures d[dst] < INF ==> forall p :: IsPath(g, p, src, dst) ==> d[dst] <= Weight(p)
    ensures d[dst] == INF ==> forall p :: IsPath(g, p, src, dst) ==> INF <= Weight(p)
  {
    d, pred, via := d0, map[], map[];
    S, rank, next := {}, map[], 0;
    var pq := {(src, 0)};
    ghost var lo := 0;
    ghost var found := false;
    InitialCore(g, src, dst, d0);
    while pq != {}
      invariant !found
      invariant Core(g, src, dst, d, pred, via, pq, S, rank, next, lo)
      invariant Settled(g, d, S) && d.Keys == d0.Keys
      decreases |d0.Keys - S|, |pq|
    {
      ghost var m := MinEntry(pq);
      var entry :| entry in pq && forall q :: q in pq ==> entry.1 <= q.1;
      ghost var polled := pq;
      pq := pq - {entry};
      var u, du := entry.0, entry.1;
      if du > d[u] {
        PopStale(g, src, dst, d, pred, via, polled, S, rank, next, lo, entry);
        Shrinks(polled, entry);
        continue;
      }
      if u == dst {
        OptimalAtPop(g, src, dst, d, pred, via, polled, S, rank, next, lo, entry);
        found := true;
        break;
      }
      ghost var S0 := S;
      d, pred, via, pq, S, rank, next := ExpandNode(g, src, dst, d, pred, via, polled, pq, S, rank, next, lo, entry);
      Progress(d0.Keys, S0, u);
      lo := du;
    }
    if !found {
      Exhausted(g, src, dst, d, pred, via, S, rank, next, lo);
    }
  }

  /** Taking an entry out of the queue shrinks it. */
  lemma Shrinks(pq: set<(string, int)>, x: (string, int))
    requires x in pq
    ensures |pq - {x}| < |pq|
  {
    assert pq == (pq - {x}) + {x};
  }

  /** Expanding a node not yet expanded shrinks what is left to expand. */
  lemma Progress(K: set<string>, S: set<string>, u: string)
    requires u in K && u !in S
    ensures |K - (S + {u})| < |K - S|
  {
    assert K - S == (K - (S + {u})) + {u};
  }

  /** The state before the first poll satisfies the loop invariant. */
  lemma InitialCore(g: Graph, src: string, dst: string, d0: map<string, int>)
    requires src in Nodes(g) && dst in Nodes(g) && d0 == InitialDistances(g, src)
    ensures Core(g, src, dst, d0, map[], map[], {(src, 0)}, {}, map[], 0, 0)
    ensures Settled(g, d0, {})
  {
    assert Closed(g, d0) by {
      forall k | k in g ensures k in d0 && forall e :: e in g[k] ==> e.locEnd in d0 {
        forall e | e in g[k] ensures e.locEnd in d0 {
          EdgeEndIsNode(g, k, e);
        }
      }
    }
  }

  /** How far the walk back along `pred` still has to go: expanded nodes by
      their rank, the one unexpanded node (the destination) above them all. */
  ghost function Remaining(cur: Option<string>, S: set<string>, rank: map<string, nat>, next: nat): nat
  {
    match cur
    case None => 0
    case Some(c) => if c in S && c in rank then rank[c] + 1 else next + 1
  }

  /** The reconstruction loop: prepend the current node and step to its
      predecessor until there is none. The stops listed are those of a walk
      from the origin to the destination whose time is the destination's
      distance. */
  method Reconstruct(g: Graph, src: string, dst: string, d: map<string, int>, pred: map<string, string>,
                     ghost via: map<string, Edge>, ghost S: set<string>, ghost rank: map<string, nat>, ghost next: nat)
    returns (path: seq<string>)
    requires NonNegative(g) && Tree(g, src, d, pred, via, S, rank, next)
    requires dst in d && d[dst] < INF
    ensures IsRouteOf(g, src, dst, Route(path, d[dst]))
  {
    var cur: Option<string> := Some(dst);
    path := [];
    ghost var P: seq<Edge> := [];
    while cur.Some?
      invariant path == [] ==> cur == Some(dst) && P == []
      invariant path != [] ==>
                  path[0] in d && IsPath(g, P, path[0], dst) && path == Stops(path[0], P) &&
                  d[path[0]] + Weight(P) == d[dst] &&
                  cur == (if path[0] in pred then Some(pred[path[0]]) else None)
      invariant cur.Some? ==> cur.value in d && (path != [] ==> cur.value in S)
      invariant cur.Some? && path != [] ==> path[0] in pred && cur.value == pred[path[0]]
      decreases Remaining(cur, S, rank, next)
    {
      var c := cur.value;
      if path != [] {
        var e := via[path[0]];
        assert ([e] + P)[1..] == P;
        P := [e] + P;
      }
      if c in pred {
        assert Expanded(d, rank, next, pred[c]);
        if c in S {
          assert Expanded(d, rank, next, c);
        }
      }
      path := [c] + path;
      cur := if c in pred then Some(pred[c]) else None;
    }
    assert Reached(src, d, pred, path[0]);
    WeightNonNegative(g, P, path[0], dst);
  }
}
