/** The value side of the graph store: edges, the adjacency map kept by
    `GrafoService.grafoPorOrigen`, the node set it implies, and paths. */
module Graphs {
  import opened Seqs

  /** One connection read from a CSV record (`ConexionGrafo`). */
  datatype Edge = Edge(locStart: string, locEnd: string, time: int)

  /** The answer to a route query (`ResultadoRuta`): the stops in order and the summed time. */
  datatype Route = Route(path: seq<string>, totalTime: int)

  /** Origin id to its outgoing edges in insertion order. */
  type Graph = map<string, seq<Edge>>

  /** The store's invariant: every key has at least one edge, and every edge
      filed under a key starts there. */
  ghost predicate WellFormed(g: Graph)
  {
    forall k :: k in g ==> |g[k]| > 0 && forall e {:trigger e in g[k]} :: e in g[k] ==> e.locStart == k
  }

  /** `computeIfAbsent(e.locStart, k -> new ArrayList<>()).add(e)`. */
  function Insert(g: Graph, e: Edge): Graph
  {
    g[e.locStart := (if e.locStart in g then g[e.locStart] else []) + [e]]
  }

  /** The edges inserted one after the other, in order. */
  function InsertAll(g: Graph, es: seq<Edge>): Graph
  {
    if es == [] then g else Insert(InsertAll(g, es[..|es| - 1]), es[|es| - 1])
  }

  /** The edges of `es` that leave `k`, in order. */
  function FromOrigin(es: seq<Edge>, k: string): seq<Edge>
  {
    if es == [] then []
    else FromOrigin(es[..|es| - 1], k) + (if es[|es| - 1].locStart == k then [es[|es| - 1]] else [])
  }

  /** Inserting keeps the store's invariant. */
  lemma {:induction false} InsertAllWellFormed(g: Graph, es: seq<Edge>)
    requires WellFormed(g)
    ensures WellFormed(InsertAll(g, es))
  {
    if es != [] {
      InsertAllWellFormed(g, es[..|es| - 1]);
    }
  }

  /** Inserting one more edge at the end is one more `Insert`. */
  lemma InsertAllSnoc(g: Graph, es: seq<Edge>, e: Edge)
    ensures InsertAll(g, es + [e]) == Insert(InsertAll(g, es), e)
  {
    assert (es + [e])[..|es|] == es;
  }

  /** Removing a key shrinks a map by one. */
  lemma RemoveKey<V>(m: map<string, V>, k: string)
    requires k in m
    ensures (m - {k}).Keys == m.Keys - {k} && |m - {k}| == |m| - 1
  {
    assert (m - {k}).Keys == m.Keys - {k};
  }

  /** The origins of a sequence of edges. */
  ghost function Origins(es: seq<Edge>): set<string>
  {
    set e | e in es :: e.locStart
  }

  /** After inserting `es`, the keys are the old keys plus the origins of `es`,
      and each key's list is its old list followed by the edges of `es` that
      leave it, in their original order. */
  lemma {:induction false} InsertAllContents(g: Graph, es: seq<Edge>)
    ensures InsertAll(g, es).Keys == g.Keys + Origins(es)
    ensures forall k :: k in InsertAll(g, es) ==>
              InsertAll(g, es)[k] == (if k in g then g[k] else []) + FromOrigin(es, k)
  {
    if es == [] {
      assert Origins(es) == {};
    } else {
      var init, last := es[..|es| - 1], es[|es| - 1];
      var h := InsertAll(g, init);
      InsertAllContents(g, init);
      OriginsSnoc(es);
      forall k | k in InsertAll(g, es)
        ensures InsertAll(g, es)[k] == (if k in g then g[k] else []) + FromOrigin(es, k)
      {
        var old_k := if k in g then g[k] else [];
        if k == last.locStart {
          if k in h {
            AppendAssoc(old_k, FromOrigin(init, k), [last]);
          } else {
            forall e | e in init ensures e.locStart != k {
              assert e.locStart in Origins(init);
            }
            FromOriginEmpty(init, k);
            AppendNil([last]);
          }
        } else {
          AppendNil(FromOrigin(init, k));
          AppendNil(h[k]);
        }
      }
    }
  }

  /** The origins of a non-empty sequence: those of its prefix and its last edge's. */
  lemma OriginsSnoc(es: seq<Edge>)
    requires es != []
    ensures Origins(es) == Origins(es[..|es| - 1]) + {es[|es| - 1].locStart}
  {
    Snoc(es);
  }

  /** No edge leaves `k`, so none is filed under it. */
  lemma {:induction false} FromOriginEmpty(es: seq<Edge>, k: string)
    requires forall e {:trigger e in es} :: e in es ==> e.locStart != k
    ensures FromOrigin(es, k) == []
  {
    if es != [] {
      var init := es[..|es| - 1];
      forall e | e in init ensures e.locStart != k {
        var i :| 0 <= i < |init| && init[i] == e;
        assert es[i] == e && e in es;
      }
      FromOriginEmpty(init, k);
      assert es[|es| - 1] in es;
    }
  }

  // ------------------------------------------------------------ all edges

  /** `ks` lists every key of `g` exactly once, in some order. */
  ghost predicate KeyOrder(g: Graph, ks: seq<string>)
  {
    && (forall k :: k in ks <==> k in g)
    && (forall i, j :: 0 <= i < j < |ks| ==> ks[i] != ks[j])
  }

  /** The lists filed under `ks`, whole and one after the other. */
  function Concat(g: Graph, ks: seq<string>): seq<Edge>
    requires forall k :: k in ks ==> k in g
  {
    if ks == [] then [] else Concat(g, ks[..|ks| - 1]) + g[ks[|ks| - 1]]
  }

  /** Every edge of the store, as a bag (the map has no order of its own). */
  ghost function EdgeBag(g: Graph): multiset<Edge>
    decreases |g|
  {
    if g == map[] then multiset{}
    else
      var k :| k in g;
      assert (g - {k}).Keys == g.Keys - {k};
      multiset(g[k]) + EdgeBag(g - {k})
  }

  /** The bag can be taken apart at any key. */
  lemma {:induction false} EdgeBagRemove(g: Graph, k: string)
    requires k in g
    ensures EdgeBag(g) == multiset(g[k]) + EdgeBag(g - {k})
    decreases |g|
  {
    var j :| j in g && EdgeBag(g) == multiset(g[j]) + EdgeBag(g - {j});
    if j != k {
      assert (g - {j}).Keys == g.Keys - {j};
      assert (g - {k}).Keys == g.Keys - {k};
      EdgeBagRemove(g - {j}, k);
      EdgeBagRemove(g - {k}, j);
      assert g - {j} - {k} == g - {k} - {j};
    }
  }

  /** `Concat` reads only the lists of the keys it is given. */
  lemma {:induction false} ConcatAgree(g: Graph, h: Graph, ks: seq<string>)
    requires forall k :: k in ks ==> k in g && k in h && g[k] == h[k]
    ensures Concat(g, ks) == Concat(h, ks)
  {
    if ks != [] {
      ConcatAgree(g, h, ks[..|ks| - 1]);
    }
  }

  /** Joining the lists in any order of the keys gives every stored edge,
      each as often as it is stored. */
  lemma {:induction false} ConcatBag(g: Graph, ks: seq<string>)
    requires KeyOrder(g, ks)
    ensures multiset(Concat(g, ks)) == EdgeBag(g)
    decreases |ks|
  {
    if ks == [] {
      assert g.Keys == {};
    } else {
      var init, last := ks[..|ks| - 1], ks[|ks| - 1];
      var rest := g - {last};
      assert KeyOrder(rest, init) by {
        forall k ensures k in init <==> k in rest {
          if k in init {
            var i :| 0 <= i < |init| && init[i] == k;
            assert ks[i] == k && ks[|ks| - 1] == last;
          }
          if k in rest {
            assert k in ks;
            var i :| 0 <= i < |ks| && ks[i] == k;
            assert i != |ks| - 1 && init[i] == k;
          }
        }
      }
      ConcatBag(rest, init);
      ConcatAgree(g, rest, init);
      EdgeBagRemove(g, last);
    }
  }

  /** Inserting an edge adds exactly that edge to the bag. */
  lemma InsertBag(g: Graph, e: Edge)
    ensures EdgeBag(Insert(g, e)) == EdgeBag(g) + multiset{e}
  {
    var k := e.locStart;
    var g' := Insert(g, e);
    EdgeBagRemove(g', k);
    assert g' - {k} == g - {k};
    if k in g {
      EdgeBagRemove(g, k);
    } else {
      assert g - {k} == g;
    }
  }

  /** Inserting a sequence of edges adds exactly those edges to the bag. */
  lemma {:induction false} InsertAllBag(g: Graph, es: seq<Edge>)
    ensures EdgeBag(InsertAll(g, es)) == EdgeBag(g) + multiset(es)
  {
    if es != [] {
      var init, last := es[..|es| - 1], es[|es| - 1];
      InsertBag(InsertAll(g, init), last);
      InsertAllBag(g, init);
      Snoc(es);
      assert multiset(es) == multiset(init) + multiset{last};
    }
  }

  /** Edges are found under their origin in a well-formed store. */
  lemma {:induction false} EdgeBagMembers(g: Graph)
    requires WellFormed(g)
    ensures forall e :: e in EdgeBag(g) <==> e.locStart in g && e in g[e.locStart]
    decreases |g|
  {
    if g != map[] {
      var k :| k in g;
      var rest := g - {k};
      EdgeBagRemove(g, k);
      assert rest.Keys == g.Keys - {k};
      EdgeBagMembers(rest);
      forall e ensures e in EdgeBag(g) <==> e.locStart in g && e in g[e.locStart] {
        if e.locStart != k {
          assert e !in g[k];
          assert e.locStart in g ==> rest[e.locStart] == g[e.locStart];
        }
      }
    }
  }

  // ------------------------------------------------------------ nodes

  /** Every destination of some stored edge. */
  ghost function Destinations(g: Graph): set<string>
  {
    set k, e | k in g && e in g[k] :: e.locEnd
  }

  /** The implicit node set: origin keys and edge destinations. */
  ghost function Nodes(g: Graph): set<string>
  {
    g.Keys + Destinations(g)
  }

  lemma EdgeEndIsNode(g: Graph, k: string, e: Edge)
    requires k in g && e in g[k]
    ensures e.locEnd in Destinations(g) && e.locEnd in Nodes(g)
  {
  }

  /** The destinations of a list of edges. */
  ghost function Ends(es: seq<Edge>): set<string>
  {
    set e | e in es :: e.locEnd
  }

  lemma DestinationsRemove(g: Graph, k: string)
    requires k in g
    ensures Destinations(g) == Ends(g[k]) + Destinations(g - {k})
  {
    forall x | x in Destinations(g) ensures x in Ends(g[k]) + Destinations(g - {k}) {
      var k', e :| k' in g && e in g[k'] && e.locEnd == x;
      if k' != k {
        assert k' in g - {k};
      }
    }
  }

  lemma EndsOfBagSum(a: multiset<Edge>, b: multiset<Edge>)
    ensures (set e | e in a + b :: e.locEnd) == (set e | e in a :: e.locEnd) + (set e | e in b :: e.locEnd)
  {
  }

  /** The destinations are exactly the ends of the edges in the bag. */
  lemma {:induction false} DestinationsOfBag(g: Graph)
    ensures Destinations(g) == set e | e in EdgeBag(g) :: e.locEnd
    decreases |g|
  {
    if g == map[] {
      assert Destinations(g) == {};
    } else {
      var k :| k in g;
      var rest := g - {k};
      EdgeBagRemove(g, k);
      assert rest.Keys == g.Keys - {k};
      DestinationsOfBag(rest);
      DestinationsRemove(g, k);
      EndsOfBagSum(multiset(g[k]), EdgeBag(rest));
      assert (set e | e in multiset(g[k]) :: e.locEnd) == Ends(g[k]);
    }
  }

  // ------------------------------------------------------------ paths

  /** Every stored weight is non-negative. */
  ghost predicate NonNegative(g: Graph)
  {
    forall k, e {:trigger e in g[k]} :: k in g && e in g[k] ==> e.time >= 0
  }

  /** `p` is a walk along stored edges from `a` to `b`. */
  ghost predicate IsPath(g: Graph, p: seq<Edge>, a: string, b: string)
    decreases |p|
  {
    if p == [] then a == b
    else a in g && p[0] in g[a] && IsPath(g, p[1..], p[0].locEnd, b)
  }

  /** The summed time of a walk. */
  function Weight(p: seq<Edge>): int
  {
    if p == [] then 0 else p[0].time + Weight(p[1..])
  }

  /** The stops of a walk that starts at `a`. */
  function Stops(a: string, p: seq<Edge>): (r: seq<string>)
    ensures |r| == |p| + 1 && r[0] == a
    decreases |p|
  {
    if p == [] then [a] else [a] + Stops(p[0].locEnd, p[1..])
  }

  /** A route answers a query from `a` to `b` when it lists the stops of some
      walk from `a` to `b` and its total is that walk's time. */
  ghost predicate IsRouteOf(g: Graph, a: string, b: string, r: Route)
  {
    exists p :: IsPath(g, p, a, b) && r.path == Stops(a, p) && r.totalTime == Weight(p)
  }

  lemma {:induction false} WeightNonNegative(g: Graph, p: seq<Edge>, a: string, b: string)
    requires NonNegative(g) && IsPath(g, p, a, b)
    ensures Weight(p) >= 0
  {
    if p != [] {
      WeightNonNegative(g, p[1..], p[0].locEnd, b);
    }
  }

  /** The stops of a walk start at its start, end at its end, and each
      consecutive pair is joined by a stored edge. */
  lemma {:induction false} StopsOfPath(g: Graph, p: seq<Edge>, a: string, b: string)
    requires IsPath(g, p, a, b)
    ensures Stops(a, p)[|p|] == b
    ensures forall i :: 0 <= i < |p| ==>
              Stops(a, p)[i] in g && p[i] in g[Stops(a, p)[i]] && p[i].locEnd == Stops(a, p)[i + 1]
  {
    if p != [] {
      var tail := p[1..];
      var st := Stops(p[0].locEnd, tail);
      StopsOfPath(g, tail, p[0].locEnd, b);
      assert Stops(a, p) == [a] + st;
      forall i | 0 <= i < |p|
        ensures Stops(a, p)[i] in g && p[i] in g[Stops(a, p)[i]] && p[i].locEnd == Stops(a, p)[i + 1]
      {
        if i > 0 {
          assert Stops(a, p)[i] == st[i - 1] && p[i] == tail[i - 1];
        }
      }
    }
  }

  /** The shape every returned route has: it is non-empty, starts at the
      origin, ends at the destination, and each consecutive pair of stops is
      an edge of the store. */
  lemma RouteShape(g: Graph, a: string, b: string, r: Route)
    requires IsRouteOf(g, a, b, r)
    ensures |r.path| >= 1 && r.path[0] == a && r.path[|r.path| - 1] == b
    ensures forall i :: 0 <= i < |r.path| - 1 ==>
              r.path[i] in g && exists e :: e in g[r.path[i]] && e.locEnd == r.path[i + 1]
  {
    var p :| IsPath(g, p, a, b) && r.path == Stops(a, p) && r.totalTime == Weight(p);
    StopsOfPath(g, p, a, b);
    forall i | 0 <= i < |r.path| - 1
      ensures r.path[i] in g && exists e :: e in g[r.path[i]] && e.locEnd == r.path[i + 1]
    {
      assert p[i] in g[r.path[i]];
    }
  }
}
