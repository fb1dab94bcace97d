/** `GrafoService`: the store of connections grouped by origin, loaded from a
    CSV source, with its queries and the fastest-route search. */
module Service {
  import opened Options
  import opened Text
  import opened Graphs
  import opened Csv
  import opened SearchState
  import opened Dijkstra

  class GraphService {
    /** `grafoPorOrigen`. */
    var graph: Graph

    /** Every stored list is non-empty and holds only edges leaving its key. */
    ghost predicate Valid()
      reads this
    {
      WellFormed(graph)
    }

    /** `new HashMap<>()`: the store starts empty. */
    constructor Empty()
      ensures Valid() && graph == map[]
    {
      graph := map[];
    }

    /** The constructor: an empty store filled from the bundled CSV resource.
        When reading fails Java throws a `RuntimeException` and no service
        exists; here that is `None`. */
    static method Create(src: Source) returns (r: Option<GraphService>)
      ensures r.None? <==> src.readFails
      ensures r.Some? ==> fresh(r.value) && r.value.Valid() &&
                          r.value.graph == InsertAll(map[], ValidEdges(DataLines(src.lines)))
    {
      var s := new GraphService.Empty();
      var ok, _, _ := s.ProcessCsv(src);
      r := if ok then Some(s) else None;
    }

    /** `procesarCSV`: skip the header line, then file every accepted line's
        edge under its origin and count the rejected ones. `ok` is false when
        reading throws after the last line; the edges filed so far stay. */
    method ProcessCsv(src: Source) returns (ok: bool, processed: nat, errors: nat)
      requires Valid()
      modifies this
      ensures Valid()
      ensures graph == InsertAll(old(graph), ValidEdges(DataLines(src.lines)))
      ensures ok == !src.readFails
      ensures processed == |ValidEdges(DataLines(src.lines))|
      ensures errors == ErrorCount(DataLines(src.lines))
      ensures processed + errors == |DataLines(src.lines)|
    {
      var lines := src.lines;
      var first := true;
      processed, errors := 0, 0;
      ghost var g0 := graph;
      ghost var rows: seq<string> := [];
      var i := 0;
      while i < |lines|
        invariant 0 <= i <= |lines| && first == (i == 0)
        invariant rows == DataLines(lines[..i])
        invariant graph == InsertAll(g0, ValidEdges(rows))
        invariant processed == |ValidEdges(rows)| && errors == ErrorCount(rows)
      {
        var line := lines[i];
        if first {
          first := false;
        } else {
          DataLinesStep(lines, i);
          ParseStep(rows, line);
          match ParseLine(line) {
            case Some(e) =>
              InsertAllSnoc(g0, ValidEdges(rows), e);
              graph := Insert(graph, e);
              processed := processed + 1;
            case None =>
              errors := errors + 1;
          }
          rows := rows + [line];
        }
        i := i + 1;
      }
      assert lines[..i] == lines;
      InsertAllWellFormed(g0, ValidEdges(rows));
      LinesAccountedFor(rows);
      ok := !src.readFails;
    }

    /** `obtenerTodasLasConexiones`: every stored list, whole and in its
        insertion order, one after the other in whatever order `values()`
        visits the keys. */
    method AllEdges() returns (r: seq<Edge>)
      ensures exists ks :: KeyOrder(graph, ks) && r == Concat(graph, ks)
      ensures multiset(r) == EdgeBag(graph)
    {
      r := [];
      var rest := graph.Keys;
      ghost var ks: seq<string> := [];
      while rest != {}
        invariant rest <= graph.Keys
        invariant forall k :: k in graph ==> k in ks || k in rest
        invariant forall k :: k in ks ==> k in graph && k !in rest
        invariant forall i, j :: 0 <= i < j < |ks| ==> ks[i] != ks[j]
        invariant r == Concat(graph, ks)
        decreases |rest|
      {
        var k :| k in rest;
        assert (ks + [k])[..|ks|] == ks;
        r := r + graph[k];
        ks := ks + [k];
        rest := rest - {k};
      }
      assert KeyOrder(graph, ks);
      ConcatBag(graph, ks);
    }

    /** `obtenerUbicacionesUnicas`: the origin keys, each once. */
    method UniqueLocations() returns (r: seq<string>)
      ensures forall x :: x in r <==> x in graph
      ensures forall i, j :: 0 <= i < j < |r| ==> r[i] != r[j]
    {
      r := [];
      var rest := graph.Keys;
      while rest != {}
        invariant forall x :: x in graph <==> x in r || x in rest
        invariant forall x :: x in r ==> x !in rest
        invariant forall i, j :: 0 <= i < j < |r| ==> r[i] != r[j]
        decreases |rest|
      {
        var k :| k in rest;
        r := r + [k];
        rest := rest - {k};
      }
    }

    /** `existeNodo`: an origin key, or the destination of some stored edge. */
    method ExistsNode(n: string) returns (b: bool)
      ensures b <==> n in Nodes(graph)
    {
      if n in graph {
        return true;
      }
      var rest := graph;
      while rest != map[]
        invariant n in Nodes(graph) <==> n in Destinations(rest)
        decreases |rest|
      {
        var k :| k in rest;
        var es := rest[k];
        var j := 0;
        while j < |es|
          invariant 0 <= j <= |es|
          invariant forall i :: 0 <= i < j ==> es[i].locEnd != n
        {
          if es[j].locEnd == n {
            EdgeEndIsNode(rest, k, es[j]);
            return true;
          }
          j := j + 1;
        }
        DestinationsRemove(rest, k);
        RemoveKey(rest, k);
        rest := rest - {k};
      }
      return false;
    }

    /** `obtenerTodosLosNodos`: the origin keys, then every edge's destination. */
    method AllNodes() returns (nodes: set<string>)
      ensures nodes == Nodes(graph)
    {
      nodes := graph.Keys;
      var rest := graph;
      while rest != map[]
        invariant nodes + Destinations(rest) == Nodes(graph)
        decreases |rest|
      {
        var k :| k in rest;
        var es := rest[k];
        var j := 0;
        ghost var before := nodes;
        while j < |es|
          invariant 0 <= j <= |es|
          invariant nodes == before + (set i | 0 <= i < j :: es[i].locEnd)
        {
          nodes := nodes + {es[j].locEnd};
          j := j + 1;
        }
        assert (set i | 0 <= i < |es| :: es[i].locEnd) == Ends(es);
        DestinationsRemove(rest, k);
        RemoveKey(rest, k);
        rest := rest - {k};
      }
    }

    /** `cargarGrafoDesdeArchivo`: clear the store, process the upload, and
        report whether it yielded any connection; a read failure is caught
        and reported as `false`, with whatever was filed before it kept. */
    method LoadFromFile(src: Source) returns (b: bool)
      modifies this
      ensures Valid()
      ensures graph == InsertAll(map[], ValidEdges(DataLines(src.lines)))
      ensures b <==> !src.readFails && |ValidEdges(DataLines(src.lines))| > 0
    {
      graph := map[];
      var ok, _, _ := ProcessCsv(src);
      if !ok {
        return false;
      }
      var all := AllEdges();
      InsertAllBag(map[], ValidEdges(DataLines(src.lines)));
      assert EdgeBag(map[]) == multiset{};
      assert |all| == |multiset(all)|;
      b := |all| > 0;
    }

    /** `encontrarRutaMasRapida`: `None` (Java's `null`) unless the origin is
        a key of the store, the destination a node, and the destination
        reachable below `Integer.MAX_VALUE`; otherwise a route along stored
        edges whose total no walk from the origin to the destination beats. */
    method FindFastestRoute(origin: string, dest: string) returns (r: Option<Route>)
      requires NonNegative(graph)
      ensures r.Some? ==> origin in graph && dest in Nodes(graph)
      ensures r.Some? ==> IsRouteOf(graph, origin, dest, r.value) && r.value.totalTime < INF
      ensures r.Some? ==> forall p :: IsPath(graph, p, origin, dest) ==> r.value.totalTime <= Weight(p)
      ensures r.None? && origin in graph && dest in Nodes(graph) ==>
                forall p :: IsPath(graph, p, origin, dest) ==> INF <= Weight(p)
      ensures origin in graph && origin == dest ==> r == Some(Route([origin], 0))
    {
      var known := ExistsNode(dest);
      if origin !in graph || !known {
        return None;
      }
      if origin == dest {
        forall p | IsPath(graph, p, origin, dest) ensures 0 <= Weight(p) {
          WeightNonNegative(graph, p, origin, dest);
        }
        assert IsPath(graph, [], origin, dest) && Stops(origin, []) == [origin];
        return Some(Route([origin], 0));
      }
      var d0 := Distances(origin);
      var d, pred, via, S, rank, next := Explore(graph, origin, dest, d0);
      if d[dest] == INF {
        return None;
      }
      var path := Reconstruct(graph, origin, dest, d, pred, via, S, rank, next);
      r := Some(Route(path, d[dest]));
    }

    /** The distance table before the search: `MAX_VALUE` for every node,
        then 0 for the origin. */
    method Distances(origin: string) returns (d: map<string, int>)
      requires origin in graph
      ensures d == InitialDistances(graph, origin)
    {
      var nodes := AllNodes();
      d := map[];
      var rest := nodes;
      while rest != {}
        invariant rest <= nodes
        invariant forall v :: v in d <==> v in nodes && v !in rest
        invariant forall v :: v in d ==> d[v] == INF
        decreases |rest|
      {
        var v :| v in rest;
        d := d[v := INF];
        rest := rest - {v};
      }
      d := d[origin := 0];
    }
  }
}
