# GrafoService in Dafny

A model of `GrafoService`, the graph service of the Randall route API. The
service reads connections `origen;destino;tiempo` from a CSV source and files
them by origin in a map (`grafoPorOrigen`). On top of that map it answers
three kinds of query:

- listings: all connections, all origin keys;
- node lookups: whether a location is a node, and the set of all nodes;
- the fastest route between two locations, found with Dijkstra's algorithm.

An uploaded file replaces the whole map.

Modules, in dependency order:

- `Seqs`: small sequence facts used by the proofs.
- `Options`: the `Option` type. `None` stands for the Java `null` and for a
  caught exception.
- `Text`: the three Java string primitives the reader relies on, written out.
  - `String.trim()` strips characters up to U+0020.
  - `String.split(";")` drops trailing empty fields and keeps a separator-free
    line whole.
  - `Integer.parseInt` takes an optional sign, ASCII digits and the `int`
    range.
- `Graphs`: the values of the model.
  - `Edge` models `ConexionGrafo`; `Route` models `ResultadoRuta`.
  - `Graph` is the adjacency map and `Insert` is `computeIfAbsent(..).add(..)`.
  - `EdgeBag` is the multiset of all stored edges. `Nodes` is the origins
    together with all destinations.
  - Walks (`IsPath`, `Weight`, `Stops`) and what it means for a route to
    answer a query.
- `Csv`: line handling in `procesarCSV`. It covers the header skip, the parse
  of one line into an edge or an error, and the counting.
- `SearchState`: the state of the Dijkstra loop and the invariant it keeps.
  - Distances start at `Integer.MAX_VALUE`, which stands for "not reached"
    (`INF`).
  - The predecessor map is kept together with the edge behind each link (a
    proof-only map).
  - The proof also tracks the set of expanded nodes and the order they were
    expanded in.
  - The priority queue is a set of (node, distance) entries.
- `Dijkstra`: the search and the reconstruction as methods with loops.
  - The main `while` with its stale-entry skip and early `break` at the
    destination.
  - The inner `for` that relaxes each edge of the polled node.
  - The backward walk along predecessors.
  - The lemmas that make the early `break` and the final `null` sound.
- `Service`: the class `GraphService`, whose field `graph` is
  `grafoPorOrigen`, with one method per operation of the Java class.

Two choices stand in for Java behaviour that has no fixed value:

- **Iteration order.** `HashMap` iteration order is unspecified, so every loop
  over the map picks its next key with `:|`, any key left. Results are stated
  up to that key order and no further:
  - the connections are every origin's list, whole and in insertion order,
    with the lists in some order of the keys;
  - the origin keys are a set without repeats.
- **The priority queue.** `PriorityQueue.poll` returns some entry of least
  distance, and the model picks one with `:|` in the same way. A set suffices
  for the queue because no pair is ever offered twice:
  - an entry `(v, x)` is offered only when `x` is below the current `d[v]`;
  - every entry already queued is at least its node's distance
    (`SearchState.Entry`).

  `Dijkstra.QueueRelax` proves that the offered pair is new.

Two behaviours of the code are kept as written, though a reader might expect otherwise:

- A route query checks the origin with `containsKey`, i.e. only origin keys
  pass (`GrafoService.java:113`). A location that is only ever a destination
  gets `null` as an origin, even when asked for a route to itself.
- `cargarGrafoDesdeArchivo` clears the map before reading and does not restore
  it when reading fails (`GrafoService.java:224-237`). After a failed upload
  the map holds what was read before the failure, not the previous graph.

## Model

| member | source | states |
|---|---|---|
| `Text.Trim` | src/main/java/cl/randall/services/GrafoService.java:68-70 | the trimmed field starts and ends with a character above U+0020 (or is empty) and is no longer than the field |
| `Text.TrimOfPadded` | src/main/java/cl/randall/services/GrafoService.java:68-70 | any string of characters up to U+0020, a trimmed text, then more such characters trims to exactly that text |
| `Text.TrimDecomposes` | src/main/java/cl/randall/services/GrafoService.java:68-70 | every field is its trimmed form with only characters up to U+0020 before and after it, so trimming removes nothing else |
| `Text.TrimOfTrimmed` | src/main/java/cl/randall/services/GrafoService.java:68-70 | a field that is already trimmed is left unchanged |
| `Text.TrimIdempotent` | src/main/java/cl/randall/services/GrafoService.java:68-70 | trimming twice gives the same as trimming once |
| `Text.Fields` | src/main/java/cl/randall/services/GrafoService.java:64 | cutting a line at every ';' yields at least one field and no field holds a ';' |
| `Text.DropTrailingEmpty` | src/main/java/cl/randall/services/GrafoService.java:64 | what `split` keeps is a prefix of the fields, everything dropped is empty, and the last field kept is not empty |
| `Text.Split` | src/main/java/cl/randall/services/GrafoService.java:64 | no field returned by `split(";")` contains the separator |
| `Text.JoinFields` | src/main/java/cl/randall/services/GrafoService.java:64 | the fields, empty ones included, joined with ';' give the line back |
| `Text.FieldsJoin` | src/main/java/cl/randall/services/GrafoService.java:64 | separator-free fields joined with ';' are cut back into exactly those fields |
| `Text.SplitRecord` | src/main/java/cl/randall/services/GrafoService.java:64-65 | a line `a;b;c` with non-empty `c` and any run of trailing ';' splits into exactly the three fields `a`, `b`, `c` |
| `Text.SplitThreeIsRecord` | src/main/java/cl/randall/services/GrafoService.java:64-65 | a line that splits into three fields is of that shape, so the `length == 3` test accepts nothing else |
| `Text.ParseInt` | src/main/java/cl/randall/services/GrafoService.java:70 | an accepted number lies in the `int` range; anything else is the `NumberFormatException` case |
| `Text.ParseIntToString` | src/main/java/cl/randall/services/GrafoService.java:70 | `parseInt` reads back the decimal form of every `int` |
| `Csv.DataLines` | src/main/java/cl/randall/services/GrafoService.java:53-62 | the first line is skipped whatever it holds and the other lines follow in order |
| `Csv.ParseLine` | src/main/java/cl/randall/services/GrafoService.java:64-86 | an accepted line yields an edge whose ids are trimmed and whose time is an `int` |
| `Csv.RecordLineParses` | src/main/java/cl/randall/services/GrafoService.java:64-71 | a record-shaped line is accepted exactly when its trimmed third field parses, and then yields the trimmed ids and that number |
| `Csv.AcceptedLineIsRecord` | src/main/java/cl/randall/services/GrafoService.java:64-71 | every accepted line is record-shaped and yields its trimmed ids and parsed time |
| `Csv.ParseFormatLine` | src/main/java/cl/randall/services/GrafoService.java:64-71 | an edge with separator-free trimmed ids and an `int` time, written as `a;b;t`, is read back as the same edge |
| `Csv.ParseStep` | src/main/java/cl/randall/services/GrafoService.java:64-86 | one more line either appends its edge to the loaded edges or adds one to the error count |
| `Csv.LinesAccountedFor` | src/main/java/cl/randall/services/GrafoService.java:77-86 | every data line is counted exactly once, either as processed or as an error |
| `Csv.ValidEdgesFromLines` | src/main/java/cl/randall/services/GrafoService.java:57-86 | the loaded edges are exactly the edges the accepted data lines yield |
| `Graphs.InsertAllWellFormed` | src/main/java/cl/randall/services/GrafoService.java:74-75 | filing edges keeps every list non-empty and holding only edges that leave its key |
| `Graphs.InsertAllContents` | src/main/java/cl/randall/services/GrafoService.java:74-75 | after filing, the keys are the old keys plus the new origins, and each list is its old list followed by the new edges from that origin in input order |
| `Graphs.InsertBag` | src/main/java/cl/randall/services/GrafoService.java:74-75 | filing one edge adds exactly that edge to the multiset of stored edges |
| `Graphs.InsertAllBag` | src/main/java/cl/randall/services/GrafoService.java:74-77 | filing a sequence adds exactly its edges, duplicates kept, to the multiset of stored edges |
| `Graphs.EdgeBagRemove` | src/main/java/cl/randall/services/GrafoService.java:99-101 | the multiset of stored edges is any key's list plus the rest, whatever order `values()` visits the keys in |
| `Graphs.ConcatBag` | src/main/java/cl/randall/services/GrafoService.java:99-101 | joining the stored lists in any order of the keys that takes each key once yields every stored connection exactly as often as it is stored |
| `Graphs.EdgeBagMembers` | src/main/java/cl/randall/services/GrafoService.java:97-103 | in a well-formed store an edge is among all connections exactly when it is filed under its own origin |
| `Graphs.EdgeEndIsNode` | src/main/java/cl/randall/services/GrafoService.java:211-215 | the destination of every stored edge is a node |
| `Graphs.DestinationsOfBag` | src/main/java/cl/randall/services/GrafoService.java:211-215 | the destination nodes are exactly the destinations of all connections |
| `Graphs.StopsOfPath` | src/main/java/cl/randall/services/GrafoService.java:175-182 | the stops of a walk begin at its start and end at its end, and each consecutive pair is joined by the stored edge taken |
| `Graphs.RouteShape` | src/main/java/cl/randall/services/GrafoService.java:175-182 | a route that answers a query is non-empty, starts at the origin, ends at the destination, and each consecutive pair of stops is a stored connection |
| `Dijkstra.MinEntry` | src/main/java/cl/randall/services/GrafoService.java:139 | a non-empty queue holds an entry no larger than any other, which is what `poll` can return |
| `Dijkstra.InitialCore` | src/main/java/cl/randall/services/GrafoService.java:129-136 | the origin at 0, every other node at `MAX_VALUE` and the queue holding `(origen, 0)` satisfy the loop invariant, with nothing settled |
| `Dijkstra.PopStale` | src/main/java/cl/randall/services/GrafoService.java:143-146 | discarding an entry larger than its node's distance keeps the loop invariant |
| `Dijkstra.ReachesUnsettled` | src/main/java/cl/randall/services/GrafoService.java:148-151 | every walk from the origin to a node not yet expanded passes a node not yet expanded whose distance is at most the walk's time |
| `Dijkstra.OptimalAtPop` | src/main/java/cl/randall/services/GrafoService.java:148-151 | when the destination is polled at its current distance, that distance is reached and no walk to it is shorter, so the early `break` is sound |
| `Dijkstra.PopSettle` | src/main/java/cl/randall/services/GrafoService.java:139-141 | a polled entry equal to its node's distance belongs to a node not expanded before, and expanding it keeps the invariant |
| `Dijkstra.TreeRelax` | src/main/java/cl/randall/services/GrafoService.java:160-162 | giving the neighbour the shorter distance and the polled node as predecessor keeps every link a stored edge whose time is exactly the difference of distances |
| `Dijkstra.QueueRelax` | src/main/java/cl/randall/services/GrafoService.java:160-163 | the offered entry was not queued before, and the queue still holds the current distance of every reached node not yet expanded |
| `Dijkstra.RelaxEdge` | src/main/java/cl/randall/services/GrafoService.java:160-164 | an improving edge lowers the neighbour's distance to exactly the new sum, offers one new entry, keeps the invariant and raises no distance |
| `Dijkstra.RelaxEdges` | src/main/java/cl/randall/services/GrafoService.java:154-166 | after all edges of the polled node are relaxed the invariant holds and no edge out of an expanded node can shorten any distance |
| `Dijkstra.ExpandNode` | src/main/java/cl/randall/services/GrafoService.java:153-166 | expanding the polled node adds it to the expanded nodes with all its edges settled, and keeps the invariant |
| `Dijkstra.Explore` | src/main/java/cl/randall/services/GrafoService.java:138-167 | the loop ends with the predecessor links intact. A destination distance below `MAX_VALUE` is the least walk time; otherwise no walk takes less than `MAX_VALUE` |
| `Dijkstra.Exhausted` | src/main/java/cl/randall/services/GrafoService.java:138-172 | when the queue runs dry before the destination is polled, its distance is still `MAX_VALUE` and no walk to it is shorter, so `null` is right |
| `Dijkstra.Reconstruct` | src/main/java/cl/randall/services/GrafoService.java:174-182 | walking predecessors back from the destination lists the stops of a walk from the origin whose time is the destination's distance |
| `Service.GraphService.Empty` | src/main/java/cl/randall/services/GrafoService.java:30 | the store starts empty and well formed |
| `Service.GraphService.Create` | src/main/java/cl/randall/services/GrafoService.java:29-45 | construction fails exactly when reading the resource fails; otherwise the store holds the source's accepted edges |
| `Service.GraphService.ProcessCsv` | src/main/java/cl/randall/services/GrafoService.java:48-94 | every accepted data line's edge is filed after the old contents and the store stays well formed. The two counters are the accepted and rejected data lines and add up to their number, and a read failure is reported |
| `Service.GraphService.AllEdges` | src/main/java/cl/randall/services/GrafoService.java:97-103 | the list is every stored list, whole and in insertion order, one after the other in some order of the keys that takes each key once, so it holds every stored connection exactly as often as it is stored |
| `Service.GraphService.UniqueLocations` | src/main/java/cl/randall/services/GrafoService.java:106-108 | the list holds exactly the origin keys, each once, and no destination-only location |
| `Service.GraphService.ExistsNode` | src/main/java/cl/randall/services/GrafoService.java:186-201 | true exactly when the token is an origin key or the destination of some stored edge |
| `Service.GraphService.AllNodes` | src/main/java/cl/randall/services/GrafoService.java:204-218 | the set is exactly the origins together with all destinations |
| `Service.GraphService.Distances` | src/main/java/cl/randall/services/GrafoService.java:129-133 | every node starts at `MAX_VALUE` except the origin, which starts at 0 |
| `Service.GraphService.LoadFromFile` | src/main/java/cl/randall/services/GrafoService.java:221-239 | the store is replaced by the upload's accepted edges, and the answer is true exactly when reading succeeded and at least one line was accepted |
| `Service.GraphService.FindFastestRoute` | src/main/java/cl/randall/services/GrafoService.java:111-183 | a route is returned only for an origin key and a known destination. It follows stored edges from origin to destination, totals below `MAX_VALUE` and no walk beats it. `null` past the guards means no walk takes less than `MAX_VALUE`, and a query from an origin key to itself gives `[origen]` with total 0 |

## Left out

- Reading bytes: decoding UTF-8, `BufferedReader` and `ClassPathResource` are not modelled. A source is its decoded lines and a flag saying whether `readLine` throws after them. A failure part-way through is the same as a source cut at that point with the flag set.
- Logging (`logger.info`, `warn`, `error`) and the `nombreArchivo != null` test that only guards a log line: they change no state.
- Exceptions other than a failed read, such as those `cargarGrafoDesdeArchivo` catches with `catch (Exception e)`, are not modelled.
- The Spring wiring, the REST controller and the OpenAPI configuration: they are not part of this model.
- Concurrency: the methods run one at a time, and a query never sees a replacement half done.
- `Text.ParseInt`: accepts only ASCII digits, while Java's `Character.digit` also accepts other Unicode decimal digits.
- `Service.GraphService.ProcessCsv`: the two counters are unbounded, not 32-bit `int`s.
- `Service.GraphService.FindFastestRoute`: requires every stored time to be non-negative. Parsing accepts negative times, and for those Dijkstra's early exit does not give the least total and a negative cycle can keep the loop running.
- `Service.GraphService.FindFastestRoute`: `distanciaActual + conexion.getTime()` is unbounded. Java's `int` sum can wrap past `Integer.MAX_VALUE` to a negative distance.
- `Dijkstra.Explore`: the same unbounded sum and non-negative precondition as `Service.GraphService.FindFastestRoute`.
