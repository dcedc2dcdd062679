# Paris metro routing on a graph store — a Dafny model

This project models the two scripts of a small Paris-metro route planner
that keeps its data in a graph database.

- The **loader** wipes the graph and creates one `Station` node per row of the
  station table. It then derives three relationship kinds:
  - `CORRESPONDANCE_AVEC`: same `nom_maj`, different `ligne`.
  - `LIAISON_PIED`: different `nom_maj`, distance below 1000 m.
  - `LIAISON_TRAIN`: one per matching pair of each link-table row.
- The **route planner** (`calculate_my_route`) inserts two temporary endpoint
  nodes named `DEPART` and `ARRIVEE`. It snaps each to its nearest real station
  and asks the engine for a route between them. It then summarises the path: the
  route table, the connection count, the station count and the metro distance.
  Last, it estimates the travel time and deletes the two endpoint nodes.

The store is a class, `MetroGraph.GraphStore`. Its fields are the node list,
the relationship set and the identifier counter. Each write query the scripts
send is one method of it, and its contract gives the new state. The write
queries are the wipe, a node `CREATE`, a relationship `CREATE` and a named
`DETACH DELETE`. The three relationship queries of the loader go through
`Loader.RunRelQuery`.

The read queries are not methods:
- The nearest-station query is the function `Snapping.Nearest` of the stored
  nodes.
- The shortest-path call and the segment-distance query are the parameters
  `shortestPath` and `segment` of `RoutePlanner.CalculateMyRoute`.

The relationship rules are set comprehensions over pairs of stored nodes. The
nearest-station query is built by recursive functions over the stored nodes
(`Snapping.RowsFrom`, `Snapping.Candidates`, `Snapping.MinRow`). The two loops of `calculate_my_route`
are `while`/`for` loops. Each loop is proved against a reference function:
- `Connections` for the connection count;
- `PathDistance` for the metro distance.

Properties about those functions are proved as lemmas.

Modelling choices:
- Cypher's `null` is an `Option`. A comparison with `null` is never true, so
  endpoint nodes (they have no `ligne`) can never qualify for a rule that
  compares lines.
- The engine's point distance is an abstract function `dist` held by the store.
  Symmetry, non-negativity and `dist(p, p) = 0` are stated as preconditions
  where a lemma needs them.
- The nearest-station query is modelled as written. It pairs EVERY node named
  `DEPART` with every real station, orders by distance and keeps the first. If
  an earlier failed run left a stale `DEPART` node behind, the answer need not
  be nearest to the new point. Nearness to the query point is proved when the
  store held no endpoint node before the run.
- Ties in `ORDER BY distance LIMIT 1` are up to the engine. `Snapping.MinRow`
  keeps the earliest row. `CalculateMyRoute` equates each snap with
  `Snapping.Nearest`, so among equally near stations it fixes the answer to
  the first candidate row in stored order.
- `previous_station` starts as `""`. A first record whose `nom_maj` is empty
  therefore counts as one connection. `Itinerary.Connections` keeps this. The
  bound lemmas require the first name to be non-empty.
- In two places the model keeps behaviour a reader might not expect:
  - Endpoint nodes are NOT removed when a lookup fails. `CalculateMyRoute`
    returns `Err` with both endpoint nodes still stored.
  - An empty path is not an error. It gives 0 connections, a metro distance
    of 0 and `nb_stations = -1` (no clamping to 0).
- A full wipe resets the identifier counter, so a load yields the same
  identifiers every time.

## Model

| member | source | states |
|---|---|---|
| MetroGraph.GraphStore.DetachDeleteAll | load_paris_metro_db_neo4j.py:11-18 | the wipe leaves no node and no relationship, whatever was stored before |
| MetroGraph.GraphStore.CreateNodes | load_paris_metro_db_neo4j.py:25-36 | one new node per station record, in order, with fresh distinct identifiers; relationships unchanged; store invariant kept |
| MetroGraph.GraphStore.CreateNode | calcul_itineraire_metro_neo4j.py:37-55 | one new node with the given properties and an identifier not used before; nothing else changes |
| MetroGraph.GraphStore.DetachDeleteNamed | calcul_itineraire_metro_neo4j.py:180-196 | the nodes with that nom_maj go, the others stay in order, and every relationship touching a deleted node goes with it; store invariant kept |
| MetroGraph.GraphStore.CreateRels | load_paris_metro_db_neo4j.py:43-75 | adds relationships between stored nodes; the nodes are unchanged |
| MetroGraph.Without | calcul_itineraire_metro_neo4j.py:181-182 | a node survives the named deletion iff it was stored and carries another nom_maj |
| MetroGraph.DetachKeepsSurvivors | calcul_itineraire_metro_neo4j.py:180-196 | after the named DETACH DELETE, a relationship stays exactly when both of its endpoints are among the surviving nodes |
| MetroGraph.WithoutKeepsUniqueIds | calcul_itineraire_metro_neo4j.py:180-196 | deleting nodes keeps identifiers unique |
| MetroGraph.SameIdSameNode | load_paris_metro_db_neo4j.py:46-47 | with unique identifiers, an identifier picks out a single stored node |
| Loader.LoadedNodes | load_paris_metro_db_neo4j.py:25-31 | exactly one Station node per station row, in row order, carrying that row's nom, nom_maj, coordinates, trafic, ville and ligne |
| Loader.IsTransfer | load_paris_metro_db_neo4j.py:48 | a transfer needs both lines set (a node without a line never matches) and joins two different stations |
| Loader.IsWalk | load_paris_metro_db_neo4j.py:56-57 | a walking pair is two different stations and never also a transfer pair |
| Loader.IsTrainLink | load_paris_metro_db_neo4j.py:64-67 | both matched stations run on the row's line, and they differ when start and stop differ |
| Loader.TransferRels | load_paris_metro_db_neo4j.py:45-49 | every derived transfer relationship is a CORRESPONDANCE_AVEC between two stored nodes |
| Loader.WalkRels | load_paris_metro_db_neo4j.py:52-58 | every derived walking relationship is a LIAISON_PIED between two stored nodes |
| Loader.TrainRelsForRow | load_paris_metro_db_neo4j.py:61-68 | every train relationship of a link row carries the row's line and joins two stored nodes that both run on it |
| Loader.TrainRels | load_paris_metro_db_neo4j.py:61-68 | over the whole link table, every train relationship joins two stored nodes on the relationship's own line |
| Loader.TrainRelsIff | load_paris_metro_db_neo4j.py:61-68 | a relationship is created by the query over the whole link table iff it is created for some row of it |
| Loader.TrainRelsFromRow | load_paris_metro_db_neo4j.py:61-68 | every train relationship of the whole table comes from some row |
| Loader.TrainRelsOfRow | load_paris_metro_db_neo4j.py:61-68 | every matched pair of every row is among the train relationships of the whole table |
| Loader.DerivedRels | load_paris_metro_db_neo4j.py:43-70 | the loaded relationships are split by kind: the CORRESPONDANCE_AVEC ones are exactly the transfer rule's, the LIAISON_PIED ones exactly the walking rule's, the LIAISON_TRAIN ones exactly the train rule's |
| Loader.RunRelQuery | load_paris_metro_db_neo4j.py:72-75 | running one relationship query adds exactly that rule's relationships and leaves the nodes alone |
| Loader.LoadParisMetro | load_paris_metro_db_neo4j.py:11-75 | after loading, the graph is exactly the station nodes of the table plus the transfer, walking and train relationships over them; it depends only on the two tables |
| Loader.LoadTwice | load_paris_metro_db_neo4j.py:11-75 | the state after the second load (nodes, relationships, counter) equals the state after the first, which is the loaded graph of the two tables |
| Loader.TransferEdgeIff | load_paris_metro_db_neo4j.py:46-49 | s1→s2 is a transfer iff the names are equal and both lines are set and differ |
| Loader.TransferSymmetric | load_paris_metro_db_neo4j.py:48 | the transfer relation is symmetric |
| Loader.TransferIrreflexive | load_paris_metro_db_neo4j.py:48 | no transfer self-loop |
| Loader.WalkEdgeIff | load_paris_metro_db_neo4j.py:54-58 | s1→s2 is a walking link iff the names differ and the distance is below 1000 |
| Loader.WalkSymmetric | load_paris_metro_db_neo4j.py:56-57 | with a symmetric distance the walking relation is symmetric |
| Loader.WalkIrreflexive | load_paris_metro_db_neo4j.py:56 | no walking self-loop |
| Loader.TransferWalkDisjoint | load_paris_metro_db_neo4j.py:48-56 | no ordered pair is joined by both a transfer and a walking link |
| Loader.TrainEdgeIff | load_paris_metro_db_neo4j.py:64-68 | for a link row, s_dep→s_arr is created iff s_dep is named start, s_arr is named stop and both are on the row's line |
| Loader.TrainUnknownStation | load_paris_metro_db_neo4j.py:64-67 | a link row whose start or stop is not a station of its line creates no relationship |
| Snapping.RowsFrom | calcul_itineraire_metro_neo4j.py:61-63 | for one origin, a row per real (non-sentinel) station with its distance, and nothing else |
| Snapping.Candidates | calcul_itineraire_metro_neo4j.py:59-63 | the query's rows are exactly the pairs of a node named DEPART (or ARRIVEE) and a real station |
| Snapping.MinRow | calcul_itineraire_metro_neo4j.py:64 | ORDER BY distance LIMIT 1 gives a row no farther than any other, and nothing exactly when there are no rows |
| Snapping.CandidatesEmpty | calcul_itineraire_metro_neo4j.py:59-63 | the query has no rows exactly when no node carries the endpoint name or no real station is stored |
| Snapping.Nearest | calcul_itineraire_metro_neo4j.py:59-87 | the lookup fails (`result[0]` raises) exactly when no endpoint node or no real station is stored; otherwise its answer is the row of some endpoint node and real station, no farther than any other such row |
| Snapping.NearestFromPoint | calcul_itineraire_metro_neo4j.py:59-87 | with the endpoint node at q, the answer is a real station whose distance is its distance to q and at most that of every real station |
| Snapping.SnapToCoincidentStation | calcul_itineraire_metro_neo4j.py:59-70 | a query point on a real station snaps at distance 0 |
| Itinerary.Connections | calcul_itineraire_metro_neo4j.py:110-124 | nb_connections is the number of positions repeating the previous name, plus one when the first name is empty |
| Itinerary.StationCount | calcul_itineraire_metro_neo4j.py:129 | nb_stations is -1 for an empty path, otherwise at least 0 and at most len - 1 minus the adjacent repeats |
| Itinerary.Summarise | calcul_itineraire_metro_neo4j.py:110-124 | one route row per record, in order, copying nom_maj, nom and ligne (consecutive duplicates kept); the count equals Connections of the names |
| Itinerary.AdjacentRepeatsCountsIndices | calcul_itineraire_metro_neo4j.py:121-123 | the recursive count equals the number of indices i ≥ 1 with name[i] = name[i-1] |
| Itinerary.ConnectionsAreRepeats | calcul_itineraire_metro_neo4j.py:110-124 | if the first name is non-empty, nb_connections is the number of adjacent equal pairs |
| Itinerary.AdjacentRepeatsBound | calcul_itineraire_metro_neo4j.py:121-123 | adjacent repeats are at most len - 1 |
| Itinerary.ConnectionsBound | calcul_itineraire_metro_neo4j.py:110-124 | nb_connections ≤ max(0, len - 1) when the first name is non-empty |
| Itinerary.NoRepeatsNoConnections | calcul_itineraire_metro_neo4j.py:121-123 | a path without adjacent equal names has 0 connections |
| Itinerary.DistinctPlusRepeats | calcul_itineraire_metro_neo4j.py:122-129 | distinct names plus adjacent repeats never exceed the path length |
| Itinerary.StationCountBounds | calcul_itineraire_metro_neo4j.py:129 | nb_stations is -1 for an empty path and lies in [0, len - 1] otherwise |
| Itinerary.StationsPlusConnections | calcul_itineraire_metro_neo4j.py:122-129 | nb_stations + nb_connections ≤ len - 1 for a non-empty path with a non-empty first name |
| Itinerary.ExampleTwoConnections | calcul_itineraire_metro_neo4j.py:110-129 | the path A, A, B, B, C has 2 connections and 2 stations |
| Itinerary.PathDistance | calcul_itineraire_metro_neo4j.py:134-151 | the distance along a path is 0 for 0 or 1 stations and non-negative when every pair distance is |
| Itinerary.Sum | calcul_itineraire_metro_neo4j.py:151 | the sum of non-negative distances is non-negative, and a single distance sums to itself |
| Itinerary.SegmentDistances | calcul_itineraire_metro_neo4j.py:134-149 | exactly max(0, len - 1) distances, the i-th being that of the names at i and i + 1 |
| Itinerary.SumOfSegments | calcul_itineraire_metro_neo4j.py:136-151 | the sum of the collected distances is the distance along the path |
| Itinerary.PathDistanceNonNegative | calcul_itineraire_metro_neo4j.py:151 | with non-negative pair distances, distance_metro is non-negative |
| Itinerary.ShortPathNoDistance | calcul_itineraire_metro_neo4j.py:136 | a path of length 0 or 1 has distance 0 |
| TravelTime.WalkMinutes | calcul_itineraire_metro_neo4j.py:157-162 | walking time times 4500 m/h equals distance times 60 |
| TravelTime.MetroMinutes | calcul_itineraire_metro_neo4j.py:156-163 | metro time less 4 minutes per connection, times 25000 m/h, equals distance times 60 |
| TravelTime.TravelTimes | calcul_itineraire_metro_neo4j.py:156-175 | the three components follow their speed relations, and the total is t_dep + t_metro + t_arr |
| TravelTime.WalkLinear | calcul_itineraire_metro_neo4j.py:161-162 | walking time is linear in distance |
| TravelTime.DoubleWalkDoublesTime | calcul_itineraire_metro_neo4j.py:161 | doubling the walk to the departure station doubles t_dep |
| TravelTime.ConnectionAddsFourMinutes | calcul_itineraire_metro_neo4j.py:158-163 | each extra connection adds exactly 4 minutes to t_metro and to the total |
| TravelTime.ExampleDirectRoute | calcul_itineraire_metro_neo4j.py:156-175 | two 500 m walks and 1000 m of metro: 2.4 min of metro, 20/3 min per walk, 236/15 min in total |
| RoutePlanner.DepartStation | calcul_itineraire_metro_neo4j.py:38-39 | the departure node has no line, so it compares neither equal nor unequal to any line |
| RoutePlanner.ArriveeStation | calcul_itineraire_metro_neo4j.py:49-50 | the arrival node has no line, so it compares neither equal nor unequal to any line |
| RoutePlanner.EndpointsNeverLinked | calcul_itineraire_metro_neo4j.py:38-50 | neither endpoint node can satisfy the transfer condition or a train-link condition of the loader, either way round |
| RoutePlanner.SummariseRoute | calcul_itineraire_metro_neo4j.py:108-175 | the report's table, counts, metro distance and times are those of the path, and it keeps both nearest-station answers |
| RoutePlanner.CalculateMyRoute | calcul_itineraire_metro_neo4j.py:25-196 | fails exactly when the store has no real station, leaving both endpoint nodes behind. Either way the identifier counter has advanced by two. Otherwise each endpoint's answer is exactly the nearest-station query's answer over the stored nodes plus the two new endpoint nodes. It names a station stored before the call, and it is nearest to its query point when no stale endpoint node existed. The report summarises the engine's path. Afterwards only the real stations remain, in order, with every relationship not touching a removed endpoint node |
| RoutePlanner.SnapEndpoint | calcul_itineraire_metro_neo4j.py:36-87 | after inserting the endpoint nodes, each lookup fails iff there is no real station, else returns the name of a real station stored in ns, and one nearest to the endpoint if no stale endpoint node existed |
| RoutePlanner.NearestIsStation | calcul_itineraire_metro_neo4j.py:62 | a successful lookup names a real, non-sentinel station of the store |
| RoutePlanner.IsNearestIgnoresSentinels | calcul_itineraire_metro_neo4j.py:62 | adding endpoint nodes does not change which stations are nearest: a snap is nearest among ns + extra iff it is nearest among ns |
| RoutePlanner.SentinelsAddNoStation | calcul_itineraire_metro_neo4j.py:62 | adding endpoint nodes does not change whether a real station exists |
| RoutePlanner.CleanupLeavesStations | calcul_itineraire_metro_neo4j.py:179-196 | deleting DEPART then ARRIVEE leaves exactly the earlier real stations, in order |
| RoutePlanner.CleanupDetachesSentinels | calcul_itineraire_metro_neo4j.py:179-196 | the two deletions remove exactly the relationships touching a sentinel-named node |

## Left out

- The database driver, sessions and `session.run` are network I/O. The store is the `GraphStore` class: write queries are its methods, and read queries are functions or parameters.
- The engine's shortest-path call (calcul_itineraire_metro_neo4j.py:94-106) runs inside the engine. `CalculateMyRoute` takes it as the parameter `shortestPath`, a function of the two snapped names. Nothing is claimed about optimality. The call runs once per pair of a node named like the start station and a node named like the end station. For a name served by several lines, `result` is therefore several paths joined together, and the summary counts and sums across their boundaries. The arbitrary `shortestPath` parameter covers that case but does not single it out.
- The segment-distance query matches nodes by name only. When two nodes share a name, it takes the first of several rows. It is the parameter `segment`, a function of two names. The `IndexError` when a name has no node is not modelled.
- `LOAD CSV` from URLs and the `toFloat`/`toInteger`/`toString` conversions are not modelled. The tables are sequences of typed rows.
- The pandas DataFrame is a sequence of `RouteRow`, and `unique()` is the set of names.
- `print` and `round(..., 2)` are presentation. The `Report` datatype holds the printed values, unrounded.
- IEEE floating point and the square root inside Cypher's `distance` are not modelled. Distances are `real`, and the distance function is abstract.
- The query strings, with their format interpolation and injection risk, are not modelled.
- Concurrent callers and the race on the fixed endpoint names are not modelled. The model is single-threaded.
- Cleanup after a failure is absent from the code, and the model does not add it.
- Parallel relationships are merged: two identical link rows would create two `LIAISON_TRAIN` relationships, while the relationship set holds one.
- DetachDeleteAll, LoadTwice: the wipe resets the identifier counter to 0. That is what makes two loads equal down to the identifiers. The engine does not promise which identifiers it assigns after a wipe, so two real loads agree only up to node identity.
- CalculateMyRoute: among several equally near stations the engine may return any one. The model fixes the first candidate row in stored order, so it does not cover the engine picking another.
- The example calls at module level (calcul_itineraire_metro_neo4j.py:200-210) are not modelled.
