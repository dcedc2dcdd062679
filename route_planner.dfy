/**
  calculate_my_route: create the two temporary endpoint nodes, snap each
  to its nearest station, take the shortest path from the engine, summarise
  it, estimate the travel time and delete the endpoint nodes again.
 */
module RoutePlanner {
  import opened MetroGraph
  import opened Snapping
  import opened Itinerary
  import opened TravelTime
  import Loader

  /** `result[0]` failing on an empty nearest-station answer. */
  datatype RouteError = NoNearestStation(endpoint: string)

  datatype Result<+T> = Ok(value: T) | Err(error: RouteError)

  /** Everything the routine prints. */
  datatype Report = Report(depart: Snap, arrivee: Snap, table: seq<RouteRow>,
                           nbConnections: nat, nbStations: int, distanceMetro: real,
                           times: Times)

  /** The properties of the temporary departure node. */
  function DepartStation(q: Point): (s: Station)
    ensures forall l :: !CypherEq(s.ligne, l) && !CypherNeq(s.ligne, l)
  {
    Station("depart", Depart, q, None, None, None)
  }

  /** The properties of the temporary arrival node. */
  function ArriveeStation(q: Point): (s: Station)
    ensures forall l :: !CypherEq(s.ligne, l) && !CypherNeq(s.ligne, l)
  {
    Station("arrivee", Arrivee, q, None, None, None)
  }

  /** The nodes after the two endpoint nodes have been created at qDep and qArr. */
  function WithEndpoints(ns: seq<Node>, next: nat, qDep: Point, qArr: Point): (r: seq<Node>)
    ensures |r| == |ns| + 2 && r[..|ns|] == ns
    ensures r[|ns|] == Node(next, DepartStation(qDep)) && r[|ns| + 1] == Node(next + 1, ArriveeStation(qArr))
  {
    ns + [Node(next, DepartStation(qDep)), Node(next + 1, ArriveeStation(qArr))]
  }

  /** name is the nom_maj of some real station of ns. */
  predicate NamesStation(ns: seq<Node>, name: string)
  {
    exists t :: t in ns && !IsSentinel(t.station.nomMaj) && t.station.nomMaj == name
  }

  /**
    The endpoint nodes have no line, so they take part in no line-comparing
    rule of the loader: no transfer and no train link, in either direction.
   */
  lemma EndpointsNeverLinked(q: Point, s: Station, row: Loader.LinkRow)
    ensures !Loader.IsTransfer(DepartStation(q), s) && !Loader.IsTransfer(s, DepartStation(q))
    ensures !Loader.IsTrainLink(row, DepartStation(q), s) && !Loader.IsTrainLink(row, s, DepartStation(q))
    ensures !Loader.IsTransfer(ArriveeStation(q), s) && !Loader.IsTransfer(s, ArriveeStation(q))
    ensures !Loader.IsTrainLink(row, ArriveeStation(q), s) && !Loader.IsTrainLink(row, s, ArriveeStation(q))
  {
  }

  /** The real stations of ns, in stored order. */
  function StationsOnly(ns: seq<Node>): (r: seq<Node>)
    ensures forall n :: n in r <==> n in ns && !IsSentinel(n.station.nomMaj)
  {
    if ns == [] then []
    else (if IsSentinel(ns[0].station.nomMaj) then [] else [ns[0]]) + StationsOnly(ns[1..])
  }

  /** The identifiers of the sentinel-named nodes of ns. */
  function SentinelIds(ns: seq<Node>): set<nat>
  {
    set n | n in ns && IsSentinel(n.station.nomMaj) :: n.id
  }

  /** No node of ns carries a sentinel name: no earlier run left one behind. */
  predicate NoSentinels(ns: seq<Node>)
  {
    forall n :: n in ns ==> !IsSentinel(n.station.nomMaj)
  }

  /** The Station_maj column of the route table. */
  function Column(table: seq<RouteRow>): (names: seq<string>)
    ensures |names| == |table|
    ensures forall i :: 0 <= i < |table| ==> names[i] == table[i].stationMaj
  {
    if table == [] then [] else [table[0].stationMaj] + Column(table[1..])
  }

  /**
    rep is the summary of path: one table row per record, in order, the
    connection and station counts, the metro distance along the path and the
    travel time those give.
   */
  ghost predicate Summarises(rep: Report, path: seq<Station>, segment: (string, string) -> real)
  {
    var names := Names(path);
    && |rep.table| == |path|
    && (forall i :: 0 <= i < |path| ==> rep.table[i] == RouteRow(path[i].nomMaj, path[i].nom, path[i].ligne))
    && rep.nbConnections == Connections(names)
    && rep.nbStations == StationCount(names)
    && rep.distanceMetro == PathDistance(names, segment)
    && rep.times == TravelTimes(rep.depart.distance, rep.arrivee.distance, rep.distanceMetro, rep.nbConnections)
  }

  /**
    Everything between the shortest-path call and the deletion of the
    endpoint nodes: the route table, the counts, the pair distances and the
    time estimate. dep and arr are the two nearest-station answers.
   */
  method SummariseRoute(dep: Snap, arr: Snap, path: seq<Station>, segment: (string, string) -> real)
    returns (rep: Report)
    ensures rep.depart == dep && rep.arrivee == arr
    ensures Summarises(rep, path, segment)
  {
    var table, nbConnections := Summarise(path);
    var names := Column(table);
    assert names == Names(path);
    var nbStations := StationCount(names);

    var listDistances := SegmentDistances(names, segment);
    var distanceMetro := Sum(listDistances);
    SumOfSegments(names, segment, listDistances);

    var times := TravelTimes(dep.distance, arr.distance, distanceMetro, nbConnections);
    rep := Report(dep, arr, table, nbConnections, nbStations, distanceMetro, times);
  }

  /**
    The route computation. shortestPath stands for the engine's shortest-path
    call between the two snapped station names, and segment for the store's
    answer to the distance query between two station names.
   */
  method CalculateMyRoute(store: GraphStore, xDepart: real, yDepart: real,
                          xArrivee: real, yArrivee: real,
                          shortestPath: (string, string) -> seq<Station>,
                          segment: (string, string) -> real)
    returns (r: Result<Report>)
    requires store.Valid()
    modifies store
    ensures store.Valid()
    ensures r.Err? <==> !HasStation(old(store.nodes))
    ensures r.Err? ==>
      && store.nodes == WithEndpoints(old(store.nodes), old(store.nextId), Point(xDepart, yDepart), Point(xArrivee, yArrivee))
      && store.rels == old(store.rels)
      && store.nextId == old(store.nextId) + 2
    ensures r.Ok? ==>
      var rep := r.value;
      && !IsSentinel(rep.depart.name) && !IsSentinel(rep.arrivee.name)
      && NamesStation(old(store.nodes), rep.depart.name) && NamesStation(old(store.nodes), rep.arrivee.name)
      && (var withEnds := WithEndpoints(old(store.nodes), old(store.nextId),
                                        Point(xDepart, yDepart), Point(xArrivee, yArrivee));
          && Some(rep.depart) == Nearest(withEnds, Depart, store.dist)
          && Some(rep.arrivee) == Nearest(withEnds, Arrivee, store.dist))
      && (NoSentinels(old(store.nodes)) ==>
            && IsNearest(old(store.nodes), Point(xDepart, yDepart), store.dist, rep.depart)
            && IsNearest(old(store.nodes), Point(xArrivee, yArrivee), store.dist, rep.arrivee))
      && Summarises(rep, shortestPath(rep.depart.name, rep.arrivee.name), segment)
      && store.nodes == StationsOnly(old(store.nodes))
      && store.rels == Detach(old(store.rels), SentinelIds(old(store.nodes)))
      && store.nextId == old(store.nextId) + 2
  {
    var qDep := Point(xDepart, yDepart);
    var qArr := Point(xArrivee, yArrivee);

    // Inserting the two endpoint nodes
    var idDep := store.CreateNode(DepartStation(qDep));
    var idArr := store.CreateNode(ArriveeStation(qArr));
    ghost var nodes0 := old(store.nodes);
    ghost var extra := [Node(idDep, DepartStation(qDep)), Node(idArr, ArriveeStation(qArr))];
    assert store.nodes == nodes0 + extra == WithEndpoints(nodes0, old(store.nextId), qDep, qArr);

    // Nearest station to each endpoint
    SnapEndpoint(nodes0, extra, extra[0], qDep, store.dist);
    SnapEndpoint(nodes0, extra, extra[1], qArr, store.dist);
    var dep := Nearest(store.nodes, Depart, store.dist);
    if dep.None? {
      return Err(NoNearestStation(Depart));
    }
    var arr := Nearest(store.nodes, Arrivee, store.dist);
    if arr.None? {
      assert false;
    }

    // Shortest path, then its summary and the travel time
    var path := shortestPath(dep.value.name, arr.value.name);
    var rep := SummariseRoute(dep.value, arr.value, path, segment);

    // Removing the two endpoint nodes
    ghost var rels0 := store.rels;
    store.DetachDeleteNamed(Depart);
    store.DetachDeleteNamed(Arrivee);
    CleanupLeavesStations(nodes0, extra);
    CleanupDetachesSentinels(nodes0, extra, rels0);

    r := Ok(rep);
  }

  // ---------------------------------------------------------------------
  // Lemmas used by CalculateMyRoute

  lemma SentinelsAddNoStation(ns: seq<Node>, extra: seq<Node>)
    requires forall e :: e in extra ==> IsSentinel(e.station.nomMaj)
    ensures HasStation(ns + extra) <==> HasStation(ns)
  {
    if HasStation(ns + extra) {
      var n :| n in ns + extra && !IsSentinel(n.station.nomMaj);
      assert n in ns;
    }
    if HasStation(ns) {
      var n :| n in ns && !IsSentinel(n.station.nomMaj);
      assert n in ns + extra;
    }
  }

  /**
    What the nearest-station lookup for the endpoint node o gives once the
    two endpoint nodes extra are added to the nodes ns: a failure exactly
    when ns has no real station, otherwise a real station, and, when ns
    held no sentinel node, one nearest to q among the stations of ns.
   */
  lemma SnapEndpoint(ns: seq<Node>, extra: seq<Node>, o: Node, q: Point, dist: (Point, Point) -> real)
    requires forall e :: e in extra ==> IsSentinel(e.station.nomMaj)
    requires o in extra && o.station.coordonnees == q
    requires forall e :: e in extra && e.station.nomMaj == o.station.nomMaj ==> e.station.coordonnees == q
    ensures Nearest(ns + extra, o.station.nomMaj, dist).None? <==> !HasStation(ns)
    ensures Nearest(ns + extra, o.station.nomMaj, dist).Some? ==>
      !IsSentinel(Nearest(ns + extra, o.station.nomMaj, dist).value.name)
      && NamesStation(ns, Nearest(ns + extra, o.station.nomMaj, dist).value.name)
    ensures Nearest(ns + extra, o.station.nomMaj, dist).Some? && NoSentinels(ns) ==>
      IsNearest(ns, q, dist, Nearest(ns + extra, o.station.nomMaj, dist).value)
  {
    var all := ns + extra;
    var name := o.station.nomMaj;
    SentinelsAddNoStation(ns, extra);
    assert o in all;
    NearestIsStation(all, name, dist);
    if Nearest(all, name, dist).Some? {
      var t :| t in all && !IsSentinel(t.station.nomMaj) && Nearest(all, name, dist).value.name == t.station.nomMaj;
      assert t in ns;
    }
    if NoSentinels(ns) {
      forall n | n in all && n.station.nomMaj == name ensures n.station.coordonnees == q {
        if n in ns {
          assert false;
        }
      }
      NearestFromPoint(all, name, q, dist);
      if Nearest(all, name, dist).Some? {
        IsNearestIgnoresSentinels(ns, extra, q, dist, Nearest(all, name, dist).value);
      }
    }
  }

  /** A successful lookup names a real station. */
  lemma NearestIsStation(ns: seq<Node>, sentinel: string, dist: (Point, Point) -> real)
    ensures Nearest(ns, sentinel, dist).Some? ==>
      var snap := Nearest(ns, sentinel, dist).value;
      !IsSentinel(snap.name) && exists t :: t in ns && !IsSentinel(t.station.nomMaj) && snap.name == t.station.nomMaj
  {
  }

  /** Adding sentinel nodes changes neither the real stations nor which of them is nearest. */
  lemma IsNearestIgnoresSentinels(ns: seq<Node>, extra: seq<Node>, q: Point,
                                  dist: (Point, Point) -> real, snap: Snap)
    requires forall e :: e in extra ==> IsSentinel(e.station.nomMaj)
    ensures IsNearest(ns + extra, q, dist, snap) <==> IsNearest(ns, q, dist, snap)
  {
    if IsNearest(ns + extra, q, dist, snap) {
      var t :| t in ns + extra && !IsSentinel(t.station.nomMaj)
               && snap.name == t.station.nomMaj && snap.distance == dist(q, t.station.coordonnees);
      assert t in ns;
      forall t' | t' in ns && !IsSentinel(t'.station.nomMaj) ensures snap.distance <= dist(q, t'.station.coordonnees) {
        assert t' in ns + extra;
      }
    }
    if IsNearest(ns, q, dist, snap) {
      var t :| t in ns && !IsSentinel(t.station.nomMaj)
               && snap.name == t.station.nomMaj && snap.distance == dist(q, t.station.coordonnees);
      assert t in ns + extra;
    }
  }

  lemma {:induction false} WithoutBothIsStationsOnly(ns: seq<Node>)
    ensures Without(Without(ns, Depart), Arrivee) == StationsOnly(ns)
  {
    if ns != [] {
      WithoutBothIsStationsOnly(ns[1..]);
      var h: seq<Node> := if ns[0].station.nomMaj == Depart then [] else [ns[0]];
      assert Without(ns, Depart) == h + Without(ns[1..], Depart);
      WithoutAppend(h, Without(ns[1..], Depart), Arrivee);
    }
  }

  lemma {:induction false} WithoutAppend(a: seq<Node>, b: seq<Node>, name: string)
    ensures Without(a + b, name) == Without(a, name) + Without(b, name)
  {
    if a != [] {
      assert (a + b)[1..] == a[1..] + b;
      WithoutAppend(a[1..], b, name);
    } else {
      assert a + b == b;
    }
  }

  lemma {:induction false} StationsOnlyAppend(a: seq<Node>, b: seq<Node>)
    ensures StationsOnly(a + b) == StationsOnly(a) + StationsOnly(b)
  {
    if a != [] {
      assert (a + b)[1..] == a[1..] + b;
      StationsOnlyAppend(a[1..], b);
    } else {
      assert a + b == b;
    }
  }

  lemma {:induction false} StationsOnlyOfSentinels(extra: seq<Node>)
    requires forall e :: e in extra ==> IsSentinel(e.station.nomMaj)
    ensures StationsOnly(extra) == []
  {
    if extra != [] {
      assert extra[0] in extra;
      StationsOnlyOfSentinels(extra[1..]);
    }
  }

  /** Deleting DEPART and then ARRIVEE leaves exactly the real stations there were before. */
  lemma CleanupLeavesStations(ns: seq<Node>, extra: seq<Node>)
    requires forall e :: e in extra ==> IsSentinel(e.station.nomMaj)
    ensures Without(Without(ns + extra, Depart), Arrivee) == StationsOnly(ns)
  {
    WithoutBothIsStationsOnly(ns + extra);
    StationsOnlyAppend(ns, extra);
    StationsOnlyOfSentinels(extra);
    assert StationsOnly(ns) + [] == StationsOnly(ns);
  }

  /** Deleting DEPART and then ARRIVEE removes exactly the relationships that touched a sentinel node. */
  lemma CleanupDetachesSentinels(ns: seq<Node>, extra: seq<Node>, rs: set<Rel>)
    requires forall e :: e in extra ==> IsSentinel(e.station.nomMaj)
    requires UniqueIds(ns + extra) && RelsWithin(ns, rs)
    ensures Detach(Detach(rs, NamedIds(ns + extra, Depart)), NamedIds(Without(ns + extra, Depart), Arrivee))
         == Detach(rs, SentinelIds(ns))
  {
    var all := ns + extra;
    var gone1 := NamedIds(all, Depart);
    var gone2 := NamedIds(Without(all, Depart), Arrivee);
    forall id | id in Ids(ns) ensures (id in gone1 || id in gone2) <==> id in SentinelIds(ns) {
      var m :| m in ns && m.id == id;
      assert m in all;
      if id in gone1 {
        var n :| n in all && n.station.nomMaj == Depart && n.id == id;
        SameIdSameNode(all, m, n);
      }
      if id in gone2 {
        var n :| n in Without(all, Depart) && n.station.nomMaj == Arrivee && n.id == id;
        SameIdSameNode(all, m, n);
      }
      if id in SentinelIds(ns) {
        var n :| n in ns && IsSentinel(n.station.nomMaj) && n.id == id;
        assert n in all;
        SameIdSameNode(all, m, n);
        if m.station.nomMaj == Arrivee {
          assert m in Without(all, Depart);
        }
      }
    }
  }
}
