/**
  The dataset loader: wipe the graph, create one Station node per row of
  the station table, then derive the three relationship kinds. Each
  relationship rule is a set comprehension over pairs of stored nodes.
 */
module Loader {
  import opened MetroGraph

  /** A row of the station table, with its fields already converted. */
  datatype StationRow = StationRow(nomGare: string, nomClean: string, x: real, y: real,
                                   trafic: int, ville: string, ligne: string)

  /** A row of the link table: two consecutive stations of one line. */
  datatype LinkRow = LinkRow(start: string, stop: string, ligne: string)

  /** Walking links join stations strictly closer than this many metres. */
  const WalkThreshold: real := 1000.0

  /** The properties CREATE (:Station {...}) gives the node of one row. */
  function StationOf(row: StationRow): Station
  {
    Station(row.nomGare, row.nomClean, Point(row.x, row.y),
            Some(row.trafic), Some(row.ville), Some(row.ligne))
  }

  function StationsOf(rows: seq<StationRow>): (ss: seq<Station>)
    ensures |ss| == |rows|
    ensures forall i :: 0 <= i < |rows| ==> ss[i] == StationOf(rows[i])
  {
    if rows == [] then [] else [StationOf(rows[0])] + StationsOf(rows[1..])
  }

  /** The node list right after loading the station table into an empty graph. */
  function LoadedNodes(rows: seq<StationRow>): (ns: seq<Node>)
    ensures |ns| == |rows|
    ensures forall i :: 0 <= i < |rows| ==>
      ns[i].id == i && ns[i].station.nom == rows[i].nomGare
      && ns[i].station.nomMaj == rows[i].nomClean
      && ns[i].station.coordonnees == Point(rows[i].x, rows[i].y)
      && ns[i].station.trafic == Some(rows[i].trafic)
      && ns[i].station.ville == Some(rows[i].ville)
      && ns[i].station.ligne == Some(rows[i].ligne)
  {
    Numbered(0, StationsOf(rows))
  }

  /** The condition of the CORRESPONDANCE_AVEC query. */
  predicate IsTransfer(s1: Station, s2: Station)
    ensures IsTransfer(s1, s2) ==> s1.ligne.Some? && s2.ligne.Some? && s1 != s2
  {
    s1.nomMaj == s2.nomMaj && CypherNeq(s1.ligne, s2.ligne)
  }

  /** The condition of the LIAISON_PIED query. */
  predicate IsWalk(s1: Station, s2: Station, dist: (Point, Point) -> real)
    ensures IsWalk(s1, s2, dist) ==> s1 != s2 && !IsTransfer(s1, s2)
  {
    s1.nomMaj != s2.nomMaj && dist(s1.coordonnees, s2.coordonnees) < WalkThreshold
  }

  /** The condition of the LIAISON_TRAIN query for one link row. */
  predicate IsTrainLink(row: LinkRow, dep: Station, arr: Station)
    ensures IsTrainLink(row, dep, arr) ==> dep.ligne == Some(row.ligne) && arr.ligne == Some(row.ligne)
    ensures IsTrainLink(row, dep, arr) && row.start != row.stop ==> dep != arr
  {
    && dep.nomMaj == row.start && CypherEq(dep.ligne, Some(row.ligne))
    && arr.nomMaj == row.stop && CypherEq(arr.ligne, Some(row.ligne))
  }

  /** Some stored node with identifier id runs on line ligne. */
  predicate OnLine(ns: seq<Node>, id: nat, ligne: string)
  {
    exists n :: n in ns && n.id == id && n.station.ligne == Some(ligne)
  }

  function TransferRels(ns: seq<Node>): (rs: set<Rel>)
    ensures RelsWithin(ns, rs)
    ensures forall r :: r in rs ==> r.kind == CorrespondanceAvec
  {
    set m, n | m in ns && n in ns && IsTransfer(m.station, n.station)
      :: Rel(CorrespondanceAvec, m.id, n.id)
  }

  function WalkRels(ns: seq<Node>, dist: (Point, Point) -> real): (rs: set<Rel>)
    ensures RelsWithin(ns, rs)
    ensures forall r :: r in rs ==> r.kind == LiaisonPied
  {
    set m, n | m in ns && n in ns && IsWalk(m.station, n.station, dist)
      :: Rel(LiaisonPied, m.id, n.id)
  }

  /** The relationships the LIAISON_TRAIN query creates for one link row. */
  function TrainRelsForRow(ns: seq<Node>, row: LinkRow): (rs: set<Rel>)
    ensures RelsWithin(ns, rs)
    ensures forall r :: r in rs ==>
      r.kind == LiaisonTrain(row.ligne) && OnLine(ns, r.src, row.ligne) && OnLine(ns, r.dst, row.ligne)
  {
    set m, n | m in ns && n in ns && IsTrainLink(row, m.station, n.station)
      :: Rel(LiaisonTrain(row.ligne), m.id, n.id)
  }

  /** The relationships the LIAISON_TRAIN query creates for the whole link table. */
  function TrainRels(ns: seq<Node>, links: seq<LinkRow>): (rs: set<Rel>)
    ensures RelsWithin(ns, rs)
    ensures forall r :: r in rs ==>
      r.kind.LiaisonTrain? && OnLine(ns, r.src, r.kind.ligne) && OnLine(ns, r.dst, r.kind.ligne)
  {
    if links == [] then {}
    else TrainRels(ns, links[..|links| - 1]) + TrainRelsForRow(ns, links[|links| - 1])
  }

  /** A relationship of the whole link table comes from one of its rows. */
  lemma {:induction false} TrainRelsFromRow(ns: seq<Node>, links: seq<LinkRow>, r: Rel)
    requires r in TrainRels(ns, links)
    ensures exists i :: 0 <= i < |links| && r in TrainRelsForRow(ns, links[i])
    decreases |links|
  {
    var last := |links| - 1;
    var p := links[..last];
    if r in TrainRels(ns, p) {
      TrainRelsFromRow(ns, p, r);
      var i :| 0 <= i < |p| && r in TrainRelsForRow(ns, p[i]);
      assert p[i] == links[i];
    } else {
      assert r in TrainRelsForRow(ns, links[last]);
    }
  }

  /** Every relationship of one row is created by the query over the whole link table. */
  lemma {:induction false} TrainRelsOfRow(ns: seq<Node>, links: seq<LinkRow>, i: nat, r: Rel)
    requires i < |links| && r in TrainRelsForRow(ns, links[i])
    ensures r in TrainRels(ns, links)
    decreases |links|
  {
    var last := |links| - 1;
    var p := links[..last];
    var front, back := TrainRels(ns, p), TrainRelsForRow(ns, links[last]);
    assert TrainRels(ns, links) == front + back;
    if i < last {
      assert p[i] == links[i];
      TrainRelsOfRow(ns, p, i, r);
      assert r in front;
    } else {
      assert i == last;
    }
  }

  /**
    The LIAISON_TRAIN query over the whole link table creates exactly the
    relationships of the individual rows.
   */
  lemma TrainRelsIff(ns: seq<Node>, links: seq<LinkRow>, r: Rel)
    ensures r in TrainRels(ns, links)
        <==> exists i :: 0 <= i < |links| && r in TrainRelsForRow(ns, links[i])
  {
    if r in TrainRels(ns, links) {
      TrainRelsFromRow(ns, links, r);
    }
    if exists i :: 0 <= i < |links| && r in TrainRelsForRow(ns, links[i]) {
      var i :| 0 <= i < |links| && r in TrainRelsForRow(ns, links[i]);
      TrainRelsOfRow(ns, links, i, r);
    }
  }

  /** The three relationship queries, in the order the loader runs them. */
  datatype RelQuery = TransferQuery | WalkQuery | TrainQuery(links: seq<LinkRow>)

  function QueryRels(q: RelQuery, ns: seq<Node>, dist: (Point, Point) -> real): (rs: set<Rel>)
    ensures RelsWithin(ns, rs)
  {
    match q
    case TransferQuery => TransferRels(ns)
    case WalkQuery => WalkRels(ns, dist)
    case TrainQuery(links) => TrainRels(ns, links)
  }

  /** The relationships the queries qs create, run one after another over the nodes ns. */
  function QueriesRels(qs: seq<RelQuery>, ns: seq<Node>, dist: (Point, Point) -> real): set<Rel>
  {
    if qs == [] then {} else QueriesRels(qs[..|qs| - 1], ns, dist) + QueryRels(qs[|qs| - 1], ns, dist)
  }

  lemma QueriesRelsStep(qs: seq<RelQuery>, i: nat, ns: seq<Node>, dist: (Point, Point) -> real)
    requires i < |qs|
    ensures QueriesRels(qs[..i + 1], ns, dist) == QueriesRels(qs[..i], ns, dist) + QueryRels(qs[i], ns, dist)
  {
    assert qs[..i + 1][..i] == qs[..i];
  }

  /** The relationships a full load derives over the nodes ns. */
  function DerivedRels(ns: seq<Node>, links: seq<LinkRow>, dist: (Point, Point) -> real): (rs: set<Rel>)
    ensures RelsWithin(ns, rs)
    ensures forall r: Rel :: r.kind == CorrespondanceAvec ==> (r in rs <==> r in TransferRels(ns))
    ensures forall r: Rel :: r.kind == LiaisonPied ==> (r in rs <==> r in WalkRels(ns, dist))
    ensures forall r: Rel :: r.kind.LiaisonTrain? ==> (r in rs <==> r in TrainRels(ns, links))
  {
    TransferRels(ns) + WalkRels(ns, dist) + TrainRels(ns, links)
  }

  /** Runs one relationship query against the store. */
  method RunRelQuery(store: GraphStore, q: RelQuery)
    requires store.Valid()
    modifies store
    ensures store.Valid()
    ensures store.rels == old(store.rels) + QueryRels(q, store.nodes, store.dist)
    ensures store.nodes == old(store.nodes) && store.nextId == old(store.nextId)
  {
    store.CreateRels(QueryRels(q, store.nodes, store.dist));
  }

  /**
    The whole loader script: wipe, insert the station table, then run the
    three relationship queries in turn.
   */
  method LoadParisMetro(store: GraphStore, stations: seq<StationRow>, links: seq<LinkRow>)
    requires store.Valid()
    modifies store
    ensures store.Valid()
    ensures store.nodes == LoadedNodes(stations)
    ensures store.rels == DerivedRels(LoadedNodes(stations), links, store.dist)
    ensures store.nextId == |stations|
  {
    store.DetachDeleteAll();
    store.CreateNodes(StationsOf(stations));
    assert store.nodes == LoadedNodes(stations);
    var queries := [TransferQuery, WalkQuery, TrainQuery(links)];
    for i := 0 to |queries|
      invariant store.Valid()
      invariant store.nodes == LoadedNodes(stations) && store.nextId == |stations|
      invariant store.rels == QueriesRels(queries[..i], store.nodes, store.dist)
    {
      QueriesRelsStep(queries, i, store.nodes, store.dist);
      RunRelQuery(store, queries[i]);
    }
    assert queries[..|queries|] == queries;
    LoaderQueriesRels(store.nodes, links, store.dist);
  }

  lemma LoaderQueriesRels(ns: seq<Node>, links: seq<LinkRow>, dist: (Point, Point) -> real)
    ensures QueriesRels([TransferQuery, WalkQuery, TrainQuery(links)], ns, dist) == DerivedRels(ns, links, dist)
  {
    var qs := [TransferQuery, WalkQuery, TrainQuery(links)];
    assert qs[..2] == [TransferQuery, WalkQuery];
    assert qs[..2][..1] == [TransferQuery];
    assert qs[..2][..1][..0] == [];
    assert QueriesRels(qs[..2][..1], ns, dist) == TransferRels(ns);
    assert QueriesRels(qs[..2], ns, dist) == TransferRels(ns) + WalkRels(ns, dist);
  }

  /**
    Loading twice leaves the same graph as loading once: nodes1, rels1 and
    next1 are the store's state after the first load.
   */
  method LoadTwice(store: GraphStore, stations: seq<StationRow>, links: seq<LinkRow>)
    returns (nodes1: seq<Node>, rels1: set<Rel>, next1: nat)
    requires store.Valid()
    modifies store
    ensures store.Valid()
    ensures nodes1 == LoadedNodes(stations) && next1 == |stations|
    ensures rels1 == DerivedRels(LoadedNodes(stations), links, store.dist)
    ensures store.nodes == nodes1 && store.rels == rels1 && store.nextId == next1
  {
    LoadParisMetro(store, stations, links);
    nodes1, rels1, next1 := store.nodes, store.rels, store.nextId;
    LoadParisMetro(store, stations, links);
  }

  // ---------------------------------------------------------------------
  // Properties of the relationship rules

  lemma TransferEdgeIff(ns: seq<Node>, m: Node, n: Node)
    requires UniqueIds(ns) && m in ns && n in ns
    ensures Rel(CorrespondanceAvec, m.id, n.id) in TransferRels(ns)
        <==> m.station.nomMaj == n.station.nomMaj && CypherNeq(m.station.ligne, n.station.ligne)
  {
    if Rel(CorrespondanceAvec, m.id, n.id) in TransferRels(ns) {
      var m', n' :| m' in ns && n' in ns && IsTransfer(m'.station, n'.station)
        && Rel(CorrespondanceAvec, m'.id, n'.id) == Rel(CorrespondanceAvec, m.id, n.id);
      SameIdSameNode(ns, m, m');
      SameIdSameNode(ns, n, n');
    }
  }

  lemma TransferSymmetric(ns: seq<Node>, a: nat, b: nat)
    requires Rel(CorrespondanceAvec, a, b) in TransferRels(ns)
    ensures Rel(CorrespondanceAvec, b, a) in TransferRels(ns)
  {
    var m, n :| m in ns && n in ns && IsTransfer(m.station, n.station)
      && Rel(CorrespondanceAvec, m.id, n.id) == Rel(CorrespondanceAvec, a, b);
    assert IsTransfer(n.station, m.station);
  }

  lemma TransferIrreflexive(ns: seq<Node>, a: nat)
    requires UniqueIds(ns)
    ensures Rel(CorrespondanceAvec, a, a) !in TransferRels(ns)
  {
    if Rel(CorrespondanceAvec, a, a) in TransferRels(ns) {
      var m, n :| m in ns && n in ns && IsTransfer(m.station, n.station)
        && Rel(CorrespondanceAvec, m.id, n.id) == Rel(CorrespondanceAvec, a, a);
      SameIdSameNode(ns, m, n);
      assert false;
    }
  }

  lemma WalkEdgeIff(ns: seq<Node>, dist: (Point, Point) -> real, m: Node, n: Node)
    requires UniqueIds(ns) && m in ns && n in ns
    ensures Rel(LiaisonPied, m.id, n.id) in WalkRels(ns, dist)
        <==> m.station.nomMaj != n.station.nomMaj
             && dist(m.station.coordonnees, n.station.coordonnees) < 1000.0
  {
    if Rel(LiaisonPied, m.id, n.id) in WalkRels(ns, dist) {
      var m', n' :| m' in ns && n' in ns && IsWalk(m'.station, n'.station, dist)
        && Rel(LiaisonPied, m'.id, n'.id) == Rel(LiaisonPied, m.id, n.id);
      SameIdSameNode(ns, m, m');
      SameIdSameNode(ns, n, n');
    }
  }

  lemma WalkSymmetric(ns: seq<Node>, dist: (Point, Point) -> real, a: nat, b: nat)
    requires forall p, q :: dist(p, q) == dist(q, p)
    requires Rel(LiaisonPied, a, b) in WalkRels(ns, dist)
    ensures Rel(LiaisonPied, b, a) in WalkRels(ns, dist)
  {
    var m, n :| m in ns && n in ns && IsWalk(m.station, n.station, dist)
      && Rel(LiaisonPied, m.id, n.id) == Rel(LiaisonPied, a, b);
    assert IsWalk(n.station, m.station, dist);
  }

  lemma WalkIrreflexive(ns: seq<Node>, dist: (Point, Point) -> real, a: nat)
    requires UniqueIds(ns)
    ensures Rel(LiaisonPied, a, a) !in WalkRels(ns, dist)
  {
    if Rel(LiaisonPied, a, a) in WalkRels(ns, dist) {
      var m, n :| m in ns && n in ns && IsWalk(m.station, n.station, dist)
        && Rel(LiaisonPied, m.id, n.id) == Rel(LiaisonPied, a, a);
      SameIdSameNode(ns, m, n);
      assert false;
    }
  }

  /** No ordered pair of nodes is joined both by a transfer and by a walking link. */
  lemma TransferWalkDisjoint(ns: seq<Node>, dist: (Point, Point) -> real, a: nat, b: nat)
    requires UniqueIds(ns)
    ensures !(Rel(CorrespondanceAvec, a, b) in TransferRels(ns) && Rel(LiaisonPied, a, b) in WalkRels(ns, dist))
  {
    if Rel(CorrespondanceAvec, a, b) in TransferRels(ns) && Rel(LiaisonPied, a, b) in WalkRels(ns, dist) {
      var m, n :| m in ns && n in ns && IsTransfer(m.station, n.station)
        && Rel(CorrespondanceAvec, m.id, n.id) == Rel(CorrespondanceAvec, a, b);
      var m', n' :| m' in ns && n' in ns && IsWalk(m'.station, n'.station, dist)
        && Rel(LiaisonPied, m'.id, n'.id) == Rel(LiaisonPied, a, b);
      SameIdSameNode(ns, m, m');
      SameIdSameNode(ns, n, n');
      assert false;
    }
  }

  lemma TrainEdgeIff(ns: seq<Node>, row: LinkRow, m: Node, n: Node)
    requires UniqueIds(ns) && m in ns && n in ns
    ensures Rel(LiaisonTrain(row.ligne), m.id, n.id) in TrainRelsForRow(ns, row)
        <==> m.station.nomMaj == row.start && m.station.ligne == Some(row.ligne)
             && n.station.nomMaj == row.stop && n.station.ligne == Some(row.ligne)
  {
    if Rel(LiaisonTrain(row.ligne), m.id, n.id) in TrainRelsForRow(ns, row) {
      var m', n' :| m' in ns && n' in ns && IsTrainLink(row, m'.station, n'.station)
        && Rel(LiaisonTrain(row.ligne), m'.id, n'.id) == Rel(LiaisonTrain(row.ligne), m.id, n.id);
      SameIdSameNode(ns, m, m');
      SameIdSameNode(ns, n, n');
    }
  }

  /** A link row naming a station absent from its line creates no relationship. */
  lemma TrainUnknownStation(ns: seq<Node>, row: LinkRow)
    requires || (forall n :: n in ns && n.station.ligne == Some(row.ligne) ==> n.station.nomMaj != row.start)
             || (forall n :: n in ns && n.station.ligne == Some(row.ligne) ==> n.station.nomMaj != row.stop)
    ensures TrainRelsForRow(ns, row) == {}
  {
  }
}
