/**
  Nearest-station snapping: the query that pairs the temporary endpoint
  node named DEPART (or ARRIVEE) with every real station, orders the rows by
  distance and keeps the first.
 */
module Snapping {
  import opened MetroGraph

  /** The names of the two temporary endpoint nodes of a route computation. */
  const Depart: string := "DEPART"
  const Arrivee: string := "ARRIVEE"

  predicate IsSentinel(name: string)
  {
    name == Depart || name == Arrivee
  }

  /** The store holds at least one real (non-sentinel) station. */
  predicate HasStation(ns: seq<Node>)
  {
    exists n :: n in ns && !IsSentinel(n.station.nomMaj)
  }

  /** One row of the nearest-station query: a station's nom_maj and its distance. */
  datatype Snap = Snap(name: string, distance: real)

  /** The row the query builds for origin o and target t. */
  function SnapRow(o: Node, t: Node, dist: (Point, Point) -> real): Snap
  {
    Snap(t.station.nomMaj, dist(o.station.coordonnees, t.station.coordonnees))
  }

  /** The rows for one origin: one per real station among targets. */
  function RowsFrom(o: Node, targets: seq<Node>, dist: (Point, Point) -> real): (rows: seq<Snap>)
    ensures forall r :: r in rows <==>
      exists t :: t in targets && !IsSentinel(t.station.nomMaj) && r == SnapRow(o, t, dist)
  {
    if targets == [] then []
    else
      var rest := RowsFrom(o, targets[1..], dist);
      assert forall t :: t in targets[1..] ==> t in targets;
      assert forall t :: t in targets ==> t == targets[0] || t in targets[1..];
      (if IsSentinel(targets[0].station.nomMaj) then [] else [SnapRow(o, targets[0], dist)]) + rest
  }

  /**
    All rows of MATCH (s0 {nom_maj: sentinel}) MATCH (s) WHERE s is no
    sentinel: one per pair of an origin named sentinel and a real station.
   */
  function Candidates(origins: seq<Node>, all: seq<Node>, sentinel: string,
                      dist: (Point, Point) -> real): (rows: seq<Snap>)
    ensures forall r :: r in rows <==>
      exists o, t :: o in origins && o.station.nomMaj == sentinel
                     && t in all && !IsSentinel(t.station.nomMaj) && r == SnapRow(o, t, dist)
  {
    if origins == [] then []
    else
      var rest := Candidates(origins[1..], all, sentinel, dist);
      assert forall o :: o in origins[1..] ==> o in origins;
      assert forall o :: o in origins ==> o == origins[0] || o in origins[1..];
      (if origins[0].station.nomMaj == sentinel then RowsFrom(origins[0], all, dist) else []) + rest
  }

  /**
    ORDER BY distance LIMIT 1: a row of least distance, or None when there
    are no rows. On equal distances the earliest row wins; the engine's own
    choice among equal rows is unspecified.
   */
  function MinRow(rows: seq<Snap>): (r: Option<Snap>)
    ensures r.None? <==> rows == []
    ensures r.Some? ==> r.value in rows
    ensures r.Some? ==> forall x :: x in rows ==> r.value.distance <= x.distance
  {
    if rows == [] then None
    else
      match MinRow(rows[1..])
      case None => Some(rows[0])
      case Some(m) => if m.distance < rows[0].distance then Some(m) else Some(rows[0])
  }

  /** The query has no rows exactly when no origin is named sentinel or no target is a real station. */
  lemma CandidatesEmpty(origins: seq<Node>, all: seq<Node>, sentinel: string, dist: (Point, Point) -> real)
    ensures Candidates(origins, all, sentinel, dist) == []
        <==> (forall o :: o in origins ==> o.station.nomMaj != sentinel) || !HasStation(all)
  {
    var rows := Candidates(origins, all, sentinel, dist);
    if rows != [] {
      assert rows[0] in rows;
    }
    if o :| o in origins && o.station.nomMaj == sentinel {
      if t :| t in all && !IsSentinel(t.station.nomMaj) {
        assert SnapRow(o, t, dist) in rows;
      }
    }
  }

  /**
    The nearest-station query for the endpoint node named sentinel; None
    stands for `result[0]` failing on an empty answer.
   */
  function Nearest(ns: seq<Node>, sentinel: string, dist: (Point, Point) -> real): (r: Option<Snap>)
    ensures r.None? <==> (forall n :: n in ns ==> n.station.nomMaj != sentinel) || !HasStation(ns)
    ensures r.Some? ==> !IsSentinel(r.value.name)
    ensures r.Some? ==> exists o, t ::
      o in ns && o.station.nomMaj == sentinel && t in ns && !IsSentinel(t.station.nomMaj)
      && r.value == SnapRow(o, t, dist)
    ensures r.Some? ==> forall o, t ::
      (o in ns && o.station.nomMaj == sentinel && t in ns && !IsSentinel(t.station.nomMaj))
      ==> r.value.distance <= SnapRow(o, t, dist).distance
  {
    CandidatesEmpty(ns, ns, sentinel, dist);
    MinRow(Candidates(ns, ns, sentinel, dist))
  }

  /** snap names a real station of ns lying at least distance-minimal from q. */
  ghost predicate IsNearest(ns: seq<Node>, q: Point, dist: (Point, Point) -> real, snap: Snap)
  {
    && !IsSentinel(snap.name)
    && (exists t :: t in ns && !IsSentinel(t.station.nomMaj)
                    && snap.name == t.station.nomMaj && snap.distance == dist(q, t.station.coordonnees))
    && (forall t :: t in ns && !IsSentinel(t.station.nomMaj) ==> snap.distance <= dist(q, t.station.coordonnees))
  }

  /**
    When every node named sentinel sits at q (in particular when there is
    exactly one, created at q), the lookup returns a nearest real station
    to q whenever one exists.
   */
  lemma NearestFromPoint(ns: seq<Node>, sentinel: string, q: Point, dist: (Point, Point) -> real)
    requires exists o :: o in ns && o.station.nomMaj == sentinel
    requires forall o :: o in ns && o.station.nomMaj == sentinel ==> o.station.coordonnees == q
    ensures Nearest(ns, sentinel, dist).Some? <==> HasStation(ns)
    ensures Nearest(ns, sentinel, dist).Some? ==> IsNearest(ns, q, dist, Nearest(ns, sentinel, dist).value)
  {
    var r := Nearest(ns, sentinel, dist);
    if r.Some? {
      var rows := Candidates(ns, ns, sentinel, dist);
      var o :| o in ns && o.station.nomMaj == sentinel;
      forall t | t in ns && !IsSentinel(t.station.nomMaj)
        ensures r.value.distance <= dist(q, t.station.coordonnees)
      {
        assert SnapRow(o, t, dist) in rows;
      }
    }
  }

  /** A query point on top of a real station snaps to distance 0 under a metric distance. */
  lemma SnapToCoincidentStation(ns: seq<Node>, sentinel: string, q: Point, s: Node,
                                dist: (Point, Point) -> real)
    requires exists o :: o in ns && o.station.nomMaj == sentinel
    requires forall o :: o in ns && o.station.nomMaj == sentinel ==> o.station.coordonnees == q
    requires s in ns && !IsSentinel(s.station.nomMaj) && s.station.coordonnees == q
    requires forall p, p' :: dist(p, p') >= 0.0
    requires forall p :: dist(p, p) == 0.0
    ensures Nearest(ns, sentinel, dist).Some?
    ensures Nearest(ns, sentinel, dist).value.distance == 0.0
  {
    NearestFromPoint(ns, sentinel, q, dist);
  }
}
