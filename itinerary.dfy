/**
  Summarising the path the shortest-path engine returns: the route table,
  the number of connections (line changes), the number of stations and the
  distance travelled by metro.
 */
module Itinerary {
  import opened MetroGraph

  /** One row of the route table: Station_maj, Station and Ligne. */
  datatype RouteRow = RouteRow(stationMaj: string, station: string, ligne: Option<string>)

  function RowOf(s: Station): RouteRow
  {
    RouteRow(s.nomMaj, s.nom, s.ligne)
  }

  /** The nom_maj column of a path. */
  function Names(path: seq<Station>): (names: seq<string>)
    ensures |names| == |path|
    ensures forall i :: 0 <= i < |path| ==> names[i] == path[i].nomMaj
  {
    if path == [] then [] else [path[0].nomMaj] + Names(path[1..])
  }

  // ---------------------------------------------------------------------
  // Connections

  /** The number of positions i >= 1 whose name repeats the one before. */
  function AdjacentRepeats(names: seq<string>): nat
  {
    if |names| <= 1 then 0
    else AdjacentRepeats(names[..|names| - 1])
         + (if names[|names| - 1] == names[|names| - 2] then 1 else 0)
  }

  /** Position i repeats the name at position i - 1. */
  predicate RepeatsAt(names: seq<string>, i: nat)
  {
    0 < i < |names| && names[i] == names[i - 1]
  }

  /** The same positions, as a set. */
  function RepeatIndices(names: seq<string>): set<nat>
  {
    set i: nat | i < |names| && RepeatsAt(names, i)
  }

  /** The distinct names of a path: pandas' unique() on the Station_maj column. */
  function DistinctNames(names: seq<string>): set<string>
  {
    set n | n in names
  }

  /**
    The connection count the loop produces. Its comparison variable starts
    as the empty string, so a first record whose nom_maj is empty counts as
    one connection too.
   */
  function Connections(names: seq<string>): (c: nat)
    ensures c == (if |names| > 0 && names[0] == "" then 1 else 0) + |RepeatIndices(names)|
  {
    AdjacentRepeatsCountsIndices(names);
    (if |names| > 0 && names[0] == "" then 1 else 0) + AdjacentRepeats(names)
  }

  /** nb_stations: the number of distinct names, minus one for the departure. */
  function StationCount(names: seq<string>): (k: int)
    ensures |names| == 0 ==> k == -1
    ensures |names| > 0 ==> 0 <= k <= |names| - 1 - AdjacentRepeats(names)
  {
    if |names| > 0 then
      DistinctPlusRepeats(names);
      assert names[0] in DistinctNames(names);
      |DistinctNames(names)| - 1
    else
      assert DistinctNames(names) == {};
      |DistinctNames(names)| - 1
  }

  /**
    The loop that builds the route table and counts connections: one row
    per record, in order, and a connection whenever a record's nom_maj
    equals the previous record's.
   */
  method Summarise(path: seq<Station>) returns (table: seq<RouteRow>, nbConnections: nat)
    ensures |table| == |path|
    ensures forall i :: 0 <= i < |path| ==> table[i] == RouteRow(path[i].nomMaj, path[i].nom, path[i].ligne)
    ensures nbConnections == Connections(Names(path))
  {
    ghost var names := Names(path);
    var previousStation := "";
    nbConnections := 0;
    table := [];
    for i := 0 to |path|
      invariant |table| == i
      invariant forall k :: 0 <= k < i ==> table[k] == RowOf(path[k])
      invariant previousStation == if i == 0 then "" else path[i - 1].nomMaj
      invariant nbConnections == Connections(names[..i])
    {
      table := table + [RowOf(path[i])];
      assert names[..i + 1][..i] == names[..i];
      if previousStation == path[i].nomMaj {
        nbConnections := nbConnections + 1;
      }
      previousStation := path[i].nomMaj;
    }
    assert names[..|path|] == names;
  }

  lemma {:induction false} AdjacentRepeatsCountsIndices(names: seq<string>)
    ensures AdjacentRepeats(names) == |RepeatIndices(names)|
    decreases |names|
  {
    if |names| <= 1 {
      assert RepeatIndices(names) == {};
    } else {
      var n := |names|;
      var p := names[..n - 1];
      AdjacentRepeatsCountsIndices(p);
      assert RepeatIndices(names) == RepeatIndices(p) + (if names[n - 1] == names[n - 2] then {n - 1} else {}) by {
        forall i: nat | i < n - 1 ensures RepeatsAt(names, i) == RepeatsAt(p, i) {
          if 0 < i {
            assert p[i] == names[i] && p[i - 1] == names[i - 1];
          }
        }
      }
      assert n - 1 !in RepeatIndices(p);
    }
  }

  /** For a path starting with a non-empty name, connections are exactly the adjacent repeats. */
  lemma ConnectionsAreRepeats(names: seq<string>)
    requires |names| == 0 || names[0] != ""
    ensures Connections(names) == |RepeatIndices(names)|
  {
    AdjacentRepeatsCountsIndices(names);
  }

  lemma {:induction false} AdjacentRepeatsBound(names: seq<string>)
    ensures |names| == 0 ==> AdjacentRepeats(names) == 0
    ensures |names| > 0 ==> AdjacentRepeats(names) <= |names| - 1
  {
    if |names| > 1 {
      AdjacentRepeatsBound(names[..|names| - 1]);
    }
  }

  /** nb_connections <= max(0, len - 1) for a path whose first name is non-empty. */
  lemma ConnectionsBound(names: seq<string>)
    requires |names| == 0 || names[0] != ""
    ensures Connections(names) <= if |names| == 0 then 0 else |names| - 1
  {
    AdjacentRepeatsBound(names);
  }

  lemma NoRepeatsNoConnections(names: seq<string>)
    requires |names| == 0 || names[0] != ""
    requires forall i :: 1 <= i < |names| ==> names[i] != names[i - 1]
    ensures Connections(names) == 0
  {
    ConnectionsAreRepeats(names);
    assert RepeatIndices(names) == {};
  }

  lemma DistinctOfSnoc(p: seq<string>, x: string)
    ensures DistinctNames(p + [x]) == DistinctNames(p) + {x}
  {
    assert forall n :: n in p + [x] <==> n in p || n == x;
  }

  lemma {:induction false} DistinctPlusRepeats(names: seq<string>)
    requires |names| > 0
    ensures |DistinctNames(names)| + AdjacentRepeats(names) <= |names|
    decreases |names|
  {
    var n := |names|;
    if n == 1 {
      assert DistinctNames(names) == {names[0]};
    } else {
      var p := names[..n - 1];
      assert names == p + [names[n - 1]];
      DistinctOfSnoc(p, names[n - 1]);
      DistinctPlusRepeats(p);
      if names[n - 1] == names[n - 2] {
        assert names[n - 1] in p;
        assert DistinctNames(p) + {names[n - 1]} == DistinctNames(p);
      }
    }
  }

  /** nb_stations is -1 for an empty path, and in [0, len - 1] otherwise. */
  lemma StationCountBounds(names: seq<string>)
    ensures |names| == 0 ==> StationCount(names) == -1
    ensures |names| > 0 ==> 0 <= StationCount(names) <= |names| - 1
  {
    if |names| > 0 {
      DistinctPlusRepeats(names);
      assert names[0] in DistinctNames(names);
    } else {
      assert DistinctNames(names) == {};
    }
  }

  /** Each connection merges two records into one stop: nb_stations + nb_connections <= len - 1. */
  lemma StationsPlusConnections(names: seq<string>)
    requires |names| > 0 && names[0] != ""
    ensures StationCount(names) + Connections(names) <= |names| - 1
  {
    DistinctPlusRepeats(names);
  }

  /** A path A, A, B, B, C has two connections and two visited stations. */
  lemma ExampleTwoConnections()
    ensures Connections(["A", "A", "B", "B", "C"]) == 2
    ensures StationCount(["A", "A", "B", "B", "C"]) == 2
  {
    var s := ["A", "A", "B", "B", "C"];
    assert s[..4] == ["A", "A", "B", "B"];
    assert s[..4][..3] == ["A", "A", "B"];
    assert s[..4][..3][..2] == ["A", "A"];
    assert s[..4][..3][..2][..1] == ["A"];
    assert AdjacentRepeats(s[..4][..3][..2]) == 1;
    assert AdjacentRepeats(s[..4][..3]) == 1;
    assert AdjacentRepeats(s[..4]) == 2;
    assert DistinctNames(s) == {"A", "B", "C"};
  }

  // ---------------------------------------------------------------------
  // Distance travelled by metro

  /** The distance along names: one segment per consecutive pair. */
  function PathDistance(names: seq<string>, segment: (string, string) -> real): (d: real)
    ensures |names| <= 1 ==> d == 0.0
    ensures (forall a, b :: segment(a, b) >= 0.0) ==> d >= 0.0
    decreases |names|
  {
    if |names| <= 1 then 0.0 else segment(names[0], names[1]) + PathDistance(names[1..], segment)
  }

  /** Python's sum of a list of distances. */
  function Sum(ds: seq<real>): (s: real)
    ensures (forall i :: 0 <= i < |ds| ==> ds[i] >= 0.0) ==> s >= 0.0
    ensures |ds| == 1 ==> s == ds[0]
  {
    if ds == [] then 0.0 else ds[0] + Sum(ds[1..])
  }

  /**
    The loop that asks the store for the distance of each consecutive pair
    of the route table's names and collects the answers. segment is the
    store's answer for a pair of names.
   */
  method SegmentDistances(names: seq<string>, segment: (string, string) -> real)
    returns (listDistances: seq<real>)
    ensures |listDistances| == if |names| == 0 then 0 else |names| - 1
    ensures forall i :: 0 <= i < |listDistances| ==> listDistances[i] == segment(names[i], names[i + 1])
  {
    listDistances := [];
    var i := 0;
    while i < |names| - 1
      invariant 0 <= i <= if |names| == 0 then 0 else |names| - 1
      invariant |listDistances| == i
      invariant forall k :: 0 <= k < i ==> listDistances[k] == segment(names[k], names[k + 1])
    {
      listDistances := listDistances + [segment(names[i], names[i + 1])];
      i := i + 1;
    }
  }

  /** Summing the collected pair distances gives the distance along the path. */
  lemma {:induction false} SumOfSegments(names: seq<string>, segment: (string, string) -> real, ds: seq<real>)
    requires |ds| == if |names| == 0 then 0 else |names| - 1
    requires forall i :: 0 <= i < |ds| ==> ds[i] == segment(names[i], names[i + 1])
    ensures Sum(ds) == PathDistance(names, segment)
    decreases |names|
  {
    if |names| > 1 {
      SumOfSegments(names[1..], segment, ds[1..]);
    }
  }

  lemma {:induction false} PathDistanceNonNegative(names: seq<string>, segment: (string, string) -> real)
    requires forall a, b :: segment(a, b) >= 0.0
    ensures PathDistance(names, segment) >= 0.0
    decreases |names|
  {
    if |names| > 1 {
      PathDistanceNonNegative(names[1..], segment);
    }
  }

  lemma ShortPathNoDistance(names: seq<string>, segment: (string, string) -> real)
    requires |names| <= 1
    ensures PathDistance(names, segment) == 0.0
  {
  }
}
