/**
  The graph store as the two scripts see it: a collection of nodes labelled
  Station and a collection of typed relationships between them. The
  database engine itself (driver, sessions, query parsing) is not modelled.
  Each write query the scripts send (the wipe, a node CREATE, a relationship
  CREATE, a named DETACH DELETE) becomes one method of GraphStore whose
  contract says exactly what the query does to the stored graph; the read
  queries are functions of the stored nodes (or parameters) elsewhere.
 */
module MetroGraph {

  datatype Option<+T> = None | Some(value: T)

  /** A projected coordinate pair, in metres. */
  datatype Point = Point(x: real, y: real)

  /**
    The properties of a Station node. Properties a node may lack are Option
    values standing for Cypher's null: the temporary endpoint nodes of a
    route computation have no line, ridership or town.
   */
  datatype Station = Station(nom: string, nomMaj: string, coordonnees: Point,
                             trafic: Option<int>, ville: Option<string>,
                             ligne: Option<string>)

  /** A stored node: the engine's identifier and its properties. */
  datatype Node = Node(id: nat, station: Station)

  /** The three relationship types of the metro graph. */
  datatype RelKind = CorrespondanceAvec | LiaisonPied | LiaisonTrain(ligne: string)

  /** A directed relationship between the nodes with identifiers src and dst. */
  datatype Rel = Rel(kind: RelKind, src: nat, dst: nat)

  /** Cypher's `a = b` used as a WHERE condition: null on either side is not true. */
  predicate CypherEq(a: Option<string>, b: Option<string>)
  {
    a.Some? && b.Some? && a.value == b.value
  }

  /** Cypher's `a <> b` used as a WHERE condition: null on either side is not true. */
  predicate CypherNeq(a: Option<string>, b: Option<string>)
  {
    a.Some? && b.Some? && a.value != b.value
  }

  function Ids(ns: seq<Node>): set<nat>
  {
    set n | n in ns :: n.id
  }

  /** No two stored nodes share an identifier. */
  predicate UniqueIds(ns: seq<Node>)
  {
    forall i, j :: 0 <= i < j < |ns| ==> ns[i].id != ns[j].id
  }

  /** Every relationship connects two stored nodes. */
  predicate RelsWithin(ns: seq<Node>, rs: set<Rel>)
  {
    forall r :: r in rs ==> r.src in Ids(ns) && r.dst in Ids(ns)
  }

  lemma SameIdSameNode(ns: seq<Node>, m: Node, n: Node)
    requires UniqueIds(ns) && m in ns && n in ns && m.id == n.id
    ensures m == n
  {
    var i :| 0 <= i < |ns| && ns[i] == m;
    var j :| 0 <= j < |ns| && ns[j] == n;
    assert i == j;
  }

  /** The nodes stations gets when created one after another from identifier start on. */
  function Numbered(start: nat, ss: seq<Station>): (r: seq<Node>)
    ensures |r| == |ss|
    ensures forall i :: 0 <= i < |ss| ==> r[i] == Node(start + i, ss[i])
    decreases |ss|
  {
    if ss == [] then [] else [Node(start, ss[0])] + Numbered(start + 1, ss[1..])
  }

  /**
    The node list left by MATCH (n {nom_maj: name}) DETACH DELETE n: the
    nodes carrying another name, in their stored order.
   */
  function Without(ns: seq<Node>, name: string): (r: seq<Node>)
    ensures forall n :: n in r <==> n in ns && n.station.nomMaj != name
    ensures |r| <= |ns|
  {
    if ns == [] then []
    else (if ns[0].station.nomMaj == name then [] else [ns[0]]) + Without(ns[1..], name)
  }

  /** The identifiers of the nodes named name. */
  function NamedIds(ns: seq<Node>, name: string): set<nat>
  {
    set n | n in ns && n.station.nomMaj == name :: n.id
  }

  /** The relationships that touch none of the nodes in gone. */
  function Detach(rs: set<Rel>, gone: set<nat>): (r: set<Rel>)
    ensures r <= rs
  {
    set x | x in rs && x.src !in gone && x.dst !in gone
  }

  /** A stored identifier escapes the named deletion iff its node stays. */
  lemma IdSurvives(ns: seq<Node>, name: string, id: nat)
    requires UniqueIds(ns) && id in Ids(ns)
    ensures id !in NamedIds(ns, name) <==> id in Ids(Without(ns, name))
  {
    var a :| a in ns && a.id == id;
    if id in NamedIds(ns, name) {
      var c :| c in ns && c.station.nomMaj == name && c.id == id;
      if id in Ids(Without(ns, name)) {
        var b :| b in Without(ns, name) && b.id == id;
        SameIdSameNode(ns, b, c);
      }
    } else {
      assert a in Without(ns, name);
    }
  }

  /**
    MATCH (n {nom_maj: name}) DETACH DELETE n keeps a relationship exactly
    when both of its endpoints survive the deletion.
   */
  lemma DetachKeepsSurvivors(ns: seq<Node>, rs: set<Rel>, name: string, r: Rel)
    requires UniqueIds(ns) && RelsWithin(ns, rs)
    ensures r in Detach(rs, NamedIds(ns, name))
        <==> r in rs && r.src in Ids(Without(ns, name)) && r.dst in Ids(Without(ns, name))
  {
    if r in rs {
      IdSurvives(ns, name, r.src);
      IdSurvives(ns, name, r.dst);
    }
  }

  lemma {:induction false} WithoutKeepsUniqueIds(ns: seq<Node>, name: string)
    requires UniqueIds(ns)
    ensures UniqueIds(Without(ns, name))
  {
    if ns != [] {
      var t := ns[1..];
      assert UniqueIds(t) by {
        forall i, j | 0 <= i < j < |t| ensures t[i].id != t[j].id {
          assert t[i] == ns[i + 1] && t[j] == ns[j + 1];
        }
      }
      WithoutKeepsUniqueIds(t, name);
      var w := Without(t, name);
      forall n | n in w ensures n.id != ns[0].id {
        var j :| 0 <= j < |t| && t[j] == n;
        assert ns[j + 1] == n;
      }
      var h: seq<Node> := if ns[0].station.nomMaj == name then [] else [ns[0]];
      assert Without(ns, name) == h + w;
      forall i, j | 0 <= i < j < |h + w| ensures (h + w)[i].id != (h + w)[j].id {
        if h != [] && i == 0 {
          assert (h + w)[j] == w[j - 1];
          assert w[j - 1] in w;
        } else {
          assert (h + w)[i] == w[i - |h|] && (h + w)[j] == w[j - |h|];
        }
      }
    }
  }

  lemma NumberedIds(start: nat, ss: seq<Station>, n: Node)
    requires n in Numbered(start, ss)
    ensures start <= n.id < start + |ss|
  {
    var r := Numbered(start, ss);
    var i :| 0 <= i < |r| && r[i] == n;
  }

  /**
    The graph store. dist is the engine's point distance function (Cypher's
    `distance` on two points); it stays abstract because the model does not
    compute square roots.
   */
  class GraphStore {
    var nodes: seq<Node>
    var rels: set<Rel>
    var nextId: nat
    const dist: (Point, Point) -> real

    /** Identifiers are unique and below nextId; relationships connect stored nodes. */
    ghost predicate Valid()
      reads this
    {
      && (forall n :: n in nodes ==> n.id < nextId)
      && UniqueIds(nodes)
      && RelsWithin(nodes, rels)
    }

    constructor (dist: (Point, Point) -> real)
      ensures Valid()
      ensures nodes == [] && rels == {} && nextId == 0 && this.dist == dist
    {
      nodes, rels, nextId := [], {}, 0;
      this.dist := dist;
    }

    /** MATCH (n) DETACH DELETE n. Identifiers start again from 0 afterwards. */
    method DetachDeleteAll()
      requires Valid()
      modifies this
      ensures Valid()
      ensures nodes == [] && rels == {} && nextId == 0
    {
      nodes, rels, nextId := [], {}, 0;
    }

    /** CREATE (:Station {...}) for one property record; returns the new node's identifier. */
    method CreateNode(s: Station) returns (id: nat)
      requires Valid()
      modifies this
      ensures Valid()
      ensures id == old(nextId) && id !in Ids(old(nodes))
      ensures nodes == old(nodes) + [Node(id, s)]
      ensures rels == old(rels) && nextId == old(nextId) + 1
    {
      id := nextId;
      var n := Node(id, s);
      forall i, j | 0 <= i < j < |nodes + [n]| ensures (nodes + [n])[i].id != (nodes + [n])[j].id {
        assert (nodes + [n])[i] in nodes;
      }
      nodes := nodes + [n];
      nextId := nextId + 1;
    }

    /** One CREATE (:Station {...}) per record of ss, in order. */
    method CreateNodes(ss: seq<Station>)
      requires Valid()
      modifies this
      ensures Valid()
      ensures nodes == old(nodes) + Numbered(old(nextId), ss)
      ensures rels == old(rels) && nextId == old(nextId) + |ss|
    {
      var created := Numbered(nextId, ss);
      forall n | n in created ensures nextId <= n.id < nextId + |ss| {
        NumberedIds(nextId, ss, n);
      }
      var all := nodes + created;
      forall i, j | 0 <= i < j < |all| ensures all[i].id != all[j].id {
        if j < |nodes| {
          assert all[i] == nodes[i] && all[j] == nodes[j];
        } else if i < |nodes| {
          assert all[i] in nodes && all[j] == created[j - |nodes|];
        } else {
          assert all[i] == created[i - |nodes|] && all[j] == created[j - |nodes|];
        }
      }
      assert forall n :: n in all ==> n in nodes || n in created;
      nodes := all;
      nextId := nextId + |ss|;
    }

    /** MATCH (n {nom_maj: name}) DETACH DELETE n. */
    method DetachDeleteNamed(name: string)
      requires Valid()
      modifies this
      ensures Valid()
      ensures nodes == Without(old(nodes), name)
      ensures rels == Detach(old(rels), NamedIds(old(nodes), name))
      ensures nextId == old(nextId)
    {
      var gone := NamedIds(nodes, name);
      var kept := Without(nodes, name);
      WithoutKeepsUniqueIds(nodes, name);
      var rs := Detach(rels, gone);
      forall r | r in rs ensures r.src in Ids(kept) && r.dst in Ids(kept) {
        var a :| a in nodes && a.id == r.src;
        var b :| b in nodes && b.id == r.dst;
        assert a in kept && b in kept;
      }
      nodes, rels := kept, rs;
    }

    /** CREATE of the relationships rs between stored nodes. */
    method CreateRels(rs: set<Rel>)
      requires Valid() && RelsWithin(nodes, rs)
      modifies this
      ensures Valid()
      ensures rels == old(rels) + rs
      ensures nodes == old(nodes) && nextId == old(nextId)
    {
      rels := rels + rs;
    }
  }
}
