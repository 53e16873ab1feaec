/**
 * The graph builder of the dashboard assets: every relationship record loaded from the
 * cleaned JSON file gives an edge from its first entity to its second, and every entity
 * gives one node, whose attributes come from the record in which it first appears.
 * A record that is not a dict, a "Threat Assessment" that is not a dict, or an entity
 * that is a list or a dict (which a Python set cannot hold) raises, and the script stops.
 * Python's `str()`, which renders a value inside the node's title, is a parameter.
 */
module NodeGenerator {
  import opened Wrappers
  import opened JsonValue
  import opened Seqs

  /** The fields the loop reads from one record, after the defaults are applied. */
  datatype Fields = Fields(entity1: Json, entity2: Json, relationship: Json,
                           threatLevel: Json, threatType: Json, location1: Json, location2: Json)

  datatype Node = Node(id: Json, nodeLabel: Json, shape: string, color: string, title: string,
                       threatLevel: Json, location: Json, threatType: Json)

  datatype Edge = Edge(from: Json, to: Json, title: Json, threatLevel: Json)

  /** Values a Python set can hold: anything but a list or a dict. */
  predicate Hashable(v: Json) {
    !v.JArr? && !v.JObj?
  }

  /** The message of the `AttributeError` raised by calling `.get` on a non-dict. */
  function NoGet(v: Json): string {
    "'" + TypeName(v) + "' object has no attribute 'get'"
  }

  /** The message of the `TypeError` raised by looking a list or a dict up in a set. */
  function Unhashable(v: Json): string {
    "unhashable type: '" + TypeName(v) + "'"
  }

  /** The `record.get(...)` calls of one round, with their defaults. */
  function RecordFields(record: Json): (r: Result<Fields, string>)
    ensures r.Ok? <==> record.JObj? && match Lookup(record.members, "Threat Assessment")
                                       case None => true
                                       case Some(a) => a.JObj?
  {
    match record
    case JObj(ms) =>
      var assessment := Get(ms, "Threat Assessment", JObj([]));
      if !assessment.JObj? then Err(NoGet(assessment))
      else Ok(Fields(Get(ms, "Entity 1", JNull),
                     Get(ms, "Entity 2", JNull),
                     Get(ms, "Relationship Summary", JStr("Unknown relationship")),
                     Get(assessment.members, "Threat Level", JInt(1)),
                     Get(assessment.members, "Type", JStr("Unknown Type")),
                     Get(ms, "Origin Location 1", JStr("Unknown Location")),
                     Get(ms, "Origin Location 2", JStr("Unknown Location"))))
    case _ => Err(NoGet(record))
  }

  /** One round's reads and the two set lookups, which raise for a list or a dict. */
  function CheckedFields(record: Json): (r: Result<Fields, string>)
    ensures r.Ok? <==> RecordFields(record).Ok?
                       && Hashable(RecordFields(record).value.entity1)
                       && Hashable(RecordFields(record).value.entity2)
    ensures r.Ok? ==> r == RecordFields(record)
  {
    match RecordFields(record)
    case Err(e) => Err(e)
    case Ok(f) =>
      if !Hashable(f.entity1) then Err(Unhashable(f.entity1))
      else if !Hashable(f.entity2) then Err(Unhashable(f.entity2))
      else Ok(f)
  }

  /** The results of `check` on every element, or the error of the first that fails. */
  function Collect<T, U>(data: seq<T>, check: T -> Result<U, string>): Result<seq<U>, string>
    decreases |data|
  {
    if data == [] then Ok([])
    else match Collect(data[..|data| - 1], check)
      case Err(e) => Err(e)
      case Ok(fs) =>
        match check(data[|data| - 1])
        case Err(e) => Err(e)
        case Ok(f) => Ok(fs + [f])
  }

  function CheckRecord(): Json -> Result<Fields, string> {
    (record: Json) => CheckedFields(record)
  }

  /** The fields of every record, or the error of the first record that raises. */
  function AllChecked(data: seq<Json>): Result<seq<Fields>, string> {
    Collect(data, CheckRecord())
  }

  /** The node dict built for an entity from the record that introduces it. */
  function NodeOf(id: Json, threatLevel: Json, threatType: Json, location: Json, show: Json -> string): Node {
    Node(id, id, "dot", "#97c2fc",
         show(id) + ": Threat Level " + show(threatLevel) + ", Threat Type: " + show(threatType)
         + ", Origin: " + show(location),
         threatLevel, location, threatType)
  }

  /** The edge dict of one record. */
  function EdgeOf(f: Fields): Edge {
    Edge(f.entity1, f.entity2, f.relationship, f.threatLevel)
  }

  function EdgeOfFields(): Fields -> Edge {
    (f: Fields) => EdgeOf(f)
  }

  /** The ids of the nodes, as a set. */
  function IdSet(nodes: seq<Node>): set<Json> {
    set i | 0 <= i < |nodes| :: nodes[i].id
  }

  /** Adds a node unless one with its id exists. */
  function AddNode(nodes: seq<Node>, id: Json, threatLevel: Json, threatType: Json, location: Json,
                   show: Json -> string): seq<Node>
  {
    if id in IdSet(nodes) then nodes else nodes + [NodeOf(id, threatLevel, threatType, location, show)]
  }

  /** The nodes after the rounds of the records `fs`. */
  function Nodes(fs: seq<Fields>, show: Json -> string): seq<Node>
    decreases |fs|
  {
    if fs == [] then []
    else
      var f := fs[|fs| - 1];
      var nodes := Nodes(fs[..|fs| - 1], show);
      AddNode(AddNode(nodes, f.entity1, f.threatLevel, f.threatType, f.location1, show),
              f.entity2, f.threatLevel, f.threatType, f.location2, show)
  }

  /** The script's result: the nodes and the edges, or the error that stops it. */
  function Graph(data: seq<Json>, show: Json -> string): Result<(seq<Node>, seq<Edge>), string> {
    match AllChecked(data)
    case Err(e) => Err(e)
    case Ok(fs) => Ok((Nodes(fs, show), Map(fs, EdgeOfFields())))
  }

  /** The loop of lines 13-56 over the loaded records. */
  method BuildGraph(data: seq<Json>, show: Json -> string) returns (r: Result<(seq<Node>, seq<Edge>), string>)
    ensures r == Graph(data, show)
  {
    var htmlNodes: seq<Node> := [];
    var htmlEdges: seq<Edge> := [];
    var nodeIds: set<Json> := {};
    ghost var fs: seq<Fields> := [];
    var i := 0;
    while i < |data|
      invariant 0 <= i <= |data|
      invariant AllChecked(data[..i]) == Ok(fs)
      invariant htmlNodes == Nodes(fs, show)
      invariant htmlEdges == Map(fs, EdgeOfFields())
      invariant nodeIds == IdSet(htmlNodes)
    {
      var fields := RecordFields(data[i]);
      if fields.Err? || !Hashable(fields.value.entity1) {
        CheckedStops(data, i, fs, show);
        return Err(if fields.Err? then fields.error else Unhashable(fields.value.entity1));
      }
      var f := fields.value;
      htmlNodes, nodeIds := AddEntity(htmlNodes, nodeIds, f.entity1, f.threatLevel, f.threatType, f.location1, show);
      if !Hashable(f.entity2) {
        CheckedStops(data, i, fs, show);
        return Err(Unhashable(f.entity2));
      }
      htmlNodes, nodeIds := AddEntity(htmlNodes, nodeIds, f.entity2, f.threatLevel, f.threatType, f.location2, show);
      htmlEdges := htmlEdges + [EdgeOf(f)];
      CheckedStep(data, i, fs, show);
      fs := fs + [f];
      i := i + 1;
    }
    assert data[..i] == data;
    return Ok((htmlNodes, htmlEdges));
  }

  /** `if entity not in node_ids`: record the id and append its node. */
  method AddEntity(nodes: seq<Node>, ids: set<Json>, id: Json, threatLevel: Json, threatType: Json,
                   location: Json, show: Json -> string) returns (nodes': seq<Node>, ids': set<Json>)
    requires ids == IdSet(nodes)
    ensures nodes' == AddNode(nodes, id, threatLevel, threatType, location, show)
    ensures ids' == IdSet(nodes') == ids + {id}
  {
    nodes', ids' := nodes, ids;
    if id !in ids {
      ids' := ids + {id};
      nodes' := nodes + [NodeOf(id, threatLevel, threatType, location, show)];
      IdSetSnoc(nodes, NodeOf(id, threatLevel, threatType, location, show));
    }
  }

  /** A record that raises ends the run with its error, the records before it having
      passed. */
  lemma CheckedStops(data: seq<Json>, i: nat, fs: seq<Fields>, show: Json -> string)
    requires i < |data| && AllChecked(data[..i]) == Ok(fs) && CheckedFields(data[i]).Err?
    ensures Graph(data, show) == Err(CheckedFields(data[i]).error)
  {
    assert data[..i + 1][..i] == data[..i];
    CollectErr(data, CheckRecord(), i + 1);
  }

  /** A record that passes adds its fields, at most two nodes and one edge. */
  lemma CheckedStep(data: seq<Json>, i: nat, fs: seq<Fields>, show: Json -> string)
    requires i < |data| && AllChecked(data[..i]) == Ok(fs) && CheckedFields(data[i]).Ok?
    ensures var f := CheckedFields(data[i]).value;
      && AllChecked(data[..i + 1]) == Ok(fs + [f])
      && Nodes(fs + [f], show)
         == AddNode(AddNode(Nodes(fs, show), f.entity1, f.threatLevel, f.threatType, f.location1, show),
                    f.entity2, f.threatLevel, f.threatType, f.location2, show)
      && Map(fs + [f], EdgeOfFields()) == Map(fs, EdgeOfFields()) + [EdgeOf(f)]
  {
    var f := CheckedFields(data[i]).value;
    assert data[..i + 1][..i] == data[..i];
    MapSnoc(fs, f, EdgeOfFields());
    assert (fs + [f])[..|fs|] == fs;
  }

  lemma IdSetSnoc(nodes: seq<Node>, n: Node)
    ensures IdSet(nodes + [n]) == IdSet(nodes) + {n.id}
  {
    var s := nodes + [n];
    assert s[|nodes|].id == n.id;
    forall x | x in IdSet(nodes) ensures x in IdSet(s) {
      var k :| 0 <= k < |nodes| && nodes[k].id == x;
      assert s[k].id == x;
    }
  }

  /** Once a prefix fails, the whole sequence fails with the same error. */
  lemma {:induction false} CollectErr<T, U>(data: seq<T>, check: T -> Result<U, string>, n: nat)
    requires n <= |data| && Collect(data[..n], check).Err?
    ensures Collect(data, check) == Collect(data[..n], check)
    decreases |data| - n
  {
    if n < |data| {
      assert data[..n + 1][..n] == data[..n];
      CollectErr(data, check, n + 1);
    } else {
      assert data[..n] == data;
    }
  }

  /** Whether every element passes, and then the result of each, in order. */
  lemma {:induction false} CollectOk<T, U>(data: seq<T>, check: T -> Result<U, string>)
    ensures Collect(data, check).Ok? <==> forall i :: 0 <= i < |data| ==> check(data[i]).Ok?
    ensures Collect(data, check).Ok? ==>
      && |Collect(data, check).value| == |data|
      && forall i :: 0 <= i < |data| ==> check(data[i]) == Ok(Collect(data, check).value[i])
    decreases |data|
  {
    if data != [] {
      var init, last := data[..|data| - 1], data[|data| - 1];
      CollectOk(init, check);
      assert forall i :: 0 <= i < |init| ==> init[i] == data[i];
      if Collect(init, check).Ok? && check(last).Ok? {
        var fs := Collect(init, check).value;
        var f := check(last).value;
        assert forall i :: 0 <= i < |fs| ==> (fs + [f])[i] == fs[i];
      }
    }
  }

  /** Entity 1 or Entity 2 of some record. */
  function Mentioned(fs: seq<Fields>): set<Json> {
    (set i | 0 <= i < |fs| :: fs[i].entity1) + (set i | 0 <= i < |fs| :: fs[i].entity2)
  }

  predicate MentionedIn(f: Fields, e: Json) {
    f.entity1 == e || f.entity2 == e
  }

  lemma MentionedIndex(fs: seq<Fields>, e: Json)
    ensures e in Mentioned(fs) <==> exists i :: 0 <= i < |fs| && MentionedIn(fs[i], e)
  {
    if exists i :: 0 <= i < |fs| && MentionedIn(fs[i], e) {
      var i :| 0 <= i < |fs| && MentionedIn(fs[i], e);
      if fs[i].entity1 == e {
        assert e in (set i | 0 <= i < |fs| :: fs[i].entity1);
      } else {
        assert e in (set i | 0 <= i < |fs| :: fs[i].entity2);
      }
    }
  }

  /** The index of the first record that names `e`. */
  function FirstMention(fs: seq<Fields>, e: Json): (k: nat)
    requires e in Mentioned(fs)
    ensures k < |fs| && MentionedIn(fs[k], e)
    ensures forall j :: 0 <= j < k ==> !MentionedIn(fs[j], e)
    decreases |fs|
  {
    MentionedIndex(fs, e);
    if MentionedIn(fs[0], e) then 0
    else
      assert e in Mentioned(fs[1..]) by {
        var i :| 0 <= i < |fs| && MentionedIn(fs[i], e);
        assert fs[1..][i - 1] == fs[i];
        MentionedIndex(fs[1..], e);
      }
      1 + FirstMention(fs[1..], e)
  }

  /** The node an entity gets: built from the first record that names it, with that
      record's first location when it is the record's Entity 1 and its second otherwise. */
  function NodeFor(fs: seq<Fields>, e: Json, show: Json -> string): Node
    requires e in Mentioned(fs)
  {
    var f := fs[FirstMention(fs, e)];
    NodeOf(e, f.threatLevel, f.threatType, if f.entity1 == e then f.location1 else f.location2, show)
  }

  /** The nodes have pairwise distinct ids, and their ids are exactly the entities the
      records name: `node_ids` and the ids of `html_nodes` never part. */
  lemma {:induction false} NodesIds(fs: seq<Fields>, show: Json -> string)
    ensures var nodes := Nodes(fs, show);
      && (forall i, j :: 0 <= i < j < |nodes| ==> nodes[i].id != nodes[j].id)
      && IdSet(nodes) == Mentioned(fs)
    decreases |fs|
  {
    if fs != [] {
      var init, f := fs[..|fs| - 1], fs[|fs| - 1];
      NodesIds(init, show);
      var n0 := Nodes(init, show);
      var n1 := AddNode(n0, f.entity1, f.threatLevel, f.threatType, f.location1, show);
      AddNodeIds(n0, f.entity1, f.threatLevel, f.threatType, f.location1, show);
      AddNodeIds(n1, f.entity2, f.threatLevel, f.threatType, f.location2, show);
      MentionedSnoc(init, f);
      assert fs == init + [f];
    }
  }

  lemma AddNodeIds(nodes: seq<Node>, id: Json, threatLevel: Json, threatType: Json, location: Json,
                   show: Json -> string)
    requires forall i, j :: 0 <= i < j < |nodes| ==> nodes[i].id != nodes[j].id
    ensures var r := AddNode(nodes, id, threatLevel, threatType, location, show);
      && (forall i, j :: 0 <= i < j < |r| ==> r[i].id != r[j].id)
      && IdSet(r) == IdSet(nodes) + {id}
      && nodes <= r
      && (id !in IdSet(nodes) ==> r == nodes + [NodeOf(id, threatLevel, threatType, location, show)])
  {
    if id !in IdSet(nodes) {
      var n := NodeOf(id, threatLevel, threatType, location, show);
      IdSetSnoc(nodes, n);
      var r := nodes + [n];
      forall i, j | 0 <= i < j < |r| ensures r[i].id != r[j].id {
        if j == |nodes| {
          assert r[i].id == nodes[i].id;
        }
      }
    }
  }

  lemma MentionedSnoc(fs: seq<Fields>, f: Fields)
    ensures Mentioned(fs + [f]) == Mentioned(fs) + {f.entity1, f.entity2}
  {
    var s := fs + [f];
    assert s[|fs|] == f;
    forall x | x in Mentioned(fs) ensures x in Mentioned(s) {
      var k :| 0 <= k < |fs| && (fs[k].entity1 == x || fs[k].entity2 == x);
      assert s[k] == fs[k];
    }
    forall x | x in Mentioned(s) ensures x in Mentioned(fs) + {f.entity1, f.entity2} {
      var k :| 0 <= k < |s| && (s[k].entity1 == x || s[k].entity2 == x);
      if k < |fs| {
        assert s[k] == fs[k];
      }
    }
  }

  /** Every node is the one its entity gets from the first record that names it: later
      records never change a node. */
  lemma {:induction false} NodesFirstMention(fs: seq<Fields>, show: Json -> string, k: nat)
    requires k < |Nodes(fs, show)|
    ensures Nodes(fs, show)[k].id in Mentioned(fs)
    ensures Nodes(fs, show)[k] == NodeFor(fs, Nodes(fs, show)[k].id, show)
    decreases |fs|
  {
    var init, f := fs[..|fs| - 1], fs[|fs| - 1];
    assert fs == init + [f];
    if k < |Nodes(init, show)| {
      NodesFirstMention(init, show, k);
      OldNodeStep(init, f, show, k);
    } else {
      NewNodeStep(init, f, show, k);
    }
  }

  /** The records' nodes stay in front when one more record is processed. */
  lemma NodesSnoc(init: seq<Fields>, f: Fields, show: Json -> string)
    ensures var n0 := Nodes(init, show);
      var n1 := AddNode(n0, f.entity1, f.threatLevel, f.threatType, f.location1, show);
      && Nodes(init + [f], show) == AddNode(n1, f.entity2, f.threatLevel, f.threatType, f.location2, show)
      && IdSet(n0) == Mentioned(init)
      && n0 <= n1 <= Nodes(init + [f], show)
      && IdSet(n1) == IdSet(n0) + {f.entity1}
      && (f.entity1 !in IdSet(n0) ==> n1 == n0 + [NodeOf(f.entity1, f.threatLevel, f.threatType, f.location1, show)])
      && (f.entity2 !in IdSet(n1) ==>
            Nodes(init + [f], show) == n1 + [NodeOf(f.entity2, f.threatLevel, f.threatType, f.location2, show)])
  {
    assert (init + [f])[..|init|] == init;
    NodesIds(init, show);
    var n0 := Nodes(init, show);
    var n1 := AddNode(n0, f.entity1, f.threatLevel, f.threatType, f.location1, show);
    AddNodeIds(n0, f.entity1, f.threatLevel, f.threatType, f.location1, show);
    AddNodeIds(n1, f.entity2, f.threatLevel, f.threatType, f.location2, show);
  }

  /** A node already made keeps its place and its attributes after one more record. */
  lemma OldNodeStep(init: seq<Fields>, f: Fields, show: Json -> string, k: nat)
    requires k < |Nodes(init, show)|
    requires Nodes(init, show)[k].id in Mentioned(init)
    requires Nodes(init, show)[k] == NodeFor(init, Nodes(init, show)[k].id, show)
    ensures var node := Nodes(init, show)[k];
      && k < |Nodes(init + [f], show)| && Nodes(init + [f], show)[k] == node
      && node.id in Mentioned(init + [f])
      && node == NodeFor(init + [f], node.id, show)
  {
    NodesSnoc(init, f, show);
    MentionedSnoc(init, f);
    FirstMentionPrefix(init, f, Nodes(init, show)[k].id);
  }

  /** A node made for one more record is made from that record. */
  lemma NewNodeStep(init: seq<Fields>, f: Fields, show: Json -> string, k: nat)
    requires |Nodes(init, show)| <= k < |Nodes(init + [f], show)|
    ensures var node := Nodes(init + [f], show)[k];
      && node.id in Mentioned(init + [f])
      && node == NodeFor(init + [f], node.id, show)
  {
    NodesSnoc(init, f, show);
    var n0 := Nodes(init, show);
    var n1 := AddNode(n0, f.entity1, f.threatLevel, f.threatType, f.location1, show);
    var node := Nodes(init + [f], show)[k];
    if k == |n0| && f.entity1 !in IdSet(n0) {
      assert node == NodeOf(f.entity1, f.threatLevel, f.threatType, f.location1, show);
      FirstMentionNew(init, f, f.entity1);
    } else {
      assert f.entity2 !in IdSet(n1);
      assert node == NodeOf(f.entity2, f.threatLevel, f.threatType, f.location2, show);
      FirstMentionNew(init, f, f.entity2);
    }
  }

  /** A later record does not move the first mention of an entity already named. */
  lemma FirstMentionPrefix(fs: seq<Fields>, f: Fields, e: Json)
    requires e in Mentioned(fs)
    ensures e in Mentioned(fs + [f])
    ensures FirstMention(fs + [f], e) == FirstMention(fs, e)
  {
    MentionedSnoc(fs, f);
    var s := fs + [f];
    var k := FirstMention(fs, e);
    assert s[k] == fs[k];
    assert forall j :: 0 <= j < k ==> s[j] == fs[j];
  }

  /** An entity first named by the last record is first mentioned there. */
  lemma FirstMentionNew(fs: seq<Fields>, f: Fields, e: Json)
    requires e !in Mentioned(fs) && MentionedIn(f, e)
    ensures e in Mentioned(fs + [f])
    ensures FirstMention(fs + [f], e) == |fs|
  {
    MentionedSnoc(fs, f);
    MentionedIndex(fs, e);
    var s := fs + [f];
    assert forall j :: 0 <= j < |fs| ==> s[j] == fs[j];
  }

  /** The script runs to the end exactly when every record is a dict whose "Threat
      Assessment", if present, is a dict and whose two entities are neither lists nor
      dicts; it then has the fields of each record, in record order. */
  lemma AllCheckedOk(data: seq<Json>)
    ensures AllChecked(data).Ok? <==> forall i :: 0 <= i < |data| ==> CheckedFields(data[i]).Ok?
    ensures AllChecked(data).Ok? ==>
      && |AllChecked(data).value| == |data|
      && forall i :: 0 <= i < |data| ==> CheckedFields(data[i]) == Ok(AllChecked(data).value[i])
  {
    CollectOk(data, CheckRecord());
  }

  /** One edge per record, in record order, from its Entity 1 to its Entity 2 and
      carrying its relationship and threat level. */
  lemma GraphEdges(data: seq<Json>, show: Json -> string)
    ensures Graph(data, show).Ok? ==>
      var edges := Graph(data, show).value.1;
      && |edges| == |data|
      && forall i :: 0 <= i < |data| ==> RecordFields(data[i]).Ok? && edges[i] == EdgeOf(RecordFields(data[i]).value)
  {
    AllCheckedOk(data);
  }

  /** Every entity a record names has a node, built from the first record naming it, and
      no two nodes share an id. */
  lemma GraphNodes(fs: seq<Fields>, show: Json -> string)
    ensures var nodes := Nodes(fs, show);
      && (forall i, j :: 0 <= i < j < |nodes| ==> nodes[i].id != nodes[j].id)
      && IdSet(nodes) == Mentioned(fs)
      && forall k :: 0 <= k < |nodes| ==> nodes[k].id in Mentioned(fs) && nodes[k] == NodeFor(fs, nodes[k].id, show)
  {
    NodesIds(fs, show);
    forall k | 0 <= k < |Nodes(fs, show)|
      ensures Nodes(fs, show)[k].id in Mentioned(fs)
      ensures Nodes(fs, show)[k] == NodeFor(fs, Nodes(fs, show)[k].id, show)
    {
      NodesFirstMention(fs, show, k);
    }
  }

  /** Missing fields take their defaults: no relationship summary reads "Unknown
      relationship", no threat level 1, no threat type "Unknown Type", no location
      "Unknown Location", and a missing entity is `None`. */
  lemma RecordFieldsDefaults(ms: seq<Member>)
    requires RecordFields(JObj(ms)).Ok?
    ensures var f := RecordFields(JObj(ms)).value;
      var assessment := Get(ms, "Threat Assessment", JObj([])).members;
      && (!HasKey(ms, "Entity 1") ==> f.entity1 == JNull)
      && (!HasKey(ms, "Entity 2") ==> f.entity2 == JNull)
      && (!HasKey(ms, "Relationship Summary") ==> f.relationship == JStr("Unknown relationship"))
      && (!HasKey(assessment, "Threat Level") ==> f.threatLevel == JInt(1))
      && (!HasKey(assessment, "Type") ==> f.threatType == JStr("Unknown Type"))
      && (!HasKey(ms, "Origin Location 1") ==> f.location1 == JStr("Unknown Location"))
      && (!HasKey(ms, "Origin Location 2") ==> f.location2 == JStr("Unknown Location"))
      && (HasKey(ms, "Entity 1") ==> Lookup(ms, "Entity 1") == Some(f.entity1))
      && (HasKey(ms, "Entity 2") ==> Lookup(ms, "Entity 2") == Some(f.entity2))
  {
  }
}
