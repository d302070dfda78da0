/** The sankey transformation of `src/data_processing.py`: the node table
    (`get_sankey_nodes`) and the edge table obtained by joining the records
    twice against it (`get_sankey_dataframe`). A node's id is its position
    in the node sequence. */
module Sankey {
  import opened Seqs

  /** One row of the loaded data frame. */
  datatype FlowRecord = FlowRecord(source: string, target: string, value: int, mcc: string)

  /** A row after the merge on `source`: the record and its `sourceID`. */
  datatype Sourced = Sourced(record: FlowRecord, sourceID: nat)

  /** A row of the sankey frame: the record with its `sourceID` and `targetID`. */
  datatype Edge = Edge(record: FlowRecord, sourceID: nat, targetID: nat)

  /** The `source` column. */
  function Sources(rows: seq<FlowRecord>): (names: seq<string>)
    ensures |names| == |rows| && forall i :: 0 <= i < |rows| ==> names[i] == rows[i].source
  {
    seq(|rows|, i requires 0 <= i < |rows| => rows[i].source)
  }

  /** The `target` column. */
  function Targets(rows: seq<FlowRecord>): (names: seq<string>)
    ensures |names| == |rows| && forall i :: 0 <= i < |rows| ==> names[i] == rows[i].target
  {
    seq(|rows|, i requires 0 <= i < |rows| => rows[i].target)
  }

  /** The node names: the distinct sources followed by the distinct targets,
      duplicates dropped. The frame must have rows: on an empty frame the
      relabelling of the two node columns raises. */
  function SankeyNodes(rows: seq<FlowRecord>): (nodes: seq<string>)
    requires |rows| > 0
    ensures NoDups(nodes)
    ensures forall name :: name in nodes <==> name in Sources(rows) || name in Targets(rows)
  {
    Distinct(Distinct(Sources(rows)) + Distinct(Targets(rows)))
  }

  /** The node list is every distinct source in first-seen order, then every
      target that is not a source, in first-seen order. */
  lemma NodesSourcesThenNewTargets(rows: seq<FlowRecord>)
    requires |rows| > 0
    ensures SankeyNodes(rows) == Distinct(Sources(rows)) + Without(Distinct(Targets(rows)), Sources(rows))
  {
    var s, t := Distinct(Sources(rows)), Distinct(Targets(rows));
    DistinctAppend(s, t);
    DistinctOfNoDups(s);
    DistinctOfNoDups(t);
    WithoutSameMembers(t, s, Sources(rows));
  }

  /** Equivalently, the names in order of first appearance when the source
      column is read before the target column. */
  lemma NodesFirstSeen(rows: seq<FlowRecord>)
    requires |rows| > 0
    ensures SankeyNodes(rows) == Distinct(Sources(rows) + Targets(rows))
  {
    NodesSourcesThenNewTargets(rows);
    DistinctAppend(Sources(rows), Targets(rows));
  }

  /** Node ids follow first appearance: a node with a smaller id first
      appears earlier in the source column followed by the target column. */
  lemma NodeIdsFollowFirstAppearance(rows: seq<FlowRecord>, i: nat, j: nat)
    requires |rows| > 0 && i < j < |SankeyNodes(rows)|
    ensures var names := Sources(rows) + Targets(rows);
      FirstIndex(names, SankeyNodes(rows)[i]) < FirstIndex(names, SankeyNodes(rows)[j])
  {
    NodesFirstSeen(rows);
    DistinctFirstSeen(Sources(rows) + Targets(rows), i, j);
  }

  /** The positions at which `nodes` holds `name`, ascending: the node rows
      an inner join on that name matches. */
  function Positions(nodes: seq<string>, name: string): (ps: seq<nat>)
    ensures forall k :: 0 <= k < |ps| ==> ps[k] < |nodes| && nodes[ps[k]] == name
    ensures forall j :: 0 <= j < |nodes| && nodes[j] == name ==> j in ps
    ensures forall k1, k2 :: 0 <= k1 < k2 < |ps| ==> ps[k1] < ps[k2]
    decreases |nodes|
  {
    if |nodes| == 0 then []
    else
      var ps := Positions(nodes[..|nodes| - 1], name);
      if nodes[|nodes| - 1] == name then ps + [|nodes| - 1] else ps
  }

  /** In a duplicate-free node list a present name matches exactly one row. */
  lemma PositionsOfDistinct(nodes: seq<string>, name: string)
    requires NoDups(nodes) && name in nodes
    ensures Positions(nodes, name) == [FirstIndex(nodes, name)]
  {
    var ps := Positions(nodes, name);
    var f := FirstIndex(nodes, name);
    assert f in ps;
    forall k | 0 <= k < |ps| ensures ps[k] == f {
      FirstIndexNoDups(nodes, ps[k]);
    }
    assert ps[0] == f && ps[|ps| - 1] == f;
    assert |ps| == 1;
  }

  /** `data_dataframe.merge(sources, on='source')`: every record paired with
      each node row of the same name. */
  function MergeOnSource(rows: seq<FlowRecord>, nodes: seq<string>): (out: seq<Sourced>)
    ensures forall o :: o in out ==> o.record in rows && o.sourceID < |nodes| && nodes[o.sourceID] == o.record.source
    decreases |rows|
  {
    if |rows| == 0 then []
    else
      var ps := Positions(nodes, rows[0].source);
      var rest := MergeOnSource(rows[1..], nodes);
      assert forall o :: o in rest ==> o.record in rows;
      seq(|ps|, k requires 0 <= k < |ps| => Sourced(rows[0], ps[k])) + rest
  }

  /** `.merge(targets, on='target')`: every row paired with each node row
      named like its target. */
  function MergeOnTarget(rows: seq<Sourced>, nodes: seq<string>): (out: seq<Edge>)
    ensures forall e :: e in out ==>
      Sourced(e.record, e.sourceID) in rows && e.targetID < |nodes| && nodes[e.targetID] == e.record.target
    decreases |rows|
  {
    if |rows| == 0 then []
    else
      var ps := Positions(nodes, rows[0].record.target);
      var rest := MergeOnTarget(rows[1..], nodes);
      assert forall o :: o in rows[1..] ==> o in rows;
      seq(|ps|, k requires 0 <= k < |ps| => Edge(rows[0].record, rows[0].sourceID, ps[k])) + rest
  }

  /** Against duplicate-free nodes, a record whose source is a node
      contributes exactly one row to the merge on `source`. */
  lemma MergeOnSourceStep(rows: seq<FlowRecord>, nodes: seq<string>)
    requires NoDups(nodes) && |rows| > 0 && rows[0].source in nodes
    ensures MergeOnSource(rows, nodes) ==
      [Sourced(rows[0], FirstIndex(nodes, rows[0].source))] + MergeOnSource(rows[1..], nodes)
  {
    var ps := Positions(nodes, rows[0].source);
    assert ps == [FirstIndex(nodes, rows[0].source)] by {
      PositionsOfDistinct(nodes, rows[0].source);
    }
  }

  /** Against duplicate-free nodes naming every source, the merge on
      `source` keeps each record once, with the id of its source. */
  lemma {:induction false} MergeOnSourceTotal(rows: seq<FlowRecord>, nodes: seq<string>)
    requires NoDups(nodes)
    requires forall i :: 0 <= i < |rows| ==> rows[i].source in nodes
    ensures var out := MergeOnSource(rows, nodes);
      |out| == |rows| &&
      forall i :: 0 <= i < |rows| ==> out[i] == Sourced(rows[i], FirstIndex(nodes, rows[i].source))
    decreases |rows|
  {
    if |rows| > 0 {
      var tail := rows[1..];
      var rest := MergeOnSource(tail, nodes);
      assert forall i :: 0 <= i < |tail| ==> tail[i].source in nodes by {
        forall i | 0 <= i < |tail| ensures tail[i].source in nodes {
          assert tail[i] == rows[i + 1];
        }
      }
      MergeOnSourceTotal(tail, nodes);
      MergeOnSourceStep(rows, nodes);
      var out := MergeOnSource(rows, nodes);
      forall i | 0 <= i < |rows|
        ensures out[i] == Sourced(rows[i], FirstIndex(nodes, rows[i].source))
      {
        if i > 0 {
          assert out[i] == rest[i - 1] && tail[i - 1] == rows[i];
        }
      }
    }
  }

  /** Against duplicate-free nodes, a row whose target is a node
      contributes exactly one edge to the merge on `target`. */
  lemma MergeOnTargetStep(rows: seq<Sourced>, nodes: seq<string>)
    requires NoDups(nodes) && |rows| > 0 && rows[0].record.target in nodes
    ensures MergeOnTarget(rows, nodes) ==
      [Edge(rows[0].record, rows[0].sourceID, FirstIndex(nodes, rows[0].record.target))]
        + MergeOnTarget(rows[1..], nodes)
  {
    var ps := Positions(nodes, rows[0].record.target);
    assert ps == [FirstIndex(nodes, rows[0].record.target)] by {
      PositionsOfDistinct(nodes, rows[0].record.target);
    }
  }

  /** Likewise the merge on `target`. */
  lemma {:induction false} MergeOnTargetTotal(rows: seq<Sourced>, nodes: seq<string>)
    requires NoDups(nodes)
    requires forall i :: 0 <= i < |rows| ==> rows[i].record.target in nodes
    ensures var out := MergeOnTarget(rows, nodes);
      |out| == |rows| &&
      forall i :: 0 <= i < |rows| ==>
        out[i] == Edge(rows[i].record, rows[i].sourceID, FirstIndex(nodes, rows[i].record.target))
    decreases |rows|
  {
    if |rows| > 0 {
      var tail := rows[1..];
      var rest := MergeOnTarget(tail, nodes);
      assert forall i :: 0 <= i < |tail| ==> tail[i].record.target in nodes by {
        forall i | 0 <= i < |tail| ensures tail[i].record.target in nodes {
          assert tail[i] == rows[i + 1];
        }
      }
      MergeOnTargetTotal(tail, nodes);
      MergeOnTargetStep(rows, nodes);
      var out := MergeOnTarget(rows, nodes);
      forall i | 0 <= i < |rows|
        ensures out[i] == Edge(rows[i].record, rows[i].sourceID, FirstIndex(nodes, rows[i].record.target))
      {
        if i > 0 {
          assert out[i] == rest[i - 1] && tail[i - 1] == rows[i];
        }
      }
    }
  }

  /** The records an edge table carries. */
  function Records(edges: seq<Edge>): (rows: seq<FlowRecord>)
    ensures |rows| == |edges| && forall i :: 0 <= i < |edges| ==> rows[i] == edges[i].record
  {
    seq(|edges|, i requires 0 <= i < |edges| => edges[i].record)
  }

  /** Against duplicate-free nodes naming every source and target, the two
      merges keep every record once and in place. */
  lemma JoinKeepsRecords(rows: seq<FlowRecord>, nodes: seq<string>)
    requires NoDups(nodes)
    requires forall i :: 0 <= i < |rows| ==> rows[i].source in nodes && rows[i].target in nodes
    ensures Records(MergeOnTarget(MergeOnSource(rows, nodes), nodes)) == rows
  {
    var sourced := MergeOnSource(rows, nodes);
    MergeOnSourceTotal(rows, nodes);
    MergeOnTargetTotal(sourced, nodes);
    var edges := MergeOnTarget(sourced, nodes);
    assert forall i :: 0 <= i < |rows| ==> Records(edges)[i] == rows[i];
  }

  /** The node table and the sankey frame. The join is total: exactly one
      edge per record, every record kept unchanged, each id a node index
      whose name is the record's source or target. */
  function SankeyDataframe(rows: seq<FlowRecord>): (r: (seq<string>, seq<Edge>))
    requires |rows| > 0
    ensures r.0 == SankeyNodes(rows)
    ensures |r.1| == |rows|
    ensures multiset(Records(r.1)) == multiset(rows)
    ensures forall e :: e in r.1 ==>
      e.sourceID < |r.0| && r.0[e.sourceID] == e.record.source &&
      e.targetID < |r.0| && r.0[e.targetID] == e.record.target
  {
    var nodes := SankeyNodes(rows);
    assert forall i :: 0 <= i < |rows| ==> Sources(rows)[i] in nodes && Targets(rows)[i] in nodes;
    JoinKeepsRecords(rows, nodes);
    (nodes, MergeOnTarget(MergeOnSource(rows, nodes), nodes))
  }

  /** The two-record chain A -> B (10), B -> C (5). */
  function Chain(): seq<FlowRecord> {
    [FlowRecord("A", "B", 10, "1"), FlowRecord("B", "C", 5, "1")]
  }

  /** Its nodes are A, B, C. */
  lemma ChainNodes()
    ensures SankeyNodes(Chain()) == ["A", "B", "C"]
  {
    var rows := Chain();
    assert Sources(rows) == ["A", "B"] && Targets(rows) == ["B", "C"];
    NodesSourcesThenNewTargets(rows);
    DistinctOfNoDups(["A", "B"]);
    DistinctOfNoDups(["B", "C"]);
    assert ["B", "C"][..1] == ["B"] && ["B"][..0] == [];
    assert Without(["B", "C"], ["A", "B"]) == ["C"];
  }

  /** Where the chain's names sit among its nodes. */
  lemma ChainIds()
    ensures NoDups(["A", "B", "C"])
    ensures FirstIndex(["A", "B", "C"], "A") == 0
    ensures FirstIndex(["A", "B", "C"], "B") == 1
    ensures FirstIndex(["A", "B", "C"], "C") == 2
  {
    var nodes: seq<string> := ["A", "B", "C"];
    FirstIndexNoDups(nodes, 0);
    FirstIndexNoDups(nodes, 1);
    FirstIndexNoDups(nodes, 2);
  }

  /** The merge on `source` tags A -> B with 0 and B -> C with 1. */
  lemma ChainSourced()
    ensures MergeOnSource(Chain(), ["A", "B", "C"]) == [Sourced(Chain()[0], 0), Sourced(Chain()[1], 1)]
  {
    var rows := Chain();
    var nodes: seq<string> := ["A", "B", "C"];
    ChainIds();
    MergeOnSourceStep(rows, nodes);
    MergeOnSourceStep(rows[1..], nodes);
    assert rows[1..][1..] == [];
  }

  /** The merge on `target` then adds the target ids 1 and 2. */
  lemma ChainEdges()
    ensures MergeOnTarget([Sourced(Chain()[0], 0), Sourced(Chain()[1], 1)], ["A", "B", "C"])
         == [Edge(Chain()[0], 0, 1), Edge(Chain()[1], 1, 2)]
  {
    var rows := Chain();
    var nodes: seq<string> := ["A", "B", "C"];
    var s0, s1 := Sourced(rows[0], 0), Sourced(rows[1], 1);
    ChainIds();
    MergeOnTargetStep([s0, s1], nodes);
    MergeOnTargetStep([s1], nodes);
    assert [s0, s1][1..] == [s1] && [s1][1..] == [];
  }

  /** Its edges are 0 -> 1 and 1 -> 2, carrying the records unchanged. */
  lemma ChainExample()
    ensures SankeyDataframe(Chain()).0 == ["A", "B", "C"]
    ensures SankeyDataframe(Chain()).1 == [Edge(Chain()[0], 0, 1), Edge(Chain()[1], 1, 2)]
  {
    ChainNodes();
    ChainSourced();
    ChainEdges();
  }
}
