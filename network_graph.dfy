/** The relationship graph of a company detail page: the nodes and weighted
    edges built from a center company and its related companies, the node
    colours, the highlighting of active nodes, the relation summary of the
    hovered or selected node, and the hover and selection state driven by
    pointer events. */
module NetworkGraph {
  import opened Wrappers
  import opened Seqs
  import opened Strings
  import opened CompanyTypes

  const CenterFill := "#3b83f6"
  const InvestorFill := "#dc9192"
  const NewsFill := "#efe298"
  const DefaultFill := "#8468b3"
  const EdgeFill := "#DBDBDB"
  const InvestorLabel := "투자사"
  const NodeSize: nat := 40
  const EdgeSize: nat := 1

  /** A node as handed to the graph canvas. `caption` is the text drawn next
      to it; `data` is the company it stands for; `dimmed` is the reduced
      opacity of a node outside the active set. */
  datatype GraphNode = GraphNode(
    id: string,
    caption: string,
    fill: string,
    size: nat,
    data: Option<Company>,
    dimmed: bool)

  /** An edge as handed to the graph canvas; `caption` is its weight label. */
  datatype GraphEdge = GraphEdge(
    id: string,
    source: string,
    target: string,
    caption: string,
    size: nat,
    fill: string)

  // ---------------------------------------------------------------------
  // Node colour

  /** `tags.some((tag) => tag.label === '투자사')`. */
  function HasInvestorTag(tags: seq<Tag>): (b: bool)
    ensures b <==> exists i :: 0 <= i < |tags| && tags[i].tagLabel == InvestorLabel
  {
    if tags == [] then false
    else tags[0].tagLabel == InvestorLabel || HasInvestorTag(tags[1..])
  }

  /** `tags.some((tag) => tag.newsId != null)`: the loose comparison treats an
      absent and a null `newsId` alike. */
  function HasNewsTag(tags: seq<Tag>): (b: bool)
    ensures b <==> exists i :: 0 <= i < |tags| && tags[i].newsId.Some?
  {
    if tags == [] then false
    else tags[0].newsId.Some? || HasNewsTag(tags[1..])
  }

  /** `getNodeColor`: an investor tag wins, then a tag linked to news, then
      the default colour. */
  function NodeColor(tags: seq<Tag>): (fill: string)
    ensures fill == InvestorFill <==> exists i :: 0 <= i < |tags| && tags[i].tagLabel == InvestorLabel
    ensures fill == NewsFill <==>
      (forall i :: 0 <= i < |tags| ==> tags[i].tagLabel != InvestorLabel)
      && (exists i :: 0 <= i < |tags| && tags[i].newsId.Some?)
    ensures fill == DefaultFill <==>
      (forall i :: 0 <= i < |tags| ==> tags[i].tagLabel != InvestorLabel && tags[i].newsId.None?)
  {
    if HasInvestorTag(tags) then InvestorFill
    else if HasNewsTag(tags) then NewsFill
    else DefaultFill
  }

  /** The colour depends only on which tags occur, not on their order or
      their repetitions. */
  lemma NodeColorIgnoresOrder(a: seq<Tag>, b: seq<Tag>)
    requires forall t :: t in a <==> t in b
    ensures NodeColor(a) == NodeColor(b)
  {
    assert HasInvestorTag(a) == HasInvestorTag(b) by {
      if HasInvestorTag(a) {
        var i :| 0 <= i < |a| && a[i].tagLabel == InvestorLabel;
        assert a[i] in b;
      }
      if HasInvestorTag(b) {
        var i :| 0 <= i < |b| && b[i].tagLabel == InvestorLabel;
        assert b[i] in a;
      }
    }
    assert HasNewsTag(a) == HasNewsTag(b) by {
      if HasNewsTag(a) {
        var i :| 0 <= i < |a| && a[i].newsId.Some?;
        assert a[i] in b;
      }
      if HasNewsTag(b) {
        var i :| 0 <= i < |b| && b[i].newsId.Some?;
        assert b[i] in a;
      }
    }
  }

  // ---------------------------------------------------------------------
  // Nodes

  /** The center node: the center company's name, the center colour. */
  function CenterNode(center: Company): GraphNode {
    GraphNode(NodeId(center), center.name, CenterFill, NodeSize, Some(center), false)
  }

  /** The node of a related company, coloured by its tags. */
  function RelatedNode(r: Company): GraphNode {
    GraphNode(NodeId(r), r.name, NodeColor(r.tags), NodeSize, Some(r), false)
  }

  /** The node ids in insertion order, repetitions included: the center
      first, then each related company. */
  function NodeIds(center: Company, related: seq<Company>): (ids: seq<string>)
    ensures |ids| == |related| + 1 && ids[0] == NodeId(center)
    ensures forall i :: 0 <= i < |related| ==> ids[i + 1] == NodeId(related[i])
  {
    [NodeId(center)] + seq(|related|, i requires 0 <= i < |related| => NodeId(related[i]))
  }

  /** The node kept for `id`: built from the first company with that id,
      the center counting as the first company of all. */
  function NodeFor(center: Company, related: seq<Company>, id: string): GraphNode
    requires id in NodeIds(center, related)
  {
    var k := FirstIndex(NodeIds(center, related), id);
    if k == 0 then CenterNode(center) else RelatedNode(related[k - 1])
  }

  /** The node map after the companies `related` have been visited. */
  function NodeMap(center: Company, related: seq<Company>): (m: map<string, GraphNode>)
    ensures forall id :: id in m <==> id in NodeIds(center, related)
  {
    map id | id in NodeIds(center, related) :: NodeFor(center, related, id)
  }

  /** The nodes the builder emits: one per distinct id, in first-insertion
      order. */
  function BuiltNodes(center: Company, related: seq<Company>): (nodes: seq<GraphNode>)
    ensures |nodes| == |Dedup(NodeIds(center, related))|
  {
    var ids := Dedup(NodeIds(center, related));
    seq(|ids|, k requires 0 <= k < |ids| => NodeFor(center, related, ids[k]))
  }

  // ---------------------------------------------------------------------
  // Edges

  /** `tags.filter((tag) => tag.direction === d).length`. */
  function DirectionCount(tags: seq<Tag>, d: Direction): (n: nat)
    ensures n <= |tags|
    ensures n > 0 <==> exists i :: 0 <= i < |tags| && tags[i].direction == d
  {
    if tags == [] then 0
    else
      var p := tags[..|tags| - 1];
      assert forall i :: 0 <= i < |p| ==> p[i] == tags[i];
      DirectionCount(p, d) + (if tags[|tags| - 1].direction == d then 1 else 0)
  }

  /** The accumulated edge between two endpoints. The source also sums the
      IN and OUT counts per edge, but never reads the sums. */
  datatype EdgeEntry = EdgeEntry(source: string, target: string, weight: nat)

  /** `${source}-${target}`. */
  function EdgeKey(source: string, target: string): string {
    source + "-" + target
  }

  /** The endpoints of the edge for one related company: towards the center
      when it has strictly more IN than OUT tags, away from it otherwise. */
  function Endpoints(centerId: string, r: Company): (string, string) {
    if DirectionCount(r.tags, In) > DirectionCount(r.tags, Out) then (NodeId(r), centerId)
    else (centerId, NodeId(r))
  }

  function KeyOf(centerId: string, r: Company): string {
    var e := Endpoints(centerId, r);
    EdgeKey(e.0, e.1)
  }

  /** The edge key of each related company, repetitions included. */
  function Keys(center: Company, related: seq<Company>): (keys: seq<string>)
    ensures |keys| == |related|
    ensures forall i :: 0 <= i < |related| ==> keys[i] == KeyOf(NodeId(center), related[i])
  {
    seq(|related|, i requires 0 <= i < |related| => KeyOf(NodeId(center), related[i]))
  }

  /** The edge kept under `key`: the endpoints of the first company with
      that key, weighted by the number of companies with that key. */
  function EdgeFor(center: Company, related: seq<Company>, key: string): EdgeEntry
    requires key in Keys(center, related)
  {
    var keys := Keys(center, related);
    var e := Endpoints(NodeId(center), related[FirstIndex(keys, key)]);
    EdgeEntry(e.0, e.1, Count(keys, key))
  }

  /** The edge map after the companies `related` have been visited. */
  function EdgeMap(center: Company, related: seq<Company>): (m: map<string, EdgeEntry>)
    ensures forall key :: key in m <==> key in Keys(center, related)
  {
    map key | key in Keys(center, related) :: EdgeFor(center, related, key)
  }

  /** The label of an edge: its weight when above one, otherwise empty. */
  function WeightLabel(weight: nat): string {
    if weight > 1 then NatToString(weight) else ""
  }

  /** The edge handed to the canvas for an accumulated entry. */
  function EmitEdge(e: EdgeEntry): GraphEdge {
    GraphEdge(EdgeKey(e.source, e.target), e.source, e.target, WeightLabel(e.weight), EdgeSize, EdgeFill)
  }

  /** The edges the builder emits: one per distinct key, in first-insertion
      order. */
  function BuiltEdges(center: Company, related: seq<Company>): (edges: seq<GraphEdge>)
    ensures |edges| == |Dedup(Keys(center, related))|
  {
    var keys := Dedup(Keys(center, related));
    seq(|keys|, k requires 0 <= k < |keys| => EmitEdge(EdgeFor(center, related, keys[k])))
  }

  // ---------------------------------------------------------------------
  // The builder

  /** The node map after one more company, as the loop body updates it. */
  function AddNode(m: map<string, GraphNode>, r: Company): map<string, GraphNode> {
    if NodeId(r) in m then m else m[NodeId(r) := RelatedNode(r)]
  }

  /** The edge map after one more company, as the loop body updates it. */
  function AddEdge(m: map<string, EdgeEntry>, centerId: string, r: Company): map<string, EdgeEntry> {
    var e := Endpoints(centerId, r);
    var key := EdgeKey(e.0, e.1);
    if key in m then m[key := m[key].(weight := m[key].weight + 1)]
    else m[key := EdgeEntry(e.0, e.1, 1)]
  }

  lemma NodeMapsEqual(m1: map<string, GraphNode>, m2: map<string, GraphNode>)
    requires forall id :: id in m1 <==> id in m2
    requires forall id :: id in m1 ==> m1[id] == m2[id]
    ensures m1 == m2
  {
  }

  lemma EdgeMapsEqual(m1: map<string, EdgeEntry>, m2: map<string, EdgeEntry>)
    requires forall key :: key in m1 <==> key in m2
    requires forall key :: key in m1 ==> m1[key] == m2[key]
    ensures m1 == m2
  {
  }

  lemma NodeIdsSnoc(center: Company, related: seq<Company>, r: Company)
    ensures NodeIds(center, related + [r]) == NodeIds(center, related) + [NodeId(r)]
  {
  }

  lemma KeysSnoc(center: Company, related: seq<Company>, r: Company)
    ensures Keys(center, related + [r]) == Keys(center, related) + [KeyOf(NodeId(center), r)]
  {
  }

  /** A node that is already there is kept; a new id gets the node of the
      new company. */
  lemma NodeForSnoc(center: Company, related: seq<Company>, r: Company, id: string)
    requires id in NodeIds(center, related + [r])
    ensures id in NodeIds(center, related) ==>
      NodeFor(center, related + [r], id) == NodeFor(center, related, id)
    ensures id !in NodeIds(center, related) ==> NodeFor(center, related + [r], id) == RelatedNode(r)
  {
    var ids, next := NodeIds(center, related), related + [r];
    NodeIdsSnoc(center, related, r);
    if id in ids {
      FirstIndexAppend(ids, [NodeId(r)], id);
      var k := FirstIndex(ids, id);
      if k > 0 {
        assert next[k - 1] == related[k - 1];
      }
    } else {
      FirstIndexAt(ids + [NodeId(r)], |ids|);
    }
  }

  lemma NodeMapSnoc(center: Company, related: seq<Company>, r: Company)
    ensures NodeMap(center, related + [r]) == AddNode(NodeMap(center, related), r)
  {
    var m, m' := NodeMap(center, related), NodeMap(center, related + [r]);
    var a := AddNode(m, r);
    NodeIdsSnoc(center, related, r);
    forall id
      ensures id in m' <==> id in a
      ensures id in m' ==> m'[id] == a[id]
    {
      if id in m' {
        NodeForSnoc(center, related, r, id);
      }
    }
    NodeMapsEqual(m', a);
  }

  /** An edge that is already there keeps its endpoints and gains one unit
      of weight exactly when the new company has its key. */
  lemma EdgeForSnocKnown(center: Company, related: seq<Company>, r: Company, key: string)
    requires key in Keys(center, related)
    ensures key in Keys(center, related + [r])
    ensures EdgeFor(center, related + [r], key) ==
      var e := EdgeFor(center, related, key);
      if key == KeyOf(NodeId(center), r) then e.(weight := e.weight + 1) else e
  {
    var keys := Keys(center, related);
    var x := KeyOf(NodeId(center), r);
    KeysSnoc(center, related, r);
    CountSnoc(keys, x, key);
    FirstIndexAppend(keys, [x], key);
    var k := FirstIndex(keys, key);
    assert (related + [r])[k] == related[k];
  }

  /** A new key gets the endpoints of the new company and weight one. */
  lemma EdgeForSnocNew(center: Company, related: seq<Company>, r: Company)
    requires KeyOf(NodeId(center), r) !in Keys(center, related)
    ensures KeyOf(NodeId(center), r) in Keys(center, related + [r])
    ensures var e := Endpoints(NodeId(center), r);
      EdgeFor(center, related + [r], KeyOf(NodeId(center), r)) == EdgeEntry(e.0, e.1, 1)
  {
    var keys := Keys(center, related);
    var x := KeyOf(NodeId(center), r);
    KeysSnoc(center, related, r);
    CountSnoc(keys, x, x);
    FirstIndexAt(keys + [x], |keys|);
    assert (related + [r])[|keys|] == r;
  }

  /** What `AddEdge` does to each key. */
  lemma AddEdgeAt(m: map<string, EdgeEntry>, centerId: string, r: Company, key: string)
    ensures key in AddEdge(m, centerId, r) <==> key in m || key == KeyOf(centerId, r)
    ensures key in m ==> (AddEdge(m, centerId, r)[key] ==
      if key == KeyOf(centerId, r) then m[key].(weight := m[key].weight + 1) else m[key])
    ensures key !in m && key == KeyOf(centerId, r) ==>
      var e := Endpoints(centerId, r);
      AddEdge(m, centerId, r)[key] == EdgeEntry(e.0, e.1, 1)
  {
  }

  lemma EdgeMapSnoc(center: Company, related: seq<Company>, r: Company)
    ensures EdgeMap(center, related + [r]) == AddEdge(EdgeMap(center, related), NodeId(center), r)
  {
    var m, m' := EdgeMap(center, related), EdgeMap(center, related + [r]);
    var a := AddEdge(m, NodeId(center), r);
    KeysSnoc(center, related, r);
    forall key | key in m'
      ensures key in a && m'[key] == a[key]
    {
      AddEdgeAt(m, NodeId(center), r, key);
      if key in m {
        EdgeForSnocKnown(center, related, r, key);
      } else {
        EdgeForSnocNew(center, related, r);
      }
    }
    forall key | key in a
      ensures key in m'
    {
      AddEdgeAt(m, NodeId(center), r, key);
    }
    EdgeMapsEqual(m', a);
  }

  /** How the loop's four pieces of state advance by one related company. */
  lemma BuildStep(d: CompanyDetail, i: nat)
    requires i < |d.related|
    ensures Dedup(NodeIds(d.company, d.related[..i + 1])) ==
      if NodeId(d.related[i]) in NodeMap(d.company, d.related[..i]) then Dedup(NodeIds(d.company, d.related[..i]))
      else Dedup(NodeIds(d.company, d.related[..i])) + [NodeId(d.related[i])]
    ensures NodeMap(d.company, d.related[..i + 1]) == AddNode(NodeMap(d.company, d.related[..i]), d.related[i])
    ensures Dedup(Keys(d.company, d.related[..i + 1])) ==
      if KeyOf(NodeId(d.company), d.related[i]) in EdgeMap(d.company, d.related[..i]) then Dedup(Keys(d.company, d.related[..i]))
      else Dedup(Keys(d.company, d.related[..i])) + [KeyOf(NodeId(d.company), d.related[i])]
    ensures EdgeMap(d.company, d.related[..i + 1]) ==
      AddEdge(EdgeMap(d.company, d.related[..i]), NodeId(d.company), d.related[i])
  {
    var prefix, r := d.related[..i], d.related[i];
    assert d.related[..i + 1] == prefix + [r];
    NodeIdsSnoc(d.company, prefix, r);
    DedupSnoc(NodeIds(d.company, prefix), NodeId(r));
    NodeMapSnoc(d.company, prefix, r);
    KeysSnoc(d.company, prefix, r);
    DedupSnoc(Keys(d.company, prefix), KeyOf(NodeId(d.company), r));
    EdgeMapSnoc(d.company, prefix, r);
  }

  /** The visit of the related companies: a node map seeded with the center
      and an edge map, both filled in order, each with the order in which
      its keys were first inserted. */
  method VisitAll(d: CompanyDetail)
    returns (nodeOrder: seq<string>, nodeMap: map<string, GraphNode>,
             edgeOrder: seq<string>, edgeMap: map<string, EdgeEntry>)
    ensures nodeOrder == Dedup(NodeIds(d.company, d.related))
    ensures nodeMap == NodeMap(d.company, d.related)
    ensures edgeOrder == Dedup(Keys(d.company, d.related))
    ensures edgeMap == EdgeMap(d.company, d.related)
  {
    var centerNodeId := NodeId(d.company);
    nodeOrder := [centerNodeId];
    nodeMap := map[centerNodeId := CenterNode(d.company)];
    edgeOrder := [];
    edgeMap := map[];
    BuildStart(d);
    for i := 0 to |d.related|
      invariant nodeOrder == Dedup(NodeIds(d.company, d.related[..i]))
      invariant nodeMap == NodeMap(d.company, d.related[..i])
      invariant edgeOrder == Dedup(Keys(d.company, d.related[..i]))
      invariant edgeMap == EdgeMap(d.company, d.related[..i])
    {
      BuildStep(d, i);
      nodeOrder, nodeMap, edgeOrder, edgeMap :=
        VisitRelated(centerNodeId, d.related[i], nodeOrder, nodeMap, edgeOrder, edgeMap);
    }
    assert d.related[..|d.related|] == d.related;
  }

  /** The builder: the visit, then both maps read out in key insertion
      order. */
  method BuildGraph(d: CompanyDetail) returns (nodes: seq<GraphNode>, edges: seq<GraphEdge>)
    ensures nodes == BuiltNodes(d.company, d.related)
    ensures edges == BuiltEdges(d.company, d.related)
  {
    var nodeOrder, nodeMap, edgeOrder, edgeMap := VisitAll(d);
    NodesFromMap(d.company, d.related, nodeOrder, nodeMap);
    EdgesFromMap(d.company, d.related, edgeOrder, edgeMap);
    nodes := seq(|nodeOrder|, k requires 0 <= k < |nodeOrder| => nodeMap[nodeOrder[k]]);
    edges := seq(|edgeOrder|, k requires 0 <= k < |edgeOrder| => EmitEdge(edgeMap[edgeOrder[k]]));
  }

  /** Before the loop the node map holds the center alone and the edge map
      is empty. */
  lemma BuildStart(d: CompanyDetail)
    ensures d.related[..0] == []
    ensures Dedup(NodeIds(d.company, [])) == [NodeId(d.company)]
    ensures NodeMap(d.company, []) == map[NodeId(d.company) := CenterNode(d.company)]
    ensures Dedup(Keys(d.company, [])) == []
    ensures EdgeMap(d.company, []) == map[]
  {
    DedupSnoc([], NodeId(d.company));
    assert NodeIds(d.company, []) == [NodeId(d.company)];
    NodeMapsEqual(map[NodeId(d.company) := CenterNode(d.company)], NodeMap(d.company, []));
    EdgeMapsEqual(map[], EdgeMap(d.company, []));
  }

  /** The body of the loop over the related companies: a new id gets a node
      coloured by its tags, a known id is skipped; the edge key of the
      company either gains weight or starts a new edge of weight one. */
  method VisitRelated(
    centerNodeId: string, related: Company,
    nodeOrder: seq<string>, nodeMap: map<string, GraphNode>,
    edgeOrder: seq<string>, edgeMap: map<string, EdgeEntry>)
    returns (nodeOrder': seq<string>, nodeMap': map<string, GraphNode>,
             edgeOrder': seq<string>, edgeMap': map<string, EdgeEntry>)
    ensures nodeOrder' == if NodeId(related) in nodeMap then nodeOrder else nodeOrder + [NodeId(related)]
    ensures nodeMap' == AddNode(nodeMap, related)
    ensures edgeOrder' ==
      if KeyOf(centerNodeId, related) in edgeMap then edgeOrder else edgeOrder + [KeyOf(centerNodeId, related)]
    ensures edgeMap' == AddEdge(edgeMap, centerNodeId, related)
  {
    nodeOrder', nodeMap', edgeOrder', edgeMap' := nodeOrder, nodeMap, edgeOrder, edgeMap;
    var relatedId := NodeId(related);
    if relatedId !in nodeMap' {
      var tags := related.tags;
      var nodeColor := NodeColor(tags);
      nodeMap' := nodeMap'[relatedId := GraphNode(relatedId, related.name, nodeColor, NodeSize, Some(related), false)];
      nodeOrder' := nodeOrder' + [relatedId];
    }
    var tags := related.tags;
    var inCount := DirectionCount(tags, In);
    var outCount := DirectionCount(tags, Out);
    var isIn := inCount > outCount;
    var source := if isIn then relatedId else centerNodeId;
    var target := if isIn then centerNodeId else relatedId;
    var edgeKey := source + "-" + target;
    if edgeKey in edgeMap' {
      var existingEdge := edgeMap'[edgeKey];
      edgeMap' := edgeMap'[edgeKey := existingEdge.(weight := existingEdge.weight + 1)];
    } else {
      edgeMap' := edgeMap'[edgeKey := EdgeEntry(source, target, 1)];
      edgeOrder' := edgeOrder' + [edgeKey];
    }
  }

  /** Reading the node map in key insertion order gives the nodes. */
  lemma NodesFromMap(center: Company, related: seq<Company>, order: seq<string>, m: map<string, GraphNode>)
    requires order == Dedup(NodeIds(center, related)) && m == NodeMap(center, related)
    ensures forall k :: 0 <= k < |order| ==> order[k] in m
    ensures seq(|order|, k requires 0 <= k < |order| => m[order[k]]) == BuiltNodes(center, related)
  {
  }

  /** Reading the edge map in key insertion order gives the edges. */
  lemma EdgesFromMap(center: Company, related: seq<Company>, order: seq<string>, m: map<string, EdgeEntry>)
    requires order == Dedup(Keys(center, related)) && m == EdgeMap(center, related)
    ensures forall k :: 0 <= k < |order| ==> order[k] in m
    ensures seq(|order|, k requires 0 <= k < |order| => EmitEdge(m[order[k]])) == BuiltEdges(center, related)
  {
  }

  // ---------------------------------------------------------------------
  // Properties of the built graph

  /** The ids of a list of nodes, in order. */
  function NodeIdsOf(nodes: seq<GraphNode>): (ids: seq<string>)
    ensures |ids| == |nodes|
    ensures forall k :: 0 <= k < |nodes| ==> ids[k] == nodes[k].id
  {
    seq(|nodes|, k requires 0 <= k < |nodes| => nodes[k].id)
  }

  /** The node kept for an id carries that id. */
  lemma NodeForId(center: Company, related: seq<Company>, id: string)
    requires id in NodeIds(center, related)
    ensures NodeFor(center, related, id).id == id
    ensures NodeFor(center, related, id).size == NodeSize
    ensures !NodeFor(center, related, id).dimmed
  {
  }

  /** One node per distinct id, in order of first insertion, the center
      first; every node has the standard size and is not dimmed. */
  lemma BuiltNodeIds(center: Company, related: seq<Company>)
    ensures NodeIdsOf(BuiltNodes(center, related)) == Dedup(NodeIds(center, related))
    ensures BuiltNodes(center, related)[0] == CenterNode(center)
    ensures forall k :: 0 <= k < |BuiltNodes(center, related)| ==>
      BuiltNodes(center, related)[k].size == NodeSize && !BuiltNodes(center, related)[k].dimmed
  {
    var nodes, ids := BuiltNodes(center, related), Dedup(NodeIds(center, related));
    forall k | 0 <= k < |nodes|
      ensures nodes[k].id == ids[k] && nodes[k].size == NodeSize && !nodes[k].dimmed
    {
      NodeForId(center, related, ids[k]);
    }
    DedupHead(NodeIds(center, related));
  }

  /** The node ids are distinct and are exactly the center's id and the ids
      of the related companies. */
  lemma BuiltNodeIdsDistinct(center: Company, related: seq<Company>)
    ensures Distinct(NodeIdsOf(BuiltNodes(center, related)))
    ensures forall id :: id in NodeIdsOf(BuiltNodes(center, related)) <==>
      id == NodeId(center) || exists i :: 0 <= i < |related| && NodeId(related[i]) == id
  {
    BuiltNodeIds(center, related);
    var ids := NodeIds(center, related);
    forall id | id in ids
      ensures id == NodeId(center) || exists i :: 0 <= i < |related| && NodeId(related[i]) == id
    {
      var k :| 0 <= k < |ids| && ids[k] == id;
      if k > 0 {
        assert NodeId(related[k - 1]) == id;
      }
    }
    forall i | 0 <= i < |related|
      ensures NodeId(related[i]) in ids
    {
      assert ids[i + 1] == NodeId(related[i]);
    }
  }

  /** Visiting one more related company: a company whose id is already a
      node (the center's id included) changes no node; otherwise exactly its
      own node is appended. */
  lemma BuiltNodesSnoc(center: Company, related: seq<Company>, r: Company)
    ensures BuiltNodes(center, related + [r]) ==
      if NodeId(r) in NodeIds(center, related) then BuiltNodes(center, related)
      else BuiltNodes(center, related) + [RelatedNode(r)]
  {
    var ids := NodeIds(center, related);
    var before, after := BuiltNodes(center, related), BuiltNodes(center, related + [r]);
    BuiltNodesPrefix(center, related, r);
    if NodeId(r) !in ids {
      NodeForSnoc(center, related, r, NodeId(r));
      assert after == after[..|before|] + [after[|before|]];
    } else {
      assert after == after[..|before|];
    }
  }

  /** The nodes built so far stay, in place, when one more company is
      visited; at most the new company's node follows them. */
  lemma BuiltNodesPrefix(center: Company, related: seq<Company>, r: Company)
    ensures var before, after := BuiltNodes(center, related), BuiltNodes(center, related + [r]);
      && |after| == (if NodeId(r) in NodeIds(center, related) then |before| else |before| + 1)
      && after[..|before|] == before
      && (NodeId(r) !in NodeIds(center, related) ==> after[|before|].id == NodeId(r))
  {
    var ids := NodeIds(center, related);
    NodeIdsSnoc(center, related, r);
    DedupSnoc(ids, NodeId(r));
    var before, after := BuiltNodes(center, related), BuiltNodes(center, related + [r]);
    forall k | 0 <= k < |before|
      ensures after[k] == before[k]
    {
      NodeForSnoc(center, related, r, Dedup(ids)[k]);
    }
  }

  /** Before any related company is visited there is the center alone. */
  lemma BuiltNodesStart(center: Company)
    ensures BuiltNodes(center, []) == [CenterNode(center)]
  {
    DedupSnoc([], NodeId(center));
    assert NodeIds(center, []) == [NodeId(center)];
  }

  /** The text of a weight label read back as a weight: the empty label
      stands for one. */
  function LabelWeight(text: string): nat {
    if text == "" then 1
    else if forall i :: 0 <= i < |text| ==> IsDigit(text[i]) then DecimalValue(text)
    else 0
  }

  /** The label is empty exactly for weight one, and otherwise reads back as
      the weight. */
  lemma WeightLabelRoundTrip(weight: nat)
    requires weight >= 1
    ensures WeightLabel(weight) == "" <==> weight == 1
    ensures LabelWeight(WeightLabel(weight)) == weight
  {
    if weight > 1 {
      DecimalRoundTrip(weight);
    }
  }

  /** Every edge joins the center to a related company (in one direction or
      the other), is named by its endpoints joined with `-`, has the standard
      size and colour, and is labelled with the number of related companies
      whose edge key it has, which is at least one. */
  lemma BuiltEdgeShape(center: Company, related: seq<Company>, k: nat)
    requires k < |BuiltEdges(center, related)|
    ensures var e := BuiltEdges(center, related)[k];
      && e.id == Dedup(Keys(center, related))[k]
      && e.id == e.source + "-" + e.target
      && (e.source == NodeId(center) || e.target == NodeId(center))
      && e.size == EdgeSize && e.fill == EdgeFill
      && Count(Keys(center, related), e.id) >= 1
      && (e.caption == "" <==> Count(Keys(center, related), e.id) == 1)
      && LabelWeight(e.caption) == Count(Keys(center, related), e.id)
  {
    var key := Dedup(Keys(center, related))[k];
    WeightLabelRoundTrip(Count(Keys(center, related), key));
  }

  /** The direction rule: the edge of a related company goes from it to the
      center when it has strictly more IN tags than OUT tags, and from the
      center to it otherwise (ties and no tags included). Its key names an
      emitted edge; the first company with that key fixes the endpoints. */
  lemma EdgeDirection(center: Company, related: seq<Company>, i: nat)
    requires i < |related|
    ensures exists k :: (0 <= k < |BuiltEdges(center, related)| &&
      BuiltEdges(center, related)[k].id == KeyOf(NodeId(center), related[i]))
    ensures (forall j :: 0 <= j < i ==> KeyOf(NodeId(center), related[j]) != KeyOf(NodeId(center), related[i])) ==>
      exists k :: 0 <= k < |BuiltEdges(center, related)|
        && BuiltEdges(center, related)[k].id == KeyOf(NodeId(center), related[i])
        && var e := BuiltEdges(center, related)[k];
        if DirectionCount(related[i].tags, In) > DirectionCount(related[i].tags, Out)
        then e.source == NodeId(related[i]) && e.target == NodeId(center)
        else e.source == NodeId(center) && e.target == NodeId(related[i])
  {
    var keys := Keys(center, related);
    var key := keys[i];
    var d := Dedup(keys);
    assert key in d;
    var k :| 0 <= k < |d| && d[k] == key;
    var edges := BuiltEdges(center, related);
    assert edges[k].id == key;
    if forall j :: 0 <= j < i ==> keys[j] != key {
      assert key !in keys[..i];
      FirstIndexAt(keys, i);
    }
  }

  /** Sum of the weights the edge labels stand for. */
  function TotalWeight(edges: seq<GraphEdge>): nat {
    if edges == [] then 0
    else TotalWeight(edges[..|edges| - 1]) + LabelWeight(edges[|edges| - 1].caption)
  }

  lemma {:induction false} TotalWeightOfKeys(center: Company, related: seq<Company>, ks: seq<string>)
    requires forall j :: 0 <= j < |ks| ==> ks[j] in Keys(center, related)
    ensures TotalWeight(seq(|ks|, j requires 0 <= j < |ks| => EmitEdge(EdgeFor(center, related, ks[j]))))
      == SumCounts(Keys(center, related), ks)
  {
    var edges := seq(|ks|, j requires 0 <= j < |ks| => EmitEdge(EdgeFor(center, related, ks[j])));
    if ks != [] {
      var p := ks[..|ks| - 1];
      var pe := seq(|p|, j requires 0 <= j < |p| => EmitEdge(EdgeFor(center, related, p[j])));
      assert edges[..|edges| - 1] == pe;
      TotalWeightOfKeys(center, related, p);
      WeightLabelRoundTrip(Count(Keys(center, related), ks[|ks| - 1]));
    }
  }

  /** Each related company adds exactly one unit of weight to exactly one
      edge: the weights the labels stand for add up to the number of related
      companies. */
  lemma EdgeWeightsSumToRelated(center: Company, related: seq<Company>)
    ensures TotalWeight(BuiltEdges(center, related)) == |related|
  {
    var keys := Keys(center, related);
    TotalWeightOfKeys(center, related, Dedup(keys));
    CountsOverDedupSumToLength(keys);
  }

  /** A key with the center at one end names the self-loop only when both
      ends are the center. */
  lemma SelfLoopKey(a: string, b: string, c: string)
    requires a == c || b == c
    requires EdgeKey(a, b) == EdgeKey(c, c)
    ensures a == c && b == c
  {
    var k := EdgeKey(c, c);
    assert |a| == |b|;
    assert a == k[..|a|] && c == k[..|c|];
    assert b == k[|a| + 1..] && c == k[|c| + 1..];
  }

  /** A related company with the center's own id adds no node but yields an
      edge from the center to itself. */
  lemma SelfLoop(center: Company, related: seq<Company>, i: nat)
    requires i < |related| && NodeId(related[i]) == NodeId(center)
    ensures exists k :: (0 <= k < |BuiltEdges(center, related)| &&
      BuiltEdges(center, related)[k].source == NodeId(center) &&
      BuiltEdges(center, related)[k].target == NodeId(center))
  {
    var c := NodeId(center);
    var keys := Keys(center, related);
    var d := Dedup(keys);
    assert keys[i] in d;
    var k :| 0 <= k < |d| && d[k] == keys[i];
    var j := FirstIndex(keys, keys[i]);
    assert keys[i] == EdgeKey(c, c);
    var e := Endpoints(c, related[j]);
    assert EdgeKey(e.0, e.1) == keys[j];
    SelfLoopKey(e.0, e.1, c);
    assert BuiltEdges(center, related)[k] == EmitEdge(EdgeFor(center, related, keys[i]));
  }

  /** Two related companies with the same edge key give a single edge of
      weight two, drawn between the endpoints of the first. */
  lemma SharedKeyMerges(center: Company, r1: Company, r2: Company)
    requires KeyOf(NodeId(center), r1) == KeyOf(NodeId(center), r2)
    ensures var e := Endpoints(NodeId(center), r1);
      BuiltEdges(center, [r1, r2]) == [GraphEdge(EdgeKey(e.0, e.1), e.0, e.1, "2", EdgeSize, EdgeFill)]
  {
    var key := KeyOf(NodeId(center), r1);
    var keys := Keys(center, [r1, r2]);
    assert keys == [key, key];
    DedupOfTwin(key);
    CountOfTwin(key);
    assert FirstIndex(keys, key) == 0;
    var e := Endpoints(NodeId(center), r1);
    assert EdgeFor(center, [r1, r2], key) == EdgeEntry(e.0, e.1, 2);
    assert WeightLabel(2) == "2";
  }

  lemma DedupOfTwin(key: string)
    ensures Dedup([key, key]) == [key]
  {
    DedupSnoc([key], key);
    DedupSnoc([], key);
    assert [] + [key] == [key];
    assert [key] + [key] == [key, key];
  }

  lemma CountOfTwin(key: string)
    ensures Count([key, key], key) == 2
  {
    CountSnoc([key], key, key);
    CountSnoc([], key, key);
    assert [] + [key] == [key];
    assert [key] + [key] == [key, key];
  }

  /** Edge keys are plain string joins, so two different edges can share a
      key: with center `c`, a company `y-c` drawn away from the center and a
      company `c-y` drawn towards it both have key `c-y-c`, and the builder
      merges them into one edge of weight two between the endpoints of the
      first. */
  lemma EdgeKeysCollide(center: Company, r1: Company, r2: Company, y: string)
    requires NodeId(r1) == y + "-" + NodeId(center)
    requires NodeId(r2) == NodeId(center) + "-" + y
    requires DirectionCount(r1.tags, In) <= DirectionCount(r1.tags, Out)
    requires DirectionCount(r2.tags, In) > DirectionCount(r2.tags, Out)
    ensures Endpoints(NodeId(center), r1) != Endpoints(NodeId(center), r2)
    ensures BuiltEdges(center, [r1, r2]) ==
      [GraphEdge(EdgeKey(NodeId(center), NodeId(r1)), NodeId(center), NodeId(r1), "2", EdgeSize, EdgeFill)]
  {
    var c := NodeId(center);
    assert |Endpoints(c, r1).0| != |Endpoints(c, r2).0|;
    assert KeyOf(c, r1) == c + "-" + (y + "-" + c);
    assert KeyOf(c, r2) == (c + "-" + y) + "-" + c;
    SharedKeyMerges(center, r1, r2);
  }

  // ---------------------------------------------------------------------
  // Highlighting

  /** An element of the canvas's `actives` or `selections` lists: a node
      object (anything with an `id`), a bare id string, or anything else,
      which is ignored. */
  datatype ActiveEntry = NodeEntry(id: string) | IdEntry(id: string) | OtherEntry

  /** The hovered node with the pointer position of the hover event. */
  datatype HoveredNode = HoveredNode(node: GraphNode, mouseX: int, mouseY: int)

  /** `e` names the node `id`. */
  predicate Names(e: ActiveEntry, id: string) {
    !e.OtherEntry? && e.id == id
  }

  /** The ids named by a list that is an array; `None` is a value that is not
      an array and names nothing. */
  function EntryIds(entries: Option<seq<ActiveEntry>>): (ids: set<string>)
    ensures forall id :: id in ids <==>
      entries.Some? && exists i :: 0 <= i < |entries.value| && Names(entries.value[i], id)
  {
    if entries.None? then {}
    else
      var list := entries.value;
      set i | 0 <= i < |list| && !list[i].OtherEntry? :: list[i].id
  }

  /** The active set: the ids the canvas reports as active or selected, and
      the hovered node's id. */
  function ActiveIds(actives: Option<seq<ActiveEntry>>, selections: Option<seq<ActiveEntry>>,
                     hovered: Option<HoveredNode>): (ids: set<string>)
    ensures forall id :: id in ids <==>
      id in EntryIds(actives) || id in EntryIds(selections) || (hovered.Some? && hovered.value.node.id == id)
  {
    EntryIds(actives) + EntryIds(selections) + (if hovered.Some? then {hovered.value.node.id} else {})
  }

  lemma EntryIdsSnoc(list: seq<ActiveEntry>, e: ActiveEntry)
    ensures EntryIds(Some(list + [e])) == EntryIds(Some(list)) + (if e.OtherEntry? then {} else {e.id})
  {
    var l := list + [e];
    assert forall j :: 0 <= j < |list| ==> l[j] == list[j];
    assert l[|list|] == e;
  }

  /** Adds the ids named by `entries` to `ids`, element by element. */
  method AddEntryIds(ids: set<string>, entries: Option<seq<ActiveEntry>>) returns (ids': set<string>)
    ensures ids' == ids + EntryIds(entries)
  {
    ids' := ids;
    if entries.Some? {
      var list := entries.value;
      for i := 0 to |list|
        invariant ids' == ids + EntryIds(Some(list[..i]))
      {
        var n := list[i];
        assert list[..i + 1] == list[..i] + [n];
        EntryIdsSnoc(list[..i], n);
        if n.NodeEntry? {
          ids' := ids' + {n.id};
        } else if n.IdEntry? {
          ids' := ids' + {n.id};
        }
      }
      assert list[..|list|] == list;
    }
  }

  /** The active set of `coloredNodes`, collected into a set as the source
      does it. */
  method CollectActiveIds(actives: Option<seq<ActiveEntry>>, selections: Option<seq<ActiveEntry>>,
                          hovered: Option<HoveredNode>) returns (activeNodeIds: set<string>)
    ensures activeNodeIds == ActiveIds(actives, selections, hovered)
  {
    activeNodeIds := {};
    activeNodeIds := AddEntryIds(activeNodeIds, actives);
    activeNodeIds := AddEntryIds(activeNodeIds, selections);
    if hovered.Some? {
      activeNodeIds := activeNodeIds + {hovered.value.node.id};
    }
  }

  /** `nodeData?.tags || []`. */
  function NodeTags(node: GraphNode): (tags: seq<Tag>)
    ensures node.data.Some? ==> tags == node.data.value.tags
    ensures node.data.None? ==> NodeColor(tags) == DefaultFill
  {
    if node.data.Some? then node.data.value.tags else []
  }

  /** One node of `coloredNodes`: the center passes unchanged; any other
      node is recoloured from its data's tags and, when outside the active
      set, dimmed. */
  function ColorNode(node: GraphNode, centerId: string, active: set<string>): (r: GraphNode)
    ensures r.id == node.id && r.caption == node.caption && r.size == node.size && r.data == node.data
    ensures node.id == centerId ==> r == node
    ensures node.id != centerId ==> r.fill == NodeColor(NodeTags(node))
    ensures node.id != centerId ==> (r.dimmed <==> node.dimmed || node.id !in active)
  {
    if node.id == centerId then node
    else if node.id in active then node.(fill := NodeColor(NodeTags(node)))
    else node.(fill := NodeColor(NodeTags(node)), dimmed := true)
  }

  /** `coloredNodes`: every node coloured, in the same order. */
  function ColorNodes(nodes: seq<GraphNode>, centerId: string, active: set<string>): (r: seq<GraphNode>)
    ensures |r| == |nodes|
    ensures forall k :: 0 <= k < |nodes| ==> r[k] == ColorNode(nodes[k], centerId, active)
  {
    seq(|nodes|, k requires 0 <= k < |nodes| => ColorNode(nodes[k], centerId, active))
  }

  /** Colouring a built graph keeps every node as built except for the
      dimmed flag, which marks exactly the non-center nodes outside the
      active set: the recomputed colour is the colour the builder gave. */
  lemma ColoringKeepsBuiltNodes(center: Company, related: seq<Company>, active: set<string>, k: nat)
    requires k < |BuiltNodes(center, related)|
    ensures var node := BuiltNodes(center, related)[k];
      ColorNodes(BuiltNodes(center, related), NodeId(center), active)[k] ==
        node.(dimmed := node.id != NodeId(center) && node.id !in active)
  {
    var ids := Dedup(NodeIds(center, related));
    NodeForId(center, related, ids[k]);
  }

  /** With every node active the colouring changes nothing. */
  lemma AllActiveColoringIsIdentity(center: Company, related: seq<Company>, active: set<string>)
    requires forall k :: 0 <= k < |BuiltNodes(center, related)| ==> BuiltNodes(center, related)[k].id in active
    ensures ColorNodes(BuiltNodes(center, related), NodeId(center), active) == BuiltNodes(center, related)
  {
    forall k | 0 <= k < |BuiltNodes(center, related)|
      ensures ColorNodes(BuiltNodes(center, related), NodeId(center), active)[k] == BuiltNodes(center, related)[k]
    {
      ColoringKeepsBuiltNodes(center, related, active, k);
    }
  }

  // ---------------------------------------------------------------------
  // Relation summary

  /** The name of the company a node stands for and the distinct reasons of
      its IN and OUT tags. */
  datatype Relations = Relations(
    name: string,
    inReasons: seq<Option<string>>,
    outReasons: seq<Option<string>>)

  /** `tags.filter((tag) => tag.direction === d).map((tag) => tag.relReason)`. */
  function ReasonsOf(tags: seq<Tag>, d: Direction): (reasons: seq<Option<string>>)
    ensures |reasons| == DirectionCount(tags, d)
    ensures forall r :: r in reasons <==> exists i :: 0 <= i < |tags| && tags[i].direction == d && tags[i].relReason == r
  {
    if tags == [] then []
    else
      var p, t := tags[..|tags| - 1], tags[|tags| - 1];
      assert forall i :: 0 <= i < |p| ==> p[i] == tags[i];
      ReasonsOf(p, d) + (if t.direction == d then [t.relReason] else [])
  }

  /** `nodeRelations`: the hovered node takes precedence over the selected
      one; no summary without such a node or when it has no data. The
      reasons are de-duplicated by value, `null` included, in order of first
      occurrence. */
  function NodeRelations(hovered: Option<HoveredNode>, selected: Option<GraphNode>): (rel: Option<Relations>)
    ensures var target := if hovered.Some? then Some(hovered.value.node) else selected;
      && (rel.None? <==> target.None? || target.value.data.None?)
      && (rel.Some? ==> rel.value.name == target.value.data.value.name)
    ensures rel.Some? ==>
      var target := if hovered.Some? then hovered.value.node else selected.value;
      var tags := target.data.value.tags;
      && Distinct(rel.value.inReasons) && Distinct(rel.value.outReasons)
      && (forall r :: r in rel.value.inReasons <==>
            exists i :: 0 <= i < |tags| && tags[i].direction == In && tags[i].relReason == r)
      && (forall r :: r in rel.value.outReasons <==>
            exists i :: 0 <= i < |tags| && tags[i].direction == Out && tags[i].relReason == r)
  {
    var target := if hovered.Some? then Some(hovered.value.node) else selected;
    if target.None? || target.value.data.None? then None
    else
      var company := target.value.data.value;
      Some(Relations(company.name, Dedup(ReasonsOf(company.tags, In)), Dedup(ReasonsOf(company.tags, Out))))
  }

  /** The popover lists the reasons of each direction in the order in which
      they first occur among the target's tags. */
  lemma NodeRelationsOrder(hovered: Option<HoveredNode>, selected: Option<GraphNode>, i: nat, j: nat)
    requires NodeRelations(hovered, selected).Some?
    ensures var target := if hovered.Some? then hovered.value.node else selected.value;
      var tags := target.data.value.tags;
      var rel := NodeRelations(hovered, selected).value;
      && (i < j < |rel.inReasons| ==>
            FirstIndex(ReasonsOf(tags, In), rel.inReasons[i]) < FirstIndex(ReasonsOf(tags, In), rel.inReasons[j]))
      && (i < j < |rel.outReasons| ==>
            FirstIndex(ReasonsOf(tags, Out), rel.outReasons[i]) < FirstIndex(ReasonsOf(tags, Out), rel.outReasons[j]))
  {
    var target := if hovered.Some? then hovered.value.node else selected.value;
    var tags := target.data.value.tags;
    if i < j < |Dedup(ReasonsOf(tags, In))| {
      DedupFirstOccurrenceOrder(ReasonsOf(tags, In), i, j);
    }
    if i < j < |Dedup(ReasonsOf(tags, Out))| {
      DedupFirstOccurrenceOrder(ReasonsOf(tags, Out), i, j);
    }
  }

  /** The summary of a built node describes the first related company with
      that id alone: the tags of later duplicates never reach it. */
  lemma RelationsOfFirstEntry(center: Company, related: seq<Company>, i: nat, hover: HoveredNode)
    requires i < |related|
    requires NodeId(related[i]) != NodeId(center)
    requires forall j :: 0 <= j < i ==> NodeId(related[j]) != NodeId(related[i])
    requires hover.node == NodeFor(center, related, NodeId(related[i]))
    ensures NodeRelations(Some(hover), None) ==
      Some(Relations(related[i].name,
        Dedup(ReasonsOf(related[i].tags, In)), Dedup(ReasonsOf(related[i].tags, Out))))
  {
    NodeForFirstEntry(center, related, i);
    assert hover.node.data == Some(related[i]);
  }

  /** The node of a related company's id, when no earlier company has that
      id, is built from that company. */
  lemma NodeForFirstEntry(center: Company, related: seq<Company>, i: nat)
    requires i < |related|
    requires NodeId(related[i]) != NodeId(center)
    requires forall j :: 0 <= j < i ==> NodeId(related[j]) != NodeId(related[i])
    ensures NodeId(related[i]) in NodeIds(center, related)
    ensures NodeFor(center, related, NodeId(related[i])) == RelatedNode(related[i])
  {
    var ids := NodeIds(center, related);
    IdAbsentBefore(center, related, i);
    FirstIndexAt(ids, i + 1);
  }

  lemma IdAbsentBefore(center: Company, related: seq<Company>, i: nat)
    requires i < |related|
    requires NodeId(related[i]) != NodeId(center)
    requires forall j :: 0 <= j < i ==> NodeId(related[j]) != NodeId(related[i])
    ensures var ids := NodeIds(center, related);
      ids[i + 1] == NodeId(related[i]) && ids[i + 1] !in ids[..i + 1]
  {
    var ids, x := NodeIds(center, related), NodeId(related[i]);
    var prefix := ids[..i + 1];
    forall j | 0 <= j < |prefix|
      ensures prefix[j] != x
    {
      if j > 0 {
        assert prefix[j] == NodeId(related[j - 1]);
      }
    }
  }

  // ---------------------------------------------------------------------
  // Interaction state

  /** The path selection the canvas is asked for. */
  datatype PathSelection = PathIn | PathOut | PathAll

  /** A node the popover or the bottom sheet may show: not the center, and
      carrying data. */
  predicate Eligible(node: GraphNode, centerId: string) {
    node.id != centerId && node.data.Some?
  }

  /** A hovered or selected node that is eligible always has a summary. */
  lemma EligibleTargetHasRelations(hovered: Option<HoveredNode>, selected: Option<GraphNode>, centerId: string)
    requires hovered.Some? ==> Eligible(hovered.value.node, centerId)
    requires selected.Some? ==> Eligible(selected.value, centerId)
    ensures NodeRelations(hovered, selected).Some? <==> hovered.Some? || selected.Some?
  {
  }

  /** The component state of the graph that pointer events change: the
      hovered node (desktop popover), the selected node (mobile bottom sheet)
      and the path selection. Whether the device is mobile is an input of
      each handler. */
  class GraphInteraction {
    const centerId: string
    var hovered: Option<HoveredNode>
    var selected: Option<GraphNode>
    var pathSelectionType: PathSelection

    /** Neither the popover nor the bottom sheet ever targets the center or a
        node without data. */
    predicate Valid()
      reads this
    {
      (hovered.Some? ==> Eligible(hovered.value.node, centerId))
      && (selected.Some? ==> Eligible(selected.value, centerId))
    }

    /** Nothing hovered, nothing selected, IN paths. */
    constructor (centerId: string)
      ensures this.centerId == centerId
      ensures hovered.None? && selected.None? && pathSelectionType == PathIn
      ensures Valid()
    {
      this.centerId := centerId;
      hovered := None;
      selected := None;
      pathSelectionType := PathIn;
    }

    /** `handleNodeClick`: on a mobile device an eligible node opens the
        bottom sheet; any other click closes it. */
    method NodeClick(node: GraphNode, isMobile: bool)
      requires Valid()
      modifies this
      ensures Valid()
      ensures selected == if isMobile && Eligible(node, centerId) then Some(node) else None
      ensures hovered == old(hovered) && pathSelectionType == old(pathSelectionType)
    {
      if isMobile && node.id != centerId && node.data.Some? {
        selected := Some(node);
      } else {
        selected := None;
      }
    }

    /** `handleNodePointerOver`: on a desktop an eligible node becomes the
        hovered node, with the pointer position or 0 where the event has
        none; otherwise nothing changes. */
    method NodePointerOver(node: GraphNode, isMobile: bool, clientX: Option<int>, clientY: Option<int>)
      requires Valid()
      modifies this
      ensures Valid()
      ensures hovered == if !isMobile && Eligible(node, centerId)
                         then Some(HoveredNode(node, clientX.GetOr(0), clientY.GetOr(0)))
                         else old(hovered)
      ensures selected == old(selected) && pathSelectionType == old(pathSelectionType)
    {
      if !isMobile && node.id != centerId && node.data.Some? {
        hovered := Some(HoveredNode(node, clientX.GetOr(0), clientY.GetOr(0)));
      }
    }

    /** `handleNodePointerOut`: on a desktop the popover closes. */
    method NodePointerOut(isMobile: bool)
      requires Valid()
      modifies this
      ensures Valid()
      ensures hovered == if !isMobile then None else old(hovered)
      ensures selected == old(selected) && pathSelectionType == old(pathSelectionType)
    {
      if !isMobile {
        hovered := None;
      }
    }

    /** A click on the canvas background closes the bottom sheet on a mobile
        device. */
    method CanvasClick(isMobile: bool)
      requires Valid()
      modifies this
      ensures Valid()
      ensures selected == if isMobile then None else old(selected)
      ensures hovered == old(hovered) && pathSelectionType == old(pathSelectionType)
    {
      if isMobile {
        selected := None;
      }
    }

    /** Closing the bottom sheet clears the selection. */
    method CloseSheet()
      requires Valid()
      modifies this
      ensures Valid()
      ensures selected.None?
      ensures hovered == old(hovered) && pathSelectionType == old(pathSelectionType)
    {
      selected := None;
    }

    /** The IN, OUT and ALL buttons. */
    method SetPathSelectionType(t: PathSelection)
      requires Valid()
      modifies this
      ensures Valid()
      ensures pathSelectionType == t
      ensures hovered == old(hovered) && selected == old(selected)
    {
      pathSelectionType := t;
    }

    /** The popover shows on a desktop while a node is hovered. */
    predicate PopoverShown(isMobile: bool)
      reads this
    {
      !isMobile && hovered.Some? && NodeRelations(hovered, selected).Some?
    }

    /** The bottom sheet shows on a mobile device while a node is selected. */
    predicate SheetShown(isMobile: bool)
      reads this
    {
      isMobile && selected.Some? && NodeRelations(hovered, selected).Some?
    }
  }
}
