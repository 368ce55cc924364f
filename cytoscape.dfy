/** The Cytoscape elements of the search-space view, shared by the gene-pool
    builder and its list-shaped predecessor: the node of a gene, group
    nodes, the two kinds of edge, and the loops that collect them. */
module Cytoscape {

  import opened Wrappers
  import opened Py
  import opened PyStr
  import opened Seqs

  /** A gene: a JSON object (member order plays no part in dict equality). */
  type Gene = map<string, Json>

  /** `{"data": data}` for a node, `{"data": data, "classes": c}` for an edge. */
  datatype CyElement = CyElement(data: map<string, Json>, classes: Option<string>)

  /** The node every view starts with. */
  const StartElement := CyElement(map["id" := Str("Start"), "label" := Str("Start"),
                                      "f_name" := Str("Start"), "layer" := Str("Start")], None)

  /** `_get_node_element(gene)`: the gene's members with `id` set to the
      layer, `label` set to the layer with `_` replaced by a space, and a
      `group` member moved to `parent`. */
  function NodeData(gene: Gene): map<string, Json>
    requires "layer" in gene && gene["layer"].Str?
  {
    var layer := gene["layer"].s;
    var node := gene["id" := Str(layer)]["label" := Str(ReplaceAll(layer, "_", " "))];
    if "group" in gene then (node - {"group"})["parent" := gene["group"]] else node
  }

  /** What the node carries: the layer as id, a label without underscores,
      the group as parent, the layer itself, and every other member of the
      gene unchanged. */
  lemma NodeDataSpec(gene: Gene)
    requires "layer" in gene && gene["layer"].Str?
    ensures var d := NodeData(gene);
      && d["id"] == gene["layer"]
      && d["label"] == Str(ReplaceAll(gene["layer"].s, "_", " "))
      && '_' !in d["label"].s
      && "layer" in d && d["layer"] == gene["layer"]
      && "group" !in d
      && ("group" in gene ==> d["parent"] == gene["group"])
      && ("group" !in gene ==> ("parent" in d <==> "parent" in gene))
      && (forall k :: k in gene && k != "id" && k != "label" && k != "group" && k != "parent" ==>
            k in d && d[k] == gene[k])
      && (forall k :: k in d ==> k in gene || k == "id" || k == "label" || k == "parent")
  {
    RemoveCharGone(gene["layer"].s, '_');
    ReplaceCharAt(gene["layer"].s, '_', ' ');
  }

  function LayerElement(gene: Gene): CyElement
    requires "layer" in gene && gene["layer"].Str?
  {
    CyElement(NodeData(gene), None)
  }

  /** `{"data": {"id": group, "label": group}}`. */
  function GroupElement(group: Json): CyElement
  {
    CyElement(map["id" := group, "label" := group], None)
  }

  /** A rule-set edge, classed by its two ends. */
  function LayerEdge(src: string, tgt: string): CyElement
  {
    CyElement(map["source" := Str(src), "target" := Str(tgt)], Some(src + " " + tgt))
  }

  /** A group edge, classed `class-connect`. */
  function GroupEdge(src: string, tgt: string): CyElement
  {
    CyElement(map["source" := Str(src), "target" := Str(tgt)], Some("class-connect"))
  }

  // ------------------------------------------------------------ node loop

  /** A gene gets a node when its layer is a connected layer and its
      `exclude` member (or, when absent, `excludeDefault`) is falsy. */
  predicate Qualifies(gene: Gene, connected: seq<string>, excludeDefault: bool)
  {
    && "layer" in gene && gene["layer"].Str? && gene["layer"].s in connected
    && !Truthy(if "exclude" in gene then gene["exclude"] else Bool(excludeDefault))
  }

  /** The gene's `group` member, `None` (falsy) when absent. */
  function GroupOf(gene: Gene): Json
  {
    if "group" in gene then gene["group"] else Null
  }

  /** The three lists the node loop fills. */
  datatype Collected = Collected(elements: seq<CyElement>, groupElements: seq<CyElement>, groups: seq<Json>)

  /** The body of the loop for one qualifying gene: its node is appended
      unless already present; a truthy group whose node is not in
      `elements` adds a group node and a group name. */
  function AddGene(st: Collected, gene: Gene): Collected
    requires "layer" in gene && gene["layer"].Str?
  {
    var e := LayerElement(gene);
    var els := if e in st.elements then st.elements else st.elements + [e];
    var g := GroupOf(gene);
    if Truthy(g) && GroupElement(g) !in els
    then Collected(els, st.groupElements + [GroupElement(g)], st.groups + [g])
    else Collected(els, st.groupElements, st.groups)
  }

  /** The node loop over all genes, from the start node. */
  function CollectNodes(genes: seq<Gene>, connected: seq<string>, excludeDefault: bool): Collected
    decreases |genes|
  {
    if |genes| == 0 then Collected([StartElement], [], [])
    else
      var st := CollectNodes(genes[..|genes| - 1], connected, excludeDefault);
      var gene := genes[|genes| - 1];
      if Qualifies(gene, connected, excludeDefault) then AddGene(st, gene) else st
  }

  method NodeElements(genes: seq<Gene>, connected: seq<string>, excludeDefault: bool)
    returns (elements: seq<CyElement>, groupElements: seq<CyElement>, groups: seq<Json>)
    ensures Collected(elements, groupElements, groups) == CollectNodes(genes, connected, excludeDefault)
  {
    elements, groupElements, groups := [StartElement], [], [];
    for i := 0 to |genes|
      invariant Collected(elements, groupElements, groups) == CollectNodes(genes[..i], connected, excludeDefault)
    {
      assert genes[..i + 1][..i] == genes[..i];
      var gene := genes[i];
      var layer := if "layer" in gene then gene["layer"] else Null;
      var excluded := if "exclude" in gene then gene["exclude"] else Bool(excludeDefault);
      if !Truthy(excluded) && layer.Str? && layer.s in connected {
        var element := LayerElement(gene);
        if element !in elements {
          elements := elements + [element];
        }
        var group := GroupOf(gene);
        if Truthy(group) {
          element := GroupElement(group);
          if element !in elements {
            groupElements := groupElements + [element];
            groups := groups + [group];
          }
        }
      }
    }
    assert genes[..|genes|] == genes;
  }

  /** The groups of the qualifying genes with a truthy group, in gene order,
      repetitions kept. */
  function QualifyingGroups(genes: seq<Gene>, connected: seq<string>, excludeDefault: bool): seq<Json>
    decreases |genes|
  {
    if |genes| == 0 then []
    else
      var gene := genes[|genes| - 1];
      QualifyingGroups(genes[..|genes| - 1], connected, excludeDefault) +
        (if Qualifies(gene, connected, excludeDefault) && Truthy(GroupOf(gene)) then [GroupOf(gene)] else [])
  }

  /** Some qualifying gene has `e` as its node. */
  ghost predicate NodeOfSome(genes: seq<Gene>, connected: seq<string>, excludeDefault: bool, e: CyElement)
  {
    exists i :: 0 <= i < |genes| && Qualifies(genes[i], connected, excludeDefault) && e == LayerElement(genes[i])
  }

  /** The layer nodes: the start node first, no node twice, and each
      carrying a `layer` member. */
  lemma {:induction false} CollectNodesShape(genes: seq<Gene>, connected: seq<string>, excludeDefault: bool)
    ensures var els := CollectNodes(genes, connected, excludeDefault).elements;
      && |els| > 0 && els[0] == StartElement
      && NoDuplicates(els)
      && (forall e :: e in els ==> "layer" in e.data)
    decreases |genes|
  {
    if |genes| > 0 {
      var init := genes[..|genes| - 1];
      var gene := genes[|genes| - 1];
      CollectNodesShape(init, connected, excludeDefault);
      var prev := CollectNodes(init, connected, excludeDefault).elements;
      var els := CollectNodes(genes, connected, excludeDefault).elements;
      if Qualifies(gene, connected, excludeDefault) {
        NodeDataSpec(gene);
        var e := LayerElement(gene);
        assert els == if e in prev then prev else prev + [e];
        if e !in prev {
          forall i, j | 0 <= i < j < |els| ensures els[i] != els[j] {
            if j < |prev| {
              assert els[i] == prev[i] && els[j] == prev[j];
            } else {
              assert els[i] == prev[i] && prev[i] in prev;
            }
          }
        }
      }
    }
  }

  /** The layer nodes are exactly the start node and the nodes of the
      qualifying genes. */
  lemma {:induction false} CollectNodesLayers(genes: seq<Gene>, connected: seq<string>, excludeDefault: bool, e: CyElement)
    ensures e in CollectNodes(genes, connected, excludeDefault).elements <==>
      e == StartElement || NodeOfSome(genes, connected, excludeDefault, e)
    decreases |genes|
  {
    if |genes| > 0 {
      var init := genes[..|genes| - 1];
      var gene := genes[|genes| - 1];
      CollectNodesLayers(init, connected, excludeDefault, e);
      if NodeOfSome(genes, connected, excludeDefault, e) {
        var i :| 0 <= i < |genes| && Qualifies(genes[i], connected, excludeDefault) && e == LayerElement(genes[i]);
        if i < |init| {
          assert init[i] == genes[i];
        }
      }
      if NodeOfSome(init, connected, excludeDefault, e) {
        var i :| 0 <= i < |init| && Qualifies(init[i], connected, excludeDefault) && e == LayerElement(init[i]);
        assert genes[i] == init[i];
      }
    }
  }

  /** The group lists: one group name and one group node per qualifying gene
      with a truthy group, repetitions kept, because the presence check looks
      among the layer nodes, which never hold a group node. */
  lemma {:induction false} CollectNodesGroups(genes: seq<Gene>, connected: seq<string>, excludeDefault: bool)
    ensures CollectNodes(genes, connected, excludeDefault).groups == QualifyingGroups(genes, connected, excludeDefault)
    ensures var st := CollectNodes(genes, connected, excludeDefault);
      |st.groupElements| == |st.groups| &&
      forall i :: 0 <= i < |st.groups| ==> st.groupElements[i] == GroupElement(st.groups[i])
    decreases |genes|
  {
    if |genes| > 0 {
      var init := genes[..|genes| - 1];
      var gene := genes[|genes| - 1];
      CollectNodesGroups(init, connected, excludeDefault);
      CollectNodesShape(init, connected, excludeDefault);
      if Qualifies(gene, connected, excludeDefault) {
        NodeDataSpec(gene);
        var prev := CollectNodes(init, connected, excludeDefault);
        var e := LayerElement(gene);
        var els := if e in prev.elements then prev.elements else prev.elements + [e];
        var g := GroupOf(gene);
        assert "layer" !in GroupElement(g).data;
        assert GroupElement(g) !in els;
      }
    }
  }

  // ------------------------------------------------------------ edge loops

  /** One edge per target of a connected source layer, in rule order. */
  function LayerEdgeCandidates(graph: seq<(string, seq<string>)>, connected: seq<string>): seq<CyElement>
    decreases |graph|
  {
    if |graph| == 0 then []
    else
      var (src, ts) := graph[|graph| - 1];
      LayerEdgeCandidates(graph[..|graph| - 1], connected) +
        (if src in connected then seq(|ts|, j requires 0 <= j < |ts| => LayerEdge(src, ts[j])) else [])
  }

  /** One edge per target of a group source that is among `groups`. */
  function GroupEdgeCandidates(graph: seq<(string, seq<string>)>, groups: seq<Json>): seq<CyElement>
    decreases |graph|
  {
    if |graph| == 0 then []
    else
      var (src, ts) := graph[|graph| - 1];
      GroupEdgeCandidates(graph[..|graph| - 1], groups) +
        (if Str(src) in groups then seq(|ts|, j requires 0 <= j < |ts| => GroupEdge(src, ts[j])) else [])
  }

  /** The layer-edge loop: an edge is appended when it is new and its
      source is a connected layer. */
  method AddLayerEdges(elements: seq<CyElement>, graph: seq<(string, seq<string>)>, connected: seq<string>)
    returns (out: seq<CyElement>)
    ensures out == AppendNew(elements, LayerEdgeCandidates(graph, connected))
  {
    out := elements;
    for i := 0 to |graph|
      invariant out == AppendNew(elements, LayerEdgeCandidates(graph[..i], connected))
    {
      assert graph[..i + 1][..i] == graph[..i];
      var (layer, edges) := graph[i];
      ghost var before := out;
      ghost var own := if layer in connected then seq(|edges|, j requires 0 <= j < |edges| => LayerEdge(layer, edges[j])) else [];
      for j := 0 to |edges|
        invariant out == AppendNew(before, own[..if layer in connected then j else 0])
      {
        var element := LayerEdge(layer, edges[j]);
        if element !in out && layer in connected {
          assert own[..j + 1][..j] == own[..j];
          out := out + [element];
        } else if layer in connected {
          assert own[..j + 1][..j] == own[..j];
        }
      }
      assert own[..if layer in connected then |edges| else 0] == own;
      AppendNewConcat(elements, LayerEdgeCandidates(graph[..i], connected), own);
    }
    assert graph[..|graph|] == graph;
  }

  /** The group-edge loop: an edge is appended when it is new and its source
      group is among `groups`. */
  method AddGroupEdges(elements: seq<CyElement>, graph: seq<(string, seq<string>)>, groups: seq<Json>)
    returns (out: seq<CyElement>)
    ensures out == AppendNew(elements, GroupEdgeCandidates(graph, groups))
  {
    out := elements;
    for i := 0 to |graph|
      invariant out == AppendNew(elements, GroupEdgeCandidates(graph[..i], groups))
    {
      assert graph[..i + 1][..i] == graph[..i];
      var (source, targets) := graph[i];
      var active := Str(source) in groups;
      ghost var before := out;
      ghost var own := if active then seq(|targets|, j requires 0 <= j < |targets| => GroupEdge(source, targets[j])) else [];
      for j := 0 to |targets|
        invariant out == AppendNew(before, own[..if active then j else 0])
      {
        var element := GroupEdge(source, targets[j]);
        if element !in out && active {
          assert own[..j + 1][..j] == own[..j];
          out := out + [element];
        } else if active {
          assert own[..j + 1][..j] == own[..j];
        }
      }
      assert own[..if active then |targets| else 0] == own;
      AppendNewConcat(elements, GroupEdgeCandidates(graph[..i], groups), own);
    }
    assert graph[..|graph|] == graph;
  }

  /** The layer-edge candidates are exactly the edges from a connected
      source layer to one of its rule targets. */
  lemma {:induction false} LayerEdgeCandidatesSpec(graph: seq<(string, seq<string>)>, connected: seq<string>, e: CyElement)
    ensures e in LayerEdgeCandidates(graph, connected) <==>
      exists i, j :: 0 <= i < |graph| && graph[i].0 in connected && 0 <= j < |graph[i].1| &&
        e == LayerEdge(graph[i].0, graph[i].1[j])
    decreases |graph|
  {
    if |graph| > 0 {
      var init := graph[..|graph| - 1];
      var (src, ts) := graph[|graph| - 1];
      LayerEdgeCandidatesSpec(init, connected, e);
      var own := if src in connected then seq(|ts|, j requires 0 <= j < |ts| => LayerEdge(src, ts[j])) else [];
      if e in own {
        var j :| 0 <= j < |own| && own[j] == e;
        assert graph[|graph| - 1].1[j] == ts[j];
      }
      if (exists i, j :: 0 <= i < |graph| && graph[i].0 in connected && 0 <= j < |graph[i].1| &&
            e == LayerEdge(graph[i].0, graph[i].1[j])) {
        var i, j :| 0 <= i < |graph| && graph[i].0 in connected && 0 <= j < |graph[i].1| &&
          e == LayerEdge(graph[i].0, graph[i].1[j]);
        if i < |init| {
          assert init[i] == graph[i];
        } else {
          assert own[j] == e;
        }
      }
      if e in LayerEdgeCandidates(init, connected) {
        var i, j :| 0 <= i < |init| && init[i].0 in connected && 0 <= j < |init[i].1| &&
          e == LayerEdge(init[i].0, init[i].1[j]);
        assert graph[i] == init[i];
      }
    }
  }

  /** The group-edge candidates are exactly the edges from a group among
      `groups` to one of its target groups. */
  lemma {:induction false} GroupEdgeCandidatesSpec(graph: seq<(string, seq<string>)>, groups: seq<Json>, e: CyElement)
    ensures e in GroupEdgeCandidates(graph, groups) <==>
      exists i, j :: 0 <= i < |graph| && Str(graph[i].0) in groups && 0 <= j < |graph[i].1| &&
        e == GroupEdge(graph[i].0, graph[i].1[j])
    decreases |graph|
  {
    if |graph| > 0 {
      var init := graph[..|graph| - 1];
      var (src, ts) := graph[|graph| - 1];
      GroupEdgeCandidatesSpec(init, groups, e);
      var own := if Str(src) in groups then seq(|ts|, j requires 0 <= j < |ts| => GroupEdge(src, ts[j])) else [];
      if e in own {
        var j :| 0 <= j < |own| && own[j] == e;
        assert graph[|graph| - 1].1[j] == ts[j];
      }
      if (exists i, j :: 0 <= i < |graph| && Str(graph[i].0) in groups && 0 <= j < |graph[i].1| &&
            e == GroupEdge(graph[i].0, graph[i].1[j])) {
        var i, j :| 0 <= i < |graph| && Str(graph[i].0) in groups && 0 <= j < |graph[i].1| &&
          e == GroupEdge(graph[i].0, graph[i].1[j]);
        if i < |init| {
          assert init[i] == graph[i];
        } else {
          assert own[j] == e;
        }
      }
      if e in GroupEdgeCandidates(init, groups) {
        var i, j :| 0 <= i < |init| && Str(init[i].0) in groups && 0 <= j < |init[i].1| &&
          e == GroupEdge(init[i].0, init[i].1[j]);
        assert graph[i] == init[i];
      }
    }
  }

  /** The whole view: group nodes, then layer nodes, then the new layer
      edges, then the new group edges. */
  function Assemble(st: Collected, ruleGraph: seq<(string, seq<string>)>, connected: seq<string>,
                    groupGraph: seq<(string, seq<string>)>): seq<CyElement>
  {
    var withLayers := AppendNew(st.groupElements + st.elements, LayerEdgeCandidates(ruleGraph, connected));
    AppendNew(withLayers, GroupEdgeCandidates(groupGraph, st.groups))
  }

  /** The assembled view starts with the group nodes and the layer nodes;
      what follows are edges, each new, holding exactly the candidate edges
      not already among the nodes. */
  lemma AssembleSpec(st: Collected, ruleGraph: seq<(string, seq<string>)>, connected: seq<string>,
                     groupGraph: seq<(string, seq<string>)>)
    ensures var out := Assemble(st, ruleGraph, connected, groupGraph);
      var nodes := st.groupElements + st.elements;
      && |nodes| <= |out| && out[..|nodes|] == nodes
      && NoDuplicates(out[|nodes|..])
      && (forall e :: e in out[|nodes|..] ==> e !in nodes)
      && (forall e :: e in out <==>
            (e in nodes || e in LayerEdgeCandidates(ruleGraph, connected) ||
             e in GroupEdgeCandidates(groupGraph, st.groups)))
  {
    var nodes := st.groupElements + st.elements;
    var lc := LayerEdgeCandidates(ruleGraph, connected);
    var gc := GroupEdgeCandidates(groupGraph, st.groups);
    AppendNewConcat(nodes, lc, gc);
    AppendNewSpec(nodes, lc + gc);
  }

  /** The nodes of a view: one group node per qualifying gene with a group
      (repetitions kept), then the start node; every qualifying gene's node
      is present and no layer node twice. */
  lemma ViewNodes(genes: seq<Gene>, connected: seq<string>, excludeDefault: bool,
                  ruleGraph: seq<(string, seq<string>)>, groupGraph: seq<(string, seq<string>)>, gene: Gene)
    ensures var st := CollectNodes(genes, connected, excludeDefault);
      var els := Assemble(st, ruleGraph, connected, groupGraph);
      && st.groups == QualifyingGroups(genes, connected, excludeDefault)
      && |st.groups| < |els| && els[|st.groups|] == StartElement
      && (forall i :: 0 <= i < |st.groups| ==> els[i] == GroupElement(st.groups[i]))
      && NoDuplicates(st.elements)
      && (gene in genes && Qualifies(gene, connected, excludeDefault) ==> LayerElement(gene) in els)
  {
    var st := CollectNodes(genes, connected, excludeDefault);
    CollectNodesShape(genes, connected, excludeDefault);
    CollectNodesGroups(genes, connected, excludeDefault);
    AssembleSpec(st, ruleGraph, connected, groupGraph);
    var nodes := st.groupElements + st.elements;
    var els := Assemble(st, ruleGraph, connected, groupGraph);
    assert els[|st.groups|] == nodes[|st.groups|];
    forall i | 0 <= i < |st.groups| ensures els[i] == GroupElement(st.groups[i]) {
      assert els[i] == nodes[i];
    }
    if gene in genes && Qualifies(gene, connected, excludeDefault) {
      CollectNodesLayers(genes, connected, excludeDefault, LayerElement(gene));
      var i :| 0 <= i < |genes| && genes[i] == gene;
      assert LayerElement(gene) in nodes;
    }
  }

  /** The edges of a view: after the nodes, each new and none twice, rule
      edges from connected layers and group edges from the group names. */
  lemma ViewEdges(genes: seq<Gene>, connected: seq<string>, excludeDefault: bool,
                  ruleGraph: seq<(string, seq<string>)>, groupGraph: seq<(string, seq<string>)>, e: CyElement)
    ensures var st := CollectNodes(genes, connected, excludeDefault);
      var els := Assemble(st, ruleGraph, connected, groupGraph);
      var n := |st.groupElements| + |st.elements|;
      && n <= |els| && els[..n] == st.groupElements + st.elements
      && NoDuplicates(els[n..])
      && (e in els[n..] ==>
            e !in els[..n] &&
            (e in LayerEdgeCandidates(ruleGraph, connected) || e in GroupEdgeCandidates(groupGraph, st.groups)))
  {
    var st := CollectNodes(genes, connected, excludeDefault);
    AssembleSpec(st, ruleGraph, connected, groupGraph);
  }
}
