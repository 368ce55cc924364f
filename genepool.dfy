/** The gene-pool view of a search space: layers grouped in a `gene_pool`
    dict, per-layer rules in a `rule_set` dict and group rules in a
    `rule_set_group` list. The layer graph (optionally expanded through the
    group rules) is searched from `Start`; reachable, non-excluded genes
    become nodes, grouped under group nodes, joined by rule edges and group
    edges. */
module GenePool {

  import opened Wrappers
  import opened Py
  import opened Seqs
  import opened GraphSearch
  import opened Cytoscape

  /** A `rule_set_group` entry: its `group` (if present), its `rule` list
      (`[]` when absent) and its `exclude` value (`False` when absent). */
  datatype GroupRule = GroupRule(group: Option<string>, rule: seq<string>, exclude: Json)

  /** The search-space document: `gene_pool` (group -> genes, absent is
      `None`), `rule_set` (layer -> its `rule` list, `[]` when either is
      absent) and `rule_set_group`. */
  datatype SearchSpace = SearchSpace(
    genePool: Option<seq<(string, seq<Gene>)>>,
    ruleSet: seq<(string, seq<string>)>,
    ruleSetGroup: seq<GroupRule>)

  /** Every `layer` member present in a gene is a string. */
  predicate StringLayers(genes: seq<Gene>)
  {
    forall j :: 0 <= j < |genes| && "layer" in genes[j] ==> genes[j]["layer"].Str?
  }

  /** What a parsed document is: dicts have distinct keys, and the layers
      named in the gene pool are strings. */
  predicate ValidDoc(doc: SearchSpace)
  {
    && NoDuplicates(Keys(doc.ruleSet))
    && (doc.genePool.Some? ==>
          NoDuplicates(Keys(doc.genePool.value)) &&
          forall i :: 0 <= i < |doc.genePool.value| ==> StringLayers(doc.genePool.value[i].1))
  }

  // -------------------------------------------------------------- groups

  /** `val['layer']`. */
  function LayerOf(gene: Gene): Result<string>
    requires "layer" in gene ==> gene["layer"].Str?
  {
    if "layer" in gene then Ok(gene["layer"].s) else Err(KeyError("layer"))
  }

  /** `val['layer']` for each gene of a group. */
  function LayerResults(genes: seq<Gene>): (rs: seq<Result<string>>)
    requires StringLayers(genes)
    ensures |rs| == |genes|
    ensures forall j :: 0 <= j < |genes| ==> rs[j] == LayerOf(genes[j])
  {
    seq(|genes|, j requires 0 <= j < |genes| => LayerOf(genes[j]))
  }

  /** One group's layer list. */
  function GroupEntry(e: (string, seq<Gene>)): Result<(string, seq<string>)>
    requires StringLayers(e.1)
  {
    var ls :- AllOk(LayerResults(e.1));
    Ok((e.0, ls))
  }

  /** The entries of the whole pool. */
  function GroupEntries(pool: seq<(string, seq<Gene>)>): (es: seq<Result<(string, seq<string>)>>)
    requires forall i :: 0 <= i < |pool| ==> StringLayers(pool[i].1)
    ensures |es| == |pool|
    ensures forall i :: 0 <= i < |pool| ==> es[i] == GroupEntry(pool[i])
  {
    seq(|pool|, i requires 0 <= i < |pool| => GroupEntry(pool[i]))
  }

  /** `_get_groups`: group -> the layers of its genes in pool order; a
      missing `gene_pool` is an AttributeError (`[].items()`), a gene
      without `layer` a KeyError. */
  function Groups(doc: SearchSpace): Result<map<string, seq<string>>>
    requires ValidDoc(doc)
  {
    if doc.genePool.None? then Err(AttributeError)
    else DictOf(GroupEntries(doc.genePool.value))
  }

  /** `groups.get(name, [])`. */
  function GroupLayers(groups: map<string, seq<string>>, name: string): seq<string>
  {
    if name in groups then groups[name] else []
  }

  /** A group's entry exists exactly when each of its genes names its layer,
      and then lists those layers in order. */
  lemma GroupEntrySpec(e: (string, seq<Gene>))
    requires StringLayers(e.1)
    ensures GroupEntry(e).Ok? <==> forall b :: 0 <= b < |e.1| ==> "layer" in e.1[b]
    ensures GroupEntry(e).Ok? ==>
      GroupEntry(e).value.0 == e.0 && |GroupEntry(e).value.1| == |e.1| &&
      forall b :: 0 <= b < |e.1| ==> GroupEntry(e).value.1[b] == e.1[b]["layer"].s
  {
    AllOkSpec(LayerResults(e.1));
  }

  /** The groups exist exactly when the pool does and every gene names its
      layer. */
  lemma GroupsOk(doc: SearchSpace)
    requires ValidDoc(doc)
    ensures doc.genePool.None? ==> Groups(doc) == Err(AttributeError)
    ensures doc.genePool.Some? ==>
      (Groups(doc).Ok? <==>
        forall a, b :: 0 <= a < |doc.genePool.value| && 0 <= b < |doc.genePool.value[a].1| ==>
          "layer" in doc.genePool.value[a].1[b])
  {
    if doc.genePool.Some? {
      var pool := doc.genePool.value;
      DictOfOk(GroupEntries(pool));
      forall a | 0 <= a < |pool| {
        GroupEntrySpec(pool[a]);
      }
    }
  }

  /** Each group then maps to the layers of its genes, in order. */
  lemma GroupsEntry(doc: SearchSpace, i: nat)
    requires ValidDoc(doc) && doc.genePool.Some? && Groups(doc).Ok? && i < |doc.genePool.value|
    ensures var name := doc.genePool.value[i].0;
      var genes := doc.genePool.value[i].1;
      && name in Groups(doc).value
      && |Groups(doc).value[name]| == |genes|
      && forall b :: 0 <= b < |genes| ==> "layer" in genes[b] && Groups(doc).value[name][b] == genes[b]["layer"].s
  {
    var pool := doc.genePool.value;
    var es := GroupEntries(pool);
    DictOfOk(es);
    forall j | 0 <= j < |es| {
      GroupEntrySpec(pool[j]);
    }
    forall j | i < j < |es| ensures es[j].value.0 != es[i].value.0 {
      assert Keys(pool)[j] != Keys(pool)[i];
    }
    DictOfLastWins(es, i);
  }

  // ----------------------------------------------------- flattened genes

  /** Every gene with its group's name set as `group`, group by group. */
  function Flatten(pool: seq<(string, seq<Gene>)>): seq<Gene>
    decreases |pool|
  {
    if |pool| == 0 then []
    else
      var (group, genes) := pool[|pool| - 1];
      Flatten(pool[..|pool| - 1]) + seq(|genes|, j requires 0 <= j < |genes| => genes[j]["group" := Str(group)])
  }

  /** `_get_genes_flattened`; a missing `gene_pool` is an AttributeError. */
  function GenesFlattened(doc: SearchSpace): Result<seq<Gene>>
  {
    if doc.genePool.None? then Err(AttributeError) else Ok(Flatten(doc.genePool.value))
  }

  method GetGenesFlattened(doc: SearchSpace) returns (r: Result<seq<Gene>>)
    ensures r == GenesFlattened(doc)
  {
    if doc.genePool.None? {
      return Err(AttributeError);
    }
    var groups := doc.genePool.value;
    var layers: seq<Gene> := [];
    for i := 0 to |groups|
      invariant layers == Flatten(groups[..i])
    {
      assert groups[..i + 1][..i] == groups[..i];
      var (group, groupLayers) := groups[i];
      ghost var before := layers;
      for j := 0 to |groupLayers|
        invariant layers == before + seq(j, k requires 0 <= k < j => groupLayers[k]["group" := Str(group)])
      {
        var layerWithGroup := groupLayers[j]["group" := Str(group)];
        layers := layers + [layerWithGroup];
      }
    }
    assert groups[..|groups|] == groups;
    return Ok(layers);
  }

  /** The flattened list holds exactly the genes with their group's name as
      `group`; `FlattenLayout` gives the count and the order. */
  lemma {:induction false} FlattenSpec(pool: seq<(string, seq<Gene>)>, g: Gene)
    ensures g in Flatten(pool) <==>
      exists i, j :: 0 <= i < |pool| && 0 <= j < |pool[i].1| && g == pool[i].1[j]["group" := Str(pool[i].0)]
    ensures forall x: Gene :: x in Flatten(pool) ==> "group" in x && x["group"].Str?
    decreases |pool|
  {
    if |pool| > 0 {
      var init := pool[..|pool| - 1];
      var (group, genes) := pool[|pool| - 1];
      FlattenSpec(init, g);
      var own := seq(|genes|, j requires 0 <= j < |genes| => genes[j]["group" := Str(group)]);
      if g in own {
        var j :| 0 <= j < |own| && own[j] == g;
        assert pool[|pool| - 1].1[j] == genes[j];
      }
      if (exists i, j :: 0 <= i < |pool| && 0 <= j < |pool[i].1| && g == pool[i].1[j]["group" := Str(pool[i].0)]) {
        var i, j :| 0 <= i < |pool| && 0 <= j < |pool[i].1| && g == pool[i].1[j]["group" := Str(pool[i].0)];
        if i < |init| {
          assert init[i] == pool[i];
        } else {
          assert own[j] == g;
        }
      }
      if g in Flatten(init) {
        var i, j :| 0 <= i < |init| && 0 <= j < |init[i].1| && g == init[i].1[j]["group" := Str(init[i].0)];
        assert pool[i] == init[i];
      }
    }
  }

  /** The flattened list has one entry per gene. */
  lemma {:induction false} FlattenSize(pool: seq<(string, seq<Gene>)>)
    ensures |Flatten(pool)| == GroupsSize(pool)
    decreases |pool|
  {
    if |pool| > 0 {
      FlattenSize(pool[..|pool| - 1]);
    }
  }

  /** Gene `j` of group `i` is flattened to the entry that follows the
      genes of the groups before it. */
  lemma {:induction false} FlattenAt(pool: seq<(string, seq<Gene>)>, i: nat, j: nat)
    requires i < |pool| && j < |pool[i].1|
    ensures GroupsSize(pool[..i]) + j < |Flatten(pool)|
    ensures Flatten(pool)[GroupsSize(pool[..i]) + j] == pool[i].1[j]["group" := Str(pool[i].0)]
    decreases |pool|
  {
    var n := |pool| - 1;
    var init := pool[..n];
    FlattenSize(init);
    if i < n {
      FlattenAt(init, i, j);
      assert pool[..i] == init[..i];
      assert init[i] == pool[i];
    } else {
      assert pool[..i] == init;
    }
  }

  /** The flattened list has one entry per gene, in group-then-list order:
      gene `j` of group `i` sits right after the genes of the earlier
      groups, with its group's name as `group`. */
  lemma FlattenLayout(pool: seq<(string, seq<Gene>)>)
    ensures |Flatten(pool)| == GroupsSize(pool)
    ensures forall i :: 0 <= i < |pool| ==> GroupsSize(pool[..i]) + |pool[i].1| <= GroupsSize(pool)
    ensures forall i, j :: 0 <= i < |pool| && 0 <= j < |pool[i].1| ==>
      Flatten(pool)[GroupsSize(pool[..i]) + j] == pool[i].1[j]["group" := Str(pool[i].0)]
  {
    FlattenSize(pool);
    forall i | 0 <= i < |pool| ensures GroupsSize(pool[..i]) + |pool[i].1| <= GroupsSize(pool) {
      GroupsSizePrefix(pool, i);
    }
    forall i, j | 0 <= i < |pool| && 0 <= j < |pool[i].1|
      ensures Flatten(pool)[GroupsSize(pool[..i]) + j] == pool[i].1[j]["group" := Str(pool[i].0)]
    {
      FlattenAt(pool, i, j);
    }
  }

  // --------------------------------------------------------- layer graph

  /** One expansion step: every source layer gets the target list appended
      to its own (a fresh entry when it had none). */
  function AddTargets(g: Graph, srcs: seq<string>, tgt: seq<string>): Graph
    decreases |srcs|
  {
    if |srcs| == 0 then g
    else
      var prev := AddTargets(g, srcs[..|srcs| - 1], tgt);
      var s := srcs[|srcs| - 1];
      prev[s := (if s in prev then prev[s] else []) + tgt]
  }

  /** The target groups of one group rule, in order; each reads the groups
      and needs the rule's source group. */
  function ExpandTargets(doc: SearchSpace, r: GroupRule, ts: seq<string>, g: Graph): Result<Graph>
    requires ValidDoc(doc)
    decreases |ts|
  {
    if |ts| == 0 then Ok(g)
    else
      var prev :- ExpandTargets(doc, r, ts[..|ts| - 1], g);
      var groups :- Groups(doc);
      if r.group.None? then Err(TypeError)
      else Ok(AddTargets(prev, GroupLayers(groups, r.group.value), GroupLayers(groups, ts[|ts| - 1])))
  }

  /** The group rules, in order. */
  function ExpandRules(doc: SearchSpace, rules: seq<GroupRule>, g: Graph): Result<Graph>
    requires ValidDoc(doc)
    decreases |rules|
  {
    if |rules| == 0 then Ok(g)
    else
      var prev :- ExpandRules(doc, rules[..|rules| - 1], g);
      ExpandTargets(doc, rules[|rules| - 1], rules[|rules| - 1].rule, prev)
  }

  /** `_get_layer_graph`: each rule-set layer mapped to its rule list, then,
      with group connections, expanded through every group rule. */
  function LayerGraph(doc: SearchSpace, groupConnections: bool): Result<Graph>
    requires ValidDoc(doc)
  {
    var base := MapOf(doc.ruleSet);
    if !groupConnections then Ok(base) else ExpandRules(doc, doc.ruleSetGroup, base)
  }

  lemma {:induction false} ExpandTargetsPrefixErr(doc: SearchSpace, r: GroupRule, ts: seq<string>, g: Graph, k: nat)
    requires ValidDoc(doc) && k <= |ts| && ExpandTargets(doc, r, ts[..k], g).Err?
    ensures ExpandTargets(doc, r, ts, g) == ExpandTargets(doc, r, ts[..k], g)
    decreases |ts|
  {
    if k < |ts| {
      assert ts[..|ts| - 1][..k] == ts[..k];
      ExpandTargetsPrefixErr(doc, r, ts[..|ts| - 1], g, k);
    } else {
      assert ts[..k] == ts;
    }
  }

  lemma {:induction false} ExpandRulesPrefixErr(doc: SearchSpace, rules: seq<GroupRule>, g: Graph, k: nat)
    requires ValidDoc(doc) && k <= |rules| && ExpandRules(doc, rules[..k], g).Err?
    ensures ExpandRules(doc, rules, g) == ExpandRules(doc, rules[..k], g)
    decreases |rules|
  {
    if k < |rules| {
      assert rules[..|rules| - 1][..k] == rules[..k];
      ExpandRulesPrefixErr(doc, rules[..|rules| - 1], g, k);
    } else {
      assert rules[..k] == rules;
    }
  }

  /** The innermost loop of `_get_layer_graph`: the target layers appended
      to every source layer's list in turn. */
  method AddTargetsOf(g: Graph, srcs: seq<string>, tgt: seq<string>) returns (graph: Graph)
    ensures graph == AddTargets(g, srcs, tgt)
  {
    graph := g;
    for m := 0 to |srcs|
      invariant graph == AddTargets(g, srcs[..m], tgt)
    {
      assert srcs[..m + 1][..m] == srcs[..m];
      var srcLayer := srcs[m];
      if srcLayer in graph {
        graph := graph[srcLayer := graph[srcLayer] + tgt];
      } else {
        assert [] + tgt == tgt;
        graph := graph[srcLayer := tgt];
      }
    }
    assert srcs[..|srcs|] == srcs;
  }

  /** One group rule of `_get_layer_graph`: the groups are re-read for each
      target group. */
  method ExpandTargetsOf(doc: SearchSpace, groupRule: GroupRule, g: Graph) returns (r: Result<Graph>)
    requires ValidDoc(doc)
    ensures r == ExpandTargets(doc, groupRule, groupRule.rule, g)
  {
    var graph := g;
    var targets := groupRule.rule;
    for k := 0 to |targets|
      invariant ExpandTargets(doc, groupRule, targets[..k], g) == Ok(graph)
    {
      assert targets[..k + 1][..k] == targets[..k];
      var groups := Groups(doc);
      if groups.Err? || groupRule.group.None? {
        ExpandTargetsPrefixErr(doc, groupRule, targets, g, k + 1);
        return if groups.Err? then Err(groups.error) else Err(TypeError);
      }
      var sourceLayers := GroupLayers(groups.value, groupRule.group.value);
      var targetLayers := GroupLayers(groups.value, targets[k]);
      assert ExpandTargets(doc, groupRule, targets[..k + 1], g) == Ok(AddTargets(graph, sourceLayers, targetLayers));
      graph := AddTargetsOf(graph, sourceLayers, targetLayers);
    }
    assert targets[..|targets|] == targets;
    return Ok(graph);
  }

  method GetLayerGraph(doc: SearchSpace, groupConnections: bool) returns (r: Result<Graph>)
    requires ValidDoc(doc)
    ensures r == LayerGraph(doc, groupConnections)
  {
    var graph: Graph := map[];
    for i := 0 to |doc.ruleSet|
      invariant graph == MapOf(doc.ruleSet[..i])
    {
      assert doc.ruleSet[..i + 1][..i] == doc.ruleSet[..i];
      var (srcLayer, targetLayers) := doc.ruleSet[i];
      graph := graph[srcLayer := targetLayers];
    }
    assert doc.ruleSet[..|doc.ruleSet|] == doc.ruleSet;
    if !groupConnections {
      return Ok(graph);
    }
    ghost var base := graph;
    var rules := doc.ruleSetGroup;
    for i := 0 to |rules|
      invariant ExpandRules(doc, rules[..i], base) == Ok(graph)
    {
      assert rules[..i + 1][..i] == rules[..i];
      var expanded := ExpandTargetsOf(doc, rules[i], graph);
      if expanded.Err? {
        ExpandRulesPrefixErr(doc, rules, base, i + 1);
        return expanded;
      }
      graph := expanded.value;
    }
    assert rules[..|rules|] == rules;
    return Ok(graph);
  }

  /** Without group connections each rule-set layer maps to its own rule
      list and nothing else is a key; no `exclude` flag is consulted. */
  lemma LayerGraphPlain(doc: SearchSpace, i: nat, k: string)
    requires ValidDoc(doc)
    ensures LayerGraph(doc, false).Ok?
    ensures k in LayerGraph(doc, false).value <==> HasKey(doc.ruleSet, k)
    ensures i < |doc.ruleSet| ==>
      doc.ruleSet[i].0 in LayerGraph(doc, false).value && LayerGraph(doc, false).value[doc.ruleSet[i].0] == doc.ruleSet[i].1
  {
    MapOfKeys(doc.ruleSet, k);
    if i < |doc.ruleSet| {
      MapOfEntry(doc.ruleSet, i);
    }
  }

  /** An expansion step adds the source layers as keys and the target list
      to each of them. */
  lemma {:induction false} AddTargetsSpec(g: Graph, srcs: seq<string>, tgt: seq<string>, s: string, t: string)
    ensures s in AddTargets(g, srcs, tgt) <==> s in g || s in srcs
    ensures s in AddTargets(g, srcs, tgt) ==>
      (t in AddTargets(g, srcs, tgt)[s] <==> (s in g && t in g[s]) || (s in srcs && t in tgt))
    decreases |srcs|
  {
    if |srcs| > 0 {
      AddTargetsSpec(g, srcs[..|srcs| - 1], tgt, s, t);
      assert srcs == srcs[..|srcs| - 1] + [srcs[|srcs| - 1]];
    }
  }

  /** Every group rule with a target can be expanded: the groups can be read
      and the rule names its source group. */
  predicate Expandable(doc: SearchSpace)
    requires ValidDoc(doc)
  {
    forall i :: 0 <= i < |doc.ruleSetGroup| && |doc.ruleSetGroup[i].rule| > 0 ==>
      Groups(doc).Ok? && doc.ruleSetGroup[i].group.Some?
  }

  /** Some group rule with a target has `s` among its source group's layers. */
  ghost predicate GroupSource(groups: map<string, seq<string>>, rules: seq<GroupRule>, s: string)
  {
    exists i :: 0 <= i < |rules| && |rules[i].rule| > 0 && rules[i].group.Some? &&
      s in GroupLayers(groups, rules[i].group.value)
  }

  /** Some group rule has `s` among its source group's layers and `t` among
      the layers of one of its target groups. */
  ghost predicate GroupTarget(groups: map<string, seq<string>>, rules: seq<GroupRule>, s: string, t: string)
  {
    exists i, k :: 0 <= i < |rules| && 0 <= k < |rules[i].rule| && rules[i].group.Some? &&
      s in GroupLayers(groups, rules[i].group.value) && t in GroupLayers(groups, rules[i].rule[k])
  }

  lemma {:induction false} ExpandTargetsSpec(doc: SearchSpace, r: GroupRule, ts: seq<string>, g: Graph, s: string, t: string)
    requires ValidDoc(doc) && Groups(doc).Ok? && (|ts| > 0 ==> r.group.Some?)
    ensures ExpandTargets(doc, r, ts, g).Ok?
    ensures var groups := Groups(doc).value;
      var srcs := if r.group.Some? then GroupLayers(groups, r.group.value) else [];
      var x := ExpandTargets(doc, r, ts, g).value;
      && (s in x <==> s in g || (|ts| > 0 && s in srcs))
      && (s in x ==> (t in x[s] <==>
            (s in g && t in g[s]) ||
            (s in srcs && exists k :: 0 <= k < |ts| && t in GroupLayers(groups, ts[k]))))
    decreases |ts|
  {
    if |ts| > 0 {
      var init := ts[..|ts| - 1];
      ExpandTargetsSpec(doc, r, init, g, s, t);
      var groups := Groups(doc).value;
      var srcs := GroupLayers(groups, r.group.value);
      var prev := ExpandTargets(doc, r, init, g).value;
      AddTargetsSpec(prev, srcs, GroupLayers(groups, ts[|ts| - 1]), s, t);
      if s in srcs && (exists k :: 0 <= k < |ts| && t in GroupLayers(groups, ts[k])) {
        var k :| 0 <= k < |ts| && t in GroupLayers(groups, ts[k]);
        if k < |init| { assert init[k] == ts[k]; }
      }
      if s in srcs && (exists k :: 0 <= k < |init| && t in GroupLayers(groups, init[k])) {
        var k :| 0 <= k < |init| && t in GroupLayers(groups, init[k]);
        assert ts[k] == init[k];
      }
    }
  }

  lemma GroupSourceSnoc(groups: map<string, seq<string>>, rules: seq<GroupRule>, s: string)
    requires |rules| > 0
    ensures var r := rules[|rules| - 1];
      GroupSource(groups, rules, s) <==>
        GroupSource(groups, rules[..|rules| - 1], s) ||
        (|r.rule| > 0 && r.group.Some? && s in GroupLayers(groups, r.group.value))
  {
    var init := rules[..|rules| - 1];
    if GroupSource(groups, rules, s) {
      var i :| 0 <= i < |rules| && |rules[i].rule| > 0 && rules[i].group.Some? &&
        s in GroupLayers(groups, rules[i].group.value);
      if i < |init| { assert init[i] == rules[i]; }
    }
    if GroupSource(groups, init, s) {
      var i :| 0 <= i < |init| && |init[i].rule| > 0 && init[i].group.Some? &&
        s in GroupLayers(groups, init[i].group.value);
      assert rules[i] == init[i];
    }
  }

  lemma GroupTargetSnoc(groups: map<string, seq<string>>, rules: seq<GroupRule>, s: string, t: string)
    requires |rules| > 0
    ensures var r := rules[|rules| - 1];
      GroupTarget(groups, rules, s, t) <==>
        GroupTarget(groups, rules[..|rules| - 1], s, t) ||
        (r.group.Some? && s in GroupLayers(groups, r.group.value) &&
         exists k :: 0 <= k < |r.rule| && t in GroupLayers(groups, r.rule[k]))
  {
    var init := rules[..|rules| - 1];
    var r := rules[|rules| - 1];
    if GroupTarget(groups, rules, s, t) {
      var i, k :| 0 <= i < |rules| && 0 <= k < |rules[i].rule| && rules[i].group.Some? &&
        s in GroupLayers(groups, rules[i].group.value) && t in GroupLayers(groups, rules[i].rule[k]);
      if i < |init| { assert init[i] == rules[i]; }
    }
    if GroupTarget(groups, init, s, t) {
      var i, k :| 0 <= i < |init| && 0 <= k < |init[i].rule| && init[i].group.Some? &&
        s in GroupLayers(groups, init[i].group.value) && t in GroupLayers(groups, init[i].rule[k]);
      assert rules[i] == init[i];
    }
  }

  /** Every rule with a target expandable: the group rules change nothing
      when none has a target. */
  lemma {:induction false} ExpandRulesOk(doc: SearchSpace, rules: seq<GroupRule>, g: Graph)
    requires ValidDoc(doc)
    requires forall i :: 0 <= i < |rules| && |rules[i].rule| > 0 ==> Groups(doc).Ok? && rules[i].group.Some?
    ensures ExpandRules(doc, rules, g).Ok?
    ensures Groups(doc).Err? ==> ExpandRules(doc, rules, g) == Ok(g)
    decreases |rules|
  {
    if |rules| > 0 {
      var init := rules[..|rules| - 1];
      var r := rules[|rules| - 1];
      forall i | 0 <= i < |init| && |init[i].rule| > 0 ensures Groups(doc).Ok? && init[i].group.Some? {
        assert init[i] == rules[i];
      }
      ExpandRulesOk(doc, init, g);
      if Groups(doc).Ok? {
        ExpandTargetsSpec(doc, r, r.rule, ExpandRules(doc, init, g).value, "", "");
      } else {
        assert |r.rule| == 0;
      }
    }
  }

  lemma {:induction false} ExpandRulesSpec(doc: SearchSpace, rules: seq<GroupRule>, g: Graph, s: string, t: string)
    requires ValidDoc(doc) && Groups(doc).Ok?
    requires forall i :: 0 <= i < |rules| && |rules[i].rule| > 0 ==> rules[i].group.Some?
    ensures ExpandRules(doc, rules, g).Ok?
    ensures var groups := Groups(doc).value;
      var x := ExpandRules(doc, rules, g).value;
      && (s in x <==> s in g || GroupSource(groups, rules, s))
      && (s in x ==> (t in x[s] <==> (s in g && t in g[s]) || GroupTarget(groups, rules, s, t)))
    decreases |rules|
  {
    if |rules| > 0 {
      var init := rules[..|rules| - 1];
      var r := rules[|rules| - 1];
      forall i | 0 <= i < |init| && |init[i].rule| > 0 ensures init[i].group.Some? {
        assert init[i] == rules[i];
      }
      ExpandRulesSpec(doc, init, g, s, t);
      ExpandTargetsSpec(doc, r, r.rule, ExpandRules(doc, init, g).value, s, t);
      GroupSourceSnoc(Groups(doc).value, rules, s);
      GroupTargetSnoc(Groups(doc).value, rules, s, t);
    }
  }

  /** With group connections, a layer is a key exactly when it has a rule-set
      entry or sits in the source group of a group rule with a target, and
      its targets are its own rule list together with the layers of every
      target group of every group rule whose source group holds it: excluded
      group rules count too and unknown groups contribute nothing. */
  lemma LayerGraphExpanded(doc: SearchSpace, s: string, t: string)
    requires ValidDoc(doc) && Expandable(doc)
    ensures LayerGraph(doc, true).Ok?
    ensures Groups(doc).Ok? ==>
      var groups := Groups(doc).value;
      var x := LayerGraph(doc, true).value;
      && (s in x <==> HasKey(doc.ruleSet, s) || GroupSource(groups, doc.ruleSetGroup, s))
      && (s in x ==> (t in x[s] <==>
            (s in MapOf(doc.ruleSet) && t in MapOf(doc.ruleSet)[s]) || GroupTarget(groups, doc.ruleSetGroup, s, t)))
  {
    MapOfKeys(doc.ruleSet, s);
    ExpandRulesOk(doc, doc.ruleSetGroup, MapOf(doc.ruleSet));
    if Groups(doc).Ok? {
      ExpandRulesSpec(doc, doc.ruleSetGroup, MapOf(doc.ruleSet), s, t);
    }
  }

  /** The expansion fails exactly when some group rule with a target cannot
      be expanded: with the groups' error when they cannot be read, and
      otherwise a TypeError for a rule without `group`. */
  lemma LayerGraphError(doc: SearchSpace)
    requires ValidDoc(doc)
    ensures LayerGraph(doc, true).Err? <==> !Expandable(doc)
    ensures !Expandable(doc) ==>
      LayerGraph(doc, true) == if Groups(doc).Err? then Err(Groups(doc).error) else Err(TypeError)
  {
    var rules := doc.ruleSetGroup;
    var base := MapOf(doc.ruleSet);
    if Expandable(doc) {
      ExpandRulesOk(doc, rules, base);
    } else {
      var i :| 0 <= i < |rules| && |rules[i].rule| > 0 && !(Groups(doc).Ok? && rules[i].group.Some?);
      var j := FirstStuck(doc, rules, i);
      var init := rules[..j];
      forall a | 0 <= a < |init| && |init[a].rule| > 0 ensures Groups(doc).Ok? && init[a].group.Some? {
        assert init[a] == rules[a];
      }
      ExpandRulesOk(doc, init, base);
      var r := rules[j];
      assert rules[..j + 1][..j] == init;
      assert rules[..j + 1][j] == r;
      var prev := ExpandRules(doc, init, base).value;
      assert r.rule[..1][..0] == [];
      assert ExpandTargets(doc, r, r.rule[..1], prev).Err?;
      ExpandTargetsPrefixErr(doc, r, r.rule, prev, 1);
      ExpandRulesPrefixErr(doc, rules, base, j + 1);
    }
  }

  /** The first group rule with a target that cannot be expanded. */
  lemma {:induction false} FirstStuck(doc: SearchSpace, rules: seq<GroupRule>, i: nat) returns (j: nat)
    requires ValidDoc(doc)
    requires i < |rules| && |rules[i].rule| > 0 && !(Groups(doc).Ok? && rules[i].group.Some?)
    ensures j <= i && |rules[j].rule| > 0 && !(Groups(doc).Ok? && rules[j].group.Some?)
    ensures forall a :: 0 <= a < j && |rules[a].rule| > 0 ==> Groups(doc).Ok? && rules[a].group.Some?
    decreases i
  {
    if exists a :: 0 <= a < i && |rules[a].rule| > 0 && !(Groups(doc).Ok? && rules[a].group.Some?) {
      var a :| 0 <= a < i && |rules[a].rule| > 0 && !(Groups(doc).Ok? && rules[a].group.Some?);
      j := FirstStuck(doc, rules, a);
    } else {
      j := i;
    }
  }

  // --------------------------------------------------------- group graph

  /** `_get_group_graph`: the non-excluded group rules into an
      insertion-ordered dict, a later rule for a group replacing the
      earlier's targets; a non-excluded rule without `group` is a KeyError. */
  function GroupGraph(rules: seq<GroupRule>): Result<seq<(string, seq<string>)>>
    decreases |rules|
  {
    if |rules| == 0 then Ok([])
    else
      var prev :- GroupGraph(rules[..|rules| - 1]);
      var r := rules[|rules| - 1];
      if Truthy(r.exclude) then Ok(prev)
      else if r.group.None? then Err(KeyError("group"))
      else Ok(Assign(prev, r.group.value, r.rule))
  }

  method GetGroupGraph(rules: seq<GroupRule>) returns (r: Result<seq<(string, seq<string>)>>)
    ensures r == GroupGraph(rules)
  {
    var groupGraph: seq<(string, seq<string>)> := [];
    for i := 0 to |rules|
      invariant GroupGraph(rules[..i]) == Ok(groupGraph)
    {
      assert rules[..i + 1][..i] == rules[..i];
      var groupRule := rules[i];
      if !Truthy(groupRule.exclude) {
        if groupRule.group.None? {
          GroupGraphPrefixErr(rules, i + 1);
          return Err(KeyError("group"));
        }
        groupGraph := Assign(groupGraph, groupRule.group.value, groupRule.rule);
      }
    }
    assert rules[..|rules|] == rules;
    return Ok(groupGraph);
  }

  lemma {:induction false} GroupGraphPrefixErr(rules: seq<GroupRule>, k: nat)
    requires k <= |rules| && GroupGraph(rules[..k]).Err?
    ensures GroupGraph(rules) == GroupGraph(rules[..k])
    decreases |rules|
  {
    if k < |rules| {
      assert rules[..|rules| - 1][..k] == rules[..k];
      GroupGraphPrefixErr(rules[..|rules| - 1], k);
    } else {
      assert rules[..k] == rules;
    }
  }

  /** The group graph exists exactly when every non-excluded rule names its
      group; otherwise it is a KeyError for `group`. */
  lemma {:induction false} GroupGraphOk(rules: seq<GroupRule>)
    ensures GroupGraph(rules).Ok? <==> forall i :: 0 <= i < |rules| && !Truthy(rules[i].exclude) ==> rules[i].group.Some?
    ensures GroupGraph(rules).Err? ==> GroupGraph(rules) == Err(KeyError("group"))
    decreases |rules|
  {
    if |rules| > 0 {
      var init := rules[..|rules| - 1];
      GroupGraphOk(init);
      forall i | 0 <= i < |init| ensures init[i] == rules[i] { }
    }
  }

  /** Its keys are distinct and are the groups of the non-excluded rules. */
  lemma {:induction false} GroupGraphKeys(rules: seq<GroupRule>, k: string)
    requires GroupGraph(rules).Ok?
    ensures NoDuplicates(Keys(GroupGraph(rules).value))
    ensures HasKey(GroupGraph(rules).value, k) <==>
      exists i :: 0 <= i < |rules| && !Truthy(rules[i].exclude) && rules[i].group == Some(k)
    decreases |rules|
  {
    if |rules| > 0 {
      var init := rules[..|rules| - 1];
      var r := rules[|rules| - 1];
      GroupGraphKeys(init, k);
      var d := GroupGraph(init).value;
      if !Truthy(r.exclude) {
        AssignUnique(d, r.group.value, r.rule);
        AssignHasKey(d, r.group.value, r.rule, k);
      }
      if exists i :: 0 <= i < |rules| && !Truthy(rules[i].exclude) && rules[i].group == Some(k) {
        var i :| 0 <= i < |rules| && !Truthy(rules[i].exclude) && rules[i].group == Some(k);
        if i < |init| { assert init[i] == rules[i]; }
      }
      if exists i :: 0 <= i < |init| && !Truthy(init[i].exclude) && init[i].group == Some(k) {
        var i :| 0 <= i < |init| && !Truthy(init[i].exclude) && init[i].group == Some(k);
        assert rules[i] == init[i];
      }
    }
  }

  /** A group holds the targets of the last non-excluded rule naming it. */
  lemma {:induction false} GroupGraphLastWins(rules: seq<GroupRule>, i: nat)
    requires GroupGraph(rules).Ok? && i < |rules| && !Truthy(rules[i].exclude) && rules[i].group.Some?
    requires forall j :: i < j < |rules| && !Truthy(rules[j].exclude) ==> rules[j].group != rules[i].group
    ensures Lookup(GroupGraph(rules).value, rules[i].group.value) == Some(rules[i].rule)
    decreases |rules|
  {
    var init := rules[..|rules| - 1];
    var r := rules[|rules| - 1];
    if i < |init| {
      assert init[i] == rules[i];
      forall j | i < j < |init| && !Truthy(init[j].exclude) ensures init[j].group != init[i].group {
        assert init[j] == rules[j];
      }
      GroupGraphLastWins(init, i);
      if !Truthy(r.exclude) {
        AssignLookup(GroupGraph(init).value, r.group.value, r.rule);
      }
    } else {
      AssignLookup(GroupGraph(init).value, r.group.value, r.rule);
    }
  }

  // ---------------------------------------------------- connected layers

  /** `_get_connected_layers`: the search from `start` over the expanded
      graph; a start layer that is not a key is a ValueError. */
  function ConnectedLayers(doc: SearchSpace, start: string): Result<seq<string>>
    requires ValidDoc(doc)
  {
    var graph :- LayerGraph(doc, true);
    if start !in graph then Err(ValueError) else Ok(Connected(graph, start))
  }

  method GetConnectedLayers(doc: SearchSpace, start: string) returns (r: Result<seq<string>>)
    requires ValidDoc(doc)
    ensures r == ConnectedLayers(doc, start)
  {
    var graph := GetLayerGraph(doc, true);
    if graph.Err? {
      return Err(graph.error);
    }
    if start !in graph.value {
      return Err(ValueError);
    }
    var visited, result := Dfs(graph.value, start, {}, []);
    return Ok(result);
  }

  /** The connected layers are the layers reachable from the start in the
      expanded graph, the start first and none twice; an absent start is a
      ValueError. */
  lemma ConnectedLayersSpec(doc: SearchSpace, start: string)
    requires ValidDoc(doc)
    ensures LayerGraph(doc, true).Ok? && start !in LayerGraph(doc, true).value ==>
      ConnectedLayers(doc, start) == Err(ValueError)
    ensures ConnectedLayers(doc, start).Ok? ==>
      var c := ConnectedLayers(doc, start).value;
      && |c| > 0 && c[0] == start && NoDuplicates(c)
      && forall y :: y in c <==> Reachable(LayerGraph(doc, true).value, start, y)
  {
    if LayerGraph(doc, true).Ok? {
      ConnectedSpec(LayerGraph(doc, true).value, start);
    }
  }

  // ---------------------------------------------------------- the view

  /** `get_genepool`: the elements and the group names. */
  function Genepool(doc: SearchSpace): Result<(seq<CyElement>, seq<Json>)>
    requires ValidDoc(doc)
  {
    var connected :- ConnectedLayers(doc, "Start");
    var genes :- GenesFlattened(doc);
    var st := CollectNodes(genes, connected, false);
    var groupGraph :- GroupGraph(doc.ruleSetGroup);
    Ok((Assemble(st, doc.ruleSet, connected, groupGraph), st.groups))
  }

  method GetGenepool(doc: SearchSpace) returns (r: Result<(seq<CyElement>, seq<Json>)>)
    requires ValidDoc(doc)
    ensures r == Genepool(doc)
  {
    var connectedLayers := GetConnectedLayers(doc, "Start");
    if connectedLayers.Err? {
      return Err(connectedLayers.error);
    }
    var genes := GetGenesFlattened(doc);
    if genes.Err? {
      return Err(genes.error);
    }
    var elements, groupElements, groups := NodeElements(genes.value, connectedLayers.value, false);
    elements := groupElements + elements;
    var layerGraph := GetLayerGraph(doc, false);
    LayerGraphPlain(doc, 0, "");
    elements := AddLayerEdges(elements, doc.ruleSet, connectedLayers.value);
    var groupGraph := GetGroupGraph(doc.ruleSetGroup);
    if groupGraph.Err? {
      return Err(groupGraph.error);
    }
    elements := AddGroupEdges(elements, groupGraph.value, groups);
    return Ok((elements, groups));
  }

  /** The view begins with one group node per qualifying gene with a group
      (repetitions kept), then the start node; every qualifying gene's node
      is present and no layer node twice. */
  lemma GenepoolNodes(doc: SearchSpace, gene: Gene)
    requires ValidDoc(doc) && Genepool(doc).Ok?
    ensures var (els, groups) := Genepool(doc).value;
      var connected := ConnectedLayers(doc, "Start").value;
      var genes := GenesFlattened(doc).value;
      && groups == QualifyingGroups(genes, connected, false)
      && |groups| < |els| && els[|groups|] == StartElement
      && (forall i :: 0 <= i < |groups| ==> els[i] == GroupElement(groups[i]))
      && NoDuplicates(CollectNodes(genes, connected, false).elements)
      && (gene in genes && Qualifies(gene, connected, false) ==> LayerElement(gene) in els)
  {
    var connected := ConnectedLayers(doc, "Start").value;
    var genes := GenesFlattened(doc).value;
    var st := CollectNodes(genes, connected, false);
    var gg := GroupGraph(doc.ruleSetGroup).value;
    ViewNodes(genes, connected, false, doc.ruleSet, gg, gene);
  }

  /** After the nodes come edges, each new and none twice: rule edges from
      connected layers and group edges from groups among the group names. */
  lemma GenepoolEdges(doc: SearchSpace, e: CyElement)
    requires ValidDoc(doc) && Genepool(doc).Ok?
    ensures var (els, groups) := Genepool(doc).value;
      var connected := ConnectedLayers(doc, "Start").value;
      var st := CollectNodes(GenesFlattened(doc).value, connected, false);
      var n := |st.groupElements| + |st.elements|;
      && n <= |els| && els[..n] == st.groupElements + st.elements
      && NoDuplicates(els[n..])
      && (e in els[n..] ==>
            e !in els[..n] &&
            (e in LayerEdgeCandidates(doc.ruleSet, connected) ||
             e in GroupEdgeCandidates(GroupGraph(doc.ruleSetGroup).value, groups)))
  {
    var connected := ConnectedLayers(doc, "Start").value;
    ViewEdges(GenesFlattened(doc).value, connected, false, doc.ruleSet, GroupGraph(doc.ruleSetGroup).value, e);
  }
}
