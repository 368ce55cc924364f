/** The older search-space view: `gene_pool` is a flat list of genes, each
    naming its `layer` and `group`; `rule_set` lists layer rules with
    `allowed_after`; `rule_set_groups` lists group rules. Every lookup is a
    plain subscript, so a missing member is a KeyError naming it, there is
    no check that the start layer is in the graph, and a gene without
    `exclude` is excluded. */
module Legacy {

  import opened Wrappers
  import opened Py
  import opened Seqs
  import opened GraphSearch
  import opened Cytoscape
  import GenePool

  /** A `rule_set` entry. */
  datatype LayerRule = LayerRule(layer: Option<string>, allowedAfter: Option<seq<string>>, exclude: Option<Json>)

  /** A `rule_set_groups` entry. */
  datatype GroupRule = GroupRule(group: Option<string>, allowedAfter: Option<seq<string>>, exclude: Option<Json>)

  /** The document; `None` is a missing top-level member. */
  datatype LegacyDoc = LegacyDoc(
    genePool: Option<seq<Gene>>,
    ruleSet: Option<seq<LayerRule>>,
    ruleSetGroups: Option<seq<GroupRule>>)

  /** The `layer` and `group` members present in the genes are strings. */
  predicate StringGenes(genes: seq<Gene>)
  {
    forall i :: 0 <= i < |genes| ==>
      ("layer" in genes[i] ==> genes[i]["layer"].Str?) && ("group" in genes[i] ==> genes[i]["group"].Str?)
  }

  predicate ValidDoc(doc: LegacyDoc)
  {
    doc.genePool.Some? ==> StringGenes(doc.genePool.value)
  }

  /** `exclude` read as `rule["exclude"] if "exclude" in rule else False`. */
  predicate Excluded(exclude: Option<Json>)
  {
    exclude.Some? && Truthy(exclude.value)
  }

  // -------------------------------------------------------------- groups

  /** The loop of `get_groups` over a gene list. */
  function GroupsOf(genes: seq<Gene>): Result<map<string, seq<string>>>
    requires StringGenes(genes)
    decreases |genes|
  {
    if |genes| == 0 then Ok(map[])
    else
      var prev :- GroupsOf(genes[..|genes| - 1]);
      var gene := genes[|genes| - 1];
      if "layer" !in gene then Err(KeyError("layer"))
      else if "group" !in gene then Err(KeyError("group"))
      else
        var g := gene["group"].s;
        Ok(prev[g := GenePool.GroupLayers(prev, g) + [gene["layer"].s]])
  }

  /** `get_groups`: group -> its genes' layers in list order. */
  function Groups(doc: LegacyDoc): Result<map<string, seq<string>>>
    requires ValidDoc(doc)
  {
    if doc.genePool.None? then Err(KeyError("gene_pool")) else GroupsOf(doc.genePool.value)
  }

  method GetGroups(doc: LegacyDoc) returns (r: Result<map<string, seq<string>>>)
    requires ValidDoc(doc)
    ensures r == Groups(doc)
  {
    if doc.genePool.None? {
      return Err(KeyError("gene_pool"));
    }
    var genes := doc.genePool.value;
    var layerDict: map<string, seq<string>> := map[];
    for i := 0 to |genes|
      invariant GroupsOf(genes[..i]) == Ok(layerDict)
    {
      assert genes[..i + 1][..i] == genes[..i];
      var layerInfo := genes[i];
      if "layer" !in layerInfo || "group" !in layerInfo {
        GroupsOfPrefixErr(genes, i + 1);
        return if "layer" !in layerInfo then Err(KeyError("layer")) else Err(KeyError("group"));
      }
      var layerId := layerInfo["layer"].s;
      var groupType := layerInfo["group"].s;
      ghost var prev := layerDict;
      if groupType !in layerDict {
        layerDict := layerDict[groupType := []];
      }
      layerDict := layerDict[groupType := layerDict[groupType] + [layerId]];
      assert layerDict == prev[groupType := GenePool.GroupLayers(prev, groupType) + [layerId]];
    }
    assert genes[..|genes|] == genes;
    return Ok(layerDict);
  }

  lemma {:induction false} GroupsOfPrefixErr(genes: seq<Gene>, k: nat)
    requires StringGenes(genes) && k <= |genes| && GroupsOf(genes[..k]).Err?
    ensures GroupsOf(genes) == GroupsOf(genes[..k])
    decreases |genes|
  {
    if k < |genes| {
      assert genes[..|genes| - 1][..k] == genes[..k];
      GroupsOfPrefixErr(genes[..|genes| - 1], k);
    } else {
      assert genes[..k] == genes;
    }
  }

  /** The layers of the genes in group `g`, in list order. */
  function Members(genes: seq<Gene>, g: string): seq<string>
    requires StringGenes(genes)
    requires forall i :: 0 <= i < |genes| ==> "layer" in genes[i] && "group" in genes[i]
    decreases |genes|
  {
    if |genes| == 0 then []
    else
      var gene := genes[|genes| - 1];
      Members(genes[..|genes| - 1], g) + (if gene["group"].s == g then [gene["layer"].s] else [])
  }

  /** The groups exist exactly when every gene names its layer and group;
      their keys are then the groups named, each listing its members'
      layers in order. */
  lemma GroupsOfSpec(genes: seq<Gene>, g: string)
    requires StringGenes(genes)
    ensures GroupsOf(genes).Ok? <==> forall i :: 0 <= i < |genes| ==> "layer" in genes[i] && "group" in genes[i]
    ensures GroupsOf(genes).Ok? ==>
      && (g in GroupsOf(genes).value <==> exists i :: 0 <= i < |genes| && genes[i]["group"] == Str(g))
      && GenePool.GroupLayers(GroupsOf(genes).value, g) == Members(genes, g)
  {
    GroupsOfOk(genes);
    if GroupsOf(genes).Ok? {
      GroupsOfMembers(genes, g);
    }
  }

  lemma {:induction false} GroupsOfOk(genes: seq<Gene>)
    requires StringGenes(genes)
    ensures GroupsOf(genes).Ok? <==> forall i :: 0 <= i < |genes| ==> "layer" in genes[i] && "group" in genes[i]
    decreases |genes|
  {
    if |genes| > 0 {
      var init := genes[..|genes| - 1];
      forall i | 0 <= i < |init| ensures init[i] == genes[i] { }
      GroupsOfOk(init);
    }
  }

  lemma {:induction false} GroupsOfMembers(genes: seq<Gene>, g: string)
    requires StringGenes(genes)
    requires forall i :: 0 <= i < |genes| ==> "layer" in genes[i] && "group" in genes[i]
    ensures GroupsOf(genes).Ok?
    ensures g in GroupsOf(genes).value <==> exists i :: 0 <= i < |genes| && genes[i]["group"] == Str(g)
    ensures GenePool.GroupLayers(GroupsOf(genes).value, g) == Members(genes, g)
    decreases |genes|
  {
    if |genes| > 0 {
      var init := genes[..|genes| - 1];
      var gene := genes[|genes| - 1];
      forall i | 0 <= i < |init| ensures init[i] == genes[i] { }
      GroupsOfMembers(init, g);
      if exists i :: 0 <= i < |genes| && genes[i]["group"] == Str(g) {
        var i :| 0 <= i < |genes| && genes[i]["group"] == Str(g);
        if i < |init| { assert init[i]["group"] == Str(g); }
      }
    }
  }

  // --------------------------------------------------------- layer graph

  /** The `rule_set` loop: non-excluded rules into an insertion-ordered
      dict, a later rule for a layer replacing the earlier's list. */
  function RuleGraph(rules: seq<LayerRule>): Result<seq<(string, seq<string>)>>
    decreases |rules|
  {
    if |rules| == 0 then Ok([])
    else
      var prev :- RuleGraph(rules[..|rules| - 1]);
      var r := rules[|rules| - 1];
      if Excluded(r.exclude) then Ok(prev)
      else if r.layer.None? then Err(KeyError("layer"))
      else if r.allowedAfter.None? then Err(KeyError("allowed_after"))
      else Ok(Assign(prev, r.layer.value, r.allowedAfter.value))
  }

  lemma {:induction false} RuleGraphPrefixErr(rules: seq<LayerRule>, k: nat)
    requires k <= |rules| && RuleGraph(rules[..k]).Err?
    ensures RuleGraph(rules) == RuleGraph(rules[..k])
    decreases |rules|
  {
    if k < |rules| {
      assert rules[..|rules| - 1][..k] == rules[..k];
      RuleGraphPrefixErr(rules[..|rules| - 1], k);
    } else {
      assert rules[..k] == rules;
    }
  }

  /** The rule graph exists exactly when every non-excluded rule names its
      layer and its `allowed_after`; its keys are then distinct and are the
      layers of the non-excluded rules. */
  lemma RuleGraphSpec(rules: seq<LayerRule>, k: string)
    ensures RuleGraph(rules).Ok? <==>
      forall i :: 0 <= i < |rules| && !Excluded(rules[i].exclude) ==> rules[i].layer.Some? && rules[i].allowedAfter.Some?
    ensures RuleGraph(rules).Ok? ==>
      && NoDuplicates(Keys(RuleGraph(rules).value))
      && (HasKey(RuleGraph(rules).value, k) <==>
            exists i :: 0 <= i < |rules| && !Excluded(rules[i].exclude) && rules[i].layer == Some(k))
  {
    RuleGraphOk(rules);
    if RuleGraph(rules).Ok? {
      RuleGraphKeys(rules, k);
    }
  }

  lemma {:induction false} RuleGraphOk(rules: seq<LayerRule>)
    ensures RuleGraph(rules).Ok? <==>
      forall i :: 0 <= i < |rules| && !Excluded(rules[i].exclude) ==> rules[i].layer.Some? && rules[i].allowedAfter.Some?
    decreases |rules|
  {
    if |rules| > 0 {
      var init := rules[..|rules| - 1];
      RuleGraphOk(init);
      forall i | 0 <= i < |init| ensures init[i] == rules[i] { }
    }
  }

  lemma {:induction false} RuleGraphKeys(rules: seq<LayerRule>, k: string)
    requires RuleGraph(rules).Ok?
    ensures NoDuplicates(Keys(RuleGraph(rules).value))
    ensures HasKey(RuleGraph(rules).value, k) <==>
      exists i :: 0 <= i < |rules| && !Excluded(rules[i].exclude) && rules[i].layer == Some(k)
    decreases |rules|
  {
    if |rules| > 0 {
      var init := rules[..|rules| - 1];
      var r := rules[|rules| - 1];
      RuleGraphKeys(init, k);
      var d := RuleGraph(init).value;
      if !Excluded(r.exclude) {
        AssignUnique(d, r.layer.value, r.allowedAfter.value);
        AssignHasKey(d, r.layer.value, r.allowedAfter.value, k);
      }
      if exists i :: 0 <= i < |rules| && !Excluded(rules[i].exclude) && rules[i].layer == Some(k) {
        var i :| 0 <= i < |rules| && !Excluded(rules[i].exclude) && rules[i].layer == Some(k);
        if i < |init| { assert init[i] == rules[i]; }
      }
      if exists i :: 0 <= i < |init| && !Excluded(init[i].exclude) && init[i].layer == Some(k) {
        var i :| 0 <= i < |init| && !Excluded(init[i].exclude) && init[i].layer == Some(k);
        assert init[i] == rules[i];
      }
    }
  }

  /** A layer holds the list of the last non-excluded rule naming it. */
  lemma {:induction false} RuleGraphLastWins(rules: seq<LayerRule>, i: nat)
    requires RuleGraph(rules).Ok? && i < |rules| && !Excluded(rules[i].exclude)
    requires forall j :: i < j < |rules| && !Excluded(rules[j].exclude) ==> rules[j].layer != rules[i].layer
    ensures rules[i].layer.Some? && rules[i].allowedAfter.Some?
    ensures Lookup(RuleGraph(rules).value, rules[i].layer.value) == Some(rules[i].allowedAfter.value)
    decreases |rules|
  {
    var init := rules[..|rules| - 1];
    var r := rules[|rules| - 1];
    if i < |init| {
      assert init[i] == rules[i];
      forall j | i < j < |init| && !Excluded(init[j].exclude) ensures init[j].layer != init[i].layer {
        assert init[j] == rules[j];
      }
      RuleGraphLastWins(init, i);
      if !Excluded(r.exclude) {
        AssignLookup(RuleGraph(init).value, r.layer.value, r.allowedAfter.value);
      }
    } else {
      AssignLookup(RuleGraph(init).value, r.layer.value, r.allowedAfter.value);
    }
  }

  /** One group rule: every target group needs the rule's `group`, the
      groups, and both groups among them. */
  function ExpandTargets(doc: LegacyDoc, r: GroupRule, ts: seq<string>, g: Graph): Result<Graph>
    requires ValidDoc(doc)
    decreases |ts|
  {
    if |ts| == 0 then Ok(g)
    else
      var prev :- ExpandTargets(doc, r, ts[..|ts| - 1], g);
      var target := ts[|ts| - 1];
      if r.group.None? then Err(KeyError("group"))
      else
        var groups :- Groups(doc);
        if r.group.value !in groups then Err(KeyError(r.group.value))
        else if target !in groups then Err(KeyError(target))
        else Ok(GenePool.AddTargets(prev, groups[r.group.value], groups[target]))
  }

  /** The `rule_set_groups` loop; a rule without `allowed_after` is a
      KeyError even when it would have no targets. */
  function ExpandRules(doc: LegacyDoc, rules: seq<GroupRule>, g: Graph): Result<Graph>
    requires ValidDoc(doc)
    decreases |rules|
  {
    if |rules| == 0 then Ok(g)
    else
      var prev :- ExpandRules(doc, rules[..|rules| - 1], g);
      var r := rules[|rules| - 1];
      if r.allowedAfter.None? then Err(KeyError("allowed_after"))
      else ExpandTargets(doc, r, r.allowedAfter.value, prev)
  }

  /** `get_layer_graph`: the rule graph as a dict, then, with group
      connections, expanded through every group rule, excluded or not. */
  function LayerGraph(doc: LegacyDoc, groupConnections: bool): Result<Graph>
    requires ValidDoc(doc)
  {
    if doc.ruleSet.None? then Err(KeyError("rule_set"))
    else
      var base :- RuleGraph(doc.ruleSet.value);
      if !groupConnections then Ok(MapOf(base))
      else if doc.ruleSetGroups.None? then Err(KeyError("rule_set_groups"))
      else ExpandRules(doc, doc.ruleSetGroups.value, MapOf(base))
  }

  lemma {:induction false} ExpandTargetsPrefixErr(doc: LegacyDoc, r: GroupRule, ts: seq<string>, g: Graph, k: nat)
    requires ValidDoc(doc) && k <= |ts| && ExpandTargets(doc, r, ts[..k], g).Err?
    ensures ExpandTargets(doc, r, ts, g) == ExpandTargets(doc, r, ts[..k], g)
    decreases |ts|
  {
    if k < |ts| {
      assert ts[..|ts| - 1][..k] == ts[..k];
      ExpandTargetsPrefixErr(doc, r, ts[..|ts| - 1], g, k);
    } else {
      assert ts[..k] == ts;
    }
  }

  lemma {:induction false} ExpandRulesPrefixErr(doc: LegacyDoc, rules: seq<GroupRule>, g: Graph, k: nat)
    requires ValidDoc(doc) && k <= |rules| && ExpandRules(doc, rules[..k], g).Err?
    ensures ExpandRules(doc, rules, g) == ExpandRules(doc, rules[..k], g)
    decreases |rules|
  {
    if k < |rules| {
      assert rules[..|rules| - 1][..k] == rules[..k];
      ExpandRulesPrefixErr(doc, rules[..|rules| - 1], g, k);
    } else {
      assert rules[..k] == rules;
    }
  }

  method GetRuleGraph(rules: seq<LayerRule>) returns (r: Result<seq<(string, seq<string>)>>)
    ensures r == RuleGraph(rules)
  {
    var graph: seq<(string, seq<string>)> := [];
    for i := 0 to |rules|
      invariant RuleGraph(rules[..i]) == Ok(graph)
    {
      assert rules[..i + 1][..i] == rules[..i];
      var layerRule := rules[i];
      if !Excluded(layerRule.exclude) {
        if layerRule.layer.None? || layerRule.allowedAfter.None? {
          RuleGraphPrefixErr(rules, i + 1);
          return if layerRule.layer.None? then Err(KeyError("layer")) else Err(KeyError("allowed_after"));
        }
        graph := Assign(graph, layerRule.layer.value, layerRule.allowedAfter.value);
      }
    }
    assert rules[..|rules|] == rules;
    return Ok(graph);
  }

  /** The target-group loop of one group rule in `get_layer_graph`: the
      groups are re-read for each target group. */
  method ExpandTargetsOf(doc: LegacyDoc, groupRule: GroupRule, targets: seq<string>, g: Graph) returns (r: Result<Graph>)
    requires ValidDoc(doc)
    ensures r == ExpandTargets(doc, groupRule, targets, g)
  {
    var graph := g;
    for k := 0 to |targets|
      invariant ExpandTargets(doc, groupRule, targets[..k], g) == Ok(graph)
    {
      assert targets[..k + 1][..k] == targets[..k];
      var targetGroup := targets[k];
      var failure: Option<Error> := None;
      if groupRule.group.None? {
        failure := Some(KeyError("group"));
      } else {
        var groups := GetGroups(doc);
        if groups.Err? {
          failure := Some(groups.error);
        } else if groupRule.group.value !in groups.value {
          failure := Some(KeyError(groupRule.group.value));
        } else if targetGroup !in groups.value {
          failure := Some(KeyError(targetGroup));
        } else {
          graph := GenePool.AddTargetsOf(graph, groups.value[groupRule.group.value], groups.value[targetGroup]);
        }
      }
      if failure.Some? {
        ExpandTargetsPrefixErr(doc, groupRule, targets, g, k + 1);
        return Err(failure.value);
      }
    }
    assert targets[..|targets|] == targets;
    return Ok(graph);
  }

  method GetLayerGraph(doc: LegacyDoc, groupConnections: bool) returns (r: Result<Graph>)
    requires ValidDoc(doc)
    ensures r == LayerGraph(doc, groupConnections)
  {
    if doc.ruleSet.None? {
      return Err(KeyError("rule_set"));
    }
    var ordered := GetRuleGraph(doc.ruleSet.value);
    if ordered.Err? {
      return Err(ordered.error);
    }
    var graph: Graph := map[];
    for i := 0 to |ordered.value|
      invariant graph == MapOf(ordered.value[..i])
    {
      assert ordered.value[..i + 1][..i] == ordered.value[..i];
      graph := graph[ordered.value[i].0 := ordered.value[i].1];
    }
    assert ordered.value[..|ordered.value|] == ordered.value;
    if !groupConnections {
      return Ok(graph);
    }
    if doc.ruleSetGroups.None? {
      return Err(KeyError("rule_set_groups"));
    }
    var rules := doc.ruleSetGroups.value;
    ghost var base := graph;
    for i := 0 to |rules|
      invariant ExpandRules(doc, rules[..i], base) == Ok(graph)
    {
      assert rules[..i + 1][..i] == rules[..i];
      var groupRule := rules[i];
      if groupRule.allowedAfter.None? {
        ExpandRulesPrefixErr(doc, rules, base, i + 1);
        return Err(KeyError("allowed_after"));
      }
      var expanded := ExpandTargetsOf(doc, groupRule, groupRule.allowedAfter.value, graph);
      if expanded.Err? {
        ExpandRulesPrefixErr(doc, rules, base, i + 1);
        return expanded;
      }
      graph := expanded.value;
    }
    assert rules[..|rules|] == rules;
    return Ok(graph);
  }

  /** Every group rule can be expanded: it has `allowed_after`, and when
      that is non-empty it names its group, the groups can be read, and its
      group and target groups are among them. */
  predicate Expandable(doc: LegacyDoc, rules: seq<GroupRule>)
    requires ValidDoc(doc)
  {
    forall i :: 0 <= i < |rules| ==> RuleExpandable(doc, rules[i])
  }

  predicate RuleExpandable(doc: LegacyDoc, r: GroupRule)
    requires ValidDoc(doc)
  {
    && r.allowedAfter.Some?
    && (|r.allowedAfter.value| > 0 ==>
          && r.group.Some? && Groups(doc).Ok? && r.group.value in Groups(doc).value
          && forall k :: 0 <= k < |r.allowedAfter.value| ==> r.allowedAfter.value[k] in Groups(doc).value)
  }

  /** Some expandable group rule has `s` in its group and `t` in one of its
      target groups. */
  ghost predicate GroupTarget(groups: map<string, seq<string>>, rules: seq<GroupRule>, s: string, t: string)
  {
    exists i, k :: 0 <= i < |rules| && rules[i].allowedAfter.Some? && rules[i].group.Some? &&
      0 <= k < |rules[i].allowedAfter.value| &&
      rules[i].group.value in groups && rules[i].allowedAfter.value[k] in groups &&
      s in groups[rules[i].group.value] && t in groups[rules[i].allowedAfter.value[k]]
  }

  /** Some group rule with a target has `s` in its group. */
  ghost predicate GroupSource(groups: map<string, seq<string>>, rules: seq<GroupRule>, s: string)
  {
    exists i :: 0 <= i < |rules| && rules[i].allowedAfter.Some? && |rules[i].allowedAfter.value| > 0 &&
      rules[i].group.Some? && rules[i].group.value in groups && s in groups[rules[i].group.value]
  }

  lemma {:induction false} ExpandTargetsSpec(doc: LegacyDoc, r: GroupRule, ts: seq<string>, g: Graph, s: string, t: string)
    requires ValidDoc(doc)
    requires |ts| > 0 ==> r.group.Some? && Groups(doc).Ok? && r.group.value in Groups(doc).value
    requires forall k :: 0 <= k < |ts| ==> ts[k] in Groups(doc).value
    ensures ExpandTargets(doc, r, ts, g).Ok?
    ensures var x := ExpandTargets(doc, r, ts, g).value;
      && (|ts| == 0 ==> x == g)
      && (|ts| > 0 ==>
            var groups := Groups(doc).value;
            var srcs := groups[r.group.value];
            && (s in x <==> s in g || s in srcs)
            && (s in x ==> (t in x[s] <==>
                  (s in g && t in g[s]) || (s in srcs && exists k :: 0 <= k < |ts| && t in groups[ts[k]]))))
    decreases |ts|
  {
    if |ts| > 0 {
      var init := ts[..|ts| - 1];
      forall k | 0 <= k < |init| ensures init[k] in Groups(doc).value { assert init[k] == ts[k]; }
      ExpandTargetsSpec(doc, r, init, g, s, t);
      var groups := Groups(doc).value;
      var srcs := groups[r.group.value];
      var prev := ExpandTargets(doc, r, init, g).value;
      GenePool.AddTargetsSpec(prev, srcs, groups[ts[|ts| - 1]], s, t);
      if s in srcs && (exists k :: 0 <= k < |ts| && t in groups[ts[k]]) {
        var k :| 0 <= k < |ts| && t in groups[ts[k]];
        if k < |init| { assert init[k] == ts[k]; }
      }
      if |init| > 0 && s in srcs && (exists k :: 0 <= k < |init| && t in groups[init[k]]) {
        var k :| 0 <= k < |init| && t in groups[init[k]];
        assert ts[k] == init[k];
      }
    }
  }

  lemma {:induction false} ExpandRulesOk(doc: LegacyDoc, rules: seq<GroupRule>, g: Graph)
    requires ValidDoc(doc) && Expandable(doc, rules)
    ensures ExpandRules(doc, rules, g).Ok?
    decreases |rules|
  {
    if |rules| > 0 {
      var init := rules[..|rules| - 1];
      var r := rules[|rules| - 1];
      assert Expandable(doc, init) by {
        forall i | 0 <= i < |init| ensures RuleExpandable(doc, init[i]) { assert init[i] == rules[i]; }
      }
      ExpandRulesOk(doc, init, g);
      assert RuleExpandable(doc, r);
      ExpandTargetsSpec(doc, r, r.allowedAfter.value, ExpandRules(doc, init, g).value, "", "");
    }
  }

  lemma GroupSourceSnoc(groups: map<string, seq<string>>, rules: seq<GroupRule>, s: string)
    requires |rules| > 0
    ensures var r := rules[|rules| - 1];
      GroupSource(groups, rules, s) <==>
        GroupSource(groups, rules[..|rules| - 1], s) ||
        (r.allowedAfter.Some? && |r.allowedAfter.value| > 0 && r.group.Some? &&
         r.group.value in groups && s in groups[r.group.value])
  {
    var init := rules[..|rules| - 1];
    if GroupSource(groups, rules, s) {
      var i :| 0 <= i < |rules| && rules[i].allowedAfter.Some? && |rules[i].allowedAfter.value| > 0 &&
        rules[i].group.Some? && rules[i].group.value in groups && s in groups[rules[i].group.value];
      if i < |init| { assert init[i] == rules[i]; }
    }
    if GroupSource(groups, init, s) {
      var i :| 0 <= i < |init| && init[i].allowedAfter.Some? && |init[i].allowedAfter.value| > 0 &&
        init[i].group.Some? && init[i].group.value in groups && s in groups[init[i].group.value];
      assert rules[i] == init[i];
    }
  }

  lemma GroupTargetSnoc(groups: map<string, seq<string>>, rules: seq<GroupRule>, s: string, t: string)
    requires |rules| > 0
    requires var r := rules[|rules| - 1];
      r.allowedAfter.Some? && (|r.allowedAfter.value| > 0 ==> r.group.Some? && r.group.value in groups) &&
      forall k :: 0 <= k < |r.allowedAfter.value| ==> r.allowedAfter.value[k] in groups
    ensures var r := rules[|rules| - 1];
      var ts := r.allowedAfter.value;
      GroupTarget(groups, rules, s, t) <==>
        GroupTarget(groups, rules[..|rules| - 1], s, t) ||
        (|ts| > 0 && s in groups[r.group.value] && exists k :: 0 <= k < |ts| && t in groups[ts[k]])
  {
    var init := rules[..|rules| - 1];
    if GroupTarget(groups, rules, s, t) {
      var i, k :| 0 <= i < |rules| && rules[i].allowedAfter.Some? && rules[i].group.Some? &&
        0 <= k < |rules[i].allowedAfter.value| &&
        rules[i].group.value in groups && rules[i].allowedAfter.value[k] in groups &&
        s in groups[rules[i].group.value] && t in groups[rules[i].allowedAfter.value[k]];
      if i < |init| { assert init[i] == rules[i]; }
    }
    if GroupTarget(groups, init, s, t) {
      var i, k :| 0 <= i < |init| && init[i].allowedAfter.Some? && init[i].group.Some? &&
        0 <= k < |init[i].allowedAfter.value| &&
        init[i].group.value in groups && init[i].allowedAfter.value[k] in groups &&
        s in groups[init[i].group.value] && t in groups[init[i].allowedAfter.value[k]];
      assert rules[i] == init[i];
    }
  }

  lemma {:induction false} ExpandRulesSpec(doc: LegacyDoc, rules: seq<GroupRule>, g: Graph, s: string, t: string)
    requires ValidDoc(doc) && Expandable(doc, rules) && Groups(doc).Ok?
    ensures ExpandRules(doc, rules, g).Ok?
    ensures var groups := Groups(doc).value;
      var x := ExpandRules(doc, rules, g).value;
      && (s in x <==> s in g || GroupSource(groups, rules, s))
      && (s in x ==> (t in x[s] <==> (s in g && t in g[s]) || GroupTarget(groups, rules, s, t)))
    decreases |rules|
  {
    ExpandRulesOk(doc, rules, g);
    if |rules| > 0 {
      var init := rules[..|rules| - 1];
      var r := rules[|rules| - 1];
      assert Expandable(doc, init) by {
        forall i | 0 <= i < |init| ensures RuleExpandable(doc, init[i]) { assert init[i] == rules[i]; }
      }
      assert RuleExpandable(doc, r);
      ExpandRulesSpec(doc, init, g, s, t);
      ExpandTargetsSpec(doc, r, r.allowedAfter.value, ExpandRules(doc, init, g).value, s, t);
      GroupSourceSnoc(Groups(doc).value, rules, s);
      GroupTargetSnoc(Groups(doc).value, rules, s, t);
    }
  }

  /** The first group rule that cannot be expanded. */
  lemma {:induction false} FirstStuck(doc: LegacyDoc, rules: seq<GroupRule>, i: nat) returns (j: nat)
    requires ValidDoc(doc) && i < |rules| && !RuleExpandable(doc, rules[i])
    ensures j <= i && !RuleExpandable(doc, rules[j])
    ensures forall a :: 0 <= a < j ==> RuleExpandable(doc, rules[a])
    decreases i
  {
    if exists a :: 0 <= a < i && !RuleExpandable(doc, rules[a]) {
      var a :| 0 <= a < i && !RuleExpandable(doc, rules[a]);
      j := FirstStuck(doc, rules, a);
    } else {
      j := i;
    }
  }

  /** A rule that cannot be expanded fails at its first target that cannot. */
  lemma {:induction false} ExpandTargetsStuck(doc: LegacyDoc, r: GroupRule, ts: seq<string>, g: Graph)
    requires ValidDoc(doc) && |ts| > 0
    requires !(r.group.Some? && Groups(doc).Ok? && r.group.value in Groups(doc).value &&
               forall k :: 0 <= k < |ts| ==> ts[k] in Groups(doc).value)
    ensures ExpandTargets(doc, r, ts, g).Err?
    decreases |ts|
  {
    var init := ts[..|ts| - 1];
    if |init| > 0 && !(r.group.Some? && Groups(doc).Ok? && r.group.value in Groups(doc).value &&
                       forall k :: 0 <= k < |init| ==> init[k] in Groups(doc).value) {
      ExpandTargetsStuck(doc, r, init, g);
    } else if |init| > 0 {
      forall k | 0 <= k < |init| ensures init[k] in Groups(doc).value { }
      ExpandTargetsSpec(doc, r, init, g, "", "");
      assert ts[|ts| - 1] !in Groups(doc).value by {
        forall k | 0 <= k < |init| ensures ts[k] in Groups(doc).value { assert ts[k] == init[k]; }
      }
    }
  }

  /** The expansion succeeds exactly when every group rule can be expanded. */
  lemma ExpandRulesError(doc: LegacyDoc, rules: seq<GroupRule>, g: Graph)
    requires ValidDoc(doc)
    ensures ExpandRules(doc, rules, g).Ok? <==> Expandable(doc, rules)
  {
    if Expandable(doc, rules) {
      ExpandRulesOk(doc, rules, g);
    } else {
      var i :| 0 <= i < |rules| && !RuleExpandable(doc, rules[i]);
      var j := FirstStuck(doc, rules, i);
      var init := rules[..j];
      assert Expandable(doc, init) by {
        forall a | 0 <= a < |init| ensures RuleExpandable(doc, init[a]) { assert init[a] == rules[a]; }
      }
      ExpandRulesOk(doc, init, g);
      var r := rules[j];
      assert rules[..j + 1][..j] == init;
      assert rules[..j + 1][j] == r;
      if r.allowedAfter.Some? {
        ExpandTargetsStuck(doc, r, r.allowedAfter.value, ExpandRules(doc, init, g).value);
      }
      assert ExpandRules(doc, rules[..j + 1], g).Err?;
      ExpandRulesPrefixErr(doc, rules, g, j + 1);
    }
  }

  /** The layer graph: without group connections each non-excluded rule's
      layer maps to its last rule's list; with them, it exists exactly when
      every group rule can be expanded, and then extends those lists by the
      layers of every target group of every group rule whose group holds
      the layer, excluded group rules included. */
  lemma LayerGraphSpec(doc: LegacyDoc, s: string, t: string)
    requires ValidDoc(doc) && doc.ruleSet.Some? && RuleGraph(doc.ruleSet.value).Ok?
    ensures var base := MapOf(RuleGraph(doc.ruleSet.value).value);
      && LayerGraph(doc, false) == Ok(base)
      && (s in base <==> exists i :: 0 <= i < |doc.ruleSet.value| && !Excluded(doc.ruleSet.value[i].exclude) &&
                                      doc.ruleSet.value[i].layer == Some(s))
      && (doc.ruleSetGroups.Some? ==>
            (LayerGraph(doc, true).Ok? <==> Expandable(doc, doc.ruleSetGroups.value)))
      && (doc.ruleSetGroups.Some? && LayerGraph(doc, true).Ok? && Groups(doc).Ok? ==>
            var groups := Groups(doc).value;
            var x := LayerGraph(doc, true).value;
            && (s in x <==> s in base || GroupSource(groups, doc.ruleSetGroups.value, s))
            && (s in x ==> (t in x[s] <==> (s in base && t in base[s]) || GroupTarget(groups, doc.ruleSetGroups.value, s, t))))
  {
    var base := MapOf(RuleGraph(doc.ruleSet.value).value);
    MapOfKeys(RuleGraph(doc.ruleSet.value).value, s);
    RuleGraphSpec(doc.ruleSet.value, s);
    if doc.ruleSetGroups.Some? {
      ExpandRulesError(doc, doc.ruleSetGroups.value, base);
      if LayerGraph(doc, true).Ok? && Groups(doc).Ok? {
        ExpandRulesSpec(doc, doc.ruleSetGroups.value, base, s, t);
      }
    }
  }

  // --------------------------------------------------------- group graph

  /** `get_group_graph`: the non-excluded group rules into an
      insertion-ordered dict, a later rule for a group replacing the
      earlier's targets. */
  function GroupGraphOf(rules: seq<GroupRule>): Result<seq<(string, seq<string>)>>
    decreases |rules|
  {
    if |rules| == 0 then Ok([])
    else
      var prev :- GroupGraphOf(rules[..|rules| - 1]);
      var r := rules[|rules| - 1];
      if Excluded(r.exclude) then Ok(prev)
      else if r.group.None? then Err(KeyError("group"))
      else if r.allowedAfter.None? then Err(KeyError("allowed_after"))
      else Ok(Assign(prev, r.group.value, r.allowedAfter.value))
  }

  function GroupGraph(doc: LegacyDoc): Result<seq<(string, seq<string>)>>
  {
    if doc.ruleSetGroups.None? then Err(KeyError("rule_set_groups")) else GroupGraphOf(doc.ruleSetGroups.value)
  }

  lemma {:induction false} GroupGraphPrefixErr(rules: seq<GroupRule>, k: nat)
    requires k <= |rules| && GroupGraphOf(rules[..k]).Err?
    ensures GroupGraphOf(rules) == GroupGraphOf(rules[..k])
    decreases |rules|
  {
    if k < |rules| {
      assert rules[..|rules| - 1][..k] == rules[..k];
      GroupGraphPrefixErr(rules[..|rules| - 1], k);
    } else {
      assert rules[..k] == rules;
    }
  }

  method GetGroupGraph(doc: LegacyDoc) returns (r: Result<seq<(string, seq<string>)>>)
    ensures r == GroupGraph(doc)
  {
    if doc.ruleSetGroups.None? {
      return Err(KeyError("rule_set_groups"));
    }
    var rules := doc.ruleSetGroups.value;
    var groupGraph: seq<(string, seq<string>)> := [];
    for i := 0 to |rules|
      invariant GroupGraphOf(rules[..i]) == Ok(groupGraph)
    {
      assert rules[..i + 1][..i] == rules[..i];
      var groupRule := rules[i];
      if !Excluded(groupRule.exclude) {
        if groupRule.group.None? || groupRule.allowedAfter.None? {
          GroupGraphPrefixErr(rules, i + 1);
          return if groupRule.group.None? then Err(KeyError("group")) else Err(KeyError("allowed_after"));
        }
        groupGraph := Assign(groupGraph, groupRule.group.value, groupRule.allowedAfter.value);
      }
    }
    assert rules[..|rules|] == rules;
    return Ok(groupGraph);
  }

  /** The group graph exists exactly when every non-excluded rule names its
      group and `allowed_after`; its keys are then distinct and are the
      groups of the non-excluded rules. */
  lemma GroupGraphSpec(rules: seq<GroupRule>, k: string)
    ensures GroupGraphOf(rules).Ok? <==>
      forall i :: 0 <= i < |rules| && !Excluded(rules[i].exclude) ==> rules[i].group.Some? && rules[i].allowedAfter.Some?
    ensures GroupGraphOf(rules).Ok? ==>
      && NoDuplicates(Keys(GroupGraphOf(rules).value))
      && (HasKey(GroupGraphOf(rules).value, k) <==>
            exists i :: 0 <= i < |rules| && !Excluded(rules[i].exclude) && rules[i].group == Some(k))
  {
    GroupGraphOk(rules);
    if GroupGraphOf(rules).Ok? {
      GroupGraphKeys(rules, k);
    }
  }

  lemma {:induction false} GroupGraphOk(rules: seq<GroupRule>)
    ensures GroupGraphOf(rules).Ok? <==>
      forall i :: 0 <= i < |rules| && !Excluded(rules[i].exclude) ==> rules[i].group.Some? && rules[i].allowedAfter.Some?
    decreases |rules|
  {
    if |rules| > 0 {
      var init := rules[..|rules| - 1];
      GroupGraphOk(init);
      forall i | 0 <= i < |init| ensures init[i] == rules[i] { }
    }
  }

  lemma {:induction false} GroupGraphKeys(rules: seq<GroupRule>, k: string)
    requires GroupGraphOf(rules).Ok?
    ensures NoDuplicates(Keys(GroupGraphOf(rules).value))
    ensures HasKey(GroupGraphOf(rules).value, k) <==>
      exists i :: 0 <= i < |rules| && !Excluded(rules[i].exclude) && rules[i].group == Some(k)
    decreases |rules|
  {
    if |rules| > 0 {
      var init := rules[..|rules| - 1];
      var r := rules[|rules| - 1];
      GroupGraphKeys(init, k);
      var d := GroupGraphOf(init).value;
      if !Excluded(r.exclude) {
        AssignUnique(d, r.group.value, r.allowedAfter.value);
        AssignHasKey(d, r.group.value, r.allowedAfter.value, k);
      }
      if exists i :: 0 <= i < |rules| && !Excluded(rules[i].exclude) && rules[i].group == Some(k) {
        var i :| 0 <= i < |rules| && !Excluded(rules[i].exclude) && rules[i].group == Some(k);
        if i < |init| { assert init[i] == rules[i]; }
      }
      if exists i :: 0 <= i < |init| && !Excluded(init[i].exclude) && init[i].group == Some(k) {
        var i :| 0 <= i < |init| && !Excluded(init[i].exclude) && init[i].group == Some(k);
        assert init[i] == rules[i];
      }
    }
  }

  // ---------------------------------------------------- connected layers

  /** `get_connected_layers`: the search from `start`, which need not be a
      key of the graph. */
  function ConnectedLayers(doc: LegacyDoc, start: string): Result<seq<string>>
    requires ValidDoc(doc)
  {
    var graph :- LayerGraph(doc, true);
    Ok(Connected(graph, start))
  }

  method GetConnectedLayers(doc: LegacyDoc, start: string) returns (r: Result<seq<string>>)
    requires ValidDoc(doc)
    ensures r == ConnectedLayers(doc, start)
  {
    var graph := GetLayerGraph(doc, true);
    if graph.Err? {
      return Err(graph.error);
    }
    var visited, result := Dfs(graph.value, start, {}, []);
    return Ok(result);
  }

  /** Whenever the graph exists the search succeeds, even from a layer with
      no entry, and yields the reachable layers, start first, none twice. */
  lemma ConnectedLayersSpec(doc: LegacyDoc, start: string)
    requires ValidDoc(doc)
    ensures ConnectedLayers(doc, start).Ok? <==> LayerGraph(doc, true).Ok?
    ensures ConnectedLayers(doc, start).Ok? ==>
      var c := ConnectedLayers(doc, start).value;
      && |c| > 0 && c[0] == start && NoDuplicates(c)
      && forall y :: y in c <==> Reachable(LayerGraph(doc, true).value, start, y)
  {
    if LayerGraph(doc, true).Ok? {
      ConnectedSpec(LayerGraph(doc, true).value, start);
    }
  }

  // ---------------------------------------------------------- the view

  /** `gene["layer"]` for every gene, which the node loop reads first. */
  predicate AllLayered(genes: seq<Gene>)
  {
    forall i :: 0 <= i < |genes| ==> "layer" in genes[i]
  }

  /** `get_cytoscape_elements`: the elements and the group names, with
      genes excluded unless they say otherwise. */
  function CytoscapeElements(doc: LegacyDoc): Result<(seq<CyElement>, seq<Json>)>
    requires ValidDoc(doc)
  {
    var connected :- ConnectedLayers(doc, "Start");
    if doc.genePool.None? then Err(KeyError("gene_pool"))
    else if !AllLayered(doc.genePool.value) then Err(KeyError("layer"))
    else
      var st := CollectNodes(doc.genePool.value, connected, true);
      var ruleGraph :- RuleGraph(doc.ruleSet.value);
      var groupGraph :- GroupGraph(doc);
      Ok((Assemble(st, ruleGraph, connected, groupGraph), st.groups))
  }

  method GetCytoscapeElements(doc: LegacyDoc) returns (r: Result<(seq<CyElement>, seq<Json>)>)
    requires ValidDoc(doc)
    ensures r == CytoscapeElements(doc)
  {
    var connectedLayers := GetConnectedLayers(doc, "Start");
    if connectedLayers.Err? {
      return Err(connectedLayers.error);
    }
    if doc.genePool.None? {
      return Err(KeyError("gene_pool"));
    }
    var genes := doc.genePool.value;
    for i := 0 to |genes|
      invariant AllLayered(genes[..i])
    {
      if "layer" !in genes[i] {
        return Err(KeyError("layer"));
      }
      assert genes[..i + 1] == genes[..i] + [genes[i]];
    }
    assert genes[..|genes|] == genes;
    var elements, groupElements, groups := NodeElements(genes, connectedLayers.value, true);
    elements := groupElements + elements;
    var ruleGraph := GetRuleGraph(doc.ruleSet.value);
    assert ruleGraph.Ok?;
    elements := AddLayerEdges(elements, ruleGraph.value, connectedLayers.value);
    var groupGraph := GetGroupGraph(doc);
    if groupGraph.Err? {
      return Err(groupGraph.error);
    }
    elements := AddGroupEdges(elements, groupGraph.value, groups);
    return Ok((elements, groups));
  }

  /** Once the layers are connected, the view fails on a gene without
      `layer` and otherwise only on a group graph that cannot be built. */
  lemma CytoscapeElementsError(doc: LegacyDoc)
    requires ValidDoc(doc) && ConnectedLayers(doc, "Start").Ok? && doc.genePool.Some?
    ensures CytoscapeElements(doc).Ok? <==> AllLayered(doc.genePool.value) && GroupGraph(doc).Ok?
    ensures !AllLayered(doc.genePool.value) ==> CytoscapeElements(doc) == Err(KeyError("layer"))
  {
  }

  /** The view begins with one group node per qualifying gene with a group
      (repetitions kept), a gene qualifying only when its `exclude` is
      present and falsy; then the start node; every qualifying gene's node
      is present and none twice; after the nodes come new edges, none
      twice. */
  lemma CytoscapeElementsSpec(doc: LegacyDoc, gene: Gene, e: CyElement)
    requires ValidDoc(doc) && CytoscapeElements(doc).Ok?
    ensures var (els, groups) := CytoscapeElements(doc).value;
      var connected := ConnectedLayers(doc, "Start").value;
      var genes := doc.genePool.value;
      var st := CollectNodes(genes, connected, true);
      var n := |st.groupElements| + |st.elements|;
      && groups == QualifyingGroups(genes, connected, true)
      && |groups| < |els| && els[|groups|] == StartElement
      && (forall i :: 0 <= i < |groups| ==> els[i] == GroupElement(groups[i]))
      && (gene in genes && Qualifies(gene, connected, true) ==> LayerElement(gene) in els)
      && n <= |els| && NoDuplicates(els[n..])
      && (e in els[n..] ==>
            e !in els[..n] &&
            (e in LayerEdgeCandidates(RuleGraph(doc.ruleSet.value).value, connected) ||
             e in GroupEdgeCandidates(GroupGraph(doc).value, groups)))
  {
    var connected := ConnectedLayers(doc, "Start").value;
    var genes := doc.genePool.value;
    var st := CollectNodes(genes, connected, true);
    var rg := RuleGraph(doc.ruleSet.value).value;
    var gg := GroupGraph(doc).value;
    assert CytoscapeElements(doc).value == (Assemble(st, rg, connected, gg), st.groups);
    ViewNodes(genes, connected, true, rg, gg, gene);
    ViewEdges(genes, connected, true, rg, gg, e);
  }
}
