/** The one-off converter from the gene-pool document (genes grouped in a
    `gene_pool` dict, `rule_set` as a dict of `rule` lists, `rule_set_group`)
    to the older flat document read by the `Legacy` module. */
module Convert {

  import opened Wrappers
  import opened Py
  import opened PyStr
  import opened Cytoscape
  import opened Seqs
  import Legacy

  /** A `rule_set_group` entry of the input: its `group` and `rule`. */
  datatype SourceGroupRule = SourceGroupRule(group: Option<Json>, rule: Option<seq<string>>)

  /** The input document; each `None` is a missing member. */
  datatype SourceDoc = SourceDoc(
    genePool: Option<seq<(string, seq<Gene>)>>,
    ruleSet: Option<seq<(string, Option<seq<string>>)>>,
    ruleSetGroup: Option<seq<SourceGroupRule>>)

  /** The members a converted gene sets itself. */
  const Reserved: set<string> := {"layer", "f_name", "group", "exclude"}

  /** `group.replace("_", " ").title()`. */
  function GroupName(g: string): string
  {
    Title(ReplaceAll(g, "_", " "))
  }

  /** A group name is as long as the key, holds no underscore, and is left
      alone by a second conversion. */
  lemma GroupNameSpec(g: string)
    ensures |GroupName(g)| == |g|
    ensures '_' !in GroupName(g)
    ensures GroupName(GroupName(g)) == GroupName(g)
  {
    var u := ReplaceAll(g, "_", " ");
    ReplaceCharAt(g, '_', ' ');
    var t := Title(u);
    forall k | 0 <= k < |t| ensures t[k] != '_' {
      TitleAt(u, false, k);
    }
    ContainsChar(t, '_');
    ReplaceAbsent(t, "_", " ");
    TitleIdempotent(u, false);
  }

  // ---------------------------------------------------------------- genes

  /** One gene of a group: `layer` and `f_name` copied, `exclude` false,
      `group` the group's name, and every other member copied except an
      own `group` or `exclude`. */
  function ConvertGene(group: string, data: Gene): Result<Gene>
  {
    if "layer" !in data then Err(KeyError("layer"))
    else if "f_name" !in data then Err(KeyError("f_name"))
    else
      var rest := map k | k in data && k !in Reserved :: data[k];
      Ok(rest["layer" := data["layer"]]["f_name" := data["f_name"]]["exclude" := Bool(false)]["group" := Str(GroupName(group))])
  }

  /** A converted gene keeps `layer`, `f_name` and every unreserved member
      of the input and nothing else, with `exclude` false and the group's
      name as `group`; a gene without `layer` or `f_name` is a KeyError. */
  lemma ConvertGeneSpec(group: string, data: Gene, k: string)
    ensures ConvertGene(group, data).Ok? <==> "layer" in data && "f_name" in data
    ensures "layer" !in data ==> ConvertGene(group, data) == Err(KeyError("layer"))
    ensures ConvertGene(group, data).Ok? ==>
      var x := ConvertGene(group, data).value;
      && "layer" in x && x["layer"] == data["layer"]
      && "f_name" in x && x["f_name"] == data["f_name"]
      && "exclude" in x && x["exclude"] == Bool(false)
      && "group" in x && x["group"] == Str(GroupName(group))
      && (k !in Reserved ==> (k in x <==> k in data) && (k in x ==> x[k] == data[k]))
      && (k in x ==> k in Reserved || k in data)
  {
  }

  /** The genes of one group, in order. */
  function ConvertGenes(group: string, genes: seq<Gene>): Result<seq<Gene>>
    decreases |genes|
  {
    if |genes| == 0 then Ok([])
    else
      var prev :- ConvertGenes(group, genes[..|genes| - 1]);
      var x :- ConvertGene(group, genes[|genes| - 1]);
      Ok(prev + [x])
  }

  /** The `gene_pool` loop, group by group. */
  function ConvertPool(pool: seq<(string, seq<Gene>)>): Result<seq<Gene>>
    decreases |pool|
  {
    if |pool| == 0 then Ok([])
    else
      var prev :- ConvertPool(pool[..|pool| - 1]);
      var xs :- ConvertGenes(pool[|pool| - 1].0, pool[|pool| - 1].1);
      Ok(prev + xs)
  }

  lemma {:induction false} ConvertGenesSpec(group: string, genes: seq<Gene>)
    ensures ConvertGenes(group, genes).Ok? <==> forall j :: 0 <= j < |genes| ==> ConvertGene(group, genes[j]).Ok?
    ensures ConvertGenes(group, genes).Ok? ==>
      |ConvertGenes(group, genes).value| == |genes| &&
      forall j :: 0 <= j < |genes| ==> ConvertGenes(group, genes).value[j] == ConvertGene(group, genes[j]).value
    decreases |genes|
  {
    if |genes| > 0 {
      var init := genes[..|genes| - 1];
      ConvertGenesSpec(group, init);
      forall j | 0 <= j < |init| ensures init[j] == genes[j] { }
    }
  }

  /** The converted pool exists exactly when every gene can be converted,
      and holds exactly their conversions; `ConvertPoolLayout` gives the
      count and the order. */
  lemma {:induction false} ConvertPoolSpec(pool: seq<(string, seq<Gene>)>, x: Gene)
    ensures ConvertPool(pool).Ok? <==>
      forall i, j :: 0 <= i < |pool| && 0 <= j < |pool[i].1| ==> ConvertGene(pool[i].0, pool[i].1[j]).Ok?
    ensures ConvertPool(pool).Ok? ==>
      (x in ConvertPool(pool).value <==>
         exists i, j :: 0 <= i < |pool| && 0 <= j < |pool[i].1| && ConvertGene(pool[i].0, pool[i].1[j]) == Ok(x))
    decreases |pool|
  {
    if |pool| > 0 {
      var init := pool[..|pool| - 1];
      var (group, genes) := pool[|pool| - 1];
      ConvertPoolSpec(init, x);
      ConvertGenesSpec(group, genes);
      forall i | 0 <= i < |init| ensures init[i] == pool[i] { }
      if ConvertPool(pool).Ok? {
        var own := ConvertGenes(group, genes).value;
        if x in own {
          var j :| 0 <= j < |own| && own[j] == x;
          assert pool[|pool| - 1].1[j] == genes[j];
        }
        if exists i, j :: 0 <= i < |pool| && 0 <= j < |pool[i].1| && ConvertGene(pool[i].0, pool[i].1[j]) == Ok(x) {
          var i, j :| 0 <= i < |pool| && 0 <= j < |pool[i].1| && ConvertGene(pool[i].0, pool[i].1[j]) == Ok(x);
          if i == |init| {
            assert own[j] == x;
          }
        }
      } else if ConvertPool(init).Ok? {
        var j :| 0 <= j < |genes| && ConvertGene(group, genes[j]).Err?;
        assert pool[|pool| - 1].1[j] == genes[j];
      }
    }
  }

  /** The converted pool has one gene per input gene. */
  lemma {:induction false} ConvertPoolSize(pool: seq<(string, seq<Gene>)>)
    requires ConvertPool(pool).Ok?
    ensures |ConvertPool(pool).value| == GroupsSize(pool)
    decreases |pool|
  {
    if |pool| > 0 {
      var n := |pool| - 1;
      ConvertPoolSize(pool[..n]);
      ConvertGenesSpec(pool[n].0, pool[n].1);
    }
  }

  /** Gene `j` of group `i` is converted to the entry that follows the
      genes of the groups before it. */
  lemma {:induction false} ConvertPoolAt(pool: seq<(string, seq<Gene>)>, i: nat, j: nat)
    requires ConvertPool(pool).Ok?
    requires i < |pool| && j < |pool[i].1|
    ensures GroupsSize(pool[..i]) + j < |ConvertPool(pool).value|
    ensures ConvertGene(pool[i].0, pool[i].1[j]) == Ok(ConvertPool(pool).value[GroupsSize(pool[..i]) + j])
    decreases |pool|
  {
    var n := |pool| - 1;
    var init := pool[..n];
    ConvertPoolSize(init);
    ConvertGenesSpec(pool[n].0, pool[n].1);
    var prev := ConvertPool(init).value;
    var own := ConvertGenes(pool[n].0, pool[n].1).value;
    assert ConvertPool(pool).value == prev + own;
    if i < n {
      ConvertPoolAt(init, i, j);
      assert pool[..i] == init[..i];
      assert init[i] == pool[i];
    } else {
      assert pool[..i] == init;
    }
  }

  /** The converted pool has one gene per input gene, in group-then-list
      order: gene `j` of group `i` lands after the genes of the groups
      before it. */
  lemma ConvertPoolLayout(pool: seq<(string, seq<Gene>)>)
    requires ConvertPool(pool).Ok?
    ensures |ConvertPool(pool).value| == GroupsSize(pool)
    ensures forall i :: 0 <= i < |pool| ==> GroupsSize(pool[..i]) + |pool[i].1| <= GroupsSize(pool)
    ensures forall i, j :: 0 <= i < |pool| && 0 <= j < |pool[i].1| ==>
      ConvertGene(pool[i].0, pool[i].1[j]) == Ok(ConvertPool(pool).value[GroupsSize(pool[..i]) + j])
  {
    ConvertPoolSize(pool);
    forall i | 0 <= i < |pool| ensures GroupsSize(pool[..i]) + |pool[i].1| <= GroupsSize(pool) {
      GroupsSizePrefix(pool, i);
    }
    forall i, j | 0 <= i < |pool| && 0 <= j < |pool[i].1|
      ensures ConvertGene(pool[i].0, pool[i].1[j]) == Ok(ConvertPool(pool).value[GroupsSize(pool[..i]) + j])
    {
      ConvertPoolAt(pool, i, j);
    }
  }

  // ---------------------------------------------------------------- rules

  /** The `rule_set` loop: each layer gives one entry per element of its
      `rule` list, each carrying the whole list and excluded unless that
      element is the layer itself; a layer without `rule` is a KeyError. */
  function ConvertRules(ruleSet: seq<(string, Option<seq<string>>)>): Result<seq<Legacy.LayerRule>>
    decreases |ruleSet|
  {
    if |ruleSet| == 0 then Ok([])
    else
      var prev :- ConvertRules(ruleSet[..|ruleSet| - 1]);
      var (key, rule) := ruleSet[|ruleSet| - 1];
      if rule.None? then Err(KeyError("rule"))
      else
        var rs := rule.value;
        Ok(prev + seq(|rs|, j requires 0 <= j < |rs| => RuleEntry(key, rs, j)))
  }

  /** The entry made for element `j` of layer `key`'s list `rs`. */
  function RuleEntry(key: string, rs: seq<string>, j: nat): Legacy.LayerRule
    requires j < |rs|
  {
    Legacy.LayerRule(Some(key), Some(rs), Some(Bool(key != rs[j])))
  }

  /** The converted rule set exists exactly when every layer has a `rule`
      list, and holds exactly the entries made for the elements of those
      lists; `ConvertRulesLayout` gives their count and order. */
  lemma {:induction false} ConvertRulesSpec(ruleSet: seq<(string, Option<seq<string>>)>, x: Legacy.LayerRule)
    ensures ConvertRules(ruleSet).Ok? <==> forall i :: 0 <= i < |ruleSet| ==> ruleSet[i].1.Some?
    ensures ConvertRules(ruleSet).Ok? ==>
      (x in ConvertRules(ruleSet).value <==>
         exists i, j :: 0 <= i < |ruleSet| && 0 <= j < |ruleSet[i].1.value| && x == RuleEntry(ruleSet[i].0, ruleSet[i].1.value, j))
    decreases |ruleSet|
  {
    if |ruleSet| > 0 {
      var init := ruleSet[..|ruleSet| - 1];
      var (key, rule) := ruleSet[|ruleSet| - 1];
      ConvertRulesSpec(init, x);
      forall i | 0 <= i < |init| ensures init[i] == ruleSet[i] { }
      if ConvertRules(ruleSet).Ok? {
        var rs := rule.value;
        var own := seq(|rs|, j requires 0 <= j < |rs| => RuleEntry(key, rs, j));
        if x in own {
          var j :| 0 <= j < |own| && own[j] == x;
          assert x == RuleEntry(ruleSet[|ruleSet| - 1].0, ruleSet[|ruleSet| - 1].1.value, j);
        }
        if exists i, j :: 0 <= i < |ruleSet| && 0 <= j < |ruleSet[i].1.value| && x == RuleEntry(ruleSet[i].0, ruleSet[i].1.value, j) {
          var i, j :| 0 <= i < |ruleSet| && 0 <= j < |ruleSet[i].1.value| && x == RuleEntry(ruleSet[i].0, ruleSet[i].1.value, j);
          if i == |init| {
            assert own[j] == x;
          }
        }
      }
    }
  }

  /** The number of entries the layers of `ruleSet` give: the lengths of
      their `rule` lists. */
  function RuleCount(ruleSet: seq<(string, Option<seq<string>>)>): nat
    decreases |ruleSet|
  {
    if |ruleSet| == 0 then 0
    else
      var rule := ruleSet[|ruleSet| - 1].1;
      RuleCount(ruleSet[..|ruleSet| - 1]) + (if rule.Some? then |rule.value| else 0)
  }

  /** Layer `i`'s entries fit after those of the layers before it. */
  lemma {:induction false} RuleCountPrefix(ruleSet: seq<(string, Option<seq<string>>)>, i: nat)
    requires i < |ruleSet| && ruleSet[i].1.Some?
    ensures RuleCount(ruleSet[..i]) + |ruleSet[i].1.value| <= RuleCount(ruleSet)
    decreases |ruleSet|
  {
    var n := |ruleSet| - 1;
    if i < n {
      assert ruleSet[..n][..i] == ruleSet[..i];
      assert ruleSet[..n][i] == ruleSet[i];
      RuleCountPrefix(ruleSet[..n], i);
    }
  }

  /** The converted rule set has one entry per element of each `rule` list. */
  lemma {:induction false} ConvertRulesSize(ruleSet: seq<(string, Option<seq<string>>)>)
    requires ConvertRules(ruleSet).Ok?
    ensures |ConvertRules(ruleSet).value| == RuleCount(ruleSet)
    decreases |ruleSet|
  {
    if |ruleSet| > 0 {
      ConvertRulesSize(ruleSet[..|ruleSet| - 1]);
    }
  }

  /** Element `j` of layer `i`'s list gives the entry that follows the
      entries of the layers before it. */
  lemma {:induction false} ConvertRulesAt(ruleSet: seq<(string, Option<seq<string>>)>, i: nat, j: nat)
    requires ConvertRules(ruleSet).Ok?
    requires i < |ruleSet| && ruleSet[i].1.Some? && j < |ruleSet[i].1.value|
    ensures RuleCount(ruleSet[..i]) + j < |ConvertRules(ruleSet).value|
    ensures ConvertRules(ruleSet).value[RuleCount(ruleSet[..i]) + j] == RuleEntry(ruleSet[i].0, ruleSet[i].1.value, j)
    decreases |ruleSet|
  {
    var n := |ruleSet| - 1;
    var init := ruleSet[..n];
    ConvertRulesSize(init);
    var (key, rule) := ruleSet[n];
    var rs := rule.value;
    var own := seq(|rs|, k requires 0 <= k < |rs| => RuleEntry(key, rs, k));
    assert ConvertRules(ruleSet).value == ConvertRules(init).value + own;
    if i < n {
      ConvertRulesAt(init, i, j);
      assert ruleSet[..i] == init[..i];
      assert init[i] == ruleSet[i];
    } else {
      assert ruleSet[..i] == init;
    }
  }

  /** The converted rule set lays the layers' entries out in rule-set
      order, and each layer's in the order of its `rule` list. */
  lemma ConvertRulesLayout(ruleSet: seq<(string, Option<seq<string>>)>)
    requires ConvertRules(ruleSet).Ok?
    ensures |ConvertRules(ruleSet).value| == RuleCount(ruleSet)
    ensures forall i :: 0 <= i < |ruleSet| ==>
      ruleSet[i].1.Some? && RuleCount(ruleSet[..i]) + |ruleSet[i].1.value| <= RuleCount(ruleSet)
    ensures forall i, j :: 0 <= i < |ruleSet| && 0 <= j < |ruleSet[i].1.value| ==>
      ConvertRules(ruleSet).value[RuleCount(ruleSet[..i]) + j] == RuleEntry(ruleSet[i].0, ruleSet[i].1.value, j)
  {
    ConvertRulesSize(ruleSet);
    ConvertRulesSpec(ruleSet, Legacy.LayerRule(None, None, None));
    forall i | 0 <= i < |ruleSet|
      ensures ruleSet[i].1.Some? && RuleCount(ruleSet[..i]) + |ruleSet[i].1.value| <= RuleCount(ruleSet)
    {
      RuleCountPrefix(ruleSet, i);
    }
    forall i, j | 0 <= i < |ruleSet| && 0 <= j < |ruleSet[i].1.value|
      ensures ConvertRules(ruleSet).value[RuleCount(ruleSet[..i]) + j] == RuleEntry(ruleSet[i].0, ruleSet[i].1.value, j)
    {
      ConvertRulesAt(ruleSet, i, j);
    }
  }

  // --------------------------------------------------------------- groups

  /** The `rule_set_group` loop: one entry per group rule, with the group's
      name, its `rule` list and `exclude` false; a missing member is a
      KeyError and a `group` that is not a string an AttributeError. */
  function ConvertGroups(rules: seq<SourceGroupRule>): Result<seq<Legacy.GroupRule>>
    decreases |rules|
  {
    if |rules| == 0 then Ok([])
    else
      var prev :- ConvertGroups(rules[..|rules| - 1]);
      var r := rules[|rules| - 1];
      if r.group.None? then Err(KeyError("group"))
      else if !r.group.value.Str? then Err(AttributeError)
      else if r.rule.None? then Err(KeyError("rule"))
      else Ok(prev + [Legacy.GroupRule(Some(GroupName(r.group.value.s)), r.rule, Some(Bool(false)))])
  }

  /** The converted group rules correspond one to one, in order. */
  lemma {:induction false} ConvertGroupsSpec(rules: seq<SourceGroupRule>)
    ensures ConvertGroups(rules).Ok? <==>
      forall i :: 0 <= i < |rules| ==> rules[i].group.Some? && rules[i].group.value.Str? && rules[i].rule.Some?
    ensures ConvertGroups(rules).Ok? ==>
      |ConvertGroups(rules).value| == |rules| &&
      forall i :: 0 <= i < |rules| ==>
        ConvertGroups(rules).value[i] == Legacy.GroupRule(Some(GroupName(rules[i].group.value.s)), rules[i].rule, Some(Bool(false)))
    decreases |rules|
  {
    if |rules| > 0 {
      var init := rules[..|rules| - 1];
      ConvertGroupsSpec(init);
      forall i | 0 <= i < |init| ensures init[i] == rules[i] { }
    }
  }

  // ------------------------------------------------------------- document

  /** `convert_json`. */
  function ConvertDoc(doc: SourceDoc): Result<Legacy.LegacyDoc>
  {
    if doc.genePool.None? then Err(KeyError("gene_pool"))
    else
      var genes :- ConvertPool(doc.genePool.value);
      if doc.ruleSet.None? then Err(KeyError("rule_set"))
      else
        var rules :- ConvertRules(doc.ruleSet.value);
        if doc.ruleSetGroup.None? then Err(KeyError("rule_set_group"))
        else
          var groups :- ConvertGroups(doc.ruleSetGroup.value);
          Ok(Legacy.LegacyDoc(Some(genes), Some(rules), Some(groups)))
  }

  method ConvertJson(doc: SourceDoc) returns (r: Result<Legacy.LegacyDoc>)
    ensures r == ConvertDoc(doc)
  {
    if doc.genePool.None? {
      return Err(KeyError("gene_pool"));
    }
    var pool := doc.genePool.value;
    var genePool: seq<Gene> := [];
    for i := 0 to |pool|
      invariant ConvertPool(pool[..i]) == Ok(genePool)
    {
      assert pool[..i + 1][..i] == pool[..i];
      var (group, layers) := pool[i];
      ghost var before := genePool;
      for j := 0 to |layers|
        invariant ConvertGenes(group, layers[..j]).Ok?
        invariant genePool == before + ConvertGenes(group, layers[..j]).value
      {
        assert layers[..j + 1][..j] == layers[..j];
        var converted := ConvertGene(group, layers[j]);
        if converted.Err? {
          ConvertGenesPrefixErr(group, layers, j + 1);
          ConvertPoolPrefixErr(pool, i + 1);
          return Err(converted.error);
        }
        genePool := genePool + [converted.value];
      }
      assert layers[..|layers|] == layers;
    }
    assert pool[..|pool|] == pool;
    if doc.ruleSet.None? {
      return Err(KeyError("rule_set"));
    }
    var ruleSet := doc.ruleSet.value;
    var rules: seq<Legacy.LayerRule> := [];
    for i := 0 to |ruleSet|
      invariant ConvertRules(ruleSet[..i]) == Ok(rules)
    {
      assert ruleSet[..i + 1][..i] == ruleSet[..i];
      var (key, value) := ruleSet[i];
      if value.None? {
        ConvertRulesPrefixErr(ruleSet, i + 1);
        return Err(KeyError("rule"));
      }
      ghost var before := rules;
      for j := 0 to |value.value|
        invariant rules == before + seq(j, m requires 0 <= m < j => RuleEntry(key, value.value, m))
      {
        rules := rules + [Legacy.LayerRule(Some(key), Some(value.value), Some(Bool(key != value.value[j])))];
      }
      assert rules == before + seq(|value.value|, m requires 0 <= m < |value.value| => RuleEntry(key, value.value, m));
    }
    assert ruleSet[..|ruleSet|] == ruleSet;
    if doc.ruleSetGroup.None? {
      return Err(KeyError("rule_set_group"));
    }
    var groupRules := doc.ruleSetGroup.value;
    var groups: seq<Legacy.GroupRule> := [];
    for i := 0 to |groupRules|
      invariant ConvertGroups(groupRules[..i]) == Ok(groups)
    {
      assert groupRules[..i + 1][..i] == groupRules[..i];
      var groupData := groupRules[i];
      if groupData.group.None? || !groupData.group.value.Str? || groupData.rule.None? {
        ConvertGroupsPrefixErr(groupRules, i + 1);
        return if groupData.group.None? then Err(KeyError("group"))
               else if !groupData.group.value.Str? then Err(AttributeError)
               else Err(KeyError("rule"));
      }
      groups := groups + [Legacy.GroupRule(Some(GroupName(groupData.group.value.s)), groupData.rule, Some(Bool(false)))];
    }
    assert groupRules[..|groupRules|] == groupRules;
    return Ok(Legacy.LegacyDoc(Some(genePool), Some(rules), Some(groups)));
  }

  lemma {:induction false} ConvertGenesPrefixErr(group: string, genes: seq<Gene>, k: nat)
    requires k <= |genes| && ConvertGenes(group, genes[..k]).Err?
    ensures ConvertGenes(group, genes) == ConvertGenes(group, genes[..k])
    decreases |genes|
  {
    if k < |genes| {
      assert genes[..|genes| - 1][..k] == genes[..k];
      ConvertGenesPrefixErr(group, genes[..|genes| - 1], k);
    } else {
      assert genes[..k] == genes;
    }
  }

  lemma {:induction false} ConvertPoolPrefixErr(pool: seq<(string, seq<Gene>)>, k: nat)
    requires k <= |pool| && ConvertPool(pool[..k]).Err?
    ensures ConvertPool(pool) == ConvertPool(pool[..k])
    decreases |pool|
  {
    if k < |pool| {
      assert pool[..|pool| - 1][..k] == pool[..k];
      ConvertPoolPrefixErr(pool[..|pool| - 1], k);
    } else {
      assert pool[..k] == pool;
    }
  }

  lemma {:induction false} ConvertRulesPrefixErr(ruleSet: seq<(string, Option<seq<string>>)>, k: nat)
    requires k <= |ruleSet| && ConvertRules(ruleSet[..k]).Err?
    ensures ConvertRules(ruleSet) == ConvertRules(ruleSet[..k])
    decreases |ruleSet|
  {
    if k < |ruleSet| {
      assert ruleSet[..|ruleSet| - 1][..k] == ruleSet[..k];
      ConvertRulesPrefixErr(ruleSet[..|ruleSet| - 1], k);
    } else {
      assert ruleSet[..k] == ruleSet;
    }
  }

  lemma {:induction false} ConvertGroupsPrefixErr(rules: seq<SourceGroupRule>, k: nat)
    requires k <= |rules| && ConvertGroups(rules[..k]).Err?
    ensures ConvertGroups(rules) == ConvertGroups(rules[..k])
    decreases |rules|
  {
    if k < |rules| {
      assert rules[..|rules| - 1][..k] == rules[..k];
      ConvertGroupsPrefixErr(rules[..|rules| - 1], k);
    } else {
      assert rules[..k] == rules;
    }
  }

  // ------------------------------------------- reading the converted file

  /** Converted genes are never excluded, so in the older view a converted
      gene gets a node exactly when its layer is connected; and when the
      input layers are strings the converted document is well formed. */
  lemma ConvertedGenes(doc: SourceDoc, x: Gene, connected: seq<string>)
    requires ConvertDoc(doc).Ok? && x in ConvertDoc(doc).value.genePool.value
    ensures "exclude" in x && x["exclude"] == Bool(false)
    ensures "group" in x && x["group"].Str? && '_' !in x["group"].s
    ensures "layer" in x && (x["layer"].Str? ==> (Qualifies(x, connected, true) <==> x["layer"].s in connected))
  {
    ConvertPoolSpec(doc.genePool.value, x);
    var pool := doc.genePool.value;
    var i, j :| 0 <= i < |pool| && 0 <= j < |pool[i].1| && ConvertGene(pool[i].0, pool[i].1[j]) == Ok(x);
    ConvertGeneSpec(pool[i].0, pool[i].1[j], "");
    GroupNameSpec(pool[i].0);
  }

  /** The converted document is well formed when every input layer is a
      string. */
  lemma ConvertedValid(doc: SourceDoc)
    requires ConvertDoc(doc).Ok?
    requires forall i, j :: 0 <= i < |doc.genePool.value| && 0 <= j < |doc.genePool.value[i].1| ==>
      "layer" in doc.genePool.value[i].1[j] ==> doc.genePool.value[i].1[j]["layer"].Str?
    ensures Legacy.ValidDoc(ConvertDoc(doc).value)
  {
    var genes: seq<Gene> := ConvertDoc(doc).value.genePool.value;
    var pool := doc.genePool.value;
    forall m | 0 <= m < |genes|
      ensures ("layer" in genes[m] ==> genes[m]["layer"].Str?) && ("group" in genes[m] ==> genes[m]["group"].Str?)
    {
      var x := genes[m];
      ConvertPoolSpec(pool, x);
      var i, j :| 0 <= i < |pool| && 0 <= j < |pool[i].1| && ConvertGene(pool[i].0, pool[i].1[j]) == Ok(x);
      ConvertGeneSpec(pool[i].0, pool[i].1[j], "");
    }
  }

  /** Because every converted rule is excluded unless its element is the
      layer itself, the older layer graph built from a converted rule set
      has as keys exactly the layers whose own `rule` list names them. */
  lemma ConvertedRuleGraph(doc: SourceDoc, k: string)
    requires ConvertDoc(doc).Ok?
    ensures Legacy.RuleGraph(ConvertDoc(doc).value.ruleSet.value).Ok?
    ensures HasKey(Legacy.RuleGraph(ConvertDoc(doc).value.ruleSet.value).value, k) <==>
      exists i :: 0 <= i < |doc.ruleSet.value| && doc.ruleSet.value[i].0 == k && doc.ruleSet.value[i].1.Some? && k in doc.ruleSet.value[i].1.value
  {
    var ruleSet := doc.ruleSet.value;
    var out := ConvertDoc(doc).value.ruleSet.value;
    assert out == ConvertRules(ruleSet).value;
    forall m | 0 <= m < |out|
      ensures out[m].layer.Some? && out[m].allowedAfter.Some? && out[m].exclude.Some? && out[m].exclude.value.Bool?
      ensures !Legacy.Excluded(out[m].exclude) ==>
        exists i :: 0 <= i < |ruleSet| && Some(ruleSet[i].0) == out[m].layer && ruleSet[i].1.Some? && ruleSet[i].0 in ruleSet[i].1.value
    {
      ConvertRulesSpec(ruleSet, out[m]);
      var i, j :| 0 <= i < |ruleSet| && 0 <= j < |ruleSet[i].1.value| && out[m] == RuleEntry(ruleSet[i].0, ruleSet[i].1.value, j);
    }
    Legacy.RuleGraphSpec(out, k);
    if exists i :: 0 <= i < |ruleSet| && ruleSet[i].0 == k && ruleSet[i].1.Some? && k in ruleSet[i].1.value {
      var i :| 0 <= i < |ruleSet| && ruleSet[i].0 == k && ruleSet[i].1.Some? && k in ruleSet[i].1.value;
      var j :| 0 <= j < |ruleSet[i].1.value| && ruleSet[i].1.value[j] == k;
      ConvertRulesSpec(ruleSet, RuleEntry(k, ruleSet[i].1.value, j));
      var x := RuleEntry(k, ruleSet[i].1.value, j);
      var m :| 0 <= m < |out| && out[m] == x;
    }
  }
}
