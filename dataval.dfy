/** The structural validators run before a run is loaded: each returns the
    empty string for a well-formed file and otherwise a message listing what
    to fix, one line per problem. Files are given already read: absent, not
    parseable, or parsed. */
module DataVal {

  import opened Wrappers
  import opened Py
  import opened PyStr

  /** A JSON file as the validators find it. */
  datatype JsonFile = Missing | Invalid | Parsed(data: Json)

  /** A CSV file read without a header; a cell pandas leaves empty is `None`
      (a float NaN). */
  datatype CsvFile = CsvMissing | CsvEmpty | Frame(rows: seq<seq<Option<string>>>)

  // ------------------------------------------------------------ json_to_dict

  /** `json_to_dict` as written: it re-raises a decoding error as
      `JSONDecodeError(message)`, but that constructor also demands the
      document and the position, so the re-raise itself fails with a
      TypeError. */
  function JsonToDictAsWritten(file: JsonFile): (r: Result<Json>)
    ensures r.Ok? <==> file.Parsed?
    ensures file.Invalid? ==> r == Err(TypeError)
  {
    match file
    case Missing => Err(FileNotFoundError)
    case Invalid => Err(TypeError)
    case Parsed(data) => Ok(data)
  }

  /** `json_to_dict` as its documentation describes it: a decoding error
      reaches the caller as a JSONDecodeError. */
  function JsonToDict(file: JsonFile): (r: Result<Json>)
    ensures r.Ok? <==> file.Parsed?
    ensures file.Parsed? ==> r.value == file.data
    ensures file.Invalid? ==> r == Err(JsonDecodeError)
  {
    match file
    case Missing => Err(FileNotFoundError)
    case Invalid => Err(JsonDecodeError)
    case Parsed(data) => Ok(data)
  }

  /** Membership and subscript of a top-level key; a parsed value other
      than an object either lacks the key or raises TypeError. */
  function Section(data: Json, key: string): Result<Option<Json>>
  {
    var has :- PyIn(key, data);
    if !has then Ok(None)
    else var v :- GetItem(data, key); Ok(Some(v))
  }

  lemma SectionSpec(data: Json, key: string)
    ensures data.Obj? ==> Section(data, key) == Ok(Lookup(data.fields, key))
    ensures Section(data, key).Err? <==> !data.Obj? && PyIn(key, data) != Ok(false)
  {
  }

  // ------------------------------------------------------- hyperparameters

  const ConfigMissing := "Error config.json file: Config file 'config.json' not found."
  const ConfigInvalid := "Error config.json file: Invalid JSON format in config.json."
  const HyperparametersMissing := "Error config.json file: Missing 'hyperparameters' key in config.json."
  const HyperparametersNotDict := "Error config.json file: Hyperparameters must be a dictionary."

  /** The line for a hyperparameter whose settings are not an object;
      `noun` is the word the message uses for them. */
  function HyperparameterNotDict(hp: string, noun: string): (line: string)
    ensures line != ""
  {
    "Error config.json file: Hyperparameter '" + hp + ("' " + noun + " must be a dictionary.\n")
  }

  function ValueMissing(hp: string): (line: string)
    ensures line != ""
  {
    "Error config.json file: Missing 'value' key for hyperparameter '" + hp + "'.\n"
  }

  function HyperparameterLine(hp: string, details: Json, noun: string): string
  {
    if !details.Obj? then HyperparameterNotDict(hp, noun)
    else if !HasKey(details.fields, "value") then ValueMissing(hp)
    else ""
  }

  function HyperparameterLines(entries: seq<(string, Json)>, noun: string): (ls: seq<string>)
    ensures |ls| == |entries|
    ensures forall i :: 0 <= i < |entries| ==> ls[i] == HyperparameterLine(entries[i].0, entries[i].1, noun)
  {
    seq(|entries|, i requires 0 <= i < |entries| => HyperparameterLine(entries[i].0, entries[i].1, noun))
  }

  /** The checks after loading, on the loaded value or the loading error. */
  function HyperparametersLoaded(load: Result<Json>, noun: string): Result<string>
  {
    if load == Err(JsonDecodeError) then Ok(ConfigInvalid)
    else
      var data :- load;
      var hp :- Section(data, "hyperparameters");
      if hp.None? then Ok(HyperparametersMissing)
      else if !hp.value.Obj? then Ok(HyperparametersNotDict)
      else Ok(Concat(HyperparameterLines(hp.value.fields, noun)))
  }

  /** The `config.json` hyperparameter check, with the given wording. */
  function Hyperparameters(file: JsonFile, noun: string): Result<string>
  {
    if file.Missing? then Ok(ConfigMissing) else HyperparametersLoaded(JsonToDict(file), noun)
  }

  /** `validate_hyperparameters`. */
  function ValidateHyperparameters(file: JsonFile): Result<string>
  {
    Hyperparameters(file, "settings")
  }

  method CheckHyperparameters(file: JsonFile, noun: string) returns (r: Result<string>)
    ensures r == Hyperparameters(file, noun)
  {
    if file.Missing? {
      return Ok(ConfigMissing);
    }
    var load := JsonToDict(file);
    if load == Err(JsonDecodeError) {
      return Ok(ConfigInvalid);
    }
    assert load.Ok?;
    var section := Section(load.value, "hyperparameters");
    if section.Err? {
      return Err(section.error);
    }
    if section.value.None? {
      return Ok(HyperparametersMissing);
    }
    var hyperparameters := section.value.value;
    if !hyperparameters.Obj? {
      return Ok(HyperparametersNotDict);
    }
    var message := HyperparameterMessages(hyperparameters.fields, noun);
    return Ok(message);
  }

  /** The loop over the hyperparameters: one line per malformed entry. */
  method HyperparameterMessages(entries: seq<(string, Json)>, noun: string) returns (message: string)
    ensures message == Concat(HyperparameterLines(entries, noun))
  {
    message := "";
    for i := 0 to |entries|
      invariant message == Concat(HyperparameterLines(entries[..i], noun))
    {
      assert HyperparameterLines(entries[..i + 1], noun) ==
        HyperparameterLines(entries[..i], noun) + [HyperparameterLine(entries[i].0, entries[i].1, noun)];
      ConcatAppend(HyperparameterLines(entries[..i], noun), HyperparameterLine(entries[i].0, entries[i].1, noun));
      var (hp, details) := entries[i];
      if !details.Obj? {
        message := message + HyperparameterNotDict(hp, noun);
        continue;
      }
      if !HasKey(details.fields, "value") {
        message := message + ValueMissing(hp);
      }
    }
    assert entries[..|entries|] == entries;
  }

  method CheckHyperparametersSettings(file: JsonFile) returns (r: Result<string>)
    ensures r == ValidateHyperparameters(file)
  {
    r := CheckHyperparameters(file, "settings");
  }

  /** Every hyperparameter is an object holding `value`. */
  predicate WellFormedHyperparameters(entries: seq<(string, Json)>)
  {
    forall i :: 0 <= i < |entries| ==> entries[i].1.Obj? && HasKey(entries[i].1.fields, "value")
  }

  /** The message is empty exactly when the file parsed to an object whose
      `hyperparameters` is an object of objects each holding `value`; a
      parsed value that is not an object raises unless it lacks the key. */
  lemma HyperparametersSpec(file: JsonFile, noun: string)
    ensures Hyperparameters(file, noun) == Ok("") <==>
      file.Parsed? && file.data.Obj? && HasKey(file.data.fields, "hyperparameters") &&
      var hp := Lookup(file.data.fields, "hyperparameters").value;
      hp.Obj? && WellFormedHyperparameters(hp.fields)
    ensures Hyperparameters(file, noun).Err? <==>
      file.Parsed? && !file.data.Obj? && PyIn("hyperparameters", file.data) != Ok(false)
    ensures file.Invalid? ==> Hyperparameters(file, noun) == Ok(ConfigInvalid)
  {
    if file.Parsed? {
      SectionSpec(file.data, "hyperparameters");
      if file.data.Obj? && HasKey(file.data.fields, "hyperparameters") {
        var hp := Lookup(file.data.fields, "hyperparameters").value;
        if hp.Obj? {
          ConcatEmpty(HyperparameterLines(hp.fields, noun));
        }
      }
    }
  }

  /** Each faulty hyperparameter has its line, naming it, in the message. */
  lemma HyperparameterReported(file: JsonFile, noun: string, i: nat)
    requires file.Parsed? && file.data.Obj? && HasKey(file.data.fields, "hyperparameters")
    requires Lookup(file.data.fields, "hyperparameters").value.Obj?
    requires i < |Lookup(file.data.fields, "hyperparameters").value.fields|
    ensures var entry := Lookup(file.data.fields, "hyperparameters").value.fields[i];
      var line := HyperparameterLine(entry.0, entry.1, noun);
      && Hyperparameters(file, noun).Ok?
      && Contains(Hyperparameters(file, noun).value, line)
      && (line == "" <==> entry.1.Obj? && HasKey(entry.1.fields, "value"))
      && (line != "" ==> Contains(line, entry.0))
  {
    var hp := Lookup(file.data.fields, "hyperparameters").value;
    SectionSpec(file.data, "hyperparameters");
    ConcatContains(HyperparameterLines(hp.fields, noun), i);
    var (name, details) := hp.fields[i];
    if !details.Obj? {
      ContainsMiddle("Error config.json file: Hyperparameter '", name, "' " + noun + " must be a dictionary.\n");
    } else if !HasKey(details.fields, "value") {
      ContainsMiddle("Error config.json file: Missing 'value' key for hyperparameter '", name, "'.\n");
    }
  }

  // ------------------------------------------------------------ search space

  const SearchSpaceMissing := "Error search_space.json file: Search spcae file 'search_space.json' not found."
  const SearchSpaceInvalid := "Error search_space.json file: Invalid JSON format in search_space.json."
  const GenePoolMissing := "Error search_space.json file: Missing 'gene_pool' key in search_space.json."
  const GenePoolNotDict := "Error config.json file: Gene pool must be a dictionary."
  const RuleSetMissing := "Error search_space.json file: Missing 'rule_set' key in search_space.json."
  const RuleSetNotDict := "Error config.json file: Rule set must be a dict."
  const GroupsNotList := "Error config.json file: Rule set groups must be a list."
  const RuleMissingLine := "Error search_space.json file: Rule entry in 'rule_set' is missing 'rule' key.\n"
  const StartMissingLine := "Error search_space.json file: Rule entry with layer 'Start' is missing.\n"
  const GroupRuleNotDict := "Error search_space.json file: Group rule in 'rule_set_group' must be a dictionary.\n"
  const GroupRuleGroupMissing := "Error search_space.json file: Group rule entry in 'rule_set_group' is missing 'layer' key.\n"
  const GroupRuleRuleMissing := "Error search_space.json file: Group rule entry in 'rule_set_group' is missing 'rule' key.\n"

  function GenePoolNotList(group: string): (line: string)
    ensures line != ""
  {
    "Error search_space.json file: Gene pool '" + group + "' must be a list.\n"
  }

  function GeneNotDict(group: string): (line: string)
    ensures line != ""
  {
    "Error search_space.json file: Gene in '" + group + "' must be a dictionary.\n"
  }

  function GeneLayerMissing(group: string): (line: string)
    ensures line != ""
  {
    "Error search_space.json file: Gene in '" + group + "' is missing 'layer' key.\n"
  }

  function GeneFNameMissing(group: string): (line: string)
    ensures line != ""
  {
    "Error search_space.json file: Gene in '" + group + "' is missing 'f_name' key.\n"
  }

  /** The line for one gene of a group: not an object, then no `layer`,
      then no `f_name`. */
  function GeneLine(group: string, gene: Json): string
  {
    if !gene.Obj? then GeneNotDict(group)
    else if !HasKey(gene.fields, "layer") then GeneLayerMissing(group)
    else if !HasKey(gene.fields, "f_name") then GeneFNameMissing(group)
    else ""
  }

  function GeneLines(group: string, genes: seq<Json>): (ls: seq<string>)
    ensures |ls| == |genes|
    ensures forall j :: 0 <= j < |genes| ==> ls[j] == GeneLine(group, genes[j])
  {
    seq(|genes|, j requires 0 <= j < |genes| => GeneLine(group, genes[j]))
  }

  /** One group's lines: one for a value that is not a list, else one per
      gene. */
  function GroupText(group: string, genes: Json): string
  {
    if !genes.Arr? then GenePoolNotList(group)
    else Concat(GeneLines(group, genes.items))
  }

  /** The gene-pool loop. */
  function GenePoolText(pool: seq<(string, Json)>): string
    decreases |pool|
  {
    if |pool| == 0 then ""
    else GenePoolText(pool[..|pool| - 1]) + GroupText(pool[|pool| - 1].0, pool[|pool| - 1].1)
  }

  /** The rule-set loop: a value that is not an object has no `keys()`. */
  function RuleSetText(rules: seq<(string, Json)>): Result<string>
    decreases |rules|
  {
    if |rules| == 0 then Ok("")
    else
      var prev :- RuleSetText(rules[..|rules| - 1]);
      var v := rules[|rules| - 1].1;
      if !v.Obj? then Err(AttributeError)
      else if HasKey(v.fields, "rule") then Ok(prev)
      else Ok(prev + RuleMissingLine)
  }

  /** Some entry named `Start` holds `rule`. */
  predicate StartFound(rules: seq<(string, Json)>)
  {
    exists i :: 0 <= i < |rules| && rules[i].0 == "Start" && rules[i].1.Obj? && HasKey(rules[i].1.fields, "rule")
  }

  /** The line for one group rule: not an object, then no `group`, then no
      `rule`. */
  function GroupRuleLine(entry: Json): string
  {
    if !entry.Obj? then GroupRuleNotDict
    else if !HasKey(entry.fields, "group") then GroupRuleGroupMissing
    else if !HasKey(entry.fields, "rule") then GroupRuleRuleMissing
    else ""
  }

  function GroupRuleLines(entries: seq<Json>): (ls: seq<string>)
    ensures |ls| == |entries|
    ensures forall i :: 0 <= i < |entries| ==> ls[i] == GroupRuleLine(entries[i])
  {
    seq(|entries|, i requires 0 <= i < |entries| => GroupRuleLine(entries[i]))
  }

  /** The checks after loading: a single message at the first failing
      top-level check, otherwise the gene lines, the rule lines, the start
      line and the group-rule lines, in that order. */
  function SearchSpaceLoaded(load: Result<Json>): Result<string>
  {
    if load == Err(JsonDecodeError) then Ok(SearchSpaceInvalid)
    else
      var data :- load;
      var pool :- Section(data, "gene_pool");
      if pool.None? then Ok(GenePoolMissing)
      else if !pool.value.Obj? then Ok(GenePoolNotDict)
      else
        var rules :- Section(data, "rule_set");
        if rules.None? then Ok(RuleSetMissing)
        else if !rules.value.Obj? then Ok(RuleSetNotDict)
        else
          var groups := GetOr(data.fields, "rule_set_group", Arr([]));
          if !groups.Arr? then Ok(GroupsNotList)
          else
            var rulesText :- RuleSetText(rules.value.fields);
            Ok(GenePoolText(pool.value.fields) + rulesText +
               (if StartFound(rules.value.fields) then "" else StartMissingLine) +
               Concat(GroupRuleLines(groups.items)))
  }

  /** `validate_search_space`. */
  function ValidateSearchSpace(file: JsonFile): Result<string>
  {
    if file.Missing? then Ok(SearchSpaceMissing) else SearchSpaceLoaded(JsonToDict(file))
  }

  lemma {:induction false} RuleSetPrefixErr(rules: seq<(string, Json)>, k: nat)
    requires k <= |rules| && RuleSetText(rules[..k]).Err?
    ensures RuleSetText(rules) == RuleSetText(rules[..k])
    decreases |rules|
  {
    if k < |rules| {
      assert rules[..|rules| - 1][..k] == rules[..k];
      RuleSetPrefixErr(rules[..|rules| - 1], k);
    } else {
      assert rules[..k] == rules;
    }
  }

  /** One step of the `Start` search. */
  lemma StartFoundSnoc(rules: seq<(string, Json)>, i: nat)
    requires i < |rules|
    ensures StartFound(rules[..i + 1]) <==>
      (StartFound(rules[..i]) || (rules[i].0 == "Start" && rules[i].1.Obj? && HasKey(rules[i].1.fields, "rule")))
  {
    var p := rules[..i + 1];
    if StartFound(p) {
      var k :| 0 <= k < i + 1 && p[k].0 == "Start" && p[k].1.Obj? && HasKey(p[k].1.fields, "rule");
      if k < i {
        assert rules[..i][k] == p[k];
      }
    }
    if StartFound(rules[..i]) {
      var k :| 0 <= k < i && rules[..i][k].0 == "Start" && rules[..i][k].1.Obj? && HasKey(rules[..i][k].1.fields, "rule");
      assert p[k] == rules[..i][k];
    }
    assert p[i] == rules[i];
  }

  /** The inner loop over one group's genes. */
  method CheckGroup(group: string, items: seq<Json>) returns (message: string)
    ensures message == Concat(GeneLines(group, items))
  {
    message := "";
    for j := 0 to |items|
      invariant message == Concat(GeneLines(group, items[..j]))
    {
      assert GeneLines(group, items[..j + 1]) == GeneLines(group, items[..j]) + [GeneLine(group, items[j])];
      ConcatAppend(GeneLines(group, items[..j]), GeneLine(group, items[j]));
      var gene := items[j];
      if !gene.Obj? {
        message := message + GeneNotDict(group);
      } else if !HasKey(gene.fields, "layer") {
        message := message + GeneLayerMissing(group);
      } else if !HasKey(gene.fields, "f_name") {
        message := message + GeneFNameMissing(group);
      }
    }
    assert items[..|items|] == items;
  }

  /** The gene-pool loop of `validate_search_space`. */
  method CheckGenePool(pool: seq<(string, Json)>) returns (message: string)
    ensures message == GenePoolText(pool)
  {
    message := "";
    for i := 0 to |pool|
      invariant message == GenePoolText(pool[..i])
    {
      assert pool[..i + 1][..i] == pool[..i];
      var (group, genes) := pool[i];
      if !genes.Arr? {
        message := message + GenePoolNotList(group);
      } else {
        var groupText := CheckGroup(group, genes.items);
        message := message + groupText;
      }
    }
    assert pool[..|pool|] == pool;
  }

  /** The rule-set loop of `validate_search_space`, with its `Start` flag. */
  method CheckRuleSet(rules: seq<(string, Json)>) returns (r: Result<string>, startFound: bool)
    ensures r == RuleSetText(rules)
    ensures r.Ok? ==> (startFound <==> StartFound(rules))
  {
    startFound := false;
    var message := "";
    for i := 0 to |rules|
      invariant RuleSetText(rules[..i]) == Ok(message)
      invariant startFound <==> StartFound(rules[..i])
    {
      assert rules[..i + 1][..i] == rules[..i];
      StartFoundSnoc(rules, i);
      var (ruleEntry, value) := rules[i];
      if !value.Obj? {
        RuleSetPrefixErr(rules, i + 1);
        return Err(AttributeError), startFound;
      }
      if !HasKey(value.fields, "rule") {
        message := message + RuleMissingLine;
      } else if ruleEntry == "Start" {
        startFound := true;
      }
    }
    assert rules[..|rules|] == rules;
    return Ok(message), startFound;
  }

  /** The group-rule loop of `validate_search_space`. */
  method CheckGroupRules(entries: seq<Json>) returns (message: string)
    ensures message == Concat(GroupRuleLines(entries))
  {
    message := "";
    for i := 0 to |entries|
      invariant message == Concat(GroupRuleLines(entries[..i]))
    {
      assert GroupRuleLines(entries[..i + 1]) == GroupRuleLines(entries[..i]) + [GroupRuleLine(entries[i])];
      ConcatAppend(GroupRuleLines(entries[..i]), GroupRuleLine(entries[i]));
      var groupEntry := entries[i];
      if !groupEntry.Obj? {
        message := message + GroupRuleNotDict;
      } else if !HasKey(groupEntry.fields, "group") {
        message := message + GroupRuleGroupMissing;
      } else if !HasKey(groupEntry.fields, "rule") {
        message := message + GroupRuleRuleMissing;
      }
    }
    assert entries[..|entries|] == entries;
  }

  method CheckSearchSpace(file: JsonFile) returns (r: Result<string>)
    ensures r == ValidateSearchSpace(file)
  {
    if file.Missing? {
      return Ok(SearchSpaceMissing);
    }
    var load := JsonToDict(file);
    if load == Err(JsonDecodeError) {
      return Ok(SearchSpaceInvalid);
    }
    assert load.Ok?;
    var data := load.value;
    var poolSection := Section(data, "gene_pool");
    if poolSection.Err? {
      return Err(poolSection.error);
    }
    if poolSection.value.None? {
      return Ok(GenePoolMissing);
    }
    var genePool := poolSection.value.value;
    if !genePool.Obj? {
      return Ok(GenePoolNotDict);
    }
    var rulesSection := Section(data, "rule_set");
    if rulesSection.Err? {
      return Err(rulesSection.error);
    }
    if rulesSection.value.None? {
      return Ok(RuleSetMissing);
    }
    var ruleSet := rulesSection.value.value;
    if !ruleSet.Obj? {
      return Ok(RuleSetNotDict);
    }
    var ruleSetGroup := GetOr(data.fields, "rule_set_group", Arr([]));
    if !ruleSetGroup.Arr? {
      return Ok(GroupsNotList);
    }
    var poolText := CheckGenePool(genePool.fields);
    var rulesText, startFound := CheckRuleSet(ruleSet.fields);
    if rulesText.Err? {
      return Err(rulesText.error);
    }
    var startText := "";
    if !startFound {
      startText := StartMissingLine;
    }
    var groupText := CheckGroupRules(ruleSetGroup.items);
    return Ok(poolText + rulesText.value + startText + groupText);
  }

  /** Every group value is a list of objects holding `layer` and `f_name`. */
  predicate WellFormedGroup(genes: Json)
  {
    genes.Arr? &&
    forall j :: 0 <= j < |genes.items| ==>
      genes.items[j].Obj? && HasKey(genes.items[j].fields, "layer") && HasKey(genes.items[j].fields, "f_name")
  }

  predicate WellFormedGenePool(pool: seq<(string, Json)>)
  {
    forall i :: 0 <= i < |pool| ==> WellFormedGroup(pool[i].1)
  }

  /** A group gives no line exactly when it is well formed. */
  lemma GroupTextSpec(group: string, genes: Json)
    ensures GroupText(group, genes) == "" <==> WellFormedGroup(genes)
  {
    if genes.Arr? {
      ConcatEmpty(GeneLines(group, genes.items));
    }
  }

  /** The gene-pool lines are absent exactly when the pool is well formed. */
  lemma {:induction false} GenePoolTextSpec(pool: seq<(string, Json)>)
    ensures GenePoolText(pool) == "" <==> WellFormedGenePool(pool)
    decreases |pool|
  {
    if |pool| > 0 {
      var init := pool[..|pool| - 1];
      GenePoolTextSpec(init);
      GroupTextSpec(pool[|pool| - 1].0, pool[|pool| - 1].1);
      assert forall i :: 0 <= i < |init| ==> init[i] == pool[i];
    }
  }

  /** The rule set can be checked exactly when every value is an object,
      and then gives no line exactly when every value holds `rule`. */
  lemma {:induction false} RuleSetTextSpec(rules: seq<(string, Json)>)
    ensures RuleSetText(rules).Ok? <==> forall i :: 0 <= i < |rules| ==> rules[i].1.Obj?
    ensures RuleSetText(rules).Err? ==> RuleSetText(rules).error == AttributeError
    ensures RuleSetText(rules) == Ok("") <==>
      forall i :: 0 <= i < |rules| ==> rules[i].1.Obj? && HasKey(rules[i].1.fields, "rule")
    decreases |rules|
  {
    if |rules| > 0 {
      var init := rules[..|rules| - 1];
      RuleSetTextSpec(init);
      assert forall i :: 0 <= i < |init| ==> init[i] == rules[i];
    }
  }

  /** The parsed search space passes exactly when it is an object with a
      well-formed gene pool, a rule set whose every entry holds `rule`, one
      of them named `Start`, and every group rule an object with `group` and
      `rule`. */
  lemma ValidateSearchSpaceSpec(data: Json)
    ensures ValidateSearchSpace(Parsed(data)) == Ok("") <==>
      && data.Obj?
      && HasKey(data.fields, "gene_pool")
      && Lookup(data.fields, "gene_pool").value.Obj?
      && WellFormedGenePool(Lookup(data.fields, "gene_pool").value.fields)
      && HasKey(data.fields, "rule_set")
      && Lookup(data.fields, "rule_set").value.Obj?
      && (forall i :: 0 <= i < |Lookup(data.fields, "rule_set").value.fields| ==>
            Lookup(data.fields, "rule_set").value.fields[i].1.Obj? &&
            HasKey(Lookup(data.fields, "rule_set").value.fields[i].1.fields, "rule"))
      && StartFound(Lookup(data.fields, "rule_set").value.fields)
      && GetOr(data.fields, "rule_set_group", Arr([])).Arr?
      && (forall i :: 0 <= i < |GetOr(data.fields, "rule_set_group", Arr([])).items| ==>
            GroupRuleLine(GetOr(data.fields, "rule_set_group", Arr([])).items[i]) == "")
  {
    SectionSpec(data, "gene_pool");
    SectionSpec(data, "rule_set");
    if data.Obj? && HasKey(data.fields, "gene_pool") && HasKey(data.fields, "rule_set") {
      var pool := Lookup(data.fields, "gene_pool").value;
      var rules := Lookup(data.fields, "rule_set").value;
      var groups := GetOr(data.fields, "rule_set_group", Arr([]));
      if pool.Obj? && rules.Obj? && groups.Arr? {
        GenePoolTextSpec(pool.fields);
        RuleSetTextSpec(rules.fields);
        ConcatEmpty(GroupRuleLines(groups.items));
      }
    }
  }

  /** Once the top-level checks pass, the run raises exactly when some
      rule-set value is not an object, and then raises AttributeError. */
  lemma SearchSpaceRaises(data: Json)
    requires data.Obj? && HasKey(data.fields, "gene_pool") && Lookup(data.fields, "gene_pool").value.Obj?
    requires HasKey(data.fields, "rule_set") && Lookup(data.fields, "rule_set").value.Obj?
    requires GetOr(data.fields, "rule_set_group", Arr([])).Arr?
    ensures ValidateSearchSpace(Parsed(data)).Err? <==>
      exists i :: 0 <= i < |Lookup(data.fields, "rule_set").value.fields| &&
        !Lookup(data.fields, "rule_set").value.fields[i].1.Obj?
    ensures ValidateSearchSpace(Parsed(data)).Err? ==> ValidateSearchSpace(Parsed(data)).error == AttributeError
  {
    SectionSpec(data, "gene_pool");
    SectionSpec(data, "rule_set");
    RuleSetTextSpec(Lookup(data.fields, "rule_set").value.fields);
  }

  /** Without an entry named `Start` that holds `rule`, the start line is in
      the message. */
  lemma StartLineSpec(data: Json)
    requires data.Obj? && HasKey(data.fields, "gene_pool") && Lookup(data.fields, "gene_pool").value.Obj?
    requires HasKey(data.fields, "rule_set") && Lookup(data.fields, "rule_set").value.Obj?
    requires GetOr(data.fields, "rule_set_group", Arr([])).Arr?
    requires !StartFound(Lookup(data.fields, "rule_set").value.fields)
    ensures ValidateSearchSpace(Parsed(data)).Ok? ==> Contains(ValidateSearchSpace(Parsed(data)).value, StartMissingLine)
  {
    SectionSpec(data, "gene_pool");
    SectionSpec(data, "rule_set");
    var pool := Lookup(data.fields, "gene_pool").value;
    var rules := Lookup(data.fields, "rule_set").value;
    var groups := GetOr(data.fields, "rule_set_group", Arr([]));
    if RuleSetText(rules.fields).Ok? {
      ContainsMiddle(GenePoolText(pool.fields) + RuleSetText(rules.fields).value, StartMissingLine,
        Concat(GroupRuleLines(groups.items)));
    }
  }

  // ------------------------------------------------------- crossover parents

  const CrossoverMissing := "Error crossover_parents.csv file: Config file 'crossover_parents.csv' not found."
  const CrossoverInvalid := "Error crossover_parents.csv file: Invalid CSV format in crossover_parents.csv."

  /** The head of every line about row `idx` (shown numbered from one). */
  function RowPrefix(idx: nat): string
  {
    "Error crossover_parents.csv file row " + IntToString(idx + 1) + ": "
  }

  /** A line about row `idx`. */
  function RowLine(idx: nat, text: string): (line: string)
    ensures |RowPrefix(idx)| <= |line| && line[..|RowPrefix(idx)|] == RowPrefix(idx)
  {
    RowPrefix(idx) + text
  }

  /** A cell read as a string; `x in NaN` is a TypeError. */
  function Cell(row: seq<Option<string>>, k: nat): Result<string>
    requires k < |row|
  {
    if row[k].None? then Err(TypeError) else Ok(row[k].value)
  }

  /** The generation number: the text before the first comma without its
      label. */
  function GenerationField(cell: string): string
  {
    ReplaceAll(Split(cell, ',')[0], "Generation: ", "")
  }

  function GenerationText(idx: nat, cell: string): (t: string)
    ensures t == "" <==> Contains(cell, "Generation: ") && IsDigits(GenerationField(cell))
    ensures Prefixed(RowPrefix(idx), t)
  {
    if Contains(cell, "Generation: ") then
      if IsDigits(GenerationField(cell)) then "" else RowLine(idx, "Generation should be a number.\n")
    else RowLine(idx, "'Generation' label not found.\n")
  }

  function ParentMissing(idx: nat, n: string): string
  {
    RowLine(idx, "Parent " + n + " is missing.\n")
  }

  function ParentValueNotNumber(idx: nat, n: string): string
  {
    RowLine(idx, "Parent " + n + " crossover value should be a number.\n")
  }

  function ParentLabelMissing(idx: nat, n: string): string
  {
    RowLine(idx, "'Parent_" + n + "' label not found.\n")
  }

  /** A parent cell (`n` is "1" or "2"): its name is the text before the
      first comma without `Parent_n: (`, its crossover value the text after
      it without `)`, both stripped; a labelled cell without a comma is an
      IndexError. */
  function ParentText(idx: nat, n: string, cell: string): Result<string>
  {
    if Contains(cell, "Parent_" + n + ": ") then
      var parts := Split(cell, ',');
      if |parts| < 2 then Err(IndexError)
      else
        var parent := Strip(ReplaceAll(parts[0], "Parent_" + n + ": (", ""));
        var value := Strip(ReplaceAll(parts[1], ")", ""));
        Ok((if parent == "" then ParentMissing(idx, n) else "") +
           (if IsDigits(value) then "" else ParentValueNotNumber(idx, n)))
    else Ok(ParentLabelMissing(idx, n))
  }

  function NewIndividualText(idx: nat, cell: string): (t: string)
    ensures t == "" <==> Contains(cell, "New_Individual: ") && Strip(ReplaceAll(cell, "New_Individual: ", "")) != ""
    ensures Prefixed(RowPrefix(idx), t)
  {
    if Contains(cell, "New_Individual: ") then
      if Strip(ReplaceAll(cell, "New_Individual: ", "")) == "" then RowLine(idx, "New Individual is missing.\n") else ""
    else RowLine(idx, "'New_Individual' label not found.\n")
  }

  /** The lines for one row. */
  function RowText(idx: nat, row: seq<Option<string>>): Result<string>
  {
    if |row| < 4 then Ok(RowLine(idx, "Not all columns are present.\n"))
    else
      var c0 :- Cell(row, 0);
      var c1 :- Cell(row, 1);
      var p1 :- ParentText(idx, "1", c1);
      var c2 :- Cell(row, 2);
      var p2 :- ParentText(idx, "2", c2);
      var c3 :- Cell(row, 3);
      Ok(GenerationText(idx, c0) + p1 + p2 + NewIndividualText(idx, c3))
  }

  /** Each row's lines, rows numbered by position. */
  function RowResults(rows: seq<seq<Option<string>>>): (rs: seq<Result<string>>)
    ensures |rs| == |rows|
    ensures forall i :: 0 <= i < |rows| ==> rs[i] == RowText(i, rows[i])
  {
    seq(|rows|, i requires 0 <= i < |rows| => RowText(i, rows[i]))
  }


  /** The row loop: the first row that raises ends it. */
  function RowsText(rows: seq<seq<Option<string>>>): Result<string>
  {
    var texts :- AllOk(RowResults(rows));
    Ok(Concat(texts))
  }


  /** `validate_crossover_parents`. */
  function ValidateCrossoverParents(file: CsvFile): Result<string>
  {
    match file
    case CsvMissing => Ok(CrossoverMissing)
    case CsvEmpty => Ok(CrossoverInvalid)
    case Frame(rows) => RowsText(rows)
  }

  /** One parent's checks, as the row loop makes them for each parent. */
  method CheckParent(idx: nat, n: string, cell: string) returns (r: Result<string>)
    ensures r == ParentText(idx, n, cell)
  {
    if !Contains(cell, "Parent_" + n + ": ") {
      return Ok(ParentLabelMissing(idx, n));
    }
    var parts := Split(cell, ',');
    if |parts| < 2 {
      return Err(IndexError);
    }
    var parent := Strip(ReplaceAll(parts[0], "Parent_" + n + ": (", ""));
    var value := Strip(ReplaceAll(parts[1], ")", ""));
    var missing := "";
    if parent == "" {
      missing := ParentMissing(idx, n);
    }
    var notNumber := "";
    if !IsDigits(value) {
      notNumber := ParentValueNotNumber(idx, n);
    }
    return Ok(missing + notNumber);
  }

  method CheckRow(idx: nat, row: seq<Option<string>>) returns (r: Result<string>)
    ensures r == RowText(idx, row)
  {
    if |row| < 4 {
      return Ok(RowLine(idx, "Not all columns are present.\n"));
    }
    if row[0].None? {
      return Err(TypeError);
    }
    var c0 := row[0].value;
    var generation := "";
    if Contains(c0, "Generation: ") {
      if !IsDigits(ReplaceAll(Split(c0, ',')[0], "Generation: ", "")) {
        generation := RowLine(idx, "Generation should be a number.\n");
      }
    } else {
      generation := RowLine(idx, "'Generation' label not found.\n");
    }
    if row[1].None? {
      return Err(TypeError);
    }
    var p1 := CheckParent(idx, "1", row[1].value);
    if p1.Err? {
      return Err(p1.error);
    }
    if row[2].None? {
      return Err(TypeError);
    }
    var p2 := CheckParent(idx, "2", row[2].value);
    if p2.Err? {
      return Err(p2.error);
    }
    if row[3].None? {
      return Err(TypeError);
    }
    var c3 := row[3].value;
    var newIndividual := "";
    if Contains(c3, "New_Individual: ") {
      if Strip(ReplaceAll(c3, "New_Individual: ", "")) == "" {
        newIndividual := RowLine(idx, "New Individual is missing.\n");
      }
    } else {
      newIndividual := RowLine(idx, "'New_Individual' label not found.\n");
    }
    return Ok(generation + p1.value + p2.value + newIndividual);
  }


  method CheckCrossoverParents(file: CsvFile) returns (r: Result<string>)
    ensures r == ValidateCrossoverParents(file)
  {
    if file.CsvMissing? {
      return Ok(CrossoverMissing);
    }
    if file.CsvEmpty? {
      return Ok(CrossoverInvalid);
    }
    var rows := file.rows;
    ghost var rs := RowResults(rows);
    var message := "";
    for idx := 0 to |rows|
      invariant AllOk(rs[..idx]).Ok? && message == Concat(AllOk(rs[..idx]).value)
    {
      var text := CheckRow(idx, rows[idx]);
      assert rs[..idx + 1][..idx] == rs[..idx];
      if text.Err? {
        AllOkPrefixErr(rs, idx + 1);
        return Err(text.error);
      }
      ConcatAppend(AllOk(rs[..idx]).value, text.value);
      message := message + text.value;
    }
    assert rs[..|rows|] == rs;
    return Ok(message);
  }



  /** A parent cell the checks accept: labelled, with a comma, a non-empty
      name and a digit crossover value. */
  predicate ParentOk(n: string, cell: string)
  {
    var parts := Split(cell, ',');
    && Contains(cell, "Parent_" + n + ": ") && |parts| >= 2
    && Strip(ReplaceAll(parts[0], "Parent_" + n + ": (", "")) != ""
    && IsDigits(Strip(ReplaceAll(parts[1], ")", "")))
  }

  /** A row the checks accept: four present cells carrying their labels, a
      digit generation, two acceptable parents and a non-empty new
      individual. */
  predicate RowOk(row: seq<Option<string>>)
  {
    && |row| >= 4 && row[0].Some? && row[1].Some? && row[2].Some? && row[3].Some?
    && Contains(row[0].value, "Generation: ") && IsDigits(GenerationField(row[0].value))
    && ParentOk("1", row[1].value) && ParentOk("2", row[2].value)
    && Contains(row[3].value, "New_Individual: ") && Strip(ReplaceAll(row[3].value, "New_Individual: ", "")) != ""
  }

  /** A parent cell gives no line exactly when it is acceptable, and any
      line it gives is about its row. */
  lemma ParentTextSpec(idx: nat, n: string, cell: string)
    ensures ParentText(idx, n, cell) == Ok("") <==> ParentOk(n, cell)
    ensures ParentText(idx, n, cell).Err? ==> ParentText(idx, n, cell).error == IndexError
    ensures ParentText(idx, n, cell).Ok? ==> Prefixed(RowPrefix(idx), ParentText(idx, n, cell).value)
  {
    var p := RowPrefix(idx);
    if Contains(cell, "Parent_" + n + ": ") && |Split(cell, ',')| >= 2 {
      var parts := Split(cell, ',');
      var a := if Strip(ReplaceAll(parts[0], "Parent_" + n + ": (", "")) == "" then ParentMissing(idx, n) else "";
      var b := if IsDigits(Strip(ReplaceAll(parts[1], ")", ""))) then "" else ParentValueNotNumber(idx, n);
      PrefixedOrEmpty(p, a, b, "", "");
      assert a + b + "" + "" == a + b;
    }
  }

  /** `s` is empty or starts with `p`. */
  predicate Prefixed(p: string, s: string)
  {
    s == "" || (|p| <= |s| && s[..|p|] == p)
  }

  /** A concatenation of parts that are each empty or start with `p` is
      empty or starts with `p`. */
  lemma PrefixedOrEmpty(p: string, a: string, b: string, c: string, d: string)
    requires Prefixed(p, a) && Prefixed(p, b) && Prefixed(p, c) && Prefixed(p, d)
    ensures Prefixed(p, a + b + c + d)
  {
    var s := a + b + c + d;
    if a != "" {
      assert s[..|p|] == a[..|p|];
    } else if b != "" {
      assert s == b + c + d;
      assert s[..|p|] == b[..|p|];
    } else if c != "" {
      assert s == c + d;
      assert s[..|p|] == c[..|p|];
    } else {
      assert s == d;
    }
  }

  /** A row gives no line exactly when it is acceptable; every line it gives
      starts with its number, which reads back as `idx + 1`. */
  lemma RowTextSpec(idx: nat, row: seq<Option<string>>)
    ensures RowText(idx, row) == Ok("") <==> RowOk(row)
    ensures RowText(idx, row).Ok? ==> Prefixed(RowPrefix(idx), RowText(idx, row).value)
    ensures RowText(idx, row).Err? ==> RowText(idx, row).error in {TypeError, IndexError}
    ensures ParseInt(IntToString(idx + 1)) == Some(idx + 1)
  {
    ParseIntToString(idx + 1);
    var p := RowPrefix(idx);
    if |row| >= 4 && row[0].Some? && row[1].Some? && row[2].Some? && row[3].Some? {
      ParentTextSpec(idx, "1", row[1].value);
      ParentTextSpec(idx, "2", row[2].value);
      if RowText(idx, row).Ok? {
        PrefixedOrEmpty(p, GenerationText(idx, row[0].value), ParentText(idx, "1", row[1].value).value,
          ParentText(idx, "2", row[2].value).value, NewIndividualText(idx, row[3].value));
      }
    } else if |row| >= 4 && row[0].Some? && row[1].Some? && row[2].Some? {
      ParentTextSpec(idx, "1", row[1].value);
      ParentTextSpec(idx, "2", row[2].value);
    } else if |row| >= 4 && row[0].Some? && row[1].Some? {
      ParentTextSpec(idx, "1", row[1].value);
    }
  }


  /** The file passes exactly when every row is acceptable; a missing cell
      in a used column is a TypeError, and a labelled parent cell without a
      comma an IndexError. */
  lemma RowsTextSpec(rows: seq<seq<Option<string>>>)
    ensures RowsText(rows) == Ok("") <==> forall i :: 0 <= i < |rows| ==> RowOk(rows[i])
    ensures RowsText(rows).Err? ==> RowsText(rows).error in {TypeError, IndexError}
  {
    var rs := RowResults(rows);
    AllOkSpec(rs);
    AllOkError(rs);
    if AllOk(rs).Ok? {
      ConcatEmpty(AllOk(rs).value);
    }
    forall i | 0 <= i < |rows|
      ensures RowText(i, rows[i]) == Ok("") <==> RowOk(rows[i])
      ensures RowText(i, rows[i]).Err? ==> RowText(i, rows[i]).error in {TypeError, IndexError}
    {
      RowTextSpec(i, rows[i]);
    }
  }




  // ------------------------------------------------------------ measurements

  const ResultsMissing := "Error config.json file: Missing 'results' key in config.json."
  const ResultsNotDict := "Error config.json file: Results must be a dictionary."

  function ResultNotDict(name: string): (line: string)
    ensures line != ""
  {
    "Error config.json file: Result '" + name + "' settings must be a dictionary.\n"
  }

  function ResultLine(name: string, details: Json): string
  {
    if !details.Obj? then ResultNotDict(name) else ""
  }

  function ResultLines(entries: seq<(string, Json)>): (ls: seq<string>)
    ensures |ls| == |entries|
    ensures forall i :: 0 <= i < |entries| ==> ls[i] == ResultLine(entries[i].0, entries[i].1)
  {
    seq(|entries|, i requires 0 <= i < |entries| => ResultLine(entries[i].0, entries[i].1))
  }

  function MeasInfoLoaded(load: Result<Json>): Result<string>
  {
    if load == Err(JsonDecodeError) then Ok(ConfigInvalid)
    else
      var data :- load;
      var results :- Section(data, "results");
      if results.None? then Ok(ResultsMissing)
      else if !results.value.Obj? then Ok(ResultsNotDict)
      else Ok(Concat(ResultLines(results.value.fields)))
  }

  /** `validate_meas_info`. */
  function ValidateMeasInfo(file: JsonFile): Result<string>
  {
    if file.Missing? then Ok(ConfigMissing) else MeasInfoLoaded(JsonToDict(file))
  }

  method CheckMeasInfo(file: JsonFile) returns (r: Result<string>)
    ensures r == ValidateMeasInfo(file)
  {
    if file.Missing? {
      return Ok(ConfigMissing);
    }
    var load := JsonToDict(file);
    if load == Err(JsonDecodeError) {
      return Ok(ConfigInvalid);
    }
    assert load.Ok?;
    var section := Section(load.value, "results");
    if section.Err? {
      return Err(section.error);
    }
    if section.value.None? {
      return Ok(ResultsMissing);
    }
    var results := section.value.value;
    if !results.Obj? {
      return Ok(ResultsNotDict);
    }
    var message := ResultMessages(results.fields);
    return Ok(message);
  }

  /** The loop over the results: one line per entry that is not an object. */
  method ResultMessages(entries: seq<(string, Json)>) returns (message: string)
    ensures message == Concat(ResultLines(entries))
  {
    message := "";
    for i := 0 to |entries|
      invariant message == Concat(ResultLines(entries[..i]))
    {
      var (result, details) := entries[i];
      ghost var line := ResultLine(result, details);
      assert ResultLines(entries[..i + 1]) == ResultLines(entries[..i]) + [line];
      ConcatAppend(ResultLines(entries[..i]), line);
      if !details.Obj? {
        message := message + ResultNotDict(result);
        continue;
      }
      assert message + line == message;
    }
    assert entries[..|entries|] == entries;
  }

  /** The measurement check passes exactly when `results` is an object of
      objects; it never looks inside an entry. Each entry that is not an
      object has its line, naming it, in the message. */
  lemma MeasInfoSpec(file: JsonFile, i: nat)
    ensures ValidateMeasInfo(file) == Ok("") <==>
      file.Parsed? && file.data.Obj? && HasKey(file.data.fields, "results") &&
      var rs := Lookup(file.data.fields, "results").value;
      rs.Obj? && forall k :: 0 <= k < |rs.fields| ==> rs.fields[k].1.Obj?
    ensures file.Parsed? && file.data.Obj? && HasKey(file.data.fields, "results") ==>
      var rs := Lookup(file.data.fields, "results").value;
      rs.Obj? && i < |rs.fields| && !rs.fields[i].1.Obj? ==>
        ValidateMeasInfo(file).Ok? && Contains(ValidateMeasInfo(file).value, ResultNotDict(rs.fields[i].0))
  {
    if file.Parsed? {
      SectionSpec(file.data, "results");
      if file.data.Obj? && HasKey(file.data.fields, "results") {
        var rs := Lookup(file.data.fields, "results").value;
        if rs.Obj? {
          ConcatEmpty(ResultLines(rs.fields));
          if i < |rs.fields| {
            ConcatContains(ResultLines(rs.fields), i);
          }
        }
      }
    }
  }

  // ------------------------------------------------------------ the finding

  /** As written, a config or search-space file that does not parse makes
      each JSON validator raise TypeError instead of returning its message. */
  lemma InvalidJsonRaises(noun: string)
    ensures HyperparametersLoaded(JsonToDictAsWritten(Invalid), noun) == Err(TypeError)
    ensures SearchSpaceLoaded(JsonToDictAsWritten(Invalid)) == Err(TypeError)
    ensures MeasInfoLoaded(JsonToDictAsWritten(Invalid)) == Err(TypeError)
  {
  }

  /** With the decoding error surfacing as such, each JSON validator reports
      an unparseable file with its own message, and loading agrees with the
      as-written loader on every file that parses. */
  lemma InvalidJsonReported(file: JsonFile, noun: string)
    ensures file.Invalid? ==> Hyperparameters(file, noun) == Ok(ConfigInvalid)
    ensures file.Invalid? ==> ValidateSearchSpace(file) == Ok(SearchSpaceInvalid)
    ensures file.Invalid? ==> ValidateMeasInfo(file) == Ok(ConfigInvalid)
    ensures file.Parsed? ==> JsonToDict(file) == JsonToDictAsWritten(file)
  {
  }
}
