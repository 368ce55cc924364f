# EvoVis core in Dafny

EvoVis is a dashboard for the results of evolutionary neural architecture
search (ENAS) runs. A run directory holds one sub-directory per generation,
one per individual inside it (a `results.json` and a `chromosome.json`), a
`config.json` (hyperparameters and measurement settings), a
`search_space.json` (gene pool, layer rules and group rules) and a
`crossover_parents.csv` log. This project models the part of EvoVis that
computes on that data. Each module below is written in the form its source
takes:

- **Crossover** (`crossover.dfy`): reading the crossover log, row by row, into
  the offspring dictionary and the parents table. Each cell is a label, then
  a parenthesised `name, point`.
- **Lineage** (`lineage.dfy`): the family tree of one individual inside a
  generation window.
  - The upstream pass is recursive over the offspring dictionary and yields
    elements and roots.
  - The downstream pass is a recursive method over the parents table. It
    marks an individual `extinct` when it has no children.
  - The merge de-duplicates the elements and roots in first-seen order.
- **GraphSearch** (`graphsearch.dfy`): the depth-first search that lists the
  layers connected to `Start`. It is a recursive method with a visited set
  and a result list, proved against a specification function.
- **GenePool** (`genepool.dfy`): the current search-space format.
  - The group map and the flattened genes.
  - The layer graph, optionally expanded by group rules, and the group graph.
  - The connected layers, and the Cytoscape elements of the gene-pool view.
- **Cytoscape** (`cytoscape.dfy`): node data, node collection and the
  edge-appending loops. These are shared by both search-space formats.
- **Legacy** (`searchspace.dfy`): the older list-based search-space format,
  with its own graph and view builders.
- **Convert** (`convert.dfy`): `convert_json`, which rewrites a current-format
  search space into the older format.
- **DataVal** (`dataval.dfy`) and **EnasDataCheck** (`enasdatacheck.dfy`): the
  validators of `config.json`, `search_space.json` and
  `crossover_parents.csv`, each returning a message that is empty exactly
  when the file is acceptable.
- **Evolution** (`evolution.dfy`) and **Utils** (`utils.dfy`): the
  result-aggregation helpers:
  - generation listing and generation-range checks
  - the healthy/unhealthy partition
  - the clamped minimum and maximum of a measure
  - measurement defaults
  - the best individual per generation
  - gene counting
  - the best and worst result of a measure

`utils.py` is an older copy of these helpers, and part of it behaves
differently. Where the two agree, one Dafny member models both. Where they
differ, `Utils` models the copy and proves how it relates to `Evolution`.

Shared support:

- `py.dfy` holds Python's values as the code sees them, in module **Py**:
  - JSON values, with dict order kept;
  - truthiness, and `==` against `True`/`False`;
  - dict lookups;
  - the exceptions the code can raise, as `Result` errors.
- `pystr.dfy` holds the string operations, in module **PyStr**: `replace`,
  `split`, `in`, `isdigit`, `title`, and `int()` parsing and
  formatting.
- `seqs.dfy` holds first-seen de-duplication, in module **Seqs**.
- `wrappers.dfy` holds `Option` and `Result`.

Files are inputs throughout. A parsed JSON document, the CSV rows and a
directory listing are given as values. Whether a file is missing or fails to
parse is given as a datatype case.

Where the documentation, the docstrings and the code disagree, the model
follows the code:

- **Upstream and downstream copies of a node.** An individual without
  children appears twice in its own family tree: once as an extinct node
  (downstream pass) and once as a non-extinct one (upstream pass). The merge
  removes only identical elements, so neither copy "wins"
  (`Lineage.FamilyTreeExtinct`).
- **Crossover points are strings.** A crossover point is the text between
  the first and second comma of the cleaned cell, leading space included. It
  is not parsed as an integer.
- **Results that are neither healthy nor unhealthy.** A result whose `error`
  is any string other than `"True"` or `"False"` ends up in neither list. An
  example is the exception message that `get_individual_result` stores.
  - The `utils.py` copy swaps the two lists.
  - It also raises `KeyError` for a result without `error`.
- **Unusable entries in the min/max helper.** The docstring of
  `_get_minmax_result_by_key` says a missing or non-numeric value raises
  `ValueError`. The code skips such entries instead.
- **Empty generation lists.** `get_generations` in `evolution.py` fails with
  `IndexError` on a run without generation directories. The `utils.py` copy
  returns an empty list.

## Model

| member | source | states |
|---|---|---|
| Crossover.ParseParentSpec | src/evolution.py:592-596 | a parent cell gives the name before the first comma and the text up to the next comma as crossover point; no comma is an IndexError |
| Crossover.GetCrossoverParents | src/evolution.py:586-606 | the row loop builds exactly the offspring dictionary defined row by row; the same logic also appears at src/family_tree.py:4-31, src/utils.py:564-591 |
| Crossover.CrossoverDictOk | src/evolution.py:588-604 | the dictionary exists exactly when every row parses |
| Crossover.CrossoverDictKeys | src/evolution.py:598-604 | its keys are exactly the offspring named by the rows |
| Crossover.CrossoverDictLastWins | src/evolution.py:598-604 | each offspring maps to the record of the last row naming it |
| Crossover.CrossoverDictError | src/evolution.py:588-596 | the first failing row's error is the result |
| Crossover.GenerationsSpec | src/evolution.py:623-628 | the generation column converts exactly when every cell is an integer, one value per row |
| Crossover.GetCrossoverTable | src/evolution.py:619-640 | the table loop yields the table defined row by row; the same logic also appears at src/family_tree.py:33-65 |
| Crossover.ParseRowAsTableRow | src/evolution.py:630-638 | a row parses the same way for the table as for the dictionary |
| Crossover.CrossoverTableOk | src/evolution.py:628-638 | the table exists exactly when the dictionary does |
| Crossover.CrossoverTableRows | src/evolution.py:630-640 | one table row per CSV row, carrying the dictionary's values for that row |
| Lineage.UpstreamStep | src/evolution.py:664-676 | above the window minimum a missing record is a KeyError; otherwise the node and both labelled parent edges are emitted |
| Lineage.UpstreamRoots | src/evolution.py:657-682 | there are 2^(gen - min) roots, each a node emitted at the window minimum |
| Lineage.UpstreamNodes | src/evolution.py:659-682 | upstream nodes are never extinct, carry the three-character label and lie inside the window |
| Lineage.UpstreamClosed | src/evolution.py:672-682 | the upstream tree holds its start node and every edge joins two of its nodes; the same logic also appears at src/family_tree.py:67-107 |
| Lineage.UpstreamTopClosed | src/evolution.py:657-682 | the same holds when the dictionary is read from the log |
| Lineage.MatchesSpec | src/evolution.py:702-706 | a child is selected exactly for a row whose parent cell on that side contains the individual, with that side's point |
| Lineage.ChildrenSpec | src/evolution.py:702-706 | the children are the parent-1 matches followed by the parent-2 matches |
| Lineage.SelectChildren | src/evolution.py:702-703 | one `str.contains` selection returns the matching offspring and crossover points in row order |
| Lineage.FindChildren | src/evolution.py:701-706 | the two selections concatenated give the children list and the crossover list |
| Lineage.GetDownstreamTree | src/evolution.py:684-726 | the recursive method returns the downstream elements defined by the recursion; the same logic also appears at src/family_tree.py:109-151, src/utils.py:673-715 |
| Lineage.DownstreamNodes | src/evolution.py:708-715 | every downstream node lies in the window, has the short label, and is extinct exactly when it has no child |
| Lineage.SubtreesNodes | src/evolution.py:721-724 | the same for the concatenated child subtrees |
| Lineage.DownstreamClosed | src/evolution.py:708-726 | the downstream tree holds the start node with its extinct flag, and every edge joins two of its nodes |
| Lineage.SubtreesClosed | src/evolution.py:721-724 | the child subtrees contain a node for every child and are closed under edges |
| Lineage.DownstreamTail | src/evolution.py:715-726 | below the window maximum the elements end with the node and one edge per child, in child order |
| Lineage.MergeSpec | src/evolution.py:751-758 | the merge keeps every element of both passes and every root exactly once, the downstream ones first, and keeps edges closed |
| Lineage.GetFamilyTree | src/evolution.py:728-760 | the method returns the family tree defined by the window default, the two passes and the merge; the same logic also appears at src/family_tree.py:153-185, src/utils.py:717-749 |
| Lineage.FamilyTreeOfSpec | src/evolution.py:748-760 | the merged tree is closed and holds both start nodes |
| Lineage.FamilyTree | src/evolution.py:743-760 | every edge of a family tree joins two of its nodes |
| Lineage.PassesClosed | src/evolution.py:747-760 | the merge of the two passes over one log keeps every edge between its nodes |
| Lineage.MergePasses | src/evolution.py:747-760 | past the window check, the method returns the merge of the two passes |
| Lineage.FamilyTreeExtinct | src/evolution.py:748-755 | an individual without children appears both as extinct and as not extinct |
| Lineage.FamilyTreeErrors | src/evolution.py:744-749 | an empty window is an IndexError; an individual missing from a readable log above the window minimum is a KeyError |
| GraphSearch.Dfs | src/genepool.py:223-249 | the recursive search hands back the visited set and result list of the search specification; the same logic also appears at src/search_space.py:136-144 |
| GraphSearch.Visit | src/genepool.py:244-249 | a search only ever adds to the visited set |
| GraphSearch.VisitGrows | src/genepool.py:244-249 | the start layer is visited, the result list is only appended to and stays consistent with the visited set |
| GraphSearch.VisitAllGrows | src/genepool.py:248-249 | the neighbour loop visits every neighbour and only appends |
| GraphSearch.VisitClosed | src/genepool.py:244-249 | every newly visited layer has all its targets visited |
| GraphSearch.VisitAllClosed | src/genepool.py:248-249 | the same for the neighbour loop |
| GraphSearch.VisitSound | src/genepool.py:244-249 | every newly visited layer is reachable from the start |
| GraphSearch.VisitAllSound | src/genepool.py:248-249 | every layer the loop newly visits is reachable from one of the neighbours |
| GraphSearch.ConnectedSpec | src/genepool.py:274-279 | the result starts with the start layer, has no layer twice, holds exactly the reachable layers and is closed under targets |
| GraphSearch.ConnectedExample | src/genepool.py:236-242 | the documented graph gives A, B, D, C, E |
| Cytoscape.NodeDataSpec | src/genepool.py:304-317 | a node has the layer as id, the layer with spaces for underscores as label, the group moved to parent, and every other member unchanged; the same logic also appears at src/search_space.py:162-174 |
| Cytoscape.NodeElements | src/genepool.py:352-373 | the gene loop returns the layer nodes, group nodes and group names of the collection specification |
| Cytoscape.CollectNodesShape | src/genepool.py:343-363 | the layer nodes start with the Start node, hold no node twice, and each carries a layer |
| Cytoscape.CollectNodesLayers | src/genepool.py:352-363 | the layer nodes are exactly the Start node and the nodes of the qualifying genes |
| Cytoscape.CollectNodesGroups | src/genepool.py:365-373 | one group name and group node per qualifying gene with a truthy group, repetitions kept |
| Cytoscape.AddLayerEdges | src/genepool.py:379-386 | the loop appends each new candidate layer edge from a connected layer |
| Cytoscape.AddGroupEdges | src/genepool.py:389-396 | the loop appends each new candidate group edge from a listed group |
| Cytoscape.LayerEdgeCandidatesSpec | src/genepool.py:381-386 | the candidates are exactly the edges from a connected layer to one of its rule targets |
| Cytoscape.GroupEdgeCandidatesSpec | src/genepool.py:391-396 | the candidates are exactly the edges from a listed group to one of its target groups |
| Cytoscape.AssembleSpec | src/genepool.py:375-398 | the view is the group nodes, then the layer nodes, then new distinct edges that are exactly the candidates not already present |
| GenePool.GroupEntrySpec | src/genepool.py:78-81 | a group's layer list exists exactly when each gene has a layer, and lists them in order |
| GenePool.GroupsOk | src/genepool.py:74-83 | without a gene pool the call fails; otherwise it succeeds exactly when every gene has a layer |
| GenePool.GroupsEntry | src/genepool.py:78-83 | each group maps to its genes' layers in order |
| GenePool.GetGenesFlattened | src/genepool.py:96-108 | the loops return the flattened gene list of the specification |
| GenePool.FlattenSpec | src/genepool.py:101-106 | the flattened list holds exactly each gene with its group name added as group |
| GenePool.FlattenLayout | src/genepool.py:101-106 | one entry per gene, in group-then-list order: gene j of group i, with its group's name, sits right after the genes of the earlier groups |
| GenePool.FlattenSize | src/genepool.py:101-106 | the flattened list is as long as the groups together |
| GenePool.FlattenAt | src/genepool.py:101-106 | gene j of group i is the entry at the offset of the earlier groups plus j |
| GenePool.GetLayerGraph | src/genepool.py:133-169 | the loops return the layer graph of the specification |
| GenePool.ExpandTargetsOf | src/genepool.py:155-167 | the loop over one group rule's targets returns that rule's expansion, failing as it does |
| GenePool.AddTargetsOf | src/genepool.py:163-167 | the source-layer loop appends the targets to every source layer's list |
| GenePool.LayerGraphPlain | src/genepool.py:141-149 | without group connections each rule-set layer maps to its own rule list and nothing else is a key |
| GenePool.AddTargetsSpec | src/genepool.py:163-167 | one expansion step adds the source layers as keys and the targets to each |
| GenePool.ExpandTargetsSpec | src/genepool.py:155-167 | one group rule adds every target group's layers to every source-group layer |
| GenePool.ExpandRulesOk | src/genepool.py:152-167 | the expansion succeeds when every rule with a target names a readable group |
| GenePool.ExpandRulesSpec | src/genepool.py:152-167 | after all group rules a layer's targets are its old ones plus those of every rule whose group holds it |
| GenePool.LayerGraphExpanded | src/genepool.py:151-169 | with group connections the keys and targets are the rule set's plus the group expansion, excluded group rules included |
| GenePool.LayerGraphError | src/genepool.py:152-175 | the expansion fails exactly when a rule with a target cannot be expanded, with the groups' error or a TypeError |
| GenePool.GetGroupGraph | src/genepool.py:196-213 | the loop returns the group graph of the specification |
| GenePool.GroupGraphOk | src/genepool.py:204-216 | the group graph exists exactly when every non-excluded rule names its group, else KeyError for group |
| GenePool.GroupGraphKeys | src/genepool.py:204-211 | its keys are distinct and are the groups of the non-excluded rules |
| GenePool.GroupGraphLastWins | src/genepool.py:207-211 | a group holds the targets of the last non-excluded rule naming it |
| GenePool.GetConnectedLayers | src/genepool.py:269-279 | the method returns the connected layers of the specification |
| GenePool.ConnectedLayersSpec | src/genepool.py:270-279 | a start layer absent from the graph is a ValueError; otherwise the result is the reachable layers, start first, none twice |
| GenePool.GetGenepool | src/genepool.py:341-398 | the method returns the elements and group names of the gene-pool view |
| GenePool.GenepoolNodes | src/genepool.py:343-376 | the view opens with one group node per qualifying gene with a group, then the Start node, and holds each qualifying gene's node |
| GenePool.GenepoolEdges | src/genepool.py:378-398 | after the nodes come new distinct edges, each a connected layer edge or a listed group edge |
| Legacy.GetGroups | src/search_space.py:17-31 | the loop returns the group map of the specification |
| Legacy.GroupsOfSpec | src/search_space.py:22-31 | the groups exist exactly when every gene names layer and group; a group lists its members' layers in order |
| Legacy.GetRuleGraph | src/search_space.py:57-68 | the loop returns the rule graph of the specification |
| Legacy.RuleGraphSpec | src/search_space.py:60-68 | the rule graph exists exactly when every non-excluded rule has layer and allowed_after; its keys are distinct, those rules' layers |
| Legacy.RuleGraphLastWins | src/search_space.py:60-68 | a layer holds the list of the last non-excluded rule naming it |
| Legacy.GetLayerGraph | src/search_space.py:54-94 | the method returns the layer graph of the specification |
| Legacy.ExpandTargetsOf | src/search_space.py:78-92 | the loop over one group rule's target groups returns that rule's expansion, failing as it does |
| Legacy.ExpandTargetsSpec | src/search_space.py:78-92 | one group rule adds the layers of each target group to every layer of its group |
| Legacy.ExpandRulesOk | src/search_space.py:75-92 | the expansion succeeds when every group rule is expandable |
| Legacy.ExpandRulesSpec | src/search_space.py:75-92 | after all group rules a layer's targets are its old ones plus those of every rule whose group holds it |
| Legacy.ExpandTargetsStuck | src/search_space.py:78-85 | a rule naming an unknown group fails |
| Legacy.ExpandRulesError | src/search_space.py:75-92 | the expansion succeeds exactly when every group rule is expandable |
| Legacy.LayerGraphSpec | src/search_space.py:54-94 | the plain graph is the rule graph; the expanded one exists exactly when the rules are expandable and adds the group expansion |
| Legacy.GetGroupGraph | src/search_space.py:113-131 | the loop returns the group graph of the specification |
| Legacy.GroupGraphSpec | src/search_space.py:119-129 | the group graph exists exactly when every non-excluded rule has group and allowed_after; its keys are those groups |
| Legacy.GetConnectedLayers | src/search_space.py:146-154 | the method returns the connected layers of the specification |
| Legacy.ConnectedLayersSpec | src/search_space.py:148-154 | the search succeeds exactly when the graph does, even from an unknown start, and yields the reachable layers |
| Legacy.GetCytoscapeElements | src/search_space.py:176-237 | the method returns the elements and group names of the older view |
| Legacy.CytoscapeElementsError | src/search_space.py:188-227 | once connected, the view fails exactly on a gene without layer or an unbuildable group graph |
| Legacy.CytoscapeElementsSpec | src/search_space.py:180-237 | a gene qualifies only with a present falsy exclude; group nodes, the Start node, layer nodes, then new distinct edges |
| Convert.GroupNameSpec | src/archive/convert_search_space.py:44 | a converted group name has no underscore and is unchanged by a second conversion; with ASCII title-casing it also keeps its length (see ## Left out) |
| Convert.ConvertGeneSpec | src/archive/convert_search_space.py:40-48 | a converted gene keeps layer, f_name and the unreserved members, sets exclude false and the group name; missing layer or f_name is a KeyError |
| Convert.ConvertGenesSpec | src/archive/convert_search_space.py:39-49 | one converted gene per input gene, in order |
| Convert.ConvertPoolSpec | src/archive/convert_search_space.py:38-49 | the pool converts exactly when every gene does, and holds exactly their conversions |
| Convert.ConvertPoolLayout | src/archive/convert_search_space.py:38-49 | the converted pool has one gene per input gene, in group-then-list order: gene j of group i sits right after the genes of the earlier groups |
| Convert.ConvertPoolSize | src/archive/convert_search_space.py:38-49 | the converted pool is as long as the input groups together |
| Convert.ConvertPoolAt | src/archive/convert_search_space.py:38-49 | gene j of group i is converted to the entry at the offset of the earlier groups plus j |
| Convert.ConvertRulesSpec | src/archive/convert_search_space.py:52-59 | the rule set converts exactly when every layer has rule, and holds exactly the entries made for the list elements |
| Convert.ConvertRulesLayout | src/archive/convert_search_space.py:52-59 | one entry per element of each rule list, in rule-set order and list order: element j of layer i sits right after the entries of the earlier layers |
| Convert.ConvertRulesSize | src/archive/convert_search_space.py:52-59 | the converted rule set is as long as the layers' rule lists together |
| Convert.ConvertRulesAt | src/archive/convert_search_space.py:52-59 | element j of layer i's rule list gives the entry at the offset of the earlier layers plus j |
| Convert.ConvertGroupsSpec | src/archive/convert_search_space.py:62-68 | group rules convert one to one, in order, renamed and not excluded |
| Convert.ConvertJson | src/archive/convert_search_space.py:30-70 | the loops return the converted document of the specification |
| Convert.ConvertedGenes | src/archive/convert_search_space.py:40-45 | converted genes are not excluded, so in the older view a gene gets a node exactly when its layer is connected |
| Convert.ConvertedValid | src/archive/convert_search_space.py:30-70 | the converted document is well formed when every layer is a string |
| Convert.ConvertedRuleGraph | src/archive/convert_search_space.py:52-59 | the older rule graph of a converted rule set keys exactly the layers whose own rule list names them |
| DataVal.JsonToDictAsWritten | src/dataval.py:37-45 | as written, a file that does not parse raises TypeError |
| DataVal.JsonToDict | src/dataval.py:29-31 | as documented, a file that does not parse raises JSONDecodeError; a parsed file gives its data |
| DataVal.SectionSpec | src/dataval.py:61-64 | looking up a section of a dict never fails; on a non-dict it fails unless the key test is false |
| DataVal.HyperparametersSpec | src/dataval.py:47-83 | the message is empty exactly for an object of objects each with value; invalid JSON gives its own message (corrected loader, see ## Findings) |
| DataVal.HyperparameterReported | src/dataval.py:73-81 | each hyperparameter's line is in the message |
| DataVal.CheckHyperparameters | src/dataval.py:47-83 | the checks return the message of the specification for the given wording (corrected loader, see ## Findings) |
| DataVal.HyperparameterMessages | src/dataval.py:72-83 | the loop builds one line per malformed hyperparameter, in order |
| DataVal.CheckHyperparametersSettings | src/dataval.py:47-83 | the validator returns the message of the specification (corrected loader, see ## Findings) |
| DataVal.CheckGroup | src/dataval.py:134-140 | the gene loop of one group builds its lines |
| DataVal.CheckGenePool | src/dataval.py:129-140 | the gene-pool loop builds its lines |
| DataVal.CheckRuleSet | src/dataval.py:142-152 | the rule-set loop builds its lines and the Start flag |
| DataVal.CheckGroupRules | src/dataval.py:157-164 | the group-rule loop builds its lines |
| DataVal.CheckSearchSpace | src/dataval.py:85-166 | the validator returns the message of the specification (corrected loader, see ## Findings) |
| DataVal.GroupTextSpec | src/dataval.py:131-140 | a group gives no line exactly when it is a list of dicts with layer and f_name |
| DataVal.GenePoolTextSpec | src/dataval.py:130-140 | the gene pool gives no line exactly when every group is well formed |
| DataVal.RuleSetTextSpec | src/dataval.py:145-152 | the rule set can be checked exactly when every value is a dict, and gives no line exactly when each has rule |
| DataVal.ValidateSearchSpaceSpec | src/dataval.py:101-166 | a parsed search space passes exactly when all sections are well formed and a Start rule exists (corrected loader, see ## Findings) |
| DataVal.SearchSpaceRaises | src/dataval.py:145-149 | past the top-level checks it raises exactly when a rule-set value is not a dict, with AttributeError |
| DataVal.StartLineSpec | src/dataval.py:154-155 | without a Start entry holding rule the start line is in the message |
| DataVal.CheckParent | src/dataval.py:200-210 | the parent checks of one row build its lines |
| DataVal.CheckRow | src/dataval.py:184-230 | the row checks build the row's lines |
| DataVal.CheckCrossoverParents | src/dataval.py:168-232 | the validator returns the message of the specification (corrected loader, see ## Findings) |
| DataVal.ParentTextSpec | src/dataval.py:200-222 | a parent cell gives no line exactly when acceptable; a labelled cell without comma is an IndexError |
| DataVal.RowTextSpec | src/dataval.py:184-230 | a row gives no line exactly when acceptable; its lines start with its 1-based number |
| DataVal.RowsTextSpec | src/dataval.py:184-232 | the file passes exactly when every row is acceptable; failures are TypeError or IndexError |
| DataVal.CheckMeasInfo | src/dataval.py:265-297 | the validator returns the message of the specification (corrected loader, see ## Findings) |
| DataVal.ResultMessages | src/dataval.py:288-297 | the loop builds one line per result entry that is not an object, in order |
| DataVal.MeasInfoSpec | src/dataval.py:278-297 | it passes exactly when results is a dict of dicts; each non-dict entry's line is in the message (corrected loader, see ## Findings) |
| DataVal.InvalidJsonRaises | src/dataval.py:55-58 | as written, each JSON validator raises TypeError on a file that does not parse |
| DataVal.InvalidJsonReported | src/dataval.py:95-98 | corrected, each validator reports an unparseable file with its own message |
| EnasDataCheck.CheckHyperparameters | src/enas_data_check.py:40-87 | the validator copy returns the message of its specification |
| EnasDataCheck.SameVerdict | src/enas_data_check.py:74-85 | the copy accepts and raises on the same files as the main validator |
| Evolution.LastGenerationFinished | src/evolution.py:142-147 | the flag loop returns the last-generation verdict |
| Evolution.GetGenerationsOf | src/evolution.py:137-155 | the method returns the generation listing of the specification |
| Evolution.TakeLastSpec | src/evolution.py:142-147 | the last generation is kept exactly when every individual has results with a non-null fitness |
| Evolution.GetGenerationsSpec | src/evolution.py:137-155 | the numbers are ascending and all the parsed ones, the largest dropped when unfinished; no generation is an IndexError |
| Evolution.GenerationNameNumber | src/evolution.py:152-155 | a generation name reads back as its number |
| Evolution.CheckGenerationRangeSpec | src/evolution.py:316-324 | a range passes exactly when non-empty inside 1..count; the default is all listed generations; the same logic also appears at src/utils.py:250-259 |
| Evolution.PartitionGenerationOf | src/evolution.py:458-466 | the inner loop returns one generation's two dicts |
| Evolution.PartitionResults | src/evolution.py:450-494 | the partition loops return the view of the specification for a given test |
| Evolution.HealthyIndividualsResults | src/evolution.py:432-494 | get_healthy_individuals_results returns the view with this module's health test |
| Evolution.FlattenOf | src/evolution.py:486-492 | the flattening loop returns the values of all the per-generation dicts |
| Evolution.ErrorFlagSpec | src/evolution.py:462-466 | healthy exactly when error is absent or false-like, unhealthy exactly when true-like, other strings neither |
| Evolution.PartitionGenerationSpec | src/evolution.py:453-466 | an entry is in the healthy or unhealthy dict exactly when it carries that verdict, never both |
| Evolution.PartitionSpec | src/evolution.py:453-466 | each generation keeps its place and number in both results |
| Evolution.FlattenSpec | src/evolution.py:486-492 | the flattened list holds exactly the values of the dicts |
| Evolution.FlattenLayout | src/evolution.py:486-492 | the flattened list keeps generation order and dict order: individual k of generation g sits right after the individuals of the earlier generations |
| Evolution.FlattenSize | src/evolution.py:486-492 | the flattened list has one entry per individual of every generation |
| Evolution.FlattenAt | src/evolution.py:486-492 | individual k of generation g is the entry at the offset of the earlier generations plus k |
| Evolution.HealthyListsSpec | src/evolution.py:482-494 | the lists exist exactly when every result is classified; a listed result carries its list's verdict |
| Evolution.HealthyListsOk | src/evolution.py:458-466 | with this test the lists exist exactly when every individual has results |
| Evolution.GetMinMaxResultByKey | src/evolution.py:342-385 | the loop returns the minimum and maximum of the specification; the same logic also appears at src/utils.py:277-320 |
| Evolution.ClampSpec | src/evolution.py:376-380 | a clamped value is within ordered boundaries and unchanged when already inside |
| Evolution.ClampedSpec | src/evolution.py:371-380 | one clamped value per entry with a numeric value under the key, and nothing else |
| Evolution.LowestSpec | src/evolution.py:368-383 | the running minimum is the least value, infinity for none |
| Evolution.HighestSpec | src/evolution.py:368-383 | the running maximum is the greatest value, minus infinity for none |
| Evolution.MinMaxSpec | src/evolution.py:365-385 | None, None only for an empty list; inf, -inf when nothing qualifies; else the extremes of the clamped values; the same logic also appears at src/utils.py:300-320 |
| Evolution.MinMaxExample | src/evolution.py:359-363 | the documented example gives 3 and 4 |
| Evolution.GetMeasInfo | src/evolution.py:85-98 | the loop completes each setting in place as the specification says |
| Evolution.DefaultedSpec | src/evolution.py:89-96 | one default assignment sets its key to the old value or the default and touches nothing else |
| Evolution.ApplyDefaultsSpec | src/evolution.py:89-93 | a run of default assignments with distinct keys does so for every key |
| Evolution.WithIconSpec | src/evolution.py:94 | the icon falls back to measure1-icon.png when absent or falsy, and nothing else changes |
| Evolution.WithDefaultsSpec | src/evolution.py:88-96 | every default key ends with its given value or its default, other keys are unchanged, key order is kept |
| Evolution.MeasInfoSpec | src/evolution.py:85-98 | the call succeeds exactly when results is a dict of dicts, keeps names and order, and completes each setting |
| Evolution.BestOfGenerationOf | src/evolution.py:511-534 | the inner loop returns the generation's best of the specification |
| Evolution.GetBestIndividuals | src/evolution.py:496-537 | the loops return one best entry per generation; the same logic also appears at src/utils.py:403-443 |
| Evolution.BestOfGenerationSpec | src/evolution.py:513-528 | the best fitness is at least 0 and every other; none above 0 means no best; else the first reaching the maximum; the same logic also appears at src/utils.py:420-435 |
| Evolution.BestOfGenerationOk | src/evolution.py:518-528 | the scan fails exactly when a result lacks a numeric fitness, given every chromosome |
| Evolution.BestIndividualsSpec | src/evolution.py:511-536 | one entry per generation with that generation's best |
| Evolution.CountInOf | src/evolution.py:557-560 | the gene loop returns the count of the specification |
| Evolution.NumberOfGenes | src/evolution.py:552-562 | the counting loop returns the count of the specification; the same logic also appears at src/utils.py:460-470 |
| Evolution.IsLayer | src/evolution.py:559 | a gene compares when it is a dict with a `layer`, is a TypeError when not a dict, a KeyError without the key |
| Evolution.CountInSpec | src/evolution.py:557-560 | a chromosome counts exactly when every gene has a layer, giving the occurrences of the name |
| Evolution.CountGenesAppend | src/evolution.py:554-562 | counts over two runs of chromosomes add up; a failure in the first is the whole's |
| Evolution.CountGenesSingle | src/evolution.py:555-560 | an absent chromosome counts 0; a list counts its matching genes; a number is a TypeError |
| Utils.GetGenerationsSpec | src/utils.py:72-82 | ascending parsed numbers; agrees with the evolution module when the last generation is finished, else has one more |
| Utils.HealthyIndividualsResults | src/utils.py:365-401 | the older get_healthy_individuals_results returns the view with its inverted test |
| Utils.InvertedFlagSpec | src/utils.py:377-385 | "True" is healthy and "False" unhealthy, booleans neither, a missing error is a KeyError: each differs from the evolution module |
| Utils.HealthyListsOk | src/utils.py:372-385 | the lists exist exactly when every individual has results with error |
| Utils.ScanGenerationOf | src/utils.py:832-840 | the inner scan loop returns the specification's value |
| Utils.ScanResults | src/utils.py:831-840 | the nested scan loops return the specification's value |
| Utils.GetIndividualsBestResult | src/utils.py:807-842 | the best-result scan of the specification |
| Utils.GetIndividualsWorstResult | src/utils.py:844-879 | the worst-result scan of the specification |
| Utils.ScanGenerationSpec | src/utils.py:832-840 | one generation: ok exactly when every individual has results; the value is at least as good as each, and kept or strictly better |
| Utils.ScanSpec | src/utils.py:827-842 | all generations: the value beats the sentinel and every value, and is the sentinel or found at a named individual |
| Utils.BestResultSpec | src/utils.py:822-842 | an unknown measure is an AssertionError; else the largest accuracy or fitness above 0, or the smallest other measure below 100000000 |
| Utils.WorstResultSpec | src/utils.py:859-879 | the smallest accuracy or fitness below 1, or the largest other measure above 0 |

## Left out

- GroupNameSpec (Convert.GroupNameSpec): the length clause holds only for
  the ASCII-level title-casing the model uses. Python's `str.title()` works
  on Unicode case classes. It can lengthen a string (`'ß'.title()` is
  `'Ss'`), and it treats non-ASCII letters as cased, which `PyStr.IsCased`
  does not. So `'élan_vital'` is `Élan Vital` in Python but `éLan Vital` in
  the model. The same gap reaches `Convert.GroupName`, `Convert.ConvertGene`,
  `Convert.ConvertGroups` and `Convert.ConvertJson`.
- PyStr.Title: ASCII letters only (see `PyStr.IsCased`); Unicode casing and
  case mappings that change length are not modelled.
- PyStr.IsDigits: ASCII `0`-`9` only. Python's `str.isdigit()` also accepts
  other Unicode digits, such as `'²'` and `'١'`. On such a cell the
  crossover-log checks in `DataVal` (`DataVal.GenerationText`,
  `DataVal.CheckParent`, `DataVal.CheckRow`, `DataVal.RowTextSpec`) report
  "should be a number", and the source does not.
- PyStr.ParseInt: a sign and ASCII digits only. Python's `int()` also
  accepts underscores between digits (`int('1_0') == 10`) and other Unicode
  decimal digits (`int('١') == 1`). The model gives `None` for those, and so
  do `Crossover.GenerationOf` and `Evolution.GenerationNumber`.

- **I/O.** All file system and parser access is left out: `os.path.exists`,
  `os.listdir`, `os.path.isdir`, `open`, `json.load`, `pd.read_csv`. The
  parsed contents, the listings and whether a file is missing or invalid are
  inputs.
- **What pandas infers.** `pd.read_csv` type and column inference is not
  modelled. In `DataVal`'s crossover-log check (`DataVal.CsvFile`'s `Frame`)
  a CSV row is a sequence of optional cells, and a missing cell (NaN) is
  `None`. The other readers of that log take present string cells; see
  `Crossover.CsvRow` below.
- Crossover.CsvRow: all four cells are present strings, so the NaN paths of
  `_get_crossover_parents` and `_get_crossover_parents_df` are not modelled.
  On a missing cell the source raises AttributeError (`.replace` on a float,
  src/evolution.py:589-593 and src/utils.py:574-578), ValueError (`astype('int64')`
  on NaN, src/evolution.py:628) or AttributeError (src/evolution.py:632-633),
  and the model has no such row. The family-tree page runs
  `validate_crossover_parents` first (src/pages/family_tree_page.py:388), and
  that check's TypeError on a NaN cell (src/dataval.py:191) is modelled by
  `DataVal.Cell` and `DataVal.CheckRow`. The same gap reaches
  `Crossover.CrossoverDict`, `Crossover.GetCrossoverParents`,
  `Crossover.CrossoverTable`, `Crossover.GetCrossoverTable` and the lineage
  functions built on them.
- **Regular-expression matching.** `str.contains` is modelled as substring
  search. Identifiers containing regular-expression metacharacters therefore
  match differently.
- **`+=` aliasing in the layer graphs.** In `_get_layer_graph` and
  `get_layer_graph`, `graph[src] += target_layers` can extend a list object
  that several layers share. The model concatenates plain values. This has
  two consequences the model does not show.
  - After `graph[src] = target_layers` (src/genepool.py:167,
    src/search_space.py:92) several layers, and the group list itself, hold
    the same list. A later `+=` on one of them extends all of them, so in the
    source the target sets can differ from the model's, not only the
    multiplicities.
  - A group rule whose target group is its own source group
    (src/genepool.py:159-161, src/search_space.py:84-85) makes
    `source_layers` and `target_layers` the same list. If that group lists a
    layer twice and the layer has no `rule_set` entry, the first visit
    stores the list itself and the second runs `L += L` while `L` is being
    iterated. `L` then keeps doubling and the source never terminates. The
    model returns a finite graph.
- **Dicts.** A JSON dict is a list of key/value pairs. Duplicate keys in a
  file (`json.load` keeps the last one) are not modelled.
- **Outside the core.**
  - printing, `random`, colour scales and page code.
  - `get_unique_genes`, `get_random_individual`, `report` and
    `validate_generations_of_individuals` (which is only directory listing).
  - `validate_individual_result` and `validate_individual_chromosome`.
- **Reading files per individual.** `get_individual_result`,
  `get_individual_chromosome` and `_get_individuals_of_generation` are file
  reads. Their results are inputs (an `IndResult` per individual).
  - The averaging of nested numeric dicts in `get_individual_result` is not
    modelled.
- **`get_individuals`.**
  - Only its range validation is modelled.
  - The `value` argument check is not modelled.
  - Ranges with a step other than 1 are not modelled.
  - Non-`range` arguments are the `NotARange` case.
- **`get_individuals_min_max`** in both `evolution.py` and `utils.py` is
  not modelled. It reads the boundaries under `min_boundary`/`max_boundary`,
  while `get_meas_info` writes `min-boundary`/`max-boundary`, so the
  boundaries it passes are always `None`. The min/max helper it calls is
  modelled with arbitrary boundaries.
- **`get_healthy_individuals_results`** also reads the measurement names,
  which it never uses. That read is not modelled.
- **`get_meas_info` in `utils.py`** returns `configs["results"]` unchanged.
  It has no logic to model.
- **Input validation in `get_generations`.** Both copies check that the run
  directory exists (`FileNotFoundError`) and that `as_int` is a boolean.
  Neither check is modelled: the directory is given, and `asInt` is a
  `bool`.
- **Lineage.GetFamilyTree** requires a given window to contain the starting
  generation. The only caller, src/pages/family_tree_page.py:168, builds the
  window from an ordered range slider, so the requirement always holds
  there. The source's behaviour outside the window is not modelled. If the
  start lies below the window, the upstream pass never reaches the minimum.
  It fails with a `KeyError` at a first-generation individual, which has no
  crossover row. If the start lies above the window, the downstream pass
  ignores the maximum. It continues until it reaches individuals without
  children.
- **Lineage** takes the parsed log as its input once. The source re-reads the
  CSV at every recursive step, which reads the same data.
- **Lineage error order.** An error in a CSV row surfaces in the model at the
  first read, in pass order. The exact recursion step at which the source
  meets it is not modelled.
- **GenePool.GetLayerGraph and Legacy.GetLayerGraph**: the `KeyError` and
  `TypeError` handlers re-raise with another message. The model keeps only
  the exception kind.
- **Strings in the search space.** Layer and group identifiers are strings. A
  non-string identifier (an unhashable list, say) is excluded by the
  well-formedness predicate `ValidDoc`.
- **Numbers.** Measures are reals. Python floating-point rounding, NaN and
  the difference between `int` and `float` (other than `type(x) == int`
  excluding booleans) are not modelled.

## Findings

| source | as written | input that shows it | evidently intended | confidence | as-written member | corrected member |
|---|---|---|---|---|---|---|
| src/dataval.py:44-45 | `json_to_dict` re-raises a decoding error as `json.JSONDecodeError(msg)` with one argument. That constructor also demands the document and the position, so the re-raise itself raises `TypeError`, and the validators' `except json.JSONDecodeError` never catches it | a `config.json` containing `{` | the decoding error reaches the validators, which return "Invalid JSON format" | not executed | DataVal.JsonToDictAsWritten, DataVal.InvalidJsonRaises | DataVal.JsonToDict, DataVal.InvalidJsonReported |
