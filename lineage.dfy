/** The family tree of one individual: an upstream pass to its ancestors at
    the start of the generation window, a downstream pass to its descendants
    at the end of the window, and a first-seen merge of the two. */
module Lineage {

  import opened Wrappers
  import opened Py
  import opened PyStr
  import opened Seqs
  import opened Crossover

  /** A cytoscape element: an individual's node or a parent-to-child edge
      labelled with the crossover point. Equal values are equal dicts. */
  datatype Element =
    | Node(id: string, caption: string, generation: int, extinct: bool)
    | Edge(source: string, target: string, edgeLabel: string)

  /** The elements of a tree and the ids of its root individuals. */
  datatype Tree = Tree(elements: seq<Element>, roots: seq<string>)

  /** `range(start, stop)`: the window of generations shown. */
  datatype Window = Window(start: int, stop: int)

  /** The node of an individual: its label is the first three characters. */
  function NodeOf(ind: string, gen: int, extinct: bool): Element
  {
    Node(ind, Prefix(ind, 3), gen, extinct)
  }

  function Pow2(n: nat): nat
  {
    if n == 0 then 1 else 2 * Pow2(n - 1)
  }

  /** Some node of `els` has the id `id`. */
  predicate HasNode(els: seq<Element>, id: string)
  {
    exists e :: e in els && e.Node? && e.id == id
  }

  /** Both ends of every edge are nodes of the same element list. */
  predicate EdgesClosed(els: seq<Element>)
  {
    forall e :: e in els && e.Edge? ==> HasNode(els, e.source) && HasNode(els, e.target)
  }

  lemma HasNodeAppend(a: seq<Element>, b: seq<Element>, id: string)
    ensures HasNode(a, id) ==> HasNode(a + b, id)
    ensures HasNode(b, id) ==> HasNode(a + b, id)
  {
    if HasNode(a, id) {
      var n :| n in a && n.Node? && n.id == id;
      assert n in a + b;
    }
    if HasNode(b, id) {
      var n :| n in b && n.Node? && n.id == id;
      assert n in a + b;
    }
  }

  /** Appending elements whose edges end at nodes of the whole list keeps
      the list closed. */
  lemma ClosedAppend(a: seq<Element>, b: seq<Element>)
    requires EdgesClosed(a)
    requires forall e :: e in b && e.Edge? ==> HasNode(a + b, e.source) && HasNode(a + b, e.target)
    ensures EdgesClosed(a + b)
  {
    forall e | e in a + b && e.Edge? ensures HasNode(a + b, e.source) && HasNode(a + b, e.target) {
      if e in a {
        HasNodeAppend(a, b, e.source);
        HasNodeAppend(a, b, e.target);
      }
    }
  }

  lemma ClosedConcat(a: seq<Element>, b: seq<Element>)
    requires EdgesClosed(a) && EdgesClosed(b)
    ensures EdgesClosed(a + b)
  {
    forall e | e in b && e.Edge? ensures HasNode(a + b, e.source) && HasNode(a + b, e.target) {
      HasNodeAppend(a, b, e.source);
      HasNodeAppend(a, b, e.target);
    }
    ClosedAppend(a, b);
  }

  // ---------------------------------------------------------------- upstream

  /** The upstream recursion on an already read crossover dictionary:
      at the window minimum a single node and root; above it, the parents'
      trees around the node and its two parent edges. */
  function UpstreamOn(d: map<string, Record>, gen: int, ind: string, minGen: int): Result<Tree>
    requires minGen <= gen
    decreases gen - minGen
  {
    if minGen == gen then Ok(Tree([NodeOf(ind, gen, false)], [ind]))
    else if ind !in d then Err(KeyError(ind))
    else
      var rec := d[ind];
      var own := [NodeOf(ind, gen, false), Edge(rec.parent1, ind, rec.crossover1),
                  Edge(rec.parent2, ind, rec.crossover2)];
      var t1 :- UpstreamOn(d, gen - 1, rec.parent1, minGen);
      var t2 :- UpstreamOn(d, gen - 1, rec.parent2, minGen);
      Ok(Tree(t1.elements + own + t2.elements, t1.roots + t2.roots))
  }

  /** `_get_upstream_tree`: the crossover log is read only above the window
      minimum, so a malformed log is reported only there. */
  function Upstream(rows: seq<CsvRow>, gen: int, ind: string, minGen: int): Result<Tree>
    requires minGen <= gen
  {
    if minGen == gen then Ok(Tree([NodeOf(ind, gen, false)], [ind]))
    else
      var d :- CrossoverDict(rows);
      UpstreamOn(d, gen, ind, minGen)
  }

  /** Above the window minimum the individual must have a record; with one,
      the tree holds its node and both labelled parent edges. */
  lemma UpstreamStep(d: map<string, Record>, gen: int, ind: string, minGen: int)
    requires minGen < gen
    ensures ind !in d ==> UpstreamOn(d, gen, ind, minGen) == Err(KeyError(ind))
    ensures UpstreamOn(d, gen, ind, minGen).Ok? ==>
      ind in d &&
      NodeOf(ind, gen, false) in UpstreamOn(d, gen, ind, minGen).value.elements &&
      Edge(d[ind].parent1, ind, d[ind].crossover1) in UpstreamOn(d, gen, ind, minGen).value.elements &&
      Edge(d[ind].parent2, ind, d[ind].crossover2) in UpstreamOn(d, gen, ind, minGen).value.elements
  {
  }

  /** The roots: `2^(gen - min)` of them, each the id of a node emitted at the
      window minimum. */
  lemma {:induction false} UpstreamRoots(d: map<string, Record>, gen: int, ind: string, minGen: int)
    requires minGen <= gen
    ensures UpstreamOn(d, gen, ind, minGen).Ok? ==>
      var t := UpstreamOn(d, gen, ind, minGen).value;
      |t.roots| == Pow2(gen - minGen) &&
      forall r :: r in t.roots ==> NodeOf(r, minGen, false) in t.elements
    decreases gen - minGen
  {
    if minGen < gen && UpstreamOn(d, gen, ind, minGen).Ok? {
      var rec := d[ind];
      UpstreamRoots(d, gen - 1, rec.parent1, minGen);
      UpstreamRoots(d, gen - 1, rec.parent2, minGen);
    }
  }

  /** Every upstream node is not extinct, carries its three-character label,
      and lies between the window minimum and the start generation. */
  lemma {:induction false} UpstreamNodes(d: map<string, Record>, gen: int, ind: string, minGen: int)
    requires minGen <= gen
    ensures UpstreamOn(d, gen, ind, minGen).Ok? ==>
      forall e :: e in UpstreamOn(d, gen, ind, minGen).value.elements && e.Node? ==>
        !e.extinct && e.caption == Prefix(e.id, 3) && minGen <= e.generation <= gen
    decreases gen - minGen
  {
    if minGen < gen && UpstreamOn(d, gen, ind, minGen).Ok? {
      var rec := d[ind];
      UpstreamNodes(d, gen - 1, rec.parent1, minGen);
      UpstreamNodes(d, gen - 1, rec.parent2, minGen);
    }
  }

  /** One upstream step on plain lists: the node between the parents' trees
      with its two parent edges keeps the edges closed. */
  lemma UpstreamJoinClosed(t1: seq<Element>, t2: seq<Element>, p1: string, p2: string, ind: string,
                           gen: int, c1: string, c2: string)
    requires EdgesClosed(t1) && EdgesClosed(t2)
    requires NodeOf(p1, gen - 1, false) in t1 && NodeOf(p2, gen - 1, false) in t2
    ensures EdgesClosed(t1 + [NodeOf(ind, gen, false), Edge(p1, ind, c1), Edge(p2, ind, c2)] + t2)
  {
    var own := [NodeOf(ind, gen, false), Edge(p1, ind, c1), Edge(p2, ind, c2)];
    var all := t1 + own + t2;
    assert HasNode(all, p1) by { assert NodeOf(p1, gen - 1, false) in all; }
    assert HasNode(all, p2) by { assert NodeOf(p2, gen - 1, false) in all; }
    assert HasNode(all, ind) by { assert NodeOf(ind, gen, false) in all; }
    forall e | e in all && e.Edge? ensures HasNode(all, e.source) && HasNode(all, e.target) {
      if e in t1 {
        HasNodeAppend(t1, own + t2, e.source);
        HasNodeAppend(t1, own + t2, e.target);
        assert t1 + (own + t2) == all;
      } else if e in t2 {
        HasNodeAppend(t1 + own, t2, e.source);
        HasNodeAppend(t1 + own, t2, e.target);
      }
    }
  }

  /** The upstream tree contains the node of its start individual, and both
      ends of every edge are nodes of the tree. */
  lemma {:induction false} UpstreamClosed(d: map<string, Record>, gen: int, ind: string, minGen: int)
    requires minGen <= gen
    ensures UpstreamOn(d, gen, ind, minGen).Ok? ==>
      var els := UpstreamOn(d, gen, ind, minGen).value.elements;
      NodeOf(ind, gen, false) in els && EdgesClosed(els)
    decreases gen - minGen
  {
    if minGen < gen && UpstreamOn(d, gen, ind, minGen).Ok? {
      var rec := d[ind];
      UpstreamClosed(d, gen - 1, rec.parent1, minGen);
      UpstreamClosed(d, gen - 1, rec.parent2, minGen);
      var t1 := UpstreamOn(d, gen - 1, rec.parent1, minGen).value.elements;
      var t2 := UpstreamOn(d, gen - 1, rec.parent2, minGen).value.elements;
      var own := [NodeOf(ind, gen, false), Edge(rec.parent1, ind, rec.crossover1),
                  Edge(rec.parent2, ind, rec.crossover2)];
      assert UpstreamOn(d, gen, ind, minGen).value.elements == t1 + own + t2;
      UpstreamJoinClosed(t1, t2, rec.parent1, rec.parent2, ind, gen, rec.crossover1, rec.crossover2);
      assert NodeOf(ind, gen, false) in t1 + own + t2;
    }
  }

  // -------------------------------------------------------------- downstream

  /** The parent cell of a row on one side (1 or 2) and its crossover point. */
  function ParentCell(r: TableRow, side1: bool): string
  {
    if side1 then r.parent1 else r.parent2
  }

  function CrossoverCell(r: TableRow, side1: bool): string
  {
    if side1 then r.crossover1 else r.crossover2
  }

  /** The offspring and crossover points of the rows whose parent cell on
      one side contains `ind` as a substring, in row order. */
  function Matches(t: seq<TableRow>, ind: string, side1: bool): seq<(string, string)>
    decreases |t|
  {
    if |t| == 0 then []
    else
      var r := t[|t| - 1];
      Matches(t[..|t| - 1], ind, side1) +
        (if Contains(ParentCell(r, side1), ind) then [(r.individual, CrossoverCell(r, side1))] else [])
  }

  function Matches1(t: seq<TableRow>, ind: string): seq<(string, string)>
  {
    Matches(t, ind, true)
  }

  function Matches2(t: seq<TableRow>, ind: string): seq<(string, string)>
  {
    Matches(t, ind, false)
  }

  /** The children of `ind` with the crossover point of each edge: parent-1
      matches first, then parent-2 matches. */
  function Children(t: seq<TableRow>, ind: string): seq<(string, string)>
  {
    Matches1(t, ind) + Matches2(t, ind)
  }

  /** A child is listed exactly for a row naming `ind` in the parent cell of
      that side, with the crossover point of that side. */
  lemma {:induction false} MatchesSpec(t: seq<TableRow>, ind: string, side1: bool, c: (string, string))
    ensures c in Matches(t, ind, side1) <==>
      exists i :: 0 <= i < |t| && Contains(ParentCell(t[i], side1), ind) &&
        c == (t[i].individual, CrossoverCell(t[i], side1))
    decreases |t|
  {
    if |t| > 0 {
      var init := t[..|t| - 1];
      MatchesSpec(init, ind, side1, c);
      if exists i :: 0 <= i < |t| && Contains(ParentCell(t[i], side1), ind) &&
           c == (t[i].individual, CrossoverCell(t[i], side1)) {
        var i :| 0 <= i < |t| && Contains(ParentCell(t[i], side1), ind) &&
           c == (t[i].individual, CrossoverCell(t[i], side1));
        if i < |init| { assert t[i] == init[i]; }
      }
      if c in Matches(init, ind, side1) {
        var i :| 0 <= i < |init| && Contains(ParentCell(init[i], side1), ind) &&
           c == (init[i].individual, CrossoverCell(init[i], side1));
        assert t[i] == init[i];
      }
    }
  }

  /** The children of `ind`: the rows whose parent-1 cell contains it, then
      the rows whose parent-2 cell does, with the matching side's point. */
  lemma ChildrenSpec(t: seq<TableRow>, ind: string, c: (string, string))
    ensures c in Children(t, ind) <==>
      (exists i :: 0 <= i < |t| && Contains(t[i].parent1, ind) && c == (t[i].individual, t[i].crossover1)) ||
      (exists i :: 0 <= i < |t| && Contains(t[i].parent2, ind) && c == (t[i].individual, t[i].crossover2))
    ensures Children(t, ind)[..|Matches1(t, ind)|] == Matches1(t, ind)
  {
    MatchesSpec(t, ind, true, c);
    MatchesSpec(t, ind, false, c);
  }

  /** The first components of a list of pairs. */
  function Ids(ps: seq<(string, string)>): (r: seq<string>)
    ensures |r| == |ps|
    ensures forall k :: 0 <= k < |ps| ==> r[k] == ps[k].0
    decreases |ps|
  {
    if |ps| == 0 then [] else Ids(ps[..|ps| - 1]) + [ps[|ps| - 1].0]
  }

  /** The second components of a list of pairs. */
  function Labels(ps: seq<(string, string)>): (r: seq<string>)
    ensures |r| == |ps|
    ensures forall k :: 0 <= k < |ps| ==> r[k] == ps[k].1
    decreases |ps|
  {
    if |ps| == 0 then [] else Labels(ps[..|ps| - 1]) + [ps[|ps| - 1].1]
  }

  /** One edge from `ind` to each child, labelled with its crossover point. */
  function ChildEdges(ind: string, ch: seq<(string, string)>): (r: seq<Element>)
    ensures |r| == |ch|
    ensures forall k :: 0 <= k < |ch| ==> r[k] == Edge(ind, ch[k].0, ch[k].1)
  {
    seq(|ch|, k requires 0 <= k < |ch| => Edge(ind, ch[k].0, ch[k].1))
  }

  /** The downstream pass: the node is extinct iff it has no children; at
      the window maximum only the node, otherwise all child subtrees, then
      the node, then one edge per child. */
  function Downstream(t: seq<TableRow>, gen: int, ind: string, maxGen: int): seq<Element>
    requires gen <= maxGen
    decreases maxGen - gen, 0, 0
  {
    var ch := Children(t, ind);
    var node := NodeOf(ind, gen, |ch| == 0);
    if gen == maxGen then [node]
    else Subtrees(t, gen + 1, Ids(ch), maxGen) + ([node] + ChildEdges(ind, ch))
  }

  /** The downstream trees of several children, concatenated in order. */
  function Subtrees(t: seq<TableRow>, gen: int, ids: seq<string>, maxGen: int): seq<Element>
    requires gen <= maxGen
    decreases maxGen - gen, 1, |ids|
  {
    if |ids| == 0 then []
    else Subtrees(t, gen, ids[..|ids| - 1], maxGen) + Downstream(t, gen, ids[|ids| - 1], maxGen)
  }

  /** One `str.contains` selection: the offspring and crossover points of
      the rows matching on one side. */
  method SelectChildren(t: seq<TableRow>, ind: string, side1: bool) returns (children: seq<string>, crossover: seq<string>)
    ensures children == Ids(Matches(t, ind, side1)) && crossover == Labels(Matches(t, ind, side1))
  {
    children, crossover := [], [];
    for i := 0 to |t|
      invariant children == Ids(Matches(t[..i], ind, side1))
      invariant crossover == Labels(Matches(t[..i], ind, side1))
    {
      assert t[..i + 1][..i] == t[..i];
      if Contains(ParentCell(t[i], side1), ind) {
        children := children + [t[i].individual];
        crossover := crossover + [CrossoverCell(t[i], side1)];
      }
    }
    assert t[..|t|] == t;
  }

  lemma IdsLabelsConcat(a: seq<(string, string)>, b: seq<(string, string)>)
    ensures Ids(a + b) == Ids(a) + Ids(b) && Labels(a + b) == Labels(a) + Labels(b)
  {
  }

  /** The children and crossover points of `_get_downstream_tree`: the
      parent-1 selection followed by the parent-2 selection. */
  method FindChildren(t: seq<TableRow>, ind: string) returns (children: seq<string>, crossover: seq<string>)
    ensures children == Ids(Children(t, ind)) && crossover == Labels(Children(t, ind))
  {
    children, crossover := SelectChildren(t, ind, true);
    var children2, crossover2 := SelectChildren(t, ind, false);
    children := children + children2;
    crossover := crossover + crossover2;
    IdsLabelsConcat(Matches1(t, ind), Matches2(t, ind));
  }

  /** `_get_downstream_tree` on the parents table. */
  method GetDownstreamTree(t: seq<TableRow>, gen: int, ind: string, maxGen: int) returns (els: seq<Element>)
    requires gen <= maxGen
    ensures els == Downstream(t, gen, ind, maxGen)
    decreases maxGen - gen
  {
    var children, crossover := FindChildren(t, ind);
    ghost var ch := Children(t, ind);
    var extinct := |children| == 0;
    var node := NodeOf(ind, gen, extinct);
    if gen == maxGen {
      return [node];
    }
    var individualEl := [node];
    for idx := 0 to |children|
      invariant individualEl == [node] + ChildEdges(ind, ch[..idx])
    {
      individualEl := individualEl + [Edge(ind, children[idx], crossover[idx])];
    }
    assert ch[..|children|] == ch;
    var childrenTree: seq<Element> := [];
    for k := 0 to |children|
      invariant childrenTree == Subtrees(t, gen + 1, children[..k], maxGen)
    {
      assert children[..k + 1][..k] == children[..k];
      var sub := GetDownstreamTree(t, gen + 1, children[k], maxGen);
      childrenTree := childrenTree + sub;
    }
    assert children[..|children|] == children;
    return childrenTree + individualEl;
  }

  /** A node the downstream pass may emit: generation inside the pass, the
      three-character label, and `extinct` iff the individual has no child. */
  predicate DownNode(t: seq<TableRow>, e: Element, lo: int, hi: int)
    requires e.Node?
  {
    lo <= e.generation <= hi && e.caption == Prefix(e.id, 3) && (e.extinct <==> |Children(t, e.id)| == 0)
  }

  /** Every downstream node is a `DownNode`. */
  lemma {:induction false} DownstreamNodes(t: seq<TableRow>, gen: int, ind: string, maxGen: int)
    requires gen <= maxGen
    ensures forall e :: e in Downstream(t, gen, ind, maxGen) && e.Node? ==> DownNode(t, e, gen, maxGen)
    decreases maxGen - gen, 0, 0
  {
    if gen < maxGen {
      var ch := Children(t, ind);
      SubtreesNodes(t, gen + 1, Ids(ch), maxGen);
      var own := [NodeOf(ind, gen, |ch| == 0)] + ChildEdges(ind, ch);
      assert forall e :: e in ChildEdges(ind, ch) ==> e.Edge?;
    }
  }

  lemma {:induction false} SubtreesNodes(t: seq<TableRow>, gen: int, ids: seq<string>, maxGen: int)
    requires gen <= maxGen
    ensures forall e :: e in Subtrees(t, gen, ids, maxGen) && e.Node? ==> DownNode(t, e, gen, maxGen)
    decreases maxGen - gen, 1, |ids|
  {
    if |ids| > 0 {
      SubtreesNodes(t, gen, ids[..|ids| - 1], maxGen);
      DownstreamNodes(t, gen, ids[|ids| - 1], maxGen);
    }
  }

  /** The downstream tree contains the start node with its computed
      `extinct`, and both ends of every edge are nodes of the tree. */
  lemma {:induction false} DownstreamClosed(t: seq<TableRow>, gen: int, ind: string, maxGen: int)
    requires gen <= maxGen
    ensures NodeOf(ind, gen, |Children(t, ind)| == 0) in Downstream(t, gen, ind, maxGen)
    ensures EdgesClosed(Downstream(t, gen, ind, maxGen))
    decreases maxGen - gen, 0, 0
  {
    var ch := Children(t, ind);
    var node := NodeOf(ind, gen, |ch| == 0);
    if gen < maxGen {
      var ids := Ids(ch);
      var sub := Subtrees(t, gen + 1, ids, maxGen);
      var own := [node] + ChildEdges(ind, ch);
      assert Downstream(t, gen, ind, maxGen) == sub + own;
      SubtreesClosed(t, gen + 1, ids, maxGen);
      forall e | e in own && e.Edge? ensures HasNode(sub + own, e.source) && HasNode(sub + own, e.target) {
        var k :| 0 <= k < |own| && own[k] == e;
        assert e == Edge(ind, ch[k - 1].0, ch[k - 1].1) && ids[k - 1] == e.target;
        HasNodeAppend(sub, own, e.target);
        assert node in sub + own;
      }
      ClosedAppend(sub, own);
      assert node in sub + own;
    } else {
      assert Downstream(t, gen, ind, maxGen) == [node];
    }
  }

  /** The subtrees hold a node for every child and are closed under edges. */
  lemma {:induction false} SubtreesClosed(t: seq<TableRow>, gen: int, ids: seq<string>, maxGen: int)
    requires gen <= maxGen
    ensures forall k :: 0 <= k < |ids| ==> HasNode(Subtrees(t, gen, ids, maxGen), ids[k])
    ensures EdgesClosed(Subtrees(t, gen, ids, maxGen))
    decreases maxGen - gen, 1, |ids|
  {
    if |ids| > 0 {
      var init := ids[..|ids| - 1];
      var last := ids[|ids| - 1];
      SubtreesClosed(t, gen, init, maxGen);
      DownstreamClosed(t, gen, last, maxGen);
      var a := Subtrees(t, gen, init, maxGen);
      var b := Downstream(t, gen, last, maxGen);
      assert Subtrees(t, gen, ids, maxGen) == a + b;
      ClosedConcat(a, b);
      forall k | 0 <= k < |ids| ensures HasNode(a + b, ids[k]) {
        if k < |init| {
          assert ids[k] == init[k];
          HasNodeAppend(a, b, ids[k]);
        } else {
          assert NodeOf(last, gen, |Children(t, last)| == 0) in b;
          HasNodeAppend(a, b, last);
        }
      }
    }
  }

  /** Below the window maximum, the pass ends with the start node followed
      by one edge per child in child order. */
  lemma DownstreamTail(t: seq<TableRow>, gen: int, ind: string, maxGen: int)
    requires gen < maxGen
    ensures var els := Downstream(t, gen, ind, maxGen);
      var ch := Children(t, ind);
      |els| >= 1 + |ch| &&
      els[|els| - 1 - |ch|..] == [NodeOf(ind, gen, |ch| == 0)] + ChildEdges(ind, ch)
  {
  }

  // ------------------------------------------------------------ family tree

  /** The window used: `range(generation - 2, generation + 1)` by default. */
  function WindowOf(gen: int, window: Option<Window>): Window
  {
    if window.None? then Window(gen - 2, gen + 1) else window.value
  }

  /** A non-empty window holds the start generation. The one caller builds
      the window from an ordered three-handle slider around the selected
      generation. Below the window the upstream pass never meets the
      minimum and fails with a KeyError at an individual that has no
      crossover row; above it the downstream pass runs on past the maximum
      until it reaches individuals without children. */
  predicate InWindow(gen: int, window: Option<Window>)
  {
    var w := WindowOf(gen, window);
    w.start < w.stop ==> w.start <= gen < w.stop
  }

  /** The merge of `get_family_tree`: the elements of `downstream ++
      upstream` and the upstream roots, each de-duplicated in first-seen order. */
  function Merge(down: seq<Element>, up: Tree): Tree
  {
    Tree(Dedup(down + up.elements), Dedup(up.roots))
  }

  /** The merged tree has no element or root twice, the elements of both
      passes and their roots, the downstream elements first, and its edges
      stay between its nodes when those of both passes do. */
  lemma MergeSpec(down: seq<Element>, up: Tree)
    ensures var m := Merge(down, up);
      && NoDuplicates(m.elements) && NoDuplicates(m.roots)
      && (forall e :: e in m.elements <==> e in down || e in up.elements)
      && (forall x :: x in m.roots <==> x in up.roots)
      && |Dedup(down)| <= |m.elements| && m.elements[..|Dedup(down)|] == Dedup(down)
    ensures EdgesClosed(down) && EdgesClosed(up.elements) ==> EdgesClosed(Merge(down, up).elements)
  {
    var all := down + up.elements;
    var m := Merge(down, up).elements;
    DedupSpec(all);
    DedupSpec(up.roots);
    DedupPrefix(down, up.elements);
    if EdgesClosed(down) && EdgesClosed(up.elements) {
      ClosedConcat(down, up.elements);
      forall e | e in m && e.Edge? ensures HasNode(m, e.source) && HasNode(m, e.target) {
        var a :| a in all && a.Node? && a.id == e.source;
        var b :| b in all && b.Node? && b.id == e.target;
        assert a in m && b in m;
      }
    }
  }

  /** The passes in order: the upstream result first, then the table read by
      the downstream pass, then the merge. */
  function FamilyTreeOf(up: Result<Tree>, table: Result<seq<TableRow>>, gen: int, ind: string, maxGen: int): Result<Tree>
    requires gen <= maxGen
  {
    var u :- up;
    var tb :- table;
    Ok(Merge(Downstream(tb, gen, ind, maxGen), u))
  }

  /** `get_family_tree`: an empty window is an IndexError; otherwise the
      upstream pass to the window minimum, the downstream pass to the window
      maximum, and the merge. */
  function FamilyTree(rows: seq<CsvRow>, gen: int, ind: string, window: Option<Window>): (r: Result<Tree>)
    requires InWindow(gen, window)
    ensures r.Ok? ==> EdgesClosed(r.value.elements)
  {
    var w := WindowOf(gen, window);
    if w.stop <= w.start then Err(IndexError)
    else
      PassesClosed(rows, gen, ind, w.start, w.stop - 1);
      FamilyTreeOf(Upstream(rows, gen, ind, w.start), CrossoverTable(rows), gen, ind, w.stop - 1)
  }

  method GetFamilyTree(rows: seq<CsvRow>, gen: int, ind: string, window: Option<Window>) returns (r: Result<Tree>)
    requires InWindow(gen, window)
    ensures r == FamilyTree(rows, gen, ind, window)
  {
    var w := WindowOf(gen, window);
    if w.stop <= w.start {
      return Err(IndexError);
    }
    r := MergePasses(rows, gen, ind, w.start, w.stop - 1);
    FamilyTreeIsPasses(rows, gen, ind, window);
  }

  /** A non-empty window runs the two passes between its bounds. */
  lemma FamilyTreeIsPasses(rows: seq<CsvRow>, gen: int, ind: string, window: Option<Window>)
    requires InWindow(gen, window)
    requires WindowOf(gen, window).start < WindowOf(gen, window).stop
    ensures var w := WindowOf(gen, window);
      FamilyTree(rows, gen, ind, window) ==
      FamilyTreeOf(Upstream(rows, gen, ind, w.start), CrossoverTable(rows), gen, ind, w.stop - 1)
  {
  }

  /** The body of `get_family_tree` past the window check: both passes and
      the two de-duplications. */
  method MergePasses(rows: seq<CsvRow>, gen: int, ind: string, minGen: int, maxGen: int) returns (r: Result<Tree>)
    requires minGen <= gen <= maxGen
    ensures r == FamilyTreeOf(Upstream(rows, gen, ind, minGen), CrossoverTable(rows), gen, ind, maxGen)
  {
    var up := Upstream(rows, gen, ind, minGen);
    if up.Err? {
      return Err(up.error);
    }
    var table := GetCrossoverTable(rows);
    if table.Err? {
      return Err(table.error);
    }
    var down := GetDownstreamTree(table.value, gen, ind, maxGen);
    var familyTree := DedupList(down + up.value.elements);
    var uniqueRoots := DedupList(up.value.roots);
    return Ok(Tree(familyTree, uniqueRoots));
  }

  /** The upstream pass read from the log keeps the properties of the
      recursion: its start node is present and its edges are closed. */
  lemma UpstreamTopClosed(rows: seq<CsvRow>, gen: int, ind: string, minGen: int)
    requires minGen <= gen
    ensures Upstream(rows, gen, ind, minGen).Ok? ==>
      NodeOf(ind, gen, false) in Upstream(rows, gen, ind, minGen).value.elements &&
      EdgesClosed(Upstream(rows, gen, ind, minGen).value.elements)
  {
    if minGen < gen && CrossoverDict(rows).Ok? {
      UpstreamClosed(CrossoverDict(rows).value, gen, ind, minGen);
    }
  }

  /** The combined passes: closed when both passes are, and holding both
      start nodes. */
  lemma FamilyTreeOfSpec(up: Result<Tree>, table: Result<seq<TableRow>>, gen: int, ind: string, maxGen: int)
    requires gen <= maxGen
    requires FamilyTreeOf(up, table, gen, ind, maxGen).Ok?
    requires up.Ok? ==> NodeOf(ind, gen, false) in up.value.elements && EdgesClosed(up.value.elements)
    ensures EdgesClosed(FamilyTreeOf(up, table, gen, ind, maxGen).value.elements)
    ensures NodeOf(ind, gen, false) in FamilyTreeOf(up, table, gen, ind, maxGen).value.elements
    ensures NodeOf(ind, gen, |Children(table.value, ind)| == 0) in FamilyTreeOf(up, table, gen, ind, maxGen).value.elements
  {
    var down := Downstream(table.value, gen, ind, maxGen);
    DownstreamClosed(table.value, gen, ind, maxGen);
    MergeSpec(down, up.value);
  }

  /** Both passes keep their edges between their own nodes, so their merge
      over one log does too. */
  lemma PassesClosed(rows: seq<CsvRow>, gen: int, ind: string, minGen: int, maxGen: int)
    requires minGen <= gen <= maxGen
    ensures var t := FamilyTreeOf(Upstream(rows, gen, ind, minGen), CrossoverTable(rows), gen, ind, maxGen);
      t.Ok? ==> EdgesClosed(t.value.elements)
  {
    var up := Upstream(rows, gen, ind, minGen);
    var table := CrossoverTable(rows);
    if FamilyTreeOf(up, table, gen, ind, maxGen).Ok? {
      UpstreamTopClosed(rows, gen, ind, minGen);
      FamilyTreeOfSpec(up, table, gen, ind, maxGen);
    }
  }

  /** An individual without children appears twice: as an extinct node from
      the downstream pass and a non-extinct one from the upstream pass. */
  lemma FamilyTreeExtinct(rows: seq<CsvRow>, gen: int, ind: string, window: Option<Window>)
    requires InWindow(gen, window)
    requires FamilyTree(rows, gen, ind, window).Ok?
    requires |Children(CrossoverTable(rows).value, ind)| == 0
    ensures NodeOf(ind, gen, true) in FamilyTree(rows, gen, ind, window).value.elements
    ensures NodeOf(ind, gen, false) in FamilyTree(rows, gen, ind, window).value.elements
  {
    var w := WindowOf(gen, window);
    UpstreamTopClosed(rows, gen, ind, w.start);
    FamilyTreeOfSpec(Upstream(rows, gen, ind, w.start), CrossoverTable(rows), gen, ind, w.stop - 1);
  }

  /** The failure cases: an empty window is an IndexError, and above the
      window minimum an individual missing from a readable log is a KeyError. */
  lemma FamilyTreeErrors(rows: seq<CsvRow>, gen: int, ind: string, window: Option<Window>)
    requires InWindow(gen, window)
    ensures WindowOf(gen, window).stop <= WindowOf(gen, window).start ==>
      FamilyTree(rows, gen, ind, window) == Err(IndexError)
    ensures var w := WindowOf(gen, window);
      w.start < gen < w.stop && CrossoverDict(rows).Ok? && ind !in CrossoverDict(rows).value ==>
      FamilyTree(rows, gen, ind, window) == Err(KeyError(ind))
  {
  }
}
