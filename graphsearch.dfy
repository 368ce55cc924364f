/** Depth-first search over a layer graph: the visited-set recursion that
    lists the layers connected to a start layer, and what that list is. */
module GraphSearch {

  import opened Seqs

  /** Source layer -> target layers. */
  type Graph = map<string, seq<string>>

  /** `graph.get(layer, [])`. */
  function Succ(g: Graph, x: string): seq<string>
  {
    if x in g then g[x] else []
  }

  /** Every layer the graph names, as a key or as a target. */
  function Nodes(g: Graph): set<string>
  {
    g.Keys + set x, y | x in g && y in g[x] :: y
  }

  lemma SuccInNodes(g: Graph, x: string)
    ensures forall y :: y in Succ(g, x) ==> y in Nodes(g)
  {
  }

  /** The visited set and the result list the search threads through. */
  datatype Search = Search(visited: set<string>, result: seq<string>)

  /** `_dfs(graph, x, visited, result)`: a visited layer is skipped; an
      unvisited one is marked, appended, and its targets searched in order. */
  function Visit(g: Graph, x: string, s: Search): (r: Search)
    ensures s.visited <= r.visited
    decreases (Nodes(g) + {x}) - s.visited, 0
  {
    if x in s.visited then s
    else
      SuccInNodes(g, x);
      VisitAll(g, Succ(g, x), Search(s.visited + {x}, s.result + [x]))
  }

  /** The loop `for neighbor in ...: _dfs(graph, neighbor, visited, result)`. */
  function VisitAll(g: Graph, ns: seq<string>, s: Search): (r: Search)
    requires forall n :: n in ns ==> n in Nodes(g)
    ensures s.visited <= r.visited
    decreases Nodes(g) - s.visited, |ns|
  {
    if |ns| == 0 then s
    else
      var prev := VisitAll(g, ns[..|ns| - 1], s);
      assert (Nodes(g) + {ns[|ns| - 1]}) - prev.visited <= Nodes(g) - s.visited;
      Visit(g, ns[|ns| - 1], prev)
  }

  /** The layers found from `start` with a fresh visited set and result list. */
  function Connected(g: Graph, start: string): seq<string>
  {
    Visit(g, start, Search({}, [])).result
  }

  /** The recursive search, with the visited set and result list passed in
      and handed back. */
  method Dfs(g: Graph, x: string, visited: set<string>, result: seq<string>) returns (v: set<string>, r: seq<string>)
    ensures Search(v, r) == Visit(g, x, Search(visited, result))
    decreases (Nodes(g) + {x}) - visited, 0
  {
    v, r := visited, result;
    if x !in v {
      v := v + {x};
      r := r + [x];
      var ns := Succ(g, x);
      SuccInNodes(g, x);
      ghost var s0 := Search(v, r);
      for i := 0 to |ns|
        invariant Search(v, r) == VisitAll(g, ns[..i], s0)
        invariant s0.visited <= v
      {
        assert ns[..i + 1][..i] == ns[..i];
        v, r := Dfs(g, ns[i], v, r);
      }
      assert ns[..|ns|] == ns;
    }
  }

  // ------------------------------------------------------------ properties

  /** The result list holds each visited layer exactly once. */
  ghost predicate Consistent(s: Search)
  {
    NoDuplicates(s.result) && forall y :: y in s.result <==> y in s.visited
  }

  /** The search marks its start layer, only appends to the result list, and
      keeps the list consistent with the visited set. */
  lemma {:induction false} VisitGrows(g: Graph, x: string, s: Search)
    ensures x in Visit(g, x, s).visited
    ensures |s.result| <= |Visit(g, x, s).result|
    ensures Visit(g, x, s).result[..|s.result|] == s.result
    ensures Consistent(s) ==> Consistent(Visit(g, x, s))
    decreases (Nodes(g) + {x}) - s.visited, 0
  {
    if x !in s.visited {
      SuccInNodes(g, x);
      var s1 := Search(s.visited + {x}, s.result + [x]);
      VisitAllGrows(g, Succ(g, x), s1);
      var r := Visit(g, x, s);
      assert r.result[..|s1.result|] == s1.result;
      assert r.result[..|s.result|] == s1.result[..|s.result|];
      if Consistent(s) {
        assert x !in s.result;
        forall i, j | 0 <= i < j < |s1.result| ensures s1.result[i] != s1.result[j] {
          if j < |s.result| {
            assert s1.result[i] == s.result[i] && s1.result[j] == s.result[j];
          } else {
            assert s1.result[i] == s.result[i];
          }
        }
      }
    }
  }

  lemma {:induction false} VisitAllGrows(g: Graph, ns: seq<string>, s: Search)
    requires forall n :: n in ns ==> n in Nodes(g)
    ensures forall n :: n in ns ==> n in VisitAll(g, ns, s).visited
    ensures |s.result| <= |VisitAll(g, ns, s).result|
    ensures VisitAll(g, ns, s).result[..|s.result|] == s.result
    ensures Consistent(s) ==> Consistent(VisitAll(g, ns, s))
    decreases Nodes(g) - s.visited, |ns|
  {
    if |ns| > 0 {
      var init := ns[..|ns| - 1];
      var last := ns[|ns| - 1];
      VisitAllGrows(g, init, s);
      var prev := VisitAll(g, init, s);
      assert (Nodes(g) + {last}) - prev.visited <= Nodes(g) - s.visited;
      VisitGrows(g, last, prev);
      var r := VisitAll(g, ns, s);
      assert r.result[..|prev.result|] == prev.result;
      assert r.result[..|s.result|] == prev.result[..|s.result|];
      forall n | n in ns ensures n in r.visited {
        if n != last {
          var k :| 0 <= k < |ns| && ns[k] == n;
          assert init[k] == n;
        }
      }
    }
  }

  /** Every layer the search newly visits has all of its targets visited. */
  lemma {:induction false} VisitClosed(g: Graph, x: string, s: Search)
    ensures forall y, z :: y in Visit(g, x, s).visited && y !in s.visited && z in Succ(g, y) ==>
      z in Visit(g, x, s).visited
    decreases (Nodes(g) + {x}) - s.visited, 0
  {
    if x !in s.visited {
      SuccInNodes(g, x);
      var s1 := Search(s.visited + {x}, s.result + [x]);
      VisitAllGrows(g, Succ(g, x), s1);
      VisitAllClosed(g, Succ(g, x), s1);
    }
  }

  lemma {:induction false} VisitAllClosed(g: Graph, ns: seq<string>, s: Search)
    requires forall n :: n in ns ==> n in Nodes(g)
    ensures forall y, z :: y in VisitAll(g, ns, s).visited && y !in s.visited && z in Succ(g, y) ==>
      z in VisitAll(g, ns, s).visited
    decreases Nodes(g) - s.visited, |ns|
  {
    if |ns| > 0 {
      var init := ns[..|ns| - 1];
      var last := ns[|ns| - 1];
      VisitAllClosed(g, init, s);
      var prev := VisitAll(g, init, s);
      assert (Nodes(g) + {last}) - prev.visited <= Nodes(g) - s.visited;
      VisitClosed(g, last, prev);
    }
  }

  /** A path of the graph from `a` to `b`: each step follows a target list. */
  predicate Path(g: Graph, p: seq<string>, a: string, b: string)
  {
    |p| > 0 && p[0] == a && p[|p| - 1] == b &&
    forall i :: 0 <= i < |p| - 1 ==> p[i + 1] in Succ(g, p[i])
  }

  ghost predicate Reachable(g: Graph, a: string, b: string)
  {
    exists p :: Path(g, p, a, b)
  }

  lemma PathCons(g: Graph, x: string, p: seq<string>, a: string, b: string)
    requires Path(g, p, a, b) && a in Succ(g, x)
    ensures Path(g, [x] + p, x, b)
  {
    var q := [x] + p;
    forall i | 0 <= i < |q| - 1 ensures q[i + 1] in Succ(g, q[i]) {
      if i > 0 {
        assert q[i] == p[i - 1] && q[i + 1] == p[i];
      }
    }
  }

  /** Every layer the search newly visits is reachable from where it started. */
  lemma {:induction false} VisitSound(g: Graph, x: string, s: Search)
    ensures forall y :: y in Visit(g, x, s).visited && y !in s.visited ==> Reachable(g, x, y)
    decreases (Nodes(g) + {x}) - s.visited, 0
  {
    if x !in s.visited {
      SuccInNodes(g, x);
      var ns := Succ(g, x);
      var s1 := Search(s.visited + {x}, s.result + [x]);
      VisitAllSound(g, ns, s1);
      forall y | y in Visit(g, x, s).visited && y !in s.visited ensures Reachable(g, x, y) {
        if y == x {
          assert Path(g, [x], x, x);
        } else {
          var k, p :| 0 <= k < |ns| && Path(g, p, ns[k], y);
          PathCons(g, x, p, ns[k], y);
        }
      }
    }
  }

  lemma {:induction false} VisitAllSound(g: Graph, ns: seq<string>, s: Search)
    requires forall n :: n in ns ==> n in Nodes(g)
    ensures forall y :: y in VisitAll(g, ns, s).visited && y !in s.visited ==>
      exists k, p :: 0 <= k < |ns| && Path(g, p, ns[k], y)
    decreases Nodes(g) - s.visited, |ns|
  {
    if |ns| > 0 {
      var init := ns[..|ns| - 1];
      var last := ns[|ns| - 1];
      VisitAllSound(g, init, s);
      var prev := VisitAll(g, init, s);
      assert (Nodes(g) + {last}) - prev.visited <= Nodes(g) - s.visited;
      VisitSound(g, last, prev);
      forall y | y in VisitAll(g, ns, s).visited && y !in s.visited
        ensures exists k, p :: 0 <= k < |ns| && Path(g, p, ns[k], y)
      {
        if y in prev.visited {
          var k, p :| 0 <= k < |init| && Path(g, p, init[k], y);
          assert ns[k] == init[k];
        } else {
          var p :| Path(g, p, last, y);
          assert Path(g, p, ns[|ns| - 1], y);
        }
      }
    }
  }

  /** A set closed under the target lists holds every layer reachable from
      its members. */
  lemma {:induction false} ClosedReach(g: Graph, c: set<string>, p: seq<string>, a: string, b: string)
    requires forall y, z :: y in c && z in Succ(g, y) ==> z in c
    requires a in c && Path(g, p, a, b)
    ensures b in c
    decreases |p|
  {
    if |p| > 1 {
      var q := p[1..];
      assert p[1] in Succ(g, p[0]);
      assert Path(g, q, p[1], b) by {
        forall i | 0 <= i < |q| - 1 ensures q[i + 1] in Succ(g, q[i]) {
          assert q[i] == p[i + 1] && q[i + 1] == p[i + 2];
        }
      }
      ClosedReach(g, c, q, p[1], b);
    }
  }

  /** The connected layers: the start layer first, no layer twice, exactly
      the layers reachable from the start, and closed under the target lists. */
  lemma ConnectedSpec(g: Graph, start: string)
    ensures |Connected(g, start)| > 0 && Connected(g, start)[0] == start
    ensures NoDuplicates(Connected(g, start))
    ensures forall y :: y in Connected(g, start) <==> Reachable(g, start, y)
    ensures forall y, z :: y in Connected(g, start) && z in Succ(g, y) ==> z in Connected(g, start)
  {
    var s0 := Search({}, []);
    var r := Visit(g, start, s0);
    SuccInNodes(g, start);
    var s1 := Search(s0.visited + {start}, s0.result + [start]);
    assert r == VisitAll(g, Succ(g, start), s1);
    VisitAllGrows(g, Succ(g, start), s1);
    assert r.result[..1] == [start];
    VisitGrows(g, start, s0);
    VisitClosed(g, start, s0);
    VisitSound(g, start, s0);
    forall y | Reachable(g, start, y) ensures y in r.visited {
      var p :| Path(g, p, start, y);
      ClosedReach(g, r.visited, p, start, y);
    }
  }

  /** The search on the documented example graph. */
  lemma ConnectedExample()
    ensures Connected(map["A" := ["B", "C"], "B" := ["D"], "C" := ["E"], "D" := [], "E" := []], "A")
      == ["A", "B", "D", "C", "E"]
  {
    var g: Graph := map["A" := ["B", "C"], "B" := ["D"], "C" := ["E"], "D" := [], "E" := []];
    assert Succ(g, "A") == ["B", "C"] && Succ(g, "B") == ["D"] && Succ(g, "C") == ["E"];
    assert Succ(g, "D") == [] && Succ(g, "E") == [];
    SuccInNodes(g, "A");
    SuccInNodes(g, "B");
    SuccInNodes(g, "C");
    var s0 := Search({}, []);
    var sA := Search(s0.visited + {"A"}, s0.result + ["A"]);
    var sB := Search(sA.visited + {"B"}, sA.result + ["B"]);
    var sD := Search(sB.visited + {"D"}, sB.result + ["D"]);
    var sC := Search(sD.visited + {"C"}, sD.result + ["C"]);
    var sE := Search(sC.visited + {"E"}, sC.result + ["E"]);
    assert Visit(g, "D", sB) == sD by {
      assert "D" !in sB.visited;
      assert VisitAll(g, [], sD) == sD;
    }
    assert Visit(g, "B", sA) == sD by {
      assert "B" !in sA.visited;
      assert ["D"][..0] == [];
      assert VisitAll(g, ["D"], sB) == Visit(g, "D", VisitAll(g, [], sB));
    }
    assert Visit(g, "E", sC) == sE by {
      assert "E" !in sC.visited;
      assert VisitAll(g, [], sE) == sE;
    }
    assert Visit(g, "C", sD) == sE by {
      assert "C" !in sD.visited;
      assert ["E"][..0] == [];
      assert VisitAll(g, ["E"], sC) == Visit(g, "E", VisitAll(g, [], sC));
    }
    assert ["B", "C"][..1] == ["B"] && ["B"][..0] == [];
    assert VisitAll(g, ["B"], sA) == Visit(g, "B", VisitAll(g, [], sA));
    assert VisitAll(g, ["B", "C"], sA) == Visit(g, "C", VisitAll(g, ["B"], sA));
    assert Visit(g, "A", s0) == VisitAll(g, ["B", "C"], sA);
    assert sE.result == ["A", "B", "D", "C", "E"];
  }
}
