/** First-seen de-duplication of lists (`if el not in out: out.append(el)`). */
module Seqs {

  predicate NoDuplicates<T(==)>(s: seq<T>)
  {
    forall i, j :: 0 <= i < j < |s| ==> s[i] != s[j]
  }

  /** The elements of `s` in order of first appearance, each once. */
  function Dedup<T(==)>(s: seq<T>): seq<T>
    decreases |s|
  {
    if |s| == 0 then []
    else
      var d := Dedup(s[..|s| - 1]);
      if s[|s| - 1] in d then d else d + [s[|s| - 1]]
  }

  /** The de-duplicated list has the same members and no repetitions. */
  lemma {:induction false} DedupSpec<T>(s: seq<T>)
    ensures NoDuplicates(Dedup(s))
    ensures forall x :: x in Dedup(s) <==> x in s
    ensures |Dedup(s)| <= |s|
    decreases |s|
  {
    if |s| > 0 {
      var init := s[..|s| - 1];
      DedupSpec(init);
      assert s == init + [s[|s| - 1]];
    }
  }

  /** First-seen order: de-duplicating a longer list only appends. */
  lemma {:induction false} DedupPrefix<T>(a: seq<T>, b: seq<T>)
    ensures |Dedup(a)| <= |Dedup(a + b)| && Dedup(a + b)[..|Dedup(a)|] == Dedup(a)
    decreases |b|
  {
    if |b| == 0 {
      assert a + b == a;
    } else {
      var b' := b[..|b| - 1];
      DedupPrefix(a, b');
      assert (a + b)[..|a + b| - 1] == a + b';
    }
  }

  /** A list without repetitions is left unchanged. */
  lemma {:induction false} DedupNoDuplicates<T>(s: seq<T>)
    requires NoDuplicates(s)
    ensures Dedup(s) == s
    decreases |s|
  {
    if |s| > 0 {
      var init := s[..|s| - 1];
      DedupNoDuplicates(init);
      DedupSpec(init);
      assert s[|s| - 1] !in init;
      assert s == init + [s[|s| - 1]];
    }
  }

  /** The loop `for el in s: if el not in out: out.append(el)`. */
  method DedupList<T(==)>(s: seq<T>) returns (out: seq<T>)
    ensures out == Dedup(s)
  {
    out := [];
    for i := 0 to |s|
      invariant out == Dedup(s[..i])
    {
      assert s[..i + 1][..i] == s[..i];
      if s[i] !in out {
        out := out + [s[i]];
      }
    }
    assert s[..|s|] == s;
  }

  /** The loop `for x in c: if x not in out: out.append(x)` started from `base`. */
  function AppendNew<T(==)>(base: seq<T>, c: seq<T>): seq<T>
    decreases |c|
  {
    if |c| == 0 then base
    else
      var prev := AppendNew(base, c[..|c| - 1]);
      if c[|c| - 1] in prev then prev else prev + [c[|c| - 1]]
  }

  /** The start list is kept as a prefix, the members are those of both lists,
      and the appended part is new: no repetition and nothing from the start. */
  lemma {:induction false} AppendNewSpec<T>(base: seq<T>, c: seq<T>)
    ensures |base| <= |AppendNew(base, c)| && AppendNew(base, c)[..|base|] == base
    ensures forall x :: x in AppendNew(base, c) <==> x in base || x in c
    ensures NoDuplicates(AppendNew(base, c)[|base|..])
    ensures forall x :: x in AppendNew(base, c)[|base|..] ==> x !in base
    ensures NoDuplicates(base) ==> NoDuplicates(AppendNew(base, c))
    decreases |c|
  {
    if |c| > 0 {
      var init := c[..|c| - 1];
      var x := c[|c| - 1];
      AppendNewSpec(base, init);
      var prev := AppendNew(base, init);
      assert c == init + [x];
      if x !in prev {
        var r := prev + [x];
        assert r[..|base|] == prev[..|base|];
        assert r[|base|..] == prev[|base|..] + [x];
        assert x !in prev[|base|..] && x !in base by {
          assert prev == prev[..|base|] + prev[|base|..];
        }
        forall y | y in r[|base|..] ensures y !in base {
          if y != x { assert y in prev[|base|..]; }
        }
        if NoDuplicates(base) {
          forall i, j | 0 <= i < j < |r| ensures r[i] != r[j] {
            if j < |prev| {
              assert r[i] == prev[i] && r[j] == prev[j];
            } else {
              assert r[i] == prev[i];
              assert prev[i] in prev;
            }
          }
        }
        forall i, j | 0 <= i < j < |r[|base|..]| ensures r[|base|..][i] != r[|base|..][j] {
          var p := prev[|base|..];
          if j < |p| {
            assert r[|base|..][i] == p[i] && r[|base|..][j] == p[j];
          } else {
            assert r[|base|..][i] == p[i];
            assert p[i] in p;
          }
        }
      }
    }
  }

  /** Appending two candidate lists one after the other is appending their
      concatenation. */
  lemma {:induction false} AppendNewConcat<T>(base: seq<T>, c: seq<T>, d: seq<T>)
    ensures AppendNew(AppendNew(base, c), d) == AppendNew(base, c + d)
    decreases |d|
  {
    if |d| == 0 {
      assert c + d == c;
    } else {
      AppendNewConcat(base, c, d[..|d| - 1]);
      assert (c + d)[..|c + d| - 1] == c + d[..|d| - 1];
    }
  }

  // ------------------------------------------------------------ list.sort()

  predicate Sorted(s: seq<int>)
  {
    forall i, j :: 0 <= i < j < |s| ==> s[i] <= s[j]
  }

  function Insert(x: int, s: seq<int>): seq<int>
    decreases |s|
  {
    if |s| == 0 then [x]
    else if x <= s[0] then [x] + s
    else [s[0]] + Insert(x, s[1..])
  }

  /** `sorted(s)` on integers. */
  function Sort(s: seq<int>): seq<int>
    decreases |s|
  {
    if |s| == 0 then [] else Insert(s[0], Sort(s[1..]))
  }

  lemma {:induction false} InsertCount(x: int, s: seq<int>)
    ensures |Insert(x, s)| == |s| + 1
    ensures multiset(Insert(x, s)) == multiset(s) + multiset{x}
    decreases |s|
  {
    if |s| > 0 && x > s[0] {
      InsertCount(x, s[1..]);
      assert s == [s[0]] + s[1..];
      assert Insert(x, s) == [s[0]] + Insert(x, s[1..]);
    } else if |s| > 0 {
      assert Insert(x, s) == [x] + s;
    }
  }

  /** Inserting a value no smaller than `lo` into a list no element of which
      is smaller than `lo` keeps that bound. */
  lemma {:induction false} InsertLowerBound(x: int, s: seq<int>, lo: int)
    requires lo <= x && forall k :: 0 <= k < |s| ==> lo <= s[k]
    ensures forall k :: 0 <= k < |Insert(x, s)| ==> lo <= Insert(x, s)[k]
    decreases |s|
  {
    if |s| > 0 && x > s[0] {
      var t := s[1..];
      InsertLowerBound(x, t, lo);
      assert Insert(x, s) == [s[0]] + Insert(x, t);
    } else if |s| > 0 {
      assert Insert(x, s) == [x] + s;
    }
  }

  lemma {:induction false} InsertSorted(x: int, s: seq<int>)
    requires Sorted(s)
    ensures Sorted(Insert(x, s))
    decreases |s|
  {
    if |s| > 0 && x > s[0] {
      var t := s[1..];
      InsertSorted(x, t);
      InsertLowerBound(x, t, s[0]);
      var r := Insert(x, t);
      var out := [s[0]] + r;
      assert Insert(x, s) == out;
      forall i, j | 0 <= i < j < |out| ensures out[i] <= out[j] {
        assert out[j] == r[j - 1];
        if i > 0 {
          assert out[i] == r[i - 1];
        }
      }
    } else if |s| > 0 {
      assert Insert(x, s) == [x] + s;
    }
  }

  lemma InsertSpec(x: int, s: seq<int>)
    requires Sorted(s)
    ensures Sorted(Insert(x, s))
    ensures |Insert(x, s)| == |s| + 1
    ensures multiset(Insert(x, s)) == multiset(s) + multiset{x}
  {
    InsertCount(x, s);
    InsertSorted(x, s);
  }

  /** The sorted list is ascending and holds the same elements. */
  lemma SortSpec(s: seq<int>)
    ensures Sorted(Sort(s))
    ensures multiset(Sort(s)) == multiset(s)
    ensures |Sort(s)| == |s|
  {
    SortSorted(s);
    SortCount(s);
  }

  lemma {:induction false} SortSorted(s: seq<int>)
    ensures Sorted(Sort(s))
    decreases |s|
  {
    if |s| > 0 {
      SortSorted(s[1..]);
      InsertSorted(s[0], Sort(s[1..]));
    }
  }

  lemma {:induction false} SortCount(s: seq<int>)
    ensures multiset(Sort(s)) == multiset(s)
    ensures |Sort(s)| == |s|
    decreases |s|
  {
    if |s| > 0 {
      SortCount(s[1..]);
      InsertCount(s[0], Sort(s[1..]));
      assert s == [s[0]] + s[1..];
    }
  }

  /** The last element of a non-empty sorted list is its maximum. */
  lemma SortedLast(s: seq<int>, x: int)
    requires Sorted(s) && |s| > 0 && x in s
    ensures x <= s[|s| - 1]
  {
  }

  // ------------------------------------------------------------ groupings

  /** The number of members of all the groups of a grouping, such as a
      dict of lists walked group by group. */
  function GroupsSize<K, V>(groups: seq<(K, seq<V>)>): nat
    decreases |groups|
  {
    if |groups| == 0 then 0 else GroupsSize(groups[..|groups| - 1]) + |groups[|groups| - 1].1|
  }

  /** Group `i` fits after the groups before it. */
  lemma {:induction false} GroupsSizePrefix<K, V>(groups: seq<(K, seq<V>)>, i: nat)
    requires i < |groups|
    ensures GroupsSize(groups[..i]) + |groups[i].1| <= GroupsSize(groups)
    decreases |groups|
  {
    var n := |groups| - 1;
    if i < n {
      assert groups[..n][..i] == groups[..i];
      assert groups[..n][i] == groups[i];
      GroupsSizePrefix(groups[..n], i);
    }
  }
}
