/** The merging rule of HuffmanTree.buildTree, stated on values: which trees
    a run of the loop can produce from a queue whose contents are a forest. */
module Huffman {
  import opened Wrappers
  import opened Ordering
  import opened CodeTree

  /** The keys HUFF_COMP sees for the trees of a forest. */
  function Ranks(f: seq<Tree>): (r: seq<Key>)
    ensures |r| == |f|
    ensures forall k :: 0 <= k < |f| ==> r[k] == f[k].Rank()
  {
    seq(|f|, k requires 0 <= k < |f| => f[k].Rank())
  }

  /** The internal node made from the first (left) and second (right) node
      polled: character '#', frequency the sum. */
  function Merge(a: Tree, b: Tree): (r: Tree)
    ensures r.Node? && r.left == a && r.right == b
    ensures r.Rank() == Key(a.w + b.w, '#')
  {
    Node('#', a.w + b.w, a, b)
  }

  /** Polling index i of f and then index j of what remains is a legal move:
      both are minimal under HUFF_COMP at the time they are polled. */
  predicate IsStep(f: seq<Tree>, i: int, j: int)
  {
    IsMinAt(Ranks(f), i) && IsMinAt(Ranks(Remove(f, i)), j)
  }

  /** The queue after one iteration: both polled trees removed, their merge added. */
  function Step(f: seq<Tree>, i: int, j: int): (g: seq<Tree>)
    requires IsStep(f, i, j)
    ensures |g| == |f| - 1
  {
    var rest := Remove(f, i);
    Remove(rest, j) + [Merge(f[i], rest[j])]
  }

  /** t is a tree the loop can end with when started on a queue holding f:
      one tree is the result itself, two or more take some legal step first.
      Ties are left open: any minimal element may be polled. */
  ghost predicate Builds(f: seq<Tree>, t: Tree)
    decreases |f|
  {
    if |f| <= 1 then f == [t]
    else exists i, j :: IsStep(f, i, j) && Builds(Step(f, i, j), t)
  }

  function SumW(f: seq<Tree>): int
  {
    if f == [] then 0 else f[0].w + SumW(f[1..])
  }

  function LeafBags(f: seq<Tree>): multiset<Tree>
  {
    if f == [] then multiset{} else LeafBag(f[0]) + LeafBags(f[1..])
  }

  function SymbolsOf(f: seq<Tree>): set<char>
  {
    if f == [] then {} else Symbols(f[0]) + SymbolsOf(f[1..])
  }

  function InternalCounts(f: seq<Tree>): nat
  {
    if f == [] then 0 else InternalCount(f[0]) + InternalCounts(f[1..])
  }

  predicate AllWellWeighted(f: seq<Tree>)
  {
    forall k :: 0 <= k < |f| ==> WellWeighted(f[k])
  }

  /** Every tree has distinct symbols and no symbol is in two trees. */
  predicate ForestDistinct(f: seq<Tree>)
  {
    (forall k :: 0 <= k < |f| ==> DistinctSymbols(f[k])) &&
    (forall p, q :: 0 <= p < |f| && 0 <= q < |f| && p != q ==> Symbols(f[p]) !! Symbols(f[q]))
  }

  /** The totals are additive over concatenation. */
  lemma {:induction false} TotalsConcat(a: seq<Tree>, b: seq<Tree>)
    ensures SumW(a + b) == SumW(a) + SumW(b)
    ensures LeafBags(a + b) == LeafBags(a) + LeafBags(b)
    ensures SymbolsOf(a + b) == SymbolsOf(a) + SymbolsOf(b)
    ensures InternalCounts(a + b) == InternalCounts(a) + InternalCounts(b)
  {
    if a != [] {
      assert (a + b)[1..] == a[1..] + b;
      TotalsConcat(a[1..], b);
    } else {
      assert a + b == b;
    }
  }

  /** The totals of a one-tree forest are those of the tree. */
  lemma TotalsSingle(t: Tree)
    ensures SumW([t]) == t.w && LeafBags([t]) == LeafBag(t)
    ensures SymbolsOf([t]) == Symbols(t) && InternalCounts([t]) == InternalCount(t)
  {
    assert [t][1..] == [];
  }

  /** Removing one tree takes exactly its share out of every total. */
  lemma TotalsRemove(f: seq<Tree>, i: int)
    requires 0 <= i < |f|
    ensures SumW(f) == SumW(Remove(f, i)) + f[i].w
    ensures LeafBags(f) == LeafBags(Remove(f, i)) + LeafBag(f[i])
    ensures SymbolsOf(f) == SymbolsOf(Remove(f, i)) + Symbols(f[i])
    ensures InternalCounts(f) == InternalCounts(Remove(f, i)) + InternalCount(f[i])
  {
    var a, b := f[..i], f[i + 1..];
    SplitAt(f, i);
    TotalsConcat(f[..i + 1], b);
    TotalsConcat(a, [f[i]]);
    TotalsConcat(a, b);
    TotalsSingle(f[i]);
  }

  /** One legal step keeps the forest's totals, adds one internal node and
      shortens the forest by one. */
  lemma StepTotals(f: seq<Tree>, i: int, j: int)
    requires IsStep(f, i, j)
    ensures SumW(Step(f, i, j)) == SumW(f)
    ensures LeafBags(Step(f, i, j)) == LeafBags(f)
    ensures SymbolsOf(Step(f, i, j)) == SymbolsOf(f)
    ensures InternalCounts(Step(f, i, j)) == InternalCounts(f) + 1
  {
    var rest := Remove(f, i);
    var a, b := f[i], rest[j];
    var m := Merge(a, b);
    assert Step(f, i, j) == Remove(rest, j) + [m];
    TotalsRemove(f, i);
    TotalsRemove(rest, j);
    TotalsConcat(Remove(rest, j), [m]);
    TotalsSingle(m);
    assert LeafBag(m) == LeafBag(a) + LeafBag(b);
    assert Symbols(m) == Symbols(a) + Symbols(b);
    assert InternalCount(m) == 1 + InternalCount(a) + InternalCount(b);
  }

  /** A step keeps every tree well weighted. */
  lemma StepWellWeighted(f: seq<Tree>, i: int, j: int)
    requires IsStep(f, i, j) && AllWellWeighted(f)
    ensures AllWellWeighted(Step(f, i, j))
  {
    var rest := Remove(f, i);
    assert WellWeighted(rest[j]);
    var g := Step(f, i, j);
    forall k | 0 <= k < |g| ensures WellWeighted(g[k]) {
      if k < |g| - 1 {
        assert g[k] == Remove(rest, j)[k];
      }
    }
  }

  /** Removing a tree keeps the rest of the forest distinct. */
  lemma RemoveDistinct(f: seq<Tree>, i: int)
    requires 0 <= i < |f| && ForestDistinct(f)
    ensures ForestDistinct(Remove(f, i))
    ensures forall k :: 0 <= k < |f| - 1 ==> Symbols(Remove(f, i)[k]) !! Symbols(f[i])
  {
    var g := Remove(f, i);
    forall p, q | 0 <= p < |g| && 0 <= q < |g| && p != q
      ensures Symbols(g[p]) !! Symbols(g[q])
    {
      var p' := if p < i then p else p + 1;
      var q' := if q < i then q else q + 1;
      assert g[p] == f[p'] && g[q] == f[q'];
    }
    forall k | 0 <= k < |g| ensures Symbols(g[k]) !! Symbols(f[i]) && DistinctSymbols(g[k]) {
      var k' := if k < i then k else k + 1;
      assert g[k] == f[k'];
    }
  }

  /** A step keeps the forest distinct: the merged tree holds the symbols of
      two disjoint trees, which no other tree holds. */
  lemma StepDistinct(f: seq<Tree>, i: int, j: int)
    requires IsStep(f, i, j) && ForestDistinct(f)
    ensures ForestDistinct(Step(f, i, j))
  {
    var rest := Remove(f, i);
    RemoveDistinct(f, i);
    RemoveDistinct(rest, j);
    var base := Remove(rest, j);
    var m := Merge(f[i], rest[j]);
    var g := Step(f, i, j);
    assert g == base + [m];
    forall k | 0 <= k < |base| ensures Symbols(base[k]) !! Symbols(m) {
      var k' := if k < j then k else k + 1;
      assert base[k] == rest[k'];
    }
    forall p, q | 0 <= p < |g| && 0 <= q < |g| && p != q
      ensures Symbols(g[p]) !! Symbols(g[q])
    {
      if p < |base| && q < |base| {
        assert g[p] == base[p] && g[q] == base[q];
      }
    }
  }

  /** What the loop conserves, for every tree it can end with: the total
      weight of the queue, its leaves, its symbols, and one internal node
      per merge; well-weightedness and distinct symbols carry over too. */
  lemma {:induction false} BuildsConserves(f: seq<Tree>, t: Tree)
    requires Builds(f, t)
    ensures t.w == SumW(f)
    ensures LeafBag(t) == LeafBags(f)
    ensures Symbols(t) == SymbolsOf(f)
    ensures InternalCount(t) + 1 == InternalCounts(f) + |f|
    ensures AllWellWeighted(f) ==> WellWeighted(t)
    ensures ForestDistinct(f) ==> DistinctSymbols(t)
    decreases |f|
  {
    if |f| <= 1 {
      assert f == [t];
      assert f[1..] == [];
    } else {
      var i, j :| IsStep(f, i, j) && Builds(Step(f, i, j), t);
      StepTotals(f, i, j);
      BuildsConserves(Step(f, i, j), t);
      if AllWellWeighted(f) { StepWellWeighted(f, i, j); }
      if ForestDistinct(f) { StepDistinct(f, i, j); }
    }
  }

  /** A legal step followed by a run is a run. */
  lemma BuildsStep(f: seq<Tree>, i: int, j: int, t: Tree)
    requires IsStep(f, i, j) && Builds(Step(f, i, j), t)
    ensures Builds(f, t)
  {
  }

  /** Totals of a forest of leaves. */
  lemma {:induction false} LeafForest(f: seq<Tree>)
    requires forall k :: 0 <= k < |f| ==> f[k].Leaf?
    ensures LeafBags(f) == multiset(f)
    ensures InternalCounts(f) == 0
    ensures AllWellWeighted(f)
    ensures forall c :: c in SymbolsOf(f) <==> exists k :: 0 <= k < |f| && f[k].ch == c
    ensures (forall p, q :: 0 <= p < |f| && 0 <= q < |f| && p != q ==> f[p].ch != f[q].ch) ==> ForestDistinct(f)
  {
    if f != [] {
      LeafForest(f[1..]);
      assert f == [f[0]] + f[1..];
      forall c ensures c in SymbolsOf(f) <==> exists k :: 0 <= k < |f| && f[k].ch == c {
        if c in SymbolsOf(f[1..]) {
          var k :| 0 <= k < |f[1..]| && f[1..][k].ch == c;
          assert f[k + 1].ch == c;
        }
        if exists k :: 0 <= k < |f| && f[k].ch == c {
          var k :| 0 <= k < |f| && f[k].ch == c;
          if k > 0 { assert f[1..][k - 1].ch == c; }
        }
      }
    }
  }

  /** The tree buildTree makes from a queue of n >= 1 leaves: a full binary
      tree with n - 1 internal nodes whose leaves are exactly the queued
      leaves and whose root weight is the total frequency; it is internal
      exactly when n >= 2; its symbols are distinct when the leaves' are. */
  lemma BuildsFromLeaves(f: seq<Tree>, t: Tree)
    requires forall k :: 0 <= k < |f| ==> f[k].Leaf?
    requires Builds(f, t)
    ensures LeafBag(t) == multiset(f)
    ensures InternalCount(t) == |f| - 1
    ensures t.w == SumW(f) && WellWeighted(t)
    ensures forall c :: c in Symbols(t) <==> exists k :: 0 <= k < |f| && f[k].ch == c
    ensures t.Node? <==> |f| >= 2
    ensures (forall p, q :: 0 <= p < |f| && 0 <= q < |f| && p != q ==> f[p].ch != f[q].ch) ==> DistinctSymbols(t)
  {
    LeafForest(f);
    BuildsConserves(f, t);
    if |f| >= 2 {
      var i, j :| IsStep(f, i, j) && Builds(Step(f, i, j), t);
      BuildsConserves(Step(f, i, j), t);
      LeafCount(t);
    } else {
      assert f == [t];
    }
  }

  /** Leaves in strictly increasing character order hold pairwise distinct
      characters and form a forest with disjoint symbols. */
  lemma SortedForest(f: seq<Tree>)
    requires forall k :: 0 <= k < |f| ==> f[k].Leaf?
    requires forall p, q :: 0 <= p < q < |f| ==> f[p].ch < f[q].ch
    ensures forall p, q :: 0 <= p < |f| && 0 <= q < |f| && p != q ==> f[p].ch != f[q].ch
    ensures ForestDistinct(f)
  {
    forall p, q | 0 <= p < |f| && 0 <= q < |f| && p != q
      ensures f[p].ch != f[q].ch
    {
      if p < q {
        assert f[p].ch < f[q].ch;
      } else {
        assert f[q].ch < f[p].ch;
      }
    }
    LeafForest(f);
  }

  /** Such leaves build a tree with distinct symbols, internal exactly when
      there are two leaves or more. */
  lemma SortedLeavesBuild(f: seq<Tree>, t: Tree)
    requires forall k :: 0 <= k < |f| ==> f[k].Leaf?
    requires forall p, q :: 0 <= p < q < |f| ==> f[p].ch < f[q].ch
    requires Builds(f, t)
    ensures t.Node? <==> |f| >= 2
    ensures DistinctSymbols(t)
  {
    SortedForest(f);
    BuildsFromLeaves(f, t);
  }

  /** An empty queue builds nothing; a one-element queue builds that element. */
  lemma BuildsSmall(f: seq<Tree>, t: Tree)
    requires |f| <= 1
    ensures Builds(f, t) <==> f == [t]
  {
  }
}
