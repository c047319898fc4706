/** A corrected comparator for the priority queue. HUFF_COMP orders nodes by
    frequency and then by character, but every internal node carries the
    character '#', so two internal nodes of equal frequency compare equal and
    poll may return either. Decompression rebuilds the queue from a set whose
    iteration order is not that of compression, so the two runs can break
    such a tie differently and build different trees. Breaking the remaining
    ties by the smallest character below each node makes the loop's result a
    function of the frequency set alone. */
module Fixes {
  import opened Wrappers
  import opened Ordering
  import opened CodeTree
  import opened Huffman
  import opened Coding
  import opened Text
  import opened Packing
  import opened Ties
  import opened Frequencies
  import opened Huffify

  /** The smallest character held by a leaf of t. */
  function MinSymbol(t: Tree): (c: char)
    ensures c in Symbols(t)
    ensures forall d :: d in Symbols(t) ==> c <= d
  {
    match t
    case Leaf(c, _) => c
    case Node(_, _, l, r) =>
      var a := MinSymbol(l);
      var b := MinSymbol(r);
      if a <= b then a else b
  }

  /** The corrected comparator: HUFF_COMP first; when HUFF_COMP sees a tie,
      the tree with the smaller smallest character comes first. */
  predicate Before(a: Tree, b: Tree)
  {
    Compare(a.Rank(), b.Rank()) < 0 ||
    (Compare(a.Rank(), b.Rank()) == 0 && MinSymbol(a) <= MinSymbol(b))
  }

  /** Before is total and transitive. */
  lemma BeforeOrder(a: Tree, b: Tree, c: Tree)
    ensures Before(a, b) || Before(b, a)
    ensures Before(a, b) && Before(b, c) ==> Before(a, c)
    ensures Before(a, b) && Before(b, a) ==> a.Rank() == b.Rank() && MinSymbol(a) == MinSymbol(b)
  {
    CompareAntisymmetric(a.Rank(), b.Rank());
    if Before(a, b) && Before(b, c) {
      CompareTransitive(a.Rank(), b.Rank(), c.Rank());
    }
  }

  /** f[i] comes first under the corrected comparator. */
  predicate IsFirstAt(f: seq<Tree>, i: int)
  {
    0 <= i < |f| && forall k :: 0 <= k < |f| ==> Before(f[i], f[k])
  }

  /** The first element under the corrected comparator is one HUFF_COMP
      allows poll to return. */
  lemma FirstIsMin(f: seq<Tree>, i: int)
    requires IsFirstAt(f, i)
    ensures IsMinAt(Ranks(f), i)
  {
  }

  /** A non-empty forest has a first element. */
  lemma {:induction false} FirstExists(f: seq<Tree>)
    requires f != []
    ensures exists i :: IsFirstAt(f, i)
  {
    if |f| == 1 {
      BeforeOrder(f[0], f[0], f[0]);
      assert IsFirstAt(f, 0);
    } else {
      var init := f[..|f| - 1];
      FirstExists(init);
      var i :| IsFirstAt(init, i);
      var last := |f| - 1;
      BeforeOrder(f[i], f[last], f[last]);
      if Before(f[i], f[last]) {
        forall k | 0 <= k < |f| ensures Before(f[i], f[k]) {
          if k < last { assert f[k] == init[k]; }
        }
        assert IsFirstAt(f, i);
      } else {
        forall k | 0 <= k < |f| ensures Before(f[last], f[k]) {
          if k < last {
            assert f[k] == init[k];
            BeforeOrder(f[last], f[i], f[k]);
          } else {
            BeforeOrder(f[last], f[last], f[last]);
          }
        }
        assert IsFirstAt(f, last);
      }
    }
  }

  /** In a forest with disjoint symbols, the first element is the same tree
      whatever the order of the forest. */
  lemma FirstUnique(f: seq<Tree>, g: seq<Tree>, i: int, i': int)
    requires multiset(f) == multiset(g) && ForestDistinct(f)
    requires IsFirstAt(f, i) && IsFirstAt(g, i')
    ensures f[i] == g[i']
  {
    assert g[i'] in multiset(f);
    var k :| 0 <= k < |f| && f[k] == g[i'];
    assert f[i] in multiset(g);
    var m :| 0 <= m < |g| && g[m] == f[i];
    assert Before(f[i], f[k]) && Before(g[i'], g[m]);
    BeforeOrder(f[i], f[k], f[k]);
    assert MinSymbol(f[i]) in Symbols(f[i]) * Symbols(f[k]);
    assert i == k;
  }

  /** One iteration of the corrected loop: poll the first tree, then the
      first of what remains. */
  predicate IsFixedStep(f: seq<Tree>, i: int, j: int)
  {
    IsFirstAt(f, i) && IsFirstAt(Remove(f, i), j)
  }

  /** Every corrected iteration is one HUFF_COMP allows. */
  lemma FixedStepIsStep(f: seq<Tree>, i: int, j: int)
    requires IsFixedStep(f, i, j)
    ensures IsStep(f, i, j)
  {
    FirstIsMin(f, i);
    FirstIsMin(Remove(f, i), j);
  }

  /** t is the tree the corrected loop ends with on a queue holding f. */
  ghost predicate FixedBuilds(f: seq<Tree>, t: Tree)
    decreases |f|
  {
    if |f| <= 1 then f == [t]
    else exists i, j :: IsFixedStep(f, i, j) && IsStep(f, i, j) && FixedBuilds(Step(f, i, j), t)
  }

  /** The corrected loop makes one of the trees the original loop may make. */
  lemma {:induction false} FixedIsLegal(f: seq<Tree>, t: Tree)
    requires FixedBuilds(f, t)
    ensures Builds(f, t)
    decreases |f|
  {
    if |f| >= 2 {
      var i, j :| IsFixedStep(f, i, j) && IsStep(f, i, j) && FixedBuilds(Step(f, i, j), t);
      FixedIsLegal(Step(f, i, j), t);
      BuildsStep(f, i, j, t);
    }
  }

  /** The corrected loop ends on every non-empty queue. */
  lemma {:induction false} FixedExists(f: seq<Tree>)
    requires f != []
    ensures exists t :: FixedBuilds(f, t)
    decreases |f|
  {
    if |f| == 1 {
      assert FixedBuilds(f, f[0]);
    } else {
      FirstExists(f);
      var i :| IsFirstAt(f, i);
      FirstExists(Remove(f, i));
      var j :| IsFirstAt(Remove(f, i), j);
      FixedStepIsStep(f, i, j);
      FixedExists(Step(f, i, j));
      var t :| FixedBuilds(Step(f, i, j), t);
      assert FixedBuilds(f, t);
    }
  }

  /** On a forest with disjoint symbols the corrected loop has exactly one
      result, whatever order the queue was filled in. */
  lemma {:induction false} FixedDeterministic(f: seq<Tree>, g: seq<Tree>, t1: Tree, t2: Tree)
    requires multiset(f) == multiset(g) && ForestDistinct(f)
    requires FixedBuilds(f, t1) && FixedBuilds(g, t2)
    ensures t1 == t2
    decreases |f|
  {
    assert |f| == |g| by {
      assert |multiset(f)| == |multiset(g)|;
    }
    if |f| <= 1 {
      assert f == [t1] && g == [t2];
      assert t2 in multiset(f);
    } else {
      var i, j :| IsFixedStep(f, i, j) && IsStep(f, i, j) && FixedBuilds(Step(f, i, j), t1);
      var i', j' :| IsFixedStep(g, i', j') && IsStep(g, i', j') && FixedBuilds(Step(g, i', j'), t2);
      FirstUnique(f, g, i, i');
      RemoveSame(f, g, i, i');
      var rf, rg := Remove(f, i), Remove(g, i');
      RemoveDistinct(f, i);
      FirstUnique(rf, rg, j, j');
      RemoveSame(rf, rg, j, j');
      var m := Merge(f[i], rf[j]);
      assert Step(f, i, j) == Remove(rf, j) + [m];
      assert Step(g, i', j') == Remove(rg, j') + [m];
      StepDistinct(f, i, j);
      FixedDeterministic(Step(f, i, j), Step(g, i', j'), t1, t2);
    }
  }

  /** The intended property of compress followed by decompress: with the
      corrected comparator, whatever orders the two queues were filled in, a
      text with two or more distinct characters packed with the codes of the
      tree of one and unpacked through the tree of the other comes back
      unchanged. */
  lemma FixedRoundTrip(lines: seq<seq<char>>, f1: seq<Tree>, f2: seq<Tree>, t1: Tree, t2: Tree)
    requires AllAscii(lines) && |SlotLeaves(Counts(lines))| >= 2
    requires multiset(f1) == multiset(SlotLeaves(Counts(lines)))
    requires multiset(f2) == multiset(SlotLeaves(Counts(lines)))
    requires FixedBuilds(f1, t1) && FixedBuilds(f2, t2)
    ensures t1 == t2
    ensures StreamCode(lines, Codes(t1)).Ok?
    ensures Decode(Some(t2), BitsOf(SetBits(StreamCode(lines, Codes(t1)).value),
      |StreamCode(lines, Codes(t2)).value|)) == Ok(Flatten(lines))
  {
    var l := SlotLeaves(Counts(lines));
    SortedForest(l);
    FixedExists(l);
    var t :| FixedBuilds(l, t);
    FixedDeterministic(l, f1, t, t1);
    FixedDeterministic(l, f2, t, t2);
    FixedIsLegal(l, t);
    TextRoundTrip(lines, t);
  }
}
