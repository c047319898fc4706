/** The textbook queue of six leaves with frequencies 5, 9, 12, 13, 16 and 45.
    No two trees the loop meets on it share a key, so whatever order the
    queue is filled in, buildTree makes one tree only, and the most frequent
    character gets a one-bit code while the two rarest get four bits. */
module Classic {
  import opened Wrappers
  import opened CodeTree
  import opened Huffman
  import opened Coding
  import opened Ordering
  import opened Ties

  function ClassicLeaves(): seq<Tree>
  {
    [Leaf('a', 5), Leaf('b', 9), Leaf('c', 12), Leaf('d', 13), Leaf('e', 16), Leaf('f', 45)]
  }

  /** The internal nodes, in the order the loop makes them. */
  function N14(): Tree { Node('#', 14, Leaf('a', 5), Leaf('b', 9)) }
  function N25(): Tree { Node('#', 25, Leaf('c', 12), Leaf('d', 13)) }
  function N30(): Tree { Node('#', 30, N14(), Leaf('e', 16)) }
  function N55(): Tree { Node('#', 55, N25(), N30()) }
  function ClassicRoot(): Tree { Node('#', 100, Leaf('f', 45), N55()) }

  /** The queue, in key order, after each of the first four iterations. */
  function AfterOne(): seq<Tree> { [Leaf('c', 12), Leaf('d', 13), N14(), Leaf('e', 16), Leaf('f', 45)] }
  function AfterTwo(): seq<Tree> { [N14(), Leaf('e', 16), N25(), Leaf('f', 45)] }
  function AfterThree(): seq<Tree> { [N25(), N30(), Leaf('f', 45)] }
  function AfterFour(): seq<Tree> { [Leaf('f', 45), N55()] }

  /** A queue whose keys strictly increase from each position to the next
      and whose two front trees merge into a queue holding the same trees as
      `next`. */
  predicate Forced(g: seq<Tree>, next: seq<Tree>)
  {
    |g| >= 2 && IncreasingKeys(g) && multiset(g[2..] + [Merge(g[0], g[1])]) == multiset(next)
  }

  predicate IncreasingKeys(g: seq<Tree>)
  {
    forall k :: 0 <= k < |g| - 1 ==> Compare(g[k].Rank(), g[k + 1].Rank()) < 0
  }

  /** Strictly increasing keys stay increasing over any distance. */
  lemma {:induction false} Increasing(g: seq<Tree>, p: int, q: int)
    requires IncreasingKeys(g) && 0 <= p < q < |g|
    ensures Compare(g[p].Rank(), g[q].Rank()) < 0
  {
    if q > p + 1 {
      Increasing(g, p, q - 1);
      CompareTransitive(g[p].Rank(), g[q - 1].Rank(), g[q].Rank());
    }
  }

  /** Such a queue is sorted and has no ties. */
  lemma ForcedRanks(g: seq<Tree>, next: seq<Tree>)
    requires Forced(g, next)
    ensures SortedKeys(g) && DistinctRanks(g)
  {
    forall p, q | 0 <= p < |g| && 0 <= q < |g| && g[p].Rank() == g[q].Rank()
      ensures g[p] == g[q]
    {
      if p < q {
        Increasing(g, p, q);
      } else if q < p {
        Increasing(g, q, p);
      }
    }
  }

  /** One forced iteration: a run from any order of g is a run from next. */
  lemma ForcedStep(f: seq<Tree>, g: seq<Tree>, next: seq<Tree>, t: Tree)
    requires Forced(g, next) && multiset(f) == multiset(g) && Builds(f, t)
    ensures Builds(next, t)
  {
    ForcedRanks(g, next);
    SortedForced(f, g, t);
    BuildsPerm(next, g[2..] + [Merge(g[0], g[1])], t);
  }

  lemma LeavesIncreasing()
    ensures IncreasingKeys(ClassicLeaves())
  {
  }

  lemma MergeOne()
    ensures var g := ClassicLeaves(); multiset(g[2..] + [Merge(g[0], g[1])]) == multiset(AfterOne())
  {
    var g, h := ClassicLeaves(), AfterOne();
    assert g[2..] + [Merge(g[0], g[1])] == [h[0], h[1], h[3], h[4], h[2]];
  }

  lemma ForcedOne()
    ensures Forced(ClassicLeaves(), AfterOne())
  {
    LeavesIncreasing();
    MergeOne();
  }

  lemma OneIncreasing()
    ensures IncreasingKeys(AfterOne())
  {
  }

  lemma MergeTwo()
    ensures var g := AfterOne(); multiset(g[2..] + [Merge(g[0], g[1])]) == multiset(AfterTwo())
  {
    var g, h := AfterOne(), AfterTwo();
    assert g[2..] + [Merge(g[0], g[1])] == [h[0], h[1], h[3], h[2]];
  }

  lemma ForcedTwo()
    ensures Forced(AfterOne(), AfterTwo())
  {
    OneIncreasing();
    MergeTwo();
  }

  lemma ForcedThree()
    ensures Forced(AfterTwo(), AfterThree())
  {
    var g, h := AfterTwo(), AfterThree();
    assert g[2..] + [Merge(g[0], g[1])] == [h[0], h[2], h[1]];
  }

  lemma ForcedFour()
    ensures Forced(AfterThree(), AfterFour())
  {
    var g := AfterThree();
    assert g[2..] + [Merge(g[0], g[1])] == AfterFour();
  }

  lemma ForcedFive()
    ensures Forced(AfterFour(), [ClassicRoot()])
  {
    var g := AfterFour();
    assert g[2..] + [Merge(g[0], g[1])] == [ClassicRoot()];
  }

  /** Whatever order the queue is filled in, the loop builds ClassicRoot. */
  lemma ClassicUnique(f: seq<Tree>, t: Tree)
    requires multiset(f) == multiset(ClassicLeaves()) && Builds(f, t)
    ensures t == ClassicRoot()
  {
    ForcedOne();
    ForcedTwo();
    ForcedThree();
    ForcedFour();
    ForcedFive();
    ForcedStep(f, ClassicLeaves(), AfterOne(), t);
    ForcedStep(AfterOne(), AfterOne(), AfterTwo(), t);
    ForcedStep(AfterTwo(), AfterTwo(), AfterThree(), t);
    ForcedStep(AfterThree(), AfterThree(), AfterFour(), t);
    ForcedStep(AfterFour(), AfterFour(), [ClassicRoot()], t);
  }

  /** The paths to the six leaves of ClassicRoot. */
  lemma ShortPaths()
    ensures LeadsTo(ClassicRoot(), "0", 'f')
    ensures LeadsTo(ClassicRoot(), "100", 'c') && LeadsTo(ClassicRoot(), "101", 'd')
  {
  }

  lemma LongPaths()
    ensures LeadsTo(ClassicRoot(), "111", 'e')
    ensures LeadsTo(ClassicRoot(), "1100", 'a') && LeadsTo(ClassicRoot(), "1101", 'b')
  {
  }

  /** The codes of ClassicRoot. */
  lemma RootCodes()
    ensures 'f' in Codes(ClassicRoot()) && Codes(ClassicRoot())['f'] == "0"
    ensures 'c' in Codes(ClassicRoot()) && Codes(ClassicRoot())['c'] == "100"
    ensures 'd' in Codes(ClassicRoot()) && Codes(ClassicRoot())['d'] == "101"
    ensures 'e' in Codes(ClassicRoot()) && Codes(ClassicRoot())['e'] == "111"
    ensures 'a' in Codes(ClassicRoot()) && Codes(ClassicRoot())['a'] == "1100"
    ensures 'b' in Codes(ClassicRoot()) && Codes(ClassicRoot())['b'] == "1101"
  {
    var r := ClassicRoot();
    assert DistinctSymbols(r);
    ShortPaths();
    LongPaths();
    CodeIsPath(r, "0", 'f');
    CodeIsPath(r, "100", 'c');
    CodeIsPath(r, "101", 'd');
    CodeIsPath(r, "111", 'e');
    CodeIsPath(r, "1100", 'a');
    CodeIsPath(r, "1101", 'b');
  }

  /** Whatever order the queue is filled in, 'f' gets a one-bit code, 'c',
      'd' and 'e' three bits and 'a' and 'b' four. */
  lemma ClassicCodes(f: seq<Tree>, t: Tree)
    requires multiset(f) == multiset(ClassicLeaves()) && Builds(f, t)
    ensures 'f' in Codes(t) && Codes(t)['f'] == "0"
    ensures 'c' in Codes(t) && Codes(t)['c'] == "100"
    ensures 'd' in Codes(t) && Codes(t)['d'] == "101"
    ensures 'e' in Codes(t) && Codes(t)['e'] == "111"
    ensures 'a' in Codes(t) && Codes(t)['a'] == "1100"
    ensures 'b' in Codes(t) && Codes(t)['b'] == "1101"
  {
    ClassicUnique(f, t);
    RootCodes();
  }
}
