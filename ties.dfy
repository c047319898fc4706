/** How far the result of buildTree depends on the order of the queue and on
    the choice poll makes among elements with equal keys. */
module Ties {
  import opened Wrappers
  import opened Ordering
  import opened CodeTree
  import opened Huffman
  import opened Coding
  import opened Text
  import opened Packing

  /** Two forests holding the same trees have minima of the same key. */
  lemma SameMinimum(f: seq<Tree>, g: seq<Tree>, i: int, j: int)
    requires multiset(f) == multiset(g)
    requires IsMinAt(Ranks(f), i) && IsMinAt(Ranks(g), j)
    ensures f[i].Rank() == g[j].Rank()
  {
    assert g[j] in multiset(f) && f[i] in multiset(g);
    var k :| 0 <= k < |f| && f[k] == g[j];
    var m :| 0 <= m < |g| && g[m] == f[i];
    assert Compare(Ranks(f)[i], Ranks(f)[k]) <= 0;
    assert Compare(Ranks(g)[j], Ranks(g)[m]) <= 0;
  }

  /** A minimal element of g sits at a minimal position of f too. */
  lemma MinTransfer(f: seq<Tree>, g: seq<Tree>, j: int) returns (i: int)
    requires multiset(f) == multiset(g) && IsMinAt(Ranks(g), j)
    ensures IsMinAt(Ranks(f), i) && f[i] == g[j]
  {
    assert g[j] in multiset(f);
    i :| 0 <= i < |f| && f[i] == g[j];
    forall k | 0 <= k < |f| ensures Compare(Ranks(f)[i], Ranks(f)[k]) <= 0 {
      assert f[k] in multiset(g);
      var m :| 0 <= m < |g| && g[m] == f[k];
      assert Compare(Ranks(g)[j], Ranks(g)[m]) <= 0;
    }
  }

  /** Removing equal elements from equal multisets leaves equal multisets. */
  lemma RemoveSame(f: seq<Tree>, g: seq<Tree>, i: int, j: int)
    requires multiset(f) == multiset(g) && 0 <= i < |f| && 0 <= j < |g| && f[i] == g[j]
    ensures multiset(Remove(f, i)) == multiset(Remove(g, j))
  {
    RemoveMultiset(f, i);
    RemoveMultiset(g, j);
  }

  /** Any step of g can be matched by a step of f polling the same trees. */
  lemma MatchStep(f: seq<Tree>, g: seq<Tree>, i': int, j': int) returns (i: int, j: int)
    requires multiset(f) == multiset(g) && IsStep(g, i', j')
    ensures IsStep(f, i, j)
    ensures multiset(Step(f, i, j)) == multiset(Step(g, i', j'))
  {
    i := MinTransfer(f, g, i');
    RemoveSame(f, g, i, i');
    j := MinTransfer(Remove(f, i), Remove(g, i'), j');
    RemoveSame(Remove(f, i), Remove(g, i'), j, j');
  }

  /** The possible results depend only on which trees are queued, not on
      their order in the queue. */
  lemma {:induction false} BuildsPerm(f: seq<Tree>, g: seq<Tree>, t: Tree)
    requires multiset(f) == multiset(g) && Builds(g, t)
    ensures Builds(f, t)
    decreases |g|
  {
    assert |f| == |g|;
    if |g| <= 1 {
      assert g == [t];
      assert f[0] in multiset(g);
    } else {
      var i', j' :| IsStep(g, i', j') && Builds(Step(g, i', j'), t);
      var i, j := MatchStep(f, g, i', j');
      BuildsPerm(Step(f, i, j), Step(g, i', j'), t);
    }
  }

  /** No two different trees of the forest share a key. */
  ghost predicate DistinctRanks(f: seq<Tree>)
  {
    forall p, q :: 0 <= p < |f| && 0 <= q < |f| && f[p].Rank() == f[q].Rank() ==> f[p] == f[q]
  }

  /** Keys stay distinct after every legal step: poll then never has a real
      choice. */
  ghost predicate Unambiguous(f: seq<Tree>)
    decreases |f|
  {
    DistinctRanks(f) &&
    (forall i, j :: IsStep(f, i, j) ==> Unambiguous(Step(f, i, j)))
  }

  /** Without a tie, any two legal steps on queues holding the same trees
      poll the same two trees, and so leave queues holding the same trees. */
  lemma SamePolls(f: seq<Tree>, g: seq<Tree>, i: int, j: int, i': int, j': int)
    requires multiset(f) == multiset(g) && DistinctRanks(f)
    requires IsStep(f, i, j) && IsStep(g, i', j')
    ensures multiset(Step(f, i, j)) == multiset(Step(g, i', j'))
  {
    // Both first polls return the same tree.
    SameMinimum(f, g, i, i');
    var k := MinTransfer(f, g, i');
    SameMinimum(f, f, i, k);
    RemoveSame(f, g, i, i');
    // Both second polls return the same tree.
    var rf, rg := Remove(f, i), Remove(g, i');
    SameMinimum(rf, rg, j, j');
    var m := MinTransfer(rf, rg, j');
    SameMinimum(rf, rf, j, m);
    var a := if j < i then j else j + 1;
    var b := if m < i then m else m + 1;
    assert rf[j] == f[a] && rf[m] == f[b];
    RemoveSame(rf, rg, j, j');
    var m1 := Merge(f[i], rf[j]);
    assert Step(f, i, j) == Remove(rf, j) + [m1];
    assert Step(g, i', j') == Remove(rg, j') + [m1];
  }

  /** Without ties, the loop has one possible result, whatever the order in
      which the queue was filled. */
  lemma {:induction false} BuildsDeterministic(f: seq<Tree>, g: seq<Tree>, t1: Tree, t2: Tree)
    requires multiset(f) == multiset(g) && Unambiguous(f)
    requires Builds(f, t1) && Builds(g, t2)
    ensures t1 == t2
    decreases |f|
  {
    assert |f| == |g|;
    if |f| <= 1 {
      assert f == [t1] && g == [t2];
      assert t2 in multiset(f);
    } else {
      var i, j :| IsStep(f, i, j) && Builds(Step(f, i, j), t1);
      var i', j' :| IsStep(g, i', j') && Builds(Step(g, i', j'), t2);
      SamePolls(f, g, i, j, i', j');
      BuildsDeterministic(Step(f, i, j), Step(g, i', j'), t1, t2);
    }
  }

  /** The leaves createSet makes for the one-line text "abcde": six
      characters (the separator included) of frequency 1, in slot order. */
  function AbcdeLeaves(): seq<Tree>
  {
    [Leaf(LINE_SEPARATOR, 1), Leaf('a', 1), Leaf('b', 1), Leaf('c', 1), Leaf('d', 1), Leaf('e', 1)]
  }

  /** The three internal nodes of key (2, '#') the queue holds after three
      merges of "abcde". */
  function TieMiddle(): seq<Tree>
  {
    [Node('#', 2, Leaf(LINE_SEPARATOR, 1), Leaf('a', 1)),
     Node('#', 2, Leaf('b', 1), Leaf('c', 1)),
     Node('#', 2, Leaf('d', 1), Leaf('e', 1))]
  }

  /** Polling the first and third of them first. */
  function TieLeft(): Tree
  {
    var m := TieMiddle();
    Node('#', 6, m[1], Node('#', 4, m[0], m[2]))
  }

  /** Polling the second and third of them first. */
  function TieRight(): Tree
  {
    var m := TieMiddle();
    Node('#', 6, m[0], Node('#', 4, m[1], m[2]))
  }

  /** The keys of f never decrease from one position to the next. */
  predicate SortedKeys(f: seq<Tree>)
  {
    forall k :: 0 <= k < |f| - 1 ==> Compare(f[k].Rank(), f[k + 1].Rank()) <= 0
  }

  lemma {:induction false} SortedChain(f: seq<Tree>, k: int)
    requires SortedKeys(f) && 0 <= k < |f|
    ensures Compare(f[0].Rank(), f[k].Rank()) <= 0
  {
    if k > 0 {
      SortedChain(f, k - 1);
      CompareTransitive(f[0].Rank(), f[k - 1].Rank(), f[k].Rank());
    }
  }

  /** In a queue with sorted keys, polling twice takes the first two. */
  lemma SortedStep(f: seq<Tree>)
    requires SortedKeys(f) && |f| >= 2
    ensures IsStep(f, 0, 0) && Step(f, 0, 0) == f[2..] + [Merge(f[0], f[1])]
  {
    forall k | 0 <= k < |f| ensures Compare(Ranks(f)[0], Ranks(f)[k]) <= 0 {
      SortedChain(f, k);
    }
    var r := Remove(f, 0);
    assert r == f[1..];
    forall k | 0 <= k < |r| ensures Compare(Ranks(r)[0], Ranks(r)[k]) <= 0 {
      SortedChain(r, k);
    }
  }

  /** On a queue without ties whose keys are sorted, every run of the loop
      on the same trees in any order first merges the two front trees. */
  lemma SortedForced(f: seq<Tree>, g: seq<Tree>, t: Tree)
    requires multiset(f) == multiset(g) && SortedKeys(g) && DistinctRanks(g) && |g| >= 2
    requires Builds(f, t)
    ensures Builds(g[2..] + [Merge(g[0], g[1])], t)
  {
    assert |f| == |multiset(f)| == |g|;
    var i, j :| IsStep(f, i, j) && Builds(Step(f, i, j), t);
    SortedStep(g);
    SamePolls(g, f, 0, 0, i, j);
    BuildsPerm(Step(g, 0, 0), Step(f, i, j), t);
  }

  /** When all keys are equal, any position is minimal. */
  lemma EqualKeysMin(f: seq<Tree>, i: int)
    requires forall k :: 0 <= k < |f| ==> f[k].Rank() == f[0].Rank()
    requires 0 <= i < |f|
    ensures IsMinAt(Ranks(f), i)
  {
  }

  /** The queue after one and after two iterations on "abcde". */
  function TieAfterOne(): seq<Tree>
  {
    [Leaf('b', 1), Leaf('c', 1), Leaf('d', 1), Leaf('e', 1), TieMiddle()[0]]
  }

  function TieAfterTwo(): seq<Tree>
  {
    [Leaf('d', 1), Leaf('e', 1), TieMiddle()[0], TieMiddle()[1]]
  }

  /** The first three iterations are forced: they pair the leaves in key
      order, leaving the three tied nodes. */
  lemma TieStepOne()
    ensures IsStep(AbcdeLeaves(), 0, 0) && Step(AbcdeLeaves(), 0, 0) == TieAfterOne()
  {
    var f := AbcdeLeaves();
    SortedStep(f);
    assert f[2..] + [Merge(f[0], f[1])] == TieAfterOne();
  }

  lemma TieStepTwo()
    ensures IsStep(TieAfterOne(), 0, 0) && Step(TieAfterOne(), 0, 0) == TieAfterTwo()
  {
    var f := TieAfterOne();
    SortedStep(f);
    assert f[2..] + [Merge(f[0], f[1])] == TieAfterTwo();
  }

  lemma TieStepThree()
    ensures IsStep(TieAfterTwo(), 0, 0) && Step(TieAfterTwo(), 0, 0) == TieMiddle()
  {
    var f := TieAfterTwo();
    SortedStep(f);
    assert f[2..] + [Merge(f[0], f[1])] == TieMiddle();
  }

  lemma TieFirstMerges(t: Tree)
    requires Builds(TieMiddle(), t)
    ensures Builds(AbcdeLeaves(), t)
  {
    TieStepOne();
    TieStepTwo();
    TieStepThree();
    BuildsStep(TieAfterTwo(), 0, 0, t);
    BuildsStep(TieAfterOne(), 0, 0, t);
    BuildsStep(AbcdeLeaves(), 0, 0, t);
  }

  /** Polling the first two of the three tied nodes leads to TieLeft. */
  lemma TieLeftSteps()
    ensures IsStep(TieMiddle(), 0, 1)
    ensures IsStep(Step(TieMiddle(), 0, 1), 0, 0) && Step(Step(TieMiddle(), 0, 1), 0, 0) == [TieLeft()]
  {
    var m := TieMiddle();
    EqualKeysMin(m, 0);
    var r0 := Remove(m, 0);
    assert r0 == [m[1], m[2]];
    EqualKeysMin(r0, 1);
    var l := Step(m, 0, 1);
    assert l == [m[1], Node('#', 4, m[0], m[2])];
    SortedStep(l);
  }

  /** Polling the second of the three tied nodes first leads to TieRight. */
  lemma TieRightSteps()
    ensures IsStep(TieMiddle(), 1, 1)
    ensures IsStep(Step(TieMiddle(), 1, 1), 0, 0) && Step(Step(TieMiddle(), 1, 1), 0, 0) == [TieRight()]
  {
    var m := TieMiddle();
    EqualKeysMin(m, 1);
    var r1 := Remove(m, 1);
    assert r1 == [m[0], m[2]];
    EqualKeysMin(r1, 1);
    var r := Step(m, 1, 1);
    assert r == [m[0], Node('#', 4, m[1], m[2])];
    SortedStep(r);
  }

  /** From the three tied nodes, two different pairs can be polled first. */
  lemma TieLastMerges()
    ensures Builds(TieMiddle(), TieLeft()) && Builds(TieMiddle(), TieRight())
  {
    TieLeftSteps();
    TieRightSteps();
    var m := TieMiddle();
    assert Builds([TieLeft()], TieLeft()) && Builds([TieRight()], TieRight());
    BuildsStep(Step(m, 0, 1), 0, 0, TieLeft());
    BuildsStep(m, 0, 1, TieLeft());
    BuildsStep(Step(m, 1, 1), 0, 0, TieRight());
    BuildsStep(m, 1, 1, TieRight());
  }

  lemma TieSymbols()
    ensures DistinctSymbols(TieLeft()) && DistinctSymbols(TieRight())
    ensures Symbols(TieLeft()) == {LINE_SEPARATOR, 'a', 'b', 'c', 'd', 'e'}
  {
    var m := TieMiddle();
    assert Symbols(m[0]) == {LINE_SEPARATOR, 'a'} && DistinctSymbols(m[0]);
    assert Symbols(m[1]) == {'b', 'c'} && DistinctSymbols(m[1]);
    assert Symbols(m[2]) == {'d', 'e'} && DistinctSymbols(m[2]);
  }

  lemma TiePaths()
    ensures LeadsTo(TieLeft(), "101", 'a') && LeadsTo(TieRight(), "01", 'a')
    ensures LeadsTo(TieRight(), "101", 'c')
  {
  }

  /** The two trees give 'a' different codes. */
  lemma TieCodes()
    ensures 'a' in Codes(TieLeft()) && Codes(TieLeft())['a'] == "101"
    ensures 'a' in Codes(TieRight()) && Codes(TieRight())['a'] == "01"
  {
    TieSymbols();
    TiePaths();
    CodeIsPath(TieLeft(), "101", 'a');
    CodeIsPath(TieRight(), "01", 'a');
  }

  /** The packed text starts with the code of 'a' under TieLeft(). */
  lemma TieStream() returns (tail: seq<char>)
    ensures StreamCode(["abcde"], Codes(TieLeft())) == Ok("101" + tail)
  {
    var tl := TieLeft();
    TieSymbols();
    TieCodes();
    CodesMeaning(tl);
    var text := Flatten(["abcde"]);
    assert text == "abcde" + [LINE_SEPARATOR];
    StreamIsFlatten(["abcde"], Codes(tl));
    CharsCodeOk(text, Codes(tl));
    CharsCodeOk(text[1..], Codes(tl));
    tail := CharsCode(text[1..], Codes(tl)).value;
  }

  /** The bits packed with the codes of TieLeft() start with the code of
      'a', which TieRight() reads as 'c': however many of them (three or
      more) are read through TieRight(), the text does not come back. */
  lemma TieMisread(n: int)
    requires n >= 3
    ensures StreamCode(["abcde"], Codes(TieLeft())).Ok?
    ensures var s := StreamCode(["abcde"], Codes(TieLeft())).value;
      Decode(Some(TieRight()), BitsOf(SetBits(s), n)) != Ok(Flatten(["abcde"]))
  {
    var tail := TieStream();
    var s := "101" + tail;
    var bits := BitsOf(SetBits(s), n);
    assert bits == ToBits("101") + bits[3..];
    TiePaths();
    DecodeOneCode(TieRight(), TieRight(), "101", 'c', bits[3..]);
    assert Flatten(["abcde"])[0] == 'a';
  }

  /** The text packed with the codes of TieRight() takes at least three
      bits: two for 'a' and at least one for 'b'. */
  lemma TieRightLength()
    ensures StreamCode(["abcde"], Codes(TieRight())).Ok?
    ensures |StreamCode(["abcde"], Codes(TieRight())).value| >= 3
  {
    var tr := TieRight();
    TieSymbols();
    TieCodes();
    CodesMeaning(tr);
    CodesNonEmpty(tr);
    var text := Flatten(["abcde"]);
    assert text == "abcde" + [LINE_SEPARATOR];
    StreamIsFlatten(["abcde"], Codes(tr));
    CharsCodeOk(text, Codes(tr));
    CharsCodeOk(text[1..], Codes(tr));
    CharsCodeOk(text[2..], Codes(tr));
    assert text[1..][0] == 'b' && text[1..][1..] == text[2..];
  }

  /** The text "abcde" can be built into two different trees; they give 'a'
      different codes, and the bits packed with one decode to a different
      text with the other. */
  lemma TieExample()
    ensures Builds(AbcdeLeaves(), TieLeft()) && Builds(AbcdeLeaves(), TieRight())
    ensures TieLeft() != TieRight()
    ensures 'a' in Codes(TieLeft()) && 'a' in Codes(TieRight())
    ensures Codes(TieLeft())['a'] != Codes(TieRight())['a']
    ensures StreamCode(["abcde"], Codes(TieLeft())).Ok?
    ensures var s := StreamCode(["abcde"], Codes(TieLeft())).value;
      Decode(Some(TieRight()), BitsOf(SetBits(s), |s|)) != Ok(Flatten(["abcde"]))
  {
    TieLastMerges();
    TieFirstMerges(TieLeft());
    TieFirstMerges(TieRight());
    TieCodes();
    var tail := TieStream();
    TieMisread(|"101" + tail|);
  }
}
