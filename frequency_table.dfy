/** FrequencyTable: the 128-slot occurrence counts of the text and the set of
    leaf nodes made from the slots that are not zero. */
module Frequencies {
  import opened Wrappers
  import opened CodeTree
  import opened Nodes
  import opened Text

  /** A node as createSet makes it: no children, standing for a leaf. */
  ghost predicate IsLeafNode(n: HuffNode)
    reads n
  {
    n.left == null && n.right == null && n.Repr == {n} && n.Model == Leaf(n.c, n.fq)
  }

  /** s holds exactly one leaf node (i, counts[i]) for every slot i whose
      count is not zero, and nothing else. */
  ghost predicate IsSetOf(s: set<HuffNode>, counts: seq<int>)
    reads s
  {
    (forall n :: n in s ==>
       (IsLeafNode(n) && (n.c as int) < |counts| && counts[n.c as int] != 0 && n.fq == counts[n.c as int])) &&
    (forall i :: 0 <= i < |counts| && counts[i] != 0 ==> exists n :: n in s && n.c as int == i) &&
    (forall a, b :: a in s && b in s && a.c == b.c ==> a == b)
  }

  /** The counts createTable leaves for a text, slot by slot. */
  function Counts(lines: seq<seq<char>>): (r: seq<int>)
    ensures |r| == NUM_ASCII
    ensures forall c :: 0 <= c < NUM_ASCII ==> r[c] == Count(lines, c as char)
  {
    seq(NUM_ASCII, c requires 0 <= c < NUM_ASCII => Count(lines, c as char))
  }

  /** The sum over a set of nodes of frequency * len(character): the total
      numOfBits accumulates, in whatever order the set is iterated. */
  ghost function Weighted(s: set<HuffNode>, len: char -> int): int
    reads s
    decreases s
  {
    if s == {} then 0
    else
      var n :| n in s;
      n.fq * len(n.c) + Weighted(s - {n}, len)
  }

  /** Weighted does not depend on which element is taken first. */
  lemma {:induction false} WeightedRemove(s: set<HuffNode>, len: char -> int, x: HuffNode)
    requires x in s
    ensures Weighted(s, len) == x.fq * len(x.c) + Weighted(s - {x}, len)
    decreases |s|
  {
    var y :| y in s && Weighted(s, len) == y.fq * len(y.c) + Weighted(s - {y}, len);
    if y != x {
      WeightedRemove(s - {y}, len, x);
      WeightedRemove(s - {x}, len, y);
      assert s - {y} - {x} == s - {x} - {y};
    }
  }

  /** The nodes of s for the first n slots. */
  ghost function Below(s: set<HuffNode>, n: int): set<HuffNode>
    reads s
  {
    set x | x in s && (x.c as int) < n
  }

  /** The node of slot n - 1 is the only node below n and not below n - 1. */
  lemma BelowSplit(s: set<HuffNode>, counts: seq<int>, n: nat, x: HuffNode)
    requires IsSetOf(s, counts) && x in s && x.c as int == n - 1
    ensures x in Below(s, n) && Below(s, n) - {x} == Below(s, n - 1)
  {
    forall y | y in Below(s, n) - {x}
      ensures (y.c as int) < n - 1
    {
      assert y in s && y != x;
      assert y.c != x.c;
    }
  }

  /** A slot with count zero has no node. */
  lemma BelowSame(s: set<HuffNode>, counts: seq<int>, n: nat)
    requires IsSetOf(s, counts) && 0 < n <= |counts| && counts[n - 1] == 0
    ensures Below(s, n) == Below(s, n - 1)
  {
    forall y | y in Below(s, n)
      ensures (y.c as int) < n - 1
    {
      assert counts[y.c as int] != 0;
    }
  }

  /** Slot n - 1 adds its count times len of its character to the sum over
      the nodes below n: the one node of that slot, or nothing when its count
      is zero. */
  lemma BelowStep(s: set<HuffNode>, counts: seq<int>, len: char -> int, n: nat)
    requires IsSetOf(s, counts) && 0 < n <= |counts| <= NUM_ASCII
    ensures Weighted(Below(s, n), len) == Weighted(Below(s, n - 1), len) + counts[n - 1] * len((n - 1) as char)
  {
    if counts[n - 1] != 0 {
      var x :| x in s && x.c as int == n - 1;
      BelowSplit(s, counts, n, x);
      WeightedRemove(Below(s, n), len, x);
      assert x.c == (n - 1) as char && x.fq == counts[n - 1];
    } else {
      BelowSame(s, counts, n);
    }
  }

  /** Summed over the set createSet makes from a text's counts, frequency *
      len(character) is the per-character tally of the normalised text. */
  lemma {:induction false} WeightedIsTally(s: set<HuffNode>, lines: seq<seq<char>>, len: char -> int, n: nat)
    requires IsSetOf(s, Counts(lines)) && n <= NUM_ASCII
    ensures Weighted(Below(s, n), len) == Tally(Flatten(lines), len, n)
  {
    if n == 0 {
      assert Below(s, n) == {};
    } else {
      WeightedIsTally(s, lines, len, n - 1);
      BelowStep(s, Counts(lines), len, n);
      CountIsOccurrences(lines, (n - 1) as char);
    }
  }

  /** Weighted with len over the set made from the counts of a text is the
      tally of the text, i.e. the cost of the text character by character. */
  lemma SetCost(s: set<HuffNode>, lines: seq<seq<char>>, len: char -> int)
    requires IsSetOf(s, Counts(lines)) && AllAscii(lines)
    ensures Weighted(s, len) == SeqCost(Flatten(lines), len)
  {
    WeightedIsTally(s, lines, len, NUM_ASCII);
    assert Below(s, NUM_ASCII) == s;
    FlattenFacts(lines);
    TallyIsSeqCost(Flatten(lines), len);
  }

  /** The frequencies of the set add up to the number of characters read
      plus one per line; all of them are positive. */
  lemma SetTotals(s: set<HuffNode>, lines: seq<seq<char>>)
    requires IsSetOf(s, Counts(lines)) && AllAscii(lines)
    ensures Weighted(s, _ => 1) == TotalChars(lines) + |lines|
    ensures forall n :: n in s ==> n.fq > 0
  {
    SetCost(s, lines, _ => 1);
    FlattenFacts(lines);
    SeqCostOnes(Flatten(lines));
  }

  /** No lines, no counts: the set is empty. */
  lemma EmptyText(s: set<HuffNode>)
    requires IsSetOf(s, Counts([]))
    ensures s == {}
  {
    if x :| x in s {
      assert false;
    }
  }

  /** The leaves createSet makes from the first n slots, in slot order: one
      leaf (c, counts[c]) for every slot c whose count is not zero. */
  function Leaves(counts: seq<int>, n: nat): (r: seq<Tree>)
    requires n <= |counts| && n <= NUM_ASCII
    ensures forall k :: 0 <= k < |r| ==>
      r[k].Leaf? && (r[k].ch as int) < n && counts[r[k].ch as int] != 0 && r[k].w == counts[r[k].ch as int]
    ensures forall p, q :: 0 <= p < q < |r| ==> r[p].ch < r[q].ch
  {
    if n == 0 then []
    else
      var before := Leaves(counts, n - 1);
      if counts[n - 1] == 0 then before
      else before + [Leaf((n - 1) as char, counts[n - 1])]
  }

  /** The leaves createSet makes from a whole table. */
  function SlotLeaves(counts: seq<int>): seq<Tree>
    requires |counts| <= NUM_ASCII
  {
    Leaves(counts, |counts|)
  }

  /** Every slot whose count is not zero has its leaf among the leaves. */
  lemma {:induction false} LeavesCover(counts: seq<int>, n: nat, c: int)
    requires n <= |counts| && n <= NUM_ASCII && 0 <= c < n && counts[c] != 0
    ensures Leaf(c as char, counts[c]) in Leaves(counts, n)
  {
    var x := Leaf(c as char, counts[c]);
    if c < n - 1 {
      LeavesCover(counts, n - 1, c);
      var before := Leaves(counts, n - 1);
      var k :| 0 <= k < |before| && before[k] == x;
      if counts[n - 1] != 0 {
        assert (before + [Leaf((n - 1) as char, counts[n - 1])])[k] == x;
      }
    } else {
      assert Leaves(counts, n)[|Leaves(counts, n)| - 1] == x;
    }
  }

  /** A slot whose count is not zero adds its leaf at the end. */
  lemma LeafSlot(counts: seq<int>, n: nat)
    requires n < |counts| && n < NUM_ASCII && counts[n] != 0
    ensures Leaves(counts, n + 1) == Leaves(counts, n) + [Leaf(n as char, counts[n])]
  {
  }

  /** Slots whose count is zero add no leaves: the leaves of the first n
      slots are those of the first m when slots m to n - 1 are all zero. */
  lemma {:induction false} LeavesSkip(counts: seq<int>, m: nat, n: nat)
    requires m <= n <= |counts| && n <= NUM_ASCII
    requires forall c :: m <= c < n ==> counts[c] == 0
    ensures Leaves(counts, n) == Leaves(counts, m)
  {
    if n > m {
      LeavesSkip(counts, m, n - 1);
    }
  }

  /** The leaves made from a text's counts are those of the characters of
      the normalised text; there are none exactly when there are no lines. */
  lemma TextLeaves(lines: seq<seq<char>>)
    requires AllAscii(lines)
    ensures var l := SlotLeaves(Counts(lines));
      forall c :: (exists k :: 0 <= k < |l| && l[k].ch == c) <==> c in Flatten(lines)
    ensures SlotLeaves(Counts(lines)) == [] <==> lines == []
  {
    var counts := Counts(lines);
    var l := SlotLeaves(counts);
    FlattenFacts(lines);
    forall c ensures (exists k :: 0 <= k < |l| && l[k].ch == c) <==> c in Flatten(lines) {
      CountIsOccurrences(lines, c);
      if c in Flatten(lines) {
        var i :| 0 <= i < |Flatten(lines)| && Flatten(lines)[i] == c;
        assert (c as int) < NUM_ASCII;
        assert counts[c as int] == Count(lines, c);
        LeavesCover(counts, NUM_ASCII, c as int);
      }
    }
    if lines == [] {
      LeavesSkip(counts, 0, NUM_ASCII);
    } else {
      assert Flatten(lines)[|lines[0]|] == LINE_SEPARATOR;
      assert LINE_SEPARATOR in Flatten(lines);
    }
  }

  /** A text's counts give a single leaf exactly when it has a line and its
      lines hold nothing but separators: the separator is then the only
      symbol. */
  lemma OneLeafText(lines: seq<seq<char>>)
    requires AllAscii(lines)
    ensures |SlotLeaves(Counts(lines))| == 1 <==> lines != [] && OnlySeparators(lines)
  {
    var l := SlotLeaves(Counts(lines));
    TextLeaves(lines);
    OnlySeparatorsFlatten(lines);
    if |l| == 1 {
      SeparatorInText(lines);
      assert exists k :: 0 <= k < |l| && l[k].ch == LINE_SEPARATOR;
      forall c | c in Flatten(lines) ensures c == LINE_SEPARATOR {
        assert exists k :: 0 <= k < |l| && l[k].ch == c;
      }
      assert SeparatorsOnly(Flatten(lines));
    }
    if lines != [] && OnlySeparators(lines) {
      var counts := Counts(lines);
      var sep := LINE_SEPARATOR as int;
      forall c | 0 <= c < NUM_ASCII && c != sep ensures counts[c] == 0 {
        CountIsOccurrences(lines, c as char);
        assert SeparatorsOnly(Flatten(lines));
        assert (c as char) !in Flatten(lines);
        assert (c as char) !in multiset(Flatten(lines));
      }
      SeparatorInText(lines);
      CountIsOccurrences(lines, LINE_SEPARATOR);
      LeavesSkip(counts, 0, sep);
      LeafSlot(counts, sep);
      LeavesSkip(counts, sep + 1, NUM_ASCII);
    }
  }

  /** A queue filled from a set of leaf nodes with distinct characters is
      a forest of single-node trees with distinct characters. */
  lemma ForestOfSet(s: set<HuffNode>, counts: seq<int>, ns: seq<HuffNode>)
    requires IsSetOf(s, counts) && multiset(ns) == multiset(s)
    ensures forall k :: 0 <= k < |ns| ==> ns[k] in s
    ensures ValidForest(ns)
    ensures forall k :: 0 <= k < |ns| ==> ns[k].Model.Leaf?
    ensures forall p, q :: 0 <= p < |ns| && 0 <= q < |ns| && p != q ==> ns[p].Model.ch != ns[q].Model.ch
  {
    SetSeqNoDuplicates(ns, s);
    forall k | 0 <= k < |ns| ensures ns[k] in s {
      assert ns[k] in multiset(ns);
    }
  }

  /** Every node of the set has the character of some slot leaf. */
  lemma SetInLeaves(s: set<HuffNode>, counts: seq<int>)
    requires IsSetOf(s, counts) && |counts| <= NUM_ASCII
    ensures forall n :: n in s ==>
      exists k :: 0 <= k < |SlotLeaves(counts)| && SlotLeaves(counts)[k].ch == n.c
  {
    var l := SlotLeaves(counts);
    forall n | n in s
      ensures exists k :: 0 <= k < |l| && l[k].ch == n.c
    {
      var c := n.c as int;
      LeavesCover(counts, |counts|, c);
      var k :| 0 <= k < |l| && l[k] == Leaf(c as char, counts[c]);
      assert l[k].ch == n.c;
    }
  }

  /** Each node of the queue stands for one of the slot leaves. */
  lemma ModelInLeaves(s: set<HuffNode>, counts: seq<int>, ns: seq<HuffNode>, x: Tree)
    requires IsSetOf(s, counts) && |counts| <= NUM_ASCII
    requires forall k :: 0 <= k < |ns| ==> ns[k] in s
    requires x in Models(ns)
    ensures x in SlotLeaves(counts)
  {
    var m := Models(ns);
    var k :| 0 <= k < |m| && m[k] == x;
    assert ns[k] in s;
    assert x == Leaf((ns[k].c as int) as char, counts[ns[k].c as int]);
    LeavesCover(counts, |counts|, ns[k].c as int);
  }

  /** Each slot leaf is stood for by a node of the queue. */
  lemma LeafInModels(s: set<HuffNode>, counts: seq<int>, ns: seq<HuffNode>, x: Tree)
    requires IsSetOf(s, counts) && |counts| <= NUM_ASCII && multiset(ns) == multiset(s)
    requires x in SlotLeaves(counts)
    ensures x in Models(ns)
  {
    var c := x.ch as int;
    var n :| n in s && n.c as int == c;
    assert n in multiset(ns);
    var k :| 0 <= k < |ns| && ns[k] == n;
    assert Models(ns)[k] == x;
  }

  /** What such a queue stands for is the slot leaves in some order. */
  lemma QueueOfSet(s: set<HuffNode>, counts: seq<int>, ns: seq<HuffNode>)
    requires IsSetOf(s, counts) && |counts| <= NUM_ASCII && multiset(ns) == multiset(s)
    ensures ValidForest(ns)
    ensures forall k :: 0 <= k < |ns| ==> ns[k].Model.Leaf?
    ensures forall p, q :: 0 <= p < |ns| && 0 <= q < |ns| && p != q ==> ns[p].Model.ch != ns[q].Model.ch
    ensures multiset(Models(ns)) == multiset(SlotLeaves(counts))
  {
    ForestOfSet(s, counts, ns);
    var m := Models(ns);
    var l := SlotLeaves(counts);
    forall x | x in m ensures x in l {
      ModelInLeaves(s, counts, ns, x);
    }
    forall x | x in l ensures x in m {
      LeafInModels(s, counts, ns, x);
    }
    SameElements(m, l);
  }

  /** A slot with count zero adds no node to the set. */
  lemma SetOfZero(s: set<HuffNode>, counts: seq<int>)
    requires IsSetOf(s, counts)
    ensures IsSetOf(s, counts + [0])
  {
    var ext := counts + [0];
    forall i | 0 <= i < |ext| && ext[i] != 0
      ensures exists n :: n in s && n.c as int == i
    {
      assert ext[i] == counts[i];
    }
  }

  /** A slot with a non-zero count adds the one leaf node for it. */
  lemma SetOfAdd(s: set<HuffNode>, counts: seq<int>, node: HuffNode)
    requires IsSetOf(s, counts) && node !in s
    requires IsLeafNode(node) && node.c as int == |counts| && node.fq != 0
    ensures IsSetOf(s + {node}, counts + [node.fq])
  {
    var ext := counts + [node.fq];
    forall i | 0 <= i < |ext| && ext[i] != 0
      ensures exists n :: n in s + {node} && n.c as int == i
    {
      if i < |counts| {
        assert ext[i] == counts[i];
        var n :| n in s && n.c as int == i;
        assert n in s + {node};
      } else {
        assert node in s + {node};
      }
    }
  }

  class FrequencyTable {
    /** The counts; null in a table made for decompression. */
    var fq: array?<int>
    /** The set of leaf nodes (the field set of the Java class). */
    var nodes: set<HuffNode>

    /** new FrequencyTable(filename): 128 slots, all zero. The set is not
        made yet, which the model writes as empty. */
    constructor Counting()
      ensures fq != null && fresh(fq) && fq.Length == NUM_ASCII
      ensures forall i :: 0 <= i < NUM_ASCII ==> fq[i] == 0
      ensures nodes == {}
    {
      fq := new int[NUM_ASCII](_ => 0);
      nodes := {};
    }

    /** new FrequencyTable() followed by deserializeSet: the persisted set
        and no counts. */
    constructor Restored(persisted: set<HuffNode>)
      ensures fq == null && nodes == persisted
    {
      fq := null;
      nodes := persisted;
    }

    /** length(): the number of slots. */
    function Length(): (n: int)
      reads this
      ensures n == NUM_ASCII
      ensures fq != null && fq.Length == NUM_ASCII ==> n == fq.Length
    {
      NUM_ASCII
    }

    /** index(i): slot i; a null array or a bad index throws. */
    function Index(i: int): (r: Result<int>)
      reads this, fq
      ensures fq == null ==> r == Err(NullPointer)
      ensures fq != null && 0 <= i < fq.Length ==> r == Ok(fq[i])
      ensures fq != null && !(0 <= i < fq.Length) ==> r == Err(ArrayIndexOutOfBounds)
    {
      if fq == null then Err(NullPointer)
      else if 0 <= i < fq.Length then Ok(fq[i])
      else Err(ArrayIndexOutOfBounds)
    }

    /** createSet: one fresh leaf node per non-zero slot. */
    method CreateSet()
      requires fq != null && fq.Length == NUM_ASCII
      modifies this`nodes
      ensures IsSetOf(nodes, fq[..])
      ensures forall n :: n in nodes ==> fresh(n)
    {
      nodes := {};
      for i := 0 to NUM_ASCII
        invariant IsSetOf(nodes, fq[..i])
        invariant forall n :: n in nodes ==> fresh(n)
      {
        assert fq[..i + 1] == fq[..i] + [fq[i]];
        if fq[i] != 0 {
          var node := new HuffNode(i as char, fq[i]);
          SetOfAdd(nodes, fq[..i], node);
          nodes := nodes + {node};
        } else {
          SetOfZero(nodes, fq[..i]);
        }
      }
      assert fq[..NUM_ASCII] == fq[..];
    }

    /** The body of createTable's line loop: every character of the line
        adds one to its slot, then the separator's slot gets one more. */
    method CountLine(tmp: seq<char>)
      requires fq != null && fq.Length == NUM_ASCII && IsAscii(tmp)
      modifies fq
      ensures forall c :: 0 <= c < NUM_ASCII ==>
        fq[c] == old(fq[c]) + multiset(tmp)[c as char] + (if c == LINE_SEPARATOR as int then 1 else 0)
    {
      for i := 0 to |tmp|
        invariant forall c :: 0 <= c < NUM_ASCII ==> fq[c] == old(fq[c]) + multiset(tmp[..i])[c as char]
      {
        var c := tmp[i];
        assert tmp[..i + 1] == tmp[..i] + [c];
        fq[c as int] := fq[c as int] + 1;
      }
      assert tmp[..|tmp|] == tmp;
      fq[LINE_SEPARATOR as int] := fq[LINE_SEPARATOR as int] + 1;
    }

    /** createTable: every line is counted, then createSet. */
    method CreateTable(lines: seq<seq<char>>)
      requires fq != null && fq.Length == NUM_ASCII
      requires AllAscii(lines)
      modifies this`nodes, fq
      ensures fq == old(fq)
      ensures forall c :: 0 <= c < NUM_ASCII ==> fq[c] == old(fq[c]) + Count(lines, c as char)
      ensures IsSetOf(nodes, fq[..])
      ensures forall n :: n in nodes ==> fresh(n)
    {
      var n := 0;
      assert lines[..n] == [];
      assert forall c: char :: Count(lines[..n], c) == 0;
      while n < |lines|
        invariant 0 <= n <= |lines|
        invariant forall c :: 0 <= c < NUM_ASCII ==> fq[c] == old(fq[c]) + Count(lines[..n], c as char)
      {
        ghost var before := fq[..];
        CountLine(lines[n]);
        assert lines[..n + 1] == lines[..n] + [lines[n]];
        forall c | 0 <= c < NUM_ASCII
          ensures fq[c] == old(fq[c]) + Count(lines[..n + 1], c as char)
        {
          CountSnoc(lines[..n], lines[n], c as char);
          assert fq[c] == before[c] + multiset(lines[n])[c as char] + (if c == LINE_SEPARATOR as int then 1 else 0);
        }
        n := n + 1;
      }
      assert lines[..n] == lines;
      CreateSet();
    }
  }
}
