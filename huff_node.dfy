/** HuffNode: a mutable node holding a character, a frequency and two child
    references. */
module Nodes {
  import opened Ordering
  import opened Wrappers
  import opened CodeTree
  import opened Huffman

  class HuffNode {
    var c: char
    var fq: int
    var left: HuffNode?
    var right: HuffNode?

    /** The finished tree this node is the root of. */
    ghost var Model: Tree
    /** This node and every node below it. */
    ghost var Repr: set<HuffNode>

    /** The node is the root of a finite tree whose internal nodes have two
        distinct children with disjoint subtrees, and Model is its value. */
    ghost predicate Valid()
      reads this, Repr
    {
      this in Repr &&
      if left == null && right == null then
        Repr == {this} && Model == Leaf(c, fq)
      else
        left != null && right != null &&
        left in Repr && right in Repr &&
        left.Repr <= Repr && right.Repr <= Repr &&
        this !in left.Repr && this !in right.Repr &&
        left.Repr !! right.Repr &&
        Repr == {this} + left.Repr + right.Repr &&
        left.Valid() && right.Valid() &&
        Model == Node(c, fq, left.Model, right.Model)
    }

    /** A valid node's Model carries its own character and frequency, and the
        callers' test left == right holds exactly for leaves. */
    lemma ValidFacts()
      requires Valid()
      ensures Model.ch == c && Model.w == fq
      ensures (left == right) <==> Model.Leaf?
      ensures Model.Leaf? ==> left == null && right == null
      ensures Model.Node? ==> left != null && right != null && left != right
    {
      if left != null && right != null {
        assert left in left.Repr && right in right.Repr;
      }
    }

    /** new HuffNode(c, fq): both children start null. */
    constructor (c: char, fq: int)
      ensures this.c == c && this.fq == fq && left == null && right == null
      ensures Valid() && Model == Leaf(c, fq) && Repr == {this}
    {
      this.c := c;
      this.fq := fq;
      left := null;
      right := null;
      Model := Leaf(c, fq);
      Repr := {this};
    }

    function GetCharacter(): (r: char)
      reads this
      ensures r == c
    {
      c
    }

    function GetFrequency(): (r: int)
      reads this
      ensures r == fq
    {
      fq
    }

    function GetLeftChild(): (r: HuffNode?)
      reads this
      ensures r == left
    {
      left
    }

    function GetRightChild(): (r: HuffNode?)
      reads this
      ensures r == right
    {
      right
    }

    /** The key HUFF_COMP compares this node by. */
    function Key(): (k: Key)
      reads this
      ensures k.fq == fq && k.c == c
    {
      Ordering.Key(GetFrequency(), GetCharacter())
    }

    method SetCharacter(c: char)
      modifies this`c
      ensures this.c == c
    {
      this.c := c;
    }

    method SetFrequency(fq: int)
      modifies this`fq
      ensures this.fq == fq
    {
      this.fq := fq;
    }

    method SetLeftChild(s: HuffNode?)
      modifies this`left
      ensures left == s
    {
      left := s;
    }

    method SetRightChild(s: HuffNode?)
      modifies this`right
      ensures right == s
    {
      right := s;
    }
  }

  /** The keys HUFF_COMP sees for a sequence of nodes. */
  function KeysOf(ns: seq<HuffNode>): (r: seq<Key>)
    reads ns
    ensures |r| == |ns|
    ensures forall k :: 0 <= k < |ns| ==> r[k] == ns[k].Key()
  {
    seq(|ns|, k requires 0 <= k < |ns| reads ns => ns[k].Key())
  }

  /** The trees a sequence of nodes stands for. */
  ghost function Models(ns: seq<HuffNode>): (r: seq<Tree>)
    reads ns
    ensures |r| == |ns|
    ensures forall k :: 0 <= k < |ns| ==> r[k] == ns[k].Model
  {
    seq(|ns|, k requires 0 <= k < |ns| reads ns => ns[k].Model)
  }

  /** Every node of the forest ns is valid and no two share a node. */
  ghost predicate ValidForest(ns: seq<HuffNode>)
    reads ns, set k, n | 0 <= k < |ns| && n in ns[k].Repr :: n
  {
    (forall k :: 0 <= k < |ns| ==> ns[k].Valid()) &&
    (forall p, q :: 0 <= p < |ns| && 0 <= q < |ns| && p != q ==> ns[p].Repr !! ns[q].Repr)
  }

  /** A valid node stays valid, with the same Model, while none of its
      nodes changes. */
  twostate lemma StillValid(n: HuffNode)
    requires old(n.Valid()) && unchanged(old(n.Repr))
    ensures n.Valid() && n.Model == old(n.Model) && n.Repr == old(n.Repr)
  {
  }

  /** A forest stays a forest, standing for the same trees, while none of
      its nodes changes. */
  twostate lemma ForestStill(ns: seq<HuffNode>)
    requires old(ValidForest(ns))
    requires forall k :: 0 <= k < |ns| ==> unchanged(old(ns[k].Repr))
    ensures ValidForest(ns) && Models(ns) == old(Models(ns))
  {
    forall k | 0 <= k < |ns| ensures ns[k].Valid() && ns[k].Repr == old(ns[k].Repr) {
      StillValid(ns[k]);
    }
  }

  /** Every node below a valid root is valid and its subtree lies inside
      the root's. */
  lemma {:induction false} BelowValid(root: HuffNode, p: HuffNode)
    requires root.Valid() && p in root.Repr
    ensures p.Valid() && p.Repr <= root.Repr
    decreases root.Repr
  {
    if p != root {
      if p in root.left.Repr {
        BelowValid(root.left, p);
      } else {
        BelowValid(root.right, p);
      }
    }
  }

  /** The keys of valid nodes are the keys of the trees they stand for. */
  lemma KeysAreRanks(ns: seq<HuffNode>)
    requires forall k :: 0 <= k < |ns| ==> ns[k].Valid()
    ensures KeysOf(ns) == Ranks(Models(ns))
  {
    forall k | 0 <= k < |ns| ensures KeysOf(ns)[k] == Ranks(Models(ns))[k] {
      ns[k].ValidFacts();
    }
  }

  /** Taking a node out of a forest keeps the rest a forest, apart from it. */
  lemma ForestRemove(ns: seq<HuffNode>, i: int)
    requires ValidForest(ns) && 0 <= i < |ns|
    ensures ValidForest(Remove(ns, i)) && ns[i].Valid()
    ensures forall k :: 0 <= k < |ns| - 1 ==> ns[i].Repr !! Remove(ns, i)[k].Repr
    ensures Models(Remove(ns, i)) == Remove(Models(ns), i)
  {
    var r := Remove(ns, i);
    forall p, q | 0 <= p < |r| && 0 <= q < |r| && p != q ensures r[p].Repr !! r[q].Repr {
      var p' := if p < i then p else p + 1;
      var q' := if q < i then q else q + 1;
      assert r[p] == ns[p'] && r[q] == ns[q'];
    }
    forall k | 0 <= k < |r| ensures ns[i].Repr !! r[k].Repr && r[k].Valid() {
      var k' := if k < i then k else k + 1;
      assert r[k] == ns[k'];
    }
  }

  /** Adding a valid tree that shares no node with the forest keeps it one. */
  lemma ForestAppend(ns: seq<HuffNode>, x: HuffNode)
    requires ValidForest(ns) && x.Valid()
    requires forall k :: 0 <= k < |ns| ==> x.Repr !! ns[k].Repr
    ensures ValidForest(ns + [x])
    ensures Models(ns + [x]) == Models(ns) + [x.Model]
  {
  }
}
