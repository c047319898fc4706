/** HuffmanTree: builds the tree from a priority queue of nodes and walks it
    to make the code table. */
module Trees {
  import opened Wrappers
  import opened Ordering
  import opened CodeTree
  import opened Huffman
  import opened Coding
  import opened Nodes
  import opened JavaUtil

  /** The builder after a node's call: its caller's appended bit removed, or
      left empty for the root's call. */
  function DropLast(s: seq<char>): (r: seq<char>)
    ensures s != [] ==> r == s[..|s| - 1]
    ensures s == [] ==> r == []
  {
    if s == [] then [] else s[..|s| - 1]
  }

  /** The body of the buildTree loop up to the add: a new node '#' whose
      frequency is the sum of both, with the first polled on the left. */
  method Link(left: HuffNode, right: HuffNode) returns (node: HuffNode)
    requires left.Valid() && right.Valid() && left.Repr !! right.Repr
    ensures fresh(node) && node.Valid()
    ensures node.Model == Merge(left.Model, right.Model)
    ensures node.Repr == {node} + left.Repr + right.Repr
    ensures node.left == left && node.right == right
  {
    left.ValidFacts();
    right.ValidFacts();
    var totalFq := left.GetFrequency() + right.GetFrequency();
    var c := '#';
    node := new HuffNode(c, totalFq);
    node.SetLeftChild(left);
    node.SetRightChild(right);
    node.Model := Node(c, totalFq, left.Model, right.Model);
    node.Repr := {node} + left.Repr + right.Repr;
  }

  /** One poll, stated on the forest f the queue stands for: null on an
      empty queue, otherwise a valid node with a minimal key, taken out of a
      queue that remains a forest apart from it. */
  method PollOne(pQueue: PriorityQueue, ghost f: seq<Tree>) returns (x: HuffNode?, ghost i: int)
    requires ValidForest(pQueue.contents) && Models(pQueue.contents) == f
    modifies pQueue`contents
    ensures ValidForest(pQueue.contents)
    ensures f == [] ==> x == null && pQueue.contents == []
    ensures f != [] ==> (x != null && x.Valid() && IsMinAt(Ranks(f), i) && x.Model == f[i] &&
      Models(pQueue.contents) == Remove(f, i) && x == old(pQueue.contents)[i] &&
      pQueue.contents == Remove(old(pQueue.contents), i) &&
      forall k :: 0 <= k < |pQueue.contents| ==> x.Repr !! pQueue.contents[k].Repr)
  {
    ghost var before := pQueue.contents;
    KeysAreRanks(before);
    x, i := pQueue.Poll();
    if x != null {
      ForestRemove(before, i);
    }
  }

  /** The two polls that open each round of buildTree. When the second finds
      the queue empty, the first one's result (or null) is all that was
      left; otherwise the two polls are a legal step of the forest. */
  method PollPair(pQueue: PriorityQueue, ghost f: seq<Tree>) returns (left: HuffNode?, right: HuffNode?, ghost i: int, ghost j: int)
    requires ValidForest(pQueue.contents) && Models(pQueue.contents) == f
    modifies pQueue`contents
    ensures ValidForest(pQueue.contents)
    ensures left != null ==> (left.Valid() &&
      forall k :: 0 <= k < |pQueue.contents| ==> left.Repr !! pQueue.contents[k].Repr)
    ensures right != null ==> (left != null && right.Valid() && left.Repr !! right.Repr &&
      forall k :: 0 <= k < |pQueue.contents| ==> right.Repr !! pQueue.contents[k].Repr)
    ensures right != null ==> (IsStep(f, i, j) && left.Model == f[i] &&
      right.Model == Remove(f, i)[j] && Models(pQueue.contents) == Remove(Remove(f, i), j))
    ensures right == null ==> (pQueue.contents == [] &&
      (left == null ==> f == []) && (left != null ==> f == [left.Model]))
  {
    left, i := PollOne(pQueue, f);
    if left == null {
      right, j := null, -1;
      return;
    }
    ghost var rest := Remove(f, i);
    ghost var mid := pQueue.contents;
    right, j := PollOne(pQueue, rest);
    if right == null {
      assert |f| == 1;
    } else {
      assert right == mid[j];
      forall k | 0 <= k < |pQueue.contents|
        ensures left.Repr !! pQueue.contents[k].Repr
      {
        assert pQueue.contents[k] == mid[if k < j then k else k + 1];
      }
    }
  }

  /** The rest of a round: link the two polled nodes and add the new node
      back, which moves the queue's forest one step on. */
  method LinkAdd(pQueue: PriorityQueue, left: HuffNode, right: HuffNode, ghost f: seq<Tree>, ghost i: int, ghost j: int)
    requires ValidForest(pQueue.contents)
    requires left.Valid() && forall k :: 0 <= k < |pQueue.contents| ==> left.Repr !! pQueue.contents[k].Repr
    requires right.Valid() && left.Repr !! right.Repr
    requires forall k :: 0 <= k < |pQueue.contents| ==> right.Repr !! pQueue.contents[k].Repr
    requires IsStep(f, i, j) && left.Model == f[i] && right.Model == Remove(f, i)[j]
    requires Models(pQueue.contents) == Remove(Remove(f, i), j)
    modifies pQueue`contents
    ensures ValidForest(pQueue.contents) && Models(pQueue.contents) == Step(f, i, j)
  {
    ghost var ns := pQueue.contents;
    label Before:
    var node := Link(left, right);
    ForestStill@Before(ns);
    ForestAppend(ns, node);
    label Linked:
    pQueue.Add(node);
    ForestStill@Linked(ns + [node]);
  }

  /** A tree object stays valid, with the same shape, while neither it nor
      any of its nodes changes. */
  twostate lemma TreeStill(h: HuffmanTree)
    requires old(h.Valid()) && unchanged(h)
    requires old(h.root) != null ==> unchanged(old(h.root.Repr))
    ensures h.Valid() && h.Shape() == old(h.Shape())
  {
    if h.root != null {
      StillValid(h.root);
    }
  }

  class HuffmanTree {
    var root: HuffNode?

    /** A null root or the root of a valid tree. */
    ghost predicate Valid()
      reads this, if root != null then {root} + root.Repr else {}
    {
      root != null ==> root.Valid()
    }

    /** The tree as a value: None for a null root. */
    ghost function Shape(): Option<Tree>
      reads this, root
    {
      if root == null then None else Some(root.Model)
    }

    /** new HuffmanTree(pQueue): starts from a null root and runs
        buildTree. */
    constructor (pQueue: PriorityQueue)
      requires ValidForest(pQueue.contents)
      modifies pQueue`contents
      ensures Valid() && pQueue.contents == []
      ensures root == null <==> old(pQueue.contents) == []
      ensures root != null ==> Builds(old(Models(pQueue.contents)), root.Model)
    {
      root := null;
      new;
      BuildTree(pQueue);
    }

    /** buildTree: poll two nodes, link them under a new '#' node of their
        total frequency (the first polled on the left), add it back, until
        the second poll finds the queue empty; the last node polled, or
        null, is the root. */
    method BuildTree(pQueue: PriorityQueue)
      requires ValidForest(pQueue.contents)
      modifies this`root, pQueue`contents
      ensures Valid() && pQueue.contents == []
      ensures root == null <==> old(pQueue.contents) == []
      ensures root != null ==> Builds(old(Models(pQueue.contents)), root.Model)
    {
      ghost var init := Models(pQueue.contents);
      ghost var f := init;
      var left, right, i, j := PollPair(pQueue, f);
      while right != null
        invariant ValidForest(pQueue.contents)
        invariant left != null ==> (left.Valid() &&
          forall k :: 0 <= k < |pQueue.contents| ==> left.Repr !! pQueue.contents[k].Repr)
        invariant right != null ==> (left != null && right.Valid() && left.Repr !! right.Repr &&
          forall k :: 0 <= k < |pQueue.contents| ==> right.Repr !! pQueue.contents[k].Repr)
        invariant right != null ==> (IsStep(f, i, j) && left.Model == f[i] &&
          right.Model == Remove(f, i)[j] && Models(pQueue.contents) == Remove(Remove(f, i), j))
        invariant right == null ==> (pQueue.contents == [] &&
          (left == null ==> f == []) && (left != null ==> f == [left.Model]))
        invariant forall t :: Builds(f, t) ==> Builds(init, t)
        invariant init != [] ==> f != []
        decreases |f|
      {
        LinkAdd(pQueue, left, right, f, i, j);
        ghost var next := Step(f, i, j);
        forall t | Builds(next, t) ensures Builds(init, t) {
          BuildsStep(f, i, j, t);
        }
        f := next;
        left, right, i, j := PollPair(pQueue, f);
      }
      root := left;
    }

    function GetRoot(): (r: HuffNode?)
      reads this
      ensures r == root
    {
      root
    }

    /** traverseTree(root, code, map): on a node without children put the
        builder's contents for its character and delete the last character;
        otherwise append '0', walk the left subtree, append '1', walk the
        right subtree, and delete the last character unless the builder is
        empty. A null node throws at once; deleting from an empty builder
        throws after the put. */
    method TraverseTree(root: HuffNode?, code: StringBuilder, table: HashMap) returns (o: Outcome)
      requires root != null ==> root.Valid()
      modifies code`chars, table`entries
      decreases if root == null then {} else root.Repr
      ensures root == null ==>
        o == Fail(NullPointer) && code.chars == old(code.chars) && table.entries == old(table.entries)
      ensures root != null && root.Model.Leaf? && old(code.chars) == [] ==>
        o == Fail(StringIndexOutOfBounds) && code.chars == [] &&
        table.entries == old(table.entries)[root.c := []]
      ensures root != null && !(root.Model.Leaf? && old(code.chars) == []) ==>
        o == Pass && code.chars == DropLast(old(code.chars)) &&
        table.entries == Traverse(root.Model, old(code.chars), old(table.entries))
    {
      if root == null {
        return Fail(NullPointer);
      }
      root.ValidFacts();
      var left := root.GetLeftChild();
      var right := root.GetRightChild();
      if left == right {
        table.Put(root.GetCharacter(), code.ToString());
        o := code.DeleteCharAt(code.Length() - 1);
        return;
      }
      label Before:
      ghost var start, m0 := code.chars, table.entries;
      ghost var l, r := left.Model, right.Model;
      assert root.Model == Node(root.c, root.fq, l, r);
      code.Append('0');
      o := TraverseTree(left, code, table);
      assert o == Pass && code.chars == start;
      ghost var m1 := table.entries;
      StillValid@Before(right);
      assert m1 == Traverse(l, start + ['0'], m0);
      code.Append('1');
      o := TraverseTree(right, code, table);
      assert o == Pass && code.chars == start;
      assert table.entries == Traverse(r, start + ['1'], m1);
      if code.Length() != 0 {
        o := code.DeleteCharAt(code.Length() - 1);
      }
    }

    /** buildCodes: traverseTree from the root with an empty builder and an
        empty map. With an internal root the map is the code table of the
        tree; a null root and a childless root throw instead. */
    method BuildCodes() returns (r: Result<HashMap>)
      requires Valid()
      ensures Valid()
      ensures root == null ==> r == Err(NullPointer)
      ensures root != null && root.Model.Leaf? ==> r == Err(StringIndexOutOfBounds)
      ensures root != null && root.Model.Node? ==> r.Ok? && r.value.entries == Codes(root.Model)
    {
      var table := new HashMap();
      var root := GetRoot();
      var code := new StringBuilder([]);
      var o := TraverseTree(root, code, table);
      if o.Fail? {
        return Err(o.fault);
      }
      return Ok(table);
    }
  }
}
