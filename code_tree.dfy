/** The value view of a finished Huffman tree: what a HuffNode and the nodes
    below it hold once buildTree has linked them. */
module CodeTree {
  import opened Ordering

  /** A leaf has no children; an internal node has exactly two. Both carry
      the character and the frequency fields of the HuffNode they stand for. */
  datatype Tree =
    | Leaf(ch: char, w: int)
    | Node(ch: char, w: int, left: Tree, right: Tree)
  {
    /** The key HUFF_COMP orders this node by. */
    function Rank(): Key { Key(w, ch) }
  }

  /** The leaves of t, as values. */
  function LeafBag(t: Tree): multiset<Tree>
  {
    match t
    case Leaf(_, _) => multiset{t}
    case Node(_, _, l, r) => LeafBag(l) + LeafBag(r)
  }

  /** The characters held by the leaves of t. */
  function Symbols(t: Tree): set<char>
  {
    match t
    case Leaf(c, _) => {c}
    case Node(_, _, l, r) => Symbols(l) + Symbols(r)
  }

  /** No character is held by two leaves. */
  predicate DistinctSymbols(t: Tree)
  {
    match t
    case Leaf(_, _) => true
    case Node(_, _, l, r) => DistinctSymbols(l) && DistinctSymbols(r) && Symbols(l) !! Symbols(r)
  }

  function InternalCount(t: Tree): nat
  {
    match t
    case Leaf(_, _) => 0
    case Node(_, _, l, r) => 1 + InternalCount(l) + InternalCount(r)
  }

  /** Every internal node is one buildTree made: character '#' and the sum
      of its children's frequencies. */
  predicate WellWeighted(t: Tree)
  {
    match t
    case Leaf(_, _) => true
    case Node(c, w, l, r) => c == '#' && w == l.w + r.w && WellWeighted(l) && WellWeighted(r)
  }

  /** The sum of the leaves' frequencies. */
  function LeafWeight(t: Tree): int
  {
    match t
    case Leaf(_, w) => w
    case Node(_, _, l, r) => LeafWeight(l) + LeafWeight(r)
  }

  /** A binary tree whose internal nodes all have two children has one more
      leaf than internal nodes. */
  lemma {:induction false} LeafCount(t: Tree)
    ensures |LeafBag(t)| == InternalCount(t) + 1
  {
    match t
    case Leaf(_, _) =>
    case Node(_, _, l, r) => LeafCount(l); LeafCount(r);
  }

  /** In a well-weighted tree the root weight is the total leaf frequency. */
  lemma {:induction false} RootWeight(t: Tree)
    requires WellWeighted(t)
    ensures t.w == LeafWeight(t)
  {
    match t
    case Leaf(_, _) =>
    case Node(_, _, l, r) => RootWeight(l); RootWeight(r);
  }

  /** A character is a symbol of t exactly when some leaf of t holds it. */
  lemma {:induction false} SymbolsAreLeaves(t: Tree, c: char)
    ensures c in Symbols(t) <==> exists x :: x in LeafBag(t) && x.ch == c
  {
    match t
    case Leaf(_, _) =>
    case Node(_, _, l, r) =>
      SymbolsAreLeaves(l, c);
      SymbolsAreLeaves(r, c);
  }

  /** Every member of LeafBag(t) is a leaf. */
  lemma {:induction false} LeafBagHoldsLeaves(t: Tree, x: Tree)
    requires x in LeafBag(t)
    ensures x.Leaf?
  {
    match t
    case Leaf(_, _) =>
    case Node(_, _, l, r) =>
      if x in LeafBag(l) { LeafBagHoldsLeaves(l, x); } else { LeafBagHoldsLeaves(r, x); }
  }
}
