/** Code generation (HuffmanTree.buildCodes / traverseTree) on the value view
    of the tree, and what the resulting code table means. */
module Coding {
  import opened Wrappers
  import opened CodeTree

  /** The map traverseTree leaves behind when called on t with the builder
      holding `code` and the map holding m: a preorder walk that appends '0'
      going left and '1' going right and puts each leaf's path. A later put
      for the same character overwrites an earlier one. */
  function Traverse(t: Tree, code: seq<char>, m: map<char, seq<char>>): map<char, seq<char>>
  {
    match t
    case Leaf(c, _) => m[c := code]
    case Node(_, _, l, r) => Traverse(r, code + ['1'], Traverse(l, code + ['0'], m))
  }

  /** The table buildCodes returns: traversal from the root with an empty
      builder and an empty map. */
  function Codes(t: Tree): map<char, seq<char>>
  {
    Traverse(t, [], map[])
  }

  /** The subtree reached from t by following a path of '0' (left) and '1'
      (right); None when the path leaves the tree or holds another character. */
  function Walk(t: Tree, path: seq<char>): Option<Tree>
  {
    if path == [] then Some(t)
    else match t
      case Leaf(_, _) => None
      case Node(_, _, l, r) =>
        if path[0] == '0' then Walk(l, path[1..])
        else if path[0] == '1' then Walk(r, path[1..])
        else None
  }

  /** path leads from the root of t exactly to a leaf holding c. */
  predicate LeadsTo(t: Tree, path: seq<char>, c: char)
  {
    var n := Walk(t, path);
    n.Some? && n.value.Leaf? && n.value.ch == c
  }

  predicate IsPrefix(a: seq<char>, b: seq<char>)
  {
    |a| <= |b| && b[..|a|] == a
  }

  /** The depth of the leaf holding c (the first one, left to right). */
  function Depth(t: Tree, c: char): nat
    requires c in Symbols(t)
  {
    match t
    case Leaf(_, _) => 0
    case Node(_, _, l, r) => if c in Symbols(l) then 1 + Depth(l, c) else 1 + Depth(r, c)
  }

  /** Walking a concatenated path walks its two parts in turn. */
  lemma {:induction false} WalkConcat(t: Tree, a: seq<char>, b: seq<char>)
    ensures Walk(t, a + b) == if Walk(t, a).Some? then Walk(Walk(t, a).value, b) else None
  {
    if a != [] {
      assert (a + b)[0] == a[0] && (a + b)[1..] == a[1..] + b;
      match t
      case Leaf(_, _) =>
      case Node(_, _, l, r) =>
        if a[0] == '0' { WalkConcat(l, a[1..], b); }
        else if a[0] == '1' { WalkConcat(r, a[1..], b); }
    } else {
      assert a + b == b;
    }
  }

  /** What traverseTree puts: the map keeps its other keys and gains the
      symbols of t; when the symbols of t are distinct, each of them is
      mapped to the builder's contents followed by the path to its leaf. */
  lemma {:induction false} TraverseMeaning(t: Tree, code: seq<char>, m: map<char, seq<char>>)
    requires DistinctSymbols(t)
    ensures Traverse(t, code, m).Keys == m.Keys + Symbols(t)
    ensures forall c :: c in Symbols(t) ==>
      var s := Traverse(t, code, m)[c];
      |code| <= |s| && s[..|code|] == code && LeadsTo(t, s[|code|..], c)
    ensures forall c :: c in m && c !in Symbols(t) ==> Traverse(t, code, m)[c] == m[c]
  {
    match t
    case Leaf(c, _) =>
      assert Traverse(t, code, m)[c][|code|..] == [];
    case Node(_, _, l, r) =>
      var m1 := Traverse(l, code + ['0'], m);
      TraverseMeaning(l, code + ['0'], m);
      TraverseMeaning(r, code + ['1'], m1);
      var res := Traverse(t, code, m);
      forall c | c in Symbols(t)
        ensures |code| <= |res[c]| && res[c][..|code|] == code && LeadsTo(t, res[c][|code|..], c)
      {
        var s := res[c];
        if c in Symbols(l) {
          assert c !in Symbols(r);
          assert s == m1[c];
          PathStep(code, '0', s);
        } else {
          PathStep(code, '1', s);
        }
      }
  }

  /** A code whose first |code| + 1 characters are code followed by bit
      starts with code and continues with bit. */
  lemma PathStep(code: seq<char>, bit: char, s: seq<char>)
    requires |code| + 1 <= |s| && s[..|code| + 1] == code + [bit]
    ensures s[..|code|] == code
    ensures s[|code|..] == [bit] + s[|code| + 1..]
  {
    assert s[..|code|] == (code + [bit])[..|code|];
  }

  /** buildCodes maps every leaf symbol, and only those, to its root-to-leaf
      path ('0' left, '1' right), provided no symbol is held by two leaves. */
  lemma CodesMeaning(t: Tree)
    requires DistinctSymbols(t)
    ensures Codes(t).Keys == Symbols(t)
    ensures forall c :: c in Codes(t) ==> LeadsTo(t, Codes(t)[c], c)
  {
    TraverseMeaning(t, [], map[]);
  }

  /** With distinct symbols, a symbol is reached by exactly one path. */
  lemma {:induction false} PathUnique(t: Tree, p: seq<char>, q: seq<char>, c: char)
    requires DistinctSymbols(t) && LeadsTo(t, p, c) && LeadsTo(t, q, c)
    ensures p == q
  {
    match t
    case Leaf(_, _) =>
    case Node(_, _, l, r) =>
      var sp := if p[0] == '0' then l else r;
      var sq := if q[0] == '0' then l else r;
      PathLengthIsDepth(sp, p[1..], c);
      PathLengthIsDepth(sq, q[1..], c);
      if p[0] == q[0] {
        PathUnique(sp, p[1..], q[1..], c);
        assert p == [p[0]] + p[1..] && q == [q[0]] + q[1..];
      } else {
        assert false;
      }
  }

  /** Conversely, a path leading to a leaf is the code of that leaf's symbol. */
  lemma CodeIsPath(t: Tree, path: seq<char>, c: char)
    requires DistinctSymbols(t) && LeadsTo(t, path, c)
    ensures c in Codes(t) && Codes(t)[c] == path
  {
    CodesMeaning(t);
    PathLengthIsDepth(t, path, c);
    PathUnique(t, Codes(t)[c], path, c);
  }

  /** No code is a prefix of another character's code. */
  lemma PrefixFree(t: Tree, a: char, b: char)
    requires DistinctSymbols(t)
    requires a in Codes(t) && b in Codes(t) && a != b
    ensures !IsPrefix(Codes(t)[a], Codes(t)[b])
  {
    CodesMeaning(t);
    var ca, cb := Codes(t)[a], Codes(t)[b];
    if IsPrefix(ca, cb) {
      assert cb == ca + cb[|ca|..];
      WalkConcat(t, ca, cb[|ca|..]);
      assert false;
    }
  }

  /** With an internal root every code is non-empty; with a leaf root the
      table maps the only symbol to the empty code. */
  lemma CodesNonEmpty(t: Tree)
    requires DistinctSymbols(t)
    ensures t.Node? ==> forall c :: c in Codes(t) ==> |Codes(t)[c]| > 0
    ensures t.Leaf? ==> Codes(t) == map[t.ch := []]
  {
    CodesMeaning(t);
  }

  /** The length of a path to a leaf is that leaf's depth. */
  lemma {:induction false} PathLengthIsDepth(t: Tree, path: seq<char>, c: char)
    requires DistinctSymbols(t) && LeadsTo(t, path, c)
    ensures c in Symbols(t) && |path| == Depth(t, c)
  {
    match t
    case Leaf(_, _) =>
    case Node(_, _, l, r) =>
      var sub := if path[0] == '0' then l else r;
      PathLengthIsDepth(sub, path[1..], c);
  }

  /** Every code has length equal to its leaf's depth. */
  lemma CodeLengthIsDepth(t: Tree, c: char)
    requires DistinctSymbols(t) && c in Codes(t)
    ensures c in Symbols(t) && |Codes(t)[c]| == Depth(t, c)
  {
    CodesMeaning(t);
    PathLengthIsDepth(t, Codes(t)[c], c);
  }

  /** A path that leads to a leaf holds only '0' and '1'. */
  lemma {:induction false} PathIsBinary(t: Tree, path: seq<char>, c: char)
    requires LeadsTo(t, path, c)
    ensures forall k :: 0 <= k < |path| ==> path[k] == '0' || path[k] == '1'
  {
    if path != [] {
      var sub := if path[0] == '0' then t.left else t.right;
      PathIsBinary(sub, path[1..], c);
      forall k | 0 <= k < |path| ensures path[k] == '0' || path[k] == '1' {
        if k > 0 { assert path[k] == path[1..][k - 1]; }
      }
    }
  }
}
