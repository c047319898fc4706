/** Huffify: the comparator of the queue, the queue made from the frequency
    set, the bit count, the packing of the text into a BitSet, the decoding
    loop, and compress and decompress as their composition. */
module Huffify {
  import opened Wrappers
  import opened Ordering
  import opened CodeTree
  import opened Huffman
  import opened Coding
  import opened Text
  import opened Packing
  import opened Nodes
  import opened JavaUtil
  import opened Frequencies
  import opened Trees
  import opened Ties

  /** HUFF_COMP.compare on two nodes: by frequency, then by character. */
  function HuffComp(a: HuffNode, b: HuffNode): (r: int)
    reads a, b
    ensures a.fq < b.fq ==> r < 0
    ensures a.fq > b.fq ==> r > 0
    ensures a.fq == b.fq ==> r == a.c as int - b.c as int
    ensures r == 0 <==> a.fq == b.fq && a.c == b.c
  {
    var fqA := a.GetFrequency();
    var fqB := b.GetFrequency();
    if fqA > fqB then 1
    else if fqA < fqB then -1
    else a.GetCharacter() as int - b.GetCharacter() as int
  }

  /** HUFF_COMP is the order the queue polls by: Compare on the nodes' keys. */
  lemma HuffCompIsCompare(a: HuffNode, b: HuffNode)
    ensures HuffComp(a, b) == Compare(a.Key(), b.Key())
  {
  }

  /** createPQ: a new queue holding exactly the nodes of the set. */
  method CreatePQ(fq: FrequencyTable) returns (pQueue: PriorityQueue)
    ensures fresh(pQueue)
    ensures multiset(pQueue.contents) == multiset(fq.nodes)
  {
    pQueue := new PriorityQueue();
    pQueue.AddAll(fq.nodes);
    assert pQueue.contents[0..] == pQueue.contents;
  }

  /** numOfBits: the code length of each node's character times its
      frequency, summed over the set; a character without a code makes
      map.get return null, which throws. */
  method NumOfBits(table: HashMap, fq: FrequencyTable) returns (r: Result<int>)
    ensures (forall n :: n in fq.nodes ==> n.c in table.entries) ==>
      r == Ok(Weighted(fq.nodes, CodeLen(table.entries)))
    ensures !(forall n :: n in fq.nodes ==> n.c in table.entries) ==> r == Err(NullPointer)
  {
    ghost var len := CodeLen(table.entries);
    var total := 0;
    var rest := fq.nodes;
    while rest != {}
      invariant rest <= fq.nodes
      invariant forall n :: n in fq.nodes && n !in rest ==> n.c in table.entries
      invariant total + Weighted(rest, len) == Weighted(fq.nodes, len)
      decreases |rest|
    {
      var node :| node in rest;
      var code := table.Get(node.GetCharacter());
      if code.None? {
        return Err(NullPointer);
      }
      WeightedRemove(rest, len, node);
      total := total + node.GetFrequency() * |code.value|;
      rest := rest - {node};
    }
    return Ok(total);
  }

  /** The innermost loops of encode: for each character of code, set bit k
      when it is '1', and advance k. pre is what was written before. */
  method WriteCode(encoded: BitSet, code: seq<char>, k: int, ghost pre: seq<char>) returns (k': int)
    requires encoded.bits == SetBits(pre) && k == |pre|
    modifies encoded
    ensures encoded.bits == SetBits(pre + code) && k' == |pre + code|
  {
    k' := k;
    for i := 0 to |code|
      invariant encoded.bits == SetBits(pre + code[..i]) && k' == |pre| + i
    {
      assert pre + code[..i + 1] == (pre + code[..i]) + [code[i]];
      SetBitsSnoc(pre + code[..i], code[i]);
      if code[i] == '1' {
        encoded.Set(k');
      }
      k' := k' + 1;
    }
    assert code[..|code|] == code;
  }

  /** The inner loop of encode over one line: the code of each character
      is written in turn. It stops with false at the first character the map
      has no code for, where encode's get returns null. */
  method EncodeLine(tmp: seq<char>, table: HashMap, encoded: BitSet, k: int, ghost pre: seq<char>)
    returns (ok: bool, k': int)
    requires encoded.bits == SetBits(pre) && k == |pre|
    modifies encoded
    ensures ok <==> CharsCode(tmp, table.entries).Ok?
    ensures ok ==> (encoded.bits == SetBits(pre + CharsCode(tmp, table.entries).value) &&
      k' == |pre + CharsCode(tmp, table.entries).value|)
  {
    ghost var codes := table.entries;
    k' := k;
    assert tmp[..0] == [];
    for ci := 0 to |tmp|
      invariant CharsCode(tmp[..ci], codes).Ok?
      invariant encoded.bits == SetBits(pre + CharsCode(tmp[..ci], codes).value)
      invariant k' == |pre + CharsCode(tmp[..ci], codes).value|
    {
      var c := tmp[ci];
      var code := table.Get(c);
      if code.None? {
        CharsCodeOk(tmp, codes);
        return false, k';
      }
      ghost var done := CharsCode(tmp[..ci], codes).value;
      assert tmp[..ci + 1] == tmp[..ci] + [c];
      CharsSnoc(tmp[..ci], c, codes);
      assert CharsCode(tmp[..ci + 1], codes).value == done + code.value;
      k' := WriteCode(encoded, code.value, k', pre + done);
      assert (pre + done) + code.value == pre + (done + code.value);
    }
    assert tmp[..|tmp|] == tmp;
    return true, k';
  }

  /** encode: the codes of the characters of every line, each line followed
      by the separator's code when the map has one, as the set bits of a
      BitSet; k ends at the number of code characters written. The size
      hint only has to be non-negative. */
  method Encode(lines: seq<seq<char>>, table: HashMap, numBits: int) returns (r: Result<BitSet>, ghost written: int)
    ensures numBits < 0 ==> r == Err(NegativeArraySize)
    ensures numBits >= 0 ==> (r.Ok? <==> StreamCode(lines, table.entries).Ok?)
    ensures numBits >= 0 && r.Err? ==> r == Err(NullPointer)
    ensures r.Ok? ==> (r.value.bits == SetBits(StreamCode(lines, table.entries).value) &&
      written == |StreamCode(lines, table.entries).value|)
  {
    if numBits < 0 {
      return Err(NegativeArraySize), 0;
    }
    var encoded := new BitSet();
    ghost var codes := table.entries;
    var k := 0;
    var n := 0;
    assert lines[..0] == [];
    while n < |lines|
      invariant 0 <= n <= |lines|
      invariant StreamCode(lines[..n], codes).Ok?
      invariant encoded.bits == SetBits(StreamCode(lines[..n], codes).value)
      invariant k == |StreamCode(lines[..n], codes).value|
    {
      var tmp := lines[n];
      ghost var pre := StreamCode(lines[..n], codes).value;
      var ok;
      ok, k := EncodeLine(tmp, table, encoded, k, pre);
      if !ok {
        assert lines[n] == tmp;
        CharsCodeOk(tmp, codes);
        StreamCodeOk(lines, codes);
        return Err(NullPointer), 0;
      }
      ghost var mid := pre + CharsCode(tmp, codes).value;
      if table.ContainsKey(LINE_SEPARATOR) {
        var code := table.Get(LINE_SEPARATOR);
        k := WriteCode(encoded, code.value, k, mid);
      } else {
        assert mid + SeparatorCode(codes) == mid;
      }
      assert lines[..n + 1] == lines[..n] + [tmp];
      StreamSnoc(lines[..n], tmp, codes);
      n := n + 1;
    }
    assert lines[..n] == lines;
    return Ok(encoded), k;
  }

  /** The output so far followed by what the rest of the loop produces. */
  function Join(out: seq<char>, rest: Result<seq<char>>): Result<seq<char>>
  {
    match rest
    case Ok(s) => Ok(out + s)
    case Err(e) => Err(e)
  }

  lemma JoinEmpty(rest: Result<seq<char>>)
    ensures Join([], rest) == rest
  {
    if rest.Ok? {
      assert [] + rest.value == rest.value;
    }
  }

  /** Writing c now is writing it in front of the rest. */
  lemma JoinPrepend(out: seq<char>, c: char, rest: Result<seq<char>>)
    ensures Join(out + [c], rest) == Join(out, Prepend(c, rest))
  {
    if rest.Ok? {
      assert (out + [c]) + rest.value == out + ([c] + rest.value);
    }
  }

  /** The loop of writeDecompressedFile: numBits bits, one at a time; a set
      bit moves the cursor right, a clear one left, and a node without
      children has its character written and the cursor put back at the
      root. A null cursor throws; so does a leaf root, whose children are
      null. What it writes is the decoding of the first numBits bits. */
  method WriteDecompressed(huffTree: HuffmanTree, code: BitSet, numBits: int) returns (r: Result<seq<char>>)
    requires huffTree.Valid()
    ensures r == Decode(huffTree.Shape(), BitsOf(code.bits, numBits))
  {
    ghost var bits := BitsOf(code.bits, numBits);
    var root := huffTree.GetRoot();
    var p := root;
    var out: seq<char> := [];
    var i := 0;
    JoinEmpty(Decode(huffTree.Shape(), bits));
    while i < numBits
      invariant 0 <= i <= |bits|
      invariant root == null ==> i == 0 && p == null && out == []
      invariant root != null ==> (root.Valid() && huffTree.Shape() == Some(root.Model))
      invariant root != null ==> (p != null && p.Valid() &&
        Join(out, DecodeFrom(root.Model, p.Model, bits[i..])) == Decode(huffTree.Shape(), bits))
      decreases numBits - i
    {
      var value := code.Get(i);
      if p == null {
        return Err(NullPointer);
      }
      p.ValidFacts();
      assert bits[i..][0] == value && bits[i..][1..] == bits[i + 1..];
      if value {
        var right := p.GetRightChild();
        p := right;
      } else {
        var left := p.GetLeftChild();
        p := left;
      }
      if p == null {
        return Err(NullPointer);
      }
      p.ValidFacts();
      if p.GetLeftChild() == p.GetRightChild() {
        var tmp := p.GetCharacter();
        JoinPrepend(out, tmp, DecodeFrom(root.Model, root.Model, bits[i + 1..]));
        out := out + [tmp];
        p := root;
      }
      i := i + 1;
    }
    assert bits[i..] == [];
    assert out + [] == out;
    return Ok(out);
  }
  /** What compress writes: the frequency set (the .ser file) and the
      packed text (the .huff file). */
  datatype Archive = Archive(nodes: set<HuffNode>, code: BitSet)

  /** The symbols of any tree buildTree can make from the leaves of a text
      are the characters of the normalised text. */
  lemma SymbolsOfText(lines: seq<seq<char>>, t: Tree)
    requires AllAscii(lines)
    requires Builds(SlotLeaves(Counts(lines)), t)
    ensures forall c :: c in Symbols(t) <==> c in Flatten(lines)
  {
    var l := SlotLeaves(Counts(lines));
    BuildsFromLeaves(l, t);
    TextLeaves(lines);
  }

  /** A tree buildTree can make from the leaves of a frequency set is
      internal exactly when there are two leaves or more, its symbols are
      distinct and it holds the character of every node of the set. */
  lemma TreeOfCounts(s: set<HuffNode>, counts: seq<int>, t: Tree)
    requires IsSetOf(s, counts) && |counts| == NUM_ASCII
    requires Builds(SlotLeaves(counts), t)
    ensures t.Node? <==> |SlotLeaves(counts)| >= 2
    ensures DistinctSymbols(t)
    ensures forall n :: n in s ==> n.c in Symbols(t)
  {
    var l := SlotLeaves(counts);
    SortedLeavesBuild(l, t);
    BuildsFromLeaves(l, t);
    SetInLeaves(s, counts);
  }

  /** The bit count: with the code table of a tree that holds every
      character of the text, numOfBits over the text's frequency set is the
      number of code characters encode writes. */
  lemma BitCount(lines: seq<seq<char>>, s: set<HuffNode>, t: Tree)
    requires AllAscii(lines) && IsSetOf(s, Counts(lines)) && lines != []
    requires DistinctSymbols(t) && forall c :: c in Flatten(lines) ==> c in Symbols(t)
    ensures StreamCode(lines, Codes(t)).Ok?
    ensures Weighted(s, CodeLen(Codes(t))) == |StreamCode(lines, Codes(t)).value|
  {
    var codes := Codes(t);
    CodesMeaning(t);
    assert Flatten(lines)[|lines[0]|] == LINE_SEPARATOR;
    StreamIsFlatten(lines, codes);
    CharsCodeOk(Flatten(lines), codes);
    CharsCodeLength(Flatten(lines), codes);
    SetCost(s, lines, CodeLen(codes));
  }

  /** With two leaves or more, a tree buildTree can make from a text's
      leaves is internal and its code table packs the whole text in as many
      bits as numOfBits counts over the text's frequency set. */
  lemma TextCodes(lines: seq<seq<char>>, s: set<HuffNode>, t: Tree)
    requires AllAscii(lines) && IsSetOf(s, Counts(lines))
    requires |SlotLeaves(Counts(lines))| >= 2
    requires Builds(SlotLeaves(Counts(lines)), t)
    ensures t.Node?
    ensures StreamCode(lines, Codes(t)).Ok?
    ensures Weighted(s, CodeLen(Codes(t))) == |StreamCode(lines, Codes(t)).value|
    ensures forall n :: n in s ==> n.c in Codes(t)
  {
    TreeOfCounts(s, Counts(lines), t);
    CodesMeaning(t);
    SymbolsOfText(lines, t);
    TextLeaves(lines);
    BitCount(lines, s, t);
  }

  /** compress's first two statements: a fresh frequency table that has
      counted the text and holds the set of its counts. */
  method CountText(lines: seq<seq<char>>) returns (fq: FrequencyTable)
    requires AllAscii(lines)
    ensures fresh(fq)
    ensures IsSetOf(fq.nodes, Counts(lines))
  {
    fq := new FrequencyTable.Counting();
    fq.CreateTable(lines);
    assert fq.fq[..] == Counts(lines);
  }

  /** createPQ followed by new HuffmanTree, as compress and decompress both
      do: the root is null exactly when the counts leave no leaves; otherwise
      it models a tree buildTree can make from them. Nothing that existed
      before is changed. */
  method QueueTree(fq: FrequencyTable, ghost counts: seq<int>) returns (huffTree: HuffmanTree)
    requires IsSetOf(fq.nodes, counts) && |counts| == NUM_ASCII
    ensures huffTree.Valid()
    ensures huffTree.root == null <==> |SlotLeaves(counts)| == 0
    ensures huffTree.root != null ==> Builds(SlotLeaves(counts), huffTree.root.Model)
  {
    var pq := CreatePQ(fq);
    ghost var f := Models(pq.contents);
    QueueOfSet(fq.nodes, counts, pq.contents);
    huffTree := new HuffmanTree(pq);
    ghost var l := SlotLeaves(counts);
    assert |f| == |l| by {
      assert |multiset(f)| == |multiset(l)|;
    }
    if huffTree.root != null {
      BuildsPerm(l, f, huffTree.root.Model);
    }
  }

  /** The second half of compress, once buildCodes has returned the code
      table of a tree buildTree can make from the text's leaves: numOfBits
      then encode. Neither throws, and the bit set is the text packed with
      that table. */
  method PackText(lines: seq<seq<char>>, fq: FrequencyTable, table: HashMap, ghost tree: Tree)
    returns (r: Result<BitSet>)
    requires AllAscii(lines) && IsSetOf(fq.nodes, Counts(lines))
    requires |SlotLeaves(Counts(lines))| >= 2
    requires Builds(SlotLeaves(Counts(lines)), tree)
    requires table.entries == Codes(tree)
    ensures StreamCode(lines, Codes(tree)).Ok?
    ensures r.Ok? && r.value.bits == SetBits(StreamCode(lines, Codes(tree)).value)
  {
    TextCodes(lines, fq.nodes, tree);
    var numBits := NumOfBits(table, fq);
    var encoded, written := Encode(lines, table, numBits.value);
    return encoded;
  }

  /** compress: count the text, keep the frequency set, build the queue and
      the tree, make the code table, count the bits and pack the text. A
      character outside ASCII indexes past the counts and throws. With no
      lines the root is null and buildCodes throws. When every line is
      empty the separator is the only symbol, the root is a leaf and
      buildCodes throws; otherwise the archive holds the
      set of the text's counts and the text packed with the codes of a tree
      buildTree can make from the text's leaves. */
  method Compress(lines: seq<seq<char>>) returns (r: Result<Archive>, ghost tree: Tree)
    ensures !AllAscii(lines) ==> r == Err(ArrayIndexOutOfBounds)
    ensures AllAscii(lines) && |SlotLeaves(Counts(lines))| == 0 ==> r == Err(NullPointer)
    ensures AllAscii(lines) && |SlotLeaves(Counts(lines))| == 1 ==> r == Err(StringIndexOutOfBounds)
    ensures AllAscii(lines) && lines == [] ==> r == Err(NullPointer)
    ensures AllAscii(lines) && lines != [] && OnlySeparators(lines) ==> r == Err(StringIndexOutOfBounds)
    ensures AllAscii(lines) && |SlotLeaves(Counts(lines))| >= 2 ==>
      r.Ok? && Builds(SlotLeaves(Counts(lines)), tree) &&
      IsSetOf(r.value.nodes, Counts(lines)) && StreamCode(lines, Codes(tree)).Ok? &&
      r.value.code.bits == SetBits(StreamCode(lines, Codes(tree)).value)
  {
    if !AllAscii(lines) {
      return Err(ArrayIndexOutOfBounds), Leaf('#', 0);
    }
    TextLeaves(lines);
    OneLeafText(lines);
    var fq := CountText(lines);
    var huffTree := QueueTree(fq, Counts(lines));
    tree := if huffTree.root == null then Leaf('#', 0) else huffTree.root.Model;
    ghost var leaves := |SlotLeaves(Counts(lines))|;
    assert huffTree.root != null ==> (tree.Node? <==> leaves >= 2) by {
      if huffTree.root != null {
        TreeOfCounts(fq.nodes, Counts(lines), tree);
      }
    }
    var codes := huffTree.BuildCodes();
    if codes.Err? {
      return Err(codes.fault), tree;
    }
    var encoded := PackText(lines, fq, codes.value, tree);
    return Ok(Archive(fq.nodes, encoded.value)), tree;
  }

  /** The second half of decompress, once buildCodes has returned the code
      table of the tree: numOfBits then writeDecompressedFile. numOfBits finds
      a code for every node of the set, and that many bits are read through
      the tree. */
  method UnpackText(fq: FrequencyTable, huffTree: HuffmanTree, table: HashMap, code: BitSet, ghost counts: seq<int>)
    returns (r: Result<seq<char>>)
    requires IsSetOf(fq.nodes, counts) && |counts| == NUM_ASCII
    requires huffTree.Valid() && huffTree.root != null
    requires Builds(SlotLeaves(counts), huffTree.root.Model)
    requires table.entries == Codes(huffTree.root.Model)
    ensures r == Decode(Some(huffTree.root.Model),
      BitsOf(code.bits, Weighted(fq.nodes, CodeLen(Codes(huffTree.root.Model)))))
  {
    assert forall n :: n in fq.nodes ==> n.c in table.entries by {
      TreeOfCounts(fq.nodes, counts, huffTree.root.Model);
      CodesMeaning(huffTree.root.Model);
    }
    label Counted:
    var numBits := NumOfBits(table, fq);
    TreeStill@Counted(huffTree);
    r := WriteDecompressed(huffTree, code, numBits.value);
  }

  /** decompress: rebuild the frequency set from the archive, queue it,
      build the tree and the code table, count the bits and unpack that many
      bits through the tree. With no leaves the root is null and buildCodes
      throws; with one it is a leaf and buildCodes throws; otherwise the
      text is the archive's bits read through a tree buildTree can make from
      the set, as many bits as numOfBits counts with that tree's codes. The
      tree may differ from the one compress built when the queue has ties. */
  method Decompress(persisted: set<HuffNode>, code: BitSet, ghost counts: seq<int>)
    returns (r: Result<seq<char>>, ghost tree: Tree)
    requires IsSetOf(persisted, counts) && |counts| == NUM_ASCII
    ensures |SlotLeaves(counts)| == 0 ==> r == Err(NullPointer)
    ensures |SlotLeaves(counts)| == 1 ==> r == Err(StringIndexOutOfBounds)
    ensures |SlotLeaves(counts)| >= 2 ==>
      Builds(SlotLeaves(counts), tree) &&
      r == Decode(Some(tree), BitsOf(code.bits, Weighted(persisted, CodeLen(Codes(tree)))))
  {
    var fq := new FrequencyTable.Restored(persisted);
    var huffTree := QueueTree(fq, counts);
    tree := if huffTree.root == null then Leaf('#', 0) else huffTree.root.Model;
    assert huffTree.root != null ==> (tree.Node? <==> |SlotLeaves(counts)| >= 2) by {
      if huffTree.root != null {
        TreeOfCounts(persisted, counts, tree);
      }
    }
    var codes := huffTree.BuildCodes();
    if codes.Err? {
      return Err(codes.fault), tree;
    }
    r := UnpackText(fq, huffTree, codes.value, code, counts);
  }

  /** Packing a text with the codes of a tree the loop can build from its
      leaves and unpacking the bits through the same tree gives the text
      back. */
  lemma TextRoundTrip(lines: seq<seq<char>>, t: Tree)
    requires AllAscii(lines) && |SlotLeaves(Counts(lines))| >= 2
    requires Builds(SlotLeaves(Counts(lines)), t)
    ensures StreamCode(lines, Codes(t)).Ok?
    ensures var s := StreamCode(lines, Codes(t)).value;
      Decode(Some(t), BitsOf(SetBits(s), |s|)) == Ok(Flatten(lines))
  {
    TextTree(lines, t);
    RoundTrip(t, lines);
  }

  /** A tree built from the leaves of a text of two or more distinct
      characters is internal-rooted, has distinct symbols and holds every
      character of the text, the separator included. */
  lemma TextTree(lines: seq<seq<char>>, t: Tree)
    requires AllAscii(lines) && |SlotLeaves(Counts(lines))| >= 2
    requires Builds(SlotLeaves(Counts(lines)), t)
    ensures t.Node? && DistinctSymbols(t) && LINE_SEPARATOR in Symbols(t)
    ensures forall k :: 0 <= k < |Flatten(lines)| ==> Flatten(lines)[k] in Symbols(t)
  {
    SortedLeavesBuild(SlotLeaves(Counts(lines)), t);
    SymbolsOfText(lines, t);
    TextLeaves(lines);
    SeparatorInText(lines);
  }

  /** The same when the text is packed with one tree and unpacked through
      another that the loop can also build: the text comes back when the
      leaves leave no ties, since then both trees are the same. */
  lemma ArchiveRoundTrip(lines: seq<seq<char>>, t1: Tree, t2: Tree)
    requires AllAscii(lines) && |SlotLeaves(Counts(lines))| >= 2
    requires Builds(SlotLeaves(Counts(lines)), t1) && Builds(SlotLeaves(Counts(lines)), t2)
    requires Unambiguous(SlotLeaves(Counts(lines)))
    ensures StreamCode(lines, Codes(t1)).Ok? && StreamCode(lines, Codes(t2)).Ok?
    ensures Decode(Some(t2), BitsOf(SetBits(StreamCode(lines, Codes(t1)).value),
      |StreamCode(lines, Codes(t2)).value|)) == Ok(Flatten(lines))
  {
    var l := SlotLeaves(Counts(lines));
    BuildsDeterministic(l, l, t1, t2);
    TextRoundTrip(lines, t1);
  }

  /** compress followed by decompress on the archive it wrote. Both fail
      together when the text has no lines or only empty ones, so that its
      leaves, the separator's included, number fewer than two. Otherwise
      compress packs the text with the codes of one tree the loop can build
      (t1) and decompress reads the bits back through another (t2), reading
      as many bits as the codes of t2 take for the text. When the two trees
      agree, and in particular when the queue has no ties, the text comes
      back unchanged. */
  method CompressDecompress(lines: seq<seq<char>>) returns (r: Result<seq<char>>, ghost t1: Tree, ghost t2: Tree)
    ensures !AllAscii(lines) ==> r == Err(ArrayIndexOutOfBounds)
    ensures AllAscii(lines) && |SlotLeaves(Counts(lines))| == 0 ==> r == Err(NullPointer)
    ensures AllAscii(lines) && |SlotLeaves(Counts(lines))| == 1 ==> r == Err(StringIndexOutOfBounds)
    ensures AllAscii(lines) && lines == [] ==> r == Err(NullPointer)
    ensures AllAscii(lines) && lines != [] && OnlySeparators(lines) ==> r == Err(StringIndexOutOfBounds)
    ensures AllAscii(lines) && |SlotLeaves(Counts(lines))| >= 2 ==>
      Builds(SlotLeaves(Counts(lines)), t1) && Builds(SlotLeaves(Counts(lines)), t2) &&
      StreamCode(lines, Codes(t1)).Ok? && StreamCode(lines, Codes(t2)).Ok? &&
      r == Decode(Some(t2), BitsOf(SetBits(StreamCode(lines, Codes(t1)).value), |StreamCode(lines, Codes(t2)).value|))
    ensures AllAscii(lines) && |SlotLeaves(Counts(lines))| >= 2 && t1 == t2 ==> r == Ok(Flatten(lines))
    ensures AllAscii(lines) && |SlotLeaves(Counts(lines))| >= 2 && Unambiguous(SlotLeaves(Counts(lines))) ==>
      r == Ok(Flatten(lines))
  {
    var archive;
    archive, t1 := Compress(lines);
    if AllAscii(lines) {
      TextLeaves(lines);
      OneLeafText(lines);
    }
    if archive.Err? {
      return Err(archive.fault), t1, t1;
    }
    r, t2 := Decompress(archive.value.nodes, archive.value.code, Counts(lines));
    ghost var l := SlotLeaves(Counts(lines));
    TextCodes(lines, archive.value.nodes, t2);
    if Unambiguous(l) {
      ArchiveRoundTrip(lines, t1, t2);
    } else if t1 == t2 {
      TextRoundTrip(lines, t1);
    }
  }

  /** The letter counts of the one-line text "abcde": one each for the five
      letters and the separator, zero elsewhere. */
  lemma AbcdeCounts()
    ensures forall c :: 0 <= c < NUM_ASCII ==>
      Counts(["abcde"])[c] == if c == 10 || 97 <= c <= 101 then 1 else 0
  {
    forall c | 0 <= c < NUM_ASCII
      ensures Counts(["abcde"])[c] == if c == 10 || 97 <= c <= 101 then 1 else 0
    {
      AbcdeCount(c as char);
    }
  }

  /** Each of 'a' to 'e' occurs once in "abcde", the separator once after it. */
  lemma AbcdeCount(x: char)
    ensures Count(["abcde"], x) == (if 'a' <= x <= 'e' then 1 else 0) + (if x == LINE_SEPARATOR then 1 else 0)
  {
    var lines := ["abcde"];
    assert lines[1..] == [];
    AbcdeOccurrences(x);
  }

  /** The letters of "abcde" each occur once. */
  lemma AbcdeOccurrences(x: char)
    ensures multiset("abcde")[x] == if 'a' <= x <= 'e' then 1 else 0
  {
    assert multiset("abcde") == multiset{'a', 'b', 'c', 'd', 'e'};
    if 'a' <= x <= 'e' {
      assert x == 'a' || x == 'b' || x == 'c' || x == 'd' || x == 'e';
    }
  }

  /** Slots 0 to 96 of such a table give the separator's leaf alone. */
  lemma AbcdeHead(counts: seq<int>)
    requires |counts| == NUM_ASCII
    requires forall c :: 0 <= c < 97 ==> counts[c] == if c == 10 then 1 else 0
    ensures Leaves(counts, 97) == [Leaf(LINE_SEPARATOR, 1)]
  {
    LeavesSkip(counts, 0, 10);
    assert Leaves(counts, 11) == [Leaf(LINE_SEPARATOR, 1)];
    LeavesSkip(counts, 11, 97);
  }

  /** A slot of count one extends a prefix of l by the next element of l
      when that element is the slot's leaf. */
  lemma LetterStep(counts: seq<int>, n: nat, l: seq<Tree>, k: nat)
    requires n < |counts| && n < NUM_ASCII && counts[n] == 1
    requires k < |l| && l[k] == Leaf(n as char, 1)
    requires Leaves(counts, n) == l[..k]
    ensures Leaves(counts, n + 1) == l[..k + 1]
  {
    LeafSlot(counts, n);
    assert l[..k + 1] == l[..k] + [l[k]];
  }

  /** Slots 97 to 101, one each, add the leaves of 'a' to 'e'. */
  lemma AbcdeLetters(counts: seq<int>)
    requires |counts| == NUM_ASCII
    requires forall c :: 97 <= c < 102 ==> counts[c] == 1
    requires Leaves(counts, 97) == [Leaf(LINE_SEPARATOR, 1)]
    ensures Leaves(counts, 102) == AbcdeLeaves()
  {
    var l := AbcdeLeaves();
    assert l[..1] == [Leaf(LINE_SEPARATOR, 1)];
    LetterStep(counts, 97, l, 1);
    LetterStep(counts, 98, l, 2);
    LetterStep(counts, 99, l, 3);
    LetterStep(counts, 100, l, 4);
    LetterStep(counts, 101, l, 5);
    assert l[..6] == l;
  }

  /** A table with count one in slots 10 and 97 to 101 and zero elsewhere
      gives exactly the six leaves of the tie example, in slot order. */
  lemma AbcdeSlots(counts: seq<int>)
    requires |counts| == NUM_ASCII
    requires forall c :: 0 <= c < NUM_ASCII ==> counts[c] == if c == 10 || 97 <= c <= 101 then 1 else 0
    ensures SlotLeaves(counts) == AbcdeLeaves()
  {
    AbcdeHead(counts);
    AbcdeLetters(counts);
    LeavesSkip(counts, 102, NUM_ASCII);
  }

  /** createSet on "abcde" gives exactly the six leaves of the tie example. */
  lemma AbcdeQueue()
    ensures SlotLeaves(Counts(["abcde"])) == AbcdeLeaves()
  {
    AbcdeCounts();
    AbcdeSlots(Counts(["abcde"]));
  }

  /** compress and decompress on "abcde" may build the two different trees
      of the tie example: every outcome CompressDecompress allows with them
      leaves the text garbled. */
  lemma TieArchive()
    ensures AllAscii(["abcde"]) && |SlotLeaves(Counts(["abcde"]))| >= 2
    ensures Builds(SlotLeaves(Counts(["abcde"])), TieLeft())
    ensures Builds(SlotLeaves(Counts(["abcde"])), TieRight())
    ensures StreamCode(["abcde"], Codes(TieLeft())).Ok? && StreamCode(["abcde"], Codes(TieRight())).Ok?
    ensures Decode(Some(TieRight()), BitsOf(SetBits(StreamCode(["abcde"], Codes(TieLeft())).value),
      |StreamCode(["abcde"], Codes(TieRight())).value|)) != Ok(Flatten(["abcde"]))
  {
    assert AllAscii(["abcde"]) by {
      assert ["abcde"][0] == "abcde";
    }
    AbcdeQueue();
    TieExample();
    TieRightLength();
    TieMisread(|StreamCode(["abcde"], Codes(TieRight())).value|);
  }
}
