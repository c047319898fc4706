/** Bit packing (Huffify.encode) and unpacking (the loop of
    Huffify.writeDecompressedFile) on values, and the round trip. */
module Packing {
  import opened Wrappers
  import opened CodeTree
  import opened Coding
  import opened Text

  /** The codes of the characters of s, concatenated; a character without a
      code makes map.get return null and code.length() throw. */
  function CharsCode(s: seq<char>, codes: map<char, seq<char>>): Result<seq<char>>
  {
    if s == [] then Ok([])
    else if s[0] !in codes then Err(NullPointer)
    else match CharsCode(s[1..], codes)
      case Ok(rest) => Ok(codes[s[0]] + rest)
      case Err(e) => Err(e)
  }

  /** The code encode emits after each line: that of character 10, or
      nothing when the map has no entry for it. */
  function SeparatorCode(codes: map<char, seq<char>>): seq<char>
  {
    if LINE_SEPARATOR in codes then codes[LINE_SEPARATOR] else []
  }

  /** The code string encode walks through, line by line. */
  function StreamCode(lines: seq<seq<char>>, codes: map<char, seq<char>>): Result<seq<char>>
  {
    if lines == [] then Ok([])
    else match CharsCode(lines[0], codes)
      case Err(e) => Err(e)
      case Ok(head) =>
        match StreamCode(lines[1..], codes)
        case Err(e) => Err(e)
        case Ok(tail) => Ok(head + SeparatorCode(codes) + tail)
  }

  /** The bits encode sets: position j for every '1' at position j of s. */
  function SetBits(s: seq<char>): set<nat>
  {
    set j: nat | j < |s| && s[j] == '1'
  }

  /** The first n bits of a BitSet, as BitSet.get reads them. */
  function BitsOf(bits: set<nat>, n: int): (r: seq<bool>)
    ensures |r| == if n < 0 then 0 else n
    ensures forall i :: 0 <= i < |r| ==> (r[i] <==> i in bits)
  {
    seq(if n < 0 then 0 else n, i => i in bits)
  }

  /** A code string read as bits: '1' is a set bit. */
  function ToBits(s: seq<char>): (r: seq<bool>)
    ensures |r| == |s|
    ensures forall i :: 0 <= i < |s| ==> (r[i] <==> s[i] == '1')
  {
    seq(|s|, i requires 0 <= i < |s| => s[i] == '1')
  }

  function Prepend(c: char, r: Result<seq<char>>): Result<seq<char>>
  {
    match r
    case Ok(s) => Ok([c] + s)
    case Err(e) => Err(e)
  }

  /** The decode loop from cursor cur: a set bit moves right, a clear bit
      left; reaching a node without children emits its character and resets
      the cursor to the root. When the bits run out the loop stops, also in
      the middle of a path. A cursor on a leaf has null children, so the
      next bit dereferences null. */
  function DecodeFrom(root: Tree, cur: Tree, bits: seq<bool>): (r: Result<seq<char>>)
    ensures r.Err? ==> r == Err(NullPointer)
    ensures r.Ok? ==> |r.value| <= |bits|
    decreases |bits|
  {
    if bits == [] then Ok([])
    else match cur
      case Leaf(_, _) => Err(NullPointer)
      case Node(_, _, l, r) =>
        var next := if bits[0] then r else l;
        if next.Leaf? then Prepend(next.ch, DecodeFrom(root, root, bits[1..]))
        else DecodeFrom(root, next, bits[1..])
  }

  /** The decode loop from the root of the tree; a null root fails on the
      first bit. */
  function Decode(root: Option<Tree>, bits: seq<bool>): (r: Result<seq<char>>)
    ensures r.Err? ==> r == Err(NullPointer)
    ensures r.Ok? ==> |r.value| <= |bits|
    ensures bits == [] ==> r == Ok([])
  {
    match root
    case None => if bits == [] then Ok([]) else Err(NullPointer)
    case Some(t) => DecodeFrom(t, t, bits)
  }

  /** StreamCode fails exactly when some character of some line has no
      code, and then with a null dereference. */
  lemma {:induction false} StreamCodeOk(lines: seq<seq<char>>, codes: map<char, seq<char>>)
    ensures StreamCode(lines, codes).Ok? <==>
      forall k, m :: 0 <= k < |lines| && 0 <= m < |lines[k]| ==> lines[k][m] in codes
    ensures StreamCode(lines, codes).Err? ==> StreamCode(lines, codes) == Err(NullPointer)
  {
    if lines != [] {
      StreamCodeOk(lines[1..], codes);
      CharsCodeOk(lines[0], codes);
      assert forall k :: 1 <= k < |lines| ==> lines[k] == lines[1..][k - 1];
    }
  }

  /** One more line appends its code and the separator's code. */
  lemma {:induction false} StreamSnoc(lines: seq<seq<char>>, line: seq<char>, codes: map<char, seq<char>>)
    ensures StreamCode(lines + [line], codes) ==
      if StreamCode(lines, codes).Ok? && CharsCode(line, codes).Ok?
      then Ok(StreamCode(lines, codes).value + CharsCode(line, codes).value + SeparatorCode(codes))
      else Err(NullPointer)
  {
    CharsCodeOk(line, codes);
    if lines == [] {
      assert lines + [line] == [line];
      assert [line][1..] == [];
      if CharsCode(line, codes).Ok? {
        var h := CharsCode(line, codes).value;
        assert StreamCode([line], codes) == Ok(h + SeparatorCode(codes) + []);
        assert h + SeparatorCode(codes) + [] == [] + h + SeparatorCode(codes);
      }
    } else {
      assert (lines + [line])[0] == lines[0];
      assert (lines + [line])[1..] == lines[1..] + [line];
      StreamSnoc(lines[1..], line, codes);
      CharsCodeOk(lines[0], codes);
      StreamCodeOk(lines[1..], codes);
      if StreamCode(lines, codes).Ok? && CharsCode(line, codes).Ok? {
        var h := CharsCode(lines[0], codes).value;
        var t := StreamCode(lines[1..], codes).value;
        var c := CharsCode(line, codes).value;
        var sep := SeparatorCode(codes);
        assert h + sep + (t + c + sep) == (h + sep + t) + c + sep;
      }
    }
  }

  /** The code of one more character. */
  lemma CharsSnoc(s: seq<char>, c: char, codes: map<char, seq<char>>)
    requires CharsCode(s, codes).Ok? && c in codes
    ensures CharsCode(s + [c], codes) == Ok(CharsCode(s, codes).value + codes[c])
  {
    assert [c][1..] == [];
    assert CharsCode([c], codes) == Ok(codes[c] + []);
    assert codes[c] + [] == codes[c];
    CharsCodeConcat(s, [c], codes);
  }

  /** Writing one more code character sets one more bit when it is '1'. */
  lemma SetBitsSnoc(s: seq<char>, c: char)
    ensures SetBits(s + [c]) == SetBits(s) + (if c == '1' then {|s|} else {})
  {
    var t := s + [c];
    forall j: nat ensures j in SetBits(t) <==> j in SetBits(s) + (if c == '1' then {|s|} else {}) {
      if j < |s| { assert t[j] == s[j]; }
    }
  }

  /** A BitSet holding exactly the '1' positions of s reads back as s. */
  lemma BitsRoundTrip(s: seq<char>)
    ensures BitsOf(SetBits(s), |s|) == ToBits(s)
  {
  }

  /** Missing codes aside, the code of a concatenation is the concatenation
      of the codes. */
  lemma {:induction false} CharsCodeConcat(a: seq<char>, b: seq<char>, codes: map<char, seq<char>>)
    requires CharsCode(a, codes).Ok? && CharsCode(b, codes).Ok?
    ensures CharsCode(a + b, codes) == Ok(CharsCode(a, codes).value + CharsCode(b, codes).value)
  {
    if a == [] {
      assert a + b == b;
      var rb := CharsCode(b, codes).value;
      assert CharsCode(a, codes).value == [];
      assert [] + rb == rb;
      assert CharsCode(a + b, codes) == Ok(rb);
    } else {
      assert (a + b)[0] == a[0] && (a + b)[1..] == a[1..] + b;
      CharsCodeConcat(a[1..], b, codes);
      var ra, rb := CharsCode(a[1..], codes).value, CharsCode(b, codes).value;
      assert CharsCode(a, codes) == Ok(codes[a[0]] + ra);
      assert CharsCode(a + b, codes) == Ok(codes[a[0]] + (ra + rb));
      assert codes[a[0]] + (ra + rb) == (codes[a[0]] + ra) + rb;
    }
  }

  /** CharsCode succeeds exactly when every character has a code, and
      otherwise fails with a null dereference. */
  lemma {:induction false} CharsCodeOk(s: seq<char>, codes: map<char, seq<char>>)
    ensures CharsCode(s, codes).Ok? <==> forall k :: 0 <= k < |s| ==> s[k] in codes
    ensures CharsCode(s, codes).Err? ==> CharsCode(s, codes) == Err(NullPointer)
  {
    if s != [] {
      CharsCodeOk(s[1..], codes);
      assert forall k :: 1 <= k < |s| ==> s[k] == s[1..][k - 1];
    }
  }

  /** When the separator has a code, encode emits the code string of the
      separator-normalised text. */
  lemma {:induction false} StreamIsFlatten(lines: seq<seq<char>>, codes: map<char, seq<char>>)
    requires LINE_SEPARATOR in codes
    ensures StreamCode(lines, codes) == CharsCode(Flatten(lines), codes)
  {
    if lines != [] {
      StreamIsFlatten(lines[1..], codes);
      var sep := [LINE_SEPARATOR];
      assert CharsCode(sep, codes) == Ok(codes[LINE_SEPARATOR]) by {
        assert sep[1..] == [];
        assert CharsCode(sep[1..], codes) == Ok([]);
        assert codes[LINE_SEPARATOR] + [] == codes[LINE_SEPARATOR];
      }
      var line := lines[0];
      var rest := Flatten(lines[1..]);
      assert Flatten(lines) == line + (sep + rest);
      CharsCodeOk(line, codes);
      CharsCodeOk(rest, codes);
      CharsCodeOk(sep + rest, codes);
      if CharsCode(line, codes).Ok? && CharsCode(rest, codes).Ok? {
        CharsCodeConcat(sep, rest, codes);
        CharsCodeConcat(line, sep + rest, codes);
        var h, t := CharsCode(line, codes).value, CharsCode(rest, codes).value;
        assert StreamCode(lines, codes) == Ok(h + codes[LINE_SEPARATOR] + t);
        assert h + (codes[LINE_SEPARATOR] + t) == h + codes[LINE_SEPARATOR] + t;
      } else if CharsCode(line, codes).Ok? {
        CharsCodeOk(line + (sep + rest), codes);
        var k :| 0 <= k < |rest| && rest[k] !in codes;
        assert (line + (sep + rest))[|line| + 1 + k] == rest[k];
      } else {
        CharsCodeOk(line + (sep + rest), codes);
        var k :| 0 <= k < |line| && line[k] !in codes;
        assert (line + (sep + rest))[k] == line[k];
      }
    }
  }

  /** The length of the code string is the sum of the code lengths. */
  lemma {:induction false} CharsCodeLength(s: seq<char>, codes: map<char, seq<char>>)
    requires CharsCode(s, codes).Ok?
    ensures |CharsCode(s, codes).value| == SeqCost(s, CodeLen(codes))
  {
    if s != [] {
      var init := s[..|s| - 1];
      var last := [s[|s| - 1]];
      assert s == init + last;
      CharsCodeOk(s, codes);
      CharsCodeOk(init, codes);
      CharsCodeOk(last, codes);
      assert last[1..] == [];
      CharsCodeConcat(init, last, codes);
      CharsCodeLength(init, codes);
    }
  }

  /** The length of a character's code, 0 for a character without one. */
  function CodeLen(codes: map<char, seq<char>>): char -> int
  {
    c => if c in codes then |codes[c]| else 0
  }

  /** Following a code that leads from an internal cursor to the leaf of c
      emits c and resets the cursor to the root. */
  lemma {:induction false} DecodeOneCode(root: Tree, cur: Tree, code: seq<char>, c: char, rest: seq<bool>)
    requires cur.Node? && LeadsTo(cur, code, c)
    ensures DecodeFrom(root, cur, ToBits(code) + rest) == Prepend(c, DecodeFrom(root, root, rest))
  {
    var bits := ToBits(code) + rest;
    assert code != [];
    assert bits[0] == (code[0] == '1');
    assert bits[1..] == ToBits(code[1..]) + rest;
    var next := if code[0] == '1' then cur.right else cur.left;
    assert Walk(cur, code) == Walk(next, code[1..]);
    if next.Leaf? {
      assert code[1..] == [];
      assert bits[1..] == rest;
    } else {
      DecodeOneCode(root, next, code[1..], c, rest);
    }
  }

  /** Decoding the code string of s with the tree whose table produced it
      returns s, when the root is internal and no symbol repeats. */
  lemma {:induction false} DecodeCodes(t: Tree, s: seq<char>)
    requires t.Node? && DistinctSymbols(t)
    requires forall k :: 0 <= k < |s| ==> s[k] in Symbols(t)
    ensures CharsCode(s, Codes(t)).Ok?
    ensures DecodeFrom(t, t, ToBits(CharsCode(s, Codes(t)).value)) == Ok(s)
  {
    CodesMeaning(t);
    CharsCodeOk(s, Codes(t));
    if s != [] {
      assert forall k :: 0 <= k < |s[1..]| ==> s[1..][k] == s[k + 1];
      DecodeCodes(t, s[1..]);
      var code := Codes(t)[s[0]];
      var tail := CharsCode(s[1..], Codes(t)).value;
      assert ToBits(code + tail) == ToBits(code) + ToBits(tail);
      DecodeOneCode(t, t, code, s[0], ToBits(tail));
      assert [s[0]] + s[1..] == s;
    }
  }

  /** Round trip: packing the lines with the table of an internal-rooted tree
      that holds every character of the text, then unpacking exactly as many
      bits as were written, gives the separator-normalised text. */
  lemma RoundTrip(t: Tree, lines: seq<seq<char>>)
    requires t.Node? && DistinctSymbols(t)
    requires forall k :: 0 <= k < |Flatten(lines)| ==> Flatten(lines)[k] in Symbols(t)
    requires LINE_SEPARATOR in Symbols(t)
    ensures StreamCode(lines, Codes(t)).Ok?
    ensures var s := StreamCode(lines, Codes(t)).value;
      Decode(Some(t), BitsOf(SetBits(s), |s|)) == Ok(Flatten(lines))
  {
    CodesMeaning(t);
    StreamIsFlatten(lines, Codes(t));
    DecodeCodes(t, Flatten(lines));
    BitsRoundTrip(StreamCode(lines, Codes(t)).value);
  }

  /** A trailing partial path emits nothing and raises nothing: decoding a
      strict, non-empty prefix of a code from an internal cursor succeeds
      with no output. */
  lemma {:induction false} PartialPathSilent(root: Tree, cur: Tree, code: seq<char>, c: char, n: nat)
    requires cur.Node? && LeadsTo(cur, code, c) && 0 < n < |code|
    ensures DecodeFrom(root, cur, ToBits(code)[..n]) == Ok([])
  {
    var bits := ToBits(code)[..n];
    var next := if code[0] == '1' then cur.right else cur.left;
    assert bits[0] == (code[0] == '1');
    assert Walk(cur, code) == Walk(next, code[1..]);
    assert code[1..] != [];
    assert next.Node?;
    if n > 1 {
      assert bits[1..] == ToBits(code[1..])[..n - 1];
      PartialPathSilent(root, next, code[1..], c, n - 1);
    }
  }
}
