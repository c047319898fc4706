/** The parts of java.util the program relies on, reduced to what it uses:
    their state is a mathematical value the methods reassign. */
module JavaUtil {
  import opened Wrappers
  import opened Ordering
  import opened Nodes

  /** PriorityQueue<HuffNode> ordered by HUFF_COMP. The heap layout is not
      modelled: the queue is the sequence of its elements, and poll removes
      some element whose key is minimal, with no rule among equal keys. */
  class PriorityQueue {
    var contents: seq<HuffNode>

    constructor ()
      ensures contents == []
    {
      contents := [];
    }

    function Size(): (n: nat)
      reads this
      ensures n == |contents|
    {
      |contents|
    }

    method Add(n: HuffNode)
      modifies this`contents
      ensures contents == old(contents) + [n]
    {
      contents := contents + [n];
    }

    /** addAll of a set: its elements go in, in no particular order. */
    method AddAll(s: set<HuffNode>)
      modifies this`contents
      ensures |contents| == |old(contents)| + |s|
      ensures contents[..|old(contents)|] == old(contents)
      ensures multiset(contents[|old(contents)|..]) == multiset(s)
    {
      var rest := s;
      ghost var added: seq<HuffNode> := [];
      ghost var start := contents;
      while rest != {}
        invariant contents == start + added
        invariant rest <= s
        invariant multiset(added) + multiset(rest) == multiset(s)
        invariant |added| + |rest| == |s|
        decreases |rest|
      {
        var x :| x in rest;
        contents := contents + [x];
        added := added + [x];
        rest := rest - {x};
      }
      assert contents[|start|..] == added;
    }

    /** poll: null on an empty queue, otherwise some minimal element, which
        is removed; i is its position. */
    method Poll() returns (x: HuffNode?, ghost i: int)
      modifies this`contents
      ensures old(contents) == [] ==> x == null && contents == []
      ensures old(contents) != [] ==>
        IsMinAt(old(KeysOf(contents)), i) && x == old(contents)[i] &&
        contents == Remove(old(contents), i)
    {
      if contents == [] {
        return null, -1;
      }
      MinExists(KeysOf(contents));
      var k :| 0 <= k < |contents| && IsMinAt(KeysOf(contents), k);
      x, i := contents[k], k;
      contents := Remove(contents, k);
    }
  }

  /** java.lang.StringBuilder over chars. */
  class StringBuilder {
    var chars: seq<char>

    constructor (s: seq<char>)
      ensures chars == s
    {
      chars := s;
    }

    function Length(): (n: nat)
      reads this
      ensures n == |chars|
    {
      |chars|
    }

    function ToString(): (s: seq<char>)
      reads this
      ensures s == chars
    {
      chars
    }

    method Append(ch: char)
      modifies this`chars
      ensures chars == old(chars) + [ch]
    {
      chars := chars + [ch];
    }

    /** deleteCharAt(i) throws StringIndexOutOfBoundsException unless
        0 <= i < length(), leaving the builder as it was. */
    method DeleteCharAt(i: int) returns (o: Outcome)
      modifies this`chars
      ensures 0 <= i < |old(chars)| ==> o == Pass && chars == Remove(old(chars), i)
      ensures !(0 <= i < |old(chars)|) ==> o == Fail(StringIndexOutOfBounds) && chars == old(chars)
    {
      if 0 <= i < |chars| {
        chars := Remove(chars, i);
        o := Pass;
      } else {
        o := Fail(StringIndexOutOfBounds);
      }
    }
  }

  /** HashMap<Character, String>. */
  class HashMap {
    var entries: map<char, seq<char>>

    constructor ()
      ensures entries == map[]
    {
      entries := map[];
    }

    method Put(k: char, v: seq<char>)
      modifies this`entries
      ensures entries == old(entries)[k := v]
    {
      entries := entries[k := v];
    }

    function ContainsKey(k: char): (b: bool)
      reads this
      ensures b <==> k in entries
    {
      k in entries
    }

    /** get: the stored string, None standing for null. */
    function Get(k: char): (r: Option<seq<char>>)
      reads this
      ensures r.Some? <==> k in entries
      ensures r.Some? ==> r.value == entries[k]
    {
      if k in entries then Some(entries[k]) else None
    }
  }

  /** java.util.BitSet: the set of indices whose bit is true. The size hint
      of the constructor does not bound the indices. */
  class BitSet {
    var bits: set<nat>

    constructor ()
      ensures bits == {}
    {
      bits := {};
    }

    method Set(k: nat)
      modifies this
      ensures bits == old(bits) + {k}
    {
      bits := bits + {k};
    }

    function Get(k: nat): (b: bool)
      reads this
      ensures b <==> k in bits
    {
      k in bits
    }
  }
}
