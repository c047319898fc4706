/** The comparator HUFF_COMP of the priority queue: ascending frequency,
    ties broken by ascending character value. */
module Ordering {

  /** What HUFF_COMP looks at in a node: its frequency and its character. */
  datatype Key = Key(fq: int, c: char)

  /** HUFF_COMP.compare: 1 when a's frequency is larger, -1 when smaller,
      otherwise the difference of the two characters. */
  function Compare(a: Key, b: Key): (r: int)
    ensures r < 0 <==> a.fq < b.fq || (a.fq == b.fq && a.c < b.c)
    ensures r > 0 <==> a.fq > b.fq || (a.fq == b.fq && a.c > b.c)
    ensures r == 0 <==> a == b
  {
    if a.fq > b.fq then 1
    else if a.fq < b.fq then -1
    else a.c as int - b.c as int
  }

  /** The signs of Compare are antisymmetric. */
  lemma CompareAntisymmetric(a: Key, b: Key)
    ensures Compare(a, b) < 0 <==> Compare(b, a) > 0
    ensures Compare(a, b) == 0 <==> Compare(b, a) == 0
  {
  }

  /** Compare is transitive, so "Compare(a, b) <= 0" is a total preorder
      (in fact a total order on keys, since only equal keys compare 0). */
  lemma CompareTransitive(a: Key, b: Key, c: Key)
    requires Compare(a, b) <= 0 && Compare(b, c) <= 0
    ensures Compare(a, c) <= 0
    ensures Compare(a, b) < 0 || Compare(b, c) < 0 ==> Compare(a, c) < 0
  {
  }

  /** ks[i] is a minimal key of ks: what PriorityQueue.poll may return. */
  predicate IsMinAt(ks: seq<Key>, i: int)
  {
    0 <= i < |ks| && forall k :: 0 <= k < |ks| ==> Compare(ks[i], ks[k]) <= 0
  }

  /** A non-empty sequence of keys has a minimal element. */
  lemma {:induction false} MinExists(ks: seq<Key>)
    requires ks != []
    ensures exists i :: IsMinAt(ks, i)
  {
    if |ks| == 1 {
      assert IsMinAt(ks, 0);
    } else {
      var init := ks[..|ks| - 1];
      MinExists(init);
      var i :| IsMinAt(init, i);
      var last := |ks| - 1;
      if Compare(ks[i], ks[last]) <= 0 {
        forall k | 0 <= k < |ks| ensures Compare(ks[i], ks[k]) <= 0 {
          if k < last { assert ks[k] == init[k]; }
        }
        assert IsMinAt(ks, i);
      } else {
        forall k | 0 <= k < |ks| ensures Compare(ks[last], ks[k]) <= 0 {
          if k < last {
            assert ks[k] == init[k];
            CompareTransitive(ks[last], ks[i], ks[k]);
          }
        }
        assert IsMinAt(ks, last);
      }
    }
  }

  /** All minimal elements carry the same key; when the keys are pairwise
      distinct the minimal position is unique, so poll is determined. */
  lemma MinUnique(ks: seq<Key>, i: int, j: int)
    requires IsMinAt(ks, i) && IsMinAt(ks, j)
    ensures ks[i] == ks[j]
    ensures (forall p, q :: 0 <= p < q < |ks| ==> ks[p] != ks[q]) ==> i == j
  {
    assert Compare(ks[i], ks[j]) <= 0 && Compare(ks[j], ks[i]) <= 0;
  }
}
