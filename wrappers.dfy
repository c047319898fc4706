/** Outcomes of the operations that can fail. The exceptions the Java
    program raises at run time are recorded as values of Fault. */
module Wrappers {

  /** The run-time exceptions the modelled code can raise. */
  datatype Fault =
    | NullPointer               // a method called on a null reference
    | StringIndexOutOfBounds    // StringBuilder.deleteCharAt with a bad index
    | NegativeArraySize         // new BitSet(n) with n < 0
    | ArrayIndexOutOfBounds     // an array indexed outside its bounds

  datatype Option<+T> = None | Some(value: T)

  datatype Result<+T> = Ok(value: T) | Err(fault: Fault)

  /** Completion of a void method: normal return or an exception. */
  datatype Outcome = Pass | Fail(fault: Fault)

  /** s with the element at index i removed. */
  function Remove<T>(s: seq<T>, i: int): (r: seq<T>)
    requires 0 <= i < |s|
    ensures |r| == |s| - 1
    ensures forall k :: 0 <= k < i ==> r[k] == s[k]
    ensures forall k :: i <= k < |r| ==> r[k] == s[k + 1]
  {
    s[..i] + s[i + 1..]
  }

  /** A sequence splits around any of its positions. */
  lemma SplitAt<T>(s: seq<T>, i: int)
    requires 0 <= i < |s|
    ensures s[..i + 1] == s[..i] + [s[i]]
    ensures s == s[..i + 1] + s[i + 1..]
  {
  }

  lemma RemoveMultiset<T>(s: seq<T>, i: int)
    requires 0 <= i < |s|
    ensures multiset(Remove(s, i)) == multiset(s) - multiset{s[i]}
  {
    assert s == s[..i] + [s[i]] + s[i + 1..];
  }
  /** No element occurs twice. */
  ghost predicate NoDuplicates<T>(s: seq<T>)
  {
    forall p, q :: 0 <= p < |s| && 0 <= q < |s| && p != q ==> s[p] != s[q]
  }

  /** A sequence holding the elements of a set, each as often as the set
      does, holds each once. */
  lemma SetSeqNoDuplicates<T>(s: seq<T>, S: set<T>)
    requires multiset(s) == multiset(S)
    ensures NoDuplicates(s)
  {
    forall p, q | 0 <= p < |s| && 0 <= q < |s| && p != q
      ensures s[p] != s[q]
    {
      var lo := if p < q then p else q;
      var hi := if p < q then q else p;
      assert s == s[..hi] + [s[hi]] + s[hi + 1..];
      assert s[..hi][lo] == s[lo];
      assert multiset(s)[s[hi]] == multiset(s[..hi])[s[hi]] + 1 + multiset(s[hi + 1..])[s[hi]];
    }
  }

  /** Without duplicates, every element occurs once. */
  lemma {:induction false} OccursOnce<T>(s: seq<T>, x: T)
    requires NoDuplicates(s)
    ensures multiset(s)[x] == if x in s then 1 else 0
  {
    if s != [] {
      var t := s[1..];
      forall p, q | 0 <= p < |t| && 0 <= q < |t| && p != q ensures t[p] != t[q] {
        assert t[p] == s[p + 1] && t[q] == s[q + 1];
      }
      OccursOnce(t, x);
      assert s == [s[0]] + t;
      assert forall i :: 0 <= i < |t| ==> t[i] == s[i + 1] && t[i] != s[0];
    }
  }

  /** Two sequences without duplicates holding the same elements are
      permutations of each other. */
  lemma SameElements<T>(a: seq<T>, b: seq<T>)
    requires NoDuplicates(a) && NoDuplicates(b)
    requires forall x :: x in a <==> x in b
    ensures multiset(a) == multiset(b)
  {
    forall x ensures multiset(a)[x] == multiset(b)[x] {
      OccursOnce(a, x);
      OccursOnce(b, x);
    }
  }
}
