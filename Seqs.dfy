/** Facts about sequences read as sets: the guess list is kept free of
    duplicates, so its length is the number of distinct letters in it. */
module Seqs {

  /** No element occurs twice in `s`. */
  predicate NoDup<T(==)>(s: seq<T>)
  {
    forall i, j :: 0 <= i < j < |s| ==> s[i] != s[j]
  }

  /** The set of elements of `s`. */
  function Elems<T>(s: seq<T>): set<T>
  {
    set x | x in s
  }

  /** A sequence has at most as many distinct elements as it has entries. */
  lemma {:induction false} ElemsBound<T>(s: seq<T>)
    ensures |Elems(s)| <= |s|
  {
    if s != [] {
      ElemsBound(s[1..]);
      assert Elems(s) == {s[0]} + Elems(s[1..]);
    }
  }

  /** Dropping the head keeps a sequence free of duplicates, and the head is
      not in the rest. */
  lemma NoDupTail<T>(s: seq<T>)
    requires NoDup(s) && s != []
    ensures NoDup(s[1..]) && s[0] !in s[1..]
  {
    forall i, j | 0 <= i < j < |s[1..]| ensures s[1..][i] != s[1..][j] {
      assert s[1..][i] == s[i + 1] && s[1..][j] == s[j + 1];
    }
  }

  /** Without duplicates, the entries and the distinct elements are as many. */
  lemma {:induction false} NoDupElems<T>(s: seq<T>)
    requires NoDup(s)
    ensures |Elems(s)| == |s|
  {
    if s != [] {
      NoDupTail(s);
      NoDupElems(s[1..]);
      assert Elems(s) == {s[0]} + Elems(s[1..]);
    }
  }

  /** Distinct entries all drawn from `pool` are no more than `pool` is long. */
  lemma NoDupWithin<T>(s: seq<T>, pool: seq<T>)
    requires NoDup(s)
    requires forall x :: x in s ==> x in pool
    ensures |s| <= |pool|
  {
    NoDupElems(s);
    ElemsBound(pool);
    assert Elems(s) <= Elems(pool);
    SubsetCard(Elems(s), Elems(pool));
  }

  lemma SubsetCard<T>(a: set<T>, b: set<T>)
    requires a <= b
    ensures |a| <= |b|
  {
    assert b == a + (b - a);
  }
}
