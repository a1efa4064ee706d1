/** Sequence utilities shared by the content-query model: first occurrences,
    de-duplication in first-occurrence order, and multiplicity facts. */
module Seqs {

  /** No element occurs twice. */
  predicate NoDup<T(==)>(s: seq<T>) {
    forall i, j :: 0 <= i < j < |s| ==> s[i] != s[j]
  }

  /** Index of the first occurrence of `x` in `s`, or `|s|` when `x` does not occur. */
  function FirstIndex<T(==)>(s: seq<T>, x: T): (r: nat)
    ensures r <= |s|
    ensures r < |s| <==> x in s
    ensures r < |s| ==> s[r] == x && x !in s[..r]
  {
    if s == [] then 0
    else if s[0] == x then 0
    else
      assert s[..1 + FirstIndex(s[1..], x)] == [s[0]] + s[1..][..FirstIndex(s[1..], x)];
      1 + FirstIndex(s[1..], x)
  }

  lemma {:induction false} FirstIndexSnoc<T>(s: seq<T>, x: T, y: T)
    ensures FirstIndex(s + [x], y) ==
            if y in s then FirstIndex(s, y) else if y == x then |s| else |s| + 1
  {
    if s != [] {
      assert (s + [x])[1..] == s[1..] + [x];
      if s[0] != y {
        FirstIndexSnoc(s[1..], x, y);
      }
    }
  }

  /** The elements of `s` without repetitions, in order of first occurrence
      (the key order of a JavaScript `Map` filled by scanning `s`). */
  function Distinct<T(==)>(s: seq<T>): seq<T>
  {
    if s == [] then []
    else if s[|s| - 1] in s[..|s| - 1] then Distinct(s[..|s| - 1])
    else Distinct(s[..|s| - 1]) + [s[|s| - 1]]
  }

  /** `Distinct(s)` holds every element of `s` exactly once, ordered by first occurrence. */
  lemma {:induction false} DistinctSpec<T>(s: seq<T>)
    ensures NoDup(Distinct(s))
    ensures forall i :: 0 <= i < |Distinct(s)| ==> Distinct(s)[i] in s
    ensures forall y :: y in s ==> y in Distinct(s)
    ensures forall i, j :: 0 <= i < j < |Distinct(s)| ==>
              FirstIndex(s, Distinct(s)[i]) < FirstIndex(s, Distinct(s)[j])
  {
    if s != [] {
      var init, x := s[..|s| - 1], s[|s| - 1];
      DistinctSpec(init);
      var d, r := Distinct(init), Distinct(s);
      assert s == init + [x];
      assert r == if x in init then d else d + [x];
      forall i | 0 <= i < |d| ensures d[i] in init && FirstIndex(s, d[i]) == FirstIndex(init, d[i]) {
        FirstIndexSnoc(init, x, d[i]);
      }
      FirstIndexSnoc(init, x, x);
      forall i, j | 0 <= i < j < |r| ensures FirstIndex(s, r[i]) < FirstIndex(s, r[j]) {
        assert r[i] == d[i];
        if j < |d| {
          assert r[j] == d[j];
        }
      }
      forall y | y in s ensures y in r {
        if y != x {
          assert y in init;
        }
      }
    }
  }

  lemma {:induction false} NoDupCount<T>(s: seq<T>, x: T)
    requires NoDup(s)
    ensures multiset(s)[x] <= 1
  {
    if s != [] {
      assert s == [s[0]] + s[1..];
      NoDupCount(s[1..], x);
      if x == s[0] {
        assert x !in s[1..];
      }
    }
  }

  lemma TwoCopies<T>(s: seq<T>, i: nat, j: nat)
    requires i < j < |s| && s[i] == s[j]
    ensures multiset(s)[s[i]] >= 2
  {
    assert s == s[..j] + s[j..];
    assert s[i] in s[..j];
    assert s[j] in s[j..];
  }

  /** A rearrangement of a repetition-free sequence is repetition-free. */
  lemma NoDupPermutation<T>(a: seq<T>, b: seq<T>)
    requires multiset(a) == multiset(b) && NoDup(a)
    ensures NoDup(b)
  {
    forall i, j | 0 <= i < j < |b| ensures b[i] != b[j] {
      if b[i] == b[j] {
        TwoCopies(b, i, j);
        NoDupCount(a, b[i]);
      }
    }
  }

  /** Appending one more element of `b` to `a + b[..q]`. */
  /** Every element of a permutation of `b` is an element of `b`. */
  lemma PermutationMembers<T>(a: seq<T>, b: seq<T>)
    requires multiset(a) == multiset(b)
    ensures forall i :: 0 <= i < |a| ==> a[i] in b
  {
    forall i | 0 <= i < |a| ensures a[i] in b {
      assert a[i] in multiset(a);
    }
  }

  lemma AppendNext<T>(a: seq<T>, b: seq<T>, q: nat)
    requires q < |b|
    ensures (a + b[..q]) + [b[q]] == a + b[..q + 1]
  {
    assert b[..q + 1] == b[..q] + [b[q]];
  }
}
