/** The stable descending sort every listing of the site relies on.
    JavaScript's `Array.prototype.sort` is stable, so the site's comparators
    `(a, b) => key(b) - key(a)` give a descending order in which elements with
    equal keys keep their original relative order. The model sorts by insertion,
    parametrised by a key and a total preorder on keys. */
module Sorting {

  /** `le` is reflexive, transitive and relates any two keys one way or the other. */
  ghost predicate TotalPreorder<K(!new)>(le: (K, K) -> bool) {
    && (forall a :: le(a, a))
    && (forall a, b, c :: le(a, b) && le(b, c) ==> le(a, c))
    && (forall a, b :: le(a, b) || le(b, a))
  }

  /** Neither key sorts before the other (the comparator returns 0). */
  predicate Equivalent<K>(le: (K, K) -> bool, a: K, b: K) {
    le(a, b) && le(b, a)
  }

  /** Non-increasing by key. */
  predicate SortedDesc<T, K>(s: seq<T>, key: T -> K, le: (K, K) -> bool) {
    forall i, j :: 0 <= i < j < |s| ==> le(key(s[j]), key(s[i]))
  }

  /** The subsequence of elements whose key is equivalent to `k`, in order. */
  function Keep<T, K>(s: seq<T>, key: T -> K, le: (K, K) -> bool, k: K): seq<T>
  {
    if s == [] then []
    else (if Equivalent(le, key(s[0]), k) then [s[0]] else []) + Keep(s[1..], key, le, k)
  }

  /** Places `x` before the first element of `t` whose key is not above `x`'s. */
  function Insert<T(==), K(!new)>(x: T, t: seq<T>, key: T -> K, le: (K, K) -> bool): (r: seq<T>)
    ensures multiset(r) == multiset(t) + multiset{x}
    ensures TotalPreorder(le) && SortedDesc(t, key, le) ==> SortedDesc(r, key, le)
  {
    if t == [] || le(key(t[0]), key(x)) then [x] + t
    else
      var rest := Insert(x, t[1..], key, le);
      assert multiset([t[0]] + rest) == multiset(t) + multiset{x} by {
        assert t == [t[0]] + t[1..];
      }
      assert TotalPreorder(le) && SortedDesc(t, key, le) ==> SortedDesc([t[0]] + rest, key, le) by {
        if TotalPreorder(le) && SortedDesc(t, key, le) {
          SortedTail(t, key, le);
          InsertBehindHead(x, t, rest, key, le);
        }
      }
      [t[0]] + rest
  }

  /** When `x` sorts below the head of `t`, the head may stay in front of the
      sorted insertion of `x` into the tail. */
  lemma InsertBehindHead<T, K(!new)>(x: T, t: seq<T>, rest: seq<T>, key: T -> K, le: (K, K) -> bool)
    requires TotalPreorder(le) && SortedDesc(t, key, le) && SortedDesc(rest, key, le)
    requires t != [] && !le(key(t[0]), key(x))
    requires multiset(rest) == multiset(t[1..]) + multiset{x}
    ensures SortedDesc([t[0]] + rest, key, le)
  {
    forall j | 0 <= j < |rest| ensures le(key(rest[j]), key(t[0])) {
      assert rest[j] in multiset(rest);
      if rest[j] != x {
        assert rest[j] in t[1..];
        var k :| 0 <= k < |t[1..]| && t[1..][k] == rest[j];
        assert t[k + 1] == rest[j];
      }
    }
    var r := [t[0]] + rest;
    forall i, j | 0 <= i < j < |r| ensures le(key(r[j]), key(r[i])) {
      assert r[j] == rest[j - 1];
      if i > 0 {
        assert r[i] == rest[i - 1];
      }
    }
  }

  /** Stable insertion sort, non-increasing by key. */
  function SortDesc<T(==), K(!new)>(s: seq<T>, key: T -> K, le: (K, K) -> bool): (r: seq<T>)
    ensures multiset(r) == multiset(s) && |r| == |s|
    ensures TotalPreorder(le) ==> SortedDesc(r, key, le)
  {
    if s == [] then []
    else
      assert s == [s[0]] + s[1..];
      Insert(s[0], SortDesc(s[1..], key, le), key, le)
  }

  lemma {:induction false} KeepInsert<T, K(!new)>(x: T, t: seq<T>, key: T -> K, le: (K, K) -> bool, k: K)
    requires TotalPreorder(le)
    ensures Keep(Insert(x, t, key, le), key, le, k) ==
            (if Equivalent(le, key(x), k) then [x] else []) + Keep(t, key, le, k)
  {
    if t == [] || le(key(t[0]), key(x)) {
      KeepCons(x, t, key, le, k);
    } else {
      var rest := Insert(x, t[1..], key, le);
      var hx := if Equivalent(le, key(x), k) then [x] else [];
      var ht := if Equivalent(le, key(t[0]), k) then [t[0]] else [];
      calc {
        Keep(Insert(x, t, key, le), key, le, k);
      ==
        Keep([t[0]] + rest, key, le, k);
      == { KeepCons(t[0], rest, key, le, k); }
        ht + Keep(rest, key, le, k);
      == { KeepInsert(x, t[1..], key, le, k); }
        ht + (hx + Keep(t[1..], key, le, k));
      == { NotBothEquivalent(le, key(t[0]), key(x), k);
           OneEmptyCommutes(hx, ht, Keep(t[1..], key, le, k)); }
        hx + (ht + Keep(t[1..], key, le, k));
      ==
        hx + Keep(t, key, le, k);
      }
    }
  }

  /** Two prefixes of which one is empty can be swapped. */
  lemma OneEmptyCommutes<T>(a: seq<T>, b: seq<T>, u: seq<T>)
    requires a == [] || b == []
    ensures b + (a + u) == a + (b + u)
  {
    if a == [] {
      assert a + u == u;
    } else {
      assert b + u == u;
    }
  }

  /** `Keep` of a list with a head in front. */
  lemma KeepCons<T, K>(y: T, u: seq<T>, key: T -> K, le: (K, K) -> bool, k: K)
    ensures Keep([y] + u, key, le, k) == (if Equivalent(le, key(y), k) then [y] else []) + Keep(u, key, le, k)
  {
    assert ([y] + u)[1..] == u;
  }

  /** The tail of a sorted list is sorted. */
  lemma SortedTail<T, K>(t: seq<T>, key: T -> K, le: (K, K) -> bool)
    requires t != [] && SortedDesc(t, key, le)
    ensures SortedDesc(t[1..], key, le)
  {
    forall i, j | 0 <= i < j < |t[1..]| ensures le(key(t[1..][j]), key(t[1..][i])) {
      assert t[1..][i] == t[i + 1] && t[1..][j] == t[j + 1];
    }
  }

  /** Keys on either side of a strict gap are not both equivalent to one key. */
  lemma NotBothEquivalent<K(!new)>(le: (K, K) -> bool, a: K, b: K, k: K)
    requires TotalPreorder(le) && !le(a, b)
    ensures !(Equivalent(le, a, k) && Equivalent(le, b, k))
  {
  }

  /** Stability: for every key, the elements with that key come out in input order. */
  lemma {:induction false} SortDescStable<T, K(!new)>(s: seq<T>, key: T -> K, le: (K, K) -> bool, k: K)
    requires TotalPreorder(le)
    ensures Keep(SortDesc(s, key, le), key, le, k) == Keep(s, key, le, k)
  {
    if s != [] {
      SortDescStable(s[1..], key, le, k);
      KeepInsert(s[0], SortDesc(s[1..], key, le), key, le, k);
    }
  }

  lemma SortDescStableAll<T, K(!new)>(s: seq<T>, key: T -> K, le: (K, K) -> bool)
    requires TotalPreorder(le)
    ensures forall k :: Keep(SortDesc(s, key, le), key, le, k) == Keep(s, key, le, k)
  {
    forall k { SortDescStable(s, key, le, k); }
  }

  /** Elements with equivalent keys appear in increasing order of `f`. */
  predicate AscendingAmongEquals<T, K>(s: seq<T>, key: T -> K, le: (K, K) -> bool, f: T -> int) {
    forall i, j :: 0 <= i < j < |s| && Equivalent(le, key(s[i]), key(s[j])) ==> f(s[i]) < f(s[j])
  }

  lemma TailSorted<T, K>(t: seq<T>, key: T -> K, le: (K, K) -> bool, f: T -> int)
    requires t != []
    ensures SortedDesc(t, key, le) ==> SortedDesc(t[1..], key, le)
    ensures AscendingAmongEquals(t, key, le, f) ==> AscendingAmongEquals(t[1..], key, le, f)
  {
    forall i, j | 0 <= i < j < |t[1..]| ensures t[1..][i] == t[i + 1] && t[1..][j] == t[j + 1] {
    }
  }

  /** Putting `y` in front keeps equivalent elements ascending when `y` ranks
      below every element equivalent to it. */
  lemma ConsAscending<T, K>(y: T, u: seq<T>, key: T -> K, le: (K, K) -> bool, f: T -> int)
    requires AscendingAmongEquals(u, key, le, f)
    requires forall z :: z in u && Equivalent(le, key(y), key(z)) ==> f(y) < f(z)
    ensures AscendingAmongEquals([y] + u, key, le, f)
  {
    var r := [y] + u;
    forall i, j | 0 <= i < j < |r| && Equivalent(le, key(r[i]), key(r[j]))
      ensures f(r[i]) < f(r[j])
    {
      assert r[j] == u[j - 1];
      if i > 0 {
        assert r[i] == u[i - 1];
      }
    }
  }

  lemma {:induction false} InsertAscendingAmongEquals<T, K(!new)>(
    x: T, t: seq<T>, key: T -> K, le: (K, K) -> bool, f: T -> int)
    requires AscendingAmongEquals(t, key, le, f)
    requires forall y :: y in t ==> f(x) < f(y)
    ensures AscendingAmongEquals(Insert(x, t, key, le), key, le, f)
  {
    if t == [] || le(key(t[0]), key(x)) {
      ConsAscending(x, t, key, le, f);
    } else {
      var rest := Insert(x, t[1..], key, le);
      TailSorted(t, key, le, f);
      forall y | y in t[1..] ensures f(x) < f(y) {
        assert y in t;
      }
      InsertAscendingAmongEquals(x, t[1..], key, le, f);
      forall z | z in rest && Equivalent(le, key(t[0]), key(z)) ensures f(t[0]) < f(z) {
        assert z in multiset(rest);
        assert z != x;
        var m :| 0 <= m < |t[1..]| && t[1..][m] == z;
        assert t[m + 1] == z;
      }
      ConsAscending(t[0], rest, key, le, f);
    }
  }

  /** When the input is strictly increasing in `f`, the sort keeps elements with
      equal keys in increasing order of `f` (stability, stated by rank). */
  lemma {:induction false} SortDescAscendingAmongEquals<T, K(!new)>(
    s: seq<T>, key: T -> K, le: (K, K) -> bool, f: T -> int)
    requires forall i, j :: 0 <= i < j < |s| ==> f(s[i]) < f(s[j])
    ensures AscendingAmongEquals(SortDesc(s, key, le), key, le, f)
  {
    if s != [] {
      var sorted := SortDesc(s[1..], key, le);
      SortDescAscendingAmongEquals(s[1..], key, le, f);
      forall y | y in sorted ensures f(s[0]) < f(y) {
        assert y in multiset(sorted);
        assert y in s[1..];
      }
      InsertAscendingAmongEquals(s[0], sorted, key, le, f);
    }
  }

  /** Integer order, for the count and year comparators. */
  predicate IntLe(a: int, b: int) {
    a <= b
  }

  lemma IntLeTotalPreorder()
    ensures TotalPreorder(IntLe)
  {
  }

  /** Sorting by an integer key gives a list non-increasing in that key. */
  lemma SortDescByInt<T>(s: seq<T>, key: T -> int)
    ensures var r := SortDesc(s, key, IntLe);
      forall i, j :: 0 <= i < j < |r| ==> key(r[j]) <= key(r[i])
  {
    IntLeTotalPreorder();
  }
}
