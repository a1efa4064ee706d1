/** String rules the site relies on: JavaScript's `trim` whitespace, ASCII
    lower-casing, substring search, `split(sep)[0]`, and the order of the
    fixed-width `YYYY-MM-DDTHH:MM:SS` timestamps. A string is a sequence of
    UTF-16 code units, one `char` each. */
module Text {
  import Seqs
  import Sorting

  /** JavaScript LineTerminator code points. */
  predicate IsLineTerminator(c: char) {
    var n := c as int;
    n == 0x0A || n == 0x0D || n == 0x2028 || n == 0x2029
  }

  /** JavaScript WhiteSpace or LineTerminator: what `\s` matches and `trim` removes. */
  predicate IsJsSpace(c: char) {
    var n := c as int;
    || IsLineTerminator(c)
    || n == 0x09 || n == 0x0B || n == 0x0C || n == 0x20 || n == 0xA0
    || n == 0x1680 || (0x2000 <= n <= 0x200A) || n == 0x202F || n == 0x205F
    || n == 0x3000 || n == 0xFEFF
  }

  predicate IsBlank(s: string) {
    forall i :: 0 <= i < |s| ==> IsJsSpace(s[i])
  }

  function TrimStart(s: string): string {
    if s != [] && IsJsSpace(s[0]) then TrimStart(s[1..]) else s
  }

  function TrimEnd(s: string): string {
    if s != [] && IsJsSpace(s[|s| - 1]) then TrimEnd(s[..|s| - 1]) else s
  }

  /** `s.trim()`. */
  function Trim(s: string): string {
    TrimEnd(TrimStart(s))
  }

  lemma {:induction false} TrimStartBlank(s: string)
    ensures TrimStart(s) == [] <==> IsBlank(s)
  {
    if s != [] && IsJsSpace(s[0]) {
      TrimStartBlank(s[1..]);
      assert IsBlank(s) <==> IsBlank(s[1..]) by {
        if IsBlank(s[1..]) {
          forall i | 0 <= i < |s| ensures IsJsSpace(s[i]) {
            if i > 0 { assert s[i] == s[1..][i - 1]; }
          }
        }
      }
    }
  }

  lemma {:induction false} TrimEndEmpty(s: string)
    ensures TrimEnd(s) == [] <==> IsBlank(s)
  {
    if s != [] && IsJsSpace(s[|s| - 1]) {
      TrimEndEmpty(s[..|s| - 1]);
      assert IsBlank(s) <==> IsBlank(s[..|s| - 1]) by {
        if IsBlank(s[..|s| - 1]) {
          forall i | 0 <= i < |s| ensures IsJsSpace(s[i]) {
            if i < |s| - 1 { assert s[i] == s[..|s| - 1][i]; }
          }
        }
      }
    }
  }

  /** What trimming from the front leaves does not start with whitespace. */
  lemma {:induction false} TrimStartHead(s: string)
    ensures TrimStart(s) != [] ==> !IsJsSpace(TrimStart(s)[0])
  {
    if s != [] && IsJsSpace(s[0]) {
      TrimStartHead(s[1..]);
    }
  }

  /** A trimmed string is empty exactly when the original holds only whitespace. */
  lemma TrimEmptyIffBlank(s: string)
    ensures Trim(s) == [] <==> IsBlank(s)
  {
    TrimStartBlank(s);
    TrimEndEmpty(TrimStart(s));
    TrimStartHead(s);
  }

  /** Leading whitespace does not change the trimmed string. */
  lemma {:induction false} TrimIgnoresLeadingSpace(w: string, s: string)
    requires IsBlank(w)
    ensures Trim(w + s) == Trim(s)
  {
    if w != [] {
      assert (w + s)[0] == w[0] && IsJsSpace(w[0]);
      assert (w + s)[1..] == w[1..] + s;
      assert TrimStart(w + s) == TrimStart(w[1..] + s);
      TrimIgnoresLeadingSpace(w[1..], s);
    } else {
      assert w + s == s;
    }
  }

  /** ASCII `toLowerCase` of one code unit. */
  function LowerChar(c: char): char {
    if 'A' <= c <= 'Z' then (c as int + 32) as char else c
  }

  /** `s.toLowerCase()`, restricted to ASCII letters. */
  function Lower(s: string): string {
    seq(|s|, i requires 0 <= i < |s| => LowerChar(s[i]))
  }

  /** Lower-casing neither creates nor removes whitespace. */
  lemma LowerKeepsBlank(s: string)
    ensures IsBlank(Lower(s)) <==> IsBlank(s)
  {
    assert forall i :: 0 <= i < |s| ==> (IsJsSpace(Lower(s)[i]) <==> IsJsSpace(s[i]));
  }

  /** `s.includes(q)`. */
  predicate Contains(s: string, q: string) {
    exists i :: 0 <= i <= |s| && q <= s[i..]
  }

  /** `s.split(sep)[0]`: everything before the first `sep`, or all of `s`. */
  function BeforeFirst(s: string, sep: char): (r: string)
    ensures r <= s
    ensures sep !in r
    ensures |r| < |s| ==> s[|r|] == sep
  {
    s[..Seqs.FirstIndex(s, sep)]
  }

  /** When `r` is free of `sep` and `s` starts with `r` then `sep`, the part of
      `s` before its first `sep` is `r`. */
  lemma {:induction false} BeforeFirstOfPrefix(s: string, r: string, sep: char)
    requires sep !in r && r + [sep] <= s
    ensures BeforeFirst(s, sep) == r
  {
    if r != [] {
      assert s[0] == r[0] != sep;
      assert r[1..] + [sep] <= s[1..] by {
        assert r + [sep] == [r[0]] + (r[1..] + [sep]);
      }
      BeforeFirstOfPrefix(s[1..], r[1..], sep);
      assert r == [r[0]] + r[1..];
    }
  }

  /** Lexicographic order by code unit. On the fixed-width local timestamps
      `YYYY-MM-DDTHH:MM:SS` of the content lists it is chronological order. */
  predicate LexLe(a: string, b: string) {
    a == [] || (b != [] && (a[0] < b[0] || (a[0] == b[0] && LexLe(a[1..], b[1..]))))
  }

  lemma {:induction false} LexLeReflexive(a: string)
    ensures LexLe(a, a)
  {
    if a != [] { LexLeReflexive(a[1..]); }
  }

  lemma {:induction false} LexLeTransitive(a: string, b: string, c: string)
    requires LexLe(a, b) && LexLe(b, c)
    ensures LexLe(a, c)
  {
    if a != [] && a[0] == b[0] && b[0] == c[0] {
      LexLeTransitive(a[1..], b[1..], c[1..]);
    }
  }

  lemma {:induction false} LexLeTotal(a: string, b: string)
    ensures LexLe(a, b) || LexLe(b, a)
  {
    if a != [] && b != [] && a[0] == b[0] {
      LexLeTotal(a[1..], b[1..]);
    }
  }

  lemma {:induction false} LexLeAntisymmetric(a: string, b: string)
    requires LexLe(a, b) && LexLe(b, a)
    ensures a == b
  {
    if a != [] && b != [] {
      LexLeAntisymmetric(a[1..], b[1..]);
      assert a == [a[0]] + a[1..] && b == [b[0]] + b[1..];
    }
  }

  /** Timestamps are totally preordered, and two equivalent timestamps are equal. */
  lemma LexLeTotalPreorder()
    ensures Sorting.TotalPreorder(LexLe)
    ensures forall a, b :: Sorting.Equivalent(LexLe, a, b) <==> a == b
  {
    forall a { LexLeReflexive(a); }
    forall a, b, c | LexLe(a, b) && LexLe(b, c) ensures LexLe(a, c) { LexLeTransitive(a, b, c); }
    forall a, b { LexLeTotal(a, b); }
    forall a, b | Sorting.Equivalent(LexLe, a, b) ensures a == b { LexLeAntisymmetric(a, b); }
  }

  /** A string that sorts between two strings sharing a prefix of length `n`
      shares that prefix too. */
  lemma {:induction false} LexBetweenSharesPrefix(lo: string, mid: string, hi: string, n: nat)
    requires LexLe(lo, mid) && LexLe(mid, hi)
    requires n <= |lo| && n <= |hi| && lo[..n] == hi[..n]
    ensures n <= |mid| && mid[..n] == lo[..n]
  {
    if n > 0 {
      assert lo[0] == hi[0] by { assert lo[..n][0] == hi[..n][0]; }
      assert mid != [] && mid[0] == lo[0];
      assert lo[1..][..n - 1] == lo[1..n] == hi[1..n] == hi[1..][..n - 1] by {
        assert lo[1..n] == lo[..n][1..] && hi[1..n] == hi[..n][1..];
      }
      LexBetweenSharesPrefix(lo[1..], mid[1..], hi[1..], n - 1);
      assert mid[..n] == [mid[0]] + mid[1..][..n - 1];
      assert lo[..n] == [lo[0]] + lo[1..][..n - 1];
    }
  }

  /** When `sep` occurs, `split(sep)[0]` is followed by `sep`. */
  lemma SeparatorFollows(s: string, sep: char)
    requires sep in s
    ensures |BeforeFirst(s, sep)| < |s|
    ensures s[..|BeforeFirst(s, sep)| + 1] == BeforeFirst(s, sep) + [sep]
  {
    var d := BeforeFirst(s, sep);
    assert |d| == Seqs.FirstIndex(s, sep) < |s|;
    assert s[..|d| + 1] == s[..|d|] + [s[|d|]];
  }

  /** A timestamp between two timestamps with the same `split(sep)[0]`, the
      lower one containing `sep`, has that same `split(sep)[0]`. */
  lemma BetweenSameBeforeFirst(lo: string, mid: string, hi: string, sep: char)
    requires LexLe(lo, mid) && LexLe(mid, hi)
    requires sep in lo && sep in hi && BeforeFirst(lo, sep) == BeforeFirst(hi, sep)
    ensures BeforeFirst(mid, sep) == BeforeFirst(lo, sep)
  {
    var d := BeforeFirst(lo, sep);
    var n := |d| + 1;
    assert n <= |lo| && lo[..n] == d + [sep] by {
      SeparatorFollows(lo, sep);
    }
    assert n <= |hi| && hi[..n] == d + [sep] by {
      SeparatorFollows(hi, sep);
    }
    assert n <= |mid| && mid[..n] == d + [sep] by {
      LexBetweenSharesPrefix(lo, mid, hi, n);
    }
    assert d + [sep] <= mid;
    BeforeFirstOfPrefix(mid, d, sep);
  }
}
