/** The reflections page: reflections grouped by year into sections, newest
    year first, each section newest post first. */
module ReflectionsPage {
  import opened Seqs
  import Sorting
  import Text
  import opened Posts

  /** One year heading with its reflections. */
  datatype YearSection = YearSection(year: int, reflections: seq<Post>)

  predicate IsDigit(c: char) {
    '0' <= c <= '9'
  }

  function Digit(c: char): int {
    c as int - '0' as int
  }

  /** `new Date(date).getFullYear()` read off the leading `YYYY` of the timestamp. */
  function YearOf(date: string): (r: int)
    ensures |date| < 4 ==> r == 0
    ensures |date| >= 4 && (forall i :: 0 <= i < 4 ==> IsDigit(date[i])) ==> 0 <= r <= 9999
  {
    if |date| < 4 then 0
    else 1000 * Digit(date[0]) + 100 * Digit(date[1]) + 10 * Digit(date[2]) + Digit(date[3])
  }

  /** Later timestamps never have earlier years: the year agrees with the date order. */
  lemma YearOfMonotone(a: string, b: string)
    requires |a| >= 4 && |b| >= 4
    requires forall i :: 0 <= i < 4 ==> IsDigit(a[i]) && IsDigit(b[i])
    requires Text.LexLe(a, b)
    ensures YearOf(a) <= YearOf(b)
  {
    assert a[1..][0] == a[1] && b[1..][0] == b[1];
    assert a[1..][1..][0] == a[2] && b[1..][1..][0] == b[2];
    assert a[1..][1..][1..][0] == a[3] && b[1..][1..][1..][0] == b[3];
  }

  /** Strings `new Date` cannot parse: a short one gives 0, and a longer one
      the digit arithmetic of its first four characters. */
  lemma MalformedYears()
    ensures YearOf("abc") == 0 && YearOf("abcd") == 54562 && YearOf("2024-13-45") == 2024
  {
  }

  function PostYear(p: Post): int {
    YearOf(p.date)
  }

  function Years(s: seq<Post>): seq<int> {
    seq(|s|, i requires 0 <= i < |s| => PostYear(s[i]))
  }

  /** The posts of `s` dated in `year`, in order. */
  function PostsIn(s: seq<Post>, year: int): seq<Post> {
    if s == [] then []
    else PostsIn(s[..|s| - 1], year) + (if PostYear(s[|s| - 1]) == year then [s[|s| - 1]] else [])
  }

  lemma {:induction false} PostsInCount(s: seq<Post>, year: int, x: Post)
    ensures multiset(PostsIn(s, year))[x] == if PostYear(x) == year then multiset(s)[x] else 0
  {
    if s != [] {
      assert s == s[..|s| - 1] + [s[|s| - 1]];
      PostsInCount(s[..|s| - 1], year, x);
    }
  }

  /** What the `reduce` builds: one list per year that has posts, holding that
      year's posts in input order. */
  ghost predicate Grouped(acc: map<int, seq<Post>>, s: seq<Post>) {
    && (forall y :: y in acc <==> y in Years(s))
    && (forall y :: y in acc ==> acc[y] == PostsIn(s, y))
  }

  /** One step of the `reduce`: the year's list is created if missing, then the post is pushed. */
  lemma GroupStep(acc: map<int, seq<Post>>, keys: seq<int>, s: seq<Post>, p: Post)
    requires Grouped(acc, s) && keys == Distinct(Years(s))
    ensures var y := PostYear(p);
      var created := if y in acc then acc else acc[y := []];
      && Grouped(created[y := created[y] + [p]], s + [p])
      && (if y in acc then keys else keys + [y]) == Distinct(Years(s + [p]))
  {
    var y, s' := PostYear(p), s + [p];
    assert Years(s') == Years(s) + [y];
    assert (if y in acc then keys else keys + [y]) == Distinct(Years(s')) by {
      assert Years(s')[..|s|] == Years(s);
    }
    var created := if y in acc then acc else acc[y := []];
    var acc' := created[y := created[y] + [p]];
    forall z | z in acc' ensures acc'[z] == PostsIn(s', z) {
      assert s'[..|s|] == s;
      if z == y && y !in acc {
        PostsInAbsent(s, y);
      }
    }
  }

  /** The `reduce` callback: creates the year's list if missing, then pushes the post. */
  method AddToYear(acc: map<int, seq<Post>>, keys: seq<int>, post: Post, ghost s: seq<Post>)
    returns (acc': map<int, seq<Post>>, keys': seq<int>)
    requires Grouped(acc, s) && keys == Distinct(Years(s))
    ensures Grouped(acc', s + [post]) && keys' == Distinct(Years(s + [post]))
  {
    GroupStep(acc, keys, s, post);
    var year := YearOf(post.date);
    acc', keys' := acc, keys;
    if year !in acc' {
      acc' := acc'[year := []];
      keys' := keys' + [year];
    }
    acc' := acc'[year := acc'[year] + [post]];
  }

  /** `groupedByYear`: `reduce` over the reflections from an empty record.
      `keys` records the years in the order their lists were created. */
  method GroupByYear(posts: seq<Post>) returns (acc: map<int, seq<Post>>, keys: seq<int>)
    ensures Grouped(acc, posts)
    ensures keys == Distinct(Years(posts))
  {
    acc, keys := map[], [];
    var i := 0;
    while i < |posts|
      invariant 0 <= i <= |posts|
      invariant Grouped(acc, posts[..i])
      invariant keys == Distinct(Years(posts[..i]))
    {
      assert posts[..i + 1] == posts[..i] + [posts[i]];
      acc, keys := AddToYear(acc, keys, posts[i], posts[..i]);
      i := i + 1;
    }
    assert posts[..i] == posts;
  }

  lemma {:induction false} PostsInAbsent(s: seq<Post>, year: int)
    requires year !in Years(s)
    ensures PostsIn(s, year) == []
  {
    if s != [] {
      assert Years(s)[|s| - 1] != year;
      assert Years(s[..|s| - 1]) == Years(s)[..|s| - 1];
      PostsInAbsent(s[..|s| - 1], year);
    }
  }

  function Id(y: int): int {
    y
  }

  /** `.sort((a, b) => b - a)` on the years. */
  function DescendingYears(keys: seq<int>): seq<int> {
    Sorting.SortDesc(keys, Id, Sorting.IntLe)
  }

  /** `yearSections`: the years newest first, each with its posts newest first. */
  function Sections(acc: map<int, seq<Post>>, keys: seq<int>): seq<YearSection>
    requires forall i :: 0 <= i < |keys| ==> keys[i] in acc
  {
    var years := DescendingYears(keys);
    assert forall i :: 0 <= i < |years| ==> years[i] in multiset(keys);
    seq(|years|, i requires 0 <= i < |years| => YearSection(years[i], SortByDate(acc[years[i]], PostDate)))
  }

  function PostDate(p: Post): string {
    p.date
  }

  /** The page's sections for a list of reflections. */
  method YearSections(posts: seq<Post>) returns (sections: seq<YearSection>)
    ensures sections == YearSectionsOf(posts)
  {
    var acc, keys := GroupByYear(posts);
    DistinctSpec(Years(posts));
    sections := Sections(acc, keys);
    SectionsAgree(acc, keys, posts);
  }

  lemma SectionsAgree(acc: map<int, seq<Post>>, keys: seq<int>, posts: seq<Post>)
    requires Grouped(acc, posts) && keys == Distinct(Years(posts))
    requires forall i :: 0 <= i < |keys| ==> keys[i] in acc
    ensures Sections(acc, keys) == YearSectionsOf(posts)
  {
    var years := DescendingYears(keys);
    var a, b := Sections(acc, keys), YearSectionsOf(posts);
    assert |a| == |b| == |years|;
    forall i | 0 <= i < |years| ensures a[i] == b[i] {
      assert years[i] in multiset(keys);
      assert acc[years[i]] == PostsIn(posts, years[i]);
    }
  }

  /** The sections as a function of the reflections. */
  function YearSectionsOf(posts: seq<Post>): seq<YearSection> {
    var years := DescendingYears(Distinct(Years(posts)));
    seq(|years|, i requires 0 <= i < |years| => YearSection(years[i], SortByDate(PostsIn(posts, years[i]), PostDate)))
  }

  /** Each element greater than every later one. */
  predicate StrictlyDescending(a: seq<int>) {
    forall i, j :: 0 <= i < j < |a| ==> a[i] > a[j]
  }

  /** The head of a strictly descending list is its maximum. */
  lemma DescendingHead(a: seq<int>, y: int)
    requires StrictlyDescending(a) && y in a
    ensures y <= a[0]
  {
    var i :| 0 <= i < |a| && a[i] == y;
  }

  /** The tail of a strictly descending list is strictly descending. */
  lemma DescendingTail(a: seq<int>)
    requires a != [] && StrictlyDescending(a)
    ensures StrictlyDescending(a[1..])
  {
    forall i, j | 0 <= i < j < |a[1..]| ensures a[1..][i] > a[1..][j] {
      assert a[1..][i] == a[i + 1] && a[1..][j] == a[j + 1];
    }
  }

  /** Equal heads and equal multisets leave equal multisets of the tails. */
  lemma TailMultiset(a: seq<int>, b: seq<int>)
    requires a != [] && b != [] && a[0] == b[0] && multiset(a) == multiset(b)
    ensures multiset(a[1..]) == multiset(b[1..])
  {
    assert a == [a[0]] + a[1..];
    assert b == [b[0]] + b[1..];
    assert multiset(a) == multiset{a[0]} + multiset(a[1..]);
    assert multiset(b) == multiset{b[0]} + multiset(b[1..]);
    forall z ensures multiset(a[1..])[z] == multiset(b[1..])[z] {
      assert multiset(a)[z] == multiset{a[0]}[z] + multiset(a[1..])[z];
      assert multiset(b)[z] == multiset{b[0]}[z] + multiset(b[1..])[z];
    }
  }

  /** Two strictly descending lists of the same numbers are the same list. */
  lemma {:induction false} DescendingUnique(a: seq<int>, b: seq<int>)
    requires StrictlyDescending(a) && StrictlyDescending(b)
    requires multiset(a) == multiset(b)
    ensures a == b
  {
    assert |a| == |b| by {
      assert |a| == |multiset(a)| && |b| == |multiset(b)|;
    }
    if a != [] {
      assert a[0] == b[0] by {
        assert a[0] in multiset(b) && b[0] in multiset(a);
        DescendingHead(b, a[0]);
        DescendingHead(a, b[0]);
      }
      TailMultiset(a, b);
      DescendingTail(a);
      DescendingTail(b);
      DescendingUnique(a[1..], b[1..]);
      assert a == [a[0]] + a[1..] && b == [b[0]] + b[1..];
    }
  }

  /** Sorting distinct years gives a strictly descending list of the same years. */
  lemma SortedYears(keys: seq<int>)
    requires NoDup(keys)
    ensures var years := DescendingYears(keys);
      && (forall i, j :: 0 <= i < j < |years| ==> years[i] > years[j])
      && (forall y :: y in years <==> y in keys)
  {
    var years := DescendingYears(keys);
    Sorting.SortDescByInt(keys, Id);
    assert years == Sorting.SortDesc(keys, Id, Sorting.IntLe);
    NoDupPermutation(keys, years);
    forall i, j | 0 <= i < j < |years| ensures years[i] > years[j] {
      assert Id(years[j]) <= Id(years[i]);
      assert years[i] != years[j];
    }
    forall y ensures y in years <==> y in keys {
      assert y in years <==> y in multiset(years);
      assert y in keys <==> y in multiset(keys);
    }
  }

  /** The order in which the years were collected does not change the sections,
      so `Object.keys` order is immaterial. */
  lemma YearOrderIrrelevant(k1: seq<int>, k2: seq<int>)
    requires NoDup(k1) && NoDup(k2) && multiset(k1) == multiset(k2)
    ensures DescendingYears(k1) == DescendingYears(k2)
  {
    SortedYears(k1);
    SortedYears(k2);
    assert multiset(DescendingYears(k1)) == multiset(k1);
    assert multiset(DescendingYears(k2)) == multiset(k2);
    DescendingUnique(DescendingYears(k1), DescendingYears(k2));
  }

  /** One section per distinct year, years strictly descending. */
  lemma SectionYears(posts: seq<Post>)
    ensures var r := YearSectionsOf(posts);
      && (forall i, j :: 0 <= i < j < |r| ==> r[i].year > r[j].year)
      && (forall y :: y in Years(posts) <==> exists i :: 0 <= i < |r| && r[i].year == y)
  {
    var keys := Distinct(Years(posts));
    var years := DescendingYears(keys);
    var r := YearSectionsOf(posts);
    assert NoDup(keys) && forall y :: y in keys <==> y in Years(posts) by {
      DistinctSpec(Years(posts));
    }
    SortedYears(keys);
    assert forall i :: 0 <= i < |r| ==> r[i].year == years[i];
    forall y ensures y in Years(posts) <==> exists i :: 0 <= i < |r| && r[i].year == y {
      if y in years {
        var i :| 0 <= i < |years| && years[i] == y;
        assert r[i].year == y;
      }
    }
  }

  /** Every section is non-empty and newest first, and holds exactly the posts
      of its year, as often as they occur. */
  lemma SectionContents(posts: seq<Post>, i: nat, x: Post)
    requires i < |YearSectionsOf(posts)|
    ensures var s := YearSectionsOf(posts)[i];
      && s.reflections != []
      && (forall a, b :: 0 <= a < b < |s.reflections| ==>
            Text.LexLe(s.reflections[b].date, s.reflections[a].date))
      && multiset(s.reflections)[x] == if PostYear(x) == s.year then multiset(posts)[x] else 0
  {
    var s := YearSectionsOf(posts)[i];
    SectionAt(posts, i);
    assert PostsIn(posts, s.year) != [] by {
      YearHasPosts(posts, s.year);
    }
    PostsInCount(posts, s.year, x);
  }

  /** The `i`-th section is that of a year some post has, holding the posts
      of that year newest first. */
  lemma SectionAt(posts: seq<Post>, i: nat)
    requires i < |YearSectionsOf(posts)|
    ensures var s := YearSectionsOf(posts)[i];
      && s == YearSection(s.year, SortByDate(PostsIn(posts, s.year), PostDate))
      && s.year in Years(posts)
  {
    var keys := Distinct(Years(posts));
    var y := DescendingYears(keys)[i];
    assert y in multiset(keys);
    DistinctSpec(Years(posts));
  }

  /** A year some post has has posts. */
  lemma YearHasPosts(posts: seq<Post>, y: int)
    requires y in Years(posts)
    ensures PostsIn(posts, y) != []
  {
    var m :| 0 <= m < |posts| && Years(posts)[m] == y;
    PostsInCount(posts, y, posts[m]);
    assert posts[m] in multiset(PostsIn(posts, y));
  }

  /** The reflections of all sections, section after section. */
  function Flatten(sections: seq<YearSection>): seq<Post> {
    if sections == [] then [] else Flatten(sections[..|sections| - 1]) + sections[|sections| - 1].reflections
  }

  /** The posts of the sections for the years `ys`, taken from `posts`. */
  lemma {:induction false} FlattenCount(posts: seq<Post>, sections: seq<YearSection>, x: Post)
    requires NoDup(SectionYearList(sections))
    requires CountsMatch(posts, sections, x)
    ensures multiset(Flatten(sections))[x] ==
            if InSections(sections, PostYear(x)) then multiset(posts)[x] else 0
  {
    if sections != [] {
      var n := |sections| - 1;
      var init, last := sections[..n], sections[n];
      InitOfSections(posts, sections, x);
      FlattenCount(posts, init, x);
      assert multiset(Flatten(sections))[x] == multiset(Flatten(init))[x] + multiset(last.reflections)[x] by {
        assert Flatten(sections) == Flatten(init) + last.reflections;
      }
    }
  }

  /** The years of the sections, in order. */
  function SectionYearList(sections: seq<YearSection>): seq<int> {
    seq(|sections|, i requires 0 <= i < |sections| => sections[i].year)
  }

  /** Some section is for year `y`. */
  predicate InSections(sections: seq<YearSection>, y: int) {
    exists i :: 0 <= i < |sections| && sections[i].year == y
  }

  /** Every section holds `x` as often as `posts` does if it is `x`'s year, and never otherwise. */
  predicate CountsMatch(posts: seq<Post>, sections: seq<YearSection>, x: Post) {
    forall i :: 0 <= i < |sections| ==>
      multiset(sections[i].reflections)[x] == if PostYear(x) == sections[i].year then multiset(posts)[x] else 0
  }

  /** Dropping the last section keeps the years distinct and the counts
      matching; the last year is then in the sections exactly when it is `y`
      or it was in the earlier ones, and not both. */
  lemma InitOfSections(posts: seq<Post>, sections: seq<YearSection>, x: Post)
    requires sections != [] && NoDup(SectionYearList(sections)) && CountsMatch(posts, sections, x)
    ensures var n := |sections| - 1;
      && NoDup(SectionYearList(sections[..n]))
      && CountsMatch(posts, sections[..n], x)
      && !InSections(sections[..n], sections[n].year)
      && (InSections(sections, PostYear(x)) <==>
            InSections(sections[..n], PostYear(x)) || sections[n].year == PostYear(x))
  {
    var n := |sections| - 1;
    var init, ys := sections[..n], SectionYearList(sections);
    assert SectionYearList(init) == ys[..n];
    forall i | 0 <= i < n ensures init[i].year != sections[n].year {
      assert ys[i] != ys[n];
    }
    if InSections(sections, PostYear(x)) {
      var i :| 0 <= i < |sections| && sections[i].year == PostYear(x);
      if i < n {
        assert init[i].year == PostYear(x);
      }
    }
    if InSections(init, PostYear(x)) {
      var i :| 0 <= i < n && init[i].year == PostYear(x);
      assert sections[i].year == PostYear(x);
    }
  }

  /** A reflection occurs in the sections, taken together, as often as in the list. */
  lemma SectionsCount(posts: seq<Post>, x: Post)
    ensures multiset(Flatten(YearSectionsOf(posts)))[x] == multiset(posts)[x]
  {
    var r := YearSectionsOf(posts);
    SectionYears(posts);
    forall i | 0 <= i < |r|
      ensures multiset(r[i].reflections)[x] == if PostYear(x) == r[i].year then multiset(posts)[x] else 0
    {
      SectionContents(posts, i, x);
    }
    var ys := SectionYearList(r);
    assert NoDup(ys) by {
      forall i, j | 0 <= i < j < |ys| ensures ys[i] != ys[j] {
        assert ys[i] == r[i].year && ys[j] == r[j].year;
      }
    }
    FlattenCount(posts, r, x);
    if x in posts {
      var m :| 0 <= m < |posts| && posts[m] == x;
      assert Years(posts)[m] == PostYear(x);
      assert PostYear(x) in Years(posts);
      assert InSections(r, PostYear(x));
    } else {
      assert multiset(posts)[x] == 0;
    }
  }

  /** Every reflection lands in exactly one section, that of its year, so the
      section sizes add up to the number of reflections shown as the total. */
  lemma SectionsPartition(posts: seq<Post>)
    ensures multiset(Flatten(YearSectionsOf(posts))) == multiset(posts)
    ensures |Flatten(YearSectionsOf(posts))| == |posts|
  {
    var flat := Flatten(YearSectionsOf(posts));
    forall x ensures multiset(flat)[x] == multiset(posts)[x] {
      SectionsCount(posts, x);
    }
    assert multiset(flat) == multiset(posts);
    assert |flat| == |multiset(flat)| == |multiset(posts)| == |posts|;
  }

  /** Every card links to `/reflections/<slug>`. */
  lemma CardHref(slug: string)
    ensures Href(Reflection, slug) == "/reflections/" + slug
  {
  }
}
