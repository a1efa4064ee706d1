/** The misc page: short posts shown newest first, ten more per load, and the
    shown posts grouped under one divider per calendar day. */
module MiscPage {
  import opened Seqs
  import Text
  import Listing
  import Posts

  /** A short post of the misc feed. */
  datatype MiscPost = MiscPost(id: string, content: string, date: string, author: string)

  /** The posts of one calendar day. */
  datatype DateGroup = DateGroup(date: string, posts: seq<MiscPost>)

  function PostDate(p: MiscPost): string {
    p.date
  }

  /** `post.date.split('T')[0]`: the calendar day of a timestamp. */
  function DayOf(p: MiscPost): string {
    Text.BeforeFirst(p.date, 'T')
  }

  function Days(s: seq<MiscPost>): seq<string> {
    seq(|s|, i requires 0 <= i < |s| => DayOf(s[i]))
  }

  /** The posts of `s` on day `d`, in order. */
  function PostsOn(s: seq<MiscPost>, d: string): seq<MiscPost> {
    if s == [] then []
    else PostsOn(s[..|s| - 1], d) + (if DayOf(s[|s| - 1]) == d then [s[|s| - 1]] else [])
  }

  /** One group per day, in order of the day's first post, each holding that day's posts in order. */
  function DateGroups(s: seq<MiscPost>): seq<DateGroup> {
    var days := Distinct(Days(s));
    seq(|days|, i requires 0 <= i < |days| => DateGroup(days[i], PostsOn(s, days[i])))
  }

  /** The posts of all groups, group after group. */
  function Flatten(groups: seq<DateGroup>): seq<MiscPost> {
    if groups == [] then [] else Flatten(groups[..|groups| - 1]) + groups[|groups| - 1].posts
  }

  /** A post lands in the group of its own day, as often as it occurs, and in no other. */
  lemma {:induction false} PostsOnCount(s: seq<MiscPost>, d: string, x: MiscPost)
    ensures multiset(PostsOn(s, d))[x] == if DayOf(x) == d then multiset(s)[x] else 0
  {
    if s != [] {
      assert s == s[..|s| - 1] + [s[|s| - 1]];
      PostsOnCount(s[..|s| - 1], d, x);
    }
  }

  lemma DaysSnoc(s: seq<MiscPost>, p: MiscPost)
    ensures Days(s + [p]) == Days(s) + [DayOf(p)]
    ensures Distinct(Days(s + [p])) ==
            if DayOf(p) in Days(s) then Distinct(Days(s)) else Distinct(Days(s)) + [DayOf(p)]
    ensures forall e :: PostsOn(s + [p], e) == PostsOn(s, e) + (if DayOf(p) == e then [p] else [])
  {
    assert Days(s + [p]) == Days(s) + [DayOf(p)];
    assert (Days(s) + [DayOf(p)])[..|Days(s)|] == Days(s);
    assert (s + [p])[..|s|] == s;
  }

  /** A day without posts has an empty post list. */
  lemma {:induction false} PostsOnAbsent(s: seq<MiscPost>, d: string)
    requires d !in Days(s)
    ensures PostsOn(s, d) == []
  {
    if s != [] {
      var init := s[..|s| - 1];
      assert Days(s)[|s| - 1] != d;
      assert Days(init) == Days(s)[..|s| - 1];
      PostsOnAbsent(init, d);
    }
  }

  /** Scanning a post of a day no group has yet opens a new group at the end. */
  lemma DateGroupsSnocNew(s: seq<MiscPost>, p: MiscPost)
    requires forall k :: 0 <= k < |DateGroups(s)| ==> DateGroups(s)[k].date != DayOf(p)
    ensures DateGroups(s + [p]) == DateGroups(s) + [DateGroup(DayOf(p), [p])]
  {
    var d := DayOf(p);
    var g, g' := DateGroups(s), DateGroups(s + [p]);
    var days := Distinct(Days(s));
    assert d !in Days(s) by {
      assert d !in days by {
        assert forall k :: 0 <= k < |days| ==> days[k] == g[k].date;
      }
      DistinctSpec(Days(s));
    }
    DaysSnoc(s, p);
    PostsOnAbsent(s, d);
    var expected := g + [DateGroup(d, [p])];
    assert |g'| == |expected|;
    forall m | 0 <= m < |g'| ensures g'[m] == expected[m] {
      if m < |days| {
        assert g'[m] == DateGroup(days[m], PostsOn(s + [p], days[m]));
        assert days[m] == g[m].date;
      } else {
        assert g'[m] == DateGroup(d, PostsOn(s + [p], d));
      }
    }
  }

  /** Scanning a post of a day that has a group appends the post to that group. */
  lemma DateGroupsSnocExisting(s: seq<MiscPost>, p: MiscPost, k: nat)
    requires k < |DateGroups(s)| && DateGroups(s)[k].date == DayOf(p)
    ensures DateGroups(s + [p]) == DateGroups(s)[k := DateGroup(DayOf(p), DateGroups(s)[k].posts + [p])]
  {
    var d := DayOf(p);
    var g, g' := DateGroups(s), DateGroups(s + [p]);
    var days := Distinct(Days(s));
    assert days[k] == d;
    assert d in Days(s) && forall m :: 0 <= m < |days| && m != k ==> days[m] != d by {
      DistinctSpec(Days(s));
    }
    DaysSnoc(s, p);
    var expected := g[k := DateGroup(d, g[k].posts + [p])];
    assert |g'| == |expected|;
    forall m | 0 <= m < |g'| ensures g'[m] == expected[m] {
      assert g'[m] == DateGroup(days[m], PostsOn(s + [p], days[m]));
    }
  }

  /** `groupedPosts`: for each shown post, `find` the group of its day; push the
      post into it, or push a new group holding just the post. */
  method GroupByDate(current: seq<MiscPost>) returns (grouped: seq<DateGroup>)
    ensures grouped == DateGroups(current)
  {
    grouped := [];
    var i := 0;
    while i < |current|
      invariant 0 <= i <= |current|
      invariant grouped == DateGroups(current[..i])
    {
      var post := current[i];
      var dateOnly := Text.BeforeFirst(post.date, 'T');
      ghost var before := grouped;
      var k := FindGroup(grouped, dateOnly);
      if k < |grouped| {
        grouped := grouped[k := DateGroup(dateOnly, grouped[k].posts + [post])];
      } else {
        grouped := grouped + [DateGroup(dateOnly, [post])];
      }
      assert grouped == DateGroups(current[..i + 1]) by {
        assert current[..i + 1] == current[..i] + [post];
        if k < |before| {
          DateGroupsSnocExisting(current[..i], post, k);
        } else {
          DateGroupsSnocNew(current[..i], post);
        }
      }
      i := i + 1;
    }
    assert current[..i] == current;
  }

  /** `grouped.find(g => g.date === dateOnly)`, as the index of the group it
      finds, or `|grouped|` when there is none. */
  method FindGroup(grouped: seq<DateGroup>, day: string) returns (k: nat)
    ensures k <= |grouped|
    ensures k < |grouped| ==> grouped[k].date == day
    ensures forall m :: 0 <= m < k ==> grouped[m].date != day
  {
    k := 0;
    while k < |grouped| && grouped[k].date != day
      invariant k <= |grouped|
      invariant forall m :: 0 <= m < k ==> grouped[m].date != day
    {
      k := k + 1;
    }
  }

  /** The groups have pairwise different days, each group holds only posts of
      its day and is never empty, and groups come in order of first appearance
      of their day. */
  lemma DateGroupsSpec(s: seq<MiscPost>)
    ensures var g := DateGroups(s);
      && (forall i, j :: 0 <= i < j < |g| ==> g[i].date != g[j].date)
      && (forall i, x :: 0 <= i < |g| && x in g[i].posts ==> x in s && DayOf(x) == g[i].date)
      && (forall i :: 0 <= i < |g| ==> g[i].posts != [])
      && (forall i, j :: 0 <= i < j < |g| ==> FirstIndex(Days(s), g[i].date) < FirstIndex(Days(s), g[j].date))
  {
    var g := DateGroups(s);
    DistinctSpec(Days(s));
    forall i, x | 0 <= i < |g| && x in g[i].posts ensures x in s && DayOf(x) == g[i].date {
      assert x in multiset(g[i].posts);
      PostsOnCount(s, g[i].date, x);
    }
    forall i | 0 <= i < |g| ensures g[i].posts != [] {
      var d := g[i].date;
      assert d in Days(s);
      var m :| 0 <= m < |s| && Days(s)[m] == d;
      PostsOnCount(s, d, s[m]);
    }
  }

  /** Every post sits in the group of its day. */
  lemma DateGroupsCover(s: seq<MiscPost>, x: MiscPost)
    requires x in s
    ensures exists i :: 0 <= i < |DateGroups(s)| && DateGroups(s)[i].date == DayOf(x) && x in DateGroups(s)[i].posts
  {
    var g := DateGroups(s);
    DistinctSpec(Days(s));
    var m :| 0 <= m < |s| && s[m] == x;
    assert Days(s)[m] == DayOf(x);
    assert DayOf(x) in Distinct(Days(s));
    var i :| 0 <= i < |g| && Distinct(Days(s))[i] == DayOf(x);
    PostsOnCount(s, DayOf(x), x);
    assert x in multiset(g[i].posts);
  }

  /** Days form contiguous runs: any post between two posts of one day is of that day. */
  ghost predicate Contiguous(days: seq<string>) {
    forall i, k, j :: 0 <= i < k < j < |days| && days[i] == days[j] ==> days[k] == days[i]
  }

  lemma {:induction false} DistinctLast(days: seq<string>)
    requires days != [] && Contiguous(days)
    ensures Distinct(days) != [] && Distinct(days)[|Distinct(days)| - 1] == days[|days| - 1]
  {
    var init, x := days[..|days| - 1], days[|days| - 1];
    if x in init {
      var i :| 0 <= i < |init| && init[i] == x;
      assert days[|init| - 1] == x by {
        if i < |init| - 1 {
          assert days[i] == days[|days| - 1];
        }
      }
      assert Contiguous(init) by {
        forall a, k, b | 0 <= a < k < b < |init| && init[a] == init[b] ensures init[k] == init[a] {
          assert days[a] == days[b];
        }
      }
      DistinctLast(init);
    }
  }

  lemma FlattenAppendLast(g: seq<DateGroup>, p: MiscPost)
    requires g != []
    ensures var k := |g| - 1;
      Flatten(g[k := DateGroup(g[k].date, g[k].posts + [p])]) == Flatten(g) + [p]
  {
    var k := |g| - 1;
    var g' := g[k := DateGroup(g[k].date, g[k].posts + [p])];
    assert g'[..k] == g[..k];
  }

  lemma ContiguousInit(days: seq<string>)
    requires days != [] && Contiguous(days)
    ensures Contiguous(days[..|days| - 1])
  {
    var init := days[..|days| - 1];
    forall a, k, b | 0 <= a < k < b < |init| && init[a] == init[b] ensures init[k] == init[a] {
      assert days[a] == days[b];
    }
  }

  /** When days come in runs, a day met before continues the run that ends the list. */
  lemma ContiguousLast(days: seq<string>)
    requires |days| >= 2 && Contiguous(days)
    requires days[|days| - 1] in days[..|days| - 1]
    ensures days[|days| - 2] == days[|days| - 1]
  {
    var n := |days| - 1;
    var i :| 0 <= i < n && days[..n][i] == days[n];
    assert days[i] == days[n];
  }

  /** When days come in runs, the last group is that of the last post's day. */
  lemma LastGroupDay(s: seq<MiscPost>)
    requires s != [] && Contiguous(Days(s))
    ensures DateGroups(s) != [] && DateGroups(s)[|DateGroups(s)| - 1].date == DayOf(s[|s| - 1])
  {
    assert Days(s)[|s| - 1] == DayOf(s[|s| - 1]);
    DistinctLast(Days(s));
  }

  /** A post of the day of the last group joins that group, at its end. */
  lemma FlattenSnocSameDay(s: seq<MiscPost>, p: MiscPost)
    requires DateGroups(s) != [] && DateGroups(s)[|DateGroups(s)| - 1].date == DayOf(p)
    ensures Flatten(DateGroups(s + [p])) == Flatten(DateGroups(s)) + [p]
  {
    var g := DateGroups(s);
    DateGroupsSnocExisting(s, p, |g| - 1);
    FlattenAppendLast(g, p);
  }

  /** A post of a new day opens a last group of its own. */
  lemma FlattenSnocNewDay(s: seq<MiscPost>, p: MiscPost)
    requires DayOf(p) !in Days(s)
    ensures Flatten(DateGroups(s + [p])) == Flatten(DateGroups(s)) + [p]
  {
    var g, d := DateGroups(s), DayOf(p);
    assert forall k :: 0 <= k < |g| ==> g[k].date != d by {
      DistinctSpec(Days(s));
    }
    DateGroupsSnocNew(s, p);
    assert (g + [DateGroup(d, [p])])[..|g|] == g;
  }

  /** The groups' posts, concatenated, give back the input exactly when days come in runs. */
  lemma {:induction false} FlattenContiguous(s: seq<MiscPost>)
    requires Contiguous(Days(s))
    ensures Flatten(DateGroups(s)) == s
  {
    if s != [] {
      var init, p := s[..|s| - 1], s[|s| - 1];
      ContiguousSnoc(s);
      FlattenContiguous(init);
      assert s == init + [p];
      if DayOf(p) in Days(init) {
        LastGroupDay(init);
        FlattenSnocSameDay(init, p);
      } else {
        FlattenSnocNewDay(init, p);
      }
    }
  }

  /** Dropping the last post keeps the days in runs, and a last post of a day
      met before is of the day of the post just before it. */
  lemma ContiguousSnoc(s: seq<MiscPost>)
    requires s != [] && Contiguous(Days(s))
    ensures var init, p := s[..|s| - 1], s[|s| - 1];
      && Contiguous(Days(init))
      && (DayOf(p) in Days(init) ==> init != [] && DayOf(p) == DayOf(init[|init| - 1]))
  {
    var init, p := s[..|s| - 1], s[|s| - 1];
    assert Days(init) == Days(s)[..|s| - 1];
    ContiguousInit(Days(s));
    if DayOf(p) in Days(init) {
      ContiguousLast(Days(s));
    }
  }

  /** Newest-first timestamps of the form `<day>T<time>` put each day's posts in one run. */
  lemma SortedDaysContiguous(s: seq<MiscPost>)
    requires forall i, j :: 0 <= i < j < |s| ==> Text.LexLe(s[j].date, s[i].date)
    requires forall i :: 0 <= i < |s| ==> 'T' in s[i].date
    ensures Contiguous(Days(s))
  {
    forall i, k, j | 0 <= i < k < j < |s| && Days(s)[i] == Days(s)[j] ensures Days(s)[k] == Days(s)[i] {
      Text.BetweenSameBeforeFirst(s[j].date, s[k].date, s[i].date, 'T');
    }
  }

  /** On the page the shown posts are a prefix of the newest-first list, so the
      groups, read in order, show exactly the current posts. */
  lemma GroupsShowCurrentPosts(all: seq<MiscPost>, displayCount: nat)
    requires forall p :: p in all ==> 'T' in p.date
    ensures var current := Listing.Prefix(Posts.SortByDate(all, PostDate), displayCount);
      Flatten(DateGroups(current)) == current
  {
    var sorted := Posts.SortByDate(all, PostDate);
    var current := Listing.Prefix(sorted, displayCount);
    forall i | 0 <= i < |current| ensures 'T' in current[i].date {
      assert current[i] in multiset(sorted);
    }
    SortedDaysContiguous(current);
    FlattenContiguous(current);
  }
}
