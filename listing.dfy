/** The infinite-scroll listings of the article, TIL and misc pages: the posts
    are sorted newest first once, and a `displayCount` counter, raised ten at a
    time by `loadMore`, decides how long a prefix is shown. */
module Listing {
  import opened Posts

  const PostsPerLoad: nat := 10

  /** `list.slice(0, n)` for a non-negative `n`. */
  function Prefix<T>(s: seq<T>, n: nat): seq<T> {
    if n <= |s| then s[..n] else s
  }

  /** The shown posts are the first `min(n, |s|)` posts. */
  lemma PrefixSpec<T>(s: seq<T>, n: nat)
    ensures Prefix(s, n) <= s
    ensures |Prefix(s, n)| == if n < |s| then n else |s|
  {
  }

  /** `Math.min(prev + POSTS_PER_LOAD, total)`. */
  function NextDisplayCount(prev: nat, total: nat): nat {
    if prev + PostsPerLoad <= total then prev + PostsPerLoad else total
  }

  /** One load shows at most ten more posts and never more than there are; it
      never shrinks the count while the count does not exceed the total, and
      it makes progress while there is more to show. */
  lemma NextDisplayCountSpec(prev: nat, total: nat)
    ensures NextDisplayCount(prev, total) <= prev + PostsPerLoad
    ensures NextDisplayCount(prev, total) <= total
    ensures NextDisplayCount(prev, total) == prev + PostsPerLoad || NextDisplayCount(prev, total) == total
    ensures prev <= total ==> prev <= NextDisplayCount(prev, total)
    ensures prev < total ==> prev < NextDisplayCount(prev, total)
  {
  }

  /** The counter after `loads` loads, starting from the initial ten. */
  function DisplayCountAfter(loads: nat, total: nat): nat {
    if loads == 0 then PostsPerLoad else NextDisplayCount(DisplayCountAfter(loads - 1, total), total)
  }

  /** After at least one load the counter is `min(10 + 10 * loads, total)`, so
      after `total / 10` loads every post is shown and nothing more is to load. */
  lemma {:induction false} DisplayCountAfterSpec(loads: nat, total: nat)
    requires loads > 0
    ensures DisplayCountAfter(loads, total) ==
            if PostsPerLoad * (loads + 1) <= total then PostsPerLoad * (loads + 1) else total
    ensures loads >= total / PostsPerLoad ==> DisplayCountAfter(loads, total) == total
  {
    if loads > 1 {
      DisplayCountAfterSpec(loads - 1, total);
    }
  }

  /** Article cards link to `/articles/<slug>`, TIL cards to `/til/<slug>`. */
  lemma CardHrefs(slug: string)
    ensures Href(Article, slug) == "/articles/" + slug
    ensures Href(Til, slug) == "/til/" + slug
  {
  }

  /** The state of one listing page. */
  class PagedListing<T(==)> {
    /** The posts, newest first. */
    const posts: seq<T>
    /** How many of them the page currently shows at most. */
    var displayCount: nat

    /** The page's first render: the sorted copy of the source list, ten posts. */
    constructor (source: seq<T>, date: T -> string)
      ensures posts == SortByDate(source, date)
      ensures displayCount == PostsPerLoad
    {
      posts := SortByDate(source, date);
      displayCount := PostsPerLoad;
    }

    /** `currentPosts`. */
    function CurrentPosts(): seq<T>
      reads this
    {
      Prefix(posts, displayCount)
    }

    /** `hasMore`. */
    predicate HasMore()
      reads this
    {
      displayCount < |posts|
    }

    /** There is more to load exactly when fewer posts are shown than exist. */
    lemma HasMoreSpec()
      ensures HasMore() <==> |CurrentPosts()| < |posts|
      ensures CurrentPosts() <= posts
    {
      PrefixSpec(posts, displayCount);
    }

    /** `loadMore`, taken as one step (the loading flag and delay are not modelled). */
    method LoadMore()
      modifies this
      ensures displayCount == NextDisplayCount(old(displayCount), |posts|)
    {
      displayCount := NextDisplayCount(displayCount, |posts|);
    }
  }
}
