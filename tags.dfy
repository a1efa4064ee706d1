/** The content query layer of `lib/tags.ts`: the tag index with occurrence
    counts, the exact tag filter, and the case-insensitive search. All three
    work on the union of the TIL, article and reflection lists, in that order. */
module Tags {
  import opened Seqs
  import Sorting
  import Text
  import opened Posts

  /** One entry of the tag index. */
  datatype TagWithCount = TagWithCount(name: string, count: nat)

  /** A post together with the list it was taken from. */
  datatype TaggedPost = TaggedPost(post: Post, kind: PostType)

  /** A query result: the post's fields, its kind and its detail-page link. */
  datatype LinkedPost = LinkedPost(post: Post, kind: PostType, href: string)

  /** Every tag of every post, post by post, each post's tags in its own order. */
  function TagStream(posts: seq<Post>): seq<string> {
    if posts == [] then [] else TagStream(posts[..|posts| - 1]) + posts[|posts| - 1].tags
  }

  /** One entry per distinct tag, in first-encounter order, counting every occurrence. */
  function TagEntries(stream: seq<string>): seq<TagWithCount> {
    var names := Distinct(stream);
    seq(|names|, i requires 0 <= i < |names| => TagWithCount(names[i], multiset(stream)[names[i]]))
  }

  function Count(t: TagWithCount): int {
    t.count
  }

  /** The value `getAllTags` returns: the entries sorted by count, most used first. */
  function AllTags(tils: seq<Post>, articles: seq<Post>, reflections: seq<Post>): (r: seq<TagWithCount>)
    ensures |r| == |Distinct(TagStream(tils + articles + reflections))|
    ensures forall i, j :: 0 <= i < j < |r| ==> r[j].count <= r[i].count
  {
    Sorting.IntLeTotalPreorder();
    Sorting.SortDesc(TagEntries(TagStream(tils + articles + reflections)), Count, Sorting.IntLe)
  }

  /** The counter map after scanning `seen`: its keys in insertion order are
      `order`, and each key maps to its number of occurrences in `seen`. */
  ghost predicate Tally(order: seq<string>, counts: map<string, nat>, seen: seq<string>) {
    && order == Distinct(seen)
    && (forall t :: t in counts <==> t in seen)
    && (forall t :: t in counts ==> counts[t] == multiset(seen)[t])
  }

  /** `tagMap.set(tag, (tagMap.get(tag) || 0) + 1)`: a new key is appended to
      the insertion order, an existing one keeps its place. */
  method Bump(order: seq<string>, counts: map<string, nat>, tag: string, ghost seen: seq<string>)
    returns (order': seq<string>, counts': map<string, nat>)
    requires Tally(order, counts, seen)
    ensures Tally(order', counts', seen + [tag])
  {
    assert (seen + [tag])[..|seen|] == seen;
    var previous := if tag in counts then counts[tag] else 0;
    order' := if tag in counts then order else order + [tag];
    counts' := counts[tag := previous + 1];
  }

  /** The entries read back from a tally are the tag entries of what was scanned. */
  lemma TallyEntries(order: seq<string>, counts: map<string, nat>, seen: seq<string>)
    requires Tally(order, counts, seen)
    ensures forall i :: 0 <= i < |order| ==> order[i] in counts
    ensures seq(|order|, i requires 0 <= i < |order| && order[i] in counts =>
              TagWithCount(order[i], counts[order[i]])) == TagEntries(seen)
  {
    DistinctSpec(seen);
  }

  /** The inner `post.tags.forEach`: bumps the counter of each tag of one post, in order. */
  method ScanTags(order: seq<string>, counts: map<string, nat>, tags: seq<string>, ghost seen: seq<string>)
    returns (order': seq<string>, counts': map<string, nat>)
    requires Tally(order, counts, seen)
    ensures Tally(order', counts', seen + tags)
  {
    order', counts' := order, counts;
    var q := 0;
    ghost var scanned := seen;
    assert seen + tags[..q] == seen;
    while q < |tags|
      invariant 0 <= q <= |tags|
      invariant scanned == seen + tags[..q]
      invariant Tally(order', counts', scanned)
    {
      order', counts' := Bump(order', counts', tags[q], scanned);
      AppendNext(seen, tags, q);
      scanned := scanned + [tags[q]];
      q := q + 1;
    }
    assert tags[..q] == tags;
  }

  /** `getAllTags`: scans every tag of every post into an insertion-ordered
      counter map, then sorts its entries by count. */
  method GetAllTags(tils: seq<Post>, articles: seq<Post>, reflections: seq<Post>)
    returns (tags: seq<TagWithCount>)
    ensures tags == AllTags(tils, articles, reflections)
  {
    var all := tils + articles + reflections;
    var order: seq<string> := [];
    var counts: map<string, nat> := map[];
    var p := 0;
    while p < |all|
      invariant 0 <= p <= |all|
      invariant Tally(order, counts, TagStream(all[..p]))
    {
      ghost var before := TagStream(all[..p]);
      order, counts := ScanTags(order, counts, all[p].tags, before);
      assert TagStream(all[..p + 1]) == before + all[p].tags by {
        assert all[..p + 1][..p] == all[..p];
      }
      p := p + 1;
    }
    assert all[..p] == all;
    TallyEntries(order, counts, TagStream(all));
    var entries := seq(|order|, i requires 0 <= i < |order| && order[i] in counts =>
                         TagWithCount(order[i], counts[order[i]]));
    tags := Sorting.SortDesc(entries, Count, Sorting.IntLe);
  }

  /** Each entry is determined by its name, and the names are the distinct tags. */
  lemma TagEntriesSpec(stream: seq<string>)
    ensures NoDup(TagEntries(stream))
    ensures forall x :: x in TagEntries(stream) ==>
              x.name in stream && x == TagWithCount(x.name, multiset(stream)[x.name])
    ensures forall t :: t in stream ==> TagWithCount(t, multiset(stream)[t]) in TagEntries(stream)
    ensures forall i, j :: 0 <= i < j < |TagEntries(stream)| ==>
              FirstIndex(stream, TagEntries(stream)[i].name) < FirstIndex(stream, TagEntries(stream)[j].name)
  {
    DistinctSpec(stream);
    var names := Distinct(stream);
    var entries := TagEntries(stream);
    assert forall i :: 0 <= i < |entries| ==> entries[i].name == names[i];
    forall t | t in stream ensures TagWithCount(t, multiset(stream)[t]) in entries {
      var a :| 0 <= a < |names| && names[a] == t;
      assert entries[a] == TagWithCount(t, multiset(stream)[t]);
    }
  }

  /** Every distinct tag appears exactly once in the index (tags are compared
      exactly, case included), and only tags that occur in some post appear. */
  lemma AllTagsNames(tils: seq<Post>, articles: seq<Post>, reflections: seq<Post>)
    ensures var r, stream := AllTags(tils, articles, reflections), TagStream(tils + articles + reflections);
      && (forall i, j :: 0 <= i < j < |r| ==> r[i].name != r[j].name)
      && (forall t :: t in stream <==> exists i :: 0 <= i < |r| && r[i].name == t)
  {
    var stream := TagStream(tils + articles + reflections);
    ReorderedEntriesNames(stream, AllTags(tils, articles, reflections));
  }

  /** Any reordering of the tag entries of a stream names each of its tags once. */
  lemma ReorderedEntriesNames(stream: seq<string>, r: seq<TagWithCount>)
    requires multiset(r) == multiset(TagEntries(stream))
    ensures forall i, j :: 0 <= i < j < |r| ==> r[i].name != r[j].name
    ensures forall t :: t in stream <==> exists i :: 0 <= i < |r| && r[i].name == t
  {
    var entries := TagEntries(stream);
    TagEntriesSpec(stream);
    NoDupPermutation(entries, r);
    forall i | 0 <= i < |r| ensures r[i] in entries {
      assert r[i] in multiset(r);
    }
    forall i, j | 0 <= i < j < |r| ensures r[i].name != r[j].name {
      assert r[i] in entries && r[j] in entries;
      assert r[i] != r[j];
    }
    forall t | t in stream ensures exists i :: 0 <= i < |r| && r[i].name == t {
      var x := TagWithCount(t, multiset(stream)[t]);
      assert x in multiset(entries);
      assert x in r;
      var i :| 0 <= i < |r| && r[i] == x;
    }
  }

  /** Each entry's count is the number of occurrences of its tag over the tag
      lists of all posts (twice in one post counts twice), and the index is
      non-increasing by count. */
  lemma AllTagsCounts(tils: seq<Post>, articles: seq<Post>, reflections: seq<Post>)
    ensures var r, stream := AllTags(tils, articles, reflections), TagStream(tils + articles + reflections);
      && (forall i :: 0 <= i < |r| ==> r[i].count == multiset(stream)[r[i].name])
      && (forall i, j :: 0 <= i < j < |r| ==> r[j].count <= r[i].count)
  {
    var stream := TagStream(tils + articles + reflections);
    var r := AllTags(tils, articles, reflections);
    TagEntriesSpec(stream);
    Sorting.IntLeTotalPreorder();
    forall i | 0 <= i < |r| ensures r[i].count == multiset(stream)[r[i].name] {
      assert r[i] in multiset(r);
    }
  }

  /** Tags used equally often keep the order in which they were first met:
      TILs are scanned before articles, articles before reflections. */
  lemma AllTagsTies(tils: seq<Post>, articles: seq<Post>, reflections: seq<Post>)
    ensures var r, stream := AllTags(tils, articles, reflections), TagStream(tils + articles + reflections);
      forall i, j :: 0 <= i < j < |r| && r[i].count == r[j].count ==>
        FirstIndex(stream, r[i].name) < FirstIndex(stream, r[j].name)
  {
    var stream := TagStream(tils + articles + reflections);
    var entries := TagEntries(stream);
    var r := AllTags(tils, articles, reflections);
    var rank := (e: TagWithCount) => FirstIndex(stream, e.name);
    assert forall i, j :: 0 <= i < j < |entries| ==> rank(entries[i]) < rank(entries[j]) by {
      TagEntriesSpec(stream);
    }
    Sorting.SortDescAscendingAmongEquals(entries, Count, Sorting.IntLe, rank);
    forall i, j | 0 <= i < j < |r| && r[i].count == r[j].count
      ensures FirstIndex(stream, r[i].name) < FirstIndex(stream, r[j].name)
    {
      assert Sorting.Equivalent(Sorting.IntLe, Count(r[i]), Count(r[j]));
      assert rank(r[i]) < rank(r[j]);
    }
  }

  /** Marks each post of a list with that list's kind. */
  function Tag(posts: seq<Post>, kind: PostType): seq<TaggedPost> {
    seq(|posts|, i requires 0 <= i < |posts| => TaggedPost(posts[i], kind))
  }

  /** The TIL, article and reflection lists, each post tagged with its list. */
  function TaggedUnion(tils: seq<Post>, articles: seq<Post>, reflections: seq<Post>): seq<TaggedPost> {
    Tag(tils, Til) + Tag(articles, Article) + Tag(reflections, Reflection)
  }

  /** A tagged post occurs in the union as often as the post occurs in the list
      its kind names, so a result's kind always names the list it came from. */
  lemma TaggedUnionCount(tils: seq<Post>, articles: seq<Post>, reflections: seq<Post>, p: Post, k: PostType)
    ensures multiset(TaggedUnion(tils, articles, reflections))[TaggedPost(p, k)] ==
            match k
            case Til => multiset(tils)[p]
            case Article => multiset(articles)[p]
            case Reflection => multiset(reflections)[p]
  {
    TagCount(tils, Til, p, k);
    TagCount(articles, Article, p, k);
    TagCount(reflections, Reflection, p, k);
  }

  lemma {:induction false} TagCount(posts: seq<Post>, kind: PostType, p: Post, k: PostType)
    ensures multiset(Tag(posts, kind))[TaggedPost(p, k)] == if k == kind then multiset(posts)[p] else 0
  {
    if posts != [] {
      var n := |posts| - 1;
      assert posts == posts[..n] + [posts[n]];
      assert Tag(posts, kind) == Tag(posts[..n], kind) + [TaggedPost(posts[n], kind)];
      TagCount(posts[..n], kind, p, k);
    }
  }

  /** The tagged posts whose post satisfies `keep`, in order. */
  function Select(s: seq<TaggedPost>, keep: Post -> bool): (r: seq<TaggedPost>)
    ensures |r| <= |s|
    ensures forall x :: x in r ==> x in s && keep(x.post)
  {
    if s == [] then []
    else (if keep(s[0].post) then [s[0]] else []) + Select(s[1..], keep)
  }

  /** Filtering keeps every selected element as often as it occurs, and no other. */
  lemma {:induction false} SelectCount(s: seq<TaggedPost>, keep: Post -> bool, x: TaggedPost)
    ensures multiset(Select(s, keep))[x] == if keep(x.post) then multiset(s)[x] else 0
  {
    if s != [] {
      assert s == [s[0]] + s[1..];
      SelectCount(s[1..], keep, x);
    }
  }

  /** The result record for a tagged post: same fields, plus its link. */
  function Link(t: TaggedPost): LinkedPost {
    LinkedPost(t.post, t.kind, Href(t.kind, t.post.slug))
  }

  function Unlink(l: LinkedPost): TaggedPost {
    TaggedPost(l.post, l.kind)
  }

  function LinkAll(s: seq<TaggedPost>): seq<LinkedPost> {
    seq(|s|, i requires 0 <= i < |s| => Link(s[i]))
  }

  function Date(t: TaggedPost): string {
    t.post.date
  }

  /** Newest first, then adds the links: the tail shared by both queries. */
  function Present(s: seq<TaggedPost>): (r: seq<LinkedPost>)
    ensures |r| == |s|
    ensures forall i :: 0 <= i < |r| ==> Unlink(r[i]) in s && r[i].href == Href(r[i].kind, r[i].post.slug)
  {
    var sorted := SortByDate(s, Date);
    Seqs.PermutationMembers(sorted, s);
    LinkAll(sorted)
  }

  /** Dropping the links of a presented list gives back a newest-first
      permutation of the input in which same-timestamp posts keep their input
      order, and every link is derived from the kind and slug. */
  lemma PresentSpec(s: seq<TaggedPost>)
    ensures var r := Present(s);
      var plain := seq(|r|, i requires 0 <= i < |r| => Unlink(r[i]));
      && multiset(plain) == multiset(s)
      && (forall i, j :: 0 <= i < j < |r| ==> Text.LexLe(r[j].post.date, r[i].post.date))
      && (forall d :: Sorting.Keep(plain, Date, Text.LexLe, d) == Sorting.Keep(s, Date, Text.LexLe, d))
      && (forall i :: 0 <= i < |r| ==> r[i].href == Href(r[i].kind, r[i].post.slug))
  {
    var sorted := SortByDate(s, Date);
    var r := Present(s);
    var plain := seq(|r|, i requires 0 <= i < |r| => Unlink(r[i]));
    assert plain == sorted;
  }

  /** `getPostsByTag(tag)`: the posts listing `tag` exactly, newest first, with links. */
  function PostsByTag(tils: seq<Post>, articles: seq<Post>, reflections: seq<Post>, tag: string): (r: seq<LinkedPost>)
    ensures |r| <= |tils| + |articles| + |reflections|
    ensures forall i :: 0 <= i < |r| ==>
              tag in r[i].post.tags && Unlink(r[i]) in TaggedUnion(tils, articles, reflections)
  {
    Present(Select(TaggedUnion(tils, articles, reflections), (p: Post) => tag in p.tags))
  }

  /** Each result comes from the union exactly as often as it occurs there when
      its post lists `tag` (exact, case-sensitive match), and never otherwise. */
  lemma PostsByTagSpec(tils: seq<Post>, articles: seq<Post>, reflections: seq<Post>, tag: string, x: TaggedPost)
    ensures var r := PostsByTag(tils, articles, reflections, tag);
      multiset(seq(|r|, i requires 0 <= i < |r| => Unlink(r[i])))[x] ==
        if tag in x.post.tags then multiset(TaggedUnion(tils, articles, reflections))[x] else 0
  {
    var keep := (p: Post) => tag in p.tags;
    var selected := Select(TaggedUnion(tils, articles, reflections), keep);
    PresentSpec(selected);
    SelectCount(TaggedUnion(tils, articles, reflections), keep, x);
  }

  /** The search predicate on one post, given the already lowered query. */
  predicate Matches(p: Post, lowerQuery: string) {
    || Text.Contains(Text.Lower(p.title), lowerQuery)
    || Text.Contains(Text.Lower(p.subtitle), lowerQuery)
    || exists t :: t in p.tags && Text.Contains(Text.Lower(t), lowerQuery)
  }

  /** `searchPosts(query)`: nothing for a blank query; otherwise the posts whose
      lowered title, subtitle or some tag contains the lowered, untrimmed query,
      newest first, with links. */
  function SearchPosts(tils: seq<Post>, articles: seq<Post>, reflections: seq<Post>, query: string): (r: seq<LinkedPost>)
    ensures Text.IsBlank(query) ==> r == []
    ensures |r| <= |tils| + |articles| + |reflections|
    ensures forall i :: 0 <= i < |r| ==>
              Matches(r[i].post, Text.Lower(query)) && Unlink(r[i]) in TaggedUnion(tils, articles, reflections)
  {
    Text.TrimEmptyIffBlank(query);
    if Text.Trim(query) == [] then []
    else
      var lowerQuery := Text.Lower(query);
      Present(Select(TaggedUnion(tils, articles, reflections), (p: Post) => Matches(p, lowerQuery)))
  }

  /** A query made only of whitespace finds nothing; any other query keeps a
      post from the union, as often as it occurs there, exactly when it matches. */
  lemma SearchPostsSpec(tils: seq<Post>, articles: seq<Post>, reflections: seq<Post>, query: string, x: TaggedPost)
    ensures var r := SearchPosts(tils, articles, reflections, query);
      && (Text.IsBlank(query) ==> r == [])
      && (!Text.IsBlank(query) ==>
            multiset(seq(|r|, i requires 0 <= i < |r| => Unlink(r[i])))[x] ==
              if Matches(x.post, Text.Lower(query)) then multiset(TaggedUnion(tils, articles, reflections))[x] else 0)
  {
    Text.TrimEmptyIffBlank(query);
    if !Text.IsBlank(query) {
      var lowerQuery := Text.Lower(query);
      var keep := (p: Post) => Matches(p, lowerQuery);
      var selected := Select(TaggedUnion(tils, articles, reflections), keep);
      PresentSpec(selected);
      SelectCount(TaggedUnion(tils, articles, reflections), keep, x);
    }
  }

  /** Queries that differ only in ASCII letter case give the same results. */
  lemma SearchCaseInsensitive(tils: seq<Post>, articles: seq<Post>, reflections: seq<Post>, q1: string, q2: string)
    requires Text.Lower(q1) == Text.Lower(q2)
    ensures SearchPosts(tils, articles, reflections, q1) == SearchPosts(tils, articles, reflections, q2)
  {
    Text.TrimEmptyIffBlank(q1);
    Text.TrimEmptyIffBlank(q2);
    Text.LowerKeepsBlank(q1);
    Text.LowerKeepsBlank(q2);
  }

  lemma RustMatches()
    ensures Text.Contains("rust", "rust") && !Text.Contains("rust", " rust") && !Text.Contains("", " rust")
    ensures Text.Lower("Rust") == "rust" && Text.Lower("") == "" && Text.Lower(" rust") == " rust"
    ensures Text.Trim(" rust") != [] && Text.Trim("rust") != []
  {
    assert Text.Contains("rust", "rust") by {
      assert "rust"[0..] == "rust";
    }
    RustLower();
    RustNotBlank();
  }

  lemma RustLower()
    ensures Text.Lower("Rust") == "rust" && Text.Lower("") == "" && Text.Lower(" rust") == " rust"
  {
    assert Text.Lower("Rust") == "rust" by {
      var l := Text.Lower("Rust");
      assert l[0] == 'r' && l[1] == 'u' && l[2] == 's' && l[3] == 't';
    }
    assert Text.Lower(" rust") == " rust" by {
      var l := Text.Lower(" rust");
      assert l[0] == ' ' && l[1] == 'r' && l[2] == 'u' && l[3] == 's' && l[4] == 't';
    }
  }

  lemma RustNotBlank()
    ensures Text.Trim(" rust") != [] && Text.Trim("rust") != []
  {
    assert Text.Trim(" rust") != [] by {
      Text.TrimEmptyIffBlank(" rust");
      assert !Text.IsJsSpace(" rust"[1]);
    }
    assert Text.Trim("rust") != [] by {
      Text.TrimEmptyIffBlank("rust");
      assert !Text.IsJsSpace("rust"[0]);
    }
  }

  /** The query is lowered but not trimmed, so its surrounding spaces must match
      too: `" rust"` finds nothing in a post titled `"Rust"` whose subtitle is
      empty and which has no tags, while `"rust"` finds it. */
  lemma SearchKeepsSurroundingSpaces(p: Post)
    requires p.title == "Rust" && p.subtitle == "" && p.tags == []
    ensures SearchPosts([p], [], [], " rust") == []
    ensures |SearchPosts([p], [], [], "rust")| == 1
  {
    RustMatches();
    var u := TaggedUnion([p], [], []);
    assert u == [TaggedPost(p, Til)];
    assert u[1..] == [];
    var spaced := Text.Lower(" rust");
    assert !Matches(p, spaced);
    assert Select(u, (q: Post) => Matches(q, spaced)) == [];
    assert SortByDate([], Date) == [];
    var plain := Text.Lower("rust");
    assert Matches(p, plain);
    assert Select(u, (q: Post) => Matches(q, plain)) == u;
  }
}
