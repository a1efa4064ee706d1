/** The sitemap: seven fixed entries for the site's top-level pages, then one
    entry per article, TIL and reflection, in that order and in list order. */
module Sitemap {
  import opened Posts

  datatype ChangeFrequency = Daily | Weekly | Monthly

  /** `new Date()` at generation time, or `new Date(post.date)`: the clock and
      date parsing are not modelled, so the timestamp is kept as given. */
  datatype LastModified = Now | PostDate(date: string)

  /** One sitemap entry; the priority is counted in tenths (`0.8` is 8). */
  datatype Entry = Entry(url: string, lastModified: LastModified, changeFrequency: ChangeFrequency, priority: nat)

  const BaseUrl: string := "https://cassidycodes.vercel.app"

  /** `staticPages`. */
  function StaticPages(): seq<Entry> {
    [ Entry(BaseUrl, Now, Daily, 10),
      Entry(BaseUrl + "/articles", Now, Weekly, 8),
      Entry(BaseUrl + "/til", Now, Weekly, 8),
      Entry(BaseUrl + "/reflections", Now, Monthly, 8),
      Entry(BaseUrl + "/misc", Now, Daily, 6),
      Entry(BaseUrl + "/tags", Now, Weekly, 5),
      Entry(BaseUrl + "/search", Now, Weekly, 5) ]
  }

  /** The priority of every post of a kind: articles 0.9, TILs 0.7, reflections 0.8. */
  function PostPriority(kind: PostType): nat {
    match kind
    case Article => 9
    case Til => 7
    case Reflection => 8
  }

  /** `posts.map(post => ({ url: `${baseUrl}/<segment>/${post.slug}`, … }))`. */
  function PostEntries(posts: seq<Post>, kind: PostType): seq<Entry> {
    seq(|posts|, i requires 0 <= i < |posts| =>
      Entry(BaseUrl + Href(kind, posts[i].slug), PostDate(posts[i].date), Monthly, PostPriority(kind)))
  }

  /** `sitemap()`. */
  function SitemapOf(articles: seq<Post>, tils: seq<Post>, reflections: seq<Post>): (r: seq<Entry>)
    ensures |r| == 7 + |articles| + |tils| + |reflections|
    ensures r[..7] == StaticPages()
  {
    StaticPages() + PostEntries(articles, Article) + PostEntries(tils, Til) + PostEntries(reflections, Reflection)
  }

  /** The `i`-th entry for a list of posts of one kind is the `i`-th post's
      detail page on the site, monthly, at the kind's priority, dated by the post. */
  predicate IsPostEntry(e: Entry, p: Post, kind: PostType) {
    && e.url == BaseUrl + Href(kind, p.slug)
    && e.lastModified == PostDate(p.date)
    && e.changeFrequency == Monthly
    && e.priority == PostPriority(kind)
  }

  /** The entries are the seven static pages, then the articles, the TILs and
      the reflections, each in list order; every post entry links to the post's
      detail page under the base URL. */
  lemma SitemapLayout(articles: seq<Post>, tils: seq<Post>, reflections: seq<Post>)
    ensures var r := SitemapOf(articles, tils, reflections);
      var a, t := 7 + |articles|, 7 + |articles| + |tils|;
      && |r| == 7 + |articles| + |tils| + |reflections|
      && r[..7] == StaticPages()
      && (forall i :: 0 <= i < |articles| ==> IsPostEntry(r[7 + i], articles[i], Article))
      && (forall i :: 0 <= i < |tils| ==> IsPostEntry(r[a + i], tils[i], Til))
      && (forall i :: 0 <= i < |reflections| ==> IsPostEntry(r[t + i], reflections[i], Reflection))
  {
    var r := SitemapOf(articles, tils, reflections);
    var s, pa, pt, pr := StaticPages(), PostEntries(articles, Article), PostEntries(tils, Til), PostEntries(reflections, Reflection);
    assert r == s + pa + pt + pr;
    forall i | 0 <= i < |articles| ensures IsPostEntry(r[7 + i], articles[i], Article) {
      assert r[7 + i] == pa[i];
    }
    forall i | 0 <= i < |tils| ensures IsPostEntry(r[7 + |articles| + i], tils[i], Til) {
      assert r[7 + |articles| + i] == pt[i];
    }
    forall i | 0 <= i < |reflections| ensures IsPostEntry(r[7 + |articles| + |tils| + i], reflections[i], Reflection) {
      assert r[7 + |articles| + |tils| + i] == pr[i];
    }
  }

  /** Every URL in the sitemap lies under the base URL, and the first entry is
      the base URL itself, at the top priority. */
  lemma UrlsUnderBase(articles: seq<Post>, tils: seq<Post>, reflections: seq<Post>)
    ensures var r := SitemapOf(articles, tils, reflections);
      && r[0].url == BaseUrl && r[0].priority == 10
      && forall i :: 0 <= i < |r| ==> BaseUrl <= r[i].url
  {
    var r := SitemapOf(articles, tils, reflections);
    SitemapLayout(articles, tils, reflections);
    var s := StaticPages();
    forall i | 0 <= i < 7 ensures BaseUrl <= r[i].url {
      assert r[i] == s[i];
      assert BaseUrl <= s[i].url;
    }
    forall i | 7 <= i < |r| ensures BaseUrl <= r[i].url {
      if i < 7 + |articles| {
        assert r[7 + (i - 7)].url == BaseUrl + Href(Article, articles[i - 7].slug);
      } else if i < 7 + |articles| + |tils| {
        var a := 7 + |articles|;
        assert r[a + (i - a)].url == BaseUrl + Href(Til, tils[i - a].slug);
      } else {
        var t := 7 + |articles| + |tils|;
        assert r[t + (i - t)].url == BaseUrl + Href(Reflection, reflections[i - t].slug);
      }
    }
  }

  /** Distinct posts of different kinds or slugs never share a sitemap URL. */
  lemma PostUrlsDistinct(p: Post, k: PostType, q: Post, l: PostType)
    requires BaseUrl + Href(k, p.slug) == BaseUrl + Href(l, q.slug)
    ensures k == l && p.slug == q.slug
  {
    var u, v := BaseUrl + Href(k, p.slug), BaseUrl + Href(l, q.slug);
    assert u[|BaseUrl|..] == Href(k, p.slug);
    assert v[|BaseUrl|..] == Href(l, q.slug);
    HrefInjective(k, p.slug, l, q.slug);
  }
}
