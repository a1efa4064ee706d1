/** The content records shared by the TIL, article and reflection lists, the
    route each kind of post is served under, and the newest-first date sort
    every listing applies. */
module Posts {
  import Sorting
  import Text

  /** An article, TIL or reflection record: all three kinds have these fields. */
  datatype Post = Post(
    id: string,
    title: string,
    subtitle: string,
    date: string,
    tags: seq<string>,
    slug: string,
    contentPath: string)

  /** The list a post comes from. */
  datatype PostType = Til | Article | Reflection

  /** First path segment of a kind's detail pages. */
  function Segment(kind: PostType): string {
    match kind
    case Article => "articles"
    case Reflection => "reflections"
    case Til => "til"
  }

  /** The detail-page link `/<segment>/<slug>` of a post of the given kind. */
  function Href(kind: PostType, slug: string): (r: string)
    ensures |r| == |Segment(kind)| + |slug| + 2
    ensures r[0] == '/' && r[|Segment(kind)| + 1] == '/'
    ensures r[|Segment(kind)| + 2..] == slug
  {
    "/" + Segment(kind) + "/" + slug
  }

  /** Different kinds or different slugs never share a link: the kind can be
      read off the first letter of the segment, and the slug off the tail. */
  lemma HrefInjective(k1: PostType, s1: string, k2: PostType, s2: string)
    requires Href(k1, s1) == Href(k2, s2)
    ensures k1 == k2 && s1 == s2
  {
    var h := Href(k1, s1);
    assert h[1] == Segment(k1)[0];
    assert Href(k2, s2)[1] == Segment(k2)[0];
    assert h[|Segment(k1)| + 2..] == s1;
    assert Href(k2, s2)[|Segment(k2)| + 2..] == s2;
  }

  /** `list.slice().sort((a, b) => date(b) - date(a))`: a newest-first copy in
      which posts with the same timestamp keep their input order. */
  function SortByDate<T(==)>(s: seq<T>, date: T -> string): (r: seq<T>)
    ensures multiset(r) == multiset(s) && |r| == |s|
    ensures forall i, j :: 0 <= i < j < |r| ==> Text.LexLe(date(r[j]), date(r[i]))
    ensures forall d :: Sorting.Keep(r, date, Text.LexLe, d) == Sorting.Keep(s, date, Text.LexLe, d)
  {
    Text.LexLeTotalPreorder();
    Sorting.SortDescStableAll(s, date, Text.LexLe);
    Sorting.SortDesc(s, date, Text.LexLe)
  }
}
