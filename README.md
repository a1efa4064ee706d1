# cassidycodes content layer, in Dafny

This project models the logic of the cassidycodes blog: the pure data
transformations behind its pages, and the small state machines of a few
components. It does not model the markup around them.

- **Tag index and post queries** (`lib/tags.ts`). `getAllTags` counts every tag
  occurrence over the TIL, article and reflection lists. The counts go into an
  insertion-ordered `Map`, whose entries are then sorted by count. `getPostsByTag`
  is an exact tag filter. `searchPosts` is a case-insensitive substring search
  over title, subtitle and tags. Both queries tag each post with the list it
  came from, sort newest first, and add the detail-page link.
- **Page window of the pagination control** (`components/pagination.tsx`):
  at most seven page numbers, with `-1` and `-2` standing for the ellipses.
- **Listing pages** (`app/articles`, `app/til`, `app/misc`). Each page sorts its
  posts newest first. A `displayCount` counter, raised ten at a time, decides how
  many posts are shown. The misc page groups the shown posts by calendar day. The
  reflections page groups reflections into year sections, newest year first.
- **Heading extractor** (`lib/extract-headings.ts`): the table of contents of a
  markdown text.
- **Components**: the misc chat bubble's truncation and expand toggle, and the
  open/closed record of the collapsible diagrams.
- **Sitemap** (`app/sitemap.ts`): the static entries followed by one entry per post.

Conventions:

- Strings are sequences of UTF-16 code units, one `char` each.
- Timestamps are kept as strings. Their order is the lexicographic order `Text.LexLe`,
  which is chronological order for the fixed-width `YYYY-MM-DDTHH:MM:SS` values the
  data files use.
- Every JavaScript `sort` is `Sorting.SortDesc`: a stable insertion sort,
  descending by a key under a total preorder. Ties keep their input order, as
  `Array.prototype.sort` guarantees.
- `toLowerCase` is ASCII lower-casing (`Text.LowerChar`).
- `trim` and `\s` use the JavaScript WhiteSpace and LineTerminator code points.
- Imperative code stays imperative. The counter loop of `getAllTags`, the
  `forEach` grouping of the misc page, the `reduce` of the reflections page and
  the `exec` loop of the heading extractor are methods with loops. Each is proved
  equal to a specification function, and the lemmas about that function state
  what the page promises. The paging counter, the bubble and the diagram record
  are classes whose methods update their fields.

Two details of the query code that a reader might not expect:

- `searchPosts` uses the trimmed query only to decide whether it is blank. It
  then lowers and matches the untrimmed query (lib/tags.ts:43, 53), so leading
  and trailing spaces must match too. `Tags.SearchKeepsSurroundingSpaces` shows
  a case.
- Each post is tagged with its list's kind while that list is mapped
  (lib/tags.ts:27-29, 48-50), so a post whose id also occurs in another list
  keeps its own kind (`Tags.TaggedUnionCount`).

## Model

| member | source | states |
|---|---|---|
| Tags.GetAllTags | lib/tags.ts:10-23 | Scanning every tag of every post into the counter map and sorting its entries by count gives exactly `AllTags`, the specification the lemmas below describe |
| Tags.Bump | lib/tags.ts:16 | `set(tag, (get(tag) \|\| 0) + 1)` keeps the map a tally: keys in first-occurrence order, each mapped to its number of occurrences so far |
| Tags.ScanTags | lib/tags.ts:15-17 | The inner `forEach` over one post's tags extends the tally by those tags, in order |
| Tags.TallyEntries | lib/tags.ts:20-21 | Reading the entries of a tally in insertion order gives one `{ name, count }` per distinct tag in first-encounter order |
| Tags.TagEntriesSpec | lib/tags.ts:12-21 | The entries have no duplicates; each names a tag that occurs, with its occurrence count; every occurring tag has its entry; entries are in first-occurrence order |
| Tags.AllTagsNames | lib/tags.ts:12-21 | Every distinct tag string (exact, case-sensitive) appears exactly once, and a tag appears iff some post lists it |
| Tags.AllTags | lib/tags.ts:10-23 | The tag index has one entry per distinct tag and is ordered by count, most used first |
| Tags.AllTagsCounts | lib/tags.ts:11-22 | Each count is the number of occurrences of the tag over all tag lists (twice in one post counts twice), and the list is non-increasing by count |
| Tags.AllTagsTies | lib/tags.ts:11-22 | Tags with equal counts keep first-encounter order: TILs before articles before reflections |
| Tags.TaggedUnionCount | lib/tags.ts:27-31 | A post tagged with kind `k` occurs in the union as often as the post occurs in the list of kind `k`, so every result names the list it came from |
| Tags.SelectCount | lib/tags.ts:34 | Filtering keeps an element exactly as often as it occurs when the predicate holds, and never otherwise |
| Tags.PresentSpec | lib/tags.ts:35-39 | The sorted, linked results are a permutation of the filtered posts, non-increasing by date, posts with equal dates in union order, each link derived from kind and slug |
| Tags.PostsByTag | lib/tags.ts:25-40 | `getPostsByTag(t)` returns at most as many posts as the three lists hold; each lists `t` exactly and comes from the tagged union |
| Tags.PostsByTagSpec | lib/tags.ts:25-40 | `getPostsByTag(t)` holds each tagged post as often as the union holds it when its tags include `t` by exact match, and not at all otherwise |
| Tags.SearchPosts | lib/tags.ts:42-68 | A blank query returns `[]`; every result matches the lowered query and comes from the tagged union, and there are at most as many as the lists hold |
| Tags.SearchPostsSpec | lib/tags.ts:42-68 | A blank query yields `[]`; otherwise a post is kept, as often as it occurs, iff its lowered title, subtitle or some lowered tag contains the lowered query |
| Tags.SearchCaseInsensitive | lib/tags.ts:53-59 | Queries equal after lower-casing give equal results |
| Tags.SearchKeepsSurroundingSpaces | lib/tags.ts:43-59 | The untrimmed query is matched: `" rust"` finds nothing in a post titled `Rust`, while `"rust"` finds it |
| Seqs.FirstIndex | lib/tags.ts:12-16 | The first position of a value, or the length when it is absent; the value does not occur before it |
| Seqs.DistinctSpec | lib/tags.ts:12-18 | The insertion order of a `Map`: each value once, only values that occur, all of them, in order of first occurrence |
| Seqs.NoDupPermutation | lib/tags.ts:20-22 | A permutation of a duplicate-free list is duplicate-free |
| Sorting.SortDesc | lib/tags.ts:22 | The sort returns a permutation of its input, same length, non-increasing by key under a total preorder |
| Sorting.SortDescStableAll | lib/tags.ts:35 | The sort is stable: for every key value, the elements with that key keep their relative order |
| Sorting.SortDescAscendingAmongEquals | lib/tags.ts:20-22 | Elements with equivalent keys that came in increasing by a rank leave increasing by that rank |
| Sorting.SortDescByInt | app/reflections/page.tsx:21 | `sort((a, b) => b - a)` on numbers leaves them non-increasing |
| Posts.Href | lib/tags.ts:38 | The link is `/`, the kind's segment, `/`, then the slug |
| Posts.HrefInjective | lib/tags.ts:38 | The link `/<segment>/<slug>` determines both the kind and the slug |
| Posts.SortByDate | app/articles/page.tsx:12-14 | `slice().sort` by date returns a permutation of the list, newest first, equal timestamps in input order |
| Text.TrimEmptyIffBlank | lib/tags.ts:43 | `query.trim()` is empty iff the query consists of whitespace only |
| Text.TrimIgnoresLeadingSpace | lib/extract-headings.ts:10-17 | Trimming ignores any whitespace prefix |
| Text.LowerKeepsBlank | lib/tags.ts:43-53 | Lower-casing neither creates nor removes a blank query |
| Text.BeforeFirst | app/misc/page.tsx:49 | `split('T')[0]` is the prefix up to, excluding, the first separator, and the whole string when there is none |
| Text.BeforeFirstOfPrefix | app/misc/page.tsx:49 | A separator-free prefix followed by the separator is exactly what `split(sep)[0]` returns |
| Text.LexLeTotalPreorder | app/misc/page.tsx:14 | The timestamp order is a total preorder whose ties are equal strings |
| Text.LexBetweenSharesPrefix | app/misc/page.tsx:14-49 | A timestamp between two timestamps of one day has that day's prefix |
| Pagination.VisibleSmall | components/pagination.tsx:10-16 | Up to seven pages the window is `1..totalPages`, empty for no pages |
| Pagination.VisibleLarge | components/pagination.tsx:18-27 | Beyond seven pages the window has seven entries from 1 to `totalPages`, in the shape for the current page's position |
| Pagination.VisibleWellFormed | components/pagination.tsx:13-27 | Every entry is an ellipsis or a page in `1..totalPages`, and the pages strictly increase |
| Pagination.VisibleHasCurrent | components/pagination.tsx:13-27 | A current page in `1..totalPages` is always in the window |
| Pagination.VisiblePages | components/pagination.tsx:10-27 | The window has `totalPages` entries up to seven pages and seven beyond; with any pages it starts at page 1 and ends at the last page |
| Pagination.PreviousTarget | components/pagination.tsx:34-35 | The previous button is disabled exactly on page 1, and otherwise from a later page leads to an earlier page that is at least 1 |
| Pagination.NextTarget | components/pagination.tsx:69-70 | The next button is disabled exactly when the current page equals `totalPages`, and otherwise from an earlier page leads to a later page that is at most `totalPages` |
| Pagination.TargetsInRange | components/pagination.tsx:34-70 | Previous is disabled iff on page 1, next iff on the last page; enabled buttons and page entries lead to pages in range, and ellipses lead nowhere |
| Pagination.NextOnNoPages | components/pagination.tsx:10-70 | With `totalPages` 0 and the current page 1 the window is empty, previous is disabled, and next stays enabled and leads to page 2 |
| Listing.PrefixSpec | app/articles/page.tsx:23 | `slice(0, n)` is the prefix of length `min(n, total)` |
| Listing.NextDisplayCountSpec | app/articles/page.tsx:32 | A load adds at most ten and never exceeds the total; it never shrinks a count within the total and grows a count below it |
| Listing.DisplayCountAfterSpec | app/til/page.tsx:16-32 | After `k >= 1` loads the count is `min(10 (k + 1), total)`, so after `total / 10` loads everything is shown |
| Listing.CardHrefs | app/articles/page.tsx:72 | Article cards link to `/articles/<slug>`, TIL cards (app/til/page.tsx:72) to `/til/<slug>` |
| Listing.PagedListing.constructor | app/misc/page.tsx:14-19 | The page starts with the newest-first copy of the posts and a count of ten |
| Listing.PagedListing.HasMoreSpec | app/misc/page.tsx:23-24 | `hasMore` holds iff fewer posts are shown than exist, and the shown posts are a prefix |
| Listing.PagedListing.LoadMore | app/misc/page.tsx:27-35 | `loadMore` sets the count to `min(prev + 10, total)` |
| MiscPage.PostsOnCount | app/misc/page.tsx:50-53 | A day's group holds a post, as often as it occurs, iff the post is of that day |
| MiscPage.DaysSnoc | app/misc/page.tsx:48-56 | One more post appends its day to the days, opens a group only for a new day, and extends only its own day's posts |
| MiscPage.PostsOnAbsent | app/misc/page.tsx:50 | A day no post has has no posts |
| MiscPage.DateGroupsSnocNew | app/misc/page.tsx:55 | A post of a day without a group opens a new group at the end holding just that post |
| MiscPage.DateGroupsSnocExisting | app/misc/page.tsx:50-53 | A post of a day with a group is pushed onto that group and nothing else changes |
| MiscPage.GroupByDate | app/misc/page.tsx:45-60 | The `forEach`/`find`/`push` loop builds exactly `DateGroups` of the shown posts |
| MiscPage.FindGroup | app/misc/page.tsx:50 | `find` returns the first group of the day, or none when no group has that day |
| MiscPage.DateGroupsSpec | app/misc/page.tsx:48-56 | Group days are pairwise distinct; each group is non-empty and holds only posts of its day; groups come in order of each day's first post |
| MiscPage.DateGroupsCover | app/misc/page.tsx:49-56 | Every post sits in the group of `date.split('T')[0]` |
| MiscPage.DistinctLast | app/misc/page.tsx:50-55 | When days come in runs, the last group is the last post's day |
| MiscPage.FlattenContiguous | app/misc/page.tsx:45-59 | When days come in runs, the groups' posts concatenated give back the posts exactly |
| MiscPage.SortedDaysContiguous | app/misc/page.tsx:14 | Newest-first `<day>T<time>` timestamps put each day's posts in one run |
| MiscPage.GroupsShowCurrentPosts | app/misc/page.tsx:14-59 | The groups of the shown prefix, concatenated, are exactly `currentPosts` |
| ReflectionsPage.YearOf | app/reflections/page.tsx:10 | A timestamp shorter than four characters gives 0; one starting with four digits gives a year in `0..9999` |
| ReflectionsPage.YearOfMonotone | app/reflections/page.tsx:10 | A later timestamp never has an earlier year |
| ReflectionsPage.PostsInCount | app/reflections/page.tsx:9-16 | A year's list holds a reflection, as often as it occurs, iff it is of that year |
| ReflectionsPage.GroupStep | app/reflections/page.tsx:11-14 | Creating the year's list when missing and pushing the post extends the grouping by that post |
| ReflectionsPage.AddToYear | app/reflections/page.tsx:10-15 | The `reduce` callback keeps the record a grouping of the reflections seen so far, keys in first-occurrence order |
| ReflectionsPage.GroupByYear | app/reflections/page.tsx:9-16 | The `reduce` builds one list per year with posts, holding that year's reflections in order |
| ReflectionsPage.PostsInAbsent | app/reflections/page.tsx:11-14 | A year without reflections has no list entries |
| ReflectionsPage.YearSections | app/reflections/page.tsx:19-27 | The sections the page builds are `YearSectionsOf` the reflections |
| ReflectionsPage.SectionsAgree | app/reflections/page.tsx:19-27 | Sections read from the `reduce` result equal the sections defined from the reflections |
| ReflectionsPage.DescendingUnique | app/reflections/page.tsx:19-21 | Two strictly descending lists of the same numbers are equal |
| ReflectionsPage.SortedYears | app/reflections/page.tsx:19-21 | Sorting the distinct years gives them strictly descending, each once |
| ReflectionsPage.YearOrderIrrelevant | app/reflections/page.tsx:19-21 | The order in which `Object.keys` lists the years does not change the sections |
| ReflectionsPage.SectionYears | app/reflections/page.tsx:19-22 | Exactly one section per distinct year, strictly descending by year |
| ReflectionsPage.SectionContents | app/reflections/page.tsx:24-26 | Each section is non-empty, newest first, and holds exactly the reflections of its year |
| ReflectionsPage.FlattenCount | app/reflections/page.tsx:9-27 | Over sections of distinct years, each holding its year's reflections, a reflection occurs as often as in the list |
| ReflectionsPage.SectionsCount | app/reflections/page.tsx:9-27 | A reflection occurs in all sections together as often as in the list |
| ReflectionsPage.SectionsPartition | app/reflections/page.tsx:9-43 | The sections partition the reflections, so their sizes sum to the total shown |
| ReflectionsPage.CardHref | app/reflections/page.tsx:62 | Each card links to `/reflections/<slug>` |
| Headings.LineEnd | lib/extract-headings.ts:10 | A line ends at the first line terminator, or at the end of the text |
| Headings.LinesSpec | lib/extract-headings.ts:10 | No line holds a terminator, and the lines joined are the text without terminators |
| Headings.IsHeadingLine | lib/extract-headings.ts:10 | A matching line has at least three characters and starts with `#` |
| Headings.Capture | lib/extract-headings.ts:10 | Group 2 is non-empty and at least two characters shorter than the line, and it starts with a non-whitespace character unless it is one character long |
| Headings.HashRunSpec | lib/extract-headings.ts:16 | The `#` run is the longest prefix of `#` characters |
| Headings.SpaceRunSpec | lib/extract-headings.ts:10 | The whitespace run is a blank prefix |
| Headings.HeadingTextSpec | lib/extract-headings.ts:10-17 | `match[2].trim()` is the rest of the line after the `#` run, trimmed |
| Headings.HeadingLinesSnoc | lib/extract-headings.ts:15-23 | One more line adds itself to the heading lines iff it matches |
| Headings.ItemsSnoc | lib/extract-headings.ts:20-22 | A new heading line appends one heading whose id the slugger computes after all earlier texts |
| Headings.ExtractHeadings | lib/extract-headings.ts:9-26 | The `exec` loop returns exactly `Headings` of the markdown's lines |
| Headings.HeadingsSpec | lib/extract-headings.ts:15-22 | One heading per matching line; level in 1..6 equal to the `#` count, followed by whitespace; text is the trimmed rest; id is the slug of the text after the earlier texts |
| Headings.HeadingLinesSpec | lib/extract-headings.ts:10-23 | A line yields a heading iff it is a line of the text and matches the pattern |
| Headings.NoHeadingLines | lib/extract-headings.ts:11-25 | Markdown with no matching line yields no headings |
| Headings.HeadingLinesAppend | lib/extract-headings.ts:15-23 | The heading lines of two blocks of lines are those of each, in order |
| Headings.HeadingsPrefix | lib/extract-headings.ts:12-20 | Appending lines never changes earlier headings: the fresh slugger sees only earlier texts |
| Headings.HeadingExample | lib/extract-headings.ts:10-17 | `## Intro` is a level-2 heading with text `Intro` |
| Headings.NoSpaceExample | lib/extract-headings.ts:10 | `#Title` is not a heading |
| Headings.SevenHashesExample | lib/extract-headings.ts:10 | A line starting with seven `#` is not a heading |
| MiscBubble.SliceTo | components/misc-bubble.tsx:16 | `slice(0, end)` is a prefix, of length `end` when `0 <= end <= length` |
| MiscBubble.Display | components/misc-bubble.tsx:14-17 | An expanded or short post shows its content; anything else shown is a prefix of the content followed by `...`, at most three characters longer than the content |
| MiscBubble.DisplaySpec | components/misc-bubble.tsx:14-17 | A long collapsed post shows its first `maxLength` characters and `...` (`maxLength + 3` in all); otherwise the content; always content or prefix plus `...` |
| MiscBubble.DefaultLimit | components/misc-bubble.tsx:11-16 | With the default 150, a post over 150 characters is long and shows 153 characters collapsed |
| MiscBubble.ClickSpec | components/misc-bubble.tsx:13-34 | A click flips the state only on a long post; two clicks restore it; a click on a short post changes nothing shown |
| MiscBubble.Alignment | components/misc-bubble.tsx:19-21 | A bubble is right-aligned iff its author is exactly `Me` |
| MiscBubble.ToggleLabel | components/misc-bubble.tsx:48-51 | The label shows iff the post is long, and reads "collapse" iff expanded |
| MiscBubble.Bubble.constructor | components/misc-bubble.tsx:11-13 | A bubble starts collapsed, with `maxLength` defaulting to 150 |
| MiscBubble.Bubble.Click | components/misc-bubble.tsx:34 | The click handler sets the state to the flipped state exactly when the post is long |
| DiagramSection.Toggled | components/diagram-section.tsx:17-21 | The toggled record has the old indices plus the toggled one, and the toggled entry's truthiness flips |
| DiagramSection.ToggledSpec | components/diagram-section.tsx:17-21 | A toggle negates the entry's truthiness and leaves every other index's entry unchanged |
| DiagramSection.ToggleTwice | components/diagram-section.tsx:18-20 | Toggling an index twice restores every diagram's truthiness, so a closed diagram is closed again |
| DiagramSection.Rendered | components/diagram-section.tsx:66-70 | A diagram's chart is rendered iff its entry is truthy, and it is that diagram's chart |
| DiagramSection.InitiallyClosed | components/diagram-section.tsx:15 | With the initial empty record no chart is rendered |
| DiagramSection.Section.constructor | components/diagram-section.tsx:15 | The record starts empty |
| DiagramSection.Section.ToggleDiagram | components/diagram-section.tsx:17-22 | `toggleDiagram(i)` replaces the record with its toggled copy |
| Sitemap.SitemapOf | app/sitemap.ts:6-80 | The sitemap has `7 + articles + TILs + reflections` entries and starts with the seven static pages |
| Sitemap.SitemapLayout | app/sitemap.ts:10-79 | There are `7 + articles + TILs + reflections` entries: the static pages, then each list in order, each post at `baseUrl + /<segment>/<slug>`, monthly, priority 0.9, 0.7 or 0.8 |
| Sitemap.UrlsUnderBase | app/sitemap.ts:7-53 | The first entry is the base URL itself at priority 1, and every URL starts with the base URL |
| Sitemap.PostUrlsDistinct | app/sitemap.ts:56-77 | Posts of different kinds or slugs never share a sitemap URL |

## Left out

- Date parsing and clocks: timestamps are compared as strings, which is chronological only for the fixed-width timestamps of the data. `new Date(...)` on other strings (and its `NaN`) is not modelled, nor is locale formatting.
- ReflectionsPage.YearOf: reads the year off the first four characters. That matches `getFullYear` for the offset-less local timestamps of the data. A date `new Date` cannot parse gives `NaN` in the source. In the model a string shorter than four characters gives 0, and any longer string gives the digit arithmetic of its first four characters: an arbitrary number when they are not digits (`"abcd"` gives 54562), and the leading four digits even when the rest is invalid (`"2024-13-45"` gives 2024); `ReflectionsPage.MalformedYears` states these cases.
- MiscPage.GroupsShowCurrentPosts: requires every misc timestamp to contain `T`. Without it, two posts of one day that sort apart would form two runs, and the groups would not concatenate back to the shown posts.
- Text.LowerChar: lower-cases ASCII letters only; full Unicode `toLowerCase` is not modelled.
- Headings.ExtractHeadings: works line by line. In the source, `\s+` can also match line terminators, so a `#` run followed only by whitespace takes its text from the next line that is not blank. For `"#  \nfoo"` the source gives one level-1 heading with text `foo`; for `"#\t\t\n## Next"` it gives one level-1 heading with text `## Next`. The model instead gives no heading for that line when exactly one whitespace character follows the run, and a heading with empty text when two or more do (`"#  "` matches with text `""`, `Headings.BlankTextExample`); it then treats the next line on its own (a level-2 heading `Next` in the second example). Lines inside fenced code blocks are matched, as in the source.
- Headings.ExtractHeadings: the slugger (GithubSlugger, with its duplicate suffixes) is a function parameter. It receives the texts slugged earlier in the same call and the new text.
- Listing.PagedListing.LoadMore: one atomic step. The `isLoading` flag and the 500 ms `setTimeout` are not modelled.
- The three listing pages share `Listing.PagedListing`, instantiated with articles, TILs or misc posts.
- ReflectionsPage.GroupByYear: `Object.keys` lists integer keys in ascending order. The model keeps first-occurrence order instead; `ReflectionsPage.YearOrderIrrelevant` proves this order does not matter after the sort.
- In-place `push` and `sort` on arrays (misc groups, year lists) are modelled on sequence values; no array is shared, so no aliasing is lost.
- MiscBubble.SliceTo: `maxLength` is an integer; a fractional `maxLength` is not modelled.
- Rendering, styling, routing, the markdown and Mermaid renderers, the comment backend, browser observers, the tag cloud and the data files are not part of this model.
- Sitemap entries carry `lastModified` as "now" or as the post's timestamp string; no `Date` is built.
