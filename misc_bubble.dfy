/** The chat bubble of one misc post: content longer than `maxLength` is shown
    cut to `maxLength` characters plus `...` until the reader clicks the bubble,
    and a click on a long bubble expands or collapses it again. */
module MiscBubble {
  import MiscPage

  datatype Option<T> = None | Some(value: T)

  /** The default of the optional `maxLength` prop. */
  const DefaultMaxLength: int := 150

  /** `maxLength = 150` in the parameter list. */
  function MaxLengthOrDefault(given: Option<int>): int {
    if given.Some? then given.value else DefaultMaxLength
  }

  /** `s.slice(0, end)`: a negative end counts from the back, and the end is
      clamped to `0..|s|`. */
  function SliceTo(s: string, end: int): (r: string)
    ensures r <= s
    ensures 0 <= end <= |s| ==> |r| == end
  {
    if end < 0 then (if |s| + end < 0 then [] else s[..|s| + end])
    else if end <= |s| then s[..end]
    else s
  }

  /** `content.length > maxLength`. */
  predicate IsLong(content: string, maxLength: int) {
    |content| > maxLength
  }

  /** `displayContent`. */
  function Display(content: string, maxLength: int, expanded: bool): (r: string)
    ensures expanded || !IsLong(content, maxLength) ==> r == content
    ensures r != content ==> 3 <= |r| <= |content| + 3 && r[..|r| - 3] <= content && r[|r| - 3..] == "..."
  {
    if IsLong(content, maxLength) && !expanded then SliceTo(content, maxLength) + "..." else content
  }

  /** A long, collapsed bubble shows the first `maxLength` characters and `...`,
      `maxLength + 3` characters in all; any other bubble shows the whole
      content. Whatever is shown is the content, or a prefix of it followed by
      `...`. */
  lemma DisplaySpec(content: string, maxLength: int, expanded: bool)
    ensures var r := Display(content, maxLength, expanded);
      && (IsLong(content, maxLength) && !expanded && 0 <= maxLength ==>
            r == content[..maxLength] + "..." && |r| == maxLength + 3)
      && (!IsLong(content, maxLength) || expanded ==> r == content)
      && (r == content || exists p :: p <= content && r == p + "...")
  {
    var r := Display(content, maxLength, expanded);
    if IsLong(content, maxLength) && !expanded {
      var p := SliceTo(content, maxLength);
      assert p <= content && r == p + "...";
    }
  }

  /** With the default limit, a post of more than 150 characters is long and
      shows 153 characters while collapsed. */
  lemma DefaultLimit(content: string)
    requires |content| > 150
    ensures IsLong(content, MaxLengthOrDefault(None))
    ensures |Display(content, MaxLengthOrDefault(None), false)| == 153
  {
    DisplaySpec(content, DefaultMaxLength, false);
  }

  /** The `isExpanded` state after a click: flipped on a long bubble, kept otherwise. */
  function AfterClick(expanded: bool, long: bool): bool {
    if long then !expanded else expanded
  }

  /** Two clicks restore the state; a click on a short bubble changes nothing
      and, in particular, nothing a reader can see. */
  lemma ClickSpec(content: string, maxLength: int, expanded: bool)
    ensures var long := IsLong(content, maxLength);
      && AfterClick(AfterClick(expanded, long), long) == expanded
      && (long ==> AfterClick(expanded, long) != expanded)
      && (!long ==> AfterClick(expanded, long) == expanded)
      && Display(content, maxLength, AfterClick(expanded, long)) ==
           (if long && expanded then Display(content, maxLength, false) else content)
  {
  }

  /** `isMe`: the bubble is the site owner's exactly when the author is `Me`. */
  predicate IsMe(author: string) {
    author == "Me"
  }

  /** Which side of the feed a bubble sits on. */
  datatype Side = Start | End

  /** `bubbleAlignment`: the owner's bubbles on the right, everyone else's on
      the left; the author must be exactly `Me`, case included. */
  function Alignment(author: string): (r: Side)
    ensures r == End <==> author == "Me"
    ensures author == "me" ==> r == Start
  {
    if IsMe(author) then End else Start
  }

  /** The expand/collapse label: shown only on long bubbles, and it reads
      "collapse" while expanded, "more" while collapsed. */
  function ToggleLabel(long: bool, expanded: bool): (r: Option<string>)
    ensures r.Some? <==> long
    ensures r.Some? ==> (r.value == "접기 ▲" <==> expanded)
  {
    if long then Some(if expanded then "접기 ▲" else "더보기 ▼") else None
  }

  /** The state of one bubble. */
  class Bubble {
    const content: string
    const author: string
    const maxLength: int
    /** Whether a long bubble shows its whole content; false at first. */
    var isExpanded: bool

    constructor (post: MiscPage.MiscPost, given: Option<int>)
      ensures content == post.content && author == post.author
      ensures maxLength == MaxLengthOrDefault(given)
      ensures !isExpanded
    {
      content := post.content;
      author := post.author;
      maxLength := MaxLengthOrDefault(given);
      isExpanded := false;
    }

    function DisplayContent(): string
      reads this
    {
      Display(content, maxLength, isExpanded)
    }

    /** The click handler: `isLong && setIsExpanded(!isExpanded)`. */
    method Click()
      modifies this
      ensures isExpanded == AfterClick(old(isExpanded), IsLong(content, maxLength))
    {
      if IsLong(content, maxLength) {
        isExpanded := !isExpanded;
      }
    }
  }
}
