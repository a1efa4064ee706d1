/** The table-of-contents extractor: every line of the markdown that is an ATX
    heading (`#` to `######`, whitespace, then text) gives one heading, in
    document order, with an anchor id from a slugger created for this call.
    The slugger is a parameter: given the texts it has already slugged during
    this call and the new text, it returns the id. */
module Headings {
  import Text

  /** One entry of the table of contents. */
  datatype HeadingItem = HeadingItem(id: string, text: string, level: nat)

  /** End of the line starting at the beginning of `s`: the index of the first
      line terminator, or `|s|`. */
  function LineEnd(s: string): (k: nat)
    ensures k <= |s|
    ensures forall i :: 0 <= i < k ==> !Text.IsLineTerminator(s[i])
    ensures k < |s| ==> Text.IsLineTerminator(s[k])
  {
    if s == [] || Text.IsLineTerminator(s[0]) then 0 else 1 + LineEnd(s[1..])
  }

  /** The lines of `s` as the multiline anchors `^` and `$` see them: split at
      every `\n`, `\r`, U+2028 and U+2029. */
  function Lines(s: string): seq<string>
    decreases |s|
  {
    var k := LineEnd(s);
    if k == |s| then [s] else [s[..k]] + Lines(s[k + 1..])
  }

  /** `s` without its line terminators. */
  function DropTerminators(s: string): string {
    if s == [] then []
    else (if Text.IsLineTerminator(s[0]) then [] else [s[0]]) + DropTerminators(s[1..])
  }

  function Concat(lines: seq<string>): string {
    if lines == [] then [] else lines[0] + Concat(lines[1..])
  }

  lemma {:induction false} DropTerminatorsPlain(s: string)
    requires forall i :: 0 <= i < |s| ==> !Text.IsLineTerminator(s[i])
    ensures DropTerminators(s) == s
  {
    if s != [] {
      DropTerminatorsPlain(s[1..]);
    }
  }

  lemma {:induction false} DropTerminatorsAppend(a: string, b: string)
    ensures DropTerminators(a + b) == DropTerminators(a) + DropTerminators(b)
  {
    if a != [] {
      assert (a + b)[1..] == a[1..] + b;
      DropTerminatorsAppend(a[1..], b);
    } else {
      assert a + b == b;
    }
  }

  /** Splitting loses nothing but the terminators: no line holds one, and the
      lines, put back together, are the text without its terminators. */
  lemma LinesSpec(s: string)
    ensures forall i, j :: 0 <= i < |Lines(s)| && 0 <= j < |Lines(s)[i]| ==> !Text.IsLineTerminator(Lines(s)[i][j])
    ensures Concat(Lines(s)) == DropTerminators(s)
  {
    LinesPlain(s);
    LinesConcat(s);
  }

  lemma {:induction false} LinesPlain(s: string)
    ensures forall i, j :: 0 <= i < |Lines(s)| && 0 <= j < |Lines(s)[i]| ==> !Text.IsLineTerminator(Lines(s)[i][j])
    decreases |s|
  {
    var k := LineEnd(s);
    if k < |s| {
      LinesPlain(s[k + 1..]);
      var rest := Lines(s[k + 1..]);
      assert Lines(s) == [s[..k]] + rest;
      forall i, j | 0 <= i < |Lines(s)| && 0 <= j < |Lines(s)[i]| ensures !Text.IsLineTerminator(Lines(s)[i][j]) {
        if i > 0 {
          assert Lines(s)[i] == rest[i - 1];
        }
      }
    }
  }

  lemma {:induction false} LinesConcat(s: string)
    ensures Concat(Lines(s)) == DropTerminators(s)
    decreases |s|
  {
    var k := LineEnd(s);
    if k == |s| {
      DropTerminatorsPlain(s);
      assert Concat([s]) == s + Concat([]);
    } else {
      LinesConcat(s[k + 1..]);
      assert s == s[..k] + ([s[k]] + s[k + 1..]);
      DropTerminatorsAppend(s[..k], [s[k]] + s[k + 1..]);
      DropTerminatorsPlain(s[..k]);
      assert DropTerminators([s[k]] + s[k + 1..]) == DropTerminators(s[k + 1..]) by {
        assert ([s[k]] + s[k + 1..])[1..] == s[k + 1..];
      }
      var rest := Lines(s[k + 1..]);
      assert Lines(s) == [s[..k]] + rest;
      assert Concat(Lines(s)) == s[..k] + Concat(rest) by {
        assert ([s[..k]] + rest)[1..] == rest;
      }
    }
  }

  /** The number of `#` characters a line starts with. */
  function HashRun(line: string): nat {
    if line != [] && line[0] == '#' then 1 + HashRun(line[1..]) else 0
  }

  /** The number of whitespace characters `s` starts with. */
  function SpaceRun(s: string): nat {
    if s != [] && Text.IsJsSpace(s[0]) then 1 + SpaceRun(s[1..]) else 0
  }

  lemma {:induction false} HashRunSpec(line: string)
    ensures HashRun(line) <= |line|
    ensures forall i :: 0 <= i < HashRun(line) ==> line[i] == '#'
    ensures HashRun(line) < |line| ==> line[HashRun(line)] != '#'
  {
    if line != [] && line[0] == '#' {
      HashRunSpec(line[1..]);
    }
  }

  lemma {:induction false} SpaceRunSpec(s: string)
    ensures SpaceRun(s) <= |s|
    ensures Text.IsBlank(s[..SpaceRun(s)])
    ensures SpaceRun(s) < |s| ==> !Text.IsJsSpace(s[SpaceRun(s)])
  {
    if s != [] && Text.IsJsSpace(s[0]) {
      SpaceRunSpec(s[1..]);
      assert s[..SpaceRun(s)] == [s[0]] + s[1..][..SpaceRun(s[1..])];
    }
  }

  /** Whether `^(#{1,6})\s+(.+)$` matches the line: a run of one to six `#`
      (seven or more cannot be split, since the next character would be `#`),
      a whitespace character, and at least one more character. */
  predicate IsHeadingLine(line: string)
    ensures IsHeadingLine(line) ==> 3 <= |line| && line[0] == '#'
  {
    var n := HashRun(line);
    1 <= n <= 6 && n + 2 <= |line| && Text.IsJsSpace(line[n])
  }

  /** Group 2 of the match: `\s+` takes all the whitespace after the `#` run
      but gives back the last character when nothing else is left for `.+`. */
  function Capture(line: string): (r: string)
    requires IsHeadingLine(line)
    ensures 1 <= |r| <= |line| - 2
    ensures |r| > 1 ==> !Text.IsJsSpace(r[0])
  {
    var rest := line[HashRun(line)..];
    var k := SpaceRun(rest);
    SpaceRunSpec(rest);
    if k < |rest| then rest[k..] else rest[|rest| - 1..]
  }

  /** `match[2].trim()`. */
  function HeadingText(line: string): string
    requires IsHeadingLine(line)
  {
    Text.Trim(Capture(line))
  }

  /** The heading text is the rest of the line after the `#` run, trimmed. */
  lemma HeadingTextSpec(line: string)
    requires IsHeadingLine(line)
    ensures HeadingText(line) == Text.Trim(line[HashRun(line)..])
  {
    var rest := line[HashRun(line)..];
    var k := SpaceRun(rest);
    SpaceRunSpec(rest);
    var cut := if k < |rest| then k else |rest| - 1;
    assert Text.IsBlank(rest[..cut]) by {
      assert forall i :: 0 <= i < cut ==> rest[..cut][i] == rest[..k][i];
    }
    var c := Capture(line);
    assert c == rest[cut..];
    assert rest == rest[..cut] + c;
    Text.TrimIgnoresLeadingSpace(rest[..cut], c);
  }

  /** The lines that are headings, in document order. */
  function HeadingLines(lines: seq<string>): (r: seq<string>)
    ensures forall i :: 0 <= i < |r| ==> IsHeadingLine(r[i])
  {
    if lines == [] then []
    else HeadingLines(lines[..|lines| - 1]) + (if IsHeadingLine(lines[|lines| - 1]) then [lines[|lines| - 1]] else [])
  }

  function Texts(headingLines: seq<string>): seq<string>
    requires forall i :: 0 <= i < |headingLines| ==> IsHeadingLine(headingLines[i])
  {
    seq(|headingLines|, i requires 0 <= i < |headingLines| => HeadingText(headingLines[i]))
  }

  /** The headings the heading lines `hl` give, in order: the `i`-th heading
      comes from the `i`-th heading line; its level is the length of the `#`
      run, its text the trimmed rest, and its id what the slugger makes of the
      text after slugging the texts of the headings before it. */
  function Items(hl: seq<string>, slug: (seq<string>, string) -> string): seq<HeadingItem>
    requires forall i :: 0 <= i < |hl| ==> IsHeadingLine(hl[i])
  {
    seq(|hl|, i requires 0 <= i < |hl| =>
      HeadingItem(slug(Texts(hl[..i]), HeadingText(hl[i])), HeadingText(hl[i]), HashRun(hl[i])))
  }

  /** The result of `extractHeadings` on the given lines. */
  function Headings(lines: seq<string>, slug: (seq<string>, string) -> string): seq<HeadingItem> {
    Items(HeadingLines(lines), slug)
  }

  lemma HeadingLinesSnoc(lines: seq<string>, line: string)
    ensures HeadingLines(lines + [line]) ==
            HeadingLines(lines) + (if IsHeadingLine(line) then [line] else [])
  {
    var all := lines + [line];
    assert all[..|all| - 1] == lines;
  }

  /** One more heading line adds its text at the end. */
  lemma TextsSnoc(hl: seq<string>, line: string)
    requires forall i :: 0 <= i < |hl| ==> IsHeadingLine(hl[i])
    requires IsHeadingLine(line)
    ensures Texts(hl + [line]) == Texts(hl) + [HeadingText(line)]
  {
    var t, t2 := Texts(hl), Texts(hl + [line]);
    forall i | 0 <= i < |t2| ensures t2[i] == (t + [HeadingText(line)])[i] {
      if i < |hl| {
        assert (hl + [line])[i] == hl[i];
      }
    }
  }

  /** One more heading line adds one heading at the end, whose id is computed
      from the texts of all the headings before it. */
  lemma ItemsSnoc(hl: seq<string>, line: string, slug: (seq<string>, string) -> string)
    requires forall i :: 0 <= i < |hl| ==> IsHeadingLine(hl[i])
    requires IsHeadingLine(line)
    ensures Texts(hl + [line]) == Texts(hl) + [HeadingText(line)]
    ensures Items(hl + [line], slug) == Items(hl, slug) +
              [HeadingItem(slug(Texts(hl), HeadingText(line)), HeadingText(line), HashRun(line))]
  {
    TextsSnoc(hl, line);
    var hl2 := hl + [line];
    var h, h2 := Items(hl, slug), Items(hl2, slug);
    var last := HeadingItem(slug(Texts(hl), HeadingText(line)), HeadingText(line), HashRun(line));
    forall i | 0 <= i < |h2| ensures h2[i] == (h + [last])[i] {
      if i < |h| {
        assert hl2[..i] == hl[..i] && hl2[i] == hl[i];
      } else {
        assert hl2[..i] == hl && hl2[i] == line;
      }
    }
  }

  /** `extractHeadings(markdown)`: scans the lines in order; for each matching
      line, computes level, text and id, and appends the heading. */
  method ExtractHeadings(markdown: string, slug: (seq<string>, string) -> string)
    returns (headings: seq<HeadingItem>)
    ensures headings == Headings(Lines(markdown), slug)
  {
    var lines := Lines(markdown);
    headings := [];
    var slugged: seq<string> := [];
    var i := 0;
    ghost var hl: seq<string> := [];
    while i < |lines|
      invariant 0 <= i <= |lines|
      invariant hl == HeadingLines(lines[..i])
      invariant headings == Items(hl, slug)
      invariant slugged == Texts(hl)
    {
      var line := lines[i];
      ghost var hl' := hl + (if IsHeadingLine(line) then [line] else []);
      assert hl' == HeadingLines(lines[..i + 1]) by {
        assert lines[..i + 1] == lines[..i] + [line];
        HeadingLinesSnoc(lines[..i], line);
      }
      if IsHeadingLine(line) {
        ItemsSnoc(hl, line, slug);
        var level := HashRun(line);
        var text := Text.Trim(Capture(line));
        var id := slug(slugged, text);
        headings := headings + [HeadingItem(id, text, level)];
        slugged := slugged + [text];
      } else {
        assert hl' == hl;
      }
      hl := hl';
      i := i + 1;
    }
    assert lines[..i] == lines;
  }

  /** Every heading has a level between 1 and 6 equal to the length of the
      `#` run of its line, a text that is the rest of that line trimmed, and
      the id the slugger gives that text after the earlier headings' texts. */
  lemma HeadingsSpec(lines: seq<string>, slug: (seq<string>, string) -> string)
    ensures var h, hl := Headings(lines, slug), HeadingLines(lines);
      && |h| == |hl|
      && forall i :: 0 <= i < |h| ==>
           && 1 <= h[i].level <= 6
           && (forall j :: 0 <= j < h[i].level ==> hl[i][j] == '#')
           && Text.IsJsSpace(hl[i][h[i].level])
           && h[i].text == Text.Trim(hl[i][h[i].level..])
           && h[i].id == slug(seq(i, j requires 0 <= j < i => h[j].text), h[i].text)
  {
    var h, hl := Headings(lines, slug), HeadingLines(lines);
    forall i | 0 <= i < |h|
      ensures (forall j :: 0 <= j < h[i].level ==> hl[i][j] == '#')
      ensures h[i].text == Text.Trim(hl[i][h[i].level..])
      ensures h[i].id == slug(seq(i, j requires 0 <= j < i => h[j].text), h[i].text)
    {
      HashRunSpec(hl[i]);
      HeadingTextSpec(hl[i]);
      assert Texts(hl[..i]) == seq(i, j requires 0 <= j < i => h[j].text);
    }
  }

  /** Heading lines are exactly the lines the pattern matches, in order. */
  lemma {:induction false} HeadingLinesSpec(lines: seq<string>, line: string)
    ensures line in HeadingLines(lines) <==> line in lines && IsHeadingLine(line)
  {
    if lines != [] {
      var init := lines[..|lines| - 1];
      HeadingLinesSpec(init, line);
      assert lines == init + [lines[|lines| - 1]];
    }
  }

  /** Markdown without a heading line has no headings. */
  lemma NoHeadingLines(markdown: string, slug: (seq<string>, string) -> string)
    requires forall line :: line in Lines(markdown) ==> !IsHeadingLine(line)
    ensures Headings(Lines(markdown), slug) == []
  {
    var hl := HeadingLines(Lines(markdown));
    if hl != [] {
      HeadingLinesSpec(Lines(markdown), hl[0]);
    }
  }

  /** Appending markdown never changes the headings already found: the ids of
      earlier headings depend only on what comes before them. */
  lemma {:induction false} HeadingsPrefix(a: seq<string>, b: seq<string>, slug: (seq<string>, string) -> string)
    ensures Headings(a, slug) <= Headings(a + b, slug)
  {
    HeadingLinesAppend(a, b);
    var ha, hab := HeadingLines(a), HeadingLines(a + b);
    forall i | 0 <= i < |ha| ensures Headings(a, slug)[i] == Headings(a + b, slug)[i] {
      assert hab[..i] == ha[..i];
      assert hab[i] == ha[i];
    }
  }

  lemma {:induction false} HeadingLinesAppend(a: seq<string>, b: seq<string>)
    ensures HeadingLines(a + b) == HeadingLines(a) + HeadingLines(b)
  {
    if b != [] {
      var init := b[..|b| - 1];
      HeadingLinesAppend(a, init);
      assert (a + b)[..|a + b| - 1] == a + init;
      assert b == init + [b[|b| - 1]];
    } else {
      assert a + b == a;
    }
  }

  /** `## Intro` is a level-2 heading with text `Intro`. */
  lemma HeadingExample()
    ensures IsHeadingLine("## Intro") && HashRun("## Intro") == 2 && HeadingText("## Intro") == "Intro"
  {
    var line := "## Intro";
    assert HashRun(line) == 2 by {
      assert line[1..][1..] == " Intro";
    }
    assert Text.Trim(line[2..]) == "Intro" by {
      assert line[2..] == [' '] + "Intro";
      Text.TrimIgnoresLeadingSpace([' '], "Intro");
      TrimIntro();
    }
    HeadingTextSpec(line);
  }

  lemma TrimIntro()
    ensures Text.Trim("Intro") == "Intro"
  {
    var t := "Intro";
    assert Text.TrimStart(t) == t;
    assert Text.TrimEnd(t) == t;
  }

  /** `#Title` (no whitespace after the `#`) is not a heading. */
  lemma NoSpaceExample()
    ensures !IsHeadingLine("#Title")
  {
    assert "#Title"[1..] == "Title";
  }

  /** `####### Deep` (seven `#`) is not a heading. */
  lemma SevenHashesExample()
    ensures !IsHeadingLine("####### Deep")
  {
    var line := "####### Deep";
    HashRunPrefix(line, 7);
  }

  /** `#` followed by two spaces matches with empty text: `\s+` gives back one
      space to `.+`, and the trim removes it. */
  lemma BlankTextExample()
    ensures IsHeadingLine("#  ") && HeadingText("#  ") == ""
  {
    var line := "#  ";
    assert line[1..][1..] == " " && line[1..][1..][1..] == [];
    assert HashRun(line) == 1;
    Text.TrimEmptyIffBlank(Capture(line));
  }

  /** A line that starts with `n` `#` characters has a `#` run of at least `n`. */
  lemma {:induction false} HashRunPrefix(line: string, n: nat)
    requires n <= |line| && forall i :: 0 <= i < n ==> line[i] == '#'
    ensures HashRun(line) >= n
  {
    if n > 0 {
      assert forall i :: 0 <= i < n - 1 ==> line[1..][i] == line[i + 1];
      HashRunPrefix(line[1..], n - 1);
    }
  }
}
