/**
 * The pure helpers of helpers.py: the favicon link, the file-name stem, the
 * meta description, the first title and the social-image choice.
 */
module Helpers {
  import opened Wrappers
  import opened Str
  import Paths

  // ---------------------------------------------------------------- favicon

  const EmojiPrefix: string := "https://emoji.dutl.uk/png/64x64/"
  const EmojiSuffix: string := ".png"

  /** The favicon address for a pictograph. */
  function EmojiHref(emoji: string): (r: string)
    ensures StartsWith(r, EmojiPrefix) && EndsWith(r, EmojiSuffix)
    ensures |r| == |EmojiPrefix| + |emoji| + |EmojiSuffix|
  {
    EmojiPrefix + emoji + EmojiSuffix
  }

  /** Reads the pictograph back out of a favicon address. */
  function EmojiOf(href: string): Option<string> {
    if |href| >= |EmojiPrefix| + |EmojiSuffix| && StartsWith(href, EmojiPrefix) && EndsWith(href, EmojiSuffix)
    then Some(href[|EmojiPrefix|..|href| - |EmojiSuffix|])
    else None
  }

  /** The favicon address is exactly prefix, pictograph, suffix: reading it
      back gives the pictograph, and every readable address is built this way. */
  lemma EmojiHrefRoundTrip(emoji: string, href: string)
    ensures EmojiOf(EmojiHref(emoji)) == Some(emoji)
    ensures EmojiOf(href) == Some(emoji) ==> EmojiHref(emoji) == href
  {
    var h := EmojiHref(emoji);
    assert h[|EmojiPrefix|..|h| - |EmojiSuffix|] == emoji;
    if EmojiOf(href) == Some(emoji) {
      assert href == href[..|EmojiPrefix|] + href[|EmojiPrefix|..|href| - |EmojiSuffix|] + href[|href| - |EmojiSuffix|..];
    }
  }

  // ---------------------------------------------------------- file-name stem

  /** `get_filename_without_extension`: the base name minus its last extension. */
  function FilenameWithoutExtension(path: string): (r: string)
    ensures '/' !in r
    ensures StartsWith(Paths.Basename(path), r)
    ensures exists ext :: r + ext == Paths.Basename(path) && (|ext| == 0 || (ext[0] == '.' && '.' !in ext[1..]))
  {
    var parts := Paths.SplitExt(Paths.Basename(path));
    assert parts.0 + parts.1 == Paths.Basename(path);
    assert Paths.Basename(path)[..|parts.0|] == parts.0;
    parts.0
  }

  /** A base name made of an ordinary stem and one `.ext` loses exactly that
      extension: `posts/b.tar.gz` gives `b.tar`. */
  lemma FilenameWithoutExtensionOf(path: string, stem: string, ext: string)
    requires Paths.Basename(path) == stem + ext
    requires '/' !in stem && exists k :: 0 <= k < |stem| && stem[k] != '.'
    requires |ext| >= 1 && ext[0] == '.' && '/' !in ext && '.' !in ext[1..]
    ensures FilenameWithoutExtension(path) == stem
  {
    Paths.SplitExtOf([], stem, ext);
    assert [] + stem + ext == stem + ext;
    assert Paths.SplitExt(Paths.Basename(path)) == (stem, ext);
  }

  /** A base name without any dot is its own stem. */
  lemma FilenameWithoutDot(path: string)
    requires '.' !in Paths.Basename(path)
    ensures FilenameWithoutExtension(path) == Paths.Basename(path)
  {
  }

  // ---------------------------------------------------- meta description

  const MinDescription: nat := 30
  const MaxDescription: nat := 160
  const CutDescription: nat := 155

  /** The inner text of every `<p>…</p>` pair, leftmost first, as
      `re.findall(r'<p>(.*?)</p>', html, re.DOTALL)` returns them: each
      paragraph ends at the first `</p>` after its `<p>`. */
  function Paragraphs(html: string): (ps: seq<string>)
    ensures forall j :: 0 <= j < |ps| ==> !Contains(ps[j], "</p>")
    decreases |html|
  {
    match Find(html, "<p>")
    case None => []
    case Some(i) =>
      match FindFrom(html, "</p>", i + 3)
      case None => []
      case Some(k) =>
        NoOccurrenceInSlice(html, "</p>", i + 3, k);
        [html[i + 3..k]] + Paragraphs(html[k + 4..])
  }

  /** An occurrence inside `s[lo..hi]` is an occurrence in `s`; so a range
      that has none in `s` has none in the slice. */
  lemma NoOccurrenceInSlice(s: string, pat: string, lo: nat, hi: nat)
    requires |pat| > 0 && lo <= hi <= |s|
    requires forall j :: lo <= j < hi ==> !OccursAt(s, pat, j)
    ensures !Contains(s[lo..hi], pat)
  {
    var t := s[lo..hi];
    forall j
      ensures !OccursAt(t, pat, j)
    {
      if 0 <= j && j + |pat| <= |t| {
        var a, b := t[j..j + |pat|], s[lo + j..lo + j + |pat|];
        forall k | 0 <= k < |pat|
          ensures a[k] == b[k]
        {
          assert a[k] == t[j + k] == s[lo + j + k] == b[k];
        }
        assert a == b;
        assert !OccursAt(s, pat, lo + j);
      }
    }
  }

  /** First index at or after `from` holding `c` with no newline before it,
      or None when a newline or the end comes first (a `.*?c` without DOTALL). */
  function FindOnLine(s: string, c: char, from: nat): (r: Option<nat>)
    requires c != '\n'
    ensures r.Some? ==> from <= r.value < |s| && s[r.value] == c
    ensures r.Some? ==> forall j :: from <= j < r.value ==> s[j] != c && s[j] != '\n'
    decreases |s| - from
  {
    if from >= |s| || s[from] == '\n' then None
    else if s[from] == c then Some(from)
    else FindOnLine(s, c, from + 1)
  }

  /** `re.sub(r'<.*?>', '', p)`: removes every `<…>` that closes on the same
      line; a `<` with no `>` before the next newline is kept. */
  function StripLineTags(s: string): (r: string)
    ensures |r| <= |s|
    ensures '<' !in s ==> r == s
    decreases |s|
  {
    if |s| == 0 then []
    else if s[0] == '<' && FindOnLine(s, '>', 1).Some? then
      StripLineTags(s[FindOnLine(s, '>', 1).value + 1..])
    else [s[0]] + StripLineTags(s[1..])
  }

  /** A leading `<p>x</p>` is the first paragraph, whatever follows it. */
  lemma {:induction false} ParagraphOf(x: string, rest: string)
    requires !Contains(x, "</p>")
    ensures Paragraphs("<p>" + x + "</p>" + rest) == [x] + Paragraphs(rest)
  {
    var html := "<p>" + x + "</p>" + rest;
    var k := 3 + |x|;
    assert html[..3] == "<p>";
    FindIsFirst(html, "<p>", 0);
    ParagraphCloseAt(x, "</p>" + rest);
    assert html == "<p>" + x + ("</p>" + rest);
    assert html[3..k] == x;
    assert html[k + 4..] == rest;
  }

  /** The `</p>` right after a text without one is the first from index 3. */
  lemma {:induction false} ParagraphCloseAt(x: string, tail: string)
    requires !Contains(x, "</p>") && StartsWith(tail, "</p>")
    ensures FindFrom("<p>" + x + tail, "</p>", 3) == Some(3 + |x|)
  {
    var html := "<p>" + x + tail;
    var k := 3 + |x|;
    forall i | 0 <= i < |x|
      ensures html[3 + i] == x[i]
    {
    }
    forall i | 0 <= i < |tail|
      ensures html[k + i] == tail[i]
    {
    }
    assert html[k..k + 4] == tail[..4];
    forall j | 3 <= j < k
      ensures !OccursAt(html, "</p>", j)
    {
      if j + 4 <= k {
        assert html[j..j + 4] == x[j - 3..j + 1];
        assert !OccursAt(x, "</p>", j - 3);
      } else {
        assert html[j..j + 4][k - j] == html[k] == '<';
        assert 1 <= k - j <= 3;
        assert "</p>"[1] == '/' && "</p>"[2] == 'p' && "</p>"[3] == '>';
      }
    }
    FindFromIsFirst(html, "</p>", 3, k);
  }

  /** The first index at or after `from` holding `c`, before any line break,
      is the one found. */
  lemma {:induction false} FindOnLineAt(s: string, c: char, from: nat, i: nat)
    requires c != '\n' && from <= i < |s| && s[i] == c
    requires forall j :: from <= j < i ==> s[j] != c && s[j] != '\n'
    ensures FindOnLine(s, c, from) == Some(i)
    decreases i - from
  {
    if from < i {
      FindOnLineAt(s, c, from + 1, i);
    }
  }

  /** A leading tag that closes on its own line is removed whole. */
  lemma StripLineTagOf(t: string, x: string)
    requires '>' !in t && '\n' !in t
    ensures StripLineTags("<" + t + ">" + x) == StripLineTags(x)
  {
    var s := "<" + t + ">" + x;
    var k := 1 + |t|;
    forall j | 1 <= j < k
      ensures s[j] != '>' && s[j] != '\n'
    {
      assert s[j] == t[j - 1];
    }
    FindOnLineAt(s, '>', 1, k);
    assert s[k + 1..] == x;
  }

  /** A paragraph's text once its inner markup is removed and it is trimmed. */
  function ParagraphText(p: string): string {
    Strip(StripLineTags(p))
  }

  /** A paragraph text is significant when it has at least 30 characters. */
  predicate Significant(text: string) {
    |text| >= MinDescription
  }

  /** The description cut: text over 160 characters keeps its first 155 and
      gains "...". */
  function Shorten(t: string): string {
    if |t| > MaxDescription then t[..CutDescription] + "..." else t
  }

  /** A shortened text never exceeds 160 characters; it is the text itself
      when that fits, and otherwise its first 155 characters and an ellipsis. */
  lemma ShortenBounds(t: string)
    ensures |Shorten(t)| <= MaxDescription
    ensures |t| <= MaxDescription ==> Shorten(t) == t
    ensures |t| > MaxDescription ==>
      |Shorten(t)| == CutDescription + 3 && EndsWith(Shorten(t), "...") && Shorten(t)[..CutDescription] == t[..CutDescription]
  {
  }

  /** Index of the first significant text at or after `from`. */
  function FirstSignificantIndex(texts: seq<string>, from: nat): (r: Option<nat>)
    requires from <= |texts|
    ensures r.Some? ==> from <= r.value < |texts| && Significant(texts[r.value])
    ensures r.Some? ==> forall j :: from <= j < r.value ==> !Significant(texts[j])
    ensures r.None? ==> forall j :: from <= j < |texts| ==> !Significant(texts[j])
    decreases |texts| - from
  {
    if from == |texts| then None
    else if Significant(texts[from]) then Some(from)
    else FirstSignificantIndex(texts, from + 1)
  }

  /** The cleaned text of every paragraph of a rendered page, in order. */
  function ParagraphTexts(html: string): (texts: seq<string>)
    ensures |texts| == |Paragraphs(html)|
  {
    var ps := Paragraphs(html);
    seq(|ps|, i requires 0 <= i < |ps| => ParagraphText(ps[i]))
  }

  /** The description chosen from a page's paragraph texts: empty exactly
      when none is significant, otherwise the first significant text, cut. */
  function Describe(ts: seq<string>): (r: string)
    ensures |r| == 0 <==> forall i :: 0 <= i < |ts| ==> !Significant(ts[i])
    ensures forall i :: 0 <= i < |ts| && Significant(ts[i]) && (forall j :: 0 <= j < i ==> !Significant(ts[j])) ==>
      r == Shorten(ts[i])
    ensures |r| <= MaxDescription
    ensures |r| > 0 ==> |r| >= MinDescription
  {
    match FirstSignificantIndex(ts, 0)
    case None => []
    case Some(i) =>
      assert forall k :: 0 <= k < |ts| && Significant(ts[k]) && (forall j :: 0 <= j < k ==> !Significant(ts[j])) ==> k == i;
      ShortenBounds(ts[i]);
      Shorten(ts[i])
  }

  /** `extract_first_paragraph`: the meta description of a rendered page. It is
      empty exactly when no paragraph has 30 significant characters; otherwise
      it is the first such paragraph, cut to at most 160 characters. */
  function ExtractFirstParagraph(html: string): (r: string)
    ensures var ts := ParagraphTexts(html);
      |r| == 0 <==> forall i :: 0 <= i < |ts| ==> !Significant(ts[i])
    ensures var ts := ParagraphTexts(html);
      forall i :: 0 <= i < |ts| && Significant(ts[i]) && (forall j :: 0 <= j < i ==> !Significant(ts[j])) ==>
        r == Shorten(ts[i])
    ensures |r| <= MaxDescription
    ensures |r| > 0 ==> |r| >= MinDescription
  {
    Describe(ParagraphTexts(html))
  }

  // ------------------------------------------------------------------ title

  /** `<h[1-6]` at `p` (the `h` in either case). */
  predicate HeadingOpenAt(s: string, p: nat) {
    p + 3 <= |s| && s[p] == '<' && (s[p + 1] == 'h' || s[p + 1] == 'H') && '1' <= s[p + 2] <= '6'
  }

  /** `</h[1-6]>` at `k` (the `h` in either case). */
  predicate HeadingCloseAt(s: string, k: nat) {
    && k + 5 <= |s| && s[k] == '<' && s[k + 1] == '/' && (s[k + 2] == 'h' || s[k + 2] == 'H')
    && '1' <= s[k + 3] <= '6' && s[k + 4] == '>'
  }

  function FindHeadingClose(s: string, from: nat): (r: Option<nat>)
    ensures r.Some? ==> from <= r.value && HeadingCloseAt(s, r.value)
    ensures r.Some? ==> forall j :: from <= j < r.value ==> !HeadingCloseAt(s, j)
    ensures r.None? ==> forall j :: from <= j ==> !HeadingCloseAt(s, j)
    decreases |s| - from
  {
    if from + 5 > |s| then None
    else if HeadingCloseAt(s, from) then Some(from)
    else FindHeadingClose(s, from + 1)
  }

  /** End of the rendered-heading alternative `<h[1-6].*?>.*?</h[1-6]>`
      (DOTALL) matched at `p`: the element runs from the opening tag to the
      first closing heading tag after the opening tag's first `>`. */
  function HtmlHeadingEnd(s: string, p: nat): (r: Option<nat>)
    ensures r.Some? ==> p < r.value <= |s|
  {
    if !HeadingOpenAt(s, p) then None
    else match FindChar(s, '>', p + 3)
      case None => None
      case Some(g) =>
        match FindHeadingClose(s, g + 1)
        case None => None
        case Some(k) => Some(k + 5)
  }

  /** End of the raw-heading alternative `^#+(\s+(.*?))$` (MULTILINE, DOTALL)
      matched at `p`: a line starting with hashes that are followed by
      whitespace. The greedy whitespace may cross blank lines; the match then
      ends at the next line break or at the end of the text. */
  function MarkdownHeadingEnd(s: string, p: nat): (r: Option<nat>)
    ensures r.Some? ==> p < r.value <= |s|
  {
    if p < |s| && (p == 0 || s[p - 1] == '\n') && s[p] == '#' then
      var q := RunEnd(s, p, '#');
      if q < |s| && IsSpace(s[q]) then Some(LineEnd(s, SpaceRunEnd(s, q))) else None
    else None
  }

  /** End of a title match at `p`; the rendered alternative is tried first. */
  function HeadingEnd(s: string, p: nat): (r: Option<nat>)
    ensures r.Some? ==> p < r.value <= |s|
  {
    if HtmlHeadingEnd(s, p).Some? then HtmlHeadingEnd(s, p) else MarkdownHeadingEnd(s, p)
  }

  /** `re.search`: the leftmost position at or after `p` where a title matches. */
  function FirstHeading(s: string, p: nat): (r: Option<(nat, nat)>)
    ensures r.Some? ==> p <= r.value.0 && HeadingEnd(s, r.value.0) == Some(r.value.1)
    ensures r.Some? ==> forall q :: p <= q < r.value.0 ==> HeadingEnd(s, q).None?
    ensures r.None? ==> forall q :: p <= q ==> HeadingEnd(s, q).None?
    decreases |s| - p
  {
    if p >= |s| then None
    else if HeadingEnd(s, p).Some? then Some((p, HeadingEnd(s, p).value))
    else FirstHeading(s, p + 1)
  }

  /** `re.sub(r'<[^>]+>', '', t)`: removes every `<…>` with at least one
      character inside (newlines included); `<>` and an unclosed `<` stay. */
  function StripAngleTags(s: string): (r: string)
    ensures '<' !in s ==> r == s
    decreases |s|
  {
    if |s| == 0 then []
    else if s[0] == '<' && FindChar(s, '>', 1).Some? && FindChar(s, '>', 1).value >= 2 then
      StripAngleTags(s[FindChar(s, '>', 1).value + 1..])
    else [s[0]] + StripAngleTags(s[1..])
  }

  /** `re.sub(r'#+ +', '', t)`: removes every run of hashes that is followed
      by spaces, together with those spaces. */
  function RemoveHashRuns(s: string): (r: string)
    ensures '#' !in s ==> r == s
    decreases |s|
  {
    if |s| == 0 then []
    else if s[0] == '#' && RunEnd(s, 0, '#') < |s| && s[RunEnd(s, 0, '#')] == ' ' then
      RemoveHashRuns(s[RunEnd(s, RunEnd(s, 0, '#'), ' ')..])
    else [s[0]] + RemoveHashRuns(s[1..])
  }

  /** The title text of a heading match: markup removed, trimmed, hash
      markers removed. */
  function CleanTitle(m: string): string {
    RemoveHashRuns(Strip(StripAngleTags(m)))
  }

  /** Plain title text is its own clean title. */
  lemma CleanTitleOfPlain(t: string)
    requires PlainTitle(t)
    ensures CleanTitle(t) == t
  {
    StripUnpadded(t);
  }

  /** `get_first_title`: the cleaned text of the leftmost heading, rendered
      (`<hN>…</hN>`) or raw (`# …`), or "" when the text has none. */
  function GetFirstTitle(text: string): (r: string)
    ensures (forall q :: HeadingEnd(text, q).None?) ==> |r| == 0
    ensures forall a: nat, b: nat :: HeadingEnd(text, a) == Some(b) && (forall q :: 0 <= q < a ==> HeadingEnd(text, q).None?) ==>
      r == CleanTitle(text[a..b])
  {
    match FirstHeading(text, 0)
    case None => []
    case Some((a, b)) =>
      assert forall a': nat :: HeadingEnd(text, a').Some? && (forall q :: 0 <= q < a' ==> HeadingEnd(text, q).None?) ==> a' == a;
      CleanTitle(text[a..b])
  }

  /** Text without `<` passes through tag removal untouched, whatever follows it. */
  lemma {:induction false} StripAngleTagsKeepsPlain(t: string, x: string)
    requires '<' !in t
    ensures StripAngleTags(t + x) == t + StripAngleTags(x)
    decreases |t|
  {
    if |t| == 0 {
      assert t + x == x;
    } else {
      var u := t + x;
      assert u[0] == t[0] && u[1..] == t[1..] + x;
      StripAngleTagsCons(u);
      StripAngleTagsKeepsPlain(t[1..], x);
      var tail := StripAngleTags(x);
      assert StripAngleTags(u) == [t[0]] + (t[1..] + tail);
      ConsAppend(t, tail);
    }
  }

  /** A first character other than `<` is kept. */
  lemma StripAngleTagsCons(u: string)
    requires |u| > 0 && u[0] != '<'
    ensures StripAngleTags(u) == [u[0]] + StripAngleTags(u[1..])
  {
  }

  /** Plain title text: no markup, hash, line break or surrounding space. */
  predicate PlainTitle(t: string) {
    |t| > 0 && Unpadded(t)
    && forall i :: 0 <= i < |t| ==> t[i] != '<' && t[i] != '>' && t[i] != '#' && t[i] != '\n'
  }

  /** A heading that spans the whole text gives the whole text's clean title. */
  lemma TitleOfWholeMatch(s: string)
    requires HeadingEnd(s, 0) == Some(|s|)
    ensures GetFirstTitle(s) == CleanTitle(s)
  {
    assert s[0..|s|] == s;
  }

  lemma RawHeadingMatches(t: string)
    requires PlainTitle(t)
    ensures HeadingEnd("# " + t, 0) == Some(|t| + 2)
  {
    var raw := "# " + t;
    assert RunEnd(raw, 1, '#') == 1;
    assert SpaceRunEnd(raw, 2) == 2;
    assert forall j :: 2 <= j < |raw| ==> raw[j] == t[j - 2];
    assert LineEnd(raw, 2) == |raw|;
  }

  lemma RawHeadingCleans(t: string)
    requires PlainTitle(t)
    ensures CleanTitle("# " + t) == t
  {
    RawHeadingUnmarked(t);
    HashMarkerRemoved(t);
  }

  /** A raw heading has no tags and no surrounding space. */
  lemma RawHeadingUnmarked(t: string)
    requires PlainTitle(t)
    ensures StripAngleTags("# " + t) == "# " + t
    ensures Strip("# " + t) == "# " + t
  {
    var raw := "# " + t;
    assert '<' !in raw;
    assert Unpadded(raw) by {
      assert raw[|raw| - 1] == t[|t| - 1];
    }
    StripUnpadded(raw);
  }

  /** The `# ` marker of a raw heading is removed with its space. */
  lemma HashMarkerRemoved(t: string)
    requires |t| > 0 && t[0] != ' ' && '#' !in t
    ensures RemoveHashRuns("# " + t) == t
  {
    var raw := "# " + t;
    assert raw[1] == ' ' && raw[2] == t[0];
    assert RunEnd(raw, 1, '#') == 1;
    assert RunEnd(raw, 0, '#') == 1;
    assert RunEnd(raw, 2, ' ') == 2;
    assert RunEnd(raw, 1, ' ') == 2;
    assert raw[2..] == t;
  }

  /** `<hN>` */
  function OpenTag(level: char): string {
    "<h" + [level] + ">"
  }

  /** `</hN>` */
  function CloseTag(level: char): string {
    "</h" + [level] + ">"
  }

  /** The rendered form `<hN>T</hN>` of a heading. */
  function RenderedHeading(level: char, t: string): string {
    OpenTag(level) + (t + CloseTag(level))
  }

  lemma RenderedHeadingMatches(t: string, level: char)
    requires '1' <= level <= '6'
    requires PlainTitle(t)
    ensures HeadingEnd(RenderedHeading(level, t), 0) == Some(|t| + 9)
  {
    var html := RenderedHeading(level, t);
    assert HeadingOpenAt(html, 0);
    assert FindChar(html, '>', 3) == Some(3);
    forall j | 4 <= j < 4 + |t|
      ensures !HeadingCloseAt(html, j)
    {
      assert html[j] == t[j - 4];
    }
    assert HeadingCloseAt(html, 4 + |t|);
    assert FindHeadingClose(html, 4) == Some(4 + |t|);
  }

  lemma ClosingTagVanishes(level: char)
    requires '1' <= level <= '6'
    ensures StripAngleTags(CloseTag(level)) == []
  {
    var close := CloseTag(level);
    assert FindChar(close, '>', 4) == Some(4);
    assert FindChar(close, '>', 3) == Some(4);
    assert FindChar(close, '>', 2) == Some(4);
    assert FindChar(close, '>', 1) == Some(4);
    assert close[5..] == [];
  }

  lemma OpeningTagVanishes(level: char, rest: string)
    requires '1' <= level <= '6'
    ensures StripAngleTags(OpenTag(level) + rest) == StripAngleTags(rest)
  {
    var html := OpenTag(level) + rest;
    assert FindChar(html, '>', 3) == Some(3);
    assert FindChar(html, '>', 2) == Some(3);
    assert FindChar(html, '>', 1) == Some(3);
    assert html[4..] == rest;
  }

  lemma RenderedHeadingCleans(t: string, level: char)
    requires '1' <= level <= '6'
    requires PlainTitle(t)
    ensures CleanTitle(RenderedHeading(level, t)) == t
  {
    OpeningTagVanishes(level, t + CloseTag(level));
    assert '<' !in t && '#' !in t;
    StripAngleTagsKeepsPlain(t, CloseTag(level));
    ClosingTagVanishes(level);
    assert t + [] == t;
    StripUnpadded(t);
  }

  /** The title is the same whether the heading is raw Markdown (`# T`) or
      already rendered (`<hN>T</hN>`). */
  lemma TitleRawOrRendered(t: string, level: char)
    requires '1' <= level <= '6'
    requires PlainTitle(t)
    ensures GetFirstTitle("# " + t) == t
    ensures GetFirstTitle(RenderedHeading(level, t)) == t
  {
    RawTitle(t);
    RenderedTitle(t, level);
  }

  lemma RawTitle(t: string)
    requires PlainTitle(t)
    ensures GetFirstTitle("# " + t) == t
  {
    RawHeadingMatches(t);
    TitleOfWholeMatch("# " + t);
    RawHeadingCleans(t);
  }

  lemma RenderedTitle(t: string, level: char)
    requires '1' <= level <= '6'
    requires PlainTitle(t)
    ensures GetFirstTitle(RenderedHeading(level, t)) == t
  {
    RenderedHeadingMatches(t, level);
    TitleOfWholeMatch(RenderedHeading(level, t));
    RenderedHeadingCleans(t, level);
  }

  // ----------------------------------------------------------- social image

  const OverrideMarker: string := "! override_meta_img"
  const DefaultImage: string := "/static/img/default_img.png"

  /** The url of an image reference `!\[[^\]]*\]\((.*?)\)` starting at `i`:
      the alt text runs to the first `]`, which must be followed by `(`; the
      url runs to the first `)` on the same line. */
  function ImageAt(s: string, i: nat): Option<string> {
    if i + 2 <= |s| && s[i] == '!' && s[i + 1] == '[' then
      match FindChar(s, ']', i + 2)
      case None => None
      case Some(j) =>
        if j + 1 < |s| && s[j + 1] == '(' then
          match FindOnLine(s, ')', j + 2)
          case None => None
          case Some(k) => Some(s[j + 2..k])
        else None
    else None
  }

  /** `re.search` for an image reference: the url of the leftmost one at or after `from`. */
  function FirstImage(s: string, from: nat): (r: Option<string>)
    ensures r.Some? ==> exists i :: from <= i && ImageAt(s, i) == r && forall q :: from <= q < i ==> ImageAt(s, q).None?
    ensures r.None? ==> forall q :: from <= q ==> ImageAt(s, q).None?
    decreases |s| - from
  {
    if from >= |s| then None
    else if ImageAt(s, from).Some? then ImageAt(s, from)
    else FirstImage(s, from + 1)
  }

  /** The image the page advertises (`get_image_meta_tags_html`'s decision):
      the first image reference when the page also carries the override
      marker (an `http…` url verbatim, any other joined under the url root and
      the page's directory); else the default image when it exists; else none. */
  function ImageUrl(markdown: string, relDir: string, urlroot: string, defaultExists: bool): (r: Option<string>)
    ensures var img := FirstImage(markdown, 0);
      img.Some? && Contains(markdown, OverrideMarker) ==>
        r.Some? && EndsWith(r.value, img.value)
        && (StartsWith(img.value, "http") ==> r.value == img.value)
        && (!StartsWith(img.value, "http") ==> r.value == Paths.PathJoin(Paths.PathJoin(urlroot, relDir), img.value))
    ensures var img := FirstImage(markdown, 0);
      !(img.Some? && Contains(markdown, OverrideMarker)) ==>
        (r.Some? <==> defaultExists) && (defaultExists ==> r.value == urlroot + DefaultImage)
  {
    var img := FirstImage(markdown, 0);
    if img.Some? && Contains(markdown, OverrideMarker) then
      if !StartsWith(img.value, "http") then Some(Paths.PathJoin(Paths.PathJoin(urlroot, relDir), img.value))
      else img
    else if defaultExists then Some(urlroot + DefaultImage)
    else None
  }

  /** The meta-tag block for an image and a title. */
  function MetaBlock(url: string, title: string): string {
    "\n    <meta property=\"og:image\" content=\"" + url + "\">"
    + "\n    <meta name=\"twitter:image\" content=\"" + url + "\">"
    + "\n    <meta name=\"twitter:title\" content=\"" + title + "\">"
    + "\n    "
  }

  /** `get_image_meta_tags_html`: empty exactly when no image is chosen,
      otherwise the block naming the image twice and the title once. */
  function ImageMetaTags(markdown: string, relDir: string, title: string, urlroot: string, defaultExists: bool): (r: string)
    ensures |r| == 0 <==> ImageUrl(markdown, relDir, urlroot, defaultExists).None?
    ensures ImageUrl(markdown, relDir, urlroot, defaultExists).Some? ==>
      r == MetaBlock(ImageUrl(markdown, relDir, urlroot, defaultExists).value, title)
  {
    match ImageUrl(markdown, relDir, urlroot, defaultExists)
    case None => []
    case Some(url) => MetaBlock(url, title)
  }
}
