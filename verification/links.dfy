/**
 * The two rewrites applied to a preview excerpt before it is converted:
 * relative Markdown links are re-rooted at the post's directory, and
 * one-line HTML anchors are replaced by their text.
 */
module Links {
  import opened Wrappers
  import opened Str

  /** Index of the first `](.` at or after `j` with no line break before it. */
  function FindLinkClose(s: string, j: nat): (r: Option<nat>)
    ensures r.Some? ==> j <= r.value && OccursAt(s, "](.", r.value)
    ensures r.Some? ==> forall k :: j <= k < r.value ==> s[k] != '\n' && !OccursAt(s, "](.", k)
    ensures r.None? ==> forall k :: j <= k && OccursAt(s, "](.", k) ==> exists m :: j <= m < k && s[m] == '\n'
    decreases |s| - j
  {
    if j >= |s| || s[j] == '\n' then None
    else if j + 3 <= |s| && s[j..j + 3] == "](." then Some(j)
    else FindLinkClose(s, j + 1)
  }

  /** `(\[.*?\]\()\.` at the start of `s`: the index of the `]` of the link
      whose target starts with a dot. */
  function RelativeLinkAt(s: string): Option<nat> {
    if |s| > 0 && s[0] == '[' then FindLinkClose(s, 1) else None
  }

  /** Rewrites every Markdown link whose target starts with '.' so that it
      resolves from the listing page: `[text](.` becomes
      `[text]( <prefix>/.`, with the space `markdownTags.py` inserts. */
  function RewriteLinks(s: string, prefix: string): (r: string)
    ensures |r| >= |s|
    decreases |s|
  {
    if |s| == 0 then []
    else match RelativeLinkAt(s)
      case Some(k) => s[..k + 2] + " " + prefix + "/." + RewriteLinks(s[k + 3..], prefix)
      case None => [s[0]] + RewriteLinks(s[1..], prefix)
  }

  /** The link close is found past any text without `]` or line break. */
  lemma {:induction false} FindLinkCloseSkips(s: string, j: nat, e: nat)
    requires j <= e && e + 3 <= |s| && s[e..e + 3] == "](."
    requires forall k :: j <= k < e ==> s[k] != ']' && s[k] != '\n'
    ensures FindLinkClose(s, j) == Some(e)
    decreases e - j
  {
    if j < e {
      assert s[j] != ']' && s[j] != '\n';
      assert s[j..j + 3] != "](.";
      FindLinkCloseSkips(s, j + 1, e);
    }
  }

  /** A relative link `[text](.` (text on one line, without `]`) becomes
      `[text]( <prefix>/.`, and rewriting carries on after it. */
  lemma RewriteRelativeLink(text: string, rest: string, prefix: string)
    requires forall k :: 0 <= k < |text| ==> text[k] != ']' && text[k] != '\n'
    ensures RewriteLinks("[" + text + "](." + rest, prefix)
      == "[" + text + "]( " + prefix + "/." + RewriteLinks(rest, prefix)
  {
    var s := "[" + text + "](." + rest;
    var e := |text| + 1;
    assert s[e..e + 3] == "](.";
    forall k | 1 <= k < e
      ensures s[k] != ']' && s[k] != '\n'
    {
      assert s[k] == text[k - 1];
    }
    FindLinkCloseSkips(s, 1, e);
    assert s[..e + 2] + " " == "[" + text + "]( ";
    assert s[e + 3..] == rest;
  }

  /** Text with no `](.` is left exactly as it is. */
  lemma {:induction false} RewriteLinksNoRelative(s: string, prefix: string)
    requires forall k :: !OccursAt(s, "](.", k)
    ensures RewriteLinks(s, prefix) == s
    decreases |s|
  {
    if |s| > 0 {
      forall k: nat | k + 3 <= |s[1..]|
        ensures !OccursAt(s[1..], "](.", k)
      {
        assert s[1..][k..k + 3] == s[k + 1..k + 4];
        assert !OccursAt(s, "](.", k + 1);
      }
      RewriteLinksNoRelative(s[1..], prefix);
      assert s == [s[0]] + s[1..];
    }
  }

  // ------------------------------------------------------------- anchors

  /** `\w` for the ASCII range: letters, digits and '_'. */
  predicate IsWordChar(c: char) {
    ('a' <= c <= 'z') || ('A' <= c <= 'Z') || ('0' <= c <= '9') || c == '_'
  }

  /** `</a>` starts at `j`. */
  predicate CloseTagAt(s: string, j: nat) {
    j + 4 <= |s| && s[j] == '<' && s[j + 1] == '/' && s[j + 2] == 'a' && s[j + 3] == '>'
  }

  lemma CloseTagAtOf(s: string, j: nat)
    requires j + 4 <= |s| && s[j..j + 4] == "</a>"
    ensures CloseTagAt(s, j)
  {
    assert s[j] == s[j..j + 4][0] && s[j + 1] == s[j..j + 4][1];
    assert s[j + 2] == s[j..j + 4][2] && s[j + 3] == s[j..j + 4][3];
  }

  /** Index of the first `</a>` at or after `j` with no line break before it. */
  function FindAnchorClose(s: string, j: nat): (r: Option<nat>)
    ensures r.Some? ==> j <= r.value && CloseTagAt(s, r.value)
    ensures r.Some? ==> forall k :: j <= k < r.value ==> s[k] != '\n' && !CloseTagAt(s, k)
    ensures r.None? ==> forall k :: j <= k && CloseTagAt(s, k) ==> exists m :: j <= m < k && s[m] == '\n'
    decreases |s| - j
  {
    if j >= |s| || s[j] == '\n' then None
    else if CloseTagAt(s, j) then Some(j)
    else FindAnchorClose(s, j + 1)
  }

  /** Where an anchor element sits: the `>` ending its opening tag and the
      start of its `</a>`. */
  datatype Anchor = Anchor(open: nat, close: nat)

  /** `<a\b[^>]*>(.*?)</a>` at the start of `s`: the index of the `>` ending
      the opening tag and the index of the closing `</a>`. */
  function AnchorAt(s: string): (r: Option<Anchor>)
    ensures r.Some? ==> 2 <= r.value.open < r.value.close && r.value.close + 4 <= |s|
    ensures r.Some? ==> s[0] == '<' && s[1] == 'a' && !IsWordChar(s[2])
    ensures r.Some? ==> s[r.value.open] == '>' && forall k :: 2 <= k < r.value.open ==> s[k] != '>'
    ensures r.Some? ==> CloseTagAt(s, r.value.close)
    ensures r.Some? ==> forall k :: r.value.open < k < r.value.close ==> s[k] != '\n' && !CloseTagAt(s, k)
    ensures r.None? && |s| >= 3 && s[0] == '<' && s[1] == 'a' && !IsWordChar(s[2]) ==>
      forall g :: 2 <= g < |s| && s[g] == '>' && (forall k :: 2 <= k < g ==> s[k] != '>') ==>
        forall k :: g < k && CloseTagAt(s, k) ==> exists m :: g < m < k && s[m] == '\n'
  {
    if |s| >= 3 && s[0] == '<' && s[1] == 'a' && !IsWordChar(s[2]) then
      match FindChar(s, '>', 2)
      case None => None
      case Some(g) =>
        match FindAnchorClose(s, g + 1)
        case None => None
        case Some(k) => Some(Anchor(g, k))
    else None
  }

  /** Replaces every one-line anchor element by its inner text. */
  function StripAnchors(s: string): (r: string)
    ensures |r| <= |s|
    decreases |s|
  {
    if |s| == 0 then []
    else if AnchorAt(s).Some? then
      var a := AnchorAt(s).value;
      s[a.open + 1..a.close] + StripAnchors(s[a.close + 4..])
    else [s[0]] + StripAnchors(s[1..])
  }

  /** Text without `<` holds no anchor and is left as it is. */
  lemma {:induction false} StripAnchorsKeepsPlain(s: string)
    requires '<' !in s
    ensures StripAnchors(s) == s
    decreases |s|
  {
    if |s| > 0 {
      assert s[0] != '<';
      assert AnchorAt(s).None?;
      StripAnchorsKeepsPlain(s[1..]);
      assert s == [s[0]] + s[1..];
    }
  }

  lemma {:induction false} FindAnchorCloseSkips(s: string, j: nat, e: nat)
    requires j <= e && CloseTagAt(s, e)
    requires forall k :: j <= k < e ==> s[k] != '<' && s[k] != '\n'
    ensures FindAnchorClose(s, j) == Some(e)
    decreases e - j
  {
    if j < e {
      FindAnchorCloseSkips(s, j + 1, e);
    }
  }

  /** An anchor `<a attrs>x</a>` (attributes without '>', text on one line
      without '<') is replaced by `x`, and stripping carries on after it. */
  lemma StripOneAnchor(attrs: string, x: string, rest: string)
    requires |attrs| == 0 || !IsWordChar(attrs[0])
    requires forall k :: 0 <= k < |attrs| ==> attrs[k] != '>'
    requires forall k :: 0 <= k < |x| ==> x[k] != '<' && x[k] != '\n'
    ensures StripAnchors("<a" + attrs + ">" + x + "</a>" + rest) == x + StripAnchors(rest)
  {
    var s := "<a" + attrs + ">" + x + "</a>" + rest;
    var g := |attrs| + 2;
    var e := g + 1 + |x|;
    AnchorPieces(attrs, x, rest);
    forall k | 2 <= k < g
      ensures s[k] != '>'
    {
      assert s[k] == s[2..g][k - 2];
    }
    forall k | g + 1 <= k < e
      ensures s[k] != '<' && s[k] != '\n'
    {
      assert s[k] == s[g + 1..e][k - g - 1];
    }
    if g > 2 {
      assert s[2] == s[2..g][0];
    }
    AnchorAtPieces(s, g, e);
  }

  /** Where the pieces of an anchor sit in its text. */
  lemma AnchorPieces(attrs: string, x: string, rest: string)
    ensures var s := "<a" + attrs + ">" + x + "</a>" + rest;
      var g := |attrs| + 2;
      var e := g + 1 + |x|;
      |s| == e + 4 + |rest| && s[0] == '<' && s[1] == 'a' && s[2..g] == attrs && s[g] == '>'
      && s[g + 1..e] == x && s[e..e + 4] == "</a>" && s[e + 4..] == rest
  {
  }

  /** `AnchorAt` and `StripAnchors` on a text laid out as an anchor. */
  lemma AnchorAtPieces(s: string, g: nat, e: nat)
    requires 2 <= g < e && e + 4 <= |s| && s[0] == '<' && s[1] == 'a' && s[g] == '>' && s[e..e + 4] == "</a>"
    requires g == 2 || !IsWordChar(s[2])
    requires forall k :: 2 <= k < g ==> s[k] != '>'
    requires forall k :: g + 1 <= k < e ==> s[k] != '<' && s[k] != '\n'
    ensures StripAnchors(s) == s[g + 1..e] + StripAnchors(s[e + 4..])
  {
    AnchorAtOf(s, g, e);
    StripAnchorsAt(s, g, e);
  }

  /** An anchor found at the start is replaced by its text. */
  lemma StripAnchorsAt(s: string, g: nat, e: nat)
    requires AnchorAt(s) == Some(Anchor(g, e))
    ensures StripAnchors(s) == s[g + 1..e] + StripAnchors(s[e + 4..])
  {
  }

  lemma AnchorAtOf(s: string, g: nat, e: nat)
    requires 2 <= g < e && e + 4 <= |s| && s[0] == '<' && s[1] == 'a' && s[g] == '>' && s[e..e + 4] == "</a>"
    requires g == 2 || !IsWordChar(s[2])
    requires forall k :: 2 <= k < g ==> s[k] != '>'
    requires forall k :: g + 1 <= k < e ==> s[k] != '<' && s[k] != '\n'
    ensures AnchorAt(s) == Some(Anchor(g, e))
  {
    FindCharSkips(s, '>', 2, g);
    CloseTagAtOf(s, e);
    FindAnchorCloseSkips(s, g + 1, e);
  }

  /** The anchor closes at its first `</a>`: in `<a>x</a></a>` the element is
      `<a>x</a>`, and the second `</a>` is left to the text after it. */
  lemma AnchorClosesFirst()
    ensures AnchorAt("<a>x</a></a>") == Some(Anchor(2, 4))
    ensures StripAnchors("<a>x</a></a>") == "x" + StripAnchors("</a>")
  {
    var s := "<a>x</a></a>";
    assert s[4..8] == "</a>";
    AnchorAtOf(s, 2, 4);
    StripAnchorsAt(s, 2, 4);
    assert s[3..4] == "x" && s[8..] == "</a>";
  }

  lemma {:induction false} FindCharSkips(s: string, c: char, j: nat, e: nat)
    requires j <= e < |s| && s[e] == c
    requires forall k :: j <= k < e ==> s[k] != c
    ensures FindChar(s, c, j) == Some(e)
    decreases e - j
  {
    if j < e {
      FindCharSkips(s, c, j + 1, e);
    }
  }

}
