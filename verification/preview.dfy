/**
 * The preview directive `% dir[:detailed]` (PreviewBlockProcessor): parse
 * the block, collect one excerpt per Markdown post under the target
 * directory, reverse the walk order, and render a detailed or a compact,
 * year-grouped listing.
 *
 * The directory walk is a function from a directory path to the files met
 * by `os.walk` (None when the path is not an existing directory), each file
 * already in walk order with the files of one directory sorted. The Markdown
 * converter used for excerpts is an opaque function.
 */
module Preview {
  import opened Wrappers
  import opened Str
  import opened Tree
  import Paths
  import Helpers
  import opened Links

  const DefaultPreviewLimit: nat := 4
  const DetailedFlag: string := ":detailed"
  const BlockSep: string := "\n\n"
  const ReadMore: string := "(Read more)"

  /** A file met by the walk: its directory relative to the preview directory
      ("." when directly inside), its name and its text. */
  datatype PostFile = PostFile(relpath: string, name: string, content: string)

  /** The three parallel sequences and the mode `get_preview_content` returns. */
  datatype Listing = Listing(contents: seq<string>, dates: seq<string>, hrefs: seq<string>, detailed: bool)

  predicate Parallel(l: Listing) {
    |l.contents| == |l.dates| == |l.hrefs|
  }

  // ------------------------------------------------------------- directive

  /** `test`: `^%\s*([^>]+)$` matches a block that starts with '%' and whose
      remainder is non-empty and free of '>' (`[^>]` also crosses newlines). */
  predicate IsDirective(block: string) {
    |block| >= 2 && block[0] == '%' && '>' !in block[1..]
  }

  /** The regex capture: the remainder after the greedy whitespace run, or the
      run's last character when the remainder is all whitespace. */
  function DirectiveCapture(block: string): (c: string)
    requires IsDirective(block)
    ensures |c| > 0 && EndsWith(block, c)
  {
    var k := SpaceRunEnd(block, 1);
    if k < |block| then block[k..] else block[k - 1..]
  }

  /** `run`'s directive target: the capture, stripped. Whatever whitespace the
      regex leaves in the capture, it is the stripped text after the '%'. */
  function DirectiveTarget(block: string): (target: string)
    requires IsDirective(block)
    ensures target == Strip(block[1..])
  {
    var k := SpaceRunEnd(block, 1);
    var c := DirectiveCapture(block);
    if k < |block| then
      assert block[1..] == block[1..k] + c;
      StripAfterSpace(block[1..k], c);
      Strip(c)
    else
      assert block[1..] == block[1..k - 1] + c;
      StripAfterSpace(block[1..k - 1], c);
      Strip(c)
  }

  /** The directory named by the target: `:detailed` occurrences removed with
      `str.replace`. */
  function TargetDirectory(directory: string): (target: string)
    ensures !Contains(directory, DetailedFlag) ==> target == directory
    ensures target == Join(Split(directory, DetailedFlag), [])
  {
    ReplaceIsJoinSplit(directory, DetailedFlag, []);
    if Contains(directory, DetailedFlag) then Replace(directory, DetailedFlag, [])
    else
      ReplaceAbsent(directory, DetailedFlag, []);
      directory
  }

  /** `directory_path`: the target joined under the base path when there is one. */
  function DirectoryPath(basePath: string, target: string): (path: string)
    ensures |basePath| == 0 ==> path == target
    ensures EndsWith(path, target)
  {
    if |basePath| > 0 then Paths.PathJoin(basePath, target) else target
  }

  // ----------------------------------------------------------------- href

  /** The file filter of the walk: the lower-cased name ends in `.md`. */
  predicate IsMarkdown(name: string) {
    EndsWith(Lower(name), ".md")
  }

  /** The link target of a post, as `markdownTags.py` builds it: target, relative
      directory and hyphenated stem, then `.html` when the extension is
      exactly `.md` and the original extension otherwise. */
  function HrefAsWritten(target: string, relpath: string, name: string): (href: string)
    ensures StartsWith(href, target + "/" + relpath + "/")
  {
    var parts := Paths.SplitExt(name);
    var prefix := target + "/" + relpath + "/";
    var href := prefix + Paths.Hyphenate(parts.0) + (if parts.1 == ".md" then ".html" else parts.1);
    assert href[..|prefix|] == prefix;
    href
  }

  /** The link target of a post with the extension test made case-insensitive,
      matching the case-insensitive filter that admits the post and the page
      that is written for it. */
  function Href(target: string, relpath: string, name: string): (href: string)
    ensures StartsWith(href, target + "/" + relpath + "/")
  {
    var parts := Paths.SplitExt(name);
    var prefix := target + "/" + relpath + "/";
    var href := prefix + Paths.Hyphenate(parts.0) + (if Lower(parts.1) == ".md" then ".html" else parts.1);
    assert href[..|prefix|] == prefix;
    href
  }

  /** A post named `stem.md` links to `target/relpath/stem'.html`, where
      `stem'` is the stem with `', '` and `' '` turned into `'-'`; a post
      with another extension keeps it. */
  lemma HrefOfPost(target: string, relpath: string, stem: string, ext: string)
    requires '/' !in stem && exists k :: 0 <= k < |stem| && stem[k] != '.'
    requires |ext| >= 1 && ext[0] == '.' && '/' !in ext && '.' !in ext[1..]
    ensures Lower(ext) == ".md" ==>
      Href(target, relpath, stem + ext) == target + "/" + relpath + "/" + Paths.Hyphenate(stem) + ".html"
    ensures Lower(ext) != ".md" ==>
      Href(target, relpath, stem + ext) == target + "/" + relpath + "/" + Paths.Hyphenate(stem) + ext
    ensures ext == ".md" ==>
      HrefAsWritten(target, relpath, stem + ext) == target + "/" + relpath + "/" + Paths.Hyphenate(stem) + ".html"
    ensures ext != ".md" ==>
      HrefAsWritten(target, relpath, stem + ext) == target + "/" + relpath + "/" + Paths.Hyphenate(stem) + ext
  {
    Paths.SplitExtOf([], stem, ext);
    assert [] + stem + ext == stem + ext;
  }

  // --------------------------------------------------------------- excerpt

  /** The excerpt text of a post: the stripped file text cut after its first
      `limit` blank-line-separated blocks, rejoined, plus a blank line. */
  function Excerpt(content: string, limit: nat): (e: string)
    ensures EndsWith(e, BlockSep)
  {
    Join(Take(Split(Strip(content), BlockSep), limit), BlockSep) + BlockSep
  }

  /** A post with no more blocks than the limit is kept whole. */
  lemma ExcerptKeepsShortPost(content: string, limit: nat)
    requires |Split(Strip(content), BlockSep)| <= limit
    ensures Excerpt(content, limit) == Strip(content) + BlockSep
  {
    JoinSplit(Strip(content), BlockSep);
  }

  /** The excerpt never holds more than `limit` blocks of the post's text
      (for a limit of at least one), and those are the post's first blocks. */
  lemma ExcerptBlocks(content: string, limit: nat)
    requires limit >= 1
    ensures var blocks := Split(Strip(content), BlockSep);
      var body := Join(Take(blocks, limit), BlockSep);
      Excerpt(content, limit) == body + BlockSep
      && Split(body, BlockSep) == Take(blocks, limit)
      && |Split(body, BlockSep)| <= limit
  {
    KeptBlocks(Strip(content), BlockSep, limit);
  }

  /** The pieces kept by `Take` survive a join and re-split, and there are at
      most `n` of them. */
  lemma KeptBlocks(t: string, sep: string, n: nat)
    requires |sep| > 0 && n >= 1
    ensures var body := Join(Take(Split(t, sep), n), sep);
      Split(body, sep) == Take(Split(t, sep), n) && |Split(body, sep)| <= n
  {
    SplitJoinTake(t, sep, n);
  }

  // ------------------------------------------------------------ collection

  /** The Markdown posts of a walk, in walk order. */
  function Posts(walk: seq<PostFile>): (posts: seq<PostFile>)
    ensures |posts| <= |walk|
  {
    if |walk| == 0 then []
    else
      var init := walk[..|walk| - 1];
      var last := walk[|walk| - 1];
      assert walk == init + [last];
      Posts(init) + (if IsMarkdown(last.name) then [last] else [])
  }

  /** The posts are exactly the walked files whose name ends in `.md`, in
      any letter case. */
  lemma {:induction false} PostsAreMarkdownFiles(walk: seq<PostFile>)
    ensures forall f :: f in Posts(walk) <==> f in walk && IsMarkdown(f.name)
  {
    if |walk| > 0 {
      var init := walk[..|walk| - 1];
      PostsAreMarkdownFiles(init);
      assert walk == init + [walk[|walk| - 1]];
    }
  }

  lemma PostsStep(walk: seq<PostFile>, n: nat)
    requires n < |walk|
    ensures Posts(walk[..n + 1]) == Posts(walk[..n]) + (if IsMarkdown(walk[n].name) then [walk[n]] else [])
  {
    assert walk[..n + 1][..n] == walk[..n];
  }

  /** The rendered excerpt of one post. */
  function PostExcerpt(f: PostFile, target: string, limit: nat, convert: string -> string): string {
    convert(StripAnchors(RewriteLinks(Excerpt(f.content, limit), target + "/" + f.relpath)))
  }

  /** An excerpt without relative links or markup reaches the converter as
      it is: both rewrites leave it untouched. */
  lemma PlainExcerptConvertedAsIs(f: PostFile, target: string, limit: nat, convert: string -> string)
    requires '<' !in Excerpt(f.content, limit)
    requires forall k :: !OccursAt(Excerpt(f.content, limit), "](.", k)
    ensures PostExcerpt(f, target, limit, convert) == convert(Excerpt(f.content, limit))
  {
    var e := Excerpt(f.content, limit);
    RewriteLinksNoRelative(e, target + "/" + f.relpath);
    StripAnchorsKeepsPlain(e);
  }

  /** The walk loop of `get_preview_content`: for each Markdown file, in walk
      order, its excerpt, its relative directory as date, and its href. */
  method CollectEntries(walk: seq<PostFile>, excerpt: PostFile -> string, href: PostFile -> string)
    returns (contents: seq<string>, dates: seq<string>, hrefs: seq<string>)
    ensures var posts := Posts(walk);
      |contents| == |dates| == |hrefs| == |posts|
      && (forall i :: 0 <= i < |posts| ==> contents[i] == excerpt(posts[i]))
      && (forall i :: 0 <= i < |posts| ==> dates[i] == posts[i].relpath)
      && (forall i :: 0 <= i < |posts| ==> hrefs[i] == href(posts[i]))
  {
    contents, dates, hrefs := [], [], [];
    ghost var posts: seq<PostFile> := [];
    var n := 0;
    while n < |walk|
      invariant n <= |walk| && posts == Posts(walk[..n])
      invariant |contents| == |dates| == |hrefs| == |posts|
      invariant forall i :: 0 <= i < |posts| ==> contents[i] == excerpt(posts[i])
      invariant forall i :: 0 <= i < |posts| ==> dates[i] == posts[i].relpath
      invariant forall i :: 0 <= i < |posts| ==> hrefs[i] == href(posts[i])
    {
      var file := walk[n];
      PostsStep(walk, n);
      if IsMarkdown(file.name) {
        contents := contents + [excerpt(file)];
        dates := dates + [file.relpath];
        hrefs := hrefs + [href(file)];
        posts := posts + [file];
      }
      n := n + 1;
    }
    assert walk[..n] == walk;
  }

  /** Reversal, defined element by element from the back. */
  function Reverse<T>(s: seq<T>): (r: seq<T>)
    ensures |r| == |s|
    ensures forall i :: 0 <= i < |s| ==> r[i] == s[|s| - 1 - i]
  {
    if |s| == 0 then [] else Reverse(s[1..]) + [s[0]]
  }

  /** Reversing twice restores the walk order. */
  lemma ReverseInvolution<T>(s: seq<T>)
    ensures Reverse(Reverse(s)) == s
  {
  }

  /** The files the walk yields for a directory reference. */
  function WalkOf(basePath: string, target: string, walk: string -> Option<seq<PostFile>>): seq<PostFile> {
    match walk(DirectoryPath(basePath, target))
    case None => []
    case Some(files) => files
  }

  /** The listing of a directive target, stated over the whole walk: the
      walk's posts with their excerpts, relative directories and links, each
      sequence reversed. */
  function PreviewListing(directory: string, basePath: string, walk: string -> Option<seq<PostFile>>,
                          limit: nat, convert: string -> string): (l: Listing)
    ensures Parallel(l)
  {
    if |directory| == 0 then Listing([], [], [], false)
    else
      var target := TargetDirectory(directory);
      PostsListing(Posts(WalkOf(basePath, target, walk)), ExcerptOf(target, limit, convert), HrefOf(target),
                   Contains(directory, DetailedFlag))
  }

  /** The excerpt and the href of a post under `target`, as functions of the post. */
  function ExcerptOf(target: string, limit: nat, convert: string -> string): PostFile -> string {
    f => PostExcerpt(f, target, limit, convert)
  }

  function HrefOf(target: string): PostFile -> string {
    (f: PostFile) => HrefAsWritten(target, f.relpath, f.name)
  }

  /** The listing of `posts`, most recently walked first. */
  function PostsListing(posts: seq<PostFile>, excerpt: PostFile -> string, href: PostFile -> string,
                        detailed: bool): (l: Listing)
    ensures Parallel(l)
  {
    Listing(Reverse(seq(|posts|, i requires 0 <= i < |posts| => excerpt(posts[i]))),
            Reverse(seq(|posts|, i requires 0 <= i < |posts| => posts[i].relpath)),
            Reverse(seq(|posts|, i requires 0 <= i < |posts| => href(posts[i]))),
            detailed)
  }

  /** The listing, entry by entry: entry `i` belongs to the `i`-th post
      counted from the end of the walk. */
  lemma {:induction false} PostsListingEntries(posts: seq<PostFile>, excerpt: PostFile -> string,
                                               href: PostFile -> string, detailed: bool)
    ensures var l := PostsListing(posts, excerpt, href, detailed); var n := |posts|;
      l.detailed == detailed
      && |l.contents| == n
      && (forall i :: 0 <= i < n ==> l.dates[i] == posts[n - 1 - i].relpath)
      && (forall i :: 0 <= i < n ==> l.hrefs[i] == href(posts[n - 1 - i]))
      && (forall i :: 0 <= i < n ==> l.contents[i] == excerpt(posts[n - 1 - i]))
  {
  }

  /** The listing `get_preview_content` builds, entry by entry: nothing for an
      empty target; otherwise the `:detailed` test, and for the `i`-th post
      from the end of the walk its excerpt, its directory as date, and its
      href as written. */
  lemma PreviewListingEntries(directory: string, basePath: string, walk: string -> Option<seq<PostFile>>,
                              limit: nat, convert: string -> string)
    ensures |directory| == 0 ==> PreviewListing(directory, basePath, walk, limit, convert) == Listing([], [], [], false)
    ensures |directory| > 0 ==>
      var l := PreviewListing(directory, basePath, walk, limit, convert);
      var target := TargetDirectory(directory);
      var posts := Posts(WalkOf(basePath, target, walk));
      var n := |posts|;
      l.detailed == Contains(directory, DetailedFlag)
      && |l.contents| == n
      && (forall i :: 0 <= i < n ==> l.dates[i] == posts[n - 1 - i].relpath)
      && (forall i :: 0 <= i < n ==> l.hrefs[i] == HrefAsWritten(target, posts[n - 1 - i].relpath, posts[n - 1 - i].name))
      && (forall i :: 0 <= i < n ==> l.contents[i] == PostExcerpt(posts[n - 1 - i], target, limit, convert))
  {
    if |directory| > 0 {
      var target := TargetDirectory(directory);
      var posts := Posts(WalkOf(basePath, target, walk));
      PostsListingEntries(posts, ExcerptOf(target, limit, convert), HrefOf(target), Contains(directory, DetailedFlag));
    }
  }

  /** `get_preview_content`: nothing for an empty directive target; otherwise
      the mode flag, and the posts under the target's directory, most
      recently walked first, each with its excerpt, relative directory as
      date, and href. */
  method GetPreviewContent(directory: string, basePath: string, walk: string -> Option<seq<PostFile>>,
                           limit: nat, convert: string -> string)
    returns (l: Listing)
    ensures l == PreviewListing(directory, basePath, walk, limit, convert)
  {
    if |directory| == 0 {
      return Listing([], [], [], false);
    }
    var detailed := Contains(directory, DetailedFlag);
    var target := TargetDirectory(directory);
    var excerpt, href := ExcerptOf(target, limit, convert), HrefOf(target);
    var contents, dates, hrefs := CollectEntries(WalkOf(basePath, target, walk), excerpt, href);
    ghost var posts := Posts(WalkOf(basePath, target, walk));
    assert contents == seq(|posts|, i requires 0 <= i < |posts| => excerpt(posts[i]));
    assert dates == seq(|posts|, i requires 0 <= i < |posts| => posts[i].relpath);
    assert hrefs == seq(|posts|, i requires 0 <= i < |posts| => href(posts[i]));
    l := Listing(Reverse(contents), Reverse(dates), Reverse(hrefs), detailed);
  }

  // ------------------------------------------------------------- rendering

  /** One detailed entry: a `postPreview` wrapper holding the date and a
      `previewHref` link around the excerpt and the read-more marker. */
  function DetailedEntry(content: string, date: string, href: string): (e: Element)
    ensures HasClass(e, "postPreview") && |e.children| == 2
    ensures HasClass(e.children[0], "previewDate") && e.children[0].text == date
    ensures e.children[1].tag == "a" && Attr(e.children[1], "href") == href
      && HasClass(e.children[1], "previewHref")
      && |e.children[1].children| == 1
      && e.children[1].children[0].text == content + ReadMore
  {
    var attrs := [("href", href), ("class", "previewHref")];
    AttrSecond("href", href, "class", "previewHref");
    ClassDiv("postPreview", [], [
      ClassDiv("previewDate", date, []),
      Element("a", attrs, [], [PlainDiv(content + ReadMore)])
    ])
  }

  /** Detailed mode: one wrapper per entry, in listing order. */
  function RenderDetailed(l: Listing): (out: seq<Element>)
    requires Parallel(l)
    ensures |out| == |l.contents|
    ensures forall i :: 0 <= i < |out| ==> HasClass(out[i], "postPreview") && |out[i].children| == 2
    ensures forall i :: 0 <= i < |out| ==>
      HasClass(out[i].children[0], "previewDate") && out[i].children[0].text == l.dates[i]
    ensures forall i :: 0 <= i < |out| ==>
      out[i].children[1].tag == "a" && Attr(out[i].children[1], "href") == l.hrefs[i]
      && HasClass(out[i].children[1], "previewHref")
      && |out[i].children[1].children| == 1
      && out[i].children[1].children[0].text == l.contents[i] + ReadMore
  {
    seq(|l.contents|, i requires 0 <= i < |l.contents| => DetailedEntry(l.contents[i], l.dates[i], l.hrefs[i]))
  }

  /** Reads a detailed listing back: dates, hrefs and excerpts. */
  function ReadDetailed(out: seq<Element>): Listing
    requires forall i :: 0 <= i < |out| ==> |out[i].children| == 2 && |out[i].children[1].children| == 1
  {
    Listing(
      seq(|out|, i requires 0 <= i < |out| =>
        var t := out[i].children[1].children[0].text;
        if EndsWith(t, ReadMore) then t[..|t| - |ReadMore|] else t),
      seq(|out|, i requires 0 <= i < |out| => out[i].children[0].text),
      seq(|out|, i requires 0 <= i < |out| => Attr(out[i].children[1], "href")),
      true)
  }

  /** The detailed listing loses nothing: every date, href and excerpt can be
      read back from it, in order. */
  lemma DetailedRoundTrip(l: Listing)
    requires Parallel(l) && l.detailed
    ensures ReadDetailed(RenderDetailed(l)) == l
  {
    var out := RenderDetailed(l);
    var back := ReadDetailed(out);
    forall i | 0 <= i < |l.contents|
      ensures back.contents[i] == l.contents[i]
    {
      var t := l.contents[i] + ReadMore;
      assert t[..|t| - |ReadMore|] == l.contents[i];
    }
  }

  /** `date.split('/')[0]`: the year of a relative directory, which is the
      whole date when it has no '/' and otherwise ends at its first '/'. */
  function Year(date: string): (y: string)
    ensures '/' !in y && StartsWith(date, y)
    ensures |y| == |date| || date[|y|] == '/'
  {
    FirstPieceOfSplit(date);
    Split(date, "/")[0]
  }

  lemma FirstPieceOfSplit(date: string)
    ensures var y := Split(date, "/")[0];
      '/' !in y && StartsWith(date, y) && (|y| == |date| || date[|y|] == '/')
  {
    if Find(date, "/").None? {
      NoCharWhenAbsent(date, '/', 0);
    } else {
      NoCharBeforeFind(date, '/', 0);
      var i := Find(date, "/").value;
      assert date[i] == date[i..i + 1][0];
    }
  }

  /** Entry `i` opens a new year: it is the first, or its year differs from
      the previous entry's. */
  predicate NewYear(dates: seq<string>, i: nat)
    requires i < |dates|
  {
    i == 0 || Year(dates[i]) != Year(dates[i - 1])
  }

  /** One compact entry: a `postTitle` wrapper holding, when it opens a new
      year, a `dateTab` label with the year, then a link around the title. */
  function CompactEntry(title: string, date: string, href: string, labelled: bool): (e: Element)
    ensures HasClass(e, "postTitle")
    ensures |e.children| == (if labelled then 2 else 1)
    ensures labelled ==> HasClass(e.children[0], "dateTab") && e.children[0].text == Year(date)
    ensures var a := e.children[|e.children| - 1];
      a.tag == "a" && Attr(a, "href") == href && |a.children| == 1 && a.children[0].text == title
  {
    var link := Element("a", [("href", href)], [], [PlainDiv(title)]);
    ClassDiv("postTitle", [], (if labelled then [ClassDiv("dateTab", Year(date), [])] else []) + [link])
  }

  /** The entry for listing position `i`, labelled when it opens a new
      year; `title` extracts the heading shown for an excerpt. */
  function CompactAt(l: Listing, i: nat, title: string -> string): Element
    requires Parallel(l) && i < |l.contents|
  {
    CompactEntry(title(l.contents[i]), l.dates[i], l.hrefs[i], NewYear(l.dates, i))
  }

  /** The compact listing, entry by entry. */
  function CompactListing(l: Listing, title: string -> string): (out: seq<Element>)
    requires Parallel(l)
    ensures |out| == |l.contents| && forall i :: 0 <= i < |out| ==> out[i] == CompactAt(l, i, title)
  {
    seq(|l.contents|, i requires 0 <= i < |l.contents| => CompactAt(l, i, title))
  }

  /** Compact mode as `markdownTags.py` runs it: the previous entry's year (none
      at first) decides whether a label is emitted. */
  method RenderCompact(l: Listing, title: string -> string) returns (out: seq<Element>)
    requires Parallel(l)
    ensures out == CompactListing(l, title)
  {
    out := [];
    var prevYear: Option<string> := None;
    var i := 0;
    while i < |l.contents|
      invariant i <= |l.contents| && |out| == i
      invariant i == 0 ==> prevYear == None
      invariant i > 0 ==> prevYear == Some(Year(l.dates[i - 1]))
      invariant forall j :: 0 <= j < i ==> out[j] == CompactAt(l, j, title)
    {
      var year := Year(l.dates[i]);
      var labelled := prevYear != Some(year);
      assert labelled == NewYear(l.dates, i);
      if labelled {
        prevYear := Some(year);
      }
      out := out + [CompactEntry(title(l.contents[i]), l.dates[i], l.hrefs[i], labelled)];
      i := i + 1;
    }
  }

  /** The year labels of a compact listing, in order. */
  function Labels(out: seq<Element>): seq<string> {
    if |out| == 0 then [] else Labels(out[..|out| - 1]) + Label(out[|out| - 1])
  }

  /** The year label an entry carries, if any. */
  function Label(e: Element): seq<string> {
    if |e.children| == 2 && HasClass(e.children[0], "dateTab") then [e.children[0].text] else []
  }

  /** One element per maximal run of equal consecutive values. */
  function RunHeads(ys: seq<string>): seq<string> {
    if |ys| <= 1 then ys
    else if ys[0] == ys[1] then RunHeads(ys[1..])
    else [ys[0]] + RunHeads(ys[1..])
  }

  /** Appending a value adds a run head exactly when it differs from the last value. */
  lemma {:induction false} RunHeadsSnoc(ys: seq<string>, y: string)
    ensures RunHeads(ys + [y]) == RunHeads(ys) + (if |ys| > 0 && ys[|ys| - 1] == y then [] else [y])
    decreases |ys|
  {
    if |ys| == 0 {
    } else if |ys| == 1 {
      assert ys + [y] == [ys[0], y];
      assert RunHeads([y]) == [y];
    } else {
      assert (ys + [y])[1..] == ys[1..] + [y];
      RunHeadsSnoc(ys[1..], y);
    }
  }

  /** The years of a listing's dates. */
  function Years(dates: seq<string>): (ys: seq<string>)
    ensures |ys| == |dates| && forall i :: 0 <= i < |dates| ==> ys[i] == Year(dates[i])
  {
    seq(|dates|, i requires 0 <= i < |dates| => Year(dates[i]))
  }

  /** The listing without its last entry. */
  function Init(l: Listing): (r: Listing)
    requires Parallel(l) && |l.contents| > 0
    ensures Parallel(r) && |r.contents| == |l.contents| - 1
  {
    var n := |l.contents|;
    Listing(l.contents[..n - 1], l.dates[..n - 1], l.hrefs[..n - 1], l.detailed)
  }

  lemma CompactListingInit(l: Listing, title: string -> string)
    requires Parallel(l) && |l.contents| > 0
    ensures CompactListing(l, title)[..|l.contents| - 1] == CompactListing(Init(l), title)
  {
    var n := |l.contents|;
    var init := Init(l);
    forall j | 0 <= j < n - 1
      ensures CompactAt(l, j, title) == CompactAt(init, j, title)
    {
      assert NewYear(l.dates, j) == NewYear(init.dates, j);
    }
  }

  lemma YearsInit(dates: seq<string>)
    requires |dates| > 0
    ensures Years(dates) == Years(dates[..|dates| - 1]) + [Year(dates[|dates| - 1])]
  {
  }

  /** The compact listing has one year label per maximal run of equal years,
      carrying that run's year, in order; so the first entry always has one. */
  lemma {:induction false} CompactLabelsAreRunHeads(l: Listing, title: string -> string)
    requires Parallel(l)
    ensures Labels(CompactListing(l, title)) == RunHeads(Years(l.dates))
    decreases |l.contents|
  {
    if |l.contents| > 0 {
      var n := |l.contents|;
      var y := Year(l.dates[n - 1]);
      var ys := Years(Init(l).dates);
      CompactLabelsAreRunHeads(Init(l), title);
      CompactLabelsStep(l, title);
      YearsInit(l.dates);
      RunHeadsSnoc(ys, y);
    }
  }

  /** Adding the last entry adds its label: its year exactly when it differs
      from the year before. */
  lemma CompactLabelsStep(l: Listing, title: string -> string)
    requires Parallel(l) && |l.contents| > 0
    ensures var n := |l.contents|; var y := Year(l.dates[n - 1]);
      Labels(CompactListing(l, title))
        == Labels(CompactListing(Init(l), title)) + (if n > 1 && Year(l.dates[n - 2]) == y then [] else [y])
  {
    var n := |l.contents|;
    var out := CompactListing(l, title);
    CompactListingInit(l, title);
    assert Labels(out) == Labels(CompactListing(Init(l), title)) + Label(out[n - 1]);
    LastLabel(l, title);
  }

  /** The last entry's label: its year when it opens a new year, else none. */
  lemma LastLabel(l: Listing, title: string -> string)
    requires Parallel(l) && |l.contents| > 0
    ensures var n := |l.contents|;
      var y := Year(l.dates[n - 1]);
      Label(CompactListing(l, title)[n - 1])
        == if n > 1 && Year(l.dates[n - 2]) == y then [] else [y]
  {
    var n := |l.contents|;
    var e := CompactListing(l, title)[n - 1];
    assert e == CompactAt(l, n - 1, title);
  }

  /** `run`: the children the directive appends in place of its block. */
  method Run(block: string, basePath: string, walk: string -> Option<seq<PostFile>>,
             limit: nat, convert: string -> string)
    returns (out: seq<Element>)
    requires IsDirective(block)
    ensures var directory := DirectiveTarget(block);
      var posts := Posts(WalkOf(basePath, TargetDirectory(directory), walk));
      |out| == (if |directory| == 0 then 0 else |posts|)
    ensures var directory := DirectiveTarget(block);
      |directory| > 0 && Contains(directory, DetailedFlag) ==>
        forall i :: 0 <= i < |out| ==> HasClass(out[i], "postPreview")
    ensures var directory := DirectiveTarget(block);
      !Contains(directory, DetailedFlag) ==>
        forall i :: 0 <= i < |out| ==> HasClass(out[i], "postTitle")
    ensures var l := PreviewListing(DirectiveTarget(block), basePath, walk, limit, convert);
      out == if l.detailed then RenderDetailed(l) else CompactListing(l, Helpers.GetFirstTitle)
  {
    var directory := DirectiveTarget(block);
    var l := GetPreviewContent(directory, basePath, walk, limit, convert);
    if l.detailed {
      out := RenderDetailed(l);
    } else {
      out := RenderCompact(l, Helpers.GetFirstTitle);
      CompactTitles(l, Helpers.GetFirstTitle);
    }
  }

  /** Every compact entry is a `postTitle` paragraph. */
  lemma CompactTitles(l: Listing, title: string -> string)
    requires Parallel(l)
    ensures var out := CompactListing(l, title);
      |out| == |l.contents| && forall i :: 0 <= i < |out| ==> HasClass(out[i], "postTitle")
  {
  }
}
