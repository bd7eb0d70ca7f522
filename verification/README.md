# MarkdownBlogger text rules in Dafny

A model of the text-transformation core of MarkdownBlogger, a static-site generator that turns a directory of Markdown posts into HTML pages. The filesystem and the Markdown library are abstracted away. Three pieces are modelled.

- **The preview directive** (`PreviewBlockProcessor` and `TagsPattern` in markdownTags.py), in `preview.dfy`, `links.dfy` and `tags.dfy`:
  - a `% dir[:detailed]` block is parsed and the mode is decided;
  - for each Markdown post under the target directory, an href, a date and an excerpt bounded by a block count are built;
  - relative Markdown links in the excerpt are re-rooted and one-line `<a>` anchors are replaced by their text;
  - the walk order is reversed, and a detailed or a compact, year-grouped listing is rendered;
  - an `@ a, b` line becomes one trimmed badge per tag.
- **The page-assembly rules** of render.py, in `render.dfy`:
  - the module registry, where the last module with a stem wins;
  - `! include NAME` substitution and `! ` meta-line stripping;
  - the output path and the page title;
  - the skip / copy / keep-html / convert dispatch of the site walk;
  - the relative path of a walked file;
  - the assembled page context.
- **The pure helpers** of helpers.py, in `helpers.dfy`: the favicon address, the file-name stem, the meta description, the first title and the social-image choice.

Supporting modules:

- `strings.dfy` (`Str`) models the Python `str` operations used: `strip`, `split`, `join`, `replace`, `find`, `lower`.
- `paths.dfy` (`Paths`) models the `posixpath` functions used: `basename`, `splitext`, `join`, `dirname`.
- `tree.dfy` (`Tree`) models the small ElementTree subset the handlers build.
- `wrappers.dfy` holds `Option`.

Each regular expression of MarkdownBlogger is modelled as a dedicated scanning function. That function reproduces the match Python's `re` picks: leftmost, with the same greedy or lazy quantifiers and the same `DOTALL` / `MULTILINE` / `IGNORECASE` flags.

The parts outside the model become parameters:

- The directory walk is a function from a directory path to the files met, in walk order; it returns `None` when the path is not an existing directory.
- The Markdown converter is an opaque function.
- Whether the default social image exists is a boolean.
- A page's directory relative to the input directory is a string.

## Model

| member | source | states |
|---|---|---|
| Str.StripIdempotent | markdownTags.py:121 | Stripping an already stripped text changes nothing |
| Str.StripAfterSpace | markdownTags.py:41 | Leading whitespace before a text does not change its stripped form |
| Str.JoinSplit | markdownTags.py:122-123 | Joining the pieces of a split with the same separator gives back the text |
| Str.ReplaceIsJoinSplit | markdownTags.py:100 | `str.replace` of every occurrence equals splitting on the pattern and joining with the replacement |
| Str.SplitJoinTake | markdownTags.py:122-123 | The first n pieces of a split, once joined, split back into exactly those pieces |
| Str.SplitCharCount | markdownTags.py:150 | Splitting on a character gives one more piece than the character's occurrences |
| Str.ReplaceCharRemoves | markdownTags.py:116 | Replacing every occurrence of a character by text without it leaves none |
| Str.Lower | markdownTags.py:118 | Lower-casing keeps the length and maps each character independently |
| Paths.Basename | helpers.py:47 | The base name has no '/', ends the path, and follows the last '/' |
| Paths.SplitExt | helpers.py:48 | Stem and extension concatenate to the path; the extension is empty or one dot followed by no '/' or '.' |
| Paths.SplitExtOf | markdownTags.py:116-117 | For `dir + stem + ext` with an ordinary stem, `splitext` yields `(dir + stem, ext)` |
| Paths.PathJoin | helpers.py:94 | The joined path ends with its last component |
| Paths.Hyphenate | markdownTags.py:116 | After `', '` and `' '` are turned into '-', no space is left |
| Paths.HyphenateIdempotent | render.py:36 | Hyphenating twice is the same as hyphenating once |
| Paths.HyphenateKeepsSpaceless | render.py:36 | Text without spaces is not changed by hyphenation |
| Paths.DirnameOfJoin | render.py:21 | The directory of a name joined under a directory is that directory |
| Helpers.EmojiHref | helpers.py:65-66 | The favicon address starts with the fixed prefix, ends with `.png`, and has the pictograph's length in between |
| Helpers.EmojiHrefRoundTrip | helpers.py:65-66 | The pictograph can be read back from its address, and every readable address is built from its pictograph |
| Helpers.FilenameWithoutExtension | helpers.py:45-49 | The stem has no '/' and is the base name minus an empty or single-dot extension |
| Helpers.FilenameWithoutExtensionOf | helpers.py:45-49 | A base name `stem + ext`, with a stem holding a non-dot character and a one-dot extension, gives `stem`: `b.tar.gz` gives `b.tar` |
| Helpers.FilenameWithoutDot | helpers.py:45-49 | A base name without any dot is its own stem |
| Helpers.Paragraphs | helpers.py:70 | Each lazily matched paragraph body contains no `</p>` |
| Helpers.ParagraphOf | helpers.py:70 | A leading `<p>x</p>`, with no `</p>` in `x`, gives `x` as the first paragraph, and matching resumes after its `</p>` |
| Helpers.StripLineTags | helpers.py:75 | Removing same-line `<…>` tags never lengthens the text and keeps text without '<' |
| Helpers.StripLineTagOf | helpers.py:75 | A leading `<t>` whose `t` holds no `>` and no line break is removed whole, and removal resumes after it |
| Helpers.ShortenBounds | helpers.py:80 | A cut description is at most 160 characters: the text itself when it fits, else its first 155 characters and `...` |
| Helpers.Describe | helpers.py:73-82 | Empty exactly when no text has 30 characters; otherwise the first such text, cut; never over 160 |
| Helpers.ExtractFirstParagraph | helpers.py:68-82 | The meta description is empty exactly when no cleaned paragraph has 30 characters, else the first such paragraph cut to at most 160 |
| Helpers.FirstHeading | helpers.py:109-110 | The search returns the leftmost position where a title matches, and none when no position matches |
| Helpers.StripAngleTags | helpers.py:112 | Text without '<' passes through tag removal unchanged |
| Helpers.RemoveHashRuns | helpers.py:113 | Text without '#' passes through hash-marker removal unchanged |
| Helpers.CleanTitleOfPlain | helpers.py:112-113 | Plain title text (no markup, hash, line break or surrounding space) is its own clean title |
| Helpers.GetFirstTitle | helpers.py:108-115 | Empty when no heading matches; otherwise the cleaned text of the leftmost match |
| Helpers.TitleOfWholeMatch | helpers.py:110-114 | A text that is one whole heading match has that heading's cleaned text as title |
| Helpers.RawHeadingMatches | helpers.py:109-110 | `# t` on one line is matched as a whole raw heading |
| Helpers.RawHeadingCleans | helpers.py:112-113 | Cleaning `# t` leaves exactly `t` |
| Helpers.RenderedHeadingMatches | helpers.py:109-110 | `<hN>t</hN>` is matched as a whole rendered heading |
| Helpers.RenderedHeadingCleans | helpers.py:112-113 | Cleaning `<hN>t</hN>` leaves exactly `t` |
| Helpers.TitleRawOrRendered | helpers.py:108-115 | A raw heading `# t` and a rendered `<hN>t</hN>` give the same title `t` |
| Helpers.FirstImage | helpers.py:86-87 | The url of the leftmost image reference, or none when there is none |
| Helpers.ImageUrl | helpers.py:91-98 | A marked page uses its first image (an `http` url verbatim, any other joined under the url root and directory); else the default image exactly when it exists |
| Helpers.ImageMetaTags | helpers.py:85-106 | The meta block is empty exactly when no image is chosen, else it names the chosen image and the title |
| Tags.TagsPayload | markdownTags.py:140 | A tag line starts with '@' and whitespace; the capture ends the line and follows the whole whitespace run, so it starts with a non-space, except that a line of only whitespace after '@' captures the run's last character |
| Tags.HandleMatch | markdownTags.py:148-156 | One container `div` with one `categoryTag` badge per comma-separated piece, in order, each trimmed |
| Tags.BadgesRoundTrip | markdownTags.py:148-156 | When no tag carries surrounding whitespace, the badges joined with commas give back the tag list |
| Links.FindLinkClose | markdownTags.py:124 | The `](.` found is the first at or after the start, with no line break before it; none is found exactly when every later `](.` has a line break before it |
| Links.RewriteLinks | markdownTags.py:124 | Link rewriting never shortens the excerpt |
| Links.RewriteRelativeLink | markdownTags.py:124 | `[text](.` becomes `[text]( prefix/.`, and rewriting continues after it |
| Links.RewriteLinksNoRelative | markdownTags.py:124 | Text with no `](.` is left exactly as it is |
| Links.FindAnchorClose | markdownTags.py:125 | The `</a>` found is the first at or after the start, with no line break before it; none is found exactly when every later `</a>` has a line break before it |
| Links.AnchorAt | markdownTags.py:125 | A match starts with `<a` and a non-word character; its opening tag ends at the first `>`; its close is the first `</a>` after that, with no line break before it. There is no match exactly when no such `</a>` exists before a line break |
| Links.AnchorClosesFirst | markdownTags.py:125 | In `<a>x</a></a>` the anchor closes at the first `</a>`: only `<a>x</a>` is replaced by `x`, and stripping resumes at the second `</a>` |
| Links.StripAnchors | markdownTags.py:125 | Replacing anchors by their text never lengthens the excerpt |
| Links.StripOneAnchor | markdownTags.py:125 | `<a attrs>x</a>` on one line is replaced by `x`, and stripping continues after it |
| Links.StripAnchorsKeepsPlain | markdownTags.py:125 | Text without '<' is left exactly as it is |
| Preview.DirectiveCapture | markdownTags.py:37-41 | The directive's capture is a non-empty tail of the block |
| Preview.DirectiveTarget | markdownTags.py:41 | The directive target is the stripped text after '%' |
| Preview.TargetDirectory | markdownTags.py:97-101 | Every `:detailed` is deleted from the target, and a target without it is unchanged |
| Preview.DirectoryPath | markdownTags.py:103-106 | Without a base path the directory is the target, and it always ends with the target |
| Preview.HrefOfPost | markdownTags.py:116-117 | A post `stem.ext` links to `target/relpath/` plus the hyphenated stem plus `.html` for `.md`, else plus its own extension |
| Preview.HrefAsWritten | markdownTags.py:116-117 | The href starts with `target/relpath/` |
| Preview.Href | markdownTags.py:116-118 | The corrected href, with the case-insensitive `.md` test of line 118, also starts with `target/relpath/` |
| Preview.Posts | markdownTags.py:110-118 | There are never more posts than walked files |
| Preview.ExcerptKeepsShortPost | markdownTags.py:121-123 | A post with no more blocks than the limit is kept whole, plus a blank line |
| Preview.ExcerptBlocks | markdownTags.py:121-123 | The excerpt is the first `limit` blocks joined by blank lines plus one; they split back into those blocks, at most `limit` of them |
| Preview.Excerpt | markdownTags.py:121-123 | Every excerpt ends with a blank line |
| Preview.PlainExcerptConvertedAsIs | markdownTags.py:119-126 | An excerpt with no relative link and no '<' reaches the converter untouched by the link and anchor rewrites |
| Preview.PostsAreMarkdownFiles | markdownTags.py:110-118 | The posts are exactly the walked files whose lower-cased name ends in `.md` |
| Preview.CollectEntries | markdownTags.py:108-129 | The walk loop yields one excerpt, date and href per post, in walk order, as three equally long sequences |
| Preview.Reverse | markdownTags.py:131 | Reversal keeps the length and puts element i at position n-1-i |
| Preview.ReverseInvolution | markdownTags.py:131 | Reversing twice restores the walk order |
| Preview.GetPreviewContent | markdownTags.py:92-131 | The walk loop and the reversal build exactly the listing `Preview.PreviewListing` describes |
| Preview.PreviewListingEntries | markdownTags.py:92-131 | An empty target gives no entries and compact mode. Otherwise the mode is the `:detailed` test, and entry i holds the excerpt, the relative directory and the href as written of the i-th post counted from the end of the walk |
| Preview.PostsListingEntries | markdownTags.py:108-131 | Entry i of a listing of posts belongs to the i-th post counted from the end |
| Preview.DetailedEntry | markdownTags.py:47-62 | A `postPreview` wrapper holding a `previewDate` div with the date, then a `previewHref` link to the href around the excerpt plus `(Read more)` |
| Preview.RenderDetailed | markdownTags.py:44-62 | One `postPreview` wrapper per entry with that entry's date, href and excerpt; no entries render nothing |
| Preview.DetailedRoundTrip | markdownTags.py:44-62 | Every date, href and excerpt of a detailed listing can be read back from its rendering, in order |
| Preview.Year | markdownTags.py:67 | The year is the prefix of the date before its first '/', or the whole date when it has none |
| Preview.CompactEntry | markdownTags.py:69-89 | A `postTitle` wrapper with a `dateTab` year label exactly when labelled, then one link to the href around the title |
| Preview.CompactListing | markdownTags.py:64-91 | One entry per post, each labelled exactly when its year differs from the previous entry's |
| Preview.RenderCompact | markdownTags.py:64-91 | The loop keeping the previous year builds exactly the compact listing |
| Preview.CompactLabelsAreRunHeads | markdownTags.py:65-78 | The year labels, in order, are the heads of the maximal runs of equal years, one per run |
| Preview.LastLabel | markdownTags.py:72-78 | The last entry is labelled with its year exactly when it is the first or its year differs from the one before |
| Preview.Run | markdownTags.py:39-91 | The directive appends the detailed rendering of the listing in detailed mode and the compact rendering otherwise: one element per post, all `postPreview` or all `postTitle` |
| Render.Register | render.py:18-21 | The registry holds exactly the entries' keys, each with the value of the last entry with that key |
| Render.ModuleEntries | render.py:18-21 | Each module file gives, in walk order, its name without the extension and its text converted from its own directory |
| Render.ModuleEntriesFromRoot | render.py:18-21 | A module file directly inside a walk root (root without a trailing '/', name without '/') is converted from that root |
| Render.FindModules | render.py:10-22 | No modules directory gives an empty registry; otherwise each stem maps to the fragment of the last file with that stem |
| Render.Lookup | render.py:31 | A registered name gives its fragment, an unknown one gives the empty text |
| Render.IncludeModules | render.py:31 | Text without a line break holds no include line and is kept as it is |
| Render.IncludeLine | render.py:31 | An include line in any letter case is replaced, with its line break, by the named fragment or by nothing |
| Render.IncludeKeepsLine | render.py:31 | Text on the first line, with no line break before it, is kept by inclusion |
| Render.StripMeta | render.py:32 | Stripping never lengthens the text, and text without a line break is kept as it is |
| Render.StripMetaLeavesNoMetaLine | render.py:32 | After stripping, no line break is followed by `! ` and more text on the same line |
| Render.StripMetaJoin | render.py:32 | Stripping distributes over a split made just before a line break |
| Render.StripMetaLine | render.py:32 | A `! …` line with the line break before it is removed |
| Render.StripMetaKeepsLine | render.py:32 | Text on the first line, with no line break before it, is kept by stripping |
| Render.FirstLineKept | render.py:31-32 | The first line of a text is kept by both passes, directives included |
| Render.PagePath | render.py:36 | The page path ends in `.html` and contains no space |
| Render.PagePathOf | render.py:36 | `dir/stem.ext` is written to the hyphenated `dir/stem` plus `.html`, whatever the extension |
| Render.PageTitle | render.py:44 | The title alone without a site title, else the title, ` | ` and the site title |
| Render.PageTitleRoundTrip | render.py:44 | The first title can always be read back from the page title |
| Render.Dispatch | render.py:73-89 | Skip exactly under `modules/` or `_`; convert exactly Markdown; copy exactly other non-HTML or HTML with `<keep-html>`; no output exactly for other HTML |
| Render.MarkdownIsNotHtml | render.py:77-87 | No file name ends in both `.md` and `.html` |
| Render.PreviewedPostsArePages | render.py:73-89 | Every post a preview lists, from any walk, is converted to a page unless it sits under `modules/` or starts with `_` |
| Render.TrimSeparators | render.py:70 | The result is the input minus its leading run of '/' and '\\' |
| Render.RelativePathAsWritten | render.py:70 | The relative path starts with no separator; when the file path does not contain the input path it is the file path minus its leading separators |
| Render.RelativePathAsWrittenOfJoin | render.py:70 | For a file `d/rel` whose path holds the input path `d` only at its start, as written gives `rel`: `site/posts/a.md` under `site` gives `posts/a.md` |
| Render.RelativePath | render.py:70 | The corrected relative path starts with no separator, ends the file path, and after the input path is no longer than what follows it |
| Render.RelativePathOfJoin | render.py:70 | The relative path of `input/rel` is `rel` |
| Render.RelativePathAsWrittenLosesPrefix | render.py:70 | For input `d` and file `d/d<x>`, deleting every `d` gives `x`, while the relative path is `d<x>` |
| Render.ProcessMarkdownFile | render.py:24-49 | The page path is the output file's page path; the title is the page title of the raw text's first title; the description is the first paragraph of the converted content; the image meta comes from the raw text; the content is the converted text after inclusion and meta stripping; the favicon reads back to the pictograph |
| Render.OverrideMarkerSeenBeforeStripping | render.py:26-32 | A marked image is chosen from the raw text although stripping removes the marker line from the body |
| Render.MetaLineIsStripped | render.py:32 | A meta line in the middle of the text is removed with its line break and nothing else changes |
| Render.PreviewLinkMatchesPage | markdownTags.py:116-118 | With a case-insensitive `.md` test, a post's preview link and its page path both end in the hyphenated stem plus `.html` |
| Render.UppercaseMarkdownLinkAsWritten | markdownTags.py:117-118 | A post `stem.MD` is listed, its page is `stem.html`, yet the link as built ends in `.MD` |

## Left out

- File I/O is not modelled: `os.walk`, `os.path.exists`/`isdir`, `open`, `shutil.copy2`, `copy_css_file` and `os.makedirs` (including the output-directory `replace` at render.py:65). The walk is given as files in walk order; existence is an `Option` or a boolean.
- `os.path.relpath` is not modelled. A page's directory relative to the input directory (`relDir`) and a post's relative directory (`relpath`) are given as text.
- The Markdown pipeline (`convert_to_html`, its extensions and codehilite) is an opaque function. It receives the text and, in render.py, the file's directory. The preview calls its processor with the text only, so the preview converter takes one argument. markdownTags.py:126 converts each excerpt with the preview extension registered again, so what becomes of a preview directive inside an excerpt is left to that opaque function.
- Jinja template filling, sitemap generation and argument parsing are not modelled. `Render.ProcessMarkdownFile` returns the template context as a `Page`.
- `run` mutates its parent element and pops its block. `Preview.Run` returns the children it would append instead.
- Python's `reversed()` returns iterators; they are modelled as reversed sequences.
- `get_first_title` is taken to be the one defined at helpers.py:108-115 at all three places that use it.
  - markdownTags.py:80 imports it from render.py.
  - render.py:8 imports it from markdownTags.py, which defines no such name at module level. render.py:27 calls that import.
  - `Render.ProcessMarkdownFile` and `Preview.Run` therefore both take the title from `Helpers.GetFirstTitle`.
  - The import cycle between render.py, markdownTags.py and helpers.py, and the resolution of these imports, are not modelled.
- Str.Lower: lower-cases ASCII letters only; Python's `str.lower` and `re.IGNORECASE` also fold other letters.
- Links.AnchorAt: `\b` and `\w` are taken over ASCII letters, digits and '_'; Python's `\w` also matches other Unicode word characters.
- Links.RewriteLinks: the prefix is inserted literally. Python processes backslash escapes in the replacement template, so a directory name containing '\\' is not modelled.
- Preview.GetPreviewContent: the preview limit is a natural number. A negative limit, which Python's slice would read from the end, is not modelled.
- Helpers.ShortenBounds: follows the code. A description over 160 characters becomes its first 155 and `...`, 158 in all, while a text of exactly 160 is kept whole.

## Findings

| source | as written | input that shows it | evidently intended | confidence | as-written member | corrected member |
|---|---|---|---|---|---|---|
| render.py:70 | `file_path.replace(input_path, '')` deletes every occurrence of the input path, not only the leading one | input `docs`, file `docs/docs-old/a.md`: relative path `-old/a.md` | strip the leading input path once, giving `docs-old/a.md` | medium, not executed | Render.RelativePathAsWrittenLosesPrefix | Render.RelativePathOfJoin |
| markdownTags.py:117 | the href swaps the extension for `.html` only when it is exactly `.md`, while line 118 admits any letter case | post `a.MD`: listed, page written as `a.html`, link ends in `a.MD` | test the extension case-insensitively, as the filter and the page writer do | medium, not executed | Render.UppercaseMarkdownLinkAsWritten | Render.PreviewLinkMatchesPage |

The listing (`Preview.PreviewListing`, built by `Preview.GetPreviewContent`) uses the href as written, `Preview.HrefAsWritten`, as markdownTags.py:116-117 builds it. `Preview.Href` is the corrected href, and `Render.PreviewLinkMatchesPage` proves the intended property of it. `Render.RelativePath` is the corrected relative path. `Render.RelativePathAsWritten` keeps the behaviour of render.py:70.
