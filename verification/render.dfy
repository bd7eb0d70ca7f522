/**
 * The page-assembly rules of render.py: the module registry, include
 * substitution and meta-line stripping, the page path, the page title,
 * the per-file dispatch of the site walk, and the assembled page context.
 *
 * The Markdown converter is an opaque function of the text and the
 * directory it is read from; file reads, copies and template filling are
 * left to the caller.
 */
module Render {
  import opened Wrappers
  import opened Str
  import Paths
  import Helpers
  import Preview

  // ------------------------------------------------------------- modules

  /** A file met by the walk of the `modules` directory: the walk root it was
      found in, its name and its text. */
  datatype ModuleFile = ModuleFile(root: string, name: string, content: string)

  /** The registry key of a module file: its name without the extension. */
  function ModuleKey(f: ModuleFile): string {
    Helpers.FilenameWithoutExtension(f.name)
  }

  /** The registry value of a module file: its text converted from its own directory. */
  function ModuleFragment(f: ModuleFile, convert: (string, string) -> string): string {
    convert(f.content, Paths.Dirname(Paths.PathJoin(f.root, f.name)))
  }

  /** `registry` holds exactly the keys of `entries`, and for each key the
      value of the last entry with that key. */
  ghost predicate LastWins(entries: seq<(string, string)>, registry: map<string, string>) {
    (forall k :: k in registry <==> exists i :: 0 <= i < |entries| && entries[i].0 == k)
    && forall i :: 0 <= i < |entries| && (forall j :: i < j < |entries| ==> entries[j].0 != entries[i].0) ==>
      entries[i].0 in registry && registry[entries[i].0] == entries[i].1
  }

  /** The registry loop: entries are stored in order, so for every key the
      registry holds the value of the last entry with that key. */
  method Register(entries: seq<(string, string)>) returns (registry: map<string, string>)
    ensures LastWins(entries, registry)
  {
    registry := map[];
    var n := 0;
    while n < |entries|
      invariant n <= |entries|
      invariant forall k :: k in registry <==> exists i :: 0 <= i < n && entries[i].0 == k
      invariant forall i :: 0 <= i < n && (forall j :: i < j < n ==> entries[j].0 != entries[i].0) ==>
        entries[i].0 in registry && registry[entries[i].0] == entries[i].1
    {
      registry := registry[entries[n].0 := entries[n].1];
      n := n + 1;
    }
  }

  /** The (key, fragment) pair of every module file, in walk order. */
  function ModuleEntries(files: seq<ModuleFile>, convert: (string, string) -> string): (entries: seq<(string, string)>)
    ensures |entries| == |files|
    ensures forall i :: 0 <= i < |files| ==> entries[i].0 == Helpers.FilenameWithoutExtension(files[i].name)
    ensures forall i :: 0 <= i < |files| ==>
      entries[i].1 == convert(files[i].content, Paths.Dirname(Paths.PathJoin(files[i].root, files[i].name)))
  {
    seq(|files|, i requires 0 <= i < |files| => (ModuleKey(files[i]), ModuleFragment(files[i], convert)))
  }

  /** A module file found directly in a walk root (a root without a trailing
      '/', a name without one) is converted from that root. */
  lemma ModuleEntriesFromRoot(files: seq<ModuleFile>, convert: (string, string) -> string)
    requires forall i :: 0 <= i < |files| ==>
      |files[i].root| > 0 && files[i].root[|files[i].root| - 1] != '/' && '/' !in files[i].name
    ensures forall i :: 0 <= i < |files| ==>
      ModuleEntries(files, convert)[i].1 == convert(files[i].content, files[i].root)
  {
    forall i | 0 <= i < |files|
      ensures ModuleEntries(files, convert)[i].1 == convert(files[i].content, files[i].root)
    {
      Paths.DirnameOfJoin(files[i].root, files[i].name);
    }
  }

  /** `find_modules`: an empty registry when there is no `modules` directory;
      otherwise one entry per distinct stem (see `ModuleEntries`), holding
      the fragment of the last file in walk order that has that stem. */
  method FindModules(modules: Option<seq<ModuleFile>>, convert: (string, string) -> string)
    returns (registry: map<string, string>)
    ensures modules.None? ==> registry == map[]
    ensures modules.Some? ==> LastWins(ModuleEntries(modules.value, convert), registry)
  {
    if modules.None? {
      return map[];
    }
    registry := Register(ModuleEntries(modules.value, convert));
  }

  /** `module_dict.get(name, "")` */
  function Lookup(registry: map<string, string>, name: string): (r: string)
    ensures name in registry ==> r == registry[name]
    ensures name !in registry ==> |r| == 0
  {
    if name in registry then registry[name] else []
  }

  // ------------------------------------------------------------ includes

  const IncludeWord: string := "! include "

  /** `\n! include (.+)` (case-insensitive) matches at the start of `s`: a
      line break, the directive words in any letter case, and a non-empty
      rest of the line. */
  predicate IncludeAt(s: string) {
    |s| > |IncludeWord| + 1 && s[0] == '\n' && Lower(s[1..|IncludeWord| + 1]) == IncludeWord
    && s[|IncludeWord| + 1] != '\n'
  }

  /** Replaces every include line, together with the line break before it,
      by the named module's fragment, or by nothing for an unknown name. */
  function IncludeModules(s: string, registry: map<string, string>): (r: string)
    ensures '\n' !in s ==> r == s
    decreases |s|
  {
    if |s| == 0 then []
    else if IncludeAt(s) then
      var e := LineEnd(s, |IncludeWord| + 1);
      Lookup(registry, s[|IncludeWord| + 1..e]) + IncludeModules(s[e..], registry)
    else [s[0]] + IncludeModules(s[1..], registry)
  }

  /** An include line is replaced by its module's fragment (nothing when the
      name is unknown), whatever the letter case of the directive words;
      the name is the whole rest of the line. */
  lemma IncludeLine(words: string, name: string, rest: string, registry: map<string, string>)
    requires Lower(words) == IncludeWord
    requires |name| > 0 && '\n' !in name
    requires |rest| == 0 || rest[0] == '\n'
    ensures IncludeModules("\n" + words + name + rest, registry) == Lookup(registry, name) + IncludeModules(rest, registry)
  {
    var s := "\n" + words + name + rest;
    var w := |IncludeWord| + 1;
    assert s[1..w] == words;
    assert s[w] == name[0];
    assert IncludeAt(s);
    forall j | w <= j < w + |name|
      ensures s[j] != '\n'
    {
      assert s[j] == name[j - w];
    }
    if |rest| > 0 {
      assert s[w + |name|] == rest[0];
    }
    assert LineEnd(s, w) == w + |name|;
    assert s[w..w + |name|] == name;
    assert s[w + |name|..] == rest;
  }

  // ---------------------------------------------------------- meta lines

  /** `\n! .+` matches at the start of `s`. */
  predicate MetaAt(s: string) {
    |s| >= 4 && s[0] == '\n' && s[1] == '!' && s[2] == ' ' && s[3] != '\n'
  }

  /** Removes every meta line, together with the line break before it. */
  function StripMeta(s: string): (r: string)
    ensures |r| <= |s|
    ensures '\n' !in s ==> r == s
    decreases |s|
  {
    if |s| == 0 then []
    else if MetaAt(s) then StripMeta(s[LineEnd(s, 3)..])
    else [s[0]] + StripMeta(s[1..])
  }

  /** No meta line is left: the result has no line break followed by `! `
      and a character other than a line break. */
  predicate NoMetaLine(r: string) {
    forall i :: 0 <= i <= |r| ==> !MetaAt(r[i..])
  }

  /** The first character that stripping keeps is the text's own first
      character, unless it is a line break. */
  lemma {:induction false} StripMetaHead(t: string)
    ensures var r := StripMeta(t);
      |r| > 0 && r[0] != '\n' ==> |t| > 0 && !MetaAt(t) && r == [t[0]] + StripMeta(t[1..])
    decreases |t|
  {
    if |t| > 0 && MetaAt(t) {
      StripMetaHead(t[LineEnd(t, 3)..]);
    }
  }

  /** After stripping, no meta line remains. */
  lemma {:induction false} StripMetaLeavesNoMetaLine(s: string)
    ensures NoMetaLine(StripMeta(s))
    decreases |s|
  {
    if |s| == 0 {
    } else if MetaAt(s) {
      StripMetaLeavesNoMetaLine(s[LineEnd(s, 3)..]);
    } else {
      var rest := StripMeta(s[1..]);
      var r := StripMeta(s);
      assert r == [s[0]] + rest;
      StripMetaLeavesNoMetaLine(s[1..]);
      forall i | 1 <= i <= |r|
        ensures !MetaAt(r[i..])
      {
        assert r[i..] == rest[i - 1..];
      }
      if |s| >= 2 {
        StripMetaHead(s[1..]);
      }
      if |s| >= 3 {
        assert s[1..][1..] == s[2..];
        StripMetaHead(s[2..]);
      }
      if |s| >= 4 {
        assert s[2..][1..] == s[3..];
        StripMetaHead(s[3..]);
      }
      assert !MetaAt(r[0..]);
    }
  }

  /** Both passes only look at text after a line break: a meta line needs
      `\n! ` followed by a character that is not a line break. */
  lemma MetaAtJoin(a: string, b: string)
    requires |a| > 0 && (|b| == 0 || b[0] == '\n')
    ensures MetaAt(a + b) == MetaAt(a)
    ensures MetaAt(a) ==> LineEnd(a + b, 3) == LineEnd(a, 3) && (a + b)[LineEnd(a, 3)..] == a[LineEnd(a, 3)..] + b
  {
    MetaAtPrefix(a, b);
    if MetaAt(a) {
      var s := a + b;
      var e := LineEnd(a, 3);
      forall j | 3 <= j < e
        ensures s[j] != '\n'
      {
        assert s[j] == a[j];
      }
      if e < |a| {
        assert s[e] == a[e];
      } else if |b| > 0 {
        assert s[e] == b[0];
      }
      LineEndAt(s, 3, e);
      assert s[e..] == a[e..] + b;
    }
  }

  /** Whether a meta line starts here is decided by the first line. */
  lemma MetaAtPrefix(a: string, b: string)
    requires |a| > 0 && (|b| == 0 || b[0] == '\n')
    ensures MetaAt(a + b) == MetaAt(a)
  {
    var s := a + b;
    if |a| >= 4 {
      assert s[0] == a[0] && s[1] == a[1] && s[2] == a[2] && s[3] == a[3];
    } else if |b| > 0 {
      assert s[|a|] == '\n';
    }
  }

  /** Stripping works line by line: text that starts a new line is stripped
      on its own. */
  lemma {:induction false} StripMetaJoin(a: string, b: string)
    requires |b| == 0 || b[0] == '\n'
    ensures StripMeta(a + b) == StripMeta(a) + StripMeta(b)
    decreases |a|
  {
    if |a| > 0 {
      MetaAtJoin(a, b);
      if MetaAt(a) {
        var e := LineEnd(a, 3);
        StripMetaJoin(a[e..], b);
        assert StripMeta(a + b) == StripMeta(a[e..] + b);
        assert StripMeta(a) == StripMeta(a[e..]);
      } else {
        assert (a + b)[1..] == a[1..] + b;
        StripMetaJoin(a[1..], b);
        assert StripMeta(a + b) == [a[0]] + StripMeta(a[1..] + b);
        assert StripMeta(a) == [a[0]] + StripMeta(a[1..]);
      }
    } else {
      assert a + b == b;
    }
  }

  /** A meta line is removed together with its line break. */
  lemma StripMetaLine(line: string, rest: string)
    requires |line| >= 3 && line[0] == '!' && line[1] == ' ' && '\n' !in line
    requires |rest| == 0 || rest[0] == '\n'
    ensures StripMeta("\n" + line + rest) == StripMeta(rest)
  {
    var s := "\n" + line + rest;
    var e := 1 + |line|;
    assert s[1..e] == line && s[e..] == rest;
    assert s[0] == '\n' && s[1] == '!' && s[2] == ' ' && s[3] == line[2];
    forall j | 3 <= j < e
      ensures s[j] != '\n'
    {
      assert s[j] == s[1..e][j - 1];
    }
    if |rest| > 0 {
      assert s[e] == s[e..][0];
    }
    LineEndAt(s, 3, e);
  }

  /** The line end found from `i` is the first line break at or after `i`. */
  lemma {:induction false} LineEndAt(s: string, i: nat, e: nat)
    requires i <= e <= |s| && (e < |s| ==> s[e] == '\n')
    requires forall j :: i <= j < e ==> s[j] != '\n'
    ensures LineEnd(s, i) == e
    decreases e - i
  {
    if i < e {
      LineEndAt(s, i + 1, e);
    }
  }

  /** The first line is never touched by either pass: both patterns start
      with a line break. */
  lemma FirstLineKept(s: string, registry: map<string, string>)
    ensures var e := LineEnd(s, 0);
      StripMeta(s) == s[..e] + StripMeta(s[e..])
      && IncludeModules(s, registry) == s[..e] + IncludeModules(s[e..], registry)
  {
    var e := LineEnd(s, 0);
    assert s == s[..e] + s[e..];
    assert '\n' !in s[..e] by {
      forall j | 0 <= j < e ensures s[..e][j] != '\n' {
        assert s[..e][j] == s[j];
      }
    }
    StripMetaKeepsLine(s[..e], s[e..]);
    IncludeKeepsLine(s[..e], s[e..], registry);
  }

  /** Text without a line break is kept by stripping. */
  lemma {:induction false} StripMetaKeepsLine(line: string, rest: string)
    requires '\n' !in line
    ensures StripMeta(line + rest) == line + StripMeta(rest)
    decreases |line|
  {
    if |line| == 0 {
      assert line + rest == rest;
    } else {
      var t := line + rest;
      assert t[0] == line[0] && t[1..] == line[1..] + rest;
      StripMetaCons(t);
      StripMetaKeepsLine(line[1..], rest);
      var tail := StripMeta(rest);
      assert StripMeta(t) == [line[0]] + (line[1..] + tail);
      ConsAppend(line, tail);
    }
  }

  /** Text without a line break is kept by module inclusion. */
  lemma {:induction false} IncludeKeepsLine(line: string, rest: string, registry: map<string, string>)
    requires '\n' !in line
    ensures IncludeModules(line + rest, registry) == line + IncludeModules(rest, registry)
    decreases |line|
  {
    if |line| == 0 {
      assert line + rest == rest;
    } else {
      var t := line + rest;
      assert t[0] == line[0] && t[1..] == line[1..] + rest;
      IncludeModulesCons(t, registry);
      IncludeKeepsLine(line[1..], rest, registry);
      var tail := IncludeModules(rest, registry);
      assert IncludeModules(t, registry) == [line[0]] + (line[1..] + tail);
      ConsAppend(line, tail);
    }
  }

  /** A character other than a line break is kept by both passes. */
  lemma IncludeModulesCons(t: string, registry: map<string, string>)
    requires |t| > 0 && t[0] != '\n'
    ensures IncludeModules(t, registry) == [t[0]] + IncludeModules(t[1..], registry)
  {
  }

  lemma StripMetaCons(t: string)
    requires |t| > 0 && t[0] != '\n'
    ensures StripMeta(t) == [t[0]] + StripMeta(t[1..])
  {
  }

  // ------------------------------------------------------------- page path

  /** The page written for a Markdown file: its path minus the extension,
      with `', '` and then `' '` turned into `'-'`, plus `.html`. */
  function PagePath(outputFile: string): (r: string)
    ensures EndsWith(r, ".html")
    ensures ' ' !in r
  {
    var h := Paths.Hyphenate(Paths.SplitExt(outputFile).0);
    var r := h + ".html";
    assert r[|r| - 5..] == ".html";
    assert forall j :: 0 <= j < |r| ==> r[j] == if j < |h| then h[j] else ".html"[j - |h|];
    r
  }

  /** A file `dir/stem.ext` is written to the hyphenated `dir/stem` plus
      `.html`, whatever its extension was. */
  lemma PagePathOf(dir: string, stem: string, ext: string)
    requires '/' !in stem && exists k :: 0 <= k < |stem| && stem[k] != '.'
    requires |ext| >= 1 && ext[0] == '.' && '/' !in ext && '.' !in ext[1..]
    ensures PagePath(dir + stem + ext) == Paths.Hyphenate(dir + stem) + ".html"
  {
    Paths.SplitExtOf(dir, stem, ext);
  }

  // ------------------------------------------------------------- page title

  const TitleSeparator: string := " | "

  /** The page title: the first title, followed by the site title when there is one. */
  function PageTitle(title: string, siteTitle: string): (r: string)
    ensures StartsWith(r, title)
    ensures |siteTitle| == 0 ==> r == title
    ensures |siteTitle| > 0 ==>
      EndsWith(r, TitleSeparator + siteTitle) && |r| == |title| + |TitleSeparator| + |siteTitle|
  {
    if |siteTitle| == 0 then title
    else
      var r := title + TitleSeparator + siteTitle;
      assert r[..|title|] == title;
      assert r[|r| - |TitleSeparator + siteTitle|..] == TitleSeparator + siteTitle;
      r
  }

  /** Recovers the first title from a page title and the site title. */
  function TitleOf(pageTitle: string, siteTitle: string): Option<string> {
    if |siteTitle| == 0 then Some(pageTitle)
    else if EndsWith(pageTitle, TitleSeparator + siteTitle)
    then Some(pageTitle[..|pageTitle| - |TitleSeparator + siteTitle|])
    else None
  }

  /** The first title can always be read back from the page title. */
  lemma PageTitleRoundTrip(title: string, siteTitle: string)
    ensures TitleOf(PageTitle(title, siteTitle), siteTitle) == Some(title)
  {
    if |siteTitle| > 0 {
      var r := PageTitle(title, siteTitle);
      assert r[..|r| - |TitleSeparator + siteTitle|] == title;
    }
  }

  // ------------------------------------------------------------- dispatch

  /** What the site walk does with one file. */
  datatype Action = Skip | Copy | Convert | NoOutput

  predicate IsHtml(name: string) {
    EndsWith(Lower(name), ".html")
  }

  const KeepHtml: string := "<keep-html>"

  /** The per-file rule of `process_directory`, in the order of `render.py`: files
      under `modules/` or starting with `_` (relative to the input
      directory) are skipped; anything that is neither Markdown nor HTML is
      copied; HTML carrying the keep marker is copied; Markdown becomes a
      page; any other HTML produces nothing. */
  function Dispatch(relative: string, name: string, content: string): (a: Action)
    ensures a == Skip <==> StartsWith(relative, "modules/") || StartsWith(relative, "_")
    ensures a == Convert <==> a != Skip && Preview.IsMarkdown(name)
    ensures a == Copy <==> a != Skip && !Preview.IsMarkdown(name) && (!IsHtml(name) || Contains(content, KeepHtml))
    ensures a == NoOutput <==> a != Skip && IsHtml(name) && !Contains(content, KeepHtml)
  {
    MarkdownIsNotHtml(name);
    if StartsWith(relative, "modules/") || StartsWith(relative, "_") then Skip
    else if !(Preview.IsMarkdown(name) || IsHtml(name)) then Copy
    else if IsHtml(name) && Contains(content, KeepHtml) then Copy
    else if Preview.IsMarkdown(name) then Convert
    else NoOutput
  }

  /** No name ends in both `.md` and `.html`. */
  lemma MarkdownIsNotHtml(name: string)
    ensures !(Preview.IsMarkdown(name) && IsHtml(name))
  {
    var l := Lower(name);
    if |l| >= 5 {
      assert l[|l| - 3..][2] == l[|l| - 1] == l[|l| - 5..][4];
    }
  }

  /** Every post a preview lists becomes a page unless it sits under
      `modules/` or starts with `_`. */
  lemma PreviewedPostsArePages(walk: seq<Preview.PostFile>, relative: string, f: Preview.PostFile)
    requires f in Preview.Posts(walk)
    requires !StartsWith(relative, "modules/") && !StartsWith(relative, "_")
    ensures Dispatch(relative, f.name, f.content) == Convert
  {
    Preview.PostsAreMarkdownFiles(walk);
  }

  // -------------------------------------------------------- relative path

  predicate IsSeparator(c: char) {
    c == '/' || c == '\\'
  }

  /** `lstrip('/\\')` */
  function TrimSeparators(s: string): (r: string)
    ensures |r| <= |s| && r == s[|s| - |r|..]
    ensures forall j :: 0 <= j < |s| - |r| ==> IsSeparator(s[j])
    ensures |r| == 0 || !IsSeparator(r[0])
  {
    if |s| > 0 && IsSeparator(s[0]) then
      var r := TrimSeparators(s[1..]);
      assert s[1..][|s| - 1 - |r|..] == s[|s| - |r|..];
      r
    else s
  }

  /** The path of a walked file relative to the input directory, as
      `render.py` computes it: every occurrence of the input path is deleted. */
  function RelativePathAsWritten(inputPath: string, filePath: string): (r: string)
    ensures |r| == 0 || !IsSeparator(r[0])
    ensures |inputPath| > 0 && !Contains(filePath, inputPath) ==> r == TrimSeparators(filePath)
  {
    TrimSeparators(Replace(filePath, inputPath, []))
  }

  /** The path of a walked file relative to the input directory: the
      leading input path is removed, once. */
  function RelativePath(inputPath: string, filePath: string): (r: string)
    ensures |r| == 0 || !IsSeparator(r[0])
    ensures EndsWith(filePath, r)
    ensures StartsWith(filePath, inputPath) ==> |r| <= |filePath| - |inputPath|
  {
    TrimSeparators(if StartsWith(filePath, inputPath) then filePath[|inputPath|..] else filePath)
  }

  /** The relative path undoes the walk's join: a file at `rel` under the
      input directory gets back exactly `rel`. */
  lemma RelativePathOfJoin(inputPath: string, rel: string)
    requires |inputPath| > 0 && inputPath[|inputPath| - 1] != '/'
    requires |rel| == 0 || !IsSeparator(rel[0])
    ensures RelativePath(inputPath, Paths.PathJoin(inputPath, rel)) == rel
  {
    var p := inputPath + ("/" + rel);
    JoinUnder(inputPath, rel);
    assert p[..|inputPath|] == inputPath;
    assert p[|inputPath|..] == "/" + rel;
    assert ("/" + rel)[1..] == rel;
  }

  lemma JoinUnder(dir: string, rel: string)
    requires |dir| > 0 && dir[|dir| - 1] != '/'
    requires |rel| == 0 || rel[0] != '/'
    ensures Paths.PathJoin(dir, rel) == dir + ("/" + rel)
  {
    assert !EndsWith(dir, "/") by {
      assert dir[|dir| - 1..][0] == dir[|dir| - 1];
    }
    assert !StartsWith(rel, "/") by {
      if |rel| > 0 { assert rel[..1][0] == rel[0]; }
    }
  }

  /** For a file under the input directory whose path holds the input path
      only at its start (`site/posts/a.md` under `site`), deleting every
      occurrence gives the path below the input directory (`posts/a.md`). */
  lemma {:induction false} RelativePathAsWrittenOfJoin(d: string, rel: string)
    requires |d| > 0 && d[|d| - 1] != '/'
    requires |rel| == 0 || !IsSeparator(rel[0])
    requires forall k :: 0 < k ==> !OccursAt(Paths.PathJoin(d, rel), d, k)
    ensures RelativePathAsWritten(d, Paths.PathJoin(d, rel)) == rel
  {
    JoinUnder(d, rel);
    NoOccurrenceInTail(d, "/" + rel);
    DeleteLeadingOnce(d, "/" + rel);
    TrimAfterSlash(rel);
  }

  /** An occurrence in the part after a leading `d` is an occurrence in the whole. */
  lemma {:induction false} NoOccurrenceInTail(d: string, tail: string)
    requires |d| > 0 && forall k :: 0 < k ==> !OccursAt(d + tail, d, k)
    ensures !Contains(tail, d)
  {
    var p := d + tail;
    forall k | 0 <= k && k + |d| <= |tail|
      ensures !OccursAt(tail, d, k)
    {
      assert tail[k..k + |d|] == p[|d| + k..|d| + k + |d|];
      assert !OccursAt(p, d, |d| + k);
    }
    ContainsMeans(tail, d);
  }

  /** A leading `d` with no other occurrence after it is the only deletion. */
  lemma {:induction false} DeleteLeadingOnce(d: string, tail: string)
    requires |d| > 0 && !Contains(tail, d)
    ensures Replace(d + tail, d, []) == tail
  {
    var p := d + tail;
    assert p[..|d|] == d && p[|d|..] == tail;
    FindIsFirst(p, d, 0);
    ReplaceAbsent(tail, d, []);
  }

  /** Deleting every occurrence of the input path also cuts it out of the
      names below it: for the input directory `d` and the file
      `d/d<x>` (such as `docs/docs-old/a.md`), `render.py` yields `x`
      (`-old/a.md`) where the relative path is `d<x>` (`docs-old/a.md`). */
  lemma RelativePathAsWrittenLosesPrefix(d: string, x: string)
    requires |d| > 0 && !IsSeparator(d[0])
    requires Find(x, d).None?
    requires |x| == 0 || !IsSeparator(x[0])
    ensures RelativePathAsWritten(d, d + "/" + d + x) == x
    ensures RelativePath(d, d + "/" + d + x) == d + x
    ensures RelativePathAsWritten(d, d + "/" + d + x) != RelativePath(d, d + "/" + d + x)
  {
    DeleteTwice(d, x);
    TrimAfterSlash(x);
    RelativePathOfNested(d, x);
    assert |d + x| > |x|;
  }

  /** The relative path of `d/d<x>` keeps the second `d`. */
  lemma RelativePathOfNested(d: string, x: string)
    requires |d| > 0 && !IsSeparator(d[0])
    ensures RelativePath(d, d + "/" + d + x) == d + x
  {
    var p := d + "/" + d + x;
    assert p[..|d|] == d && p[|d|..] == "/" + (d + x);
    TrimAfterSlash(d + x);
  }

  /** One leading slash is trimmed. */
  lemma TrimAfterSlash(y: string)
    requires |y| == 0 || !IsSeparator(y[0])
    ensures TrimSeparators("/" + y) == y
  {
    assert ("/" + y)[1..] == y;
  }

  /** In `d/d<x>`, both copies of `d` are deleted. */
  lemma DeleteTwice(d: string, x: string)
    requires |d| > 0 && d[0] != '/'
    requires Find(x, d).None?
    ensures Replace(d + "/" + d + x, d, []) == "/" + x
  {
    var rest := "/" + d + x;
    var p := d + rest;
    assert p == d + "/" + d + x;
    assert p[..|d|] == d && p[|d|..] == rest;
    FindIsFirst(p, d, 0);
    DeleteAfterSlash(d, x);
  }

  /** In `/d<x>`, the one copy of `d` is deleted. */
  lemma DeleteAfterSlash(d: string, x: string)
    requires |d| > 0 && d[0] != '/'
    requires Find(x, d).None?
    ensures Replace("/" + d + x, d, []) == "/" + x
  {
    var rest := "/" + d + x;
    assert rest[1..1 + |d|] == d && rest[1 + |d|..] == x && rest[..1] == "/";
    assert !OccursAt(rest, d, 0) by { assert rest[0] != d[0]; }
    FindIsFirst(rest, d, 1);
    assert Replace(x, d, []) == x;
  }

  // ----------------------------------------------------------------- page

  /** The context the template is filled with. */
  datatype Page = Page(path: string, lang: string, description: string, root: string, favicon: string,
                       title: string, modules: map<string, string>, content: string, metaTags: string)

  /** `process_markdown_file`: the page for the raw text of a Markdown file.
      `relDir` is the file's directory relative to the input directory and
      `defaultImage` tells whether the site has a default social image. */
  function ProcessMarkdownFile(raw: string, filePath: string, outputFile: string, registry: map<string, string>,
                               relDir: string, urlroot: string, favicon: string, siteTitle: string,
                               defaultImage: bool, convert: (string, string) -> string): (p: Page)
    ensures p.lang == "en" && p.root == urlroot && p.modules == registry
    ensures p.path == PagePath(outputFile) && EndsWith(p.path, ".html") && ' ' !in p.path
    ensures p.title == PageTitle(Helpers.GetFirstTitle(raw), siteTitle) && StartsWith(p.title, Helpers.GetFirstTitle(raw))
    ensures p.description == Helpers.ExtractFirstParagraph(p.content)
    ensures p.metaTags == Helpers.ImageMetaTags(raw, relDir, Helpers.GetFirstTitle(raw), urlroot, defaultImage)
    ensures p.content == convert(StripMeta(IncludeModules(raw, registry)), Paths.Dirname(filePath))
    ensures |p.description| <= Helpers.MaxDescription
    ensures |p.description| == 0 || |p.description| >= Helpers.MinDescription
    ensures Helpers.EmojiOf(p.favicon) == Some(favicon)
  {
    var title := Helpers.GetFirstTitle(raw);
    var body := convert(StripMeta(IncludeModules(raw, registry)), Paths.Dirname(filePath));
    Helpers.EmojiHrefRoundTrip(favicon, []);
    Page(PagePath(outputFile), "en", Helpers.ExtractFirstParagraph(body), urlroot, Helpers.EmojiHref(favicon),
         PageTitle(title, siteTitle), registry, body,
         Helpers.ImageMetaTags(raw, relDir, title, urlroot, defaultImage))
  }

  /** The social image is chosen from the raw text: a marked image is used
      even though stripping removes the marker line from the page body. */
  lemma OverrideMarkerSeenBeforeStripping(before: string, after: string, relDir: string, urlroot: string, defaultImage: bool)
    requires |after| == 0 || after[0] == '\n'
    requires Helpers.FirstImage(before + "\n" + Helpers.OverrideMarker + after, 0).Some?
    ensures var raw := before + "\n" + Helpers.OverrideMarker + after;
      var img := Helpers.FirstImage(raw, 0).value;
      Helpers.ImageUrl(raw, relDir, urlroot, defaultImage).Some?
      && EndsWith(Helpers.ImageUrl(raw, relDir, urlroot, defaultImage).value, img)
      && StripMeta(raw) == StripMeta(before) + StripMeta(after)
  {
    MarkerLineIsContained(before, after);
    MarkerLineIsStripped(before, after);
  }

  /** The marker line is found in the raw text. */
  lemma MarkerLineIsContained(before: string, after: string)
    ensures Contains(before + "\n" + Helpers.OverrideMarker + after, Helpers.OverrideMarker)
  {
    var raw := before + "\n" + Helpers.OverrideMarker + after;
    var i := |before| + 1;
    assert raw[i..i + |Helpers.OverrideMarker|] == Helpers.OverrideMarker;
    assert OccursAt(raw, Helpers.OverrideMarker, i);
    ContainsMeans(raw, Helpers.OverrideMarker);
  }

  /** The marker line is a meta line, so stripping drops it. */
  lemma MarkerLineIsStripped(before: string, after: string)
    requires |after| == 0 || after[0] == '\n'
    ensures StripMeta(before + "\n" + Helpers.OverrideMarker + after) == StripMeta(before) + StripMeta(after)
  {
    var m := Helpers.OverrideMarker;
    assert m[0] == '!' && m[1] == ' ' && '\n' !in m;
    MetaLineIsStripped(before, m, after);
  }

  /** A meta line in the middle of the text is removed with its line break. */
  lemma MetaLineIsStripped(before: string, m: string, after: string)
    requires |m| >= 3 && m[0] == '!' && m[1] == ' ' && '\n' !in m
    requires |after| == 0 || after[0] == '\n'
    ensures StripMeta(before + "\n" + m + after) == StripMeta(before) + StripMeta(after)
  {
    var line := "\n" + m + after;
    assert before + "\n" + m + after == before + line;
    StripMetaJoin(before, line);
    StripMetaLine(m, after);
  }

  // ------------------------------------------------------- preview links

  /** A post's preview link and its page agree: for `stem.ext` with a
      Markdown extension in any letter case, both end in the hyphenated
      stem plus `.html`. */
  lemma PreviewLinkMatchesPage(target: string, relpath: string, dir: string, stem: string, ext: string)
    requires '/' !in stem && exists k :: 0 <= k < |stem| && stem[k] != '.'
    requires |ext| >= 1 && ext[0] == '.' && '/' !in ext && '.' !in ext[1..]
    requires Lower(ext) == ".md"
    ensures Preview.Href(target, relpath, stem + ext) == target + "/" + relpath + "/" + Paths.Hyphenate(stem) + ".html"
    ensures PagePath(dir + stem + ext) == Paths.Hyphenate(dir + stem) + ".html"
  {
    Preview.HrefOfPost(target, relpath, stem, ext);
    PagePathOf(dir, stem, ext);
  }

  /** With the exact `.md` test of `markdownTags.py`, a post whose extension is `.md`
      in another letter case (such as `a.MD`) is admitted to the listing but
      linked with its own extension, although its page is written as `.html`. */
  lemma UppercaseMarkdownLinkAsWritten(target: string, relpath: string, dir: string, stem: string, ext: string)
    requires '/' !in stem && exists k :: 0 <= k < |stem| && stem[k] != '.'
    requires |ext| >= 1 && ext[0] == '.' && '/' !in ext && '.' !in ext[1..]
    requires Lower(ext) == ".md" && ext != ".md"
    ensures Preview.IsMarkdown(stem + ext)
    ensures Preview.HrefAsWritten(target, relpath, stem + ext) == target + "/" + relpath + "/" + Paths.Hyphenate(stem) + ext
    ensures PagePath(dir + stem + ext) == Paths.Hyphenate(dir + stem) + ".html"
    ensures Preview.HrefAsWritten(target, relpath, stem + ext) != Preview.Href(target, relpath, stem + ext)
  {
    Preview.HrefOfPost(target, relpath, stem, ext);
    PagePathOf(dir, stem, ext);
    LowerEndsWith(stem, ext);
    assert |ext| != |".html"|;
  }

  /** Lower-casing works character by character, so it keeps a suffix. */
  lemma LowerEndsWith(stem: string, ext: string)
    ensures EndsWith(Lower(stem + ext), Lower(ext))
  {
    var l := Lower(stem + ext);
    assert l[|stem|..] == Lower(ext) by {
      forall i | 0 <= i < |ext|
        ensures l[|stem|..][i] == Lower(ext)[i]
      {
        assert (stem + ext)[|stem| + i] == ext[i];
      }
    }
  }
}
