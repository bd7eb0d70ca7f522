/**
 * The `os.path` functions (POSIX flavour) the generator applies to file names,
 * plus the space/comma-to-hyphen rule it applies to generated links and
 * output paths.
 */
module Paths {
  import opened Str

  /** `s.rfind(c)`: index of the last `c`, or -1. */
  function RFind(s: string, c: char): (r: int)
    ensures -1 <= r < |s|
    ensures r >= 0 ==> s[r] == c
    ensures forall j :: r < j < |s| ==> s[j] != c
  {
    if |s| == 0 then -1
    else if s[|s| - 1] == c then |s| - 1
    else RFind(s[..|s| - 1], c)
  }

  /** `os.path.basename`: everything after the last '/'. */
  function Basename(p: string): (r: string)
    ensures '/' !in r
    ensures EndsWith(p, r)
    ensures |r| < |p| ==> p[|p| - |r| - 1] == '/'
  {
    var i := RFind(p, '/');
    var r := p[i + 1..];
    NoCharAfter(p, '/', i + 1);
    r
  }

  /** A suffix holding none of the characters it is cut from. */
  lemma NoCharAfter(p: string, c: char, lo: nat)
    requires lo <= |p|
    requires forall j :: lo <= j < |p| ==> p[j] != c
    ensures c !in p[lo..]
  {
    var r := p[lo..];
    forall j | 0 <= j < |r|
      ensures r[j] != c
    {
      assert r[j] == p[lo + j];
    }
  }

  /** Some character of `p[lo..hi]` is not a dot. */
  predicate HasNonDot(p: string, lo: int, hi: int)
    requires 0 <= lo <= hi <= |p|
  {
    exists k :: lo <= k < hi && p[k] != '.'
  }

  /** `os.path.splitext`: the extension is the text from the last dot of the
      last path component, unless that component is only dots up to there
      (a leading-dot name such as `.bashrc` has no extension). */
  function SplitExt(p: string): (r: (string, string))
    ensures r.0 + r.1 == p
    ensures r.1 == [] || (r.1[0] == '.' && '/' !in r.1 && '.' !in r.1[1..])
  {
    var sepIndex := RFind(p, '/');
    var dotIndex := RFind(p, '.');
    if dotIndex > sepIndex && HasNonDot(p, sepIndex + 1, dotIndex) then
      assert p[..dotIndex] + p[dotIndex..] == p;
      (p[..dotIndex], p[dotIndex..])
    else
      (p, [])
  }

  /** `os.path.join(a, b)`: an absolute `b` replaces `a`; otherwise a '/' is
      inserted unless `a` is empty or already ends with one. */
  function PathJoin(a: string, b: string): (r: string)
    ensures EndsWith(r, b)
  {
    if StartsWith(b, "/") then b
    else if |a| == 0 || EndsWith(a, "/") then a + b
    else a + "/" + b
  }

  /** The generator's link/path normalisation: `', '` and then `' '` become `'-'`. */
  function Hyphenate(x: string): (r: string)
    ensures ' ' !in r
  {
    var once := Replace(x, ", ", "-");
    ReplaceCharRemoves(once, ' ', "-");
    Replace(once, " ", "-")
  }

  /** Text without spaces contains no `", "`. */
  lemma NoCommaSpace(x: string)
    requires ' ' !in x
    ensures !Contains(x, ", ")
  {
    forall i
      ensures !OccursAt(x, ", ", i)
    {
      if 0 <= i && i + 2 <= |x| {
        assert x[i..i + 2][1] == x[i + 1];
      }
    }
  }

  /** Text without spaces contains no `" "`. */
  lemma NoSpace(x: string)
    requires ' ' !in x
    ensures !Contains(x, " ")
  {
    forall i
      ensures !OccursAt(x, " ", i)
    {
      if 0 <= i && i + 1 <= |x| {
        assert x[i..i + 1][0] == x[i];
      }
    }
  }

  /** A name that has no spaces is not changed by normalisation. */
  lemma HyphenateKeepsSpaceless(x: string)
    requires ' ' !in x
    ensures Hyphenate(x) == x
  {
    NoCommaSpace(x);
    ReplaceAbsent(x, ", ", "-");
    NoSpace(x);
    ReplaceAbsent(x, " ", "-");
  }

  /** Normalising is idempotent: a normalised name is its own normal form. */
  lemma HyphenateIdempotent(x: string)
    ensures Hyphenate(Hyphenate(x)) == Hyphenate(x)
  {
    HyphenateKeepsSpaceless(Hyphenate(x));
  }

  /** A path whose last component is a stem and a one-dot extension splits
      back into them, provided the stem has a character that is not a dot. */
  lemma SplitExtOf(dir: string, stem: string, ext: string)
    requires '/' !in stem && exists k :: 0 <= k < |stem| && stem[k] != '.'
    requires |ext| >= 1 && ext[0] == '.' && '/' !in ext && '.' !in ext[1..]
    ensures SplitExt(dir + stem + ext) == (dir + stem, ext)
  {
    var p := dir + stem + ext;
    var m := |dir| + |stem|;
    var k :| 0 <= k < |stem| && stem[k] != '.';
    assert p[m] == '.';
    forall j | m < j < |p|
      ensures p[j] != '.' && p[j] != '/'
    {
      assert p[j] == ext[j - m] == ext[1..][j - m - 1];
    }
    forall j | |dir| <= j < |p|
      ensures p[j] != '/'
    {
      if j < m { assert p[j] == stem[j - |dir|]; } else { assert p[j] == ext[j - m]; }
    }
    assert RFind(p, '.') == m;
    assert RFind(p, '/') < |dir|;
    assert p[|dir| + k] == stem[k];
    assert HasNonDot(p, RFind(p, '/') + 1, m);
    assert p[..m] == dir + stem && p[m..] == ext;
  }

  /** `head.rstrip('/')` */
  function RStripSlashes(s: string): (r: string)
    ensures |r| <= |s| && r == s[..|r|]
    ensures forall j :: |r| <= j < |s| ==> s[j] == '/'
    ensures |r| == 0 || r[|r| - 1] != '/'
  {
    if |s| > 0 && s[|s| - 1] == '/' then RStripSlashes(s[..|s| - 1]) else s
  }

  /** `os.path.dirname`: everything up to the last '/', with trailing slashes
      removed unless the head is made of slashes only. */
  function Dirname(p: string): (r: string)
    ensures StartsWith(p, r)
  {
    var head := p[..RFind(p, '/') + 1];
    if exists k :: 0 <= k < |head| && head[k] != '/' then
      var r := RStripSlashes(head);
      assert p[..|r|] == head[..|r|];
      r
    else head
  }

  /** The directory of a name joined under a directory is that directory. */
  lemma DirnameOfJoin(dir: string, name: string)
    requires |dir| > 0 && dir[|dir| - 1] != '/' && '/' !in name
    ensures Dirname(PathJoin(dir, name)) == dir
  {
    var p := dir + "/" + name;
    assert !StartsWith(name, "/") by {
      if |name| > 0 { assert name[0] in name; }
    }
    assert !EndsWith(dir, "/") by {
      assert dir[|dir| - 1..] == [dir[|dir| - 1]];
    }
    assert PathJoin(dir, name) == p;
    forall j | |dir| < j < |p|
      ensures p[j] != '/'
    {
      assert p[j] == name[j - |dir| - 1];
    }
    assert p[|dir|] == '/';
    assert RFind(p, '/') == |dir|;
    var head := p[..|dir| + 1];
    assert head == dir + "/";
    assert head[|dir| - 1] != '/';
    assert RStripSlashes(head) == RStripSlashes(dir);
    assert RStripSlashes(dir) == dir;
  }
}
