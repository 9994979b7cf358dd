/** The local file name a downloaded installer is saved under (main.py,
    `download_and_run_installer`): the last path segment of the URL without its query string,
    with ".exe" added unless it already ends in ".exe" or ".msi" in any letter case. */
module Installer {
  import Text

  /** The path separators of Windows paths, where the launcher runs. */
  predicate IsSeparator(c: char) {
    c == '/' || c == '\\'
  }

  predicate NoSeparator(s: string) {
    forall k :: 0 <= k < |s| ==> !IsSeparator(s[k])
  }

  predicate NoQuestionMark(s: string) {
    forall k :: 0 <= k < |s| ==> s[k] != '?'
  }

  /** Index of the first '?' of `url`, or its length when there is none. */
  function QueryStart(url: string): (n: nat)
    ensures n <= |url|
    ensures NoQuestionMark(url[..n])
    ensures n == |url| || url[n] == '?'
  {
    if url == [] || url[0] == '?' then 0
    else
      var n := QueryStart(url[1..]);
      assert url[1..][..n] == url[1..n + 1];
      1 + n
  }

  /** Index just after the last separator of `path`, or 0 when there is none. */
  function SegmentStart(path: string): (n: nat)
    ensures n <= |path|
    ensures NoSeparator(path[n..])
    ensures n == 0 || IsSeparator(path[n - 1])
  {
    if path == [] || IsSeparator(path[|path| - 1]) then |path|
    else
      var n := SegmentStart(path[..|path| - 1]);
      assert path[n..] == path[..|path| - 1][n..] + [path[|path| - 1]];
      n
  }

  /** `url.split('?')[0]` */
  function BeforeQuery(url: string): string {
    url[..QueryStart(url)]
  }

  /** `os.path.basename(path)` on Windows. */
  function Basename(path: string): string {
    path[SegmentStart(path)..]
  }

  const Exe: string := ".exe"
  const Msi: string := ".msi"

  /** `name.lower().endswith(('.exe', '.msi'))` */
  predicate HasInstallerExtension(name: string) {
    Text.EndsWith(Text.Lower(name), Exe) || Text.EndsWith(Text.Lower(name), Msi)
  }

  /** The file name the installer is saved under. It always carries an installer extension and
      never a separator or '?'. */
  function InferFilename(url: string): (name: string)
    ensures HasInstallerExtension(name)
    ensures NoSeparator(name) && NoQuestionMark(name)
  {
    var base := Basename(BeforeQuery(url));
    SegmentIsPlain(url);
    if HasInstallerExtension(base) then base
    else
      FallbackAddsExtension(base);
      base + Exe
  }

  /** The last segment of the text before the query holds neither a separator nor a '?'. */
  lemma SegmentIsPlain(url: string)
    ensures NoSeparator(Basename(BeforeQuery(url)))
    ensures NoQuestionMark(Basename(BeforeQuery(url)))
  {
    var q := BeforeQuery(url);
    var s := SegmentStart(q);
    assert forall k :: 0 <= k < |q| - s ==> q[s..][k] == q[s + k];
  }

  lemma FallbackAddsExtension(base: string)
    requires NoSeparator(base) && NoQuestionMark(base)
    ensures HasInstallerExtension(base + Exe)
    ensures NoSeparator(base + Exe) && NoQuestionMark(base + Exe)
  {
    ExeIsPlain();
    EndsWithLowerSuffix(base, Exe);
    AppendKeepsPlain(base, Exe);
  }

  lemma ExeIsPlain()
    ensures Text.Lower(Exe) == Exe
    ensures NoSeparator(Exe) && NoQuestionMark(Exe)
  {
  }

  lemma EndsWithLowerSuffix(base: string, suffix: string)
    requires Text.Lower(suffix) == suffix
    ensures Text.EndsWith(Text.Lower(base + suffix), suffix)
  {
    Text.LowerAppend(base, suffix);
    var l := Text.Lower(base + suffix);
    assert l == Text.Lower(base) + suffix;
    assert l[|l| - |suffix|..] == suffix;
  }

  lemma AppendKeepsPlain(a: string, b: string)
    requires NoSeparator(a) && NoQuestionMark(a)
    requires NoSeparator(b) && NoQuestionMark(b)
    ensures NoSeparator(a + b) && NoQuestionMark(a + b)
  {
  }

  /** `url` is `dir + base + rest`: `rest` is empty or the query string from the first '?', `dir`
      is empty or ends with a separator, and `base` holds no separator; neither holds a '?'. */
  predicate Decomposes(url: string, dir: string, base: string, rest: string) {
    && url == dir + base + rest
    && NoQuestionMark(dir) && NoQuestionMark(base)
    && (rest == [] || rest[0] == '?')
    && (dir == [] || IsSeparator(dir[|dir| - 1]))
    && NoSeparator(base)
  }

  /** The file name is the URL's last path segment before the query, with ".exe" appended exactly
      when that segment lacks an installer extension. */
  lemma InferFilenameSegment(url: string)
    ensures exists dir, base, rest :: Decomposes(url, dir, base, rest)
              && InferFilename(url) == (if HasInstallerExtension(base) then base else base + Exe)
  {
    var e := QueryStart(url);
    var q := url[..e];
    var s := SegmentStart(q);
    SegmentDecomposes(url, e, s);
    assert Decomposes(url, url[..s], url[s..e], url[e..]);
    assert url[s..e] == Basename(BeforeQuery(url));
  }

  /** The indices `InferFilename` computes split the URL as `Decomposes` describes. */
  lemma SegmentDecomposes(url: string, e: nat, s: nat)
    requires e == QueryStart(url) && s == SegmentStart(url[..e])
    ensures s <= e <= |url|
    ensures Decomposes(url, url[..s], url[s..e], url[e..])
  {
    SplitAt(url, e, s);
  }

  lemma SplitAt(url: string, e: nat, s: nat)
    requires s <= e <= |url|
    requires NoQuestionMark(url[..e]) && (e == |url| || url[e] == '?')
    requires NoSeparator(url[..e][s..]) && (s == 0 || IsSeparator(url[..e][s - 1]))
    ensures Decomposes(url, url[..s], url[s..e], url[e..])
  {
    var q := url[..e];
    assert url == url[..s] + url[s..e] + url[e..];
    assert q[s..] == url[s..e];
    assert NoQuestionMark(url[..s]) by {
      forall k | 0 <= k < s ensures url[..s][k] != '?' {
        assert url[..s][k] == q[k];
      }
    }
    assert NoQuestionMark(url[s..e]) by {
      forall k | 0 <= k < e - s ensures url[s..e][k] != '?' {
        assert url[s..e][k] == q[s + k];
      }
    }
    assert s == 0 || IsSeparator(url[..s][s - 1]) by {
      if s > 0 {
        assert url[..s][s - 1] == q[s - 1];
      }
    }
  }

  /** The decomposition is unique, so the segment named above is determined by the URL. */
  lemma DecompositionIsUnique(url: string, d1: string, b1: string, r1: string, d2: string, b2: string, r2: string)
    requires Decomposes(url, d1, b1, r1) && Decomposes(url, d2, b2, r2)
    ensures d1 == d2 && b1 == b2 && r1 == r2
  {
    QueryStartIsUnique(url, d1 + b1, r1, d2 + b2, r2);
    LastSegmentIsUnique(d1 + b1, d1, b1, d2, b2);
  }

  lemma QueryStartIsUnique(url: string, p1: string, r1: string, p2: string, r2: string)
    requires url == p1 + r1 && url == p2 + r2
    requires NoQuestionMark(p1) && NoQuestionMark(p2)
    requires (r1 == [] || r1[0] == '?') && (r2 == [] || r2[0] == '?')
    ensures p1 == p2 && r1 == r2
  {
    assert p1 == url[..|p1|] && p2 == url[..|p2|];
  }

  lemma LastSegmentIsUnique(p: string, d1: string, b1: string, d2: string, b2: string)
    requires p == d1 + b1 && p == d2 + b2
    requires (d1 == [] || IsSeparator(d1[|d1| - 1])) && NoSeparator(b1)
    requires (d2 == [] || IsSeparator(d2[|d2| - 1])) && NoSeparator(b2)
    ensures d1 == d2 && b1 == b2
  {
    assert d1 == p[..|d1|] && d2 == p[..|d2|];
  }

  /** A name that already has an installer extension and holds no separator or '?' is kept as
      it is. */
  lemma KeepsPlainInstallerName(name: string)
    requires NoSeparator(name) && NoQuestionMark(name) && HasInstallerExtension(name)
    ensures InferFilename(name) == name
  {
    PlainTextIsItsOwnSegment(name);
  }

  lemma PlainTextIsItsOwnSegment(s: string)
    requires NoSeparator(s) && NoQuestionMark(s)
    ensures Basename(BeforeQuery(s)) == s
  {
    PlainTextHasNoQuery(s);
    assert BeforeQuery(s) == s;
    PlainTextIsOneSegment(s);
  }

  /** Inferring a name from an inferred name changes nothing. */
  lemma InferFilenameIdempotent(url: string)
    ensures InferFilename(InferFilename(url)) == InferFilename(url)
  {
    KeepsPlainInstallerName(InferFilename(url));
  }

  lemma PlainTextHasNoQuery(s: string)
    requires NoQuestionMark(s)
    ensures QueryStart(s) == |s|
  {
  }

  lemma PlainTextIsOneSegment(s: string)
    requires NoSeparator(s)
    ensures SegmentStart(s) == 0
  {
  }
}
