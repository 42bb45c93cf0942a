/**
 * Node's `path.posix.extname` and `path.posix.basename`: both read the last
 * segment of the path (trailing slashes ignored). The extension runs from
 * the segment's last dot, unless that dot opens the segment or the segment
 * is `..`; the base name drops a given suffix when the segment ends with it
 * and is longer than it.
 */
module PathParts {
  import opened Base
  import opened Text

  /** The path without its trailing slashes. */
  function TrimSlashes(p: string): (r: string)
    ensures |r| <= |p| && r == p[..|r|]
    ensures |r| > 0 ==> r[|r| - 1] != '/'
  {
    if |p| > 0 && p[|p| - 1] == '/' then TrimSlashes(p[..|p| - 1]) else p
  }

  /** The index of the last `c` in `s`. */
  function LastIndexOfChar(s: string, c: char): (r: Option<nat>)
    ensures r.Some? ==> r.value < |s| && s[r.value] == c && c !in s[r.value + 1..]
    ensures r.None? ==> c !in s
  {
    if |s| == 0 then None
    else if s[|s| - 1] == c then Some(|s| - 1)
    else
      var r := LastIndexOfChar(s[..|s| - 1], c);
      assert r.Some? ==> s[r.value + 1..] == s[..|s| - 1][r.value + 1..] + [s[|s| - 1]];
      assert r.None? ==> s == s[..|s| - 1] + [s[|s| - 1]];
      r
  }

  /** The last segment: what follows the last slash once trailing slashes are gone. */
  function LastSegment(p: string): (r: string)
    ensures '/' !in r && |r| <= |p|
  {
    var t := TrimSlashes(p);
    match LastIndexOfChar(t, '/')
    case None => t
    case Some(i) => t[i + 1..]
  }

  /** `path.extname(p)`. */
  function ExtName(p: string): string {
    var b := LastSegment(p);
    match LastIndexOfChar(b, '.')
    case None => ""
    case Some(i) => if i == 0 || b == ".." then "" else b[i..]
  }

  /** `path.basename(p, ext)`, always without trailing slashes. */
  function BaseName(p: string, ext: string): string {
    var b := LastSegment(p);
    if |ext| > 0 && ext == p then ""
    else if |ext| > 0 && EndsWith(b, ext) && b != ext then b[..|b| - |ext|]
    else b
  }

  /** An extension: a dot and then no dot and no slash. */
  predicate IsExtension(e: string) {
    |e| > 0 && e[0] == '.' && '.' !in e[1..] && '/' !in e
  }

  /** The extension is empty or a real extension that ends the last segment, after at least one other character. */
  lemma ExtNameSpec(p: string)
    ensures ExtName(p) == "" || IsExtension(ExtName(p))
    ensures ExtName(p) != "" ==> EndsWith(LastSegment(p), ExtName(p)) && |ExtName(p)| < |LastSegment(p)|
  {
    var b := LastSegment(p);
    match LastIndexOfChar(b, '.')
    case None =>
    case Some(i) =>
      if i != 0 && b != ".." {
        assert b[i..][1..] == b[i + 1..];
      }
  }

  /** A suffix shorter than the last segment is stripped from it and nothing else is. */
  lemma BaseNameStrips(p: string, ext: string)
    requires 0 < |ext| < |LastSegment(p)| && EndsWith(LastSegment(p), ext)
    ensures BaseName(p, ext) + ext == LastSegment(p)
  {
    var b := LastSegment(p);
    assert ext != p;
    assert b[..|b| - |ext|] + ext == b;
  }

  /** The base name without the extension, then the extension, give back the last segment. */
  lemma BaseNameExtName(p: string)
    ensures BaseName(p, ExtName(p)) + ExtName(p) == LastSegment(p)
  {
    ExtNameSpec(p);
    if ExtName(p) != "" {
      BaseNameStrips(p, ExtName(p));
    }
  }

  /** A segment that ends with an extension after something else has exactly that extension. */
  lemma ExtNameOfSegment(p: string, stem: string, e: string)
    requires IsExtension(e) && |stem| > 0 && stem + e != ".." && LastSegment(p) == stem + e
    ensures ExtName(p) == e
  {
    var b := LastSegment(p);
    var i := |stem|;
    assert b[i] == '.';
    assert b[i + 1..] == e[1..];
    var j := LastIndexOfChar(b, '.');
    assert j.Some?;
    assert j.value == i;
    assert b[i..] == e;
  }

  /** A path without slashes is its own last segment. */
  lemma LastSegmentPlain(p: string)
    requires '/' !in p
    ensures LastSegment(p) == p
  {
    assert |p| > 0 ==> p[|p| - 1] in p;
  }

  /** The base name lies within the last segment, so it has no slash either. */
  lemma BaseNamePlain(p: string, ext: string)
    ensures '/' !in BaseName(p, ext)
  {
    var b := LastSegment(p);
    if |ext| > 0 && ext != p && EndsWith(b, ext) && b != ext {
      assert forall c | c in b[..|b| - |ext|] :: c in b;
    }
  }

  /** A path has an extension of two or more characters exactly when its last segment ends with it after something else. */
  lemma ExtNameIff(p: string, e: string)
    requires IsExtension(e) && |e| > 1
    ensures ExtName(p) == e <==> |LastSegment(p)| > |e| && EndsWith(LastSegment(p), e)
  {
    var s := LastSegment(p);
    ExtNameSpec(p);
    if |s| > |e| && EndsWith(s, e) {
      var stem := s[..|s| - |e|];
      assert s == stem + e;
      ExtNameOfSegment(p, stem, e);
    }
  }
}
