/**
 * Node's `path.posix.join` and `path.posix.normalize`, which both glob
 * builders hand their components to. The arguments that are not empty are
 * joined with `/`; the result is split on `/`, empty and `.` segments are
 * dropped, `..` cancels the segment before it (or is kept, for a relative
 * path that climbs above its start), and the leading and trailing slash
 * are put back.
 */
module PosixPath {
  import opened Text

  /** A segment naming a directory entry: not empty, no `/`, neither `.` nor `..`. */
  predicate PlainSegment(s: string) {
    s != "" && s != "." && s != ".." && '/' !in s
  }

  /** One segment of `normalizeString`, pushed onto the segments kept so far. */
  function Push(stack: seq<string>, seg: string, allowAboveRoot: bool): seq<string> {
    if seg == "" || seg == "." then stack
    else if seg == ".." then
      if |stack| > 0 && stack[|stack| - 1] != ".." then stack[..|stack| - 1]
      else if allowAboveRoot then stack + [".."]
      else stack
    else stack + [seg]
  }

  /** The segments `normalizeString` keeps of `segs`, walking left to right. */
  function Resolve(segs: seq<string>, allowAboveRoot: bool): seq<string> {
    if |segs| == 0 then [] else Push(Resolve(segs[..|segs| - 1], allowAboveRoot), segs[|segs| - 1], allowAboveRoot)
  }

  /** `path.posix.normalize`. */
  function Normalize(p: string): (r: string)
    ensures r != ""
  {
    if p == "" then "."
    else
      var isAbsolute := p[0] == '/';
      var trailingSeparator := p[|p| - 1] == '/';
      var body := Join(Resolve(Split(p, '/'), !isAbsolute), "/");
      if body == "" then (if isAbsolute then "/" else if trailingSeparator then "./" else ".")
      else
        var withTrailing := if trailingSeparator then body + "/" else body;
        if isAbsolute then "/" + withTrailing else withTrailing
  }

  /** The arguments that are not empty, in order. */
  function NonEmpty(args: seq<string>): (r: seq<string>)
    ensures forall i | 0 <= i < |r| :: r[i] != ""
    ensures forall i | 0 <= i < |r| :: r[i] in args
  {
    if |args| == 0 then []
    else
      var rest := NonEmpty(args[1..]);
      assert forall i | 0 <= i < |rest| :: rest[i] in args by {
        assert forall x | x in args[1..] :: x in args;
      }
      if args[0] == "" then rest else [args[0]] + rest
  }

  /** `path.posix.join(...args)`. */
  function PosixJoin(args: seq<string>): (r: string)
    ensures r != ""
  {
    var parts := NonEmpty(args);
    if |parts| == 0 then "." else Normalize(Join(parts, "/"))
  }

  /** Plain segments all survive, in order. */
  lemma {:induction false} ResolvePlain(segs: seq<string>, allowAboveRoot: bool)
    requires forall i | 0 <= i < |segs| :: PlainSegment(segs[i])
    ensures Resolve(segs, allowAboveRoot) == segs
  {
    if |segs| > 0 {
      var init := segs[..|segs| - 1];
      ResolvePlain(init, allowAboveRoot);
      assert init + [segs[|segs| - 1]] == segs;
    }
  }

  /**
   * Every segment kept is one of the input's, other than an empty one or
   * `.`, or a `..` that only a relative path keeps.
   */
  lemma {:induction false} ResolveFrom(segs: seq<string>, allowAboveRoot: bool)
    ensures forall i | 0 <= i < |Resolve(segs, allowAboveRoot)| ::
      var s := Resolve(segs, allowAboveRoot)[i];
      s != "" && s != "." && (s in segs || (allowAboveRoot && s == ".."))
  {
    if |segs| > 0 {
      var init := segs[..|segs| - 1];
      ResolveFrom(init, allowAboveRoot);
      assert forall x | x in init :: x in segs;
      assert segs[|segs| - 1] in segs;
    }
  }

  /** Arguments that are all non-empty are all kept. */
  lemma {:induction false} NonEmptyAll(args: seq<string>)
    requires forall i | 0 <= i < |args| :: args[i] != ""
    ensures NonEmpty(args) == args
  {
    if |args| > 0 {
      NonEmptyAll(args[1..]);
      assert [args[0]] + args[1..] == args;
    }
  }

  /** Normalizing a relative path of plain segments gives it back. */
  lemma NormalizePlain(segs: seq<string>)
    requires |segs| > 0
    requires forall i | 0 <= i < |segs| :: PlainSegment(segs[i])
    ensures Normalize(Join(segs, "/")) == Join(segs, "/")
  {
    var p := Join(segs, "/");
    JoinFirst(segs, "/");
    JoinLast(segs, "/");
    assert segs[0][0] in segs[0];
    var last := segs[|segs| - 1];
    assert last[|last| - 1] in last;
    SplitJoin(segs, '/');
    ResolvePlain(segs, true);
  }

  /** Joining plain segments is joining them with `/`. */
  lemma PosixJoinPlain(args: seq<string>)
    requires |args| > 0
    requires forall i | 0 <= i < |args| :: PlainSegment(args[i])
    ensures PosixJoin(args) == Join(args, "/")
  {
    NonEmptyAll(args);
    NormalizePlain(args);
  }

  /** A character other than `/` and `.` that the path lacks, normalizing does not introduce. */
  lemma NormalizeLacks(p: string, d: char)
    requires d != '/' && d != '.' && d !in p
    ensures d !in Normalize(p)
  {
    if p != "" {
      var absolute := p[0] == '/';
      var segs := Split(p, '/');
      SplitLacks(p, '/', d);
      ResolveFrom(segs, !absolute);
      var kept := Resolve(segs, !absolute);
      forall i | 0 <= i < |kept| ensures d !in kept[i] {
        if kept[i] != ".." {
          var j :| 0 <= j < |segs| && segs[j] == kept[i];
        }
      }
      JoinLacks(kept, "/", d);
    }
  }

  /** A character other than `/` and `.` that no argument holds, the joined path does not hold. */
  lemma PosixJoinLacks(args: seq<string>, d: char)
    requires d != '/' && d != '.'
    requires forall i | 0 <= i < |args| :: d !in args[i]
    ensures d !in PosixJoin(args)
  {
    var parts := NonEmpty(args);
    if |parts| > 0 {
      forall i | 0 <= i < |parts| ensures d !in parts[i] {
        var j :| 0 <= j < |args| && args[j] == parts[i];
      }
      JoinLacks(parts, "/", d);
      NormalizeLacks(Join(parts, "/"), d);
    }
  }
}
