/**
 * The method-block rewrite shared by the Smali patcher and the legacy
 * pinning remover. Both look for the regular expression
 *
 *   (\.method public (?:final )?SIG)\n([^]+?)\n(\.end method)
 *
 * with the global flag and replace every match by the opening line, the
 * replacement instructions and the old body commented out, all indented by
 * four spaces, with trailing whitespace trimmed from every line.
 */
module SmaliMethod {
  import opened Base
  import opened Text

  const MethodPrefix := ".method public "
  const FinalModifier := "final "
  const ClosingLine := ".end method"
  /** The `\n(\.end method)` that closes a match. */
  const Closing := "\n" + ClosingLine
  const Indentation := "    "
  const CommentPrefix := "# "
  const InsertedMarker := "# inserted by apk-mitm" + " to disable certificate pinning"
  const CommentedMarker := "# commented out by apk-mitm" + " to disable old method body"

  /**
   * One match of the pattern: `opening` and `body` are its first two groups
   * and the match ends (exclusively) at `end`.
   */
  datatype Block = Block(opening: string, body: string, end: nat)

  /**
   * The pattern built for one signature, given by the two opening lines it
   * accepts: the one with `final ` (tried first) and the one without, and by
   * the text the lazy body stops at.
   */
  datatype MethodPattern = MethodPattern(finalOpening: string, plainOpening: string, closing: string)

  /** `createMethodPattern(signature)`. */
  function CreateMethodPattern(sig: string): MethodPattern {
    MethodPattern(MethodPrefix + FinalModifier + sig, MethodPrefix + sig, Closing)
  }

  /**
   * `opening` followed by a line break starts at `i` and `closing` starts
   * at `b`, leaving at least one character of body in between.
   */
  predicate ClosesAt(t: string, i: nat, opening: string, closing: string, b: nat) {
    StartsAt(t, i, opening + "\n") && i + |opening| + 2 <= b && StartsAt(t, b, closing)
  }

  /** The lazy `([^]+?)`: `b` is the first closing after the opening at `i`. */
  predicate FirstClosing(t: string, i: nat, opening: string, closing: string, b: nat) {
    ClosesAt(t, i, opening, closing, b) && forall c: nat :: i + |opening| + 2 <= c < b ==> !StartsAt(t, c, closing)
  }

  /** Where the lazy body stops when the pattern matches at `i` with the given opening. */
  function ClosingAfter(t: string, i: nat, opening: string, closing: string): (r: Option<nat>)
    ensures r.Some? ==> FirstClosing(t, i, opening, closing, r.value)
    ensures r.None? ==> forall b: nat :: !ClosesAt(t, i, opening, closing, b)
  {
    if StartsAt(t, i, opening + "\n") then IndexOfFrom(t, closing, i + |opening| + 2) else None
  }

  /** The block that `opening` starts at `i`, cut at the first closing after it. */
  function BlockAt(t: string, i: nat, opening: string, closing: string): (r: Option<Block>)
    ensures r.Some? ==> i < r.value.end <= |t| && r.value.opening == opening
  {
    match ClosingAfter(t, i, opening, closing)
    case Some(b) => Some(Block(opening, t[i + |opening| + 1..b], b + |closing|))
    case None => None
  }

  /**
   * The match of the pattern at index `i`, if any: the `final ` alternative
   * is tried first and the plain one only when it fails.
   */
  function MatchAt(t: string, i: nat, pat: MethodPattern): (r: Option<Block>)
    ensures r.Some? ==> i < r.value.end <= |t|
  {
    var fin := BlockAt(t, i, pat.finalOpening, pat.closing);
    if fin.Some? then fin else BlockAt(t, i, pat.plainOpening, pat.closing)
  }

  /** The regular expression matches at `i`. */
  ghost predicate PatternAt(t: string, i: nat, pat: MethodPattern, bl: Block) {
    && bl.end >= |pat.closing|
    && (|| bl.opening == pat.finalOpening
        || (bl.opening == pat.plainOpening && forall b: nat :: !ClosesAt(t, i, pat.finalOpening, pat.closing, b)))
    && FirstClosing(t, i, bl.opening, pat.closing, bl.end - |pat.closing|)
    && bl.body == t[i + |bl.opening| + 1..bl.end - |pat.closing|]
  }

  /**
   * The search agrees with the regular expression's backtracking order, and
   * a match spans exactly `opening`, a line break, a non-empty body and the
   * closing line.
   */
  lemma MatchAtSpec(t: string, i: nat, pat: MethodPattern)
    ensures MatchAt(t, i, pat).Some? ==>
      var bl := MatchAt(t, i, pat).value;
      && PatternAt(t, i, pat, bl)
      && |bl.body| >= 1
      && t[i..bl.end] == BlockText(bl, pat.closing)
    ensures MatchAt(t, i, pat).None? ==>
      forall b: nat :: !ClosesAt(t, i, pat.finalOpening, pat.closing, b) && !ClosesAt(t, i, pat.plainOpening, pat.closing, b)
  {
    var fin := BlockAt(t, i, pat.finalOpening, pat.closing);
    BlockAtSpec(t, i, pat.finalOpening, pat.closing);
    if fin.Some? {
      assert MatchAt(t, i, pat) == fin;
    } else {
      BlockAtSpec(t, i, pat.plainOpening, pat.closing);
      assert MatchAt(t, i, pat) == BlockAt(t, i, pat.plainOpening, pat.closing);
    }
  }

  /** A block found at `i` spans exactly its parts; none is found when the opening never closes. */
  lemma BlockAtSpec(t: string, i: nat, opening: string, closing: string)
    ensures BlockAt(t, i, opening, closing).Some? ==>
      var bl := BlockAt(t, i, opening, closing).value;
      && bl.end >= |closing|
      && FirstClosing(t, i, opening, closing, bl.end - |closing|)
      && bl.body == t[i + |opening| + 1..bl.end - |closing|]
      && |bl.body| >= 1
      && t[i..bl.end] == BlockText(bl, closing)
    ensures BlockAt(t, i, opening, closing).None? ==> forall b: nat :: !ClosesAt(t, i, opening, closing, b)
  {
    match ClosingAfter(t, i, opening, closing)
    case Some(b) =>
      BlockSpan(t, i, opening, closing, b);
    case None =>
  }

  lemma BlockSpan(t: string, i: nat, opening: string, closing: string, b: nat)
    requires ClosesAt(t, i, opening, closing, b)
    ensures t[i..b + |closing|] == opening + "\n" + t[i + |opening| + 1..b] + closing
  {
    var o := i + |opening|;
    var e := b + |closing|;
    assert t[i..o + 1] == opening + "\n";
    assert t[b..e] == closing;
    assert t[i..e] == t[i..o + 1] + t[o + 1..e];
    assert t[o + 1..e] == t[o + 1..b] + t[b..e];
    AppendAssoc(t[i..o + 1], t[o + 1..b], t[b..e]);
  }

  /** `line.replace(/^    /, '')`: one level of indentation removed. */
  function Dedent(line: string): (r: string)
    ensures |r| <= |line| && r == line[|line| - |r|..]
  {
    if StartsWith(line, Indentation) then line[|Indentation|..] else line
  }

  function CommentOut(lines: seq<string>): (r: seq<string>)
    ensures |r| == |lines|
  {
    seq(|lines|, k requires 0 <= k < |lines| => CommentPrefix + Dedent(lines[k]))
  }

  function Indent(lines: seq<string>): (r: seq<string>)
    ensures |r| == |lines|
  {
    seq(|lines|, k requires 0 <= k < |lines| => Indentation + lines[k])
  }

  function TrimEach(lines: seq<string>): (r: seq<string>)
    ensures |r| == |lines|
  {
    seq(|lines|, k requires 0 <= k < |lines| => TrimEnd(lines[k]))
  }

  /** The new body: the marker, the replacement, a blank line, the second marker and the old body commented out. */
  function PatchedBodyLines(body: string, replacement: seq<string>): seq<string> {
    [InsertedMarker] + replacement + ["", CommentedMarker, CommentPrefix] + CommentOut(Split(body, '\n'))
  }

  function BlockLines(opening: string, body: string, replacement: seq<string>): seq<string> {
    [opening] + Indent(PatchedBodyLines(body, replacement)) + [ClosingLine]
  }

  /** The text a match is replaced with. */
  function RewriteBlock(opening: string, body: string, replacement: seq<string>): string {
    Join(TrimEach(BlockLines(opening, body, replacement)), "\n")
  }

  /** The span of text a match covers, up to and including `closing`. */
  function BlockText(bl: Block, closing: string): string {
    bl.opening + "\n" + bl.body + closing
  }

  /** The replacer handed to `replace`: it lays out each match with the lines `fix` chooses for its opening. */
  function Rewriter(fix: string -> seq<string>): Block -> string {
    (bl: Block) => RewriteBlock(bl.opening, bl.body, fix(bl.opening))
  }

  /** A fix that does not look at the opening line. */
  function ConstantFix(lines: seq<string>): string -> seq<string> {
    (_: string) => lines
  }

  /** Every match `m` reports ends after the index it starts at. */
  ghost predicate Advances(m: nat -> Option<Block>) {
    forall k: nat :: m(k).Some? ==> k < m(k).value.end
  }

  /**
   * The scan behind `t.replace(pattern, replacer)` from index `i` on, `m`
   * giving the pattern's match at each index: a match is replaced and the
   * scan resumes after it, every other character is copied.
   */
  function Scan(t: string, i: nat, m: nat -> Option<Block>, replacer: Block -> string): string
    requires Advances(m)
    decreases |t| - i
  {
    if i >= |t| then ""
    else match m(i)
      case Some(bl) => replacer(bl) + Scan(t, bl.end, m, replacer)
      case None => [t[i]] + Scan(t, i + 1, m, replacer)
  }

  /** The method pattern's match at each index of `t`. */
  function Matches(t: string, pat: MethodPattern): (m: nat -> Option<Block>)
    ensures Advances(m)
    ensures forall k: nat :: m(k) == MatchAt(t, k, pat)
  {
    (k: nat) => MatchAt(t, k, pat)
  }

  /** `t.replace(pattern, replacer)` with the global flag. */
  function ReplaceAll(t: string, pat: MethodPattern, replacer: Block -> string): string {
    Scan(t, 0, Matches(t, pat), replacer)
  }

  /** `m` reports a match at some index from `i` on. */
  ghost predicate HasMatchFrom(t: string, i: nat, m: nat -> Option<Block>) {
    exists k: nat :: i <= k < |t| && m(k).Some?
  }

  /** The text holds a method the pattern matches. */
  ghost predicate HasBlock(t: string, pat: MethodPattern) {
    exists k: nat :: k < |t| && MatchAt(t, k, pat).Some?
  }

  predicate FlatLines(lines: seq<string>) {
    forall k | 0 <= k < |lines| :: '\n' !in lines[k]
  }

  /** Every replacement `fix` may choose is free of line breaks. */
  ghost predicate FlatFix(fix: string -> seq<string>) {
    forall o: string :: FlatLines(fix(o))
  }

  /** Where `m` reports no match the character is copied. */
  lemma ScanSkips(t: string, i: nat, m: nat -> Option<Block>, replacer: Block -> string)
    requires Advances(m) && i < |t| && m(i).None?
    ensures Scan(t, i, m, replacer) == [t[i]] + Scan(t, i + 1, m, replacer)
  {
  }

  /** Text before the next match is copied unchanged. */
  lemma {:induction false} ScanCopies(t: string, i: nat, k: nat, m: nat -> Option<Block>, replacer: Block -> string)
    requires Advances(m)
    requires i <= k <= |t|
    requires forall j: nat :: i <= j < k ==> m(j).None?
    ensures Scan(t, i, m, replacer) == t[i..k] + Scan(t, k, m, replacer)
    decreases k - i
  {
    if i < k {
      ScanSkips(t, i, m, replacer);
      ScanCopies(t, i + 1, k, m, replacer);
      assert t[i..k] == [t[i]] + t[i + 1..k];
      AppendAssoc([t[i]], t[i + 1..k], Scan(t, k, m, replacer));
    }
  }

  /** Two replacers that agree on every match `m` reports give the same scan. */
  lemma {:induction false} ScanAgree(t: string, i: nat, m: nat -> Option<Block>, r1: Block -> string, r2: Block -> string)
    requires Advances(m)
    requires forall k: nat :: m(k).Some? ==> r1(m(k).value) == r2(m(k).value)
    decreases |t| - i
    ensures Scan(t, i, m, r1) == Scan(t, i, m, r2)
  {
    if i < |t| {
      match m(i)
      case Some(bl) =>
        ScanAgree(t, bl.end, m, r1, r2);
      case None =>
        ScanAgree(t, i + 1, m, r1, r2);
    }
  }

  /** Replacing with two replacers that agree on every block the pattern can match gives the same text. */
  lemma ReplaceAllAgree(t: string, pat: MethodPattern, r1: Block -> string, r2: Block -> string)
    requires forall bl: Block :: (bl.opening == pat.finalOpening || bl.opening == pat.plainOpening) ==> r1(bl) == r2(bl)
    ensures ReplaceAll(t, pat, r1) == ReplaceAll(t, pat, r2)
  {
    var m := Matches(t, pat);
    forall k: nat | m(k).Some? ensures r1(m(k).value) == r2(m(k).value) {
      MatchAtSpec(t, k, pat);
    }
    ScanAgree(t, 0, m, r1, r2);
  }

  /** A scan that meets no match gives the text back. */
  lemma ScanNoMatch(t: string, m: nat -> Option<Block>, replacer: Block -> string)
    requires Advances(m) && !HasMatchFrom(t, 0, m)
    ensures Scan(t, 0, m, replacer) == t
  {
    ScanCopies(t, 0, |t|, m, replacer);
    assert t[0..|t|] == t;
  }

  lemma MarkersFlat()
    ensures '\n' !in Indentation + InsertedMarker && '\n' !in Indentation + CommentedMarker
    ensures '\n' !in ClosingLine && '\n' !in Indentation + CommentPrefix && '\n' !in Indentation
    ensures '\n' !in MethodPrefix + FinalModifier && '\n' !in MethodPrefix
  {
    assert Lacks("# inserted by apk-mitm", '\n');
    assert Lacks(" to disable certificate pinning", '\n');
    assert Lacks("# commented out by apk-mitm", '\n');
    assert Lacks(" to disable old method body", '\n');
    assert Lacks(Indentation, '\n');
    LacksConcat("# inserted by apk-mitm", " to disable certificate pinning", '\n');
    LacksConcat("# commented out by apk-mitm", " to disable old method body", '\n');
    LacksConcat(Indentation, InsertedMarker, '\n');
    LacksConcat(Indentation, CommentedMarker, '\n');
    LacksIff(Indentation + InsertedMarker, '\n');
    LacksIff(Indentation + CommentedMarker, '\n');
    assert Lacks(ClosingLine, '\n');
    assert Lacks(Indentation + CommentPrefix, '\n');
    assert Lacks(MethodPrefix + FinalModifier, '\n');
    assert Lacks(MethodPrefix, '\n');
  }

  /** Every line of the rewrite is free of line breaks before it is joined. */
  lemma BlockLinesFlat(opening: string, body: string, replacement: seq<string>)
    requires '\n' !in opening && FlatLines(replacement)
    ensures FlatLines(TrimEach(BlockLines(opening, body, replacement)))
  {
    MarkersFlat();
    var parts := Split(body, '\n');
    var inner := PatchedBodyLines(body, replacement);
    var c := CommentOut(parts);
    forall k | 0 <= k < |c| ensures '\n' !in c[k] {
      assert c[k] == CommentPrefix + Dedent(parts[k]);
      assert '\n' !in parts[k];
    }
    assert FlatLines(inner) by {
      forall k | 0 <= k < |inner| ensures '\n' !in inner[k] {
        if k == 0 {
        } else if k <= |replacement| {
          assert inner[k] == replacement[k - 1];
        } else if k < |replacement| + 4 {
        } else {
          assert inner[k] == c[k - |replacement| - 4];
        }
      }
    }
    var ind := Indent(inner);
    assert FlatLines(ind) by {
      forall k | 0 <= k < |ind| ensures '\n' !in ind[k] {
        assert ind[k] == Indentation + inner[k];
      }
    }
    var lines := BlockLines(opening, body, replacement);
    assert FlatLines(lines) by {
      forall k | 0 <= k < |lines| ensures '\n' !in lines[k] {
        if 0 < k < |lines| - 1 {
          assert lines[k] == ind[k - 1];
        }
      }
    }
    var trimmed := TrimEach(lines);
    forall k | 0 <= k < |trimmed| ensures '\n' !in trimmed[k] {
      assert trimmed[k] == lines[k][..|trimmed[k]|];
    }
  }

  /** The rewrite has one line for the opening, one per replacement line, five around it and one per old body line. */
  lemma RewriteLines(opening: string, body: string, replacement: seq<string>)
    requires '\n' !in opening && FlatLines(replacement)
    ensures Split(RewriteBlock(opening, body, replacement), '\n') == TrimEach(BlockLines(opening, body, replacement))
    ensures |TrimEach(BlockLines(opening, body, replacement))| == |replacement| + |Split(body, '\n')| + 6
  {
    BlockLinesFlat(opening, body, replacement);
    SplitJoin(TrimEach(BlockLines(opening, body, replacement)), '\n');
  }

  lemma MarkersEnd()
    ensures TrimEnd(Indentation + InsertedMarker) == Indentation + InsertedMarker
    ensures TrimEnd(Indentation + CommentedMarker) == Indentation + CommentedMarker
    ensures TrimEnd(Indentation + CommentPrefix) == "    #" && TrimEnd(Indentation) == "" && TrimEnd(ClosingLine) == ClosingLine
  {
    var a := Indentation + InsertedMarker;
    var b := Indentation + CommentedMarker;
    assert a[|a| - 1] == 'g';
    assert b[|b| - 1] == 'y';
    assert (Indentation + CommentPrefix)[..5] == "    #";
  }

  /** Where each part of the new body sits. */
  lemma PatchedBodyAt(body: string, replacement: seq<string>)
    ensures var inner := PatchedBodyLines(body, replacement);
      var n := |replacement|;
      var commented := CommentOut(Split(body, '\n'));
      && |inner| == n + |commented| + 4
      && inner[0] == InsertedMarker
      && (forall k | 0 <= k < n :: inner[1 + k] == replacement[k])
      && inner[n + 1] == "" && inner[n + 2] == CommentedMarker && inner[n + 3] == CommentPrefix
      && (forall k | 0 <= k < |commented| :: inner[n + 4 + k] == commented[k])
  {
  }

  /** Where each part of the layout sits before trimming. */
  lemma BlockLinesAt(opening: string, body: string, replacement: seq<string>)
    ensures var lines := BlockLines(opening, body, replacement);
      var n := |replacement|;
      var old_lines := Split(body, '\n');
      && |lines| == n + |old_lines| + 6
      && lines[0] == opening
      && lines[1] == Indentation + InsertedMarker
      && (forall k | 0 <= k < n :: lines[2 + k] == Indentation + replacement[k])
      && lines[n + 2] == Indentation + ""
      && lines[n + 3] == Indentation + CommentedMarker
      && lines[n + 4] == Indentation + CommentPrefix
      && (forall k | 0 <= k < |old_lines| :: lines[n + 5 + k] == Indentation + (CommentPrefix + Dedent(old_lines[k])))
      && lines[|lines| - 1] == ClosingLine
  {
    var lines := BlockLines(opening, body, replacement);
    var inner := PatchedBodyLines(body, replacement);
    var indented := Indent(inner);
    var n := |replacement|;
    var old_lines := Split(body, '\n');
    PatchedBodyAt(body, replacement);
    assert lines == [opening] + indented + [ClosingLine];
    assert forall k | 0 <= k < |indented| :: lines[1 + k] == Indentation + inner[k];
    assert forall k | 0 <= k < |old_lines| :: CommentOut(old_lines)[k] == CommentPrefix + Dedent(old_lines[k]);
  }

  /**
   * Read back line by line, the rewrite is the opening line, the first
   * marker, the replacement lines, a blank line, the second marker, a bare
   * comment, the old body lines with one indentation level removed and
   * commented out, and `.end method`, each indented and right-trimmed.
   */
  lemma RewriteLayout(opening: string, body: string, replacement: seq<string>)
    requires '\n' !in opening && FlatLines(replacement)
    ensures var ls := Split(RewriteBlock(opening, body, replacement), '\n');
      var n := |replacement|;
      var old_lines := Split(body, '\n');
      && |ls| == n + |old_lines| + 6
      && ls[0] == TrimEnd(opening)
      && ls[1] == Indentation + InsertedMarker
      && (forall k | 0 <= k < n :: ls[2 + k] == TrimEnd(Indentation + replacement[k]))
      && ls[n + 2] == ""
      && ls[n + 3] == Indentation + CommentedMarker
      && ls[n + 4] == "    #"
      && (forall k | 0 <= k < |old_lines| :: ls[n + 5 + k] == TrimEnd(Indentation + (CommentPrefix + Dedent(old_lines[k]))))
      && ls[|ls| - 1] == ClosingLine
  {
    RewriteLines(opening, body, replacement);
    BlockLinesAt(opening, body, replacement);
    MarkersEnd();
    assert Indentation + "" == Indentation;
  }

  /** An original block holds one line break more than its body has lines. */
  lemma BlockTextCount(opening: string, body: string)
    requires '\n' !in opening
    ensures Count(opening + "\n" + body + Closing, '\n') == |Split(body, '\n')| + 1
  {
    MarkersFlat();
    CountAbsent(opening, '\n');
    CountAbsent(ClosingLine, '\n');
    JoinSplit(body, '\n');
    CountJoin(Split(body, '\n'), '\n');
    CountConcat(opening, "\n", '\n');
    CountConcat(opening + "\n", body, '\n');
    CountConcat("\n", ClosingLine, '\n');
    CountConcat(opening + "\n" + body, Closing, '\n');
  }

  /** Rewriting a block adds exactly `|replacement| + 4` line breaks. */
  lemma RewriteCount(opening: string, body: string, replacement: seq<string>)
    requires '\n' !in opening && FlatLines(replacement)
    ensures Count(RewriteBlock(opening, body, replacement), '\n')
         == Count(opening + "\n" + body + Closing, '\n') + |replacement| + 4
  {
    BlockLinesFlat(opening, body, replacement);
    var lines := TrimEach(BlockLines(opening, body, replacement));
    CountJoin(lines, '\n');
    BlockTextCount(opening, body);
  }

  /** Neither opening line of the pattern holds a line break, and the pattern closes with `\n.end method`. */
  predicate FlatPattern(pat: MethodPattern) {
    '\n' !in pat.finalOpening && '\n' !in pat.plainOpening && pat.closing == Closing
  }

  /** A signature without line breaks gives openings without line breaks. */
  lemma CreatedPatternFlat(sig: string)
    requires '\n' !in sig
    ensures FlatPattern(CreateMethodPattern(sig))
  {
    MarkersFlat();
  }

  /** The replacer adds line breaks to every block the pattern can match. */
  ghost predicate AddsLines(pat: MethodPattern, replacer: Block -> string) {
    forall bl: Block :: (bl.opening == pat.finalOpening || bl.opening == pat.plainOpening) ==>
      Count(replacer(bl), '\n') > Count(BlockText(bl, pat.closing), '\n')
  }

  /** The rewrite layout adds line breaks whenever openings and replacement lines have none. */
  lemma RewriterAddsLines(pat: MethodPattern, fix: string -> seq<string>)
    requires FlatPattern(pat) && FlatFix(fix)
    ensures AddsLines(pat, Rewriter(fix))
  {
    forall bl: Block | bl.opening == pat.finalOpening || bl.opening == pat.plainOpening
      ensures Count(Rewriter(fix)(bl), '\n') > Count(BlockText(bl, pat.closing), '\n')
    {
      assert FlatLines(fix(bl.opening));
      RewriteCount(bl.opening, bl.body, fix(bl.opening));
    }
  }

  /** Every match lies inside the text and the replacer adds line breaks to it. */
  ghost predicate AddsLinesAt(t: string, m: nat -> Option<Block>, replacer: Block -> string) {
    forall k: nat :: m(k).Some? ==>
      && k <= m(k).value.end <= |t|
      && Count(replacer(m(k).value), '\n') > Count(t[k..m(k).value.end], '\n')
  }

  /**
   * Scanning never removes line breaks, and adds some as soon as one match
   * lies from `i` on.
   */
  lemma {:induction false} ScanCount(t: string, i: nat, m: nat -> Option<Block>, replacer: Block -> string)
    requires Advances(m) && AddsLinesAt(t, m, replacer)
    requires i <= |t|
    ensures Count(Scan(t, i, m, replacer), '\n') >= Count(t[i..], '\n')
    ensures HasMatchFrom(t, i, m) ==> Count(Scan(t, i, m, replacer), '\n') > Count(t[i..], '\n')
    decreases |t| - i
  {
    if i < |t| {
      match m(i)
      case Some(bl) =>
        ScanCount(t, bl.end, m, replacer);
        assert t[i..] == t[i..bl.end] + t[bl.end..];
        CountConcat(t[i..bl.end], t[bl.end..], '\n');
        CountConcat(replacer(bl), Scan(t, bl.end, m, replacer), '\n');
      case None =>
        ScanCount(t, i + 1, m, replacer);
        assert t[i..] == [t[i]] + t[i + 1..];
        CountConcat([t[i]], t[i + 1..], '\n');
        CountConcat([t[i]], Scan(t, i + 1, m, replacer), '\n');
        if HasMatchFrom(t, i, m) {
          var k: nat :| i <= k < |t| && m(k).Some?;
          assert HasMatchFrom(t, i + 1, m);
        }
    }
  }

  /** A scan whose every replacement adds line breaks changes the text exactly when it meets a match. */
  lemma ScanChanged(t: string, m: nat -> Option<Block>, replacer: Block -> string)
    requires Advances(m) && AddsLinesAt(t, m, replacer)
    ensures Scan(t, 0, m, replacer) != t <==> HasMatchFrom(t, 0, m)
    ensures Count(Scan(t, 0, m, replacer), '\n') >= Count(t, '\n')
  {
    ScanCount(t, 0, m, replacer);
    assert t[0..] == t;
    if !HasMatchFrom(t, 0, m) {
      ScanNoMatch(t, m, replacer);
    }
  }

  /** A replacer that adds line breaks to the pattern's blocks adds them at every match in `t`. */
  lemma MatchesAddLines(t: string, pat: MethodPattern, replacer: Block -> string)
    requires AddsLines(pat, replacer)
    ensures AddsLinesAt(t, Matches(t, pat), replacer)
  {
    var m := Matches(t, pat);
    forall k: nat | m(k).Some?
      ensures k <= m(k).value.end <= |t| && Count(replacer(m(k).value), '\n') > Count(t[k..m(k).value.end], '\n')
    {
      MatchAtSpec(t, k, pat);
    }
  }

  /**
   * The replacement changes the text exactly when some method matches; it
   * never removes line breaks and adds some whenever it changes the text.
   */
  lemma ChangedIffBlock(t: string, pat: MethodPattern, replacer: Block -> string)
    requires AddsLines(pat, replacer)
    ensures ReplaceAll(t, pat, replacer) != t <==> HasBlock(t, pat)
    ensures Count(ReplaceAll(t, pat, replacer), '\n') >= Count(t, '\n')
    ensures ReplaceAll(t, pat, replacer) != t ==> Count(ReplaceAll(t, pat, replacer), '\n') > Count(t, '\n')
  {
    var m := Matches(t, pat);
    MatchesAddLines(t, pat, replacer);
    ScanChanged(t, m, replacer);
    ScanCount(t, 0, m, replacer);
    assert t[0..] == t;
    assert HasBlock(t, pat) <==> HasMatchFrom(t, 0, m);
  }
}
