/**
 * The JavaScript string primitives the source relies on (`includes`, `indexOf`,
 * `split`, `join`, `trim`, `trimEnd`, global replacement of one character),
 * written out on `seq<char>`.
 */
module Text {
  import opened Base

  /** The characters matched by `\s` in a JavaScript regular expression (and removed by `trim`). */
  predicate IsWhitespace(c: char) {
    c == '\t' || c == '\n' || c == '\U{000B}' || c == '\U{000C}' || c == '\r' || c == ' '
    || c == '\U{00A0}' || c == '\U{1680}' || ('\U{2000}' <= c <= '\U{200A}')
    || c == '\U{2028}' || c == '\U{2029}' || c == '\U{202F}' || c == '\U{205F}'
    || c == '\U{3000}' || c == '\U{FEFF}'
  }

  /** The characters that `.` does not match in a JavaScript regular expression without the `s` flag. */
  predicate IsLineTerminator(c: char) {
    c == '\n' || c == '\r' || c == '\U{2028}' || c == '\U{2029}'
  }

  lemma LineTerminatorIsWhitespace(c: char)
    requires IsLineTerminator(c)
    ensures IsWhitespace(c)
  {}

  lemma AppendAssoc<T>(a: seq<T>, b: seq<T>, c: seq<T>)
    ensures a + (b + c) == (a + b) + c
  {
  }

  /** `w` occurs in `s` at index `i`. */
  predicate StartsAt(s: string, i: nat, w: string) {
    i + |w| <= |s| && s[i..i + |w|] == w
  }

  predicate StartsWith(s: string, w: string) {
    StartsAt(s, 0, w)
  }

  predicate EndsWith(s: string, w: string) {
    |w| <= |s| && s[|s| - |w|..] == w
  }

  /** `s.indexOf(w, i)`: the first index at or after `i` where `w` occurs. */
  function IndexOfFrom(s: string, w: string, i: nat): (r: Option<nat>)
    decreases |s| - i
    ensures r.Some? ==> i <= r.value && StartsAt(s, r.value, w)
    ensures r.Some? ==> forall k :: i <= k < r.value ==> !StartsAt(s, k, w)
    ensures r.None? ==> forall k :: i <= k ==> !StartsAt(s, k, w)
  {
    if i + |w| > |s| then None
    else if StartsAt(s, i, w) then Some(i)
    else IndexOfFrom(s, w, i + 1)
  }

  /** The first occurrence at or after `i` is the one with none before it. */
  lemma IndexOfFromIs(s: string, w: string, i: nat, j: nat)
    requires i <= j && StartsAt(s, j, w)
    requires forall k | i <= k < j :: !StartsAt(s, k, w)
    ensures IndexOfFrom(s, w, i) == Some(j)
  {
    var r := IndexOfFrom(s, w, i);
    assert r.Some? && !(r.value < j) && !(j < r.value);
  }

  /** The text from `i` up to the first occurrence of `w` at or after `i` does not contain `w`. */
  lemma IndexOfFromClean(s: string, w: string, i: nat)
    requires |w| > 0 && IndexOfFrom(s, w, i).Some?
    ensures !Contains(s[i..IndexOfFrom(s, w, i).value], w)
  {
    var q := IndexOfFrom(s, w, i).value;
    var t := s[i..q];
    ContainsIff(t, w);
    forall k: nat | k + |w| <= |t|
      ensures !StartsAt(t, k, w)
    {
      assert s[i + k..i + k + |w|] == t[k..k + |w|];
      assert !StartsAt(s, i + k, w);
    }
  }

  /** The index just past an occurrence of `w` at `i`. */
  function After(i: nat, w: string): nat {
    i + |w|
  }

  /** A slice splits at any point inside it. */
  lemma SliceSplit<T>(s: seq<T>, a: nat, b: nat, c: nat)
    requires a <= b <= c <= |s|
    ensures s[a..c] == s[a..b] + s[b..c]
  {
  }

  /** `s.includes(w)`. */
  predicate Contains(s: string, w: string) {
    IndexOfFrom(s, w, 0).Some?
  }

  lemma ContainsIff(s: string, w: string)
    ensures Contains(s, w) <==> exists k :: StartsAt(s, k, w)
  {
    if Contains(s, w) {
      var k := IndexOfFrom(s, w, 0).value;
      assert StartsAt(s, k, w);
    }
  }

  /** An occurrence of `w` inside `s` is also one inside any text that contains `s`. */
  lemma ContainsShift(s: string, k: nat, w: string)
    requires StartsAt(s, k, w)
    ensures Contains(s, w)
  {
    ContainsIff(s, w);
  }

  /** `s` has no occurrence of `c`, stated index by index (cheap to check on a literal). */
  predicate Lacks(s: string, c: char) {
    forall i | 0 <= i < |s| :: s[i] != c
  }

  lemma LacksIff(s: string, c: char)
    ensures Lacks(s, c) <==> c !in s
  {
  }

  lemma LacksConcat(a: string, b: string, c: char)
    requires Lacks(a, c) && Lacks(b, c)
    ensures Lacks(a + b, c)
  {
    forall i | 0 <= i < |a + b| ensures (a + b)[i] != c {
      if i >= |a| {
        assert (a + b)[i] == b[i - |a|];
      }
    }
  }

  /** The index of the first `c` in `s`, if any. */
  function IndexOfChar(s: string, c: char): (r: Option<nat>)
    decreases |s|
    ensures r.Some? ==> r.value < |s| && s[r.value] == c
    ensures r.Some? ==> forall j | 0 <= j < r.value :: s[j] != c
    ensures r.None? ==> c !in s
  {
    if |s| == 0 then None
    else if s[0] == c then Some(0)
    else match IndexOfChar(s[1..], c)
      case Some(k) =>
        assert forall j | 1 <= j < k + 1 :: s[j] == s[1..][j - 1];
        Some(k + 1)
      case None =>
        assert forall j | 1 <= j < |s| :: s[j] == s[1..][j - 1];
        None
  }

  /** `s.split(c)`: the pieces between the occurrences of `c`. */
  function Split(s: string, c: char): (r: seq<string>)
    decreases |s|
    ensures |r| >= 1
    ensures forall i :: 0 <= i < |r| ==> c !in r[i]
  {
    match IndexOfChar(s, c)
    case None => [s]
    case Some(k) => [s[..k]] + Split(s[k + 1..], c)
  }

  /** `parts.join(sep)`. */
  function Join(parts: seq<string>, sep: string): string {
    if |parts| == 0 then ""
    else if |parts| == 1 then parts[0]
    else parts[0] + sep + Join(parts[1..], sep)
  }

  /** Splitting on `c` and joining with `c` again gives back the text. */
  lemma {:induction false} JoinSplit(s: string, c: char)
    decreases |s|
    ensures Join(Split(s, c), [c]) == s
  {
    match IndexOfChar(s, c)
    case None =>
    case Some(k) =>
      var rest := Split(s[k + 1..], c);
      JoinSplit(s[k + 1..], c);
      JoinCons(s[..k], rest, [c]);
      assert s == s[..k] + [c] + s[k + 1..];
  }

  /** Joining lines free of `c` with `c` and splitting on `c` gives back the lines. */
  lemma {:induction false} SplitJoin(parts: seq<string>, c: char)
    requires |parts| >= 1
    requires forall i :: 0 <= i < |parts| ==> c !in parts[i]
    ensures Split(Join(parts, [c]), c) == parts
  {
    if |parts| > 1 {
      var s := Join(parts, [c]);
      var p := parts[0];
      JoinCons(p, parts[1..], [c]);
      assert parts == [p] + parts[1..];
      assert s == p + [c] + Join(parts[1..], [c]);
      assert s[|p|] == c;
      assert forall k | 0 <= k < |p| :: s[k] == p[k];
      assert IndexOfChar(s, c) == Some(|p|);
      assert s[..|p|] == p;
      assert s[|p| + 1..] == Join(parts[1..], [c]);
      SplitJoin(parts[1..], c);
    }
  }

  /** A join of pieces and a separator free of `d` is free of `d`. */
  lemma {:induction false} JoinLacks(parts: seq<string>, sep: string, d: char)
    requires forall i | 0 <= i < |parts| :: d !in parts[i]
    requires d !in sep
    ensures d !in Join(parts, sep)
  {
    if |parts| > 1 {
      JoinLacks(parts[1..], sep, d);
    }
  }

  /** The pieces of a text free of `d` are free of `d`. */
  lemma {:induction false} SplitLacks(s: string, c: char, d: char)
    requires d !in s
    decreases |s|
    ensures forall i | 0 <= i < |Split(s, c)| :: d !in Split(s, c)[i]
  {
    match IndexOfChar(s, c)
    case None =>
    case Some(k) =>
      SplitLacks(s[k + 1..], c, d);
  }

  /** A join whose first piece is not empty starts with that piece's first character. */
  lemma JoinFirst(parts: seq<string>, sep: string)
    requires |parts| > 0 && |parts[0]| > 0
    ensures |Join(parts, sep)| > 0 && Join(parts, sep)[0] == parts[0][0]
  {
  }

  /** A join whose last piece is not empty ends with that piece's last character. */
  lemma {:induction false} JoinLast(parts: seq<string>, sep: string)
    requires |parts| > 0 && |parts[|parts| - 1]| > 0
    ensures |Join(parts, sep)| > 0
    ensures Join(parts, sep)[|Join(parts, sep)| - 1] == parts[|parts| - 1][|parts[|parts| - 1]| - 1]
  {
    if |parts| > 1 {
      var rest := parts[1..];
      assert rest[|rest| - 1] == parts[|parts| - 1];
      JoinLast(rest, sep);
    }
  }

  /** The number of occurrences of `c` in `s`. */
  function Count(s: string, c: char): nat {
    if |s| == 0 then 0 else (if s[0] == c then 1 else 0) + Count(s[1..], c)
  }

  lemma {:induction false} CountConcat(a: string, b: string, c: char)
    ensures Count(a + b, c) == Count(a, c) + Count(b, c)
  {
    if |a| == 0 {
      assert a + b == b;
    } else {
      assert (a + b)[1..] == a[1..] + b;
      CountConcat(a[1..], b, c);
    }
  }

  lemma {:induction false} CountAbsent(s: string, c: char)
    requires c !in s
    ensures Count(s, c) == 0
  {
    if |s| > 0 {
      CountAbsent(s[1..], c);
    }
  }

  /** `c` occurs in `Join(parts, [c])` once between each two parts when no part holds it. */
  lemma {:induction false} CountJoin(parts: seq<string>, c: char)
    requires |parts| >= 1
    requires forall i :: 0 <= i < |parts| ==> c !in parts[i]
    ensures Count(Join(parts, [c]), c) == |parts| - 1
  {
    CountAbsent(parts[0], c);
    if |parts| > 1 {
      CountJoin(parts[1..], c);
      CountConcat(parts[0], [c], c);
      CountConcat(parts[0] + [c], Join(parts[1..], [c]), c);
    }
  }

  /** `s.trimEnd()`. */
  function TrimEnd(s: string): (r: string)
    ensures |r| <= |s| && r == s[..|r|]
    ensures |r| > 0 ==> !IsWhitespace(r[|r| - 1])
    ensures forall k :: |r| <= k < |s| ==> IsWhitespace(s[k])
  {
    if |s| > 0 && IsWhitespace(s[|s| - 1]) then TrimEnd(s[..|s| - 1]) else s
  }

  /** `s.trimStart()`. */
  function TrimStart(s: string): (r: string)
    ensures |r| <= |s| && r == s[|s| - |r|..]
    ensures |r| > 0 ==> !IsWhitespace(r[0])
    ensures forall k :: 0 <= k < |s| - |r| ==> IsWhitespace(s[k])
  {
    if |s| > 0 && IsWhitespace(s[0]) then TrimStart(s[1..]) else s
  }

  /** `s.trim()`. */
  function Trim(s: string): string {
    TrimStart(TrimEnd(s))
  }

  /** `s.replace(/c/g, r)` for a single character `c`. */
  function ReplaceChar(s: string, c: char, r: string): (t: string)
    ensures c !in r ==> c !in t
  {
    if |s| == 0 then ""
    else (if s[0] == c then r else [s[0]]) + ReplaceChar(s[1..], c, r)
  }

  /** Replacing by a single character replaces exactly the positions that held `c`. */
  lemma {:induction false} ReplaceCharPointwise(s: string, c: char, d: char)
    decreases |s|
    ensures |ReplaceChar(s, c, [d])| == |s|
    ensures forall i | 0 <= i < |s| :: ReplaceChar(s, c, [d])[i] == if s[i] == c then d else s[i]
  {
    if |s| > 0 {
      ReplaceCharPointwise(s[1..], c, d);
      var r := ReplaceChar(s, c, [d]);
      forall i | 0 <= i < |s| ensures r[i] == if s[i] == c then d else s[i] {
        if i > 0 {
          assert r[i] == ReplaceChar(s[1..], c, [d])[i - 1];
          assert s[i] == s[1..][i - 1];
        }
      }
    }
  }

  lemma {:induction false} ReplaceCharAbsent(s: string, c: char, r: string)
    requires c !in s
    ensures ReplaceChar(s, c, r) == s
  {
    if |s| > 0 {
      ReplaceCharAbsent(s[1..], c, r);
    }
  }

  lemma {:induction false} ReplaceCharKeeps(s: string, c: char, r: string, d: char)
    requires d != c && d !in r && d !in s
    ensures d !in ReplaceChar(s, c, r)
  {
    if |s| > 0 {
      ReplaceCharKeeps(s[1..], c, r, d);
    }
  }

  /** `s.split(c).join(d)` replaces every `c` by `d`. */
  lemma {:induction false} SplitJoinReplaces(s: string, c: char, d: string)
    decreases |s|
    ensures Join(Split(s, c), d) == ReplaceChar(s, c, d)
  {
    match IndexOfChar(s, c)
    case None =>
      ReplaceCharAbsent(s, c, d);
    case Some(k) =>
      var head, tail := s[..k], s[k + 1..];
      assert c !in head;
      assert s == head + ([c] + tail);
      var rest := Split(tail, c);
      assert Split(s, c) == [head] + rest;
      SplitJoinReplaces(tail, c, d);
      ReplaceCharAbsent(head, c, d);
      ReplaceCharConcat(head, [c] + tail, c, d);
      ReplaceCharConcat([c], tail, c, d);
      assert ReplaceChar([c], c, d) == d;
      assert ReplaceChar(s, c, d) == head + (d + Join(rest, d));
      JoinCons(head, rest, d);
      AppendAssoc(head, d, Join(rest, d));
  }

  lemma JoinCons(p: string, rest: seq<string>, sep: string)
    requires |rest| >= 1
    ensures Join([p] + rest, sep) == p + sep + Join(rest, sep)
  {
    assert ([p] + rest)[1..] == rest;
  }

  lemma {:induction false} ReplaceCharConcat(a: string, b: string, c: char, r: string)
    ensures ReplaceChar(a + b, c, r) == ReplaceChar(a, c, r) + ReplaceChar(b, c, r)
  {
    if |a| == 0 {
      assert a + b == b;
    } else {
      assert (a + b)[1..] == a[1..] + b;
      ReplaceCharConcat(a[1..], b, c, r);
    }
  }
}
