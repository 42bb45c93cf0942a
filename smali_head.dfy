/**
 * The head of a Smali file: the class name from the first `.class` line,
 * every `.implements` name in file order, and whether the "class" is an
 * interface.  The two regular expressions of the parser are written out as
 * explicit searches with the outcome their backtracking gives.
 */
module SmaliHead {
  import opened Base
  import opened Text

  /** General information about a class extracted from a Smali file. */
  datatype SmaliHead = SmaliHead(name: string, implements: seq<string>, isInterface: bool)

  /** Destructuring the groups of a failed `.class` match throws a TypeError. */
  datatype HeadError = NoClassDeclaration

  predicate NoWhitespace(s: string) {
    forall k | 0 <= k < |s| :: !IsWhitespace(s[k])
  }

  /**
   * ` L(?<name>[^\s]+);` at `s` with the name ending before index `j`: the
   * name `t[s + 2..j]` is non-empty, holds no whitespace and `t[j]` is `;`.
   */
  predicate NameSpan(t: string, s: nat, j: nat) {
    && s + 2 < j < |t|
    && t[s] == ' ' && t[s + 1] == 'L' && t[j] == ';'
    && forall k | s + 2 <= k < j :: !IsWhitespace(t[k])
  }

  /** The first index at or after `s` that holds whitespace, or the end of the text. */
  function RunEnd(t: string, s: nat): (e: nat)
    requires s <= |t|
    decreases |t| - s
    ensures s <= e <= |t|
    ensures forall k | s <= k < e :: !IsWhitespace(t[k])
    ensures e == |t| || IsWhitespace(t[e])
  {
    if s == |t| || IsWhitespace(t[s]) then s else RunEnd(t, s + 1)
  }

  /** The first index at or after `s` that holds a line terminator, or the end of the text. */
  function LineEnd(t: string, s: nat): (e: nat)
    requires s <= |t|
    decreases |t| - s
    ensures s <= e <= |t|
    ensures forall k | s <= k < e :: !IsLineTerminator(t[k])
    ensures e == |t| || IsLineTerminator(t[e])
  {
    if s == |t| || IsLineTerminator(t[s]) then s else LineEnd(t, s + 1)
  }

  /** The largest `j` with `lo < j < hi` and `t[j] == ';'`. */
  function LastSemicolon(t: string, lo: nat, hi: nat): (r: Option<nat>)
    requires hi <= |t|
    decreases hi
    ensures r.Some? ==> lo < r.value < hi && t[r.value] == ';'
    ensures r.Some? ==> forall j | r.value < j < hi :: t[j] != ';'
    ensures r.None? ==> forall j | lo < j < hi :: t[j] != ';'
  {
    if hi <= lo + 1 then None
    else if t[hi - 1] == ';' then Some(hi - 1)
    else LastSemicolon(t, lo, hi - 1)
  }

  /**
   * The name match at `s`: the greedy `[^\s]+` runs over every
   * non-whitespace character and gives back characters up to the last `;`,
   * so the name ends at the largest `j` that fits.
   */
  function NameAt(t: string, s: nat): (r: Option<nat>)
    ensures r.Some? ==> NameSpan(t, s, r.value)
  {
    if s + 2 <= |t| && t[s] == ' ' && t[s + 1] == 'L' then
      LastSemicolon(t, s + 2, RunEnd(t, s + 2))
    else
      None
  }

  /** `NameAt` finds the longest name at `s`, and finds none exactly when none fits. */
  lemma NameAtSpec(t: string, s: nat)
    ensures NameAt(t, s).Some? ==> forall j: nat | NameSpan(t, s, j) :: j <= NameAt(t, s).value
    ensures NameAt(t, s).None? ==> forall j: nat :: !NameSpan(t, s, j)
  {
    if s + 2 <= |t| && t[s] == ' ' && t[s + 1] == 'L' {
      var e := RunEnd(t, s + 2);
      forall j: nat | NameSpan(t, s, j) ensures j < e {
        RunEndPast(t, s + 2, j);
      }
    }
  }

  lemma RunEndPast(t: string, s: nat, k: nat)
    requires s <= k < |t|
    requires forall j | s <= j <= k :: !IsWhitespace(t[j])
    decreases k - s
    ensures k < RunEnd(t, s)
  {
    if s < k {
      RunEndPast(t, s + 1, k);
    }
  }

  /**
   * `.class(?<keywords>.+)? L(?<name>[^\s]+);` at `p`: `k` keyword characters
   * on the line (none when `k` is 0, the group being unmatched) and the name
   * ending before `j`.
   */
  predicate ClassDecl(t: string, p: nat, k: nat, j: nat) {
    && StartsAt(t, p, ".class")
    && NameSpan(t, p + 6 + k, j)
    && (forall i | p + 6 <= i < p + 6 + k :: !IsLineTerminator(t[i]))
  }

  /** A name follows `k` characters after `q`. */
  predicate NameAfter(t: string, q: nat, k: nat) {
    NameAt(t, q + k).Some?
  }

  /** The greedy keywords group: the longest `k` in `1..=m` after which a name follows. */
  function KeywordsAt(t: string, q: nat, m: nat): (r: Option<nat>)
    decreases m
    ensures r.Some? ==> 1 <= r.value <= m && NameAfter(t, q, r.value)
  {
    if m == 0 then None
    else if NameAfter(t, q, m) then Some(m)
    else KeywordsAt(t, q, m - 1)
  }

  /** No longer keywords group is followed by a name, and none at all when the search gives up. */
  lemma {:induction false} KeywordsAtSpec(t: string, q: nat, m: nat)
    decreases m
    ensures KeywordsAt(t, q, m).Some? ==> forall k: nat | KeywordsAt(t, q, m).value < k <= m :: !NameAfter(t, q, k)
    ensures KeywordsAt(t, q, m).None? ==> forall k: nat | 1 <= k <= m :: !NameAfter(t, q, k)
  {
    if m > 0 && !NameAfter(t, q, m) {
      KeywordsAtSpec(t, q, m - 1);
    }
  }

  /**
   * The match of the class pattern at `p`, if any, as `(k, j)`: the optional
   * group is tried first with the longest keywords that stay on the line,
   * and only then skipped; the name is the longest that fits.
   */
  function ClassLineAt(t: string, p: nat): (r: Option<(nat, nat)>)
  {
    if !StartsAt(t, p, ".class") then None else ClassLineFrom(t, p + 6)
  }

  /** The keywords and the name of a `.class` line whose keywords would start at `q`. */
  function ClassLineFrom(t: string, q: nat): (r: Option<(nat, nat)>)
    requires q <= |t|
  {
    match KeywordsAt(t, q, LineEnd(t, q) - q)
    case Some(k) => Some((k, NameAt(t, q + k).value))
    case None =>
      match NameAt(t, q)
      case Some(j) => Some((0, j))
      case None => None
  }

  /** The keywords found stay on the line and a name follows them. */
  lemma ClassLineFromSound(t: string, q: nat)
    requires q <= |t|
    ensures ClassLineFrom(t, q).Some? ==>
      && ClassLineFrom(t, q).value.0 <= LineEnd(t, q) - q
      && NameSpan(t, q + ClassLineFrom(t, q).value.0, ClassLineFrom(t, q).value.1)
  {
  }

  /** A declaration's name match is found by `NameAt` and ends no later than its end. */
  lemma ClassDeclName(t: string, p: nat, k: nat, j: nat)
    requires ClassDecl(t, p, k, j)
    ensures NameAfter(t, p + 6, k) && j <= NameAt(t, p + 6 + k).value
    ensures k <= LineEnd(t, p + 6) - (p + 6)
  {
    var q := p + 6;
    assert NameSpan(t, q + k, j);
    NameAtSpec(t, q + k);
  }

  /** A name after keywords that stay on the `.class` line makes a declaration. */
  lemma ClassDeclIntro(t: string, p: nat, k: nat, j: nat)
    requires StartsAt(t, p, ".class")
    requires p + 6 <= |t| && k <= LineEnd(t, p + 6) - (p + 6)
    requires NameSpan(t, p + 6 + k, j)
    ensures ClassDecl(t, p, k, j)
  {
  }

  /** The class pattern's match at `p` is a declaration. */
  lemma ClassLineAtSound(t: string, p: nat)
    ensures ClassLineAt(t, p).Some? ==> ClassDecl(t, p, ClassLineAt(t, p).value.0, ClassLineAt(t, p).value.1)
  {
    if StartsAt(t, p, ".class") {
      ClassLineFromSound(t, p + 6);
      var r := ClassLineFrom(t, p + 6);
      if r.Some? {
        ClassDeclIntro(t, p, r.value.0, r.value.1);
      }
    }
  }

  /** Every declaration at `p` is within the line and ends no later than the longest name. */
  lemma ClassDeclsBounded(t: string, p: nat)
    ensures forall k: nat, j: nat | ClassDecl(t, p, k, j) ::
      NameAfter(t, p + 6, k) && j <= NameAt(t, p + 6 + k).value && k <= LineEnd(t, p + 6) - (p + 6)
  {
    forall k: nat, j: nat | ClassDecl(t, p, k, j)
      ensures NameAfter(t, p + 6, k) && j <= NameAt(t, p + 6 + k).value && k <= LineEnd(t, p + 6) - (p + 6)
    {
      ClassDeclName(t, p, k, j);
    }
  }

  /** No declaration at `p` has more keyword characters than the match. */
  lemma ClassLineAtLongestKeywords(t: string, p: nat)
    ensures ClassLineAt(t, p).Some? ==> forall k: nat, j: nat | ClassDecl(t, p, k, j) :: k <= ClassLineAt(t, p).value.0
  {
    if StartsAt(t, p, ".class") {
      ClassDeclsBounded(t, p);
      ClassLineFromLongest(t, p + 6);
    }
  }

  /** No longer keywords on the line are followed by a name. */
  lemma ClassLineFromLongest(t: string, q: nat)
    requires q <= |t|
    ensures ClassLineFrom(t, q).Some? ==>
      forall k: nat | k <= LineEnd(t, q) - q && NameAfter(t, q, k) :: k <= ClassLineFrom(t, q).value.0
  {
    KeywordsAtSpec(t, q, LineEnd(t, q) - q);
  }

  /** No declaration at `p` with the match's keywords has a longer name. */
  lemma ClassLineAtLongestName(t: string, p: nat)
    ensures ClassLineAt(t, p).Some? ==> forall j: nat | ClassDecl(t, p, ClassLineAt(t, p).value.0, j) :: j <= ClassLineAt(t, p).value.1
  {
    if StartsAt(t, p, ".class") {
      ClassDeclsBounded(t, p);
    }
  }

  /** When the class pattern does not match at `p`, no class is declared there. */
  lemma ClassLineAtComplete(t: string, p: nat)
    ensures ClassLineAt(t, p).None? ==> forall k: nat, j: nat :: !ClassDecl(t, p, k, j)
  {
    if StartsAt(t, p, ".class") {
      var q := p + 6;
      ClassDeclsBounded(t, p);
      KeywordsAtSpec(t, q, LineEnd(t, q) - q);
      NameAtSpec(t, q);
    }
  }

  /** The class pattern's match at `p` is the declaration with the longest keywords and then the longest name. */
  lemma ClassLineAtSpec(t: string, p: nat)
    ensures ClassLineAt(t, p).Some? ==> ClassDecl(t, p, ClassLineAt(t, p).value.0, ClassLineAt(t, p).value.1)
    ensures ClassLineAt(t, p).Some? ==> forall k: nat, j: nat | ClassDecl(t, p, k, j) :: k <= ClassLineAt(t, p).value.0
    ensures ClassLineAt(t, p).Some? ==> forall j: nat | ClassDecl(t, p, ClassLineAt(t, p).value.0, j) :: j <= ClassLineAt(t, p).value.1
    ensures ClassLineAt(t, p).None? ==> forall k: nat, j: nat :: !ClassDecl(t, p, k, j)
  {
    ClassLineAtSound(t, p);
    ClassLineAtLongestKeywords(t, p);
    ClassLineAtLongestName(t, p);
    ClassLineAtComplete(t, p);
  }

  /** Some `.class` declaration starts at `p`. */
  ghost predicate ClassDeclaredAt(t: string, p: nat) {
    exists k: nat, j: nat :: ClassDecl(t, p, k, j)
  }

  /** The leftmost match of the class pattern at or after `p`, as `(p, k, j)`. */
  function ClassSearch(t: string, p: nat): (r: Option<(nat, nat, nat)>)
    decreases |t| - p
    ensures r.Some? ==> p <= r.value.0 && ClassLineAt(t, r.value.0) == Some((r.value.1, r.value.2))
    ensures r.Some? ==> forall p': nat | p <= p' < r.value.0 :: ClassLineAt(t, p').None?
    ensures r.None? ==> forall p': nat | p <= p' :: ClassLineAt(t, p').None?
  {
    if p + 6 > |t| then
      assert forall p': nat | p <= p' :: ClassLineAt(t, p').None? by {
        forall p': nat | p <= p' ensures ClassLineAt(t, p').None? {
          assert !StartsAt(t, p', ".class");
        }
      }
      None
    else match ClassLineAt(t, p)
      case Some((k, j)) => Some((p, k, j))
      case None => ClassSearch(t, p + 1)
  }

  /** The keywords group of a match with `k` keyword characters: undefined when `k` is 0. */
  function KeywordsOf(t: string, p: nat, k: nat): Option<string>
    requires p + 6 + k <= |t|
  {
    if k == 0 then None else Some(t[p + 6..p + 6 + k])
  }

  /** `keywords?.trim().split(' ').includes('interface') ?? false`. */
  predicate IsInterfaceKeywords(keywords: Option<string>) {
    keywords.Some? && "interface" in Split(Trim(keywords.value), ' ')
  }

  /** `.implements L(?<name>[^\s]+);` at `p`, the name ending before `j`. */
  predicate ImplementsDecl(t: string, p: nat, j: nat) {
    StartsAt(t, p, ".implements") && NameSpan(t, p + 11, j)
  }

  /** Some `.implements` declaration starts at or after `p` and names `name`. */
  ghost predicate ImplementsNamedFrom(t: string, p: nat, name: string) {
    exists q: nat, j: nat | p <= q && ImplementsDecl(t, q, j) :: name == t[q + 13..j]
  }

  /** The end of the name of an implements match at `p`, if one starts there. */
  function ImplementsAt(t: string, p: nat): (r: Option<nat>)
    ensures r.Some? ==> ImplementsDecl(t, p, r.value)
  {
    if StartsAt(t, p, ".implements") then NameAt(t, p + 11) else None
  }

  /** No implements match starts at `p` when the scan moves on by one. */
  lemma NoImplementsAt(t: string, p: nat)
    requires ImplementsAt(t, p).None?
    ensures forall j: nat :: !ImplementsDecl(t, p, j)
  {
    NameAtSpec(t, p + 11);
  }

  /**
   * The names of every match of the implements pattern at or after `p`, in
   * order: after a match the scan resumes behind its `;`.
   */
  function ImplementsFrom(t: string, p: nat): seq<string>
    decreases |t| - p
  {
    if p + 11 > |t| then []
    else match ImplementsAt(t, p)
      case Some(j) => [t[p + 13..j]] + ImplementsFrom(t, j + 1)
      case None => ImplementsFrom(t, p + 1)
  }

  lemma ImplementsNamedHere(t: string, p: nat, j: nat)
    requires ImplementsDecl(t, p, j)
    ensures ImplementsNamedFrom(t, p, t[p + 13..j])
  {
  }

  lemma ImplementsNamedLater(t: string, p: nat, p': nat, name: string)
    requires p <= p' && ImplementsNamedFrom(t, p', name)
    ensures ImplementsNamedFrom(t, p, name)
  {
    var q: nat, j: nat :| p' <= q && ImplementsDecl(t, q, j) && name == t[q + 13..j];
    assert p <= q;
  }

  /** The `i`th listed name is declared at or after `p`. */
  lemma {:induction false} ImplementsFromNamedAt(t: string, p: nat, i: nat)
    requires i < |ImplementsFrom(t, p)|
    decreases |t| - p
    ensures ImplementsNamedFrom(t, p, ImplementsFrom(t, p)[i])
  {
    var r := ImplementsFrom(t, p);
    match ImplementsAt(t, p)
    case Some(j) =>
      var rest := ImplementsFrom(t, j + 1);
      assert r == [t[p + 13..j]] + rest;
      if i == 0 {
        ImplementsNamedHere(t, p, j);
      } else {
        ImplementsFromNamedAt(t, j + 1, i - 1);
        ImplementsNamedLater(t, p, j + 1, rest[i - 1]);
      }
    case None =>
      ImplementsFromNamedAt(t, p + 1, i);
      ImplementsNamedLater(t, p, p + 1, r[i]);
  }

  lemma ImplementsFromNamed(t: string, p: nat)
    ensures forall i | 0 <= i < |ImplementsFrom(t, p)| :: ImplementsNamedFrom(t, p, ImplementsFrom(t, p)[i])
  {
    forall i | 0 <= i < |ImplementsFrom(t, p)| ensures ImplementsNamedFrom(t, p, ImplementsFrom(t, p)[i]) {
      ImplementsFromNamedAt(t, p, i);
    }
  }

  lemma {:induction false} ImplementsFromEmpty(t: string, p: nat)
    decreases |t| - p
    ensures ImplementsFrom(t, p) == [] <==> forall q: nat, j: nat | p <= q :: !ImplementsDecl(t, q, j)
  {
    if p + 11 > |t| {
      forall q: nat, j: nat | p <= q ensures !ImplementsDecl(t, q, j) {
        assert !StartsAt(t, q, ".implements");
      }
    } else if ImplementsAt(t, p).Some? {
      assert ImplementsDecl(t, p, ImplementsAt(t, p).value);
    } else {
      NoImplementsAt(t, p);
      ImplementsFromEmpty(t, p + 1);
      forall q: nat, j: nat | p <= q && ImplementsDecl(t, q, j) ensures p + 1 <= q {
      }
    }
  }

  /**
   * The reference for `matchAll`: the name of the implements match at every
   * index from `p` on, in ascending order of index, as if matches could
   * overlap.
   */
  function MatchNamesFrom(t: string, p: nat): seq<string>
    decreases |t| - p
  {
    if p + 11 > |t| then []
    else match ImplementsAt(t, p)
      case Some(j) => [t[p + 13..j]] + MatchNamesFrom(t, p + 1)
      case None => MatchNamesFrom(t, p + 1)
  }

  /** `.implements` holds no `.` after its first character. */
  lemma ImplementsKeywordDots()
    ensures forall k | 1 <= k < 11 :: ".implements"[k] != '.' && ".implements"[k] != ';'
    ensures ".implements"[0] != ';'
  {
  }

  /**
   * No implements match starts inside another: the keyword holds no second
   * `.`, and a name holds no whitespace where a later keyword would need its
   * space.
   */
  lemma ImplementsNoOverlap(t: string, p: nat, e: nat, q: nat)
    requires ImplementsDecl(t, p, e) && p < q <= e
    ensures ImplementsAt(t, q).None?
  {
    ImplementsKeywordDots();
    if q <= p + 10 {
      assert t[q] == t[p..p + 11][q - p];
      assert !StartsAt(t, q, ".implements") by {
        assert q + 11 <= |t| ==> t[q..q + 11][0] == t[q];
      }
    } else if q <= p + 12 {
      assert t[q] == ' ' || t[q] == 'L';
      assert !StartsAt(t, q, ".implements") by {
        assert q + 11 <= |t| ==> t[q..q + 11][0] == t[q];
      }
    } else if q + 11 < e {
      assert !IsWhitespace(t[q + 11]);
    } else if q + 11 == e {
      assert t[q + 11] == ';';
    } else {
      assert t[e] == ';';
      assert !StartsAt(t, q, ".implements") by {
        assert q + 11 <= |t| ==> t[q..q + 11][e - q] == t[e];
      }
    }
  }

  /** Indices without a match add nothing to the reference list. */
  lemma {:induction false} MatchNamesSkip(t: string, p: nat, e: nat)
    requires p <= e && forall q | p <= q < e :: ImplementsAt(t, q).None?
    decreases e - p
    ensures MatchNamesFrom(t, p) == MatchNamesFrom(t, e)
  {
    if p < e {
      MatchNamesSkip(t, p + 1, e);
      assert ImplementsAt(t, p).None?;
    }
  }

  /**
   * The scan, which resumes behind each match's `;`, lists the name of the
   * match at every index from `p` on, in ascending order: it skips no match.
   */
  lemma {:induction false} ImplementsFromAll(t: string, p: nat)
    decreases |t| - p
    ensures ImplementsFrom(t, p) == MatchNamesFrom(t, p)
  {
    if p + 11 > |t| {
      assert ImplementsFrom(t, p) == [] == MatchNamesFrom(t, p);
    } else {
      var next := ScanStep(t, p);
      ImplementsFromAll(t, next);
    }
  }

  /**
   * One step of the scan from `p`: both lists start with the same names and
   * go on from the same index `next`, behind a match's `;` or one further.
   */
  lemma ScanStep(t: string, p: nat) returns (next: nat)
    requires p + 11 <= |t|
    ensures p < next
    ensures exists head: seq<string> ::
      && ImplementsFrom(t, p) == head + ImplementsFrom(t, next)
      && MatchNamesFrom(t, p) == head + MatchNamesFrom(t, next)
  {
    match ImplementsAt(t, p)
    case Some(j) =>
      ImplementsFromMatch(t, p, j);
      MatchNamesMatch(t, p, j);
      ImplementsSkipOverlap(t, p, j);
      next := j + 1;
      assert MatchNamesFrom(t, p) == [t[p + 13..j]] + MatchNamesFrom(t, next);
    case None =>
      next := p + 1;
      assert ImplementsFrom(t, p) == [] + ImplementsFrom(t, next);
      assert MatchNamesFrom(t, p) == [] + MatchNamesFrom(t, next);
  }

  lemma ImplementsFromMatch(t: string, p: nat, j: nat)
    requires p + 11 <= |t| && ImplementsAt(t, p) == Some(j)
    ensures ImplementsFrom(t, p) == [t[p + 13..j]] + ImplementsFrom(t, j + 1)
  {
  }

  lemma MatchNamesMatch(t: string, p: nat, j: nat)
    requires p + 11 <= |t| && ImplementsAt(t, p) == Some(j)
    ensures MatchNamesFrom(t, p) == [t[p + 13..j]] + MatchNamesFrom(t, p + 1)
  {
  }

  /** Without a match, both lists continue at the next index. */
  lemma ScanNoMatchStep(t: string, p: nat)
    requires p + 11 <= |t| && ImplementsAt(t, p).None?
    ensures ImplementsFrom(t, p) == ImplementsFrom(t, p + 1)
    ensures MatchNamesFrom(t, p) == MatchNamesFrom(t, p + 1)
  {
  }

  /** Behind a match, the reference list resumes at the match's `;` with nothing lost. */
  lemma ImplementsSkipOverlap(t: string, p: nat, j: nat)
    requires ImplementsDecl(t, p, j)
    ensures MatchNamesFrom(t, p + 1) == MatchNamesFrom(t, j + 1)
  {
    forall q | p + 1 <= q < j + 1 ensures ImplementsAt(t, q).None? {
      ImplementsNoOverlap(t, p, j, q);
    }
    MatchNamesSkip(t, p + 1, j + 1);
  }

  /** The reference list holds the name of every match from `p` on. */
  lemma {:induction false} MatchNamesListed(t: string, p: nat, q: nat)
    requires p <= q && ImplementsAt(t, q).Some?
    decreases q - p
    ensures t[q + 13..ImplementsAt(t, q).value] in MatchNamesFrom(t, p)
  {
    if p < q {
      MatchNamesListed(t, p + 1, q);
    }
  }

  /** Every `.implements` declaration from `p` on is listed, with the name its match captures. */
  lemma ImplementsListed(t: string, p: nat, q: nat)
    requires p <= q && ImplementsAt(t, q).Some?
    ensures t[q + 13..ImplementsAt(t, q).value] in ImplementsFrom(t, p)
  {
    ImplementsFromAll(t, p);
    MatchNamesListed(t, p, q);
  }

  /**
   * A line `.implements L<name>;` followed by whitespace or the end of the
   * text puts `name` in the interface list.
   */
  lemma ImplementsLineListed(t: string, q: nat, name: string)
    requires |name| > 0 && NoWhitespace(name)
    requires StartsAt(t, q, ".implements L" + name + ";")
    requires q + 14 + |name| == |t| || IsWhitespace(t[q + 14 + |name|])
    ensures name in ImplementsFrom(t, 0)
  {
    ImplementsLineDecl(t, q, name);
    ImplementsAtLine(t, q, q + 13 + |name|);
    ImplementsListed(t, 0, q);
  }

  /** The characters of an `.implements L<name>;` line, position by position. */
  lemma ImplementsLineDecl(t: string, q: nat, name: string)
    requires |name| > 0 && NoWhitespace(name)
    requires StartsAt(t, q, ".implements L" + name + ";")
    ensures ImplementsDecl(t, q, q + 13 + |name|)
    ensures t[q + 13..q + 13 + |name|] == name
  {
    var j := q + 13 + |name|;
    var w := ".implements L" + name + ";";
    assert t[q..q + |w|] == w;
    assert t[q..q + 11] == w[..11];
    assert t[q + 11] == w[11] && t[q + 12] == w[12] && t[j] == w[|w| - 1];
    assert t[q + 13..j] == w[13..13 + |name|];
    forall k | q + 13 <= k < j ensures !IsWhitespace(t[k]) {
      assert t[k] == w[k - q];
      assert w[k - q] == name[k - q - 13];
    }
  }

  /**
   * A declaration whose `;` is followed by whitespace or the end of the text
   * is the match at its index: the greedy name stops at that `;`.
   */
  lemma ImplementsAtLine(t: string, q: nat, j: nat)
    requires ImplementsDecl(t, q, j)
    requires j + 1 == |t| || IsWhitespace(t[j + 1])
    ensures ImplementsAt(t, q) == Some(j)
  {
    RunEndPast(t, q + 13, j);
    RunEndAt(t, q + 13, j + 1);
  }

  /** A run of non-whitespace that stops at whitespace or the end is the run `RunEnd` finds. */
  lemma {:induction false} RunEndAt(t: string, s: nat, e: nat)
    requires s <= e <= |t|
    requires forall k | s <= k < e :: !IsWhitespace(t[k])
    requires e == |t| || IsWhitespace(t[e])
    decreases e - s
    ensures RunEnd(t, s) == e
  {
    if s < e {
      RunEndAt(t, s + 1, e);
    }
  }

  /**
   * The list holds exactly the names of the implements matches at or after
   * `p`, in file order: every listed name is declared, every declaration is
   * listed, and the list is empty exactly when there is none.
   */
  lemma ImplementsFromSpec(t: string, p: nat)
    ensures forall i | 0 <= i < |ImplementsFrom(t, p)| :: ImplementsNamedFrom(t, p, ImplementsFrom(t, p)[i])
    ensures ImplementsFrom(t, p) == [] <==> forall q: nat, j: nat | p <= q :: !ImplementsDecl(t, q, j)
    ensures ImplementsFrom(t, p) == MatchNamesFrom(t, p)
    ensures forall q: nat | p <= q && ImplementsAt(t, q).Some? :: t[q + 13..ImplementsAt(t, q).value] in ImplementsFrom(t, p)
  {
    ImplementsFromNamed(t, p);
    ImplementsFromEmpty(t, p);
    ImplementsFromAll(t, p);
    forall q: nat | p <= q && ImplementsAt(t, q).Some? ensures t[q + 13..ImplementsAt(t, q).value] in ImplementsFrom(t, p) {
      ImplementsListed(t, p, q);
    }
  }

  /**
   * `parseSmaliHead`: the class pattern's first match gives the name and the
   * interface flag, the implements pattern's every match the interface list.
   */
  function ParseHead(t: string): Result<SmaliHead, HeadError> {
    match ClassSearch(t, 0)
    case None => Err(NoClassDeclaration)
    case Some((p, k, j)) =>
      ClassLineAtSound(t, p);
      Ok(SmaliHead(t[p + 8 + k..j], ImplementsFrom(t, 0), IsInterfaceKeywords(KeywordsOf(t, p, k))))
  }

  /**
   * The match of the class pattern: the leftmost declaration, read with the
   * longest keywords and then the longest name.
   */
  ghost predicate IsClassMatch(t: string, p: nat, k: nat, j: nat) {
    && ClassDecl(t, p, k, j)
    && (forall p': nat | p' < p :: !ClassDeclaredAt(t, p'))
    && (forall k': nat, j': nat | ClassDecl(t, p, k', j') :: k' <= k)
    && (forall j': nat | ClassDecl(t, p, k, j') :: j' <= j)
  }

  /** The search finds the class pattern's match, and finds none exactly when no class is declared. */
  lemma ClassSearchSpec(t: string)
    ensures ClassSearch(t, 0).Some? ==> IsClassMatch(t, ClassSearch(t, 0).value.0, ClassSearch(t, 0).value.1, ClassSearch(t, 0).value.2)
    ensures ClassSearch(t, 0).None? <==> forall p: nat :: !ClassDeclaredAt(t, p)
  {
    match ClassSearch(t, 0)
    case None =>
      forall p: nat ensures !ClassDeclaredAt(t, p) {
        ClassLineAtSpec(t, p);
      }
    case Some((p, k, j)) =>
      ClassLineAtSpec(t, p);
      assert ClassDecl(t, p, k, j);
      assert ClassDeclaredAt(t, p);
      forall p': nat | p' < p ensures !ClassDeclaredAt(t, p') {
        ClassLineAtSpec(t, p');
      }
  }

  /**
   * The parse fails exactly when the text declares no class; otherwise the
   * name and the interface flag come from the class pattern's match and the
   * interfaces from the whole text.
   */
  lemma ParseHeadSpec(t: string)
    ensures ParseHead(t).Err? <==> forall p: nat :: !ClassDeclaredAt(t, p)
    ensures ParseHead(t).Ok? ==> exists p: nat, k: nat, j: nat | IsClassMatch(t, p, k, j) ::
      && ParseHead(t).value.name == t[p + 8 + k..j]
      && ParseHead(t).value.isInterface == IsInterfaceKeywords(KeywordsOf(t, p, k))
    ensures ParseHead(t).Ok? ==> ParseHead(t).value.implements == ImplementsFrom(t, 0)
  {
    ClassSearchSpec(t);
    if ClassSearch(t, 0).Some? {
      var (p, k, j) := ClassSearch(t, 0).value;
      assert IsClassMatch(t, p, k, j);
    }
  }

  /** A `.class` line with no keywords never declares an interface. */
  lemma NoKeywordsNotInterface()
    ensures !IsInterfaceKeywords(None)
  {}

  /**
   * With keywords written as single-space-separated words, `isInterface`
   * holds exactly when one of the words is `interface`.
   */
  lemma KeywordsInterface(words: seq<string>)
    requires |words| > 0
    requires forall i | 0 <= i < |words| :: |words[i]| > 0 && NoWhitespace(words[i])
    ensures IsInterfaceKeywords(Some(" " + Join(words, " "))) <==> "interface" in words
  {
    var j := Join(words, " ");
    JoinEnds(words);
    var s := " " + j;
    assert TrimEnd(s) == s;
    var r := TrimStart(s);
    assert r == j;
    assert forall i | 0 <= i < |words| :: ' ' !in words[i] by {
      forall i, k | 0 <= i < |words| && 0 <= k < |words[i]| ensures words[i][k] != ' ' {
        assert !IsWhitespace(words[i][k]);
      }
    }
    SplitJoin(words, ' ');
  }

  /** A join of non-empty non-whitespace words starts and ends with non-whitespace. */
  lemma {:induction false} JoinEnds(words: seq<string>)
    requires |words| > 0
    requires forall i | 0 <= i < |words| :: |words[i]| > 0 && NoWhitespace(words[i])
    ensures |Join(words, " ")| > 0
    ensures !IsWhitespace(Join(words, " ")[0]) && !IsWhitespace(Join(words, " ")[|Join(words, " ")| - 1])
  {
    if |words| > 1 {
      JoinEnds(words[1..]);
      var j := Join(words, " ");
      var rest := Join(words[1..], " ");
      assert j == words[0] + " " + rest;
      assert j[0] == words[0][0];
      assert j[|j| - 1] == rest[|rest| - 1];
    }
  }
}
