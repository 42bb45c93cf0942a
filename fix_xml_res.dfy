/**
 * The repair of string resources whose values hold raw markup: each
 * `<string name="…">…</string>` element of the decoded app's `strings.xml`
 * files whose value contains `<` or `>` gets its value escaped.
 */
module FixXmlRes {
  import opened Base
  import opened Text
  import opened FileSystem
  import opened PosixPath
  import opened BuildGlob

  /** `value.replace(/</g, '&lt;').replace(/>/g, '&gt;')`. */
  function EscapeXmlTags(value: string): string {
    ReplaceChar(ReplaceChar(value, '<', "&lt;"), '>', "&gt;")
  }

  /** What one character becomes: the reference definition of the escape. */
  function EscapedChar(c: char): string {
    if c == '<' then "&lt;" else if c == '>' then "&gt;" else [c]
  }

  /** The escape applied character by character. */
  function EscapeEach(value: string): string {
    if |value| == 0 then "" else EscapedChar(value[0]) + EscapeEach(value[1..])
  }

  /** The two chained replacements escape each character on its own. */
  lemma {:induction false} EscapeIsPointwise(value: string)
    ensures EscapeXmlTags(value) == EscapeEach(value)
  {
    if |value| > 0 {
      EscapeIsPointwise(value[1..]);
      var head := if value[0] == '<' then "&lt;" else [value[0]];
      assert ReplaceChar(value, '<', "&lt;") == head + ReplaceChar(value[1..], '<', "&lt;");
      ReplaceCharConcat(head, ReplaceChar(value[1..], '<', "&lt;"), '>', "&gt;");
      assert ReplaceChar(head, '>', "&gt;") == EscapedChar(value[0]) by {
        if value[0] == '<' {
          assert head == ['&'] + "lt;";
          ReplaceCharAbsent(head, '>', "&gt;");
        } else {
          assert head[1..] == [];
        }
      }
    }
  }

  /** The escape distributes over concatenation. */
  lemma EscapeConcat(a: string, b: string)
    ensures EscapeXmlTags(a + b) == EscapeXmlTags(a) + EscapeXmlTags(b)
  {
    ReplaceCharConcat(a, b, '<', "&lt;");
    ReplaceCharConcat(ReplaceChar(a, '<', "&lt;"), ReplaceChar(b, '<', "&lt;"), '>', "&gt;");
  }

  /** The escaped text holds no `<` and no `>`. */
  lemma EscapeRemovesTags(value: string)
    ensures '<' !in EscapeXmlTags(value) && '>' !in EscapeXmlTags(value)
  {
    var once := ReplaceChar(value, '<', "&lt;");
    ReplaceCharKeeps(once, '>', "&gt;", '<');
  }

  /** A text without `<` and `>` is its own escape (an `&` is left alone). */
  lemma EscapeWithoutTags(value: string)
    requires '<' !in value && '>' !in value
    ensures EscapeXmlTags(value) == value
  {
    ReplaceCharAbsent(value, '<', "&lt;");
    ReplaceCharAbsent(value, '>', "&gt;");
  }

  /** The escape forgets whether a `<` was written raw or already escaped. */
  lemma EscapeNotInjective()
    ensures EscapeXmlTags("<") == EscapeXmlTags("&lt;")
  {
    EscapeIsPointwise("<");
    assert EscapeEach("<") == EscapedChar('<') + EscapeEach("");
    assert Lacks("&lt;", '<') && Lacks("&lt;", '>');
    LacksIff("&lt;", '<');
    LacksIff("&lt;", '>');
    EscapeWithoutTags("&lt;");
  }

  const StringOpen := "<string name=\""
  const NameClose := "\">"
  const StringClose := "</string>"

  /** One match of `/<string name="(.*?)">(.*?)<\/string>/s`: where it starts and ends, its name and value. */
  datatype StringMatch = StringMatch(start: nat, name: string, value: string, end: nat)

  /**
   * The match at `p` of `open`, a lazy group, `mid`, a lazy group, `close`:
   * the first group runs to the first `mid`, the second to the first
   * `close` after it (a later `mid` could only find a later `close`).
   */
  function Delimited(xml: string, p: nat, open: string, mid: string, close: string): (r: Option<StringMatch>)
    ensures r.Some? ==> r.value.start == p && p + |open| + |mid| + |close| <= r.value.end <= |xml|
  {
    if !StartsAt(xml, p, open) then None
    else match IndexOfFrom(xml, mid, p + |open|)
      case None => None
      case Some(q) =>
        match IndexOfFrom(xml, close, q + |mid|)
        case None => None
        case Some(e) => Some(StringMatch(p, xml[p + |open|..q], xml[q + |mid|..e], After(e, close)))
  }

  /** The match of the string regex starting at `p`, if any. */
  function MatchAt(xml: string, p: nat): (r: Option<StringMatch>)
    ensures r.Some? ==> r.value.start == p && p + |StringOpen| + |NameClose| + |StringClose| <= r.value.end <= |xml|
  {
    Delimited(xml, p, StringOpen, NameClose, StringClose)
  }
  /** `stringRegex.exec(xml)` with `lastIndex` at `from`: the leftmost match at or after it. */
  function NextMatch(xml: string, from: nat): (r: Option<StringMatch>)
    decreases |xml| - from
    ensures r.Some? ==> from <= r.value.start && MatchAt(xml, r.value.start) == r
  {
    if from + |StringOpen| > |xml| then None
    else if MatchAt(xml, from).Some? then MatchAt(xml, from)
    else NextMatch(xml, from + 1)
  }

  /** `exec` finds the leftmost match: none starts between `from` and the one it returns, or anywhere when it returns none. */
  lemma NextMatchLeftmost(xml: string, from: nat)
    ensures NextMatch(xml, from).Some? ==> forall p | from <= p < NextMatch(xml, from).value.start :: MatchAt(xml, p).None?
    ensures NextMatch(xml, from).None? ==> forall p | from <= p :: MatchAt(xml, p).None?
  {
    forall p | from <= p && (NextMatch(xml, from).None? || p < NextMatch(xml, from).value.start)
      ensures MatchAt(xml, p).None?
    {
      NoMatchBefore(xml, from, p);
    }
  }

  lemma {:induction false} NoMatchBefore(xml: string, from: nat, p: nat)
    requires from <= p && (NextMatch(xml, from).None? || p < NextMatch(xml, from).value.start)
    decreases p - from
    ensures MatchAt(xml, p).None?
  {
    if from + |StringOpen| > |xml| {
      assert !StartsAt(xml, p, StringOpen);
    } else if from < p {
      NoMatchBefore(xml, from + 1, p);
    }
  }

  /** Every match the loop visits, from `lastIndex` = `from` on, in order. */
  function Matches(xml: string, from: nat): seq<StringMatch>
    decreases |xml| - from
  {
    match NextMatch(xml, from)
    case None => []
    case Some(m) => [m] + Matches(xml, m.end)
  }

  /** The visit from `from` is its first match followed by the visit from that match's end. */
  lemma MatchesStep(xml: string, from: nat)
    requires NextMatch(xml, from).Some?
    ensures NextMatch(xml, from).value.end <= |xml|
    ensures Matches(xml, from) == [NextMatch(xml, from).value] + Matches(xml, NextMatch(xml, from).value.end)
  {
  }

  /** Every match the loop visits is a real match at or after where the visit began. */
  lemma {:induction false} MatchesFound(xml: string, from: nat)
    decreases |xml| - from
    ensures forall i | 0 <= i < |Matches(xml, from)| ::
      from <= Matches(xml, from)[i].start && MatchAt(xml, Matches(xml, from)[i].start) == Some(Matches(xml, from)[i])
  {
    match NextMatch(xml, from)
    case None =>
    case Some(m) =>
      MatchesFound(xml, m.end);
      assert Matches(xml, from) == [m] + Matches(xml, m.end);
  }

  /** The visited matches come in order and do not overlap. */
  lemma {:induction false} MatchesOrdered(xml: string, from: nat)
    decreases |xml| - from
    ensures forall i | 0 <= i < |Matches(xml, from)| - 1 :: Matches(xml, from)[i].end <= Matches(xml, from)[i + 1].start
  {
    match NextMatch(xml, from)
    case None =>
    case Some(m) =>
      MatchesOrdered(xml, m.end);
      var rest := Matches(xml, m.end);
      assert Matches(xml, from) == [m] + rest;
      if |rest| > 0 {
        assert rest[0] == NextMatch(xml, m.end).value;
      }
  }

  /** No match starts between two visited matches: the loop skips none. */
  lemma {:induction false} MatchesNoneSkipped(xml: string, from: nat)
    decreases |xml| - from
    ensures forall i, p | 0 <= i < |Matches(xml, from)| - 1 && Matches(xml, from)[i].end <= p < Matches(xml, from)[i + 1].start ::
      MatchAt(xml, p).None?
  {
    match NextMatch(xml, from)
    case None =>
    case Some(m) =>
      MatchesNoneSkipped(xml, m.end);
      NextMatchLeftmost(xml, m.end);
      var rest := Matches(xml, m.end);
      assert Matches(xml, from) == [m] + rest;
      if |rest| > 0 {
        assert rest[0] == NextMatch(xml, m.end).value;
      }
  }

  /** The text a delimited match covers is rebuilt from its delimiters and groups. */
  lemma DelimitedText(xml: string, p: nat, open: string, mid: string, close: string)
    requires Delimited(xml, p, open, mid, close).Some?
    ensures var m := Delimited(xml, p, open, mid, close).value;
      xml[p..m.end] == open + m.name + mid + m.value + close
  {
    var m := Delimited(xml, p, open, mid, close).value;
    var n := p + |open|;
    var q := IndexOfFrom(xml, mid, n).value;
    var v := q + |mid|;
    var e := IndexOfFrom(xml, close, v).value;
    assert m.name == xml[n..q] && m.value == xml[v..e] && m.end == e + |close|;
    assert xml[p..n] == open && xml[q..v] == mid && xml[e..m.end] == close;
    SliceSplit(xml, v, e, m.end);
    SliceSplit(xml, q, v, m.end);
    SliceSplit(xml, n, q, m.end);
    SliceSplit(xml, p, n, m.end);
    AppendAssoc(open, m.name, xml[q..m.end]);
    AppendAssoc(open + m.name, mid, xml[v..m.end]);
    AppendAssoc(open + m.name + mid, m.value, close);
  }

  /** Neither group of a delimited match contains the delimiter that ends it. */
  lemma DelimitedClean(xml: string, p: nat, open: string, mid: string, close: string)
    requires |mid| > 0 && |close| > 0 && Delimited(xml, p, open, mid, close).Some?
    ensures !Contains(Delimited(xml, p, open, mid, close).value.name, mid)
    ensures !Contains(Delimited(xml, p, open, mid, close).value.value, close)
  {
    var m := Delimited(xml, p, open, mid, close).value;
    var n := p + |open|;
    var q := IndexOfFrom(xml, mid, n).value;
    var v := q + |mid|;
    var e := IndexOfFrom(xml, close, v).value;
    assert m.name == xml[n..q] && m.value == xml[v..e];
    IndexOfFromClean(xml, mid, n);
    IndexOfFromClean(xml, close, v);
  }

  /** The text a match covers is the element rebuilt from its name and value. */
  lemma MatchAtText(xml: string, p: nat)
    requires MatchAt(xml, p).Some?
    ensures var m := MatchAt(xml, p).value;
      xml[p..m.end] == StringOpen + m.name + NameClose + m.value + StringClose
  {
    DelimitedText(xml, p, StringOpen, NameClose, StringClose);
  }

  /** The name holds no `">` and the value no `</string>`: each group stops at the first one. */
  lemma MatchClean(xml: string, p: nat)
    requires MatchAt(xml, p).Some?
    ensures !Contains(MatchAt(xml, p).value.name, NameClose)
    ensures !Contains(MatchAt(xml, p).value.value, StringClose)
  {
    assert |NameClose| > 0 && |StringClose| > 0;
    DelimitedClean(xml, p, StringOpen, NameClose, StringClose);
  }

  /** `value.includes('>') || value.includes('<')`. */
  predicate HasTag(value: string) {
    '<' in value || '>' in value
  }

  /** `<string name="${name}">${escapedValue}</string>`. */
  function Replacement(name: string, escapedValue: string): string {
    StringOpen + name + NameClose + escapedValue + StringClose
  }

  /**
   * The replacement text of `String.prototype.replace` with a string
   * pattern: `$$` is a dollar sign, `$&` the matched text, `` $` `` the text
   * before the match and `$'` the text after it; any other `$` stays.
   */
  function Substitute(replacement: string, matched: string, before: string, after: string): string
    decreases |replacement|
  {
    if |replacement| == 0 then ""
    else if replacement[0] == '$' && |replacement| >= 2 && replacement[1] in "$&`'" then
      var piece := if replacement[1] == '$' then "$" else if replacement[1] == '&' then matched
        else if replacement[1] == '`' then before else after;
      piece + Substitute(replacement[2..], matched, before, after)
    else [replacement[0]] + Substitute(replacement[1..], matched, before, after)
  }

  /** A replacement without `$` is inserted as written. */
  lemma {:induction false} SubstituteLiteral(replacement: string, matched: string, before: string, after: string)
    requires '$' !in replacement
    ensures Substitute(replacement, matched, before, after) == replacement
  {
    if |replacement| > 0 {
      SubstituteLiteral(replacement[1..], matched, before, after);
      assert replacement == [replacement[0]] + replacement[1..];
    }
  }

  /** `text.replace(pattern, replacement)`: only the first occurrence is replaced. */
  function ReplaceFirst(text: string, pattern: string, replacement: string): string {
    match IndexOfFrom(text, pattern, 0)
    case None => text
    case Some(i) =>
      var after := text[i + |pattern|..];
      text[..i] + Substitute(replacement, pattern, text[..i], after) + after
  }

  /** One pass of the loop body on the text built so far. */
  function Edit(current: string, m: StringMatch): string {
    if HasTag(m.value) then ReplaceFirst(current, m.value, Replacement(m.name, EscapeXmlTags(m.value))) else current
  }

  /** The text after the loop, continued from `lastIndex` = `from` on the text built so far. */
  function EditsFrom(current: string, xml: string, from: nat): string
    decreases |xml| - from
  {
    match NextMatch(xml, from)
    case None => current
    case Some(m) => EditsFrom(Edit(current, m), xml, m.end)
  }

  /** The new text of a strings file: the loop body applied for every match of the original text. */
  function FixedXml(xml: string): string {
    EditsFrom(xml, xml, 0)
  }

  /**
   * An edit touches the text only for a value with markup, and then puts the
   * whole escaped element (a dollar-free name and value are inserted as
   * written) where the value first occurs, leaving the original tags around it.
   */
  lemma EditSpec(current: string, m: StringMatch)
    ensures !HasTag(m.value) ==> Edit(current, m) == current
    ensures HasTag(m.value) && !Contains(current, m.value) ==> Edit(current, m) == current
    ensures HasTag(m.value) && '$' !in m.name && '$' !in m.value ==>
      match IndexOfFrom(current, m.value, 0)
      case None => true
      case Some(i) =>
        Edit(current, m) == current[..i] + Replacement(m.name, EscapeXmlTags(m.value)) + current[i + |m.value|..]
  {
    if HasTag(m.value) && '$' !in m.name && '$' !in m.value {
      var escaped := EscapeXmlTags(m.value);
      assert '$' !in escaped by {
        EscapeIsPointwise(m.value);
        EscapeEachKeeps(m.value, '$');
      }
      var rep := Replacement(m.name, escaped);
      assert '$' !in rep by {
        assert Lacks(StringOpen, '$') && Lacks(NameClose, '$') && Lacks(StringClose, '$');
        LacksIff(m.name, '$');
        LacksIff(escaped, '$');
        LacksConcat(StringOpen, m.name, '$');
        LacksConcat(StringOpen + m.name, NameClose, '$');
        LacksConcat(StringOpen + m.name + NameClose, escaped, '$');
        LacksConcat(StringOpen + m.name + NameClose + escaped, StringClose, '$');
        LacksIff(rep, '$');
      }
      match IndexOfFrom(current, m.value, 0)
      case None =>
      case Some(i) =>
        SubstituteLiteral(rep, m.value, current[..i], current[i + |m.value|..]);
    }
  }

  /** The per-character escape brings in no character but `&`, `l`, `g`, `t`, `;` and those already there. */
  lemma {:induction false} EscapeEachKeeps(value: string, d: char)
    requires d != '&' && d != 'l' && d != 'g' && d != 't' && d != ';' && d !in value
    ensures d !in EscapeEach(value)
  {
    if |value| > 0 {
      EscapeEachKeeps(value[1..], d);
      assert d !in EscapedChar(value[0]);
    }
  }

  /** A file whose string values hold no markup is written back exactly as it was read. */
  lemma NoMarkupUnchanged(xml: string)
    requires forall i | 0 <= i < |Matches(xml, 0)| :: !HasTag(Matches(xml, 0)[i].value)
    ensures FixedXml(xml) == xml
  {
    EditsKeep(xml, xml, 0);
  }

  lemma {:induction false} EditsKeep(current: string, xml: string, from: nat)
    requires forall i | 0 <= i < |Matches(xml, from)| :: !HasTag(Matches(xml, from)[i].value)
    decreases |xml| - from
    ensures EditsFrom(current, xml, from) == current
  {
    match NextMatch(xml, from)
    case None =>
    case Some(m) =>
      MatchesStep(xml, from);
      assert Matches(xml, from)[0] == m;
      assert forall i | 0 <= i < |Matches(xml, m.end)| :: Matches(xml, m.end)[i] == Matches(xml, from)[i + 1];
      assert Edit(current, m) == current;
      EditsKeep(current, xml, m.end);
  }

  /** The element the edit inserts is itself a string element with the escaped value, closed where the edit ends. */
  lemma ReplacementMatches(name: string, value: string)
    requires !Contains(name, NameClose)
    ensures MatchAt(Replacement(name, EscapeXmlTags(value)), 0)
         == Some(StringMatch(0, name, EscapeXmlTags(value), |Replacement(name, EscapeXmlTags(value))|))
  {
    EscapeRemovesTags(value);
    ElementMatches(name, EscapeXmlTags(value));
  }

  /** A string element whose name has no `">` and whose value has no `<` is matched whole. */
  lemma ElementMatches(name: string, value: string)
    requires !Contains(name, NameClose) && '<' !in value
    ensures MatchAt(Replacement(name, value), 0) == Some(StringMatch(0, name, value, |Replacement(name, value)|))
  {
    assert |NameClose| == 2 && NameClose[0] != NameClose[1] && |StringClose| > 0 && StringClose[0] == '<';
    DelimitedElement(StringOpen, NameClose, StringClose, name, value);
  }

  /**
   * The delimiters around two groups are matched back as those groups when
   * the first holds no `mid` (a two-character delimiter that cannot overlap
   * itself) and the second no first character of `close`.
   */
  lemma DelimitedElement(open: string, mid: string, close: string, name: string, value: string)
    requires |mid| == 2 && mid[0] != mid[1] && |close| > 0 && close[0] !in value
    requires !Contains(name, mid)
    ensures var s := open + name + mid + value + close;
      Delimited(s, 0, open, mid, close) == Some(StringMatch(0, name, value, |s|))
  {
    DelimitedLayout(open, mid, close, name, value);
    DelimitedFound(open + name + mid + value + close, open, mid, close, name, value);
  }

  /** A text laid out as `open`, the first group, `mid`, the second group, `close` is matched back as those groups. */
  lemma DelimitedFound(s: string, open: string, mid: string, close: string, name: string, value: string)
    requires |mid| == 2 && mid[0] != mid[1] && |close| > 0 && close[0] !in value && !Contains(name, mid)
    requires var q := |open| + |name|;
      var v := q + |mid|;
      var e := v + |value|;
      && |s| == e + |close|
      && StartsAt(s, 0, open)
      && s[|open|..q] == name
      && StartsAt(s, q, mid)
      && s[v..e] == value
      && StartsAt(s, e, close)
    ensures Delimited(s, 0, open, mid, close) == Some(StringMatch(0, name, value, |s|))
  {
    var q := |open| + |name|;
    var v := q + |mid|;
    var e := v + |value|;
    MidFound(s, mid, |open|, name, q);
    CloseFound(s, close, v, e, value);
    assert After(e, close) == |s|;
    DelimitedAt(s, open, mid, close, q, e, name, value, |s|);
  }

  /** Where the two searches stop decides the match. */
  lemma DelimitedAt(s: string, open: string, mid: string, close: string, q: nat, e: nat, name: string, value: string, end: nat)
    requires StartsAt(s, 0, open)
    requires IndexOfFrom(s, mid, |open|) == Some(q) && IndexOfFrom(s, close, q + |mid|) == Some(e)
    requires s[|open|..q] == name && s[q + |mid|..e] == value && After(e, close) == end
    ensures Delimited(s, 0, open, mid, close) == Some(StringMatch(0, name, value, end))
  {
    var r := Delimited(s, 0, open, mid, close);
    assert r == Some(StringMatch(0, s[|open|..q], s[q + |mid|..e], After(e, close)));
  }

  /** In a text where a group free of a two-character `mid` is followed by `mid`, the search for `mid` from the group's start ends right after it. */
  lemma MidFound(s: string, mid: string, n: nat, name: string, q: nat)
    requires |mid| == 2 && mid[0] != mid[1] && !Contains(name, mid)
    requires n <= q && StartsAt(s, q, mid) && s[n..q] == name
    ensures IndexOfFrom(s, mid, n) == Some(q)
  {
    ContainsIff(name, mid);
    assert forall i | 0 <= i < |name| :: name[i] == s[n + i];
    forall k | n <= k < q
      ensures !StartsAt(s, k, mid)
    {
      if k + 1 < q {
        assert s[k..k + 2] == name[k - n..k - n + 2];
        assert !StartsAt(name, k - n, mid);
      } else {
        assert s[k + 1] == mid[0];
      }
    }
    IndexOfFromIs(s, mid, n, q);
  }

  /** When the text from `v` up to `e` holds no first character of `close` and `close` sits at `e`, the search for it from `v` finds `e`. */
  lemma CloseFound(s: string, close: string, v: nat, e: nat, value: string)
    requires |close| > 0 && v <= e && StartsAt(s, e, close) && s[v..e] == value && close[0] !in value
    ensures IndexOfFrom(s, close, v) == Some(e)
  {
    forall k | v <= k < e
      ensures !StartsAt(s, k, close)
    {
      assert s[k] == value[k - v];
      if k + |close| <= |s| {
        assert s[k..k + |close|][0] == s[k];
      }
    }
    IndexOfFromIs(s, close, v, e);
  }

  /** Where the pieces of a delimited element sit in its text. */
  lemma DelimitedLayout(open: string, mid: string, close: string, name: string, value: string)
    ensures var s := open + name + mid + value + close;
      var q := |open| + |name|;
      var v := q + |mid|;
      var e := v + |value|;
      && |s| == e + |close|
      && StartsAt(s, 0, open)
      && s[|open|..q] == name
      && StartsAt(s, q, mid)
      && s[v..e] == value
      && StartsAt(s, e, close)
  {
  }

  /** `processXmlFile`'s loop: `exec` from `lastIndex`, edit, continue after the match. */
  method ProcessXml(xml: string) returns (newXml: string)
    ensures newXml == FixedXml(xml)
  {
    newXml := xml;
    var lastIndex: nat := 0;
    var found := NextMatch(xml, lastIndex);
    while found.Some?
      invariant lastIndex <= |xml|
      invariant found == NextMatch(xml, lastIndex)
      invariant EditsFrom(newXml, xml, lastIndex) == FixedXml(xml)
      decreases |xml| - lastIndex
    {
      var m := found.value;
      if HasTag(m.value) {
        var escapedValue := EscapeXmlTags(m.value);
        newXml := ReplaceFirst(newXml, m.value, Replacement(m.name, escapedValue));
      }
      lastIndex := m.end;
      found := NextMatch(xml, lastIndex);
    }
  }

  /** `processXmlFile`: the file is read and always written back, changed or not. */
  method ProcessXmlFile(fs: FileStore, filePath: string) returns (ok: bool)
    modifies fs
    ensures ok == (filePath in old(fs.files))
    ensures ok ==> fs.files == old(fs.files)[filePath := FixedXml(old(fs.files)[filePath])]
    ensures ok ==> fs.writes == old(fs.writes) + [filePath]
    ensures !ok ==> fs.files == old(fs.files) && fs.writes == old(fs.writes)
  {
    var read := fs.ReadFile(filePath);
    if read.None? {
      return false;
    }
    var newXml := ProcessXml(read.value);
    fs.WriteFile(filePath, newXml);
    ok := true;
  }

  const StringsPattern := "res/*/strings.xml"

  /** The glob handed to the file listing: every `strings.xml` one directory below `res`, in POSIX form. */
  function StringsGlob(directoryPath: string, sep: char): string {
    PosixJoin([ToPosix(directoryPath, sep), StringsPattern])
  }

  /** The listing's glob is the one `buildGlob` builds from the directory and the pattern. */
  lemma StringsGlobIsBuildGlob(directoryPath: string, sep: char)
    requires sep == '/' || sep == '\\'
    ensures StringsGlob(directoryPath, sep) == BuildGlob.BuildGlob([directoryPath, StringsPattern], sep)
  {
    if sep == '\\' {
      assert Lacks(StringsPattern, sep);
      LacksIff(StringsPattern, sep);
    }
    BuildGlob.BuildGlobPair(directoryPath, StringsPattern, sep);
  }

  /** The files after the loop over the listed paths. */
  function FixAll(files: map<string, string>, paths: seq<string>): map<string, string>
  {
    if |paths| == 0 then files
    else
      var f := FixAll(files, paths[..|paths| - 1]);
      var p := paths[|paths| - 1];
      if p in f then f[p := FixedXml(f[p])] else f
  }

  /** `fixXmlRes` over the files the glob (`StringsGlob`) listed: each is processed in turn. */
  method FixXmlResFiles(fs: FileStore, paths: seq<string>)
    requires forall p | p in paths :: p in fs.files
    modifies fs
    ensures fs.files == FixAll(old(fs.files), paths)
    ensures fs.writes == old(fs.writes) + paths
  {
    for k := 0 to |paths|
      invariant fs.files == FixAll(old(fs.files), paths[..k])
      invariant fs.writes == old(fs.writes) + paths[..k]
      invariant fs.files.Keys == old(fs.files).Keys
    {
      assert paths[..k + 1][..k] == paths[..k];
      assert paths[k] in paths;
      var _ := ProcessXmlFile(fs, paths[k]);
    }
    assert paths[..|paths|] == paths;
  }

  /** The listed files keep their paths, and a file listed once ends up fixed once. */
  lemma {:induction false} FixAllSpec(files: map<string, string>, paths: seq<string>)
    ensures FixAll(files, paths).Keys == files.Keys
    ensures forall p | p in files && p !in paths :: FixAll(files, paths)[p] == files[p]
    ensures forall i | 0 <= i < |paths| && paths[i] in files && (forall j | 0 <= j < |paths| && j != i :: paths[j] != paths[i]) ::
      FixAll(files, paths)[paths[i]] == FixedXml(files[paths[i]])
  {
    if |paths| > 0 {
      var init := paths[..|paths| - 1];
      FixAllSpec(files, init);
      forall i | 0 <= i < |init| && init[i] in files && (forall j | 0 <= j < |paths| && j != i :: paths[j] != paths[i])
        ensures FixAll(files, paths)[init[i]] == FixedXml(files[init[i]])
      {
        assert forall j | 0 <= j < |init| && j != i :: init[j] == paths[j];
      }
      var last := paths[|paths| - 1];
      if last in files && forall j | 0 <= j < |paths| - 1 :: paths[j] != last {
        assert last !in init;
      }
    }
  }
}
