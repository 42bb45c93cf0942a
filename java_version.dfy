/**
 * The parse inside `getJavaVersion`: the first `"` followed by three
 * dot-separated digit groups in the output of `java -version` gives the
 * version; a leading `1.` (Java 8 and older) is dropped and the leading
 * digit group is the major version. Running `java` is a parameter: the
 * outcome of the call is given as a value.
 */
module JavaVersion {
  import opened Base

  predicate IsDigit(c: char) {
    '0' <= c <= '9'
  }

  /** The end of the run of digits that starts at `i` (the greedy `\d+`). */
  function DigitsEnd(s: string, i: nat): (r: nat)
    requires i <= |s|
    decreases |s| - i
    ensures i <= r <= |s|
  {
    if i < |s| && IsDigit(s[i]) then DigitsEnd(s, i + 1) else i
  }

  /** The run is all digits, and no digit follows it. */
  lemma {:induction false} DigitsEndSpec(s: string, i: nat)
    requires i <= |s|
    decreases |s| - i
    ensures forall k | i <= k < DigitsEnd(s, i) :: IsDigit(s[k])
    ensures DigitsEnd(s, i) < |s| ==> !IsDigit(s[DigitsEnd(s, i)])
  {
    if i < |s| && IsDigit(s[i]) {
      DigitsEndSpec(s, i + 1);
    }
  }

  /** A digit group starting at `i` followed by a `.`: the index after the dot. */
  function GroupThenDot(s: string, i: nat): Option<nat>
    requires i <= |s|
  {
    var e := DigitsEnd(s, i);
    if e > i && e < |s| && s[e] == '.' then Some(e + 1) else None
  }

  /** `/"(\d+\.\d+\.\d+)/` tried at index `i`: the end of the captured version. */
  function VersionAt(s: string, i: nat): Option<nat>
    requires i <= |s|
  {
    if i < |s| && s[i] == '"' then
      match GroupThenDot(s, i + 1)
      case None => None
      case Some(b) =>
        match GroupThenDot(s, b)
        case None => None
        case Some(c) =>
          var e := DigitsEnd(s, c);
          if e > c then Some(e) else None
    else None
  }

  /**
   * `s[i..e]` is a quote and three digit groups separated by the dots at
   * `p` and `q`, and no digit follows.
   */
  predicate QuotedVersion(s: string, i: nat, p: nat, q: nat, e: nat) {
    && i < p && p < q && q < e <= |s|
    && s[i] == '"' && DigitGroup(s, i + 1, p)
    && s[p] == '.' && DigitGroup(s, p + 1, q)
    && s[q] == '.' && DigitGroup(s, q + 1, e)
    && (e == |s| || !IsDigit(s[e]))
  }

  /** `s[a..b]` is a non-empty run of digits. */
  predicate DigitGroup(s: string, a: nat, b: nat)
    requires b <= |s|
  {
    a < b && forall k | a <= k < b :: IsDigit(s[k])
  }

  function DigitValue(c: char): nat
    requires IsDigit(c)
  {
    c as int - '0' as int
  }

  /** A digit run ending where the digits stop is the run `DigitsEnd` finds. */
  lemma {:induction false} DigitsEndAt(s: string, i: nat, j: nat)
    requires i <= j <= |s|
    requires forall k | i <= k < j :: IsDigit(s[k])
    requires j == |s| || !IsDigit(s[j])
    decreases j - i
    ensures DigitsEnd(s, i) == j
  {
    if i < j {
      DigitsEndAt(s, i + 1, j);
    }
  }

  /** A match at `i` is a quoted three-part version, with the dots where the digit runs stop. */
  lemma VersionAtSound(s: string, i: nat)
    requires i <= |s| && VersionAt(s, i).Some?
    ensures
      var p := DigitsEnd(s, i + 1);
      QuotedVersion(s, i, p, DigitsEnd(s, p + 1), VersionAt(s, i).value)
  {
    var p := DigitsEnd(s, i + 1);
    var q := DigitsEnd(s, p + 1);
    DigitsEndSpec(s, i + 1);
    DigitsEndSpec(s, p + 1);
    DigitsEndSpec(s, q + 1);
  }

  /** A quoted three-part version at `i` is found there. */
  lemma VersionAtComplete(s: string, i: nat, p: nat, q: nat, e: nat)
    requires QuotedVersion(s, i, p, q, e)
    ensures VersionAt(s, i) == Some(e)
  {
    DigitsEndAt(s, i + 1, p);
    DigitsEndAt(s, p + 1, q);
    DigitsEndAt(s, q + 1, e);
  }

  /** The search accepts index `i` exactly when a quoted three-part version starts there. */
  lemma VersionAtSpec(s: string, i: nat, e: nat)
    requires i <= |s|
    ensures VersionAt(s, i) == Some(e) <==> exists p: nat, q: nat :: QuotedVersion(s, i, p, q, e)
  {
    if VersionAt(s, i) == Some(e) {
      VersionAtSound(s, i);
    }
    if exists p: nat, q: nat :: QuotedVersion(s, i, p, q, e) {
      var p: nat, q: nat :| QuotedVersion(s, i, p, q, e);
      VersionAtComplete(s, i, p, q, e);
    }
  }

  /** The leftmost match from `i` on: where it starts and where the version ends. */
  function FindVersionFrom(s: string, i: nat): (r: Option<(nat, nat)>)
    requires i <= |s|
    decreases |s| - i
    ensures r.Some? ==> i <= r.value.0 < r.value.1 <= |s| && VersionAt(s, r.value.0) == Some(r.value.1)
  {
    if i == |s| then None
    else
      match VersionAt(s, i)
      case Some(e) =>
        VersionAtSpec(s, i, e);
        Some((i, e))
      case None => FindVersionFrom(s, i + 1)
  }

  /** The match is the leftmost one, and there is none when no index matches. */
  lemma {:induction false} FindVersionFromSpec(s: string, i: nat)
    requires i <= |s|
    decreases |s| - i
    ensures FindVersionFrom(s, i).Some? ==> forall j | i <= j < FindVersionFrom(s, i).value.0 :: VersionAt(s, j).None?
    ensures FindVersionFrom(s, i).None? ==> forall j | i <= j <= |s| :: VersionAt(s, j).None?
  {
    if i < |s| && VersionAt(s, i).None? {
      FindVersionFromSpec(s, i + 1);
    }
  }

  /** `parseInt` on a run of decimal digits. */
  function DecimalValue(ds: string): nat
    requires forall k | 0 <= k < |ds| :: IsDigit(ds[k])
  {
    if |ds| == 0 then 0
    else DecimalValue(ds[..|ds| - 1]) * 10 + DigitValue(ds[|ds| - 1])
  }

  /** `.replace(/^1\./, '')`, then the leading `\d+`, read as a number. */
  function MajorVersion(version: string): nat {
    var v := if |version| >= 2 && version[..2] == "1." then version[2..] else version;
    DigitsEndSpec(v, 0);
    DecimalValue(v[..DigitsEnd(v, 0)])
  }

  /** Within the slice `s[a..e]`, the digit run from its start stops where it stops in `s`. */
  lemma DigitsEndSlice(s: string, a: nat, b: nat, e: nat)
    requires a <= b < e <= |s|
    requires forall k | a <= k < b :: IsDigit(s[k])
    requires !IsDigit(s[b])
    ensures DigitsEnd(s[a..e], 0) == b - a
  {
    var t := s[a..e];
    assert forall k | 0 <= k < b - a :: t[k] == s[a + k];
    assert t[b - a] == s[b];
    DigitsEndAt(t, 0, b - a);
  }

  /** The text after the quote starts with `1.` exactly when the first group is `1`. */
  lemma LeadingOne(s: string, i: nat, p: nat, q: nat, e: nat)
    requires QuotedVersion(s, i, p, q, e)
    ensures (|s[i + 1..e]| >= 2 && s[i + 1..e][..2] == "1.") <==> s[i + 1..p] == "1"
  {
    var version := s[i + 1..e];
    if s[i + 1..p] == "1" {
      assert p == i + 2;
      assert version[..2] == [s[i + 1], s[p]];
    }
    if |version| >= 2 && version[..2] == "1." {
      assert s[i + 2] == version[1] == '.';
      assert p == i + 2;
      assert s[i + 1..p] == [version[0]];
    }
  }

  /**
   * The major version of a matched version is its second group when the
   * first is `1`, and its first group otherwise.
   */
  lemma MajorVersionSpec(s: string, i: nat, p: nat, q: nat, e: nat)
    requires QuotedVersion(s, i, p, q, e)
    ensures MajorVersion(s[i + 1..e]) == if s[i + 1..p] == "1" then DecimalValue(s[p + 1..q]) else DecimalValue(s[i + 1..p])
  {
    var version := s[i + 1..e];
    LeadingOne(s, i, p, q, e);
    if s[i + 1..p] == "1" {
      var v := version[2..];
      assert v == s[p + 1..e];
      DigitsEndSlice(s, p + 1, q, e);
      assert v[..q - p - 1] == s[p + 1..q];
    } else {
      DigitsEndSlice(s, i + 1, p, e);
      assert version[..p - i - 1] == s[i + 1..p];
    }
  }

  /** The outcome of running `java -version`. */
  datatype JavaRun = Exited(stderr: string) | Failed(code: string)

  datatype JavaVersionError =
    | JavaNotFound(message: string)
    | NoVersionFound
    | RunFailed(code: string)

  const NoJavaMessage := "No \"java\" executable could be found! Make sure that Java is installed and available in your PATH."

  /**
   * `getJavaVersion`: a missing executable becomes the explanatory error,
   * output without a version makes the lookup throw, and every other failure
   * is passed on unchanged.
   */
  function GetJavaVersion(run: JavaRun): (r: Result<nat, JavaVersionError>)
    ensures run.Failed? ==> r.Err? && (r.error.JavaNotFound? <==> run.code == "ENOENT")
    ensures run.Failed? && run.code != "ENOENT" ==> r == Err(RunFailed(run.code))
  {
    match run
    case Failed(code) => if code == "ENOENT" then Err(JavaNotFound(NoJavaMessage)) else Err(RunFailed(code))
    case Exited(stderr) =>
      match FindVersionFrom(stderr, 0)
      case None => Err(NoVersionFound)
      case Some((i, e)) => Ok(MajorVersion(stderr[i + 1..e]))
  }

  /** When `java` runs, the lookup fails exactly when no index starts a quoted three-part version. */
  lemma GetJavaVersionFails(stderr: string)
    ensures GetJavaVersion(Exited(stderr)).Err? <==> forall j | 0 <= j <= |stderr| :: VersionAt(stderr, j).None?
    ensures GetJavaVersion(Exited(stderr)).Err? ==> GetJavaVersion(Exited(stderr)) == Err(NoVersionFound)
  {
    FindVersionFromSpec(stderr, 0);
  }

  /**
   * The leftmost quoted three-part version decides the result: its second
   * group when the first is `1`, its first group otherwise.
   */
  lemma GetJavaVersionFound(stderr: string, i: nat, p: nat, q: nat, e: nat)
    requires QuotedVersion(stderr, i, p, q, e)
    requires forall j | 0 <= j < i :: VersionAt(stderr, j).None?
    ensures GetJavaVersion(Exited(stderr))
      == Ok(if stderr[i + 1..p] == "1" then DecimalValue(stderr[p + 1..q]) else DecimalValue(stderr[i + 1..p]))
  {
    VersionAtSpec(stderr, i, e);
    FindVersionFromSpec(stderr, 0);
    var found := FindVersionFrom(stderr, 0);
    assert VersionAt(stderr, i).Some?;
    assert found.Some?;
    var k := found.value.0;
    assert VersionAt(stderr, k).Some?;
    assert !(k < i);
    assert !(i < k);
    assert found == Some((i, e));
    MajorVersionSpec(stderr, i, p, q, e);
  }

  const JavaEightOutput := "\"1.8.0_292\""
  const JavaElevenOutput := "\"11.0.2\""

  /** `1.8.0_292` is Java 8. */
  lemma JavaEightExample()
    ensures GetJavaVersion(Exited(JavaEightOutput)) == Ok(8)
  {
    JavaEightQuoted();
    GetJavaVersionFound(JavaEightOutput, 0, 2, 4, 6);
  }

  /** The output of Java 8: a quoted `1.8.0`, then more text; its first group is `1` and its second reads as 8. */
  lemma JavaEightQuoted()
    ensures QuotedVersion(JavaEightOutput, 0, 2, 4, 6)
    ensures JavaEightOutput[1..2] == "1" && DecimalValue(JavaEightOutput[3..4]) == 8
  {
    var a := JavaEightOutput;
    assert DigitGroup(a, 1, 2) && DigitGroup(a, 3, 4) && DigitGroup(a, 5, 6);
    assert a[3..4] == "8" && "8"[..0] == "";
  }

  /** `11.0.2` is Java 11. */
  lemma JavaElevenExample()
    ensures GetJavaVersion(Exited(JavaElevenOutput)) == Ok(11)
  {
    JavaElevenQuoted();
    GetJavaVersionFound(JavaElevenOutput, 0, 3, 5, 7);
  }

  /** The output of Java 11: a quoted `11.0.2`; its first group is not `1` and reads as 11. */
  lemma JavaElevenQuoted()
    ensures QuotedVersion(JavaElevenOutput, 0, 3, 5, 7)
    ensures JavaElevenOutput[1..3] != "1" && DecimalValue(JavaElevenOutput[1..3]) == 11
  {
    var b := JavaElevenOutput;
    assert DigitGroup(b, 1, 3) && DigitGroup(b, 4, 5) && DigitGroup(b, 6, 7);
    assert b[1..3] == "11" && "11"[..1] == "1" && "1"[..0] == "";
  }

  /** A bare `"17"` has no three-part version, and the lookup fails. */
  lemma JavaSeventeenExample()
    ensures GetJavaVersion(Exited("\"17\"")) == Err(NoVersionFound)
  {
    var c := "\"17\"";
    DigitsEndAt(c, 1, 3);
    DigitsEndAt(c, 4, 4);
    assert VersionAt(c, 0).None?;
    assert VersionAt(c, 3).None?;
    forall j | 0 <= j <= |c| ensures VersionAt(c, j).None? {
      if j != 0 && j != 3 {
        assert j == 4 || c[j] != '"';
      }
    }
    GetJavaVersionFails(c);
  }
}
