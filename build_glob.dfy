/**
 * `buildGlob`: each component has the platform's separator turned into `/`,
 * and the components are then joined as POSIX paths, so that the pattern
 * works for the glob library on every platform.
 */
module BuildGlob {
  import opened Text
  import opened PosixPath

  /** `component.split(path.sep).join(path.posix.sep)`. */
  function ToPosix(component: string, sep: char): string {
    Join(Split(component, sep), "/")
  }

  /** `buildGlob(...components)` on a platform whose separator is `sep`. */
  function BuildGlob(components: seq<string>, sep: char): string {
    PosixJoin(seq(|components|, i requires 0 <= i < |components| => ToPosix(components[i], sep)))
  }

  /** The glob is the POSIX join of the converted components. */
  lemma BuildGlobIs(components: seq<string>, sep: char, converted: seq<string>)
    requires |converted| == |components|
    requires forall i | 0 <= i < |components| :: converted[i] == ToPosix(components[i], sep)
    ensures BuildGlob(components, sep) == PosixJoin(converted)
  {
    assert converted == seq(|components|, i requires 0 <= i < |components| => ToPosix(components[i], sep));
  }

  /** With a second component free of the separator, only the first is converted. */
  lemma BuildGlobPair(first: string, second: string, sep: char)
    requires sep == '/' || sep !in second
    ensures BuildGlob([first, second], sep) == PosixJoin([ToPosix(first, sep), second])
  {
    if sep == '/' {
      ToPosixOnPosix(second);
    } else {
      ToPosixWithoutSep(second, sep);
    }
    BuildGlobIs([first, second], sep, [ToPosix(first, sep), second]);
  }

  /** The conversion puts `/` exactly where the separator was and keeps every other character. */
  lemma ToPosixSpec(component: string, sep: char)
    ensures |ToPosix(component, sep)| == |component|
    ensures forall i | 0 <= i < |component| ::
      ToPosix(component, sep)[i] == if component[i] == sep then '/' else component[i]
  {
    SplitJoinReplaces(component, sep, "/");
    ReplaceCharPointwise(component, sep, '/');
  }

  /** With `/` as the separator the conversion changes nothing. */
  lemma ToPosixOnPosix(component: string)
    ensures ToPosix(component, '/') == component
  {
    JoinSplit(component, '/');
  }

  /** A component without the separator is kept as it is. */
  lemma ToPosixWithoutSep(component: string, sep: char)
    requires sep !in component
    ensures ToPosix(component, sep) == component
  {
    assert Split(component, sep) == [component];
  }

  /** On POSIX, building the glob is joining the components as they are. */
  lemma BuildGlobOnPosix(components: seq<string>)
    ensures BuildGlob(components, '/') == PosixJoin(components)
  {
    var converted := seq(|components|, i requires 0 <= i < |components| => ToPosix(components[i], '/'));
    forall i | 0 <= i < |components| ensures converted[i] == components[i] {
      ToPosixOnPosix(components[i]);
    }
    assert converted == components;
  }

  /** Plain components without the separator are joined with `/`. */
  lemma BuildGlobPlain(components: seq<string>, sep: char)
    requires |components| > 0
    requires forall i | 0 <= i < |components| :: PlainSegment(components[i]) && sep !in components[i]
    ensures BuildGlob(components, sep) == Join(components, "/")
  {
    var converted := seq(|components|, i requires 0 <= i < |components| => ToPosix(components[i], sep));
    forall i | 0 <= i < |components| ensures converted[i] == components[i] {
      ToPosixWithoutSep(components[i], sep);
    }
    assert converted == components;
    PosixJoinPlain(components);
  }

  /** On Windows the glob holds no backslash. */
  lemma BuildGlobOnWindows(components: seq<string>)
    ensures '\\' !in BuildGlob(components, '\\')
  {
    var converted := seq(|components|, i requires 0 <= i < |components| => ToPosix(components[i], '\\'));
    forall i | 0 <= i < |components| ensures '\\' !in converted[i] {
      SplitJoinReplaces(components[i], '\\', "/");
    }
    PosixJoinLacks(converted, '\\');
  }
}
