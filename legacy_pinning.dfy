/**
 * `disableCertificatePinning`: the older engine that only handles
 * `javax.net.ssl.X509TrustManager`. It scans every Smali file under the
 * decoded directory, skips files that do not mention the interface, rewrites
 * the three trust-manager methods with the same block layout as the Smali
 * patcher and writes back the files that changed. The Listr step is skipped, not
 * failed, when no file changed.
 */
module LegacyPinning {
  import opened Base
  import opened Text
  import opened SmaliMethod
  import opened SmaliPatches
  import opened StepFold
  import opened LineEndings
  import opened FileSystem
  import opened PosixPath
  import opened BuildGlob
  import ProcessFile

  /** Only files holding this line are examined. */
  const InterfaceLine := ".implements Ljavax/net/ssl/X509TrustManager;"

  /** The methods that are rewritten, in this order (the descriptors spelled as in the catalog). */
  const MethodSignatures: seq<string> := [
    Signature("checkClientTrusted", X509CertificateArray + StringType, "V"),
    Signature("checkServerTrusted", X509CertificateArray + StringType, "V"),
    Signature("getAcceptedIssuers", "", X509CertificateArray)
  ]

  /** `METHOD_PATTERNS`: one method pattern per signature. */
  const MethodPatterns: seq<MethodPattern> := [
    CreateMethodPattern(MethodSignatures[0]),
    CreateMethodPattern(MethodSignatures[1]),
    CreateMethodPattern(MethodSignatures[2])
  ]

  /** Code inserted into `checkClientTrusted` and `checkServerTrusted`. */
  const ReturnVoidFix: seq<string> := [".locals 0", "return-void"]

  /** Code inserted into `getAcceptedIssuers`. */
  const ReturnEmptyArrayFix: seq<string> := [
    ".locals 1",
    "const/4 v0, 0x0",
    "new-array v0, v0, " + X509CertificateArray,
    "return-object v0"
  ]

  /** The name whose presence in the opening line selects the empty-array fix. */
  const AcceptedIssuersName := "getAcceptedIssuers"

  /** The fix chosen by looking at the matched opening line. */
  function FixFor(opening: string): seq<string> {
    if Contains(opening, AcceptedIssuersName) then ReturnEmptyArrayFix else ReturnVoidFix
  }

  /** One iteration of the pattern loop: every block the pattern matches is rewritten. */
  function PatternStep(t: string, pat: MethodPattern): string {
    ReplaceAll(t, pat, Rewriter(FixFor))
  }

  /** The text after the loop over `METHOD_PATTERNS`. */
  function PatchTrustManager(t: string): string {
    Fold(PatternStep, t, MethodPatterns)
  }

  const SmaliPattern := "smali*/**/*.smali"

  /** The glob handed to the file listing: every `.smali` file below a `smali` directory of the decoded tree, in POSIX form. */
  function SmaliGlob(directoryPath: string, sep: char): string {
    PosixJoin([ToPosix(directoryPath, sep), SmaliPattern])
  }

  /** The listing's glob is the one `buildGlob` builds from the directory and the pattern. */
  lemma SmaliGlobIsBuildGlob(directoryPath: string, sep: char)
    requires sep == '/' || sep == '\\'
    ensures SmaliGlob(directoryPath, sep) == BuildGlob.BuildGlob([directoryPath, SmaliPattern], sep)
  {
    PatternWithoutSep(sep);
    BuildGlob.BuildGlobPair(directoryPath, SmaliPattern, sep);
  }

  lemma PatternWithoutSep(sep: char)
    requires sep == '/' || sep == '\\'
    ensures sep !in SmaliPattern || sep == '/'
  {
    if sep == '\\' {
      assert Lacks(SmaliPattern, sep);
      LacksIff(SmaliPattern, sep);
    }
  }

  /** The legacy signatures are the catalog's three trust-manager signatures. */
  lemma SignaturesAreCatalogs()
    ensures MethodSignatures == [CheckClientTrustedSignature, CheckServerTrustedSignature, GetAcceptedIssuersSignature]
  {
  }

  /** The legacy fixes are the catalog's return-void and empty-array snippets. */
  lemma FixesAreCatalogs()
    ensures ReturnVoidFix == ReturnVoidSmali && ReturnEmptyArrayFix == ReturnEmptyCertArraySmali
  {
  }

  /** A text lacking one character of `w` does not contain `w`. */
  lemma NotContainsByChar(s: string, w: string, j: nat)
    requires j < |w| && Lacks(s, w[j])
    ensures !Contains(s, w)
  {
    forall k: nat | k + |w| <= |s| ensures !StartsAt(s, k, w) {
      assert s[k..k + |w|][j] == s[k + j];
    }
    ContainsIff(s, w);
  }

  /** `w` occurs in `a + (w + b)` right after `a`. */
  lemma ContainsMiddle(a: string, w: string, b: string)
    ensures Contains(a + (w + b), w)
  {
    var s := a + (w + b);
    assert s[|a|..|a| + |w|] == w;
    ContainsShift(s, |a|, w);
  }

  /** The trust checks' opening lines have no `A`, so they never contain `getAcceptedIssuers`. */
  lemma CheckOpeningsLackA(name: string)
    requires name == "checkClientTrusted" || name == "checkServerTrusted"
    ensures Lacks(MethodPrefix + Signature(name, TrustCheckParams, "V"), 'A')
    ensures Lacks(MethodPrefix + FinalModifier + Signature(name, TrustCheckParams, "V"), 'A')
  {
    assert Lacks(name, 'A');
    assert Lacks("(", 'A') && Lacks(")", 'A') && Lacks("V", 'A');
    assert Lacks(X509CertificateArray, 'A');
    assert Lacks(StringType, 'A');
    assert Lacks(MethodPrefix, 'A') && Lacks(FinalModifier, 'A');
    LacksConcat(X509CertificateArray, StringType, 'A');
    LacksConcat(name, "(", 'A');
    LacksConcat(name + "(", TrustCheckParams, 'A');
    LacksConcat(name + "(" + TrustCheckParams, ")", 'A');
    LacksConcat(name + "(" + TrustCheckParams + ")", "V", 'A');
    var sig := Signature(name, TrustCheckParams, "V");
    LacksConcat(MethodPrefix, sig, 'A');
    LacksConcat(MethodPrefix, FinalModifier, 'A');
    LacksConcat(MethodPrefix + FinalModifier, sig, 'A');
  }

  /** The `getAcceptedIssuers` opening lines, with or without `final `, contain its name. */
  lemma IssuersOpeningsContainName()
    ensures Contains(MethodPrefix + GetAcceptedIssuersSignature, AcceptedIssuersName)
    ensures Contains(MethodPrefix + FinalModifier + GetAcceptedIssuersSignature, AcceptedIssuersName)
  {
    var rest := "(" + "" + ")" + X509CertificateArray;
    assert GetAcceptedIssuersSignature == AcceptedIssuersName + rest;
    ContainsMiddle(MethodPrefix, AcceptedIssuersName, rest);
    ContainsMiddle(MethodPrefix + FinalModifier, AcceptedIssuersName, rest);
  }

  /**
   * For each pattern, the fix chosen from the opening line is the
   * replacement the catalog lists for the same method.
   */
  lemma FixForCatalog(k: nat)
    requires k < 3
    ensures var pat := MethodPatterns[k];
      var m := SmaliPatchCatalog[0].methods[k];
      && pat == CreateMethodPattern(m.signature)
      && FixFor(pat.finalOpening) == m.replacementLines
      && FixFor(pat.plainOpening) == m.replacementLines
  {
    SignaturesAreCatalogs();
    FixesAreCatalogs();
    CatalogReplacements();
    var aAt := 3;
    assert AcceptedIssuersName[aAt] == 'A';
    if k == 0 {
      CheckOpeningsLackA("checkClientTrusted");
      NotContainsByChar(MethodPrefix + CheckClientTrustedSignature, AcceptedIssuersName, aAt);
      NotContainsByChar(MethodPrefix + FinalModifier + CheckClientTrustedSignature, AcceptedIssuersName, aAt);
    } else if k == 1 {
      CheckOpeningsLackA("checkServerTrusted");
      NotContainsByChar(MethodPrefix + CheckServerTrustedSignature, AcceptedIssuersName, aAt);
      NotContainsByChar(MethodPrefix + FinalModifier + CheckServerTrustedSignature, AcceptedIssuersName, aAt);
    } else {
      IssuersOpeningsContainName();
    }
  }

  /** Each pattern step rewrites exactly as the catalog's patch for the same method. */
  lemma PatternStepIsCatalogStep(t: string, k: nat)
    requires k < 3
    ensures PatternStep(t, MethodPatterns[k]) == ProcessFile.ApplyMethod(t, SmaliPatchCatalog[0].methods[k])
  {
    var pat := MethodPatterns[k];
    var m := SmaliPatchCatalog[0].methods[k];
    FixForCatalog(k);
    forall bl: Block | bl.opening == pat.finalOpening || bl.opening == pat.plainOpening
      ensures Rewriter(FixFor)(bl) == Rewriter(ConstantFix(m.replacementLines))(bl)
    {
    }
    ReplaceAllAgree(t, pat, Rewriter(FixFor), Rewriter(ConstantFix(m.replacementLines)));
  }

  /**
   * The legacy engine rewrites a text exactly as the Smali patcher's loop
   * over the catalog's X509TrustManager rule: same methods, same order, same
   * replacement lines and the same block layout.
   */
  lemma PatchTrustManagerIsCatalogRule(t: string)
    ensures PatchTrustManager(t) == ProcessFile.ApplyMethods(t, SmaliPatchCatalog[0].methods)
  {
    var ms := SmaliPatchCatalog[0].methods;
    CatalogReplacements();
    assert ms == [ms[0], ms[1], ms[2]];
    FoldThree(PatternStep, t, MethodPatterns[0], MethodPatterns[1], MethodPatterns[2]);
    FoldThree(ProcessFile.ApplyMethod, t, ms[0], ms[1], ms[2]);
    var t1 := PatternStep(t, MethodPatterns[0]);
    PatternStepIsCatalogStep(t, 0);
    var t2 := PatternStep(t1, MethodPatterns[1]);
    PatternStepIsCatalogStep(t1, 1);
    PatternStepIsCatalogStep(t2, 2);
  }

  /**
   * The legacy loop changes a text exactly when one of its three steps finds
   * a block of its method in the text the earlier steps left.
   */
  lemma PatchTrustManagerChanged(t: string)
    ensures var ms := SmaliPatchCatalog[0].methods;
      && (PatchTrustManager(t) != t <==> SomeStepChanges(ProcessFile.ApplyMethod, t, ms))
      && forall k: nat | k < 3 :: StepChanges(ProcessFile.ApplyMethod, t, ms, k) == HasBlock(ProcessFile.ApplyMethods(t, ms[..k]), MethodPatterns[k])
  {
    var ms := SmaliPatchCatalog[0].methods;
    PatchTrustManagerIsCatalogRule(t);
    ProcessFile.CatalogFlat();
    CatalogReplacements();
    AllMethodPatchesInOrder();
    assert forall m | m in ms :: m in AllMethodPatches;
    ProcessFile.ApplyMethodsChanged(t, ms);
    forall k: nat | k < 3 ensures MethodPatterns[k] == CreateMethodPattern(ms[k].signature) {
      FixForCatalog(k);
    }
  }

  /**
   * What happens to one file: nothing when it does not mention the
   * interface or the patterns leave it unchanged, otherwise the new contents
   * to write (with CRLF restored on Windows).
   */
  function PatchedFile(raw: string, windows: bool): Option<string> {
    if !Contains(raw, InterfaceLine) then None
    else
      var content := ReadContent(raw, windows);
      var patched := PatchTrustManager(content);
      if content != patched then Some(WriteContent(patched, windows)) else None
  }

  /** A file is written exactly when it mentions the interface and its (normalised) text changes. */
  lemma PatchedFileSpec(raw: string, windows: bool)
    ensures PatchedFile(raw, windows).Some? <==>
      Contains(raw, InterfaceLine) && PatchTrustManager(ReadContent(raw, windows)) != ReadContent(raw, windows)
    ensures PatchedFile(raw, windows).Some? ==>
      ReadContent(PatchedFile(raw, windows).value, windows) == PatchTrustManager(ReadContent(raw, windows))
  {
    var patched := PatchTrustManager(ReadContent(raw, windows));
    WriteThenRead(patched, windows);
  }

  /** The files after the loop over `paths`, and the paths written, in order. */
  function Run(files: map<string, string>, paths: seq<string>, windows: bool): (map<string, string>, seq<string>)
  {
    if |paths| == 0 then (files, [])
    else
      var (f, w) := Run(files, paths[..|paths| - 1], windows);
      var p := paths[|paths| - 1];
      if p in f && PatchedFile(f[p], windows).Some? then (f[p := PatchedFile(f[p], windows).value], w + [p])
      else (f, w)
  }

  /** The outcome of the Listr step. */
  datatype Outcome = Done | Skipped(reason: string)

  const NoPinningFound := "No certificate pinning logic found."

  /** The loop over `METHOD_PATTERNS`, reassigning the patched text. */
  method PatchContent(originalContent: string) returns (patchedContent: string)
    ensures patchedContent == PatchTrustManager(originalContent)
  {
    patchedContent := originalContent;
    for j := 0 to |MethodPatterns|
      invariant patchedContent == Fold(PatternStep, originalContent, MethodPatterns[..j])
    {
      assert MethodPatterns[..j + 1][..j] == MethodPatterns[..j];
      patchedContent := PatternStep(patchedContent, MethodPatterns[j]);
    }
    assert MethodPatterns[..|MethodPatterns|] == MethodPatterns;
  }

  /** The body of the file loop for one path: returns whether the file was written. */
  method PatchFile(fs: FileStore, filePath: string, windows: bool) returns (written: bool)
    requires filePath in fs.files
    modifies fs
    ensures written == PatchedFile(old(fs.files)[filePath], windows).Some?
    ensures fs.files == if written then old(fs.files)[filePath := PatchedFile(old(fs.files)[filePath], windows).value] else old(fs.files)
    ensures fs.writes == old(fs.writes) + if written then [filePath] else []
  {
    var read := fs.ReadFile(filePath);
    var originalContent := read.value;
    if !Contains(originalContent, InterfaceLine) {
      return false;
    }
    if windows {
      originalContent := ToLf(originalContent);
    }
    var patchedContent := PatchContent(originalContent);
    written := originalContent != patchedContent;
    if written {
      if windows {
        patchedContent := ToCrlf(patchedContent);
      }
      fs.WriteFile(filePath, patchedContent);
    }
  }

  /**
   * `disableCertificatePinning` over the files the glob (`SmaliGlob`) listed:
   * each file is read, examined and written back when it changed, and the
   * Listr step is skipped when none did.
   */
  method DisableCertificatePinning(fs: FileStore, smaliFiles: seq<string>, windows: bool) returns (outcome: Outcome)
    requires forall p | p in smaliFiles :: p in fs.files
    modifies fs
    ensures fs.files == Run(old(fs.files), smaliFiles, windows).0
    ensures fs.writes == old(fs.writes) + Run(old(fs.files), smaliFiles, windows).1
    ensures outcome == if Run(old(fs.files), smaliFiles, windows).1 == [] then Skipped(NoPinningFound) else Done
  {
    var pinningFound := false;
    for k := 0 to |smaliFiles|
      invariant fs.files == Run(old(fs.files), smaliFiles[..k], windows).0
      invariant fs.writes == old(fs.writes) + Run(old(fs.files), smaliFiles[..k], windows).1
      invariant pinningFound == (Run(old(fs.files), smaliFiles[..k], windows).1 != [])
      invariant forall p | p in smaliFiles :: p in fs.files
    {
      RunStep(old(fs.files), smaliFiles, k, windows);
      var written := PatchFile(fs, smaliFiles[k], windows);
      if written {
        pinningFound := true;
      }
    }
    assert smaliFiles[..|smaliFiles|] == smaliFiles;
    outcome := if pinningFound then Done else Skipped(NoPinningFound);
  }

  /** One more path: the loop patches the file at that path in the files so far, and records it when it changed. */
  lemma RunStep(files: map<string, string>, paths: seq<string>, k: nat, windows: bool)
    requires k < |paths| && paths[k] in Run(files, paths[..k], windows).0
    ensures var f := Run(files, paths[..k], windows).0;
      var w := Run(files, paths[..k], windows).1;
      var n := PatchedFile(f[paths[k]], windows);
      Run(files, paths[..k + 1], windows) == if n.Some? then (f[paths[k] := n.value], w + [paths[k]]) else (f, w)
  {
    assert paths[..k + 1][..k] == paths[..k];
    assert paths[..k + 1][k] == paths[k];
  }

  /** The loop keeps every file and never creates one. */
  lemma {:induction false} RunKeepsDomain(files: map<string, string>, paths: seq<string>, windows: bool)
    ensures Run(files, paths, windows).0.Keys == files.Keys
  {
    if |paths| > 0 {
      RunKeepsDomain(files, paths[..|paths| - 1], windows);
    }
  }

  /** A path the loop never visits keeps its contents. */
  lemma {:induction false} RunOutside(files: map<string, string>, paths: seq<string>, windows: bool, q: string)
    requires q !in paths && q in files
    ensures q in Run(files, paths, windows).0 && Run(files, paths, windows).0[q] == files[q]
  {
    if |paths| > 0 {
      assert q !in paths[..|paths| - 1];
      RunOutside(files, paths[..|paths| - 1], windows, q);
    }
  }

  /** With distinct listed paths, each listed file ends up patched when it changes, and every other file as it was. */
  lemma {:induction false} RunContents(files: map<string, string>, paths: seq<string>, windows: bool)
    requires forall i, j | 0 <= i < j < |paths| :: paths[i] != paths[j]
    requires forall p | p in paths :: p in files
    ensures forall q | q in files ::
              && q in Run(files, paths, windows).0
              && Run(files, paths, windows).0[q] == (if q in paths && PatchedFile(files[q], windows).Some? then PatchedFile(files[q], windows).value else files[q])
  {
    RunKeepsDomain(files, paths, windows);
    if |paths| > 0 {
      var init := paths[..|paths| - 1];
      var p := paths[|paths| - 1];
      assert forall q | q in init :: q in paths;
      RunContents(files, init, windows);
      assert p !in init;
      RunOutside(files, init, windows, p);
      assert forall q :: q in paths <==> q in init || q == p;
    }
  }

  /** With distinct listed paths, the files written are exactly the listed ones that change. */
  lemma {:induction false} RunWrites(files: map<string, string>, paths: seq<string>, windows: bool)
    requires forall i, j | 0 <= i < j < |paths| :: paths[i] != paths[j]
    requires forall p | p in paths :: p in files
    ensures forall q :: q in Run(files, paths, windows).1 <==> q in paths && PatchedFile(files[q], windows).Some?
  {
    if |paths| > 0 {
      var init := paths[..|paths| - 1];
      var p := paths[|paths| - 1];
      assert forall q | q in init :: q in paths;
      RunWrites(files, init, windows);
      assert p !in init;
      RunOutside(files, init, windows, p);
      assert forall q :: q in paths <==> q in init || q == p;
    }
  }

  /**
   * With the distinct paths a listing gives, the loop writes exactly the
   * listed files that mention the interface and change, each with its own
   * patched contents, and leaves every other file as it was; so some file is
   * written, and the Listr step is not skipped, exactly when one listed file changes.
   */
  lemma RunDistinct(files: map<string, string>, paths: seq<string>, windows: bool)
    requires forall i, j | 0 <= i < j < |paths| :: paths[i] != paths[j]
    requires forall p | p in paths :: p in files
    ensures var (f, w) := Run(files, paths, windows);
      && f.Keys == files.Keys
      && (forall q | q in files :: f[q] == if q in paths && PatchedFile(files[q], windows).Some? then PatchedFile(files[q], windows).value else files[q])
      && (forall q :: q in w <==> q in paths && PatchedFile(files[q], windows).Some?)
      && (w != [] <==> exists q | q in paths :: PatchedFile(files[q], windows).Some?)
  {
    RunKeepsDomain(files, paths, windows);
    RunContents(files, paths, windows);
    RunWrites(files, paths, windows);
    var w := Run(files, paths, windows).1;
    if w != [] {
      assert w[0] in w;
    }
  }
}
