/**
 * `processSmaliFile`: parse the class head, pick the catalog rules that
 * apply to the class, rewrite the methods they name one after the other and
 * write the file back when the text changed.
 */
module ProcessFile {
  import opened Base
  import opened Text
  import opened SmaliTypes
  import opened SmaliPatches
  import opened SmaliHead
  import opened SmaliMethod
  import opened LineEndings
  import opened FileSystem
  import opened StepFold

  /** `selectorMatchesClass`: a class rule names the class itself, an interface rule one of its interfaces. */
  predicate SelectorMatchesClass(patch: SmaliPatch, head: SmaliHead) {
    || (patch.selector.kind == Class && patch.selector.name == head.name)
    || (patch.selector.kind == Interface && patch.selector.name in head.implements)
  }

  /** `smaliPatches.filter(…)`. */
  function ApplicablePatches(patches: seq<SmaliPatch>, head: SmaliHead): (r: seq<SmaliPatch>)
    ensures |r| <= |patches|
  {
    if |patches| == 0 then []
    else (if SelectorMatchesClass(patches[0], head) then [patches[0]] else []) + ApplicablePatches(patches[1..], head)
  }

  /** `applicablePatches.flatMap(patch => patch.methods)`. */
  function MethodsOf(patches: seq<SmaliPatch>): seq<SmaliMethodPatch> {
    if |patches| == 0 then [] else patches[0].methods + MethodsOf(patches[1..])
  }

  /** A rule is kept exactly when its selector matches the class, and nothing else is added. */
  lemma {:induction false} ApplicablePatchesSpec(patches: seq<SmaliPatch>, head: SmaliHead)
    ensures forall p :: p in ApplicablePatches(patches, head) <==> p in patches && SelectorMatchesClass(p, head)
  {
    if |patches| > 0 {
      ApplicablePatchesSpec(patches[1..], head);
      assert patches == [patches[0]] + patches[1..];
    }
  }

  /** A method patch is scheduled exactly when one of the rules lists it. */
  lemma {:induction false} MethodsOfSpec(patches: seq<SmaliPatch>)
    ensures forall m :: m in MethodsOf(patches) <==> exists i | 0 <= i < |patches| :: m in patches[i].methods
  {
    if |patches| > 0 {
      MethodsOfSpec(patches[1..]);
      forall m ensures m in MethodsOf(patches) <==> exists i | 0 <= i < |patches| :: m in patches[i].methods {
        if m in MethodsOf(patches[1..]) {
          var i :| 0 <= i < |patches[1..]| && m in patches[1..][i].methods;
          assert m in patches[i + 1].methods;
        }
        if exists i | 0 <= i < |patches| :: m in patches[i].methods {
          var i :| 0 <= i < |patches| && m in patches[i].methods;
          if i > 0 {
            assert m in patches[1..][i - 1].methods;
          }
        }
      }
    }
  }

  /** The methods of the catalog scheduled for a class, in catalog order. */
  function CatalogMethodsFor(head: SmaliHead): seq<SmaliMethodPatch> {
    MethodsOf(ApplicablePatches(SmaliPatchCatalog, head))
  }

  function MethodsIf(b: bool, patch: SmaliPatch): seq<SmaliMethodPatch> {
    if b then patch.methods else []
  }

  lemma MethodsOfUnfold(ps: seq<SmaliPatch>, head: SmaliHead)
    requires |ps| > 0
    ensures MethodsOf(ApplicablePatches(ps, head)) == MethodsIf(SelectorMatchesClass(ps[0], head), ps[0]) + MethodsOf(ApplicablePatches(ps[1..], head))
  {
    var first := if SelectorMatchesClass(ps[0], head) then [ps[0]] else [];
    MethodsOfConcat(first, ApplicablePatches(ps[1..], head));
    if SelectorMatchesClass(ps[0], head) {
      assert first[1..] == [];
    }
  }

  /** On four rules, the scheduled methods are those of each matching rule in turn. */
  lemma MethodsOfFour(ps: seq<SmaliPatch>, head: SmaliHead)
    requires |ps| == 4
    ensures MethodsOf(ApplicablePatches(ps, head))
      == MethodsIf(SelectorMatchesClass(ps[0], head), ps[0]) + (MethodsIf(SelectorMatchesClass(ps[1], head), ps[1])
       + (MethodsIf(SelectorMatchesClass(ps[2], head), ps[2]) + MethodsIf(SelectorMatchesClass(ps[3], head), ps[3])))
  {
    MethodsOfUnfold(ps, head);
    MethodsOfUnfold(ps[1..], head);
    MethodsOfUnfold(ps[2..], head);
    MethodsOfUnfold(ps[3..], head);
    assert ps[1..][1..] == ps[2..] && ps[2..][1..] == ps[3..] && ps[3..][1..] == [];
    assert MethodsOf(ApplicablePatches([], head)) == [];
    var m3 := MethodsIf(SelectorMatchesClass(ps[3], head), ps[3]);
    assert m3 + [] == m3;
  }

  /**
   * For the catalog: a trust manager gets its three methods rewritten, a
   * hostname verifier its `verify`, the OkHttp 2 pinner its `check` and the
   * OkHttp 3 pinner both of its `check` variants, in this order.
   */
  lemma CatalogMethodsForSpec(head: SmaliHead)
    ensures CatalogMethodsFor(head)
      == (if X509TrustManager in head.implements then [CheckClientTrustedPatch, CheckServerTrustedPatch, GetAcceptedIssuersPatch] else [])
       + ((if HostnameVerifier in head.implements then [VerifyPatch] else [])
       + ((if head.name == OkHttp2CertificatePinner then [OkHttp25CheckPatch] else [])
       + (if head.name == OkHttp3CertificatePinner then [OkHttp3CheckPatch, OkHttp42CheckPatch] else [])))
  {
    MethodsOfFour(SmaliPatchCatalog, head);
    CatalogRuleMethods(head);
  }

  /** What each catalog rule contributes to a class. */
  lemma CatalogRuleMethods(head: SmaliHead)
    ensures MethodsIf(SelectorMatchesClass(SmaliPatchCatalog[0], head), SmaliPatchCatalog[0])
      == if X509TrustManager in head.implements then [CheckClientTrustedPatch, CheckServerTrustedPatch, GetAcceptedIssuersPatch] else []
    ensures MethodsIf(SelectorMatchesClass(SmaliPatchCatalog[1], head), SmaliPatchCatalog[1])
      == if HostnameVerifier in head.implements then [VerifyPatch] else []
    ensures MethodsIf(SelectorMatchesClass(SmaliPatchCatalog[2], head), SmaliPatchCatalog[2])
      == if head.name == OkHttp2CertificatePinner then [OkHttp25CheckPatch] else []
    ensures MethodsIf(SelectorMatchesClass(SmaliPatchCatalog[3], head), SmaliPatchCatalog[3])
      == if head.name == OkHttp3CertificatePinner then [OkHttp3CheckPatch, OkHttp42CheckPatch] else []
  {
    CatalogSelectors();
  }

  lemma {:induction false} MethodsOfConcat(a: seq<SmaliPatch>, b: seq<SmaliPatch>)
    ensures MethodsOf(a + b) == MethodsOf(a) + MethodsOf(b)
  {
    if |a| == 0 {
      assert a + b == b;
    } else {
      assert (a + b)[0] == a[0];
      assert (a + b)[1..] == a[1..] + b;
      MethodsOfConcat(a[1..], b);
    }
  }

  /** One iteration of the loop: every block of the method is rewritten with its replacement lines. */
  function ApplyMethod(t: string, m: SmaliMethodPatch): string {
    ReplaceAll(t, CreateMethodPattern(m.signature), Rewriter(ConstantFix(m.replacementLines)))
  }

  /** The text after the patcher's loop over `methods`. */
  function ApplyMethods(t: string, methods: seq<SmaliMethodPatch>): string {
    Fold(ApplyMethod, t, methods)
  }

  /** Neither the signature nor a replacement line of the patch holds a line break. */
  predicate FlatMethod(m: SmaliMethodPatch) {
    '\n' !in m.signature && FlatLines(m.replacementLines)
  }

  lemma WellFormedIsFlat(m: SmaliMethodPatch)
    requires WellFormedPatch(m)
    ensures FlatMethod(m)
  {
    var name, params, ret :| SignatureParts(m.signature, name, params, ret);
    forall k | 0 <= k < |m.replacementLines| ensures '\n' !in m.replacementLines[k] {
      assert Unindented(m.replacementLines[k]);
    }
  }

  lemma CatalogFlat()
    ensures forall m | m in AllMethodPatches :: FlatMethod(m)
  {
    CatalogWellFormed();
    forall m | m in AllMethodPatches ensures FlatMethod(m) {
      WellFormedIsFlat(m);
    }
  }

  lemma MethodAddsLines(m: SmaliMethodPatch)
    requires FlatMethod(m)
    ensures AddsLines(CreateMethodPattern(m.signature), Rewriter(ConstantFix(m.replacementLines)))
  {
    CreatedPatternFlat(m.signature);
    RewriterAddsLines(CreateMethodPattern(m.signature), ConstantFix(m.replacementLines));
  }

  /**
   * One step changes the text exactly when it finds a block of its method,
   * and then adds line breaks; it never removes any.
   */
  lemma ApplyMethodSpec(t: string, m: SmaliMethodPatch)
    requires FlatMethod(m)
    ensures ApplyMethod(t, m) != t <==> HasBlock(t, CreateMethodPattern(m.signature))
    ensures Count(ApplyMethod(t, m), '\n') >= Count(t, '\n')
    ensures ApplyMethod(t, m) != t ==> Count(ApplyMethod(t, m), '\n') > Count(t, '\n')
  {
    MethodAddsLines(m);
    var pat := CreateMethodPattern(m.signature);
    var r := Rewriter(ConstantFix(m.replacementLines));
    ChangedIffBlock(t, pat, r);
  }

  lemma ApplyMethodGrows(methods: seq<SmaliMethodPatch>)
    requires forall m | m in methods :: FlatMethod(m)
    ensures Grows(ApplyMethod, methods)
  {
    forall x: string, m: SmaliMethodPatch | m in methods
      ensures Count(ApplyMethod(x, m), '\n') >= Count(x, '\n') && (ApplyMethod(x, m) != x ==> Count(ApplyMethod(x, m), '\n') > Count(x, '\n'))
    {
      ApplyMethodSpec(x, m);
    }
  }

  /**
   * The patcher's loop changes the text exactly when one of its steps finds
   * a block of its method in the text the earlier steps left.
   */
  lemma ApplyMethodsChanged(t: string, methods: seq<SmaliMethodPatch>)
    requires forall m | m in methods :: FlatMethod(m)
    ensures ApplyMethods(t, methods) != t <==> SomeStepChanges(ApplyMethod, t, methods)
    ensures forall k: nat | k < |methods| ::
      StepChanges(ApplyMethod, t, methods, k) <==> HasBlock(ApplyMethods(t, methods[..k]), CreateMethodPattern(methods[k].signature))
  {
    ApplyMethodGrows(methods);
    FoldChanged(ApplyMethod, t, methods);
    forall k: nat | k < |methods|
      ensures StepChanges(ApplyMethod, t, methods, k) <==> HasBlock(ApplyMethods(t, methods[..k]), CreateMethodPattern(methods[k].signature))
    {
      assert methods[k] in methods;
      ApplyMethodSpec(ApplyMethods(t, methods[..k]), methods[k]);
    }
  }

  /** The loop over `applicableMethods`, reassigning the patched text. */
  method PatchContent(t: string, methods: seq<SmaliMethodPatch>) returns (patched: string)
    ensures patched == ApplyMethods(t, methods)
  {
    patched := t;
    for k := 0 to |methods|
      invariant patched == ApplyMethods(t, methods[..k])
    {
      assert methods[..k + 1][..k] == methods[..k];
      patched := ApplyMethod(patched, methods[k]);
    }
    assert methods[..|methods|] == methods;
  }

  /**
   * What the patcher makes of a (line-feed normalised) text: the parse
   * error, the text itself when the class is an interface or no rule
   * applies, otherwise the text after the loop.
   */
  function PatchedText(t: string): Result<string, HeadError> {
    match ParseHead(t)
    case Err(e) => Err(e)
    case Ok(head) =>
      if head.isInterface then Ok(t)
      else
        var patches := ApplicablePatches(SmaliPatchCatalog, head);
        if |patches| == 0 then Ok(t) else Ok(ApplyMethods(t, MethodsOf(patches)))
  }

  /**
   * The patcher fails exactly when no class is declared, and changes the text
   * exactly when the class is no interface and some step of the loop over
   * the catalog's methods for it changes the text (which, by
   * `ApplyMethodsChanged`, is a step that finds a block of its method).
   */
  lemma PatchedTextSpec(t: string)
    ensures PatchedText(t).Err? <==> forall p: nat :: !ClassDeclaredAt(t, p)
    ensures PatchedText(t).Ok? ==>
      (PatchedText(t).value != t <==>
        && !ParseHead(t).value.isInterface
        && SomeStepChanges(ApplyMethod, t, CatalogMethodsFor(ParseHead(t).value)))
  {
    ParseHeadSpec(t);
    if ParseHead(t).Ok? {
      var head := ParseHead(t).value;
      var patches := ApplicablePatches(SmaliPatchCatalog, head);
      var methods := MethodsOf(patches);
      forall m | m in methods ensures m in AllMethodPatches {
        MethodsOfSpec(patches);
        ApplicablePatchesSpec(SmaliPatchCatalog, head);
        CatalogMethodsIn();
        var i :| 0 <= i < |patches| && m in patches[i].methods;
        assert patches[i] in SmaliPatchCatalog;
        var j :| 0 <= j < |SmaliPatchCatalog| && SmaliPatchCatalog[j] == patches[i];
      }
      CatalogFlat();
      ApplyMethodsChanged(t, methods);
      if |patches| == 0 {
        assert methods == [];
      }
    }
  }

  /** Every method of every catalog rule is among the catalog's method patches. */
  lemma CatalogMethodsIn()
    ensures forall i, m | 0 <= i < |SmaliPatchCatalog| && m in SmaliPatchCatalog[i].methods :: m in AllMethodPatches
  {
    AllMethodPatchesInOrder();
  }

  /** An interface is never patched. */
  lemma InterfaceUnchanged(t: string)
    requires ParseHead(t).Ok? && ParseHead(t).value.isInterface
    ensures PatchedText(t) == Ok(t)
  {
  }

  datatype ProcessError = ReadFailed | HeadFailed(HeadError)

  /**
   * `processSmaliFile`: returns whether patches were applied, which is
   * exactly when the file was written.
   */
  method ProcessSmaliFile(fs: FileStore, path: string, windows: bool) returns (r: Result<bool, ProcessError>)
    modifies fs
    ensures path !in old(fs.files) ==> r == Err(ReadFailed) && fs.files == old(fs.files) && fs.writes == old(fs.writes)
    ensures path in old(fs.files) ==>
      var content := ReadContent(old(fs.files)[path], windows);
      match PatchedText(content)
      case Err(e) => r == Err(HeadFailed(e)) && fs.files == old(fs.files) && fs.writes == old(fs.writes)
      case Ok(patched) =>
        && r == Ok(patched != content)
        && fs.files == (if patched != content then old(fs.files)[path := WriteContent(patched, windows)] else old(fs.files))
        && fs.writes == old(fs.writes) + (if patched != content then [path] else [])
  {
    var raw := fs.ReadFile(path);
    if raw.None? {
      return Err(ReadFailed);
    }
    var originalContent := raw.value;
    if windows {
      originalContent := ToLf(originalContent);
    }
    var patchedContent := originalContent;
    var parsed := ParseHead(patchedContent);
    if parsed.Err? {
      return Err(HeadFailed(parsed.error));
    }
    var head := parsed.value;
    if head.isInterface {
      return Ok(false);
    }
    var applicablePatches := ApplicablePatches(SmaliPatchCatalog, head);
    if |applicablePatches| == 0 {
      return Ok(false);
    }
    var applicableMethods := MethodsOf(applicablePatches);
    patchedContent := PatchContent(patchedContent, applicableMethods);
    if originalContent != patchedContent {
      if windows {
        patchedContent := ToCrlf(patchedContent);
      }
      fs.WriteFile(path, patchedContent);
      return Ok(true);
    }
    return Ok(false);
  }
}
