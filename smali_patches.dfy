/**
 * The declarative catalog of Smali patches that disable certificate pinning,
 * and what it promises: four rules in a fixed order, replacement bodies whose
 * return instruction fits the method's return type and whose `.locals`
 * declaration covers the registers they use.
 */
module SmaliPatches {
  import opened Text
  import opened Base
  import opened SmaliTypes

  /** The type descriptor of `java.security.cert.X509Certificate[]`. */
  const X509CertificateArray := "[Ljava/security/cert/X509Certificate;"

  /** `return void;` in Smali. */
  const ReturnVoidSmali: seq<string> := [".locals 0", "return-void"]

  /** `return true;` in Smali. */
  const ReturnTrueSmali: seq<string> := [".locals 1", "const/4 v0, 0x1", "return v0"]

  /** `return new java.security.cert.X509Certificate[] {};` in Smali. */
  const ReturnEmptyCertArraySmali: seq<string> := [
    ".locals 1",
    "const/4 v0, 0x0",
    "new-array v0, v0, " + X509CertificateArray,
    "return-object v0"
  ]

  /** The signature `name(params)ret`. */
  function Signature(name: string, params: string, ret: string): string {
    name + "(" + params + ")" + ret
  }

  /** Descriptors of the parameter types used by the catalog's signatures. */
  const StringType := "Ljava/lang/String;"
  const SslSessionType := "Ljavax/net/ssl/SSLSession;"
  const ListType := "Ljava/util/List;"
  const Function0Type := "Lkotlin/jvm/functions/Function0;"

  const TrustCheckParams := X509CertificateArray + StringType
  const CheckClientTrustedSignature := Signature("checkClientTrusted", TrustCheckParams, "V")
  const CheckServerTrustedSignature := Signature("checkServerTrusted", TrustCheckParams, "V")
  const GetAcceptedIssuersSignature := Signature("getAcceptedIssuers", "", X509CertificateArray)
  const VerifySignature := Signature("verify", StringType + SslSessionType, "Z")
  const CheckSignature := Signature("check", StringType + ListType, "V")
  const CheckOkHttpSignature := Signature("check$okhttp", StringType + Function0Type, "V")

  const X509TrustManager := "javax/net/ssl/X509TrustManager"
  const HostnameVerifier := "javax/net/ssl/HostnameVerifier"
  const OkHttp2CertificatePinner := "com/squareup/okhttp/CertificatePinner"
  const OkHttp3CertificatePinner := "okhttp3/CertificatePinner"

  const CheckClientTrustedPatch := SmaliMethodPatch("X509TrustManager#checkClientTrusted (javax)", CheckClientTrustedSignature, ReturnVoidSmali)
  const CheckServerTrustedPatch := SmaliMethodPatch("X509TrustManager#checkServerTrusted (javax)", CheckServerTrustedSignature, ReturnVoidSmali)
  const GetAcceptedIssuersPatch := SmaliMethodPatch("X509TrustManager#getAcceptedIssuers (javax)", GetAcceptedIssuersSignature, ReturnEmptyCertArraySmali)
  const VerifyPatch := SmaliMethodPatch("HostnameVerifier#verify (javax)", VerifySignature, ReturnTrueSmali)
  const OkHttp25CheckPatch := SmaliMethodPatch("HostnameVerifier#check (OkHttp 2.5)", CheckSignature, ReturnVoidSmali)
  const OkHttp3CheckPatch := SmaliMethodPatch("CertificatePinner#check (OkHttp 3.x)", CheckSignature, ReturnVoidSmali)
  const OkHttp42CheckPatch := SmaliMethodPatch("CertificatePinner#check (OkHttp 4.2)", CheckOkHttpSignature, ReturnVoidSmali)

  /** All the patches applied to Smali code to disable certificate pinning, in order. */
  const SmaliPatchCatalog: seq<SmaliPatch> := [
    SmaliPatch(SmaliPatchSelector(Interface, X509TrustManager), [CheckClientTrustedPatch, CheckServerTrustedPatch, GetAcceptedIssuersPatch]),
    SmaliPatch(SmaliPatchSelector(Interface, HostnameVerifier), [VerifyPatch]),
    SmaliPatch(SmaliPatchSelector(Class, OkHttp2CertificatePinner), [OkHttp25CheckPatch]),
    SmaliPatch(SmaliPatchSelector(Class, OkHttp3CertificatePinner), [OkHttp3CheckPatch, OkHttp42CheckPatch])
  ]

  /** Every method patch of the catalog, rule by rule. */
  const AllMethodPatches: seq<SmaliMethodPatch> := [
    CheckClientTrustedPatch, CheckServerTrustedPatch, GetAcceptedIssuersPatch, VerifyPatch,
    OkHttp25CheckPatch, OkHttp3CheckPatch, OkHttp42CheckPatch
  ]

  lemma AllMethodPatchesInOrder()
    ensures AllMethodPatches == SmaliPatchCatalog[0].methods + SmaliPatchCatalog[1].methods
      + SmaliPatchCatalog[2].methods + SmaliPatchCatalog[3].methods
  {}

  /** The catalog holds exactly these four selectors, in this order. */
  lemma CatalogSelectors()
    ensures |SmaliPatchCatalog| == 4
    ensures SmaliPatchCatalog[0].selector == SmaliPatchSelector(Interface, "javax/net/ssl/X509TrustManager")
    ensures SmaliPatchCatalog[1].selector == SmaliPatchSelector(Interface, "javax/net/ssl/HostnameVerifier")
    ensures SmaliPatchCatalog[2].selector == SmaliPatchSelector(Class, "com/squareup/okhttp/CertificatePinner")
    ensures SmaliPatchCatalog[3].selector == SmaliPatchSelector(Class, "okhttp3/CertificatePinner")
  {}

  /**
   * The trust manager's two checks become `return-void`, `getAcceptedIssuers`
   * returns an empty certificate array, `verify` returns true and every
   * CertificatePinner check (OkHttp 2.5, 3.x, 4.2) becomes `return-void`.
   */
  lemma CatalogReplacements()
    ensures SmaliPatchCatalog[0].methods == [CheckClientTrustedPatch, CheckServerTrustedPatch, GetAcceptedIssuersPatch]
    ensures CheckClientTrustedPatch.replacementLines == [".locals 0", "return-void"]
    ensures CheckServerTrustedPatch.replacementLines == [".locals 0", "return-void"]
    ensures GetAcceptedIssuersPatch.replacementLines == ReturnEmptyCertArraySmali
    ensures SmaliPatchCatalog[1].methods == [VerifyPatch]
    ensures VerifyPatch.replacementLines == [".locals 1", "const/4 v0, 0x1", "return v0"]
    ensures forall r | 2 <= r < 4 :: forall m | m in SmaliPatchCatalog[r].methods :: m.replacementLines == [".locals 0", "return-void"]
  {}

  /** A token of a signature or an operand: no space, newline, parenthesis, brace or comma. */
  predicate Plain(s: string) {
    forall i | 0 <= i < |s| :: s[i] != ' ' && s[i] != '\n' && s[i] != '(' && s[i] != ')' && s[i] != '{' && s[i] != ','
  }

  lemma PlainConcat(a: string, b: string)
    requires Plain(a) && Plain(b)
    ensures Plain(a + b)
  {
    var l := a + b;
    forall i | 0 <= i < |l|
      ensures l[i] != ' ' && l[i] != '\n' && l[i] != '(' && l[i] != ')' && l[i] != '{' && l[i] != ','
    {
      if i < |a| {
        assert l[i] == a[i];
      } else {
        assert l[i] == b[i - |a|];
      }
    }
  }

  lemma PlainExcludes(s: string)
    requires Plain(s)
    ensures ' ' !in s && '\n' !in s && '(' !in s && ')' !in s
  {
  }

  lemma ArrayDescriptorPlain()
    ensures Plain(X509CertificateArray)
  {}

  lemma StringDescriptorPlain()
    ensures Plain(StringType) && Plain(ListType)
  {}

  lemma SessionDescriptorPlain()
    ensures Plain(SslSessionType)
  {}

  lemma FunctionDescriptorPlain()
    ensures Plain(Function0Type)
  {}

  lemma DescriptorsPlain()
    ensures Plain(X509CertificateArray) && Plain(StringType) && Plain(ListType)
    ensures Plain(SslSessionType) && Plain(Function0Type)
  {
    ArrayDescriptorPlain();
    StringDescriptorPlain();
    SessionDescriptorPlain();
    FunctionDescriptorPlain();
  }

  lemma MethodNamesPlain()
    ensures Plain("checkClientTrusted") && Plain("checkServerTrusted") && Plain("getAcceptedIssuers")
    ensures Plain("verify") && Plain("check") && Plain("check$okhttp")
  {}

  /** The Dalvik return instruction for a value of the type `descriptor` held in `v0`. */
  function ReturnInstructionFor(descriptor: string): string {
    if descriptor == "V" then "return-void"
    else if |descriptor| > 0 && (descriptor[0] == 'L' || descriptor[0] == '[') then "return-object v0"
    else if descriptor == "J" || descriptor == "D" then "return-wide v0"
    else "return v0"
  }

  /** A method patch whose last replacement line is the return instruction its signature's return type needs. */
  ghost predicate ReturnFits(m: SmaliMethodPatch) {
    && |m.replacementLines| > 0
    && exists ret :: IsReturnDescriptor(m.signature, ret)
         && m.replacementLines[|m.replacementLines| - 1] == ReturnInstructionFor(ret)
  }

  predicate IsDigit(c: char) {
    '0' <= c <= '9'
  }

  /** A register operand `v<d>` starts at `i`: after a space, `{` or `,`, and followed by a digit. */
  predicate RegisterAt(line: string, i: int) {
    0 < i && i + 1 < |line| && line[i] == 'v' && (line[i - 1] == ' ' || line[i - 1] == '{' || line[i - 1] == ',')
    && IsDigit(line[i + 1])
  }

  /** Every register operand of `line` is a single-digit register below `n`. */
  predicate RegistersBelow(line: string, n: nat) {
    forall i | 0 < i < |line| - 1 :: RegisterAt(line, i) ==>
      (i + 2 == |line| || !IsDigit(line[i + 2])) && (line[i + 1] as int) - ('0' as int) < n
  }

  /** The register count declared by a leading `.locals <d>` line. */
  function DeclaredLocals(lines: seq<string>): Option<nat> {
    if |lines| > 0 && |lines[0]| == 9 && lines[0][..8] == ".locals " && IsDigit(lines[0][8])
    then Some((lines[0][8] as int) - ('0' as int))
    else None
  }

  /** The body declares `.locals n` first and uses only registers below `n`. */
  predicate LocalsCover(lines: seq<string>) {
    DeclaredLocals(lines).Some? && forall j | 1 <= j < |lines| :: RegistersBelow(lines[j], DeclaredLocals(lines).value)
  }

  /** Appending a plain token that starts with neither `v` nor a digit adds no register operand. */
  lemma RegistersBelowConcat(a: string, b: string, n: nat)
    requires |b| > 0 && Plain(b) && b[0] != 'v' && !IsDigit(b[0])
    requires RegistersBelow(a, n)
    ensures RegistersBelow(a + b, n)
  {
    var l := a + b;
    forall i | 0 < i < |l| - 1 && RegisterAt(l, i)
      ensures (i + 2 == |l| || !IsDigit(l[i + 2])) && (l[i + 1] as int) - ('0' as int) < n
    {
      assert i + 1 < |a|;
      assert RegisterAt(a, i);
    }
  }

  /** The register operands of each snippet line: none, or only `v0`. */
  lemma SnippetLineRegisters()
    ensures RegistersBelow("return-void", 0)
    ensures RegistersBelow("const/4 v0, 0x1", 1) && RegistersBelow("return v0", 1)
    ensures RegistersBelow("const/4 v0, 0x0", 1) && RegistersBelow("return-object v0", 1)
  {
    ReturnVoidRegisters();
    ConstTrueRegisters();
    ConstFalseRegisters();
    ReturnRegisters();
  }

  lemma ReturnVoidRegisters()
    ensures RegistersBelow("return-void", 0)
  {
  }

  lemma ConstTrueRegisters()
    ensures RegistersBelow("const/4 v0, 0x1", 1)
  {
  }

  lemma ConstFalseRegisters()
    ensures RegistersBelow("const/4 v0, 0x0", 1)
  {
  }

  lemma ReturnRegisters()
    ensures RegistersBelow("return v0", 1) && RegistersBelow("return-object v0", 1)
  {
  }

  /** The array allocation uses `v0` only: the element type adds no operand. */
  lemma NewArrayLineRegisters()
    ensures RegistersBelow("new-array v0, v0, " + X509CertificateArray, 1)
  {
    NewArrayPrefixRegisters();
    DescriptorsPlain();
    RegistersBelowConcat("new-array v0, v0, ", X509CertificateArray, 1);
  }

  lemma NewArrayPrefixRegisters()
    ensures RegistersBelow("new-array v0, v0, ", 1)
  {
  }

  /** `.locals 0` with no register, `.locals 1` with only `v0`. */
  lemma SnippetsLocalsCover()
    ensures DeclaredLocals(ReturnVoidSmali) == Some(0) && LocalsCover(ReturnVoidSmali)
    ensures DeclaredLocals(ReturnTrueSmali) == Some(1) && LocalsCover(ReturnTrueSmali)
    ensures DeclaredLocals(ReturnEmptyCertArraySmali) == Some(1) && LocalsCover(ReturnEmptyCertArraySmali)
  {
    SnippetLineRegisters();
    NewArrayLineRegisters();
  }

  /** The snippets' lines carry no indentation of their own. */
  lemma SnippetsUnindented()
    ensures forall l | l in ReturnVoidSmali :: Unindented(l)
    ensures forall l | l in ReturnTrueSmali :: Unindented(l)
    ensures forall l | l in ReturnEmptyCertArraySmali :: Unindented(l)
  {
    ArrayDescriptorPlain();
    PlainExcludes(X509CertificateArray);
    assert Unindented(ReturnEmptyCertArraySmali[2]);
  }

  /** A patch whose signature is built as `name(params)ret` from plain pieces, and whose body ends in the return `ret` needs. */
  lemma SignatureFits(m: SmaliMethodPatch, name: string, params: string, ret: string)
    requires m.signature == Signature(name, params, ret)
    requires |name| > 0 && |ret| > 0 && Plain(name) && Plain(params) && Plain(ret)
    requires |m.replacementLines| > 0 && m.replacementLines[|m.replacementLines| - 1] == ReturnInstructionFor(ret)
    ensures SignatureParts(m.signature, name, params, ret)
    ensures WellFormedSignature(m.signature) && ReturnFits(m)
    ensures LocalsCover(m.replacementLines) && (forall l | l in m.replacementLines :: Unindented(l)) ==> WellFormedPatch(m)
  {
    PlainExcludes(name);
    PlainExcludes(params);
    PlainExcludes(ret);
    ReturnDescriptorOf(m.signature, name, params, ret);
    assert SignatureParts(m.signature, name, params, ret);
    assert IsReturnDescriptor(m.signature, ret);
  }

  /**
   * A well-formed method patch: a `name(params)ret` signature without
   * modifiers, a body that returns what `ret` needs, that declares the
   * registers it uses and whose lines carry no indentation.
   */
  ghost predicate WellFormedPatch(m: SmaliMethodPatch) {
    && WellFormedSignature(m.signature)
    && ReturnFits(m)
    && LocalsCover(m.replacementLines)
    && forall l | l in m.replacementLines :: Unindented(l)
  }

  lemma CheckClientTrustedPatchWellFormed()
    ensures SignatureParts(CheckClientTrustedPatch.signature, "checkClientTrusted", TrustCheckParams, "V")
    ensures WellFormedPatch(CheckClientTrustedPatch)
  {
    DescriptorsPlain();
    MethodNamesPlain();
    PlainConcat(X509CertificateArray, StringType);
    SnippetsLocalsCover();
    SnippetsUnindented();
    SignatureFits(CheckClientTrustedPatch, "checkClientTrusted", TrustCheckParams, "V");
  }

  lemma CheckServerTrustedPatchWellFormed()
    ensures SignatureParts(CheckServerTrustedPatch.signature, "checkServerTrusted", TrustCheckParams, "V")
    ensures WellFormedPatch(CheckServerTrustedPatch)
  {
    DescriptorsPlain();
    MethodNamesPlain();
    PlainConcat(X509CertificateArray, StringType);
    SnippetsLocalsCover();
    SnippetsUnindented();
    SignatureFits(CheckServerTrustedPatch, "checkServerTrusted", TrustCheckParams, "V");
  }

  lemma GetAcceptedIssuersPatchWellFormed()
    ensures SignatureParts(GetAcceptedIssuersPatch.signature, "getAcceptedIssuers", "", X509CertificateArray)
    ensures WellFormedPatch(GetAcceptedIssuersPatch)
  {
    DescriptorsPlain();
    MethodNamesPlain();
    assert Plain("");
    SnippetsLocalsCover();
    SnippetsUnindented();
    SignatureFits(GetAcceptedIssuersPatch, "getAcceptedIssuers", "", X509CertificateArray);
  }

  lemma VerifyPatchWellFormed()
    ensures SignatureParts(VerifyPatch.signature, "verify", StringType + SslSessionType, "Z")
    ensures WellFormedPatch(VerifyPatch)
  {
    DescriptorsPlain();
    MethodNamesPlain();
    PlainConcat(StringType, SslSessionType);
    SnippetsLocalsCover();
    SnippetsUnindented();
    SignatureFits(VerifyPatch, "verify", StringType + SslSessionType, "Z");
  }

  lemma OkHttp25CheckPatchWellFormed()
    ensures SignatureParts(OkHttp25CheckPatch.signature, "check", StringType + ListType, "V")
    ensures WellFormedPatch(OkHttp25CheckPatch)
  {
    DescriptorsPlain();
    MethodNamesPlain();
    PlainConcat(StringType, ListType);
    SnippetsLocalsCover();
    SnippetsUnindented();
    SignatureFits(OkHttp25CheckPatch, "check", StringType + ListType, "V");
  }

  lemma OkHttp3CheckPatchWellFormed()
    ensures SignatureParts(OkHttp3CheckPatch.signature, "check", StringType + ListType, "V")
    ensures WellFormedPatch(OkHttp3CheckPatch)
  {
    DescriptorsPlain();
    MethodNamesPlain();
    PlainConcat(StringType, ListType);
    SnippetsLocalsCover();
    SnippetsUnindented();
    SignatureFits(OkHttp3CheckPatch, "check", StringType + ListType, "V");
  }

  lemma OkHttp42CheckPatchWellFormed()
    ensures SignatureParts(OkHttp42CheckPatch.signature, "check$okhttp", StringType + Function0Type, "V")
    ensures WellFormedPatch(OkHttp42CheckPatch)
  {
    DescriptorsPlain();
    MethodNamesPlain();
    PlainConcat(StringType, Function0Type);
    SnippetsLocalsCover();
    SnippetsUnindented();
    SignatureFits(OkHttp42CheckPatch, "check$okhttp", StringType + Function0Type, "V");
  }

  /**
   * Every method patch of the catalog is well formed: in particular `V`
   * gives `return-void`, `Z` gives `return v0`, an array type gives
   * `return-object`, and `.locals` covers the registers used.
   */
  lemma CatalogWellFormed()
    ensures forall m | m in AllMethodPatches :: WellFormedPatch(m)
  {
    CheckClientTrustedPatchWellFormed();
    CheckServerTrustedPatchWellFormed();
    GetAcceptedIssuersPatchWellFormed();
    VerifyPatchWellFormed();
    OkHttp25CheckPatchWellFormed();
    OkHttp3CheckPatchWellFormed();
    OkHttp42CheckPatchWellFormed();
  }

  /** The names of the catalog's method patches are pairwise distinct. */
  lemma CatalogNamesDistinct()
    ensures forall i, j | 0 <= i < j < |AllMethodPatches| :: AllMethodPatches[i].name != AllMethodPatches[j].name
  {}
}
