/**
 * The shapes of the Smali patch catalog: a rule selects classes by exact name
 * or by an implemented interface and lists the method patches to apply.
 */
module SmaliTypes {
  import opened Text

  /** The criterion used to match a class: `'interface' | 'class'`. */
  datatype SelectorKind = Interface | Class

  /** `kind` and the exact class or interface name including the package (`javax/net/ssl/X509TrustManager`). */
  datatype SmaliPatchSelector = SmaliPatchSelector(kind: SelectorKind, name: string)

  /**
   * A descriptive name, the Smali signature of the method (name, parameter
   * types and return type, no modifiers) and the replacement body lines
   * without leading indentation.
   */
  datatype SmaliMethodPatch = SmaliMethodPatch(name: string, signature: string, replacementLines: seq<string>)

  datatype SmaliPatch = SmaliPatch(selector: SmaliPatchSelector, methods: seq<SmaliMethodPatch>)

  /**
   * `sig` is `name(params)ret` with no modifiers: no space anywhere, a
   * non-empty method name before the first `(`, and a non-empty return
   * descriptor after the last `)`.
   */
  predicate SignatureParts(sig: string, name: string, params: string, ret: string) {
    && sig == name + "(" + params + ")" + ret
    && |name| > 0 && |ret| > 0
    && ' ' !in sig && '\n' !in sig
    && '(' !in name && ')' !in params && ')' !in ret
  }

  /** `sig` has some decomposition `name(params)ret`. */
  ghost predicate WellFormedSignature(sig: string) {
    exists name, params, ret :: SignatureParts(sig, name, params, ret)
  }

  /** `ret` is the part of `sig` after its last `)`: the return type descriptor. */
  predicate IsReturnDescriptor(sig: string, ret: string) {
    |ret| < |sig| && sig[|sig| - |ret| - 1] == ')' && sig[|sig| - |ret|..] == ret && ')' !in ret
  }

  /** A signature has at most one return descriptor. */
  lemma ReturnDescriptorUnique(sig: string, r1: string, r2: string)
    requires IsReturnDescriptor(sig, r1) && IsReturnDescriptor(sig, r2)
    ensures r1 == r2
  {
  }

  /** The `ret` of a decomposition `name(params)ret` is the return descriptor. */
  lemma ReturnDescriptorOf(sig: string, name: string, params: string, ret: string)
    requires SignatureParts(sig, name, params, ret)
    ensures IsReturnDescriptor(sig, ret)
  {
    assert sig == (name + "(" + params + ")") + ret;
  }

  /** A replacement line carries no indentation of its own; the patcher prepends it. */
  predicate Unindented(line: string) {
    |line| > 0 && line[0] != ' ' && line[0] != '\t' && '\n' !in line
  }
}
