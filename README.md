# apk-mitm patch engine, modelled in Dafny

apk-mitm prepares Android apps for HTTPS inspection. It decodes an APK or
an app bundle, disables certificate pinning in the decompiled Smali code,
points the app at a network security configuration that trusts
user-installed certificates, repairs string resources that hold raw markup,
and then re-encodes and signs the app.

This project models the decision-making core of that pipeline:

- **Smali unit patcher** (`SmaliTypes`, `SmaliPatches`, `SmaliHead`,
  `SmaliMethod`, `ProcessFile`, `StepFold`, `LineEndings`):
  - the catalog of patch rules, as plain data;
  - the parse of a class head: its name, the interfaces it implements and
    whether it is an interface itself;
  - the selection of the rules that apply to a class;
  - the search for the method blocks a rule names, and the exact layout
    each block is rewritten into;
  - the Windows line-ending round trip;
  - the decision to write the file back.

  The two regular expressions of the head parser and the method pattern are
  written out as explicit searches. Each search yields the match that the
  pattern's backtracking yields: leftmost, the `final ` alternative tried
  first, a lazy body stopping at the first `\n.end method`, greedy keyword
  and name groups.
- **Legacy pinning remover** (`LegacyPinning`): the older
  X509TrustManager-only engine.
  - It is proved to rewrite a text exactly as the unit patcher's
    X509TrustManager rule does.
  - Its per-file loop and its `pinningFound` flag are imperative code over a
    file store.
- **Manifest rewriter** (`XmlElement`, `ModifyManifest`) and **network
  security configuration merger** (`NetsecConfig`):
  - The XML library's trees are modelled as values. JavaScript objects are
    ordered association lists: assigning a key overwrites it in place or
    appends it, as object key order does.
  - The proved properties include "nothing else changes", idempotence and
    "fixed exactly when already configured".
- **String-resource repair** (`FixXmlRes`):
  - the tag escape;
  - the lazy `<string name="…">…</string>` search;
  - the `while (regex.exec(xml))` loop, whose edits use `String.prototype.replace`
    with a string pattern, including the `$` substitution patterns of its
    replacement text.
- **Front end and utilities**:
  - `Cli`: the input-type dispatch, the output name, the certificate
    extension check and the error-message priority;
  - `PathParts` and `PosixPath`: Node's POSIX `extname`, `basename`, `join`
    and `normalize` (one trailing-slash case of `basename` aside, see below);
  - `JavaVersion`: the Java version parse;
  - `BuildGlob`: the glob builder;
  - `InsertIf`: `insertIf`.
- **Shared pieces**:
  - `Text`: string searches, split and join, trim, and replace-all of one
    character;
  - `FileSystem.FileStore`: a class holding the files and the log of writes;
  - `Base`: the `Option` and `Result` wrappers.

Where the source mutates state, the model does too:

- `FileStore` methods change the file map and the write log.
- `ProcessFile.PatchContent`, `LegacyPinning.PatchContent`,
  `LegacyPinning.DisableCertificatePinning`, `FixXmlRes.ProcessXml`,
  `ModifyManifest.SetMapsApiKey` and `Cli.DetermineTask` are loops or
  step-by-step methods.
- Each such method is proved against a specification function.
- The specification functions carry the properties as lemmas.

## Model

| member | source | states |
|---|---|---|
| Text.IndexOfFrom | src/tasks/disable-certificate-pinning.ts:60 | `indexOf(w, i)` returns the first index at or after `i` where `w` occurs, and none when it occurs nowhere from there on. |
| Text.ContainsIff | src/tasks/disable-certificate-pinning.ts:60 | `includes(w)` holds exactly when `w` occurs at some index. |
| Text.Split | src/tasks/smali/process-file.ts:41-42 | `split(c)` gives at least one piece, and no piece holds `c`. |
| Text.JoinSplit | src/tasks/smali/process-file.ts:41-42 | Splitting on a character and joining with it again gives the text back. |
| Text.SplitJoin | src/tasks/smali/process-file.ts:63-64 | Joining pieces free of a character with it and splitting on it again gives the pieces back. |
| Text.CountJoin | src/tasks/smali/process-file.ts:63-64 | Joining with `\n` pieces free of it puts exactly one line break between each two pieces. |
| Text.TrimEnd | src/tasks/smali/process-file.ts:63 | `trimEnd` gives the longest prefix that does not end in whitespace; everything it removes is whitespace. |
| Text.TrimStart | src/tasks/smali/parse-head.ts:31 | `trimStart` gives the longest suffix that does not start with whitespace; everything it removes is whitespace. |
| Text.SplitJoinReplaces | src/utils/build-glob.ts:7 | `split(c).join(d)` replaces every `c` by `d`. |
| Text.ReplaceCharPointwise | src/tasks/fix-xml-res.ts:9 | Replacing a character by a single character changes exactly the positions that held it. |
| InsertIf.InsertIf | src/utils/insert-if.ts:5-7 | The result has at most one element; it holds the element exactly when the condition holds; it is `[element]` when the condition holds and `[]` otherwise. |
| BuildGlob.ToPosixSpec | src/utils/build-glob.ts:6-8 | Converting a component keeps its length, puts `/` exactly where the platform separator was, and keeps every other character. |
| BuildGlob.ToPosixOnPosix | src/utils/build-glob.ts:6-8 | With `/` as the separator, the conversion is the identity. |
| BuildGlob.ToPosixWithoutSep | src/utils/build-glob.ts:6-8 | A component without the separator is kept as it is. |
| BuildGlob.BuildGlobPair | src/utils/build-glob.ts:4-11 | When the second of two components holds no separator, only the first is converted before the join. |
| BuildGlob.BuildGlobOnPosix | src/utils/build-glob.ts:4-11 | On POSIX, building the glob is joining the components as they are. |
| BuildGlob.BuildGlobPlain | src/utils/build-glob.ts:10 | Non-empty plain segments (no `/`, not `.` or `..`, no separator) are joined with `/`. |
| BuildGlob.BuildGlobOnWindows | src/utils/build-glob.ts:6-10 | With `\` as the separator, the glob contains no backslash. |
| PosixPath.Normalize | src/utils/build-glob.ts:10 | `path.posix.normalize` never gives the empty string. |
| PosixPath.NonEmpty | src/utils/build-glob.ts:10 | Every argument kept for the join is non-empty and is one of the arguments. |
| PosixPath.PosixJoin | src/utils/build-glob.ts:10 | `path.posix.join` never gives the empty string. |
| PosixPath.ResolvePlain | src/utils/build-glob.ts:10 | Plain segments all survive normalization, in order. |
| PosixPath.ResolveFrom | src/utils/build-glob.ts:10 | Every segment normalization keeps is a non-empty, non-`.` segment of the input, or a `..` that only a relative path keeps. |
| PosixPath.NonEmptyAll | src/utils/build-glob.ts:10 | Arguments that are all non-empty are all kept. |
| PosixPath.NormalizePlain | src/utils/build-glob.ts:10 | Normalizing a relative path made of plain segments gives it back. |
| PosixPath.PosixJoinPlain | src/utils/build-glob.ts:10 | Joining plain segments is joining them with `/`. |
| PosixPath.NormalizeLacks | src/utils/build-glob.ts:10 | Normalizing brings in no character other than `/` and `.`. |
| PosixPath.PosixJoinLacks | src/utils/build-glob.ts:10 | Joining brings in no character other than `/` and `.` that no argument holds. |
| JavaVersion.DigitsEnd | src/utils/get-java-version.ts:7 | The greedy `\d+` ends within the text, at or after where it starts. |
| JavaVersion.DigitsEndSpec | src/utils/get-java-version.ts:7 | The run it finds is all digits and no digit follows it. |
| JavaVersion.DigitsEndAt | src/utils/get-java-version.ts:7 | A digit run that stops where the digits stop is the run the search finds. |
| JavaVersion.VersionAtSound | src/utils/get-java-version.ts:7 | A match of `"(\d+\.\d+\.\d+)` at an index is a quote and three digit groups separated by dots, with no digit after it. |
| JavaVersion.VersionAtComplete | src/utils/get-java-version.ts:7 | Every quoted three-part version is found where it starts. |
| JavaVersion.VersionAtSpec | src/utils/get-java-version.ts:7 | The pattern matches at an index exactly when a quoted three-part version starts there. |
| JavaVersion.FindVersionFrom | src/utils/get-java-version.ts:7 | The search returns a real match, inside the text, at or after where it starts. |
| JavaVersion.FindVersionFromSpec | src/utils/get-java-version.ts:7 | The match found is the leftmost one; when none is found, no index matches. |
| JavaVersion.DigitsEndSlice | src/utils/get-java-version.ts:10 | Inside the captured version, the leading digit run stops where it stops in the whole output. |
| JavaVersion.LeadingOne | src/utils/get-java-version.ts:10 | The captured version starts with `1.` exactly when its first group is `1`. |
| JavaVersion.MajorVersionSpec | src/utils/get-java-version.ts:10 | The major version is the second group when the first group is `1`, and the first group otherwise. |
| JavaVersion.GetJavaVersion | src/utils/get-java-version.ts:11-19 | A failed run gives an error. The error is the "No java executable" one exactly when the code is `ENOENT`. Any other failure is passed on unchanged. |
| JavaVersion.GetJavaVersionFails | src/utils/get-java-version.ts:7 | When `java` runs, the lookup fails exactly when no index starts a quoted three-part version, and the failure is the missing-match error. |
| JavaVersion.GetJavaVersionFound | src/utils/get-java-version.ts:7-10 | The leftmost quoted three-part version decides the result: its second group when the first is `1`, its first group otherwise. |
| JavaVersion.JavaEightExample | src/utils/get-java-version.ts:9-10 | `"1.8.0_292"` gives 8. |
| JavaVersion.JavaEightQuoted | src/utils/get-java-version.ts:7 | `"1.8.0_292"` holds a quoted three-part version whose first group is `1` and whose second group reads as 8. |
| JavaVersion.JavaElevenExample | src/utils/get-java-version.ts:9-10 | `"11.0.2"` gives 11. |
| JavaVersion.JavaElevenQuoted | src/utils/get-java-version.ts:7 | `"11.0.2"` holds a quoted three-part version whose first group is not `1` and reads as 11. |
| JavaVersion.JavaSeventeenExample | src/utils/get-java-version.ts:7 | A bare `"17"` has no three-part version, so the lookup fails. |
| SmaliTypes.ReturnDescriptorUnique | src/tasks/smali/types.ts:27-31 | A signature has at most one return descriptor, the part after its last `)`. |
| SmaliTypes.ReturnDescriptorOf | src/tasks/smali/types.ts:27-31 | In a `name(params)ret` signature without modifiers, `ret` is the return descriptor. |
| SmaliPatches.AllMethodPatchesInOrder | src/tasks/smali/patches.ts:21-95 | The list of all method patches is the four rules' method lists, concatenated in catalog order. |
| SmaliPatches.CatalogSelectors | src/tasks/smali/patches.ts:21-95 | The catalog has exactly four rules: the X509TrustManager interface, the HostnameVerifier interface, the `com/squareup/okhttp/CertificatePinner` class and the `okhttp3/CertificatePinner` class, in that order. |
| SmaliPatches.CatalogReplacements | src/tasks/smali/patches.ts:27-93 | The two trust checks become return-void and `getAcceptedIssuers` returns the empty certificate array. `verify` becomes `.locals 1` / `const/4 v0, 0x1` / `return v0`. Every CertificatePinner method of rules 3 and 4 becomes return-void. |
| SmaliPatches.SnippetLineRegisters | src/tasks/smali/patches.ts:4-15 | Each snippet line uses no register, or only `v0`. |
| SmaliPatches.SnippetsLocalsCover | src/tasks/smali/patches.ts:4-15 | Return-void declares `.locals 0` and uses no register. The two other snippets declare `.locals 1` and use only `v0`. |
| SmaliPatches.SnippetsUnindented | src/tasks/smali/types.ts:33-37 | No snippet line carries leading indentation. |
| SmaliPatches.SignatureFits | src/tasks/smali/types.ts:27-37 | A signature built as `name(params)ret` from plain pieces is well formed and modifier-free. When the body ends in the return instruction `ret` needs, the patch's return fits its signature. |
| SmaliPatches.CheckClientTrustedPatchWellFormed | src/tasks/smali/patches.ts:28-33 | The `checkClientTrusted` patch is well formed: its signature splits as written, it returns void, its `.locals` cover its registers and its lines are unindented. |
| SmaliPatches.CheckServerTrustedPatchWellFormed | src/tasks/smali/patches.ts:34-39 | The same for `checkServerTrusted`. |
| SmaliPatches.GetAcceptedIssuersPatchWellFormed | src/tasks/smali/patches.ts:40-44 | The same for `getAcceptedIssuers`, which returns an array and so ends in `return-object v0`. |
| SmaliPatches.VerifyPatchWellFormed | src/tasks/smali/patches.ts:53-57 | The same for `verify`, which returns `Z` and so ends in `return v0`. |
| SmaliPatches.OkHttp25CheckPatchWellFormed | src/tasks/smali/patches.ts:66-71 | The same for the OkHttp 2.5 `check`. |
| SmaliPatches.OkHttp3CheckPatchWellFormed | src/tasks/smali/patches.ts:80-85 | The same for the OkHttp 3.x `check`. |
| SmaliPatches.OkHttp42CheckPatchWellFormed | src/tasks/smali/patches.ts:86-92 | The same for the OkHttp 4.2 `check$okhttp`. |
| SmaliPatches.CatalogWellFormed | src/tasks/smali/patches.ts:21-95 | Every method patch of the catalog is well formed: the return instruction matches the return descriptor (`V` gives return-void, `Z` gives `return v0`, an array gives `return-object`), and `.locals` covers the registers used. |
| SmaliPatches.CatalogNamesDistinct | src/tasks/smali/patches.ts:29-87 | The names of the catalog's method patches are pairwise distinct. |
| SmaliHead.NameAt | src/tasks/smali/parse-head.ts:1 | A name match at an index is ` L`, a non-empty run without whitespace, then `;`. |
| SmaliHead.NameAtSpec | src/tasks/smali/parse-head.ts:1 | The greedy `[^\s]+` gives the longest name that ends in `;`, and gives none exactly when no name fits. |
| SmaliHead.KeywordsAt | src/tasks/smali/parse-head.ts:1 | The keywords group, when present, is non-empty, at most the bound long, and followed by a name. |
| SmaliHead.KeywordsAtSpec | src/tasks/smali/parse-head.ts:1 | No longer keywords group is followed by a name; when the group is absent, none is. |
| SmaliHead.ClassLineFromSound | src/tasks/smali/parse-head.ts:1 | The keywords found stay on the `.class` line and are followed by a name. |
| SmaliHead.ClassLineAtSound | src/tasks/smali/parse-head.ts:1 | A class-pattern match at an index is a `.class` declaration there. |
| SmaliHead.ClassLineAtLongestKeywords | src/tasks/smali/parse-head.ts:1 | No declaration at that index has more keyword characters than the match. |
| SmaliHead.ClassLineAtLongestName | src/tasks/smali/parse-head.ts:1 | With the match's keywords, no declaration has a longer name. |
| SmaliHead.ClassLineAtComplete | src/tasks/smali/parse-head.ts:1 | When the class pattern does not match at an index, no class is declared there. |
| SmaliHead.ClassLineAtSpec | src/tasks/smali/parse-head.ts:1 | The match at an index is the declaration with the longest keywords, then the longest name; there is none exactly when nothing is declared. |
| SmaliHead.ClassSearch | src/tasks/smali/parse-head.ts:24 | `contents.match(CLASS_PATTERN)` finds the leftmost index where the pattern matches, and finds none when no index does. |
| SmaliHead.ClassSearchSpec | src/tasks/smali/parse-head.ts:24 | The search returns the class pattern's match: the leftmost declaration, read greedily. It returns none exactly when no class is declared. |
| SmaliHead.ImplementsAt | src/tasks/smali/parse-head.ts:2 | An implements match at an index is `.implements L`, a name, `;`. |
| SmaliHead.NoImplementsAt | src/tasks/smali/parse-head.ts:2 | When the search reports no match at an index, none starts there. |
| SmaliHead.ImplementsFromNamedAt | src/tasks/smali/parse-head.ts:28-30 | The interface at any one position of the list is named by an `.implements` declaration at or after where the scan began. |
| SmaliHead.ImplementsFromEmpty | src/tasks/smali/parse-head.ts:28-30 | The list is empty exactly when no `.implements` declaration follows. |
| SmaliHead.ImplementsFromNamed | src/tasks/smali/parse-head.ts:28-30 | Every listed interface is named by an `.implements` declaration at or after where the scan began. |
| SmaliHead.ImplementsFromSpec | src/tasks/smali/parse-head.ts:2-30 | The list holds exactly the names of the `.implements` matches at or after where the scan began, in file order. Every listed interface is declared there, every declaration is listed, and the list is empty exactly when there is none. |
| SmaliHead.ImplementsNoOverlap | src/tasks/smali/parse-head.ts:2 | No match of the implements pattern starts inside another match: the keyword holds no second `.`, and a name holds no whitespace where a later keyword needs its space. |
| SmaliHead.ImplementsFromAll | src/tasks/smali/parse-head.ts:2-30 | The global scan, which resumes behind each match's `;`, lists the name of the match at every index, in ascending order of index: it skips no match. |
| SmaliHead.ImplementsListed | src/tasks/smali/parse-head.ts:2-30 | Every `.implements` match at or after where the scan began has its name in the list. |
| SmaliHead.ImplementsAtLine | src/tasks/smali/parse-head.ts:2 | A declaration whose `;` is followed by whitespace or the end of the text is the match at its index: the greedy name stops at that `;`. |
| SmaliHead.ImplementsLineListed | src/tasks/smali/parse-head.ts:2-30 | A line `.implements L<name>;` followed by whitespace or the end of the file puts `name` in the interface list. |
| SmaliHead.ParseHeadSpec | src/tasks/smali/parse-head.ts:23-33 | The parse fails exactly when no class is declared. Otherwise the name and the interface flag come from the class pattern's match, and `implements` lists the matches of the implements pattern over the whole text. |
| SmaliHead.NoKeywordsNotInterface | src/tasks/smali/parse-head.ts:31 | A `.class` line without keywords gives `isInterface` = false. |
| SmaliHead.KeywordsInterface | src/tasks/smali/parse-head.ts:31 | When the keywords are single-space-separated words, `isInterface` holds exactly when one word is `interface`. |
| SmaliMethod.ClosingAfter | src/tasks/smali/process-file.ts:88 | The lazy body stops at the first `\n.end method` that leaves at least one body character; it finds none exactly when no closing follows. |
| SmaliMethod.BlockAt | src/tasks/smali/process-file.ts:88 | A block found at an index ends after it, within the text, and keeps the opening it was given. |
| SmaliMethod.MatchAt | src/tasks/smali/process-file.ts:88 | A match at an index ends after it, within the text. |
| SmaliMethod.BlockAtSpec | src/tasks/smali/process-file.ts:88 | A found block spans its opening, a line break, a non-empty body and the first closing after it. None is found exactly when the opening never closes. |
| SmaliMethod.MatchAtSpec | src/tasks/smali/process-file.ts:88 | The search agrees with the pattern's backtracking: `final ` is tried first, and a match covers exactly opening, line break, body and closing. No match means neither opening closes. |
| SmaliMethod.BlockSpan | src/tasks/smali/process-file.ts:88 | A block that closes is exactly its opening, a line break, its body and the closing. |
| SmaliMethod.Matches | src/tasks/smali/process-file.ts:38-39 | The pattern's match at each index is the search's, and every match ends after it starts. |
| SmaliMethod.ScanSkips | src/tasks/smali/process-file.ts:38-66 | Where no match starts, `replace` copies the character and carries on. |
| SmaliMethod.ScanCopies | src/tasks/smali/process-file.ts:38-66 | Text before the next match is copied unchanged. |
| SmaliMethod.ScanAgree | src/tasks/smali/process-file.ts:38-66 | Two replacers that agree on every match give the same result. |
| SmaliMethod.ReplaceAllAgree | src/tasks/smali/process-file.ts:38-66 | Replacers that agree on every block the pattern can match give the same text. |
| SmaliMethod.ScanNoMatch | src/tasks/smali/process-file.ts:38-66 | A text without any match is returned as it is. |
| SmaliMethod.BlockLinesFlat | src/tasks/smali/process-file.ts:58-64 | Every line of the new layout is free of line breaks before the join. |
| SmaliMethod.RewriteLines | src/tasks/smali/process-file.ts:58-64 | Split back on `\n`, the rewrite gives exactly its trimmed lines: one per replacement line, one per old body line, and six more. |
| SmaliMethod.RewriteLayout | src/tasks/smali/process-file.ts:40-64 | Line by line, the rewrite is the trimmed opening line, then the following lines, each indented 4 spaces and right-trimmed: the inserted marker, the replacement lines, a blank line, the commented-out marker, `#`, and each old body line with one 4-space indent removed and prefixed `# `. The last line is `.end method`. |
| SmaliMethod.BlockTextCount | src/tasks/smali/process-file.ts:88 | An original block holds one line break more than its body has lines. |
| SmaliMethod.RewriteCount | src/tasks/smali/process-file.ts:40-64 | Rewriting a block adds exactly the number of replacement lines plus 4 line breaks. |
| SmaliMethod.CreatedPatternFlat | src/tasks/smali/process-file.ts:85-91 | A signature without line breaks gives a pattern whose openings have none. |
| SmaliMethod.RewriterAddsLines | src/tasks/smali/process-file.ts:40-64 | The rewrite adds line breaks to every block the pattern can match. |
| SmaliMethod.ScanCount | src/tasks/smali/process-file.ts:38-66 | Replacing never removes line breaks, and adds some as soon as one match lies ahead. |
| SmaliMethod.ScanChanged | src/tasks/smali/process-file.ts:38-66 | With growing replacements, the result differs from the text exactly when some match exists. |
| SmaliMethod.MatchesAddLines | src/tasks/smali/process-file.ts:38-66 | The rewrite adds line breaks at every match the text holds. |
| SmaliMethod.ChangedIffBlock | src/tasks/smali/process-file.ts:36-67 | One method's `replace` changes the text exactly when the text holds a block of that method. It never removes line breaks, and adds some whenever it changes the text. |
| StepFold.FoldSnoc | src/tasks/smali/process-file.ts:36-67 | One more loop item is one more step on the text the earlier items left. |
| StepFold.StepSplit | src/tasks/smali/process-file.ts:36-67 | A changing step of a longer loop is its last step, or a step of the shorter loop. |
| StepFold.FoldCount | src/tasks/smali/process-file.ts:36-67 | A loop of growing steps never removes line breaks, and adds some as soon as one step changes the text. |
| StepFold.NoStepUnchanged | src/tasks/smali/process-file.ts:36-67 | A loop in which no step changes the text leaves it as it was. |
| StepFold.FoldChanged | src/tasks/smali/process-file.ts:36-67 | A loop of growing steps changes the text exactly when one of its steps does. |
| StepFold.FoldThree | src/tasks/disable-certificate-pinning.ts:69-101 | A loop over three items applies the step three times, in order. |
| LineEndings.ToCrlfCons | src/tasks/smali/process-file.ts:70-73 | LF to CRLF works character by character. |
| LineEndings.ToCrlfHead | src/tasks/smali/process-file.ts:70-73 | A converted text never starts with a bare LF. |
| LineEndings.ToLfToCrlf | src/tasks/smali/process-file.ts:20-23 | Converting LF to CRLF and back gives the text back. |
| LineEndings.ToCrlfToLf | src/tasks/smali/process-file.ts:70-73 | On a text whose line breaks are all CRLF, converting to LF and back gives the text back. |
| LineEndings.ToLfKeepsOther | src/tasks/smali/process-file.ts:20-23 | The CRLF-to-LF conversion keeps the count of every character other than CR and LF. |
| LineEndings.WriteThenRead | src/tasks/smali/process-file.ts:70-75 | Reading back what was written gives the patched text, on either platform. |
| FileSystem.FileStore.ReadFile | src/utils/fs.ts:6 | Reading gives the file's contents, or nothing when it is missing. |
| FileSystem.FileStore.Exists | src/utils/fs.ts:9 | The existence test answers whether the path is a file. |
| FileSystem.FileStore.WriteFile | src/utils/fs.ts:7 | Writing sets the path's contents and logs the write; nothing else changes. |
| ProcessFile.ApplicablePatches | src/tasks/smali/process-file.ts:30-32 | The filter keeps no more rules than the catalog has. |
| ProcessFile.ApplicablePatchesSpec | src/tasks/smali/process-file.ts:97-109 | A rule is kept exactly when it is a class rule naming the class, or an interface rule naming one of its interfaces. |
| ProcessFile.MethodsOfSpec | src/tasks/smali/process-file.ts:35 | A method patch is scheduled exactly when one of the kept rules lists it. |
| ProcessFile.MethodsOfUnfold | src/tasks/smali/process-file.ts:30-35 | The scheduled methods are the first rule's, if it matches, then those of the rest. |
| ProcessFile.MethodsOfFour | src/tasks/smali/process-file.ts:30-35 | On four rules, the scheduled methods are those of each matching rule, in rule order. |
| ProcessFile.CatalogRuleMethods | src/tasks/smali/process-file.ts:97-109 | Each catalog rule contributes its methods exactly when the class implements its interface or has its name. |
| ProcessFile.CatalogMethodsForSpec | src/tasks/smali/process-file.ts:30-35 | For the catalog, a trust manager gets its three methods, a hostname verifier `verify`, the OkHttp 2 pinner `check`, and the OkHttp 3 pinner both `check` variants, in that order. |
| ProcessFile.MethodsOfConcat | src/tasks/smali/process-file.ts:35 | `flatMap` over two rule lists is the concatenation of their results. |
| ProcessFile.WellFormedIsFlat | src/tasks/smali/types.ts:27-37 | A well-formed patch has no line break in its signature or its replacement lines. |
| ProcessFile.CatalogFlat | src/tasks/smali/patches.ts:21-95 | No catalog patch has a line break in its signature or lines. |
| ProcessFile.MethodAddsLines | src/tasks/smali/process-file.ts:37-66 | The rewrite of a flat patch adds line breaks to every block its pattern can match. |
| ProcessFile.ApplyMethodSpec | src/tasks/smali/process-file.ts:37-66 | One loop step changes the text exactly when it finds a block of its method; it never removes line breaks, and adds some when it changes the text. |
| ProcessFile.ApplyMethodGrows | src/tasks/smali/process-file.ts:36-67 | Every step of the loop over flat patches grows the text. |
| ProcessFile.ApplyMethodsChanged | src/tasks/smali/process-file.ts:36-67 | The loop changes the text exactly when one of its steps does, and step `k` changes it exactly when it finds a block of its method in the text the earlier steps left. |
| ProcessFile.PatchContent | src/tasks/smali/process-file.ts:25-67 | The loop reassigning `patchedContent` computes the fold of the method steps over the applicable methods. |
| ProcessFile.PatchedTextSpec | src/tasks/smali/process-file.ts:25-67 | The patcher fails exactly when no class is declared. Otherwise it changes the text exactly when the class is not an interface and some step of the loop over the catalog methods for that class changes it. |
| ProcessFile.CatalogMethodsIn | src/tasks/smali/patches.ts:21-95 | Every method of every catalog rule is among the catalog's method patches. |
| ProcessFile.InterfaceUnchanged | src/tasks/smali/process-file.ts:27-28 | An interface is never patched. |
| ProcessFile.ProcessSmaliFile | src/tasks/smali/process-file.ts:14-80 | A missing file, or a text without a class, fails with nothing written. Otherwise the result is whether the normalised text changed. Exactly then the patched text, with CRLF restored on Windows, is written, and otherwise nothing is. |
| LegacyPinning.SmaliGlobIsBuildGlob | src/tasks/disable-certificate-pinning.ts:47-48 | The glob the legacy task builds is what `buildGlob` builds from the directory and `smali*/**/*.smali`. |
| LegacyPinning.SignaturesAreCatalogs | src/tasks/disable-certificate-pinning.ts:13-17 | The legacy signatures are the catalog's three trust-manager signatures, in order. |
| LegacyPinning.FixesAreCatalogs | src/tasks/disable-certificate-pinning.ts:29-40 | The legacy fixes are the catalog's return-void and empty-array snippets. |
| LegacyPinning.CheckOpeningsLackA | src/tasks/disable-certificate-pinning.ts:81-83 | The trust checks' opening lines, with or without `final `, do not contain `getAcceptedIssuers`. |
| LegacyPinning.IssuersOpeningsContainName | src/tasks/disable-certificate-pinning.ts:81-83 | Both `getAcceptedIssuers` opening lines contain its name. |
| LegacyPinning.FixForCatalog | src/tasks/disable-certificate-pinning.ts:81-83 | For each pattern, the fix chosen from the opening line is the catalog's replacement for the same method. |
| LegacyPinning.PatternStepIsCatalogStep | src/tasks/disable-certificate-pinning.ts:70-100 | Each legacy pattern step rewrites exactly as the catalog's patch for the same method. |
| LegacyPinning.PatchTrustManagerIsCatalogRule | src/tasks/disable-certificate-pinning.ts:69-101 | The legacy engine rewrites a text exactly as the unit patcher's loop over the X509TrustManager rule does. |
| LegacyPinning.PatchTrustManagerChanged | src/tasks/disable-certificate-pinning.ts:69-103 | The legacy loop changes a text exactly when one of its three steps finds a block of its method in the text the earlier steps left. |
| LegacyPinning.PatchedFileSpec | src/tasks/disable-certificate-pinning.ts:57-112 | A file is written exactly when it contains the X509TrustManager implements line and its normalised text changes. What is written reads back as the patched text. |
| LegacyPinning.PatchContent | src/tasks/disable-certificate-pinning.ts:67-101 | The loop over `METHOD_PATTERNS` computes the legacy rewrite. |
| LegacyPinning.PatchFile | src/tasks/disable-certificate-pinning.ts:57-112 | One file: it is written exactly when it changes, with its patched contents, and the write is logged. |
| LegacyPinning.DisableCertificatePinning | src/tasks/disable-certificate-pinning.ts:52-115 | After the loop, the files and the write log are those of the specification run. The Listr step is skipped with "No certificate pinning logic found." exactly when nothing was written. |
| LegacyPinning.RunStep | src/tasks/disable-certificate-pinning.ts:54-113 | One more path patches that file in the files so far, and logs it when it changed. |
| LegacyPinning.RunKeepsDomain | src/tasks/disable-certificate-pinning.ts:54-113 | The loop keeps every file and creates none. |
| LegacyPinning.RunOutside | src/tasks/disable-certificate-pinning.ts:54-113 | A path the loop never visits keeps its contents. |
| LegacyPinning.RunContents | src/tasks/disable-certificate-pinning.ts:54-113 | With distinct listed paths, each listed file ends up patched when it changes, and every other file ends up as it was. |
| LegacyPinning.RunWrites | src/tasks/disable-certificate-pinning.ts:54-113 | With distinct listed paths, the files written are exactly the listed ones that change. |
| LegacyPinning.RunDistinct | src/tasks/disable-certificate-pinning.ts:52-115 | With distinct listed paths, the loop keeps the set of files, writes exactly the listed files that change, and leaves every other file as it was. Some file is written, and so the Listr step is not skipped, exactly when one listed file changes. |
| XmlElement.Get | src/tasks/modify-manifest.ts:28 | Reading a key finds a value exactly when some entry has that key. |
| XmlElement.PutGet | src/tasks/modify-manifest.ts:14-22 | After `attrs[key] = value`, reading `key` gives `value`. |
| XmlElement.PutGetOther | src/tasks/modify-manifest.ts:14-22 | After `attrs[key] = value`, every other key reads as before. |
| XmlElement.PutKeys | src/tasks/modify-manifest.ts:14-22 | The keys keep their order, and a new key is appended. |
| XmlElement.PutSame | src/tasks/modify-manifest.ts:40 | Assigning a key the value it already has changes nothing. |
| XmlElement.PutTwice | src/tasks/modify-manifest.ts:40 | Assigning the same value twice is assigning it once. |
| XmlElement.Delete | src/tasks/modify-netsec-config.ts:30 | After `delete`, the key is gone. |
| XmlElement.DeleteGetOther | src/tasks/modify-netsec-config.ts:30 | Deleting a key leaves every other key reading as before. |
| XmlElement.DeleteAbsent | src/tasks/modify-netsec-config.ts:30 | Deleting a missing key changes nothing. |
| XmlElement.FindNamed | src/tasks/modify-manifest.ts:11-12 | `find` returns the first element with the name, and none when no element has it. |
| XmlElement.FindChild | src/tasks/modify-manifest.ts:11-12 | `elements?.find` finds nothing when the parent has no children. |
| XmlElement.FindNamedReplace | src/tasks/modify-manifest.ts:11-12 | Replacing an element by one with the same name leaves every search where it was. |
| ModifyManifest.Locate | src/tasks/modify-manifest.ts:11-12 | The located manifest and application exist at the indices given. |
| ModifyManifest.SetMapsApiKey | src/tasks/modify-manifest.ts:32-43 | The `forEach` gives `android:value` = the key to exactly the `meta-data` children named as one of the two Maps API key entries; every other child is unchanged. |
| ModifyManifest.Modify | src/tasks/modify-manifest.ts:9-48 | `modifyManifest` computes the specified rewritten document and app-bundle answer, or the missing element. |
| ModifyManifest.PatchedAttributesSpec | src/tasks/modify-manifest.ts:14-22 | The new attributes set `android:networkSecurityConfig` to `@xml/nsc_mitm` and, with the flag, `android:debuggable` to `true`. Every other key reads as before, so an existing debuggable is kept when the flag is unset. |
| ModifyManifest.ModifiedManifestErrors | src/tasks/modify-manifest.ts:11-12 | The rewrite fails exactly when there is no `manifest` element, or the first manifest has no `application` child. |
| ModifyManifest.WithMapsKeyKeepsName | src/tasks/modify-manifest.ts:32-43 | The key replacement keeps each child's name and `android:name`, and so whether it is a Maps key entry or a splits entry. |
| ModifyManifest.UsesAppBundleKept | src/tasks/modify-manifest.ts:24-44 | The rewrite does not change whether the application declares `com.android.vending.splits`. |
| ModifyManifest.PatchedApplicationIdempotent | src/tasks/modify-manifest.ts:14-44 | Rewriting a rewritten application changes nothing. |
| ModifyManifest.ModifiedManifestLocates | src/tasks/modify-manifest.ts:11-46 | The rewrite finds the same manifest and application in its own output. Everything outside that application is left as it was. |
| ModifyManifest.ModifiedManifestIdempotent | src/tasks/modify-manifest.ts:9-48 | Running the rewrite on its own output gives the same document and the same app-bundle answer. |
| ModifyManifest.DefaultsKeepChildren | src/tasks/modify-manifest.ts:6-44 | With an empty Maps key the children are untouched, whether or not the app is made debuggable. With the defaults (not debuggable, empty key), the name is untouched too, and only `android:networkSecurityConfig` changes among the attributes. |
| NetsecConfig.ChildList | src/tasks/modify-netsec-config.ts:32-34 | `node[key] \|\| (node[key] = [{}])` always gives a non-empty list. |
| NetsecConfig.ModifyNetworkSecurityConfig | src/tasks/modify-netsec-config.ts:14-41 | `modifyNetworkSecurityConfig` succeeds exactly when the specified text exists. A missing file gets the default configuration. On success exactly that path is written; when the rewrite throws, nothing is written. |
| NetsecConfig.PatchedCertificatesSpec | src/tasks/modify-netsec-config.ts:36-38 | The filter throws exactly when a certificate entry has no `_attributes`. Otherwise the list keeps its entries first, every entry has attributes, and one trusts the user. A list that already holds a user entry is unchanged; any other gains exactly one user entry at its end. |
| NetsecConfig.TrustAnchorsTrustUser | src/tasks/modify-netsec-config.ts:34-38 | Patched trust anchors hold a certificate list that trusts user certificates and that the filter reads without throwing. |
| NetsecConfig.TrustAnchorsKeepsRest | src/tasks/modify-netsec-config.ts:34-38 | Patching `trust-anchors` touches no member but `certificates`, and the certificates that were there stay first. |
| NetsecConfig.OverridesKeepsRest | src/tasks/modify-netsec-config.ts:33 | Patching `debug-overrides` touches no member but `trust-anchors`. That list keeps its length and every entry after the first, and its first entry is the patched first trust anchors. |
| NetsecConfig.ConfigNodeKeepsRest | src/tasks/modify-netsec-config.ts:30-32 | Patching a configuration drops its `pin-set` and touches no other member but `debug-overrides`. That list keeps its length and every entry after the first, and its first entry is the patched first overrides. |
| NetsecConfig.PatchedDocumentKeepsNested | src/tasks/modify-netsec-config.ts:26-38 | Inside the first configuration, only the first `debug-overrides` and, in it, the first `trust-anchors` change. The later entries of both lists stay, and so does every member of those two nodes other than `trust-anchors` and `certificates`. |
| NetsecConfig.PatchedDocumentConfigured | src/tasks/modify-netsec-config.ts:26-38 | After a successful rewrite, the first configuration has no `pin-set`, and its first trust anchors trust user certificates. |
| NetsecConfig.TrustAnchorsFixed | src/tasks/modify-netsec-config.ts:34-38 | Trust anchors that already trust the user are left as they are. |
| NetsecConfig.OverridesFixed | src/tasks/modify-netsec-config.ts:33-38 | `debug-overrides` whose first trust anchors trust the user are left as they are. |
| NetsecConfig.ConfigNodeFixed | src/tasks/modify-netsec-config.ts:30-38 | A configuration without `pin-set` whose first `debug-overrides` is already patched is left as it is. |
| NetsecConfig.ConfiguredFixed | src/tasks/modify-netsec-config.ts:26-38 | A configured document is left as it is. |
| NetsecConfig.FixedIffConfigured | src/tasks/modify-netsec-config.ts:26-38 | The rewrite leaves a document as it is exactly when it is already configured. |
| NetsecConfig.PatchedDocumentIdempotent | src/tasks/modify-netsec-config.ts:26-38 | Merging an already merged configuration gives the same tree. |
| NetsecConfig.PatchedDocumentKeepsRest | src/tasks/modify-netsec-config.ts:26-40 | Other top-level entries and other configuration elements are untouched, and so are the first configuration's entries other than `pin-set` and `debug-overrides`. Pin sets inside `domain-config` stay. The first configuration becomes the patched configuration node. |
| NetsecConfig.DefaultTreeConfigured | src/tasks/modify-netsec-config.ts:5-12 | The default configuration is already configured, so a later run leaves it as it is. |
| FixXmlRes.EscapeIsPointwise | src/tasks/fix-xml-res.ts:8-10 | The two chained replacements equal the per-character escape: `<` becomes `&lt;`, `>` becomes `&gt;`, and everything else (including `&`) is kept. |
| FixXmlRes.EscapeConcat | src/tasks/fix-xml-res.ts:8-10 | The escape distributes over concatenation. |
| FixXmlRes.EscapeRemovesTags | src/tasks/fix-xml-res.ts:8-10 | The escaped text holds no `<` and no `>`. |
| FixXmlRes.EscapeWithoutTags | src/tasks/fix-xml-res.ts:8-10 | A text without `<` and `>` is its own escape. |
| FixXmlRes.EscapeNotInjective | src/tasks/fix-xml-res.ts:8-10 | `<` and `&lt;` escape to the same text, because `&` is left alone. |
| FixXmlRes.EscapeEachKeeps | src/tasks/fix-xml-res.ts:8-10 | The escape brings in no character other than `&`, `l`, `g`, `t` and `;`. |
| FixXmlRes.Delimited | src/tasks/fix-xml-res.ts:16 | A match starts where it is tried and spans at least the three delimiters, within the text. |
| FixXmlRes.MatchAt | src/tasks/fix-xml-res.ts:16 | The string regex's match at an index spans at least its delimiters, within the text. |
| FixXmlRes.DelimitedText | src/tasks/fix-xml-res.ts:16 | The text a match covers is the opening delimiter, the name, the middle delimiter, the value and the closing delimiter. |
| FixXmlRes.DelimitedClean | src/tasks/fix-xml-res.ts:16 | The lazy groups stop at the first delimiter: the name holds no middle delimiter and the value no closing one. |
| FixXmlRes.MatchAtText | src/tasks/fix-xml-res.ts:16 | The text a match covers is `<string name="`, the name, `">`, the value and `</string>`. |
| FixXmlRes.MatchClean | src/tasks/fix-xml-res.ts:16 | The name holds no `">` and the value no `</string>`. |
| FixXmlRes.NextMatch | src/tasks/fix-xml-res.ts:18 | `exec` from `lastIndex` returns a match that starts at or after it. |
| FixXmlRes.NextMatchLeftmost | src/tasks/fix-xml-res.ts:18 | The returned match is the leftmost; when none is returned, no match starts from there on. |
| FixXmlRes.MatchesStep | src/tasks/fix-xml-res.ts:18-19 | The loop visits the first match and then continues from its end. |
| FixXmlRes.MatchesFound | src/tasks/fix-xml-res.ts:18 | Every visited match is a real match at or after where the visit began. |
| FixXmlRes.MatchesOrdered | src/tasks/fix-xml-res.ts:18 | The visited matches come in order and do not overlap. |
| FixXmlRes.MatchesNoneSkipped | src/tasks/fix-xml-res.ts:18 | No match starts between two visited matches. |
| FixXmlRes.SubstituteLiteral | src/tasks/fix-xml-res.ts:22 | A replacement text without `$` is inserted as written. |
| FixXmlRes.EditSpec | src/tasks/fix-xml-res.ts:20-22 | A value without markup leaves the text unchanged, as does a value that does not occur. Otherwise the first occurrence of the raw value is replaced by the escaped `<string>` element; with `$`-free name and value it is inserted literally, and the original outer tags stay around it. |
| FixXmlRes.EditsKeep | src/tasks/fix-xml-res.ts:18-24 | When no visited value has markup, the loop leaves the text as it is. |
| FixXmlRes.NoMarkupUnchanged | src/tasks/fix-xml-res.ts:18-26 | A file whose values hold no markup is written back with identical contents. |
| FixXmlRes.ElementMatches | src/tasks/fix-xml-res.ts:16-22 | A `<string>` element whose name has no `">` and whose value has no `<` is matched whole by the string regex. |
| FixXmlRes.ReplacementMatches | src/tasks/fix-xml-res.ts:21-22 | The element an edit inserts is itself matched whole, with the escaped value. |
| FixXmlRes.DelimitedElement | src/tasks/fix-xml-res.ts:16 | Delimiters around two groups are matched back as those groups when the first group holds no middle delimiter and the second no first character of the closing one. |
| FixXmlRes.ProcessXml | src/tasks/fix-xml-res.ts:14-24 | The `while` loop over `exec` computes the specified new text. |
| FixXmlRes.ProcessXmlFile | src/tasks/fix-xml-res.ts:12-27 | A readable file is always written back, changed or not, with the fixed text. A missing file changes nothing. |
| FixXmlRes.StringsGlobIsBuildGlob | src/tasks/fix-xml-res.ts:34 | The listing's glob is `buildGlob(directoryPath, 'res/*/strings.xml')`. |
| FixXmlRes.FixXmlResFiles | src/tasks/fix-xml-res.ts:37-40 | The files end up as the specified loop over the listing leaves them, and every listed path is logged as a write, in listing order. |
| FixXmlRes.FixAllSpec | src/tasks/fix-xml-res.ts:37-40 | The files keep their paths. Unlisted files are untouched, and a file listed once ends up fixed once. |
| PathParts.TrimSlashes | src/cli.ts:199 | Trimming trailing slashes gives a prefix that does not end in `/`. |
| PathParts.LastIndexOfChar | src/cli.ts:199 | The index found holds the character and none follows it; none is found exactly when the character is absent. |
| PathParts.LastSegment | src/cli.ts:221 | The last segment has no `/` and is no longer than the path. |
| PathParts.ExtNameSpec | src/cli.ts:199 | `extname` is empty or a real extension (a dot, then no dot and no slash) that ends the last segment after at least one other character. |
| PathParts.BaseNameStrips | src/cli.ts:221 | A suffix shorter than the last segment is stripped from it, and nothing else is. |
| PathParts.BaseNameExtName | src/cli.ts:221 | `basename(p, extname(p))` followed by `extname(p)` gives back the last segment. |
| PathParts.ExtNameOfSegment | src/cli.ts:199 | A segment that ends with an extension after something else (and is not `..`) has exactly that extension. |
| PathParts.LastSegmentPlain | src/cli.ts:221 | A path without slashes is its own last segment. |
| PathParts.BaseNamePlain | src/cli.ts:221 | The base name has no slash. |
| PathParts.ExtNameIff | src/cli.ts:199 | A path has a given extension of two or more characters exactly when its last segment ends with it after something else. |
| Cli.DetermineTask | src/cli.ts:178-225 | A `stat` failure fails. A directory selects `patchApk` with `skipDecode` and an `.apk` output name when `apktool.yml` exists, and otherwise raises the user error. `.apk` selects `patchApk`; `.xapk` selects `patchXapkBundle`; `.apks` and `.zip` select `patchApksBundle`; any other extension is refused. `isAppBundle` holds exactly for the bundle tasks, `skipDecode` exactly for directories, and the output name is `basename(p, ext)-patched` + ext. |
| Cli.OutputNameOfFile | src/cli.ts:218-222 | For a file, the output name is its last segment with `-patched` inserted before the extension. |
| Cli.OutputNameKeepsExtension | src/cli.ts:221-222 | The output name has no slash, and its extension is the extension it was built with. |
| Cli.SupportedExtensionKept | src/cli.ts:218-222 | A patched file keeps its supported extension. |
| Cli.CertificateCheck | src/cli.ts:73-78 | `main` stops exactly when a non-empty certificate is given whose resolved path's extension is neither `.pem` nor `.der`. |
| Cli.CertificateAcceptedIff | src/cli.ts:75-78 | A certificate is accepted exactly when its last segment ends with `.pem` or `.der` after at least one other character. |
| Cli.GetErrorMessage | src/cli.ts:227-235 | A user error gives its own message. Otherwise non-empty command output gives its formatted text. Otherwise the message is the stack trace, which may be absent. |

## Left out

- The XML library's text parser and serialiser (xml-js) are not modelled.
  - The manifest rewrite works on the parsed tree; reading and writing the
    manifest file is not modelled.
  - `modifyNetworkSecurityConfig` takes the parser and the
    serialiser as parameters.
- The XML trees and attribute objects are values; the source updates them
  in place. The model does not capture aliasing: each tree is freshly
  parsed, and nothing else refers to it.
- In the compact tree of the network security configuration, a node keeps
  its entries by key. The interleaving of text and elements is not
  modelled.
- `modifyNetworkSecurityConfig` is modelled without `fs.mkdir` of the
  missing directory.
- A malformed configuration is reported as an error rather than as the
  JavaScript exception it raises. Malformed means a member that is not an
  array where an array is read.
- The file listings (globby) are parameters: the steps take the list of
  paths. Every listed path is required to be a file. The glob each step
  builds is modelled (`SmaliGlobIsBuildGlob`, `StringsGlobIsBuildGlob`).
- `fs.stat` and `fs.exists` are parameters of `Cli.DetermineTask`.
  `path.resolve` of the input and certificate paths against the working
  directory is a parameter, or assumed already done. Path functions follow
  Node's POSIX implementation; Windows path semantics are not modelled.
- Running `java -version` is a parameter: its outcome is given as a value.
- `process.exit`, `showHelp` and the other `show*` helpers, `chalk`,
  logging, progress messages, and `formatCommandError` are not modelled.
  `formatCommandError` is a parameter of `Cli.GetErrorMessage`.
- The rest of `main`, the pipelines (`patch-apk.ts`, `patch-app-bundle.ts`,
  `index.ts`, `apply-patches.ts`), the observers, downloads, the tool
  wrappers and the plain file copies are not modelled.
- JavaScript regular expressions are not modelled in general. Each pattern
  the core uses is written out as the search its backtracking performs.
- `escapeStringRegexp` is not modelled: the method pattern matches the
  signature literally.
- Smali patching is deliberately not claimed to be idempotent. A patched
  block still starts with `.method public …` and ends with `.end method`,
  so a second run matches it again.
- PathParts.BaseName: when the path ends in `/` and its last segment is a
  proper ending of the suffix, Node keeps the trailing slashes
  (`basename("a/pk/", "apk")` is `"pk/"`, `basename("/", "x")` is `"/"`).
  The model returns the segment without them (`"pk"`, `""`). The output
  name passes the path's own extension as the suffix, which either is
  empty or ends the last segment in full, so it never meets this case.
- Cli.DetermineTask: its contract does not state that the output name has
  no slash; `Cli.OutputNameKeepsExtension` states it for the same name.
- LegacyPinning.DisableCertificatePinning: the lemmas that describe the
  outcome file by file (`RunContents`, `RunWrites`, `RunDistinct`) require
  distinct listed paths, as a file listing gives.
- FixXmlRes.FixAllSpec: the property "ends up fixed once" is stated only
  for paths listed once.
- FixXmlRes.EditSpec: the exact inserted text is stated for a name and
  value without `$`. With `$`, `String.prototype.replace` substitution
  patterns apply; these are modelled in `Substitute`, but no closed form
  is stated for them.
