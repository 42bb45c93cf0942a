/**
 * The command-line front end: choosing the patching task from the input
 * path (a decoded directory or a file with a known extension), naming the
 * output file, accepting a certificate only with a `.pem` or `.der`
 * extension, and choosing the message shown when patching fails. The file
 * system's `stat` and `exists` are parameters; the path operations are
 * Node's POSIX ones.
 */
module Cli {
  import opened Base
  import opened Text
  import opened PosixPath
  import opened PathParts

  /** The three patching pipelines the front end can start. */
  datatype TaskFunction = PatchApk | PatchXapkBundle | PatchApksBundle

  /** What `determineTask` hands back to `main`. */
  datatype Task = Task(taskFunction: TaskFunction, skipDecode: bool, isAppBundle: bool, outputName: string)

  /** Why no task was chosen: `stat` threw, the directory is not a decoded one, or the extension is not supported (the program then exits with status 1). */
  datatype TaskError = StatFailed | UserError(message: string) | UnsupportedExtension

  const ApktoolYaml := "apktool.yml"
  const NoApktoolYamlMessage := "No \"apktool.yml\" file found inside the input directory! Make sure to specify a directory created by \"apktool decode\"."
  const PatchedSuffix := "-patched"

  /** The file extensions an input file may have. */
  predicate SupportedExtension(ext: string) {
    ext == ".apk" || ext == ".xapk" || ext == ".apks" || ext == ".zip"
  }

  /** The output file name: the input's base name without the extension, `-patched`, then the extension. */
  function OutputName(inputPath: string, ext: string): string {
    BaseName(inputPath, ext) + PatchedSuffix + ext
  }

  /**
   * `determineTask`: `stat(p)` is `None` when the path cannot be stat-ed and
   * otherwise tells whether it is a directory; `fileExists` is the file
   * system's existence test.
   */
  method DetermineTask(inputPath: string, stat: string -> Option<bool>, fileExists: string -> bool) returns (r: Result<Task, TaskError>)
    ensures stat(inputPath).None? ==> r == Err(StatFailed)
    ensures stat(inputPath) == Some(true) ==>
      r == if fileExists(PosixJoin([inputPath, ApktoolYaml]))
           then Ok(Task(PatchApk, true, false, OutputName(inputPath, ".apk")))
           else Err(UserError(NoApktoolYamlMessage))
    ensures stat(inputPath) == Some(false) && ExtName(inputPath) == ".apk" ==>
      r == Ok(Task(PatchApk, false, false, OutputName(inputPath, ".apk")))
    ensures stat(inputPath) == Some(false) && ExtName(inputPath) == ".xapk" ==>
      r == Ok(Task(PatchXapkBundle, false, true, OutputName(inputPath, ".xapk")))
    ensures stat(inputPath) == Some(false) && (ExtName(inputPath) == ".apks" || ExtName(inputPath) == ".zip") ==>
      r == Ok(Task(PatchApksBundle, false, true, OutputName(inputPath, ExtName(inputPath))))
    ensures stat(inputPath) == Some(false) && !SupportedExtension(ExtName(inputPath)) ==> r == Err(UnsupportedExtension)
    ensures r.Ok? ==> (r.value.isAppBundle <==> r.value.taskFunction != PatchApk)
    ensures r.Ok? ==> (r.value.skipDecode <==> stat(inputPath) == Some(true))
  {
    var fileStats := stat(inputPath);
    if fileStats.None? {
      return Err(StatFailed);
    }
    var outputFileExtension := ".apk";
    var skipDecode := false;
    var isAppBundle := false;
    var taskFunction: TaskFunction;
    if fileStats.value {
      taskFunction := PatchApk;
      skipDecode := true;
      var apktoolYamlPath := PosixJoin([inputPath, ApktoolYaml]);
      if !fileExists(apktoolYamlPath) {
        return Err(UserError(NoApktoolYamlMessage));
      }
    } else {
      var inputFileExtension := ExtName(inputPath);
      if inputFileExtension == ".apk" {
        taskFunction := PatchApk;
      } else if inputFileExtension == ".xapk" {
        isAppBundle := true;
        taskFunction := PatchXapkBundle;
      } else if inputFileExtension == ".apks" || inputFileExtension == ".zip" {
        isAppBundle := true;
        taskFunction := PatchApksBundle;
      } else {
        return Err(UnsupportedExtension);
      }
      outputFileExtension := inputFileExtension;
    }
    var baseName := BaseName(inputPath, outputFileExtension);
    var outputName := baseName + PatchedSuffix + outputFileExtension;
    assert outputName == OutputName(inputPath, outputFileExtension);
    return Ok(Task(taskFunction, skipDecode, isAppBundle, outputName));
  }

  /** For an input file, the output name is its last segment with `-patched` put in before the extension. */
  lemma OutputNameOfFile(inputPath: string)
    ensures var e := ExtName(inputPath); var s := LastSegment(inputPath);
      |e| <= |s| && OutputName(inputPath, e) == s[..|s| - |e|] + PatchedSuffix + e
  {
    var e := ExtName(inputPath);
    var s := LastSegment(inputPath);
    BaseNameExtName(inputPath);
    assert s[..|s| - |e|] == BaseName(inputPath, e);
  }

  /** The output name is a plain file name with the extension it was given. */
  lemma OutputNameKeepsExtension(inputPath: string, ext: string)
    requires IsExtension(ext)
    ensures '/' !in OutputName(inputPath, ext)
    ensures ExtName(OutputName(inputPath, ext)) == ext
  {
    var stem := BaseName(inputPath, ext) + PatchedSuffix;
    var o := OutputName(inputPath, ext);
    BaseNamePlain(inputPath, ext);
    assert o == stem + ext;
    assert '/' !in o;
    LastSegmentPlain(o);
    assert stem[|stem| - 1] == 'd';
    assert (stem + ext)[|stem| - 1] == 'd';
    ExtNameOfSegment(o, stem, ext);
  }

  /** Every supported extension is an extension, so a patched file keeps it. */
  lemma SupportedExtensionKept(inputPath: string)
    requires SupportedExtension(ExtName(inputPath))
    ensures ExtName(OutputName(inputPath, ExtName(inputPath))) == ExtName(inputPath)
  {
    var e := ExtName(inputPath);
    assert e[1..] == "apk" || e[1..] == "xapk" || e[1..] == "apks" || e[1..] == "zip";
    OutputNameKeepsExtension(inputPath, e);
  }

  /** The certificate check in `main`: the resolved path's extension is `.pem` or `.der`. */
  predicate CertificateAccepted(certificatePath: string) {
    ExtName(certificatePath) == ".pem" || ExtName(certificatePath) == ".der"
  }

  /**
   * Whether `main` carries on past the certificate check: no certificate
   * (or an empty one, which JavaScript treats as false) is fine; otherwise
   * the path resolved against the working directory must be accepted.
   */
  function CertificateCheck(certificate: Option<string>, resolve: string -> string): (r: bool)
    ensures !r ==> certificate.Some? && certificate.value != "" && !CertificateAccepted(resolve(certificate.value))
    ensures r && certificate.Some? && certificate.value != "" ==> CertificateAccepted(resolve(certificate.value))
  {
    certificate.None? || certificate.value == "" || CertificateAccepted(resolve(certificate.value))
  }

  /** A certificate is accepted exactly when its last segment ends with `.pem` or `.der` after at least one other character. */
  lemma CertificateAcceptedIff(certificatePath: string)
    ensures CertificateAccepted(certificatePath) <==>
      var s := LastSegment(certificatePath);
      |s| > 4 && (EndsWith(s, ".pem") || EndsWith(s, ".der"))
  {
    assert IsExtension(".pem") && IsExtension(".der") by {
      assert ".pem"[1..] == "pem" && ".der"[1..] == "der";
    }
    ExtNameIff(certificatePath, ".pem");
    ExtNameIff(certificatePath, ".der");
  }

  /** A failure as `main` sees it: a user error, or an error that may carry the combined command output and a stack trace. */
  datatype PatchingError = PatchingError(isUserError: bool, message: string, all: Option<string>, stack: Option<string>)

  /** The error carries non-empty command output (`error.all` is truthy). */
  predicate HasCommandOutput(error: PatchingError) {
    error.all.Some? && error.all.value != ""
  }

  /**
   * `getErrorMessage`: a user error's own message, else the command output
   * passed through `format` (which stands for `formatCommandError`), else
   * the stack trace, which may be absent.
   */
  function GetErrorMessage(error: PatchingError, format: string -> string): (r: Option<string>)
    ensures error.isUserError ==> r == Some(error.message)
    ensures !error.isUserError && HasCommandOutput(error) ==> r == Some(format(error.all.value))
    ensures !error.isUserError && !HasCommandOutput(error) ==> r == error.stack
  {
    if error.isUserError then Some(error.message)
    else if HasCommandOutput(error) then Some(format(error.all.value))
    else error.stack
  }
}
