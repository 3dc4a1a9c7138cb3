/**
 * The existence guard applied to the checks-file and HTML-file options
 * (grader.js, assertFileExists). The filesystem is an oracle that says
 * whether an entry exists at a path. Ending the process is an outcome the
 * guard returns, so that the caller decides how to stop.
 */
module FileGuard {

  /** The guard either hands the path back, or ends the process with a status and a diagnostic. */
  datatype Outcome = Returned(path: string) | Exited(status: int, diagnostic: string)

  /** The line written to the error stream for a missing path. */
  function MissingDiagnostic(path: string): string
  {
    path + " does not exist. Exiting."
  }

  /**
   * assertFileExists: the path unchanged when it exists; otherwise exit
   * status 1 with a diagnostic naming the path.
   */
  function AssertFileExists(file: string, existsSync: string -> bool): (r: Outcome)
    ensures r.Returned? <==> existsSync(file)
    ensures r.Returned? ==> r.path == file
    ensures r.Exited? ==> r.status == 1 && r.diagnostic == MissingDiagnostic(file)
  {
    var instr := file;
    if !existsSync(instr) then Exited(1, MissingDiagnostic(instr))
    else Returned(instr)
  }

  /** The diagnostic starts with the missing path itself. */
  lemma DiagnosticNamesPath(file: string, existsSync: string -> bool)
    requires !existsSync(file)
    ensures |AssertFileExists(file, existsSync).diagnostic| > |file|
    ensures AssertFileExists(file, existsSync).diagnostic[..|file|] == file
  {
  }
}
