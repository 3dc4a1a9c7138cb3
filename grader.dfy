/**
 * The grading pipeline around the check evaluation (grader.js,
 * processHtmlDomFunction and gradeViaCommandLine): choose where the HTML
 * comes from, parse it, sort the checks list and evaluate it.
 *
 * Reading files, the HTTP GET, the HTML parser and the array sort are
 * parameters: `readFile` gives a file's contents, `get` the response to a
 * GET, `parse` the document parsed from markup, `sort` the sorted list.
 */
module Grader {
  import opened Checks

  /** Where the HTML document comes from. */
  datatype Source = LocalFile(path: string) | Remote(url: string)

  /** A completed HTTP response: the status code and the body. */
  datatype Response = Response(status: nat, body: string)

  /** The value of the type option that selects file mode; any other value selects the URL. */
  const FileType := "file"

  /** The branch on the type option in gradeViaCommandLine. */
  function SourceFor(checkType: string, file: string, url: string): (src: Source)
    ensures src.LocalFile? <==> checkType == FileType
    ensures src.LocalFile? ==> src.path == file
    ensures src.Remote? ==> src.url == url
  {
    if checkType == FileType then LocalFile(file) else Remote(url)
  }

  /** Only the exact string "file" selects file mode: other spellings and "url" alike select the URL. */
  lemma OnlyExactFileSelectsFile(file: string, url: string)
    ensures SourceFor("file", file, url) == LocalFile(file)
    ensures SourceFor("url", file, url) == Remote(url)
    ensures SourceFor("File", file, url) == Remote(url)
    ensures SourceFor("file ", file, url) == Remote(url)
    ensures SourceFor("", file, url) == Remote(url)
  {
  }

  /** The markup handed to the parser: a file's contents, or a response body whatever its status. */
  function Markup(src: Source, readFile: string -> string, get: string -> Response): (m: string)
    ensures src.LocalFile? ==> m == readFile(src.path)
    ensures src.Remote? ==> m == get(src.url).body
  {
    match src
    case LocalFile(path) => readFile(path)
    case Remote(url) => get(url).body
  }

  /** The HTTP status is never inspected: responses with equal bodies give the same markup. */
  lemma StatusNotInspected(url: string, readFile: string -> string, get1: string -> Response, get2: string -> Response)
    requires get1(url).body == get2(url).body
    ensures Markup(Remote(url), readFile, get1) == Markup(Remote(url), readFile, get2)
  {
  }

  /**
   * processHtmlDomFunction: sort the checks list, then evaluate it against
   * the document. The result is that of the unsorted list. Of the sort's
   * promise (Ordering.SortedPermutation) only the permutation half is
   * needed, so the result holds whatever order the sort puts the list in.
   */
  method ProcessHtmlDom(doc: Document, checks: seq<Selector>, sort: seq<Selector> -> seq<Selector>)
    returns (results: Results)
    requires multiset(sort(checks)) == multiset(checks)
    ensures results == Expected(doc, checks)
    ensures results == Evaluation(doc, checks)
    ensures results.Keys == Distinct(checks)
    ensures forall s :: s in results ==> results[s] == (doc(s) > 0)
  {
    var sorted := sort(checks);
    results := DoCheck(doc, sorted);
    OrderIndependent(doc, sorted, checks);
    EvaluationIsExpected(doc, checks);
  }

  /**
   * gradeViaCommandLine, after option parsing: fetch the document named by
   * the type option, then run processHtmlDomFunction on it.
   */
  method GradeViaCommandLine(checkType: string, file: string, url: string,
                             readFile: string -> string, get: string -> Response,
                             parse: string -> Document,
                             checks: seq<Selector>, sort: seq<Selector> -> seq<Selector>)
    returns (results: Results)
    requires multiset(sort(checks)) == multiset(checks)
    ensures checkType == FileType ==> results == Expected(parse(readFile(file)), checks)
    ensures checkType != FileType ==> results == Expected(parse(get(url).body), checks)
  {
    var src := SourceFor(checkType, file, url);
    var doc := parse(Markup(src, readFile, get));
    results := ProcessHtmlDom(doc, checks, sort);
  }
}
