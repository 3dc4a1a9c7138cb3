# bitstarter grader.js: a Dafny model

The command-line tool `grader.js` checks an HTML document, read from a local file or fetched from a
URL, for elements that match each selector of a checks list. It reports one
boolean per selector. This project models the part of `grader.js` that has
logic of its own:

- `Checks`: `doCheck`, the loop that fills the results object. The parsed
  document is an oracle `Document = string -> nat`, the number of elements a
  selector matches. `DoCheck` is a method with a `while` loop over the index
  `currentCheck`, as in the source. Beside it are two specification functions.
  `Evaluation` writes `obj[checks[k]] := count > 0` for every position `k`,
  in list order, through the generic `Assigned`. `Expected` is the
  declarative mapping: one entry per distinct selector.
- `Ordering`: the order the checks list is sorted into. Strings are compared
  character by character, and a prefix comes first. `SortedPermutation`
  states what the sort promises.
- `Grader`: `processHtmlDomFunction`, which sorts and then evaluates, and the
  branch on the `type` option in `gradeViaCommandLine`. Reading the file,
  the HTTP GET, the HTML parser and the sort are all parameters.
- `FileGuard`: `assertFileExists`, modelled as a function over an existence
  oracle. It returns the path, or an `Exited(1, diagnostic)` outcome where
  the source calls `process.exit(1)`. The caller decides how to stop.

The checks list is a Dafny `seq`, which is a value. Evaluating it therefore
cannot change it, and no separate contract is needed to say so.

## Model

| member | source | states |
|---|---|---|
| `Checks.DoCheck` | grader.js:76-84 | The results object's key set is exactly the set of distinct selectors in the list. Each stored value is true exactly when the document's match count for that selector is above 0. An empty list gives an empty object. The loop's result equals the in-order write sequence `Evaluation`. Its invariant says that after `i` steps the keys are the distinct selectors among the first `i`, each with an oracle-consistent value. |
| `Checks.EvaluationIsExpected` | grader.js:77-83 | Writing one entry per list position, in order, yields the declarative mapping: one entry per distinct selector, valued `count > 0`. |
| `Checks.EvaluationKeysAndValues` | grader.js:78-80 | The keys of the evaluation are the distinct selectors. Every value agrees with the oracle. |
| `Checks.AssignedKeys` | grader.js:77-80 | In-order dictionary assignment starting from an empty object leaves exactly the keys that were written. |
| `Checks.AssignedLastWriteWins` | grader.js:80 | For in-order dictionary assignment, the value kept under a key is the one written by that key's last occurrence. |
| `Checks.LastWriteWins` | grader.js:78-80 | Every listed selector is a key. Its stored value is the observation made at its last occurrence in the list. |
| `Checks.LastOccurrence` | grader.js:78-80 | Every position of the list has a last occurrence of its selector at or after it, with no equal selector later. |
| `Checks.DuplicatesCollapse` | grader.js:79-80 | A selector listed twice yields a single entry, holding the value both occurrences observe. The object then has fewer entries than the list has elements. |
| `Checks.EntriesAtMostChecks` | grader.js:77-80 | The object never has more entries than the list has elements. It has exactly as many if and only if no selector repeats. |
| `Checks.DistinctCount` | grader.js:77-80 | A list has at most as many distinct elements as positions, and has exactly as many if and only if it has no duplicates. |
| `Checks.OrderIndependent` | grader.js:88-89 | Two lists with the same elements, in any order, yield the same results object. |
| `Ordering.LeReflexive` | grader.js:88 | Every string sorts no later than itself. |
| `Ordering.LeAntisymmetric` | grader.js:88 | Two strings that each sort no later than the other are equal. |
| `Ordering.LeTransitive` | grader.js:88 | The sort order is transitive. |
| `Ordering.LeTotal` | grader.js:88 | Any two strings are comparable, so the order is total. |
| `Ordering.SortedPermutationUnique` | grader.js:88 | Two sorted permutations of the same list are equal, so the sort's promise fixes its result. |
| `Ordering.SortedHeadsAgree` | grader.js:88 | Two sorted lists with the same elements start with the same element. |
| `Ordering.TailsPermutation` | grader.js:88 | Dropping an equal first element from two permutations of each other leaves permutations of each other. |
| `Grader.ProcessHtmlDom` | grader.js:87-92 | The list is sorted and then evaluated. The only fact about the sort the proof needs is that it returns a permutation of the list. The result equals the evaluation of the unsorted list: the distinct selectors as keys, each true exactly when it matches. |
| `Grader.SourceFor` | grader.js:120-125 | File mode is chosen if and only if the type option is exactly `"file"`, and it reads the `file` option. Every other value selects the `url` option; `Grader.OnlyExactFileSelectsFile` spells out `"url"`, `"File"`, `"file "` and `""`. |
| `Grader.Markup` | grader.js:51-66 | File mode parses the file's contents. URL mode parses the response body. |
| `Grader.StatusNotInspected` | grader.js:62-63 | Two responses with the same body give the same markup, whatever their HTTP status. |
| `Grader.GradeViaCommandLine` | grader.js:115-126 | With type `"file"` the result is the expected mapping for the document parsed from the file. Otherwise it is the expected mapping for the document parsed from the GET response body. |
| `FileGuard.AssertFileExists` | grader.js:35-43 | An existing path is returned unchanged. A missing path yields exit status 1 with the diagnostic `"<path> does not exist. Exiting."`. |
| `FileGuard.DiagnosticNamesPath` | grader.js:39 | The diagnostic for a missing path begins with the path itself. |

## Left out

- HTML parsing and CSS-selector matching (cheerio) are out of scope. A document is only the oracle `string -> nat`. A selector the library cannot parse throws in the source; here every selector gets a count.
- Reading the HTML file and the HTTP GET are modelled only as the parameters `readFile` and `get`. The same goes for their asynchronous completion callbacks. A read error is not modelled: the source ignores `err` and parses whatever `data` is.
- Reading the checks file and `JSON.parse` of it are not modelled. The model starts from the parsed list of selector strings. Non-string or non-array JSON is out of scope.
- `JSON.stringify(results, null, 4)` and `console.log` are output only. So is the order in which keys are printed. JavaScript objects print integer-like keys first and then the others in insertion order. The model's results are a `map`, which has no order.
- The results object is modelled as a plain dictionary. In JavaScript, assigning a boolean to the key `"__proto__"` of `{}` creates no entry. This model would record one.
- The sort is the parameter `sort`, required only to return a permutation of its input; the results do not depend on the order it produces. What the sort promises in full is stated as `Ordering.SortedPermutation` under the character order `Ordering.Le`. That order compares Dafny characters (Unicode scalar values). JavaScript's default sort compares UTF-16 code units, and the two orders differ for characters outside the Basic Multilingual Plane (U+10000 sorts before U+FF01 in JavaScript, after it under `Le`).
- Option parsing (commander), its defaults (`checks.json`, `index.html`, the placeholder URL) and the `clone`/`bind` workaround are not modelled. A comment in the source says both file options are checked for existence even in URL mode. Whether commander also passes default values through `assertFileExists` depends on commander's code, which is not part of this model.
- `assertUrlExists` only returns `url.toString()` and has nothing to verify. `file.toString()` in `assertFileExists` is the identity on the string the model takes.
- Verbose logging is output only.
