# ResauceKetchup: cross-domain script extraction, in Dafny

ResauceKetchup reads a Burp Suite XML export and lists every `<script>` tag
that loads code from an absolute `http://` or `https://` URL. For each tag it
records the URL, whether the tag's inner content mentions `integrity=`
(Subresource Integrity), the line of the response on which the tag starts,
and the endpoint of the request that produced the response.

This project models `parse_burp_xml`, from the parsed XML tree to the list of
rows, and proves what it computes:

- `pytext.dfy` (module `PyText`) models the Python string operations the code
  relies on: `str.splitlines()`, `str.split()`, `str.count("\n")` on a prefix
  and the substring test `in`. Each is specified by what it keeps, what it
  drops and where it cuts.
- `script_scan.dfy` (module `ScriptScan`) models the regular expression
  `<script[^>]*src=["'](https?://[^"']+)["'][^>]*>(.*?)</script>` with
  `re.DOTALL | re.IGNORECASE`, as `re.finditer` applies it.
  - `IsMatch` states what the pattern accepts.
  - `Outranks` states which of two matches at the same start Python's
    backtracking engine reaches first. The greedy `[^>]*` prefers the later
    `src=`, and the lazy `(.*?)` prefers the earlier `</script>`.
  - `MatchAt` is proved to return the best match at a start, or nothing
    exactly when the pattern cannot match there.
  - `FindAll` is proved to yield reported matches left to right, without
    overlap. Every start where the pattern can match lies inside a yielded
    match. A match that would start inside an earlier one is not yielded.
- `endpoint.dfy` (module `Endpoint`) models the endpoint resolver. It scans
  the request lines for one whose first word is `GET`, `POST`, `PUT`,
  `DELETE` or `OPTIONS` and takes its second word. The `IndexError` that
  `line.split()[0]` or `line.split()[1]` can raise is a `Crash`.
  `ResolveEndpoint` is the loop with its `break`.
- `report.dfy` (module `Report`) models the XML tree as datatypes and builds
  the rows.
  - `ParseExport` is the nested loop over issues, exchanges and script tags.
  - `ExportRows` is the function it is proved equal to.
  - The lemmas give the shape of every row, the order of line numbers, the
    endpoint fallback, which responses are skipped, and when the whole run
    crashes.
- `wrappers.dfy` (module `Wrappers`) holds `Option` and `Result`.

The code decides two edge cases as follows, and the model does the same:

- A request line that is empty or only whitespace, reached before any line
  that starts with a known method, raises `IndexError` from
  `line.split()[0]`. So does a known method with no second word. The
  exception is not caught, so the whole export ends without output. Requests
  in other methods, such as `HEAD`, reach the blank line that separates the
  headers from the body, so they crash too. `CrashCause`, `ClassifyLine`,
  `HeadersThenBlankLineRaises` and `ExportCrashIff` state this. The model does not turn it into a missing
  endpoint.
- The SRI flag looks only at group 2, the text between the opening tag and
  `</script>`. An `integrity=` attribute on the opening `<script>` tag itself
  does not make the flag `Yes`. `SriFlag` and `ScriptRowsSpec` state this.

## Model

| member | source | states |
|---|---|---|
| PyText.SplitLines | ResauceKetchup.py:39 | `splitlines()` keeps every character but the breaks: no line holds a line-break character, and the lines, joined, are the text with its break characters removed (where the cuts fall is stated by the three lemmas below) |
| PyText.SplitLinesAtBreak | ResauceKetchup.py:39 | a line-break character ends the line before it, even an empty one; a lone `\r` is a break of its own |
| PyText.SplitLinesAtCrLf | ResauceKetchup.py:39 | `\r\n` ends one line, even an empty one, and opens no empty line between `\r` and `\n` |
| PyText.SplitLinesLast | ResauceKetchup.py:39 | the last line needs no break after it, and an empty text has no lines |
| PyText.SplitLinesJoinCrLf | ResauceKetchup.py:39 | lines written one after the other, each ended by `\r\n`, come back from `splitlines()` as they were, followed by the lines of what comes after |
| PyText.Split | ResauceKetchup.py:40-41 | `split()` keeps every character but the whitespace: every word is non-empty and holds no whitespace, and the words, joined, are the line with its whitespace removed (where the cuts fall is stated by the two lemmas below) |
| PyText.SplitAtSpace | ResauceKetchup.py:40-41 | a whitespace character separates the words before it from the words after it |
| PyText.SplitWord | ResauceKetchup.py:40-41 | a non-empty run without whitespace is a single word |
| PyText.SplitEmptyIffBlank | ResauceKetchup.py:40 | `line.split()` is empty, so `[0]` raises, exactly when the line is empty or only whitespace |
| PyText.CountNewlines | ResauceKetchup.py:63 | `count('\n')` is the number of occurrences of `\n` in the string (its multiplicity in the string's multiset), so at most its length |
| PyText.CountNewlinesMonotone | ResauceKetchup.py:63 | a longer prefix of the response never holds fewer newlines |
| PyText.Contains | ResauceKetchup.py:57 | the substring test `'integrity=' in script_content` is true exactly when the pattern occurs at some position |
| ScriptScan.FirstTagEnd | ResauceKetchup.py:53 | `[^>]*` can run no further than the first `>`: the result is that `>` (or the end) and no `>` lies before it |
| ScriptScan.FirstQuote | ResauceKetchup.py:53 | `[^"']+` ends at the first quote after the scheme, and no quote lies before it |
| ScriptScan.FindCloseTag | ResauceKetchup.py:53 | the lazy `(.*?)` stops at the first `</script>` (in any case) after the opening tag, if there is one |
| ScriptScan.IsMatch | ResauceKetchup.py:53 | (definition) the pattern matches with `<script` at `start`, `src=` at `attr`, the URL's closing quote at `srcEnd`, the tag's `>` at `tagEnd` and `</script>` at `bodyEnd`: each part of the pattern holds at those positions |
| ScriptScan.Outranks | ResauceKetchup.py:53 | (definition) of two matches at one start, backtracking reaches the one with the later `src=` first, then the one with the earlier `</script>` |
| ScriptScan.TailForced | ResauceKetchup.py:53 | in any match, the URL ends at the first quote after the scheme and the opening tag at the first `>` after that quote |
| ScriptScan.TailAtSound | ResauceKetchup.py:53 | what the tail search returns for a `src=` position is a match of the whole pattern |
| ScriptScan.TailAtFirst | ResauceKetchup.py:53 | for every match, the tail search at its `src=` succeeds and ends the body no later than that match |
| ScriptScan.NoTailNoMatch | ResauceKetchup.py:53 | where the tail search fails for a `src=` position, no match at that start has its `src=` there |
| ScriptScan.TailEarliest | ResauceKetchup.py:53 | where the tail search succeeds, its body ends no later than that of any match with the same start and `src=` |
| ScriptScan.AttrSearchSound | ResauceKetchup.py:53 | the search over `src=` positions returns a match at the requested start, with `src=` no later than the bound |
| ScriptScan.AttrSearchNone | ResauceKetchup.py:53 | when that search finds nothing, no match at that start has its `src=` at or before the bound |
| ScriptScan.AttrSearchBest | ResauceKetchup.py:53 | the match found outranks every match at that start whose `src=` lies at or before the bound: greedy `[^>]*`, then lazy `(.*?)` |
| ScriptScan.MatchAt | ResauceKetchup.py:53 | (definition) the engine's attempt at one start: `<script`, then `src=` searched backwards from the first `>`; its contract is `MatchAtSpec` |
| ScriptScan.MatchAtSpec | ResauceKetchup.py:53 | at each start, the engine reports a match that outranks all others there, and reports none exactly when the pattern cannot match there |
| ScriptScan.MatchAtBounds | ResauceKetchup.py:53 | a reported match starts where it was sought and ends after that, within the text |
| ScriptScan.SearchFromSpec | ResauceKetchup.py:53-54 | `finditer`'s search yields the match at the leftmost start at or after the current position, and nothing when no start there matches |
| ScriptScan.ScanFromReported | ResauceKetchup.py:53-54 | each match `finditer` yields is the one the engine reports at its start, at or after where scanning began |
| ScriptScan.ScanFromOrdered | ResauceKetchup.py:53-54 | the matches `finditer` yields come left to right and never overlap |
| ScriptScan.ScanFromComplete | ResauceKetchup.py:53-54 | every start where the engine reports a match lies inside some yielded match |
| ScriptScan.FindAll | ResauceKetchup.py:53-54 | (definition) `re.finditer` over the response, each search resuming where the last match ended; its contract is `FindAllReported` and `FindAllComplete` |
| ScriptScan.FindAllReported | ResauceKetchup.py:53-54 | every match of `re.finditer` over a response is a match of the pattern, the best one at its start; the matches are ordered and disjoint |
| ScriptScan.FindAllInBounds | ResauceKetchup.py:55-56 | both groups of every yielded match can be sliced out of the response |
| ScriptScan.FindAllComplete | ResauceKetchup.py:53-54 | wherever the pattern can match, that start lies inside a match `finditer` yields |
| Endpoint.ClassifyLine | ResauceKetchup.py:40-41 | one line raises at `line.split()[0]` exactly when it is empty or only whitespace, and a target it finds is a non-empty word without whitespace |
| Endpoint.MethodIsWord | ResauceKetchup.py:40 | each of `GET`, `POST`, `PUT`, `DELETE`, `OPTIONS` is one non-empty word |
| Endpoint.MethodLineTarget | ResauceKetchup.py:40-41 | a line made of a known method, a space, a target and then whitespace or nothing yields that target |
| Endpoint.MethodOnlyLine | ResauceKetchup.py:41 | a known method with nothing after it raises at `line.split()[1]` |
| Endpoint.ScanLines | ResauceKetchup.py:39-42 | an endpoint the loop over lines returns is a non-empty word without whitespace |
| Endpoint.EndpointOf | ResauceKetchup.py:38-42 | only a present, non-empty request text can crash the scan, and an endpoint found is a non-empty word without whitespace |
| Endpoint.RequestLineDecides | ResauceKetchup.py:39-42 | when the first line of the request decides, its outcome is the request's, whatever follows |
| Endpoint.HeadersThenBlankLineRaises | ResauceKetchup.py:39-42 | a request whose lines before the empty line all have an unknown first word, such as a `HEAD` request and its headers, raises at that empty line, whatever the body holds |
| Endpoint.ResolveEndpoint | ResauceKetchup.py:37-42 | the loop over request lines, with its `break`, returns the endpoint the line scan defines, or the `IndexError` it raises; an absent or empty request yields no endpoint |
| Endpoint.FirstDecidingLine | ResauceKetchup.py:39-42 | the first line that is not skipped decides the outcome: its second word, or its crash |
| Endpoint.NoEndpointIffAllSkipped | ResauceKetchup.py:39-42 | no endpoint and no crash exactly when every line has a first word that is not a known method |
| Endpoint.ScanLinesAppend | ResauceKetchup.py:42 | lines after the deciding one are never read (`break`) |
| Endpoint.EndpointIsTarget | ResauceKetchup.py:40-41 | the endpoint is the second word of a line whose first word is a known method, so it is non-empty and holds no whitespace |
| Endpoint.CrashHasCause | ResauceKetchup.py:39-41 | a crashing scan has a line that raises that crash, with every line before it skipped |
| Endpoint.CrashCause | ResauceKetchup.py:39-41 | the scan crashes with a given `IndexError` exactly when some line raises it and every line before it is skipped |
| Report.RequestText | ResauceKetchup.py:26-35 | there is a request text exactly when the element and its text are present and, if marked base64, the text decodes; it is the decoded text then, the raw text otherwise |
| Report.ResponseText | ResauceKetchup.py:45-50 | a response is scanned exactly when it is present, marked base64, has text and the text decodes, and the decoded text is what is scanned |
| Report.EndpointField | ResauceKetchup.py:64 | a non-empty endpoint is used as it is; otherwise host then path, an absent one written `None` |
| Report.SriFlag | ResauceKetchup.py:57 | the flag is `Yes` or `No`, and `Yes` exactly when `integrity=` occurs in the script's inner content |
| Report.LineNumber | ResauceKetchup.py:63 | the line number is at least 1 and at most the start position plus 1 |
| Report.LineNumberSteps | ResauceKetchup.py:63 | position 0 is on line 1, and moving one position on adds one exactly when passing a `\n` |
| Report.ScanResponse | ResauceKetchup.py:53-65 | the loop over `finditer` appends exactly the rows of the response's matches, in order |
| Report.ProcessExchange | ResauceKetchup.py:24-65 | the body of the exchange loop returns that exchange's rows, or the crash of its request scan |
| Report.ProcessIssue | ResauceKetchup.py:19-65 | the loop over one issue's exchanges returns the rows of all of them in order, or the first crash |
| Report.ParseExport | ResauceKetchup.py:17-65 | the nested loops return exactly the export's rows, or the first crash |
| Report.CollectStep | ResauceKetchup.py:19-24 | one more issue or exchange appends its rows, unless the run has already crashed or crashes on it |
| Report.CollectPrefixFailure | ResauceKetchup.py:19-24 | a crash ends the run: once a prefix crashes, the whole run ends with that crash |
| Report.CollectFailsIff | ResauceKetchup.py:19-24 | the run crashes exactly when some item crashes, and then with the first such crash |
| Report.ResourceShape | ResauceKetchup.py:53-55 | the resource starts with `http://` or `https://` in any case, has at least one more character, and holds no quote |
| Report.ScriptRowsSpec | ResauceKetchup.py:53-65 | one row per yielded match: group 1 as the resource, the SRI flag from group 2 only, one more than the number of `\n` before the match as the line number, the exchange's endpoint, and a well-formed row |
| Report.LineNumbersAscend | ResauceKetchup.py:54-63 | within one response, line numbers never decrease from row to row |
| Report.EndpointFallback | ResauceKetchup.py:64 | every row carries the request's endpoint when there is one, and `host` then `path` (`None` rendered as `None`) otherwise |
| Report.SkippedResponse | ResauceKetchup.py:45-50 | an exchange adds rows exactly when its response is present, marked base64, decodes, and holds a match |
| Report.ExportRowsWellFormed | ResauceKetchup.py:60-65 | every row of a completed export is well formed |
| Report.CollectKeepsWellFormed | ResauceKetchup.py:17-24 | joining the rows of the issues and exchanges keeps every row well formed |
| Report.ExportCrashIff | ResauceKetchup.py:38-42 | the export crashes exactly when the request of some exchange makes the line scan raise, whatever its response holds |

## Left out

- XML parsing (`ET.parse`, `findall`, `find`, `get`) is not modelled. The
  model starts from the parsed tree, given as `Issue`, `Exchange` and
  `Element` values. An absent `<host>` or `<path>` element and one without
  text are both `None`, as the code treats them.
- Base64 and UTF-8 decoding are not modelled. They are the parameter
  `decode`, which gives `None` where `b64decode(...).decode("utf-8")` raises.
  An element without text counts as undecodable, since `b64decode(None)`
  raises.
- The file-existence check, the messages the tool prints, the pandas
  DataFrame, the TSV file and the command-line entry point are not modelled.
  They are I/O. The model returns the rows in order instead.
- The model does not cover general regular expressions. It covers only the
  one pattern the tool uses.
- IGNORECASE folding covers what the pattern's literals need: ASCII letters,
  plus U+0130 and U+0131 for `i` and U+017F for `s`. No other character
  folds to a letter of `<script`, `src=`, `http` or `</script>`.
- Python's rows are dictionaries in a list that grows in place. The model
  builds them as a `seq<Row>` that the loops reassign.
- An exception other than the two `IndexError`s of the line scan is not
  modelled, for example one from the XML parser or from writing the file.
