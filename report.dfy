/**
 * `parse_burp_xml`: for every issue and every request/response pair in it,
 * resolve the endpoint from the request, then emit one row per cross-domain
 * `<script>` tag of the base64-encoded response.
 */
module Report {
  import opened Wrappers
  import opened PyText
  import opened ScriptScan
  import opened Endpoint

  /** An XML element the extractor reads: its `base64` attribute (if present) and its text (if any). */
  datatype Element = Element(base64: Option<string>, text: Option<string>)

  /** A `<requestresponse>`: its `<request>` and `<response>` children, each possibly absent. */
  datatype Exchange = Exchange(request: Option<Element>, response: Option<Element>)

  /** An `<issue>`: the text of its `<host>` and `<path>` (absent element or empty text alike give `None`) and its exchanges. */
  datatype Issue = Issue(host: Option<string>, path: Option<string>, exchanges: seq<Exchange>)

  /** One output row: `Resource`, `SRI Enabled`, `Line Number`, `Endpoint`. */
  datatype Row = Row(resource: string, sriEnabled: string, lineNumber: nat, endpoint: string)

  /** `base64.b64decode(text).decode("utf-8")`, `None` when either step raises. */
  type Decoder = string -> Option<string>

  /** Decoding an element's text; an element without text cannot be decoded. */
  function DecodeText(decode: Decoder, text: Option<string>): Option<string> {
    if text.None? then None else decode(text.value)
  }

  /**
   * The request text: decoded when marked base64 (`None` if that fails), the
   * raw text otherwise. There is a text exactly when the element and its text
   * are present and, for a base64 request, the text decodes.
   */
  function RequestText(request: Option<Element>, decode: Decoder): (r: Option<string>)
    ensures r.Some? <==>
              request.Some? && request.value.text.Some?
              && (request.value.base64 == Some("true") ==> decode(request.value.text.value).Some?)
    ensures r.Some? && request.value.base64 == Some("true") ==> r == decode(request.value.text.value)
    ensures r.Some? && request.value.base64 != Some("true") ==> r == request.value.text
  {
    if request.None? then None
    else if request.value.base64 == Some("true") then DecodeText(decode, request.value.text)
    else request.value.text
  }

  /**
   * The response text scanned for scripts: there is one exactly when the
   * response is present, marked base64, has text, and that text decodes.
   */
  function ResponseText(response: Option<Element>, decode: Decoder): (r: Option<string>)
    ensures r.Some? <==>
              response.Some? && response.value.base64 == Some("true")
              && response.value.text.Some? && decode(response.value.text.value).Some?
    ensures r.Some? ==> r == decode(response.value.text.value)
  {
    if response.Some? && response.value.base64 == Some("true") then DecodeText(decode, response.value.text)
    else None
  }

  /** How an f-string renders an optional string. */
  function Show(v: Option<string>): string {
    if v.None? then "None" else v.value
  }

  /**
   * `endpoint or f"{host}{path}"`: a non-empty endpoint as it is, otherwise the
   * host followed by the path, where an absent one is written `None`.
   */
  function EndpointField(endpoint: Option<string>, host: Option<string>, path: Option<string>): (f: string)
    ensures endpoint.Some? && endpoint.value != "" ==> f == endpoint.value
    ensures endpoint.None? || endpoint.value == "" ==>
              f == (if host.None? then "None" else host.value) + (if path.None? then "None" else path.value)
  {
    if endpoint.Some? && endpoint.value != "" then endpoint.value else Show(host) + Show(path)
  }

  const Integrity := "integrity="

  /** `'Yes' if 'integrity=' in script_content else 'No'`. */
  function SriFlag(content: string): (flag: string)
    ensures flag == "Yes" || flag == "No"
    ensures flag == "Yes" <==> Occurs(Integrity, content)
  {
    if Contains(content, Integrity) then "Yes" else "No"
  }

  /** The 1-based line on which position `start` of `t` lies. */
  function LineNumber(t: string, start: nat): (line: nat)
    requires start <= |t|
    ensures 1 <= line <= start + 1
  {
    CountNewlines(t[..start]) + 1
  }

  /** Group 1 of a match: the script URL. */
  function Resource(t: string, m: Match): string
    requires InBounds(t, m)
  {
    t[m.SrcStart()..m.srcEnd]
  }

  /** Group 2 of a match: what lies between the opening tag and `</script>`. */
  function Content(t: string, m: Match): string
    requires InBounds(t, m)
  {
    t[m.BodyStart()..m.bodyEnd]
  }

  /** The row one script tag adds. */
  function RowFor(t: string, m: Match, endpoint: string): Row
    requires InBounds(t, m)
  {
    Row(Resource(t, m), SriFlag(Content(t, m)), LineNumber(t, m.start), endpoint)
  }

  /** The rows of one decoded response, one per match `finditer` yields, in order. */
  function ScriptRows(t: string, endpoint: string): seq<Row> {
    FindAllInBounds(t);
    var ms := FindAll(t);
    seq(|ms|, k requires 0 <= k < |ms| => RowFor(t, ms[k], endpoint))
  }

  /** The rows of one exchange, or the crash its request line scan raises. */
  function ExchangeRows(host: Option<string>, path: Option<string>, ex: Exchange, decode: Decoder): Result<seq<Row>, Crash> {
    var endpoint :- EndpointOf(RequestText(ex.request, decode));
    var response := ResponseText(ex.response, decode);
    if response.None? then Success([])
    else Success(ScriptRows(response.value, EndpointField(endpoint, host, path)))
  }

  /** The rows of `items` in order, stopping at the first item that crashes. */
  function Collect<X>(items: seq<X>, rowsOf: X -> Result<seq<Row>, Crash>): Result<seq<Row>, Crash>
    decreases |items|
  {
    if items == [] then Success([])
    else
      var done :- Collect(items[..|items| - 1], rowsOf);
      var last :- rowsOf(items[|items| - 1]);
      Success(done + last)
  }

  function ExchangeRowsOf(issue: Issue, decode: Decoder): Exchange -> Result<seq<Row>, Crash> {
    ex => ExchangeRows(issue.host, issue.path, ex, decode)
  }

  /** The rows of one issue. */
  function IssueRows(issue: Issue, decode: Decoder): Result<seq<Row>, Crash> {
    Collect(issue.exchanges, ExchangeRowsOf(issue, decode))
  }

  function IssueRowsOf(decode: Decoder): Issue -> Result<seq<Row>, Crash> {
    issue => IssueRows(issue, decode)
  }

  /** The table `parse_burp_xml` builds for a whole export, or the crash that ends it. */
  function ExportRows(issues: seq<Issue>, decode: Decoder): Result<seq<Row>, Crash> {
    Collect(issues, IssueRowsOf(decode))
  }

  /** One more item: `Collect` over the first `j + 1` items extends `Collect` over the first `j`. */
  lemma CollectStep<X>(items: seq<X>, rowsOf: X -> Result<seq<Row>, Crash>, j: nat)
    requires j < |items|
    ensures Collect(items[..j + 1], rowsOf) ==
              if Collect(items[..j], rowsOf).Failure? then Collect(items[..j], rowsOf)
              else if rowsOf(items[j]).Failure? then Failure(rowsOf(items[j]).error)
              else Success(Collect(items[..j], rowsOf).value + rowsOf(items[j]).value)
  {
    assert items[..j + 1][..j] == items[..j];
  }

  /** Once a prefix of `items` crashes, so does the whole, with the same crash. */
  lemma {:induction false} CollectPrefixFailure<X>(items: seq<X>, rowsOf: X -> Result<seq<Row>, Crash>, n: nat)
    requires n <= |items| && Collect(items[..n], rowsOf).Failure?
    ensures Collect(items, rowsOf) == Collect(items[..n], rowsOf)
    decreases |items| - n
  {
    if n < |items| {
      CollectStep(items, rowsOf, n);
      CollectPrefixFailure(items, rowsOf, n + 1);
    } else {
      assert items[..n] == items;
    }
  }

  /**
   * `Collect` crashes exactly when some item crashes, and then with the crash
   * of the first such item.
   */
  lemma {:induction false} CollectFailsIff<X>(items: seq<X>, rowsOf: X -> Result<seq<Row>, Crash>)
    ensures Collect(items, rowsOf).Failure? <==> exists k :: 0 <= k < |items| && rowsOf(items[k]).Failure?
    ensures Collect(items, rowsOf).Failure? ==>
              exists k :: 0 <= k < |items| && rowsOf(items[k]) == Collect(items, rowsOf)
                && forall j :: 0 <= j < k ==> rowsOf(items[j]).Success?
    decreases |items|
  {
    if items != [] {
      var n := |items| - 1;
      var front := items[..n];
      CollectFailsIff(front, rowsOf);
      assert forall k :: 0 <= k < n ==> front[k] == items[k];
      if Collect(front, rowsOf).Failure? {
        var k :| 0 <= k < n && rowsOf(front[k]) == Collect(front, rowsOf)
                 && forall j :: 0 <= j < k ==> rowsOf(front[j]).Success?;
        assert rowsOf(items[k]) == Collect(items, rowsOf);
      } else if rowsOf(items[n]).Failure? {
        assert rowsOf(items[n]) == Collect(items, rowsOf);
      }
    }
  }

  /** The inner loop over `re.finditer`: one row per script tag of `text`, in order. */
  method ScanResponse(text: string, field: string) returns (rows: seq<Row>)
    ensures rows == ScriptRows(text, field)
  {
    rows := [];
    var tags := FindAll(text);
    FindAllInBounds(text);
    for k := 0 to |tags|
      invariant rows == ScriptRows(text, field)[..k]
    {
      rows := rows + [RowFor(text, tags[k], field)];
    }
  }

  /**
   * The body of the loop over `requestresponse` elements: resolve the endpoint,
   * then scan the response if it is base64 and decodes.
   */
  method ProcessExchange(host: Option<string>, path: Option<string>, rr: Exchange, decode: Decoder)
    returns (outcome: Result<seq<Row>, Crash>)
    ensures outcome == ExchangeRows(host, path, rr, decode)
  {
    var resolved := ResolveEndpoint(RequestText(rr.request, decode));
    if resolved.Failure? {
      return Failure(resolved.error);
    }
    var endpoint := resolved.value;
    var response := ResponseText(rr.response, decode);
    if response.None? {
      return Success([]);
    }
    var rows := ScanResponse(response.value, EndpointField(endpoint, host, path));
    outcome := Success(rows);
  }

  /** The body of the loop over issues: the rows of each exchange in turn, stopping at a crash. */
  method ProcessIssue(issue: Issue, decode: Decoder) returns (outcome: Result<seq<Row>, Crash>)
    ensures outcome == IssueRows(issue, decode)
  {
    var host := issue.host;
    var path := issue.path;
    ghost var rowsOf := ExchangeRowsOf(issue, decode);
    var rows: seq<Row> := [];
    for j := 0 to |issue.exchanges|
      invariant Collect(issue.exchanges[..j], rowsOf) == Success(rows)
    {
      var exchange := ProcessExchange(host, path, issue.exchanges[j], decode);
      assert rowsOf(issue.exchanges[j]) == exchange;
      CollectStep(issue.exchanges, rowsOf, j);
      if exchange.Failure? {
        CollectPrefixFailure(issue.exchanges, rowsOf, j + 1);
        return Failure(exchange.error);
      }
      rows := rows + exchange.value;
    }
    assert issue.exchanges[..|issue.exchanges|] == issue.exchanges;
    outcome := Success(rows);
  }

  /** What `parse_burp_xml` computes, walking the issues, their exchanges and each response's script tags in turn. */
  method ParseExport(issues: seq<Issue>, decode: Decoder) returns (result: Result<seq<Row>, Crash>)
    ensures result == ExportRows(issues, decode)
  {
    ghost var rowsOf := IssueRowsOf(decode);
    var data: seq<Row> := [];
    for i := 0 to |issues|
      invariant Collect(issues[..i], rowsOf) == Success(data)
    {
      var issue := ProcessIssue(issues[i], decode);
      assert rowsOf(issues[i]) == issue;
      CollectStep(issues, rowsOf, i);
      if issue.Failure? {
        CollectPrefixFailure(issues, rowsOf, i + 1);
        return Failure(issue.error);
      }
      data := data + issue.value;
    }
    assert issues[..|issues|] == issues;
    result := Success(data);
  }

  /** A URL as group 1 captures it: `http://` or `https://` in any case, then at least one more character. */
  predicate SchemePrefixed(url: string) {
    (LitAt(url, 0, Https) && |url| > |Https|) || (LitAt(url, 0, Http) && |url| > |Http|)
  }

  predicate QuoteFree(s: string) {
    forall i :: 0 <= i < |s| ==> !IsQuote(s[i])
  }

  /** What every row the extractor writes looks like. */
  predicate WellFormedRow(r: Row) {
    && SchemePrefixed(r.resource)
    && QuoteFree(r.resource)
    && (r.sriEnabled == "Yes" || r.sriEnabled == "No")
    && r.lineNumber >= 1
  }

  /** Group 1 starts with the scheme, has more after it, and never holds a quote. */
  lemma ResourceShape(t: string, m: Match)
    requires IsMatch(t, m)
    ensures InBounds(t, m)
    ensures SchemePrefixed(Resource(t, m)) && QuoteFree(Resource(t, m))
  {
    var g := m.SrcStart();
    var url := Resource(t, m);
    var lit := if LitAt(t, g, Https) then Https else Http;
    assert LitAt(t, g, lit);
    assert SchemeEnd(t, g) == g + |lit|;
    forall j | 0 <= j < |lit| ensures FoldsTo(url[j], lit[j]) {
      assert url[j] == t[g + j];
    }
    assert LitAt(url, 0, lit);
    forall i | 0 <= i < |url| ensures !IsQuote(url[i]) {
      assert url[i] == t[g + i];
      if i < |lit| {
        assert FoldsTo(t[g + i], lit[i]);
      }
    }
  }

  /**
   * The rows of one response: one per match `finditer` yields, each well formed,
   * carrying the given endpoint, and flagged `Yes` exactly when group 2 (the
   * text between the opening tag and `</script>`, not the tag itself) holds
   * `integrity=`.
   */
  lemma ScriptRowsSpec(t: string, endpoint: string)
    ensures |ScriptRows(t, endpoint)| == |FindAll(t)|
    ensures forall k :: 0 <= k < |FindAll(t)| ==>
              var m := FindAll(t)[k];
              var r := ScriptRows(t, endpoint)[k];
              IsMatch(t, m) && WellFormedRow(r) && r.endpoint == endpoint
              && r.resource == t[m.SrcStart()..m.srcEnd]
              && r.lineNumber == multiset(t[..m.start])['\n'] + 1
              && (r.sriEnabled == "Yes" <==> Occurs(Integrity, t[m.BodyStart()..m.bodyEnd]))
  {
    FindAllReported(t);
    var ms := FindAll(t);
    forall k | 0 <= k < |ms| ensures WellFormedRow(ScriptRows(t, endpoint)[k]) {
      ResourceShape(t, ms[k]);
    }
  }

  /** Line numbers never go down within one response: `finditer` yields matches left to right. */
  lemma LineNumbersAscend(t: string, endpoint: string)
    ensures forall j, k :: 0 <= j < k < |ScriptRows(t, endpoint)| ==>
              ScriptRows(t, endpoint)[j].lineNumber <= ScriptRows(t, endpoint)[k].lineNumber
  {
    FindAllReported(t);
    FindAllInBounds(t);
    var ms := FindAll(t);
    var rows := ScriptRows(t, endpoint);
    forall j, k | 0 <= j < k < |rows| ensures rows[j].lineNumber <= rows[k].lineNumber {
      assert ms[j].start <= ms[j].End() <= ms[k].start;
      CountNewlinesMonotone(t, ms[j].start, ms[k].start);
    }
  }

  /**
   * The line number is fixed by two facts: the first position of the text is on
   * line 1, and moving one position on adds one exactly when passing a newline.
   */
  lemma LineNumberSteps(t: string, i: nat)
    requires i < |t|
    ensures LineNumber(t, 0) == 1
    ensures LineNumber(t, i + 1) == LineNumber(t, i) + (if t[i] == '\n' then 1 else 0)
  {
    CountNewlinesStep(t, i);
  }

  /**
   * Every row of an exchange names the endpoint its request names, if it names
   * one; the `host` and `path` of the issue are used only when it names none
   * (a named endpoint is never empty, so `or` never falls through it).
   */
  lemma EndpointFallback(host: Option<string>, path: Option<string>, ex: Exchange, decode: Decoder)
    requires ExchangeRows(host, path, ex, decode).Success?
    ensures var endpoint := EndpointOf(RequestText(ex.request, decode)).value;
            forall r :: r in ExchangeRows(host, path, ex, decode).value ==>
              r.endpoint == if endpoint.Some? then endpoint.value else Show(host) + Show(path)
  {
    var text := RequestText(ex.request, decode);
    var endpoint := EndpointOf(text).value;
    if endpoint.Some? {
      EndpointIsTarget(SplitLines(text.value));
    }
    var response := ResponseText(ex.response, decode);
    if response.Some? {
      ScriptRowsSpec(response.value, EndpointField(endpoint, host, path));
    }
  }

  /**
   * An exchange adds rows only when its response is marked base64, decodes, and
   * holds at least one match: an absent, plain-text or undecodable response is skipped.
   */
  lemma SkippedResponse(host: Option<string>, path: Option<string>, ex: Exchange, decode: Decoder)
    requires ExchangeRows(host, path, ex, decode).Success?
    ensures ExchangeRows(host, path, ex, decode).value != [] <==>
              && ex.response.Some? && ex.response.value.base64 == Some("true")
              && ex.response.value.text.Some? && decode(ex.response.value.text.value).Some?
              && FindAll(decode(ex.response.value.text.value).value) != []
  {
    var response := ResponseText(ex.response, decode);
    if response.Some? {
      ScriptRowsSpec(response.value, EndpointField(EndpointOf(RequestText(ex.request, decode)).value, host, path));
    }
  }

  /** Every row of a completed export is well formed. */
  lemma {:induction false} ExportRowsWellFormed(issues: seq<Issue>, decode: Decoder)
    requires ExportRows(issues, decode).Success?
    ensures forall r :: r in ExportRows(issues, decode).value ==> WellFormedRow(r)
  {
    forall issue | issue in issues && IssueRows(issue, decode).Success?
      ensures forall r :: r in IssueRows(issue, decode).value ==> WellFormedRow(r)
    {
      forall ex | ex in issue.exchanges && ExchangeRows(issue.host, issue.path, ex, decode).Success?
        ensures forall r :: r in ExchangeRows(issue.host, issue.path, ex, decode).value ==> WellFormedRow(r)
      {
        var response := ResponseText(ex.response, decode);
        if response.Some? {
          ScriptRowsSpec(response.value, EndpointField(EndpointOf(RequestText(ex.request, decode)).value, issue.host, issue.path));
        }
      }
      CollectKeepsWellFormed(issue.exchanges, ExchangeRowsOf(issue, decode));
    }
    CollectKeepsWellFormed(issues, IssueRowsOf(decode));
  }

  /** `Collect` only concatenates: if every item yields well-formed rows, so does the whole. */
  lemma {:induction false} CollectKeepsWellFormed<X>(items: seq<X>, rowsOf: X -> Result<seq<Row>, Crash>)
    requires forall x :: x in items && rowsOf(x).Success? ==> forall r :: r in rowsOf(x).value ==> WellFormedRow(r)
    requires Collect(items, rowsOf).Success?
    ensures forall r :: r in Collect(items, rowsOf).value ==> WellFormedRow(r)
    decreases |items|
  {
    if items != [] {
      var front := items[..|items| - 1];
      assert forall x :: x in front ==> x in items;
      CollectKeepsWellFormed(front, rowsOf);
      assert items[|items| - 1] in items;
    }
  }

  /**
   * The export crashes exactly when the request of some exchange makes the line
   * scan raise `IndexError`, whatever that exchange's response holds.
   */
  lemma ExportCrashIff(issues: seq<Issue>, decode: Decoder)
    ensures ExportRows(issues, decode).Failure? <==>
              exists i, j :: 0 <= i < |issues| && 0 <= j < |issues[i].exchanges|
                && EndpointOf(RequestText(issues[i].exchanges[j].request, decode)).Failure?
  {
    CollectFailsIff(issues, IssueRowsOf(decode));
    forall i | 0 <= i < |issues|
      ensures IssueRows(issues[i], decode).Failure? <==>
                exists j :: 0 <= j < |issues[i].exchanges|
                  && EndpointOf(RequestText(issues[i].exchanges[j].request, decode)).Failure?
    {
      CollectFailsIff(issues[i].exchanges, ExchangeRowsOf(issues[i], decode));
    }
  }
}
