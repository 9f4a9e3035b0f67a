/**
 * The endpoint of one exchange: the second word of the first request line whose
 * first word is one of the HTTP methods the extractor knows. A line with no word
 * at all, or a method line with no second word, makes `line.split()[0]` or
 * `line.split()[1]` raise `IndexError`, which nothing catches.
 */
module Endpoint {
  import opened Wrappers
  import opened PyText

  /** The request-line methods the extractor recognises. */
  const HttpMethods: set<string> := {"GET", "POST", "PUT", "DELETE", "OPTIONS"}

  /** The `IndexError`s the line scan can raise; either one ends the whole export. */
  datatype Crash =
    | BlankRequestLine   // `line.split()[0]` on a line with no word
    | MissingTarget      // `line.split()[1]` on a method line with a single word

  /** What one line of the request contributes to the scan. */
  datatype LineVerdict = Skip | Found(target: string) | Raises(crash: Crash)

  /**
   * How the loop body treats `line`. It raises at `line.split()[0]` exactly
   * when the line holds nothing but whitespace, and a target it finds is a
   * whole word.
   */
  function ClassifyLine(line: string): (v: LineVerdict)
    ensures v == Raises(BlankRequestLine) <==> Blank(line)
    ensures v.Found? ==> v.target != [] && NoSpace(v.target)
  {
    SplitEmptyIffBlank(line);
    var words := Split(line);
    if |words| == 0 then Raises(BlankRequestLine)
    else if words[0] !in HttpMethods then Skip
    else if |words| < 2 then Raises(MissingTarget)
    else Found(words[1])
  }

  /** The outcome of a line that stops the scan. */
  function Outcome(v: LineVerdict): Result<Option<string>, Crash>
    requires !v.Skip?
  {
    match v
    case Found(target) => Success(Some(target))
    case Raises(c) => Failure(c)
  }

  /** The scan over `lines`: the first line that is not skipped decides. */
  function ScanLines(lines: seq<string>): (r: Result<Option<string>, Crash>)
    ensures r.Success? && r.value.Some? ==> r.value.value != [] && NoSpace(r.value.value)
    decreases |lines|
  {
    if lines == [] then Success(None)
    else if ClassifyLine(lines[0]).Skip? then ScanLines(lines[1..])
    else Outcome(ClassifyLine(lines[0]))
  }

  /**
   * The endpoint the exchange's request names, `None` when it names none, or the
   * crash. An absent or empty request text is not scanned.
   */
  function EndpointOf(requestText: Option<string>): (r: Result<Option<string>, Crash>)
    ensures r.Failure? ==> requestText.Some? && requestText.value != ""
    ensures r.Success? && r.value.Some? ==> r.value.value != [] && NoSpace(r.value.value)
  {
    if requestText.Some? && requestText.value != "" then ScanLines(SplitLines(requestText.value))
    else Success(None)
  }

  /** The loop that resolves the endpoint, with its early `break`. */
  method ResolveEndpoint(requestText: Option<string>) returns (outcome: Result<Option<string>, Crash>)
    ensures outcome == EndpointOf(requestText)
  {
    var endpoint: Option<string> := None;
    if requestText.Some? && requestText.value != "" {
      var lines := SplitLines(requestText.value);
      var i := 0;
      while i < |lines|
        invariant 0 <= i <= |lines|
        invariant endpoint == None
        invariant ScanLines(lines) == ScanLines(lines[i..])
      {
        assert lines[i..][1..] == lines[i + 1..];
        var words := Split(lines[i]);
        if |words| == 0 {
          return Failure(BlankRequestLine);
        }
        if words[0] in HttpMethods {
          if |words| < 2 {
            return Failure(MissingTarget);
          }
          endpoint := Some(words[1]);
          break;
        }
        i := i + 1;
      }
    }
    outcome := Success(endpoint);
  }

  /**
   * The scan's outcome is that of line `k` when every earlier line is skipped
   * and line `k` is not.
   */
  lemma {:induction false} FirstDecidingLine(lines: seq<string>, k: nat)
    requires k < |lines| && !ClassifyLine(lines[k]).Skip?
    requires forall j :: 0 <= j < k ==> ClassifyLine(lines[j]).Skip?
    ensures ScanLines(lines) == Outcome(ClassifyLine(lines[k]))
    decreases k
  {
    if k > 0 {
      FirstDecidingLine(lines[1..], k - 1);
    }
  }

  /** The scan finds no endpoint and does not crash exactly when every line is skipped. */
  lemma {:induction false} NoEndpointIffAllSkipped(lines: seq<string>)
    ensures ScanLines(lines) == Success(None) <==> forall j :: 0 <= j < |lines| ==> ClassifyLine(lines[j]).Skip?
    decreases |lines|
  {
    if lines != [] {
      NoEndpointIffAllSkipped(lines[1..]);
      if ClassifyLine(lines[0]).Skip? {
        assert forall j :: 0 < j < |lines| ==> lines[j] == lines[1..][j - 1];
      }
    }
  }

  /** Lines after the deciding one do not matter: once `a` decides the scan, `b` is never read. */
  lemma {:induction false} ScanLinesAppend(a: seq<string>, b: seq<string>)
    ensures ScanLines(a + b) == if ScanLines(a) == Success(None) then ScanLines(b) else ScanLines(a)
    decreases |a|
  {
    if a == [] {
      assert a + b == b;
    } else {
      assert (a + b)[0] == a[0];
      assert (a + b)[1..] == a[1..] + b;
      if ClassifyLine(a[0]).Skip? {
        ScanLinesAppend(a[1..], b);
      } else {
        assert ScanLines(a + b) == ScanLines(a) == Outcome(ClassifyLine(a[0]));
      }
    }
  }

  /**
   * An endpoint the scan returns is the second word of some line whose first
   * word is a known method: non-empty and free of whitespace.
   */
  lemma {:induction false} EndpointIsTarget(lines: seq<string>)
    requires ScanLines(lines).Success? && ScanLines(lines).value.Some?
    ensures var e := ScanLines(lines).value.value;
            e != [] && NoSpace(e)
            && exists k :: 0 <= k < |lines| && |Split(lines[k])| >= 2
                 && Split(lines[k])[0] in HttpMethods && Split(lines[k])[1] == e
    decreases |lines|
  {
    var e := ScanLines(lines).value.value;
    if ClassifyLine(lines[0]).Skip? {
      EndpointIsTarget(lines[1..]);
      var k :| 0 <= k < |lines[1..]| && |Split(lines[1..][k])| >= 2
               && Split(lines[1..][k])[0] in HttpMethods && Split(lines[1..][k])[1] == e;
      assert lines[1..][k] == lines[k + 1];
    } else {
      assert |Split(lines[0])| >= 2 && Split(lines[0])[1] == e;
    }
  }

  /**
   * The scan crashes with `c` exactly when some line raises `c` and every line
   * before it is skipped.
   */
  lemma CrashCause(lines: seq<string>, c: Crash)
    ensures ScanLines(lines) == Failure(c) <==>
              exists k :: 0 <= k < |lines| && ClassifyLine(lines[k]) == Raises(c)
                && forall j :: 0 <= j < k ==> ClassifyLine(lines[j]).Skip?
  {
    if ScanLines(lines) == Failure(c) {
      CrashHasCause(lines, c);
    }
    if exists k :: 0 <= k < |lines| && ClassifyLine(lines[k]) == Raises(c)
         && forall j :: 0 <= j < k ==> ClassifyLine(lines[j]).Skip? {
      var k :| 0 <= k < |lines| && ClassifyLine(lines[k]) == Raises(c)
               && forall j :: 0 <= j < k ==> ClassifyLine(lines[j]).Skip?;
      FirstDecidingLine(lines, k);
    }
  }

  /** A crash of the scan comes from a line that raises it, with every line before it skipped. */
  lemma {:induction false} CrashHasCause(lines: seq<string>, c: Crash)
    requires ScanLines(lines) == Failure(c)
    ensures exists k :: 0 <= k < |lines| && ClassifyLine(lines[k]) == Raises(c)
              && forall j :: 0 <= j < k ==> ClassifyLine(lines[j]).Skip?
    decreases |lines|
  {
    if ClassifyLine(lines[0]).Skip? {
      CrashHasCause(lines[1..], c);
      var k :| 0 <= k < |lines[1..]| && ClassifyLine(lines[1..][k]) == Raises(c)
               && forall j :: 0 <= j < k ==> ClassifyLine(lines[1..][j]).Skip?;
      assert ClassifyLine(lines[k + 1]) == Raises(c);
      forall j | 0 < j < k + 1 ensures ClassifyLine(lines[j]).Skip? {
        assert lines[j] == lines[1..][j - 1];
      }
    } else {
      assert ClassifyLine(lines[0]) == Raises(c);
    }
  }

  /** Every known method is a single word. */
  lemma MethodIsWord(verb: string)
    requires verb in HttpMethods
    ensures verb != [] && NoSpace(verb)
  {
  }

  /** A request line `GET /x ...`: its second word is the endpoint. */
  lemma MethodLineTarget(verb: string, target: string, rest: string)
    requires verb in HttpMethods
    requires target != [] && NoSpace(target)
    requires rest == [] || IsSpace(rest[0])
    ensures ClassifyLine(verb + " " + target + rest) == Found(target)
  {
    MethodIsWord(verb);
    SplitTwoWords(verb, target, rest);
  }

  /** A known method with no target after it raises at `line.split()[1]`. */
  lemma MethodOnlyLine(verb: string)
    requires verb in HttpMethods
    ensures ClassifyLine(verb) == Raises(MissingTarget)
  {
    MethodIsWord(verb);
    SplitWord(verb);
  }

  /** When the request line decides the scan, the rest of the request is never read. */
  lemma RequestLineDecides(line: string, rest: string)
    requires NoLineBreak(line) && !ClassifyLine(line).Skip?
    ensures EndpointOf(Some(line + "\r\n" + rest)) == Outcome(ClassifyLine(line))
  {
    SplitLinesAtCrLf(line, rest);
    FirstDecidingLine(SplitLines(line + "\r\n" + rest), 0);
  }

  /**
   * A request whose lines all start with an unknown method or a header name,
   * such as `HEAD / HTTP/1.1` and its headers, reaches the empty line that
   * ends the headers and raises there, whatever the body holds.
   */
  lemma HeadersThenBlankLineRaises(headers: seq<string>, body: string)
    requires forall k :: 0 <= k < |headers| ==> NoLineBreak(headers[k]) && ClassifyLine(headers[k]).Skip?
    ensures EndpointOf(Some(JoinCrLf(headers + [""]) + body)) == Failure(BlankRequestLine)
  {
    SplitLinesBlock(headers, body);
    NoEndpointIffAllSkipped(headers);
    assert ScanLines([""]) == Failure(BlankRequestLine) by {
      assert Blank("");
    }
    ScanLinesAppend(headers, [""]);
    ScanLinesAppend(headers + [""], SplitLines(body));
  }
}
