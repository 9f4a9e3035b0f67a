/**
 * The few Python string operations the extractor relies on, over `seq<char>`:
 * `str.splitlines()`, `str.split()` with no argument, `str.count("\n")` on a
 * prefix and the substring test `pat in s`.
 */
module PyText {

  /** The characters at which `str.splitlines()` ends a line ("\r\n" counts as one break). */
  predicate IsLineBreak(c: char) {
    c == '\n' || c == '\r' || c == '\U{0B}' || c == '\U{0C}'
    || c == '\U{1C}' || c == '\U{1D}' || c == '\U{1E}' || c == '\U{85}'
    || c == '\U{2028}' || c == '\U{2029}'
  }

  /** The characters `str.split()` treats as whitespace (those for which `str.isspace()` holds). */
  predicate IsSpace(c: char) {
    var n := c as int;
    (0x09 <= n <= 0x0D) || (0x1C <= n <= 0x20) || n == 0x85 || n == 0xA0 || n == 0x1680
    || (0x2000 <= n <= 0x200A) || n == 0x2028 || n == 0x2029 || n == 0x202F
    || n == 0x205F || n == 0x3000
  }

  predicate NoLineBreak(s: string) {
    forall i :: 0 <= i < |s| ==> !IsLineBreak(s[i])
  }

  predicate NoSpace(s: string) {
    forall i :: 0 <= i < |s| ==> !IsSpace(s[i])
  }

  /** The strings of `parts`, one after the other. */
  function Concat(parts: seq<string>): string {
    if parts == [] then [] else parts[0] + Concat(parts[1..])
  }

  /** `s` with every line-break character taken out. */
  function DropLineBreaks(s: string): string {
    if s == [] then []
    else (if IsLineBreak(s[0]) then [] else [s[0]]) + DropLineBreaks(s[1..])
  }

  /** `s` with every whitespace character taken out. */
  function DropSpaces(s: string): string {
    if s == [] then []
    else (if IsSpace(s[0]) then [] else [s[0]]) + DropSpaces(s[1..])
  }

  /**
   * `s.splitlines()`: no line holds a break character, and the lines, joined,
   * are `s` without its break characters. A break at the very end of `s`
   * opens no further line.
   */
  function SplitLines(s: string): (lines: seq<string>)
    ensures forall k :: 0 <= k < |lines| ==> NoLineBreak(lines[k])
    ensures Concat(lines) == DropLineBreaks(s)
  {
    LinesFrom(s, [])
  }

  /** The lines of `cur + s`, where `cur` is the part of the current line already read. */
  function LinesFrom(s: string, cur: string): (lines: seq<string>)
    requires NoLineBreak(cur)
    ensures forall k :: 0 <= k < |lines| ==> NoLineBreak(lines[k])
    ensures Concat(lines) == cur + DropLineBreaks(s)
    decreases |s|
  {
    if s == [] then
      if cur == [] then [] else [cur]
    else if s[0] == '\r' && |s| >= 2 && s[1] == '\n' then
      assert DropLineBreaks(s) == DropLineBreaks(s[1..]);
      assert DropLineBreaks(s[1..]) == DropLineBreaks(s[2..]) by { assert s[1..][1..] == s[2..]; }
      [cur] + LinesFrom(s[2..], [])
    else if IsLineBreak(s[0]) then
      [cur] + LinesFrom(s[1..], [])
    else
      assert (cur + [s[0]]) + DropLineBreaks(s[1..]) == cur + DropLineBreaks(s);
      LinesFrom(s[1..], cur + [s[0]])
  }

  /**
   * `s.split()`: maximal runs of non-whitespace characters, in order; every
   * token is non-empty and holds no whitespace, and the tokens, joined, are
   * `s` without its whitespace.
   */
  function Split(s: string): (tokens: seq<string>)
    ensures forall k :: 0 <= k < |tokens| ==> tokens[k] != [] && NoSpace(tokens[k])
    ensures Concat(tokens) == DropSpaces(s)
  {
    TokensFrom(s, [])
  }

  /** The tokens of `cur + s`, where `cur` is the part of the current token already read. */
  function TokensFrom(s: string, cur: string): (tokens: seq<string>)
    requires NoSpace(cur)
    ensures forall k :: 0 <= k < |tokens| ==> tokens[k] != [] && NoSpace(tokens[k])
    ensures Concat(tokens) == cur + DropSpaces(s)
    decreases |s|
  {
    if s == [] then
      if cur == [] then [] else [cur]
    else if IsSpace(s[0]) then
      if cur == [] then TokensFrom(s[1..], []) else [cur] + TokensFrom(s[1..], [])
    else
      assert (cur + [s[0]]) + DropSpaces(s[1..]) == cur + DropSpaces(s);
      TokensFrom(s[1..], cur + [s[0]])
  }

  /**
   * Where `str.split()` cuts: a whitespace character separates the words of
   * what comes before it from the words of what comes after it.
   */
  lemma SplitAtSpace(a: string, c: char, b: string)
    requires IsSpace(c)
    ensures Split(a + [c] + b) == Split(a) + Split(b)
  {
    TokensFromAtSpace(a, c, b, []);
  }

  /** A non-empty run without whitespace is one word. */
  lemma SplitWord(w: string)
    requires w != [] && NoSpace(w)
    ensures Split(w) == [w]
  {
    TokensFromWord(w, []);
    assert [] + w == w;
  }

  lemma {:induction false} TokensFromAtSpace(a: string, c: char, b: string, cur: string)
    requires NoSpace(cur) && IsSpace(c)
    ensures TokensFrom(a + [c] + b, cur) == TokensFrom(a, cur) + TokensFrom(b, [])
    decreases |a|
  {
    var s := a + [c] + b;
    if a == [] {
      assert s[0] == c && s[1..] == b;
    } else {
      assert s[0] == a[0] && s[1..] == a[1..] + [c] + b;
      if IsSpace(a[0]) {
        TokensFromAtSpace(a[1..], c, b, []);
      } else {
        assert NoSpace(cur + [a[0]]) by {
          assert forall i :: 0 <= i < |cur| ==> (cur + [a[0]])[i] == cur[i];
        }
        TokensFromAtSpace(a[1..], c, b, cur + [a[0]]);
      }
    }
  }

  lemma {:induction false} TokensFromWord(w: string, cur: string)
    requires NoSpace(cur) && NoSpace(w) && cur + w != []
    ensures TokensFrom(w, cur) == [cur + w]
    decreases |w|
  {
    if w == [] {
      assert cur + w == cur;
    } else {
      assert !IsSpace(w[0]);
      assert NoSpace(cur + [w[0]]) by {
        assert forall i :: 0 <= i < |cur| ==> (cur + [w[0]])[i] == cur[i];
      }
      assert NoSpace(w[1..]) by {
        assert forall i :: 0 <= i < |w[1..]| ==> w[1..][i] == w[i + 1];
      }
      assert (cur + [w[0]]) + w[1..] == cur + w;
      TokensFromWord(w[1..], cur + [w[0]]);
    }
  }

  /**
   * Where `str.splitlines()` cuts: a line-break character ends the line before
   * it, even when that line is empty. A lone `\r` is a break of its own; `\r\n`
   * is handled by `SplitLinesAtCrLf`.
   */
  lemma SplitLinesAtBreak(a: string, c: char, b: string)
    requires NoLineBreak(a) && IsLineBreak(c)
    requires c != '\r' || b == [] || b[0] != '\n'
    ensures SplitLines(a + [c] + b) == [a] + SplitLines(b)
  {
    LinesFromAtBreak(a, c, b, []);
    assert [] + a == a;
  }

  /** `\r\n` ends one line, even an empty one, and opens no empty line between `\r` and `\n`. */
  lemma SplitLinesAtCrLf(a: string, b: string)
    requires NoLineBreak(a)
    ensures SplitLines(a + "\r\n" + b) == [a] + SplitLines(b)
  {
    LinesFromAtCrLf(a, b, []);
    assert [] + a == a;
  }

  /** The last line needs no break after it, and an empty text has no lines. */
  lemma SplitLinesLast(a: string)
    requires NoLineBreak(a)
    ensures SplitLines(a) == if a == [] then [] else [a]
  {
    LinesFromLast(a, []);
    assert [] + a == a;
  }

  lemma {:induction false} LinesFromAtBreak(a: string, c: char, b: string, cur: string)
    requires NoLineBreak(cur) && NoLineBreak(a) && IsLineBreak(c)
    requires c != '\r' || b == [] || b[0] != '\n'
    ensures LinesFrom(a + [c] + b, cur) == [cur + a] + LinesFrom(b, [])
    decreases |a|
  {
    var s := a + [c] + b;
    if a == [] {
      assert s[0] == c && s[1..] == b && cur + a == cur;
      if c == '\r' && |s| >= 2 {
        assert s[1] == b[0];
      }
    } else {
      assert s[0] == a[0] && s[1..] == a[1..] + [c] + b && !IsLineBreak(a[0]);
      assert NoLineBreak(cur + [a[0]]) by {
        assert forall i :: 0 <= i < |cur| ==> (cur + [a[0]])[i] == cur[i];
      }
      assert NoLineBreak(a[1..]) by {
        assert forall i :: 0 <= i < |a[1..]| ==> a[1..][i] == a[i + 1];
      }
      assert (cur + [a[0]]) + a[1..] == cur + a;
      LinesFromAtBreak(a[1..], c, b, cur + [a[0]]);
    }
  }

  lemma {:induction false} LinesFromAtCrLf(a: string, b: string, cur: string)
    requires NoLineBreak(cur) && NoLineBreak(a)
    ensures LinesFrom(a + "\r\n" + b, cur) == [cur + a] + LinesFrom(b, [])
    decreases |a|
  {
    var s := a + "\r\n" + b;
    if a == [] {
      assert s[0] == '\r' && s[1] == '\n' && s[2..] == b && cur + a == cur;
    } else {
      assert s[0] == a[0] && s[1..] == a[1..] + "\r\n" + b && !IsLineBreak(a[0]);
      assert NoLineBreak(cur + [a[0]]) by {
        assert forall i :: 0 <= i < |cur| ==> (cur + [a[0]])[i] == cur[i];
      }
      assert NoLineBreak(a[1..]) by {
        assert forall i :: 0 <= i < |a[1..]| ==> a[1..][i] == a[i + 1];
      }
      assert (cur + [a[0]]) + a[1..] == cur + a;
      LinesFromAtCrLf(a[1..], b, cur + [a[0]]);
    }
  }

  lemma {:induction false} LinesFromLast(a: string, cur: string)
    requires NoLineBreak(cur) && NoLineBreak(a)
    ensures LinesFrom(a, cur) == if cur + a == [] then [] else [cur + a]
    decreases |a|
  {
    if a == [] {
      assert cur + a == cur;
    } else {
      assert !IsLineBreak(a[0]);
      assert NoLineBreak(cur + [a[0]]) by {
        assert forall i :: 0 <= i < |cur| ==> (cur + [a[0]])[i] == cur[i];
      }
      assert NoLineBreak(a[1..]) by {
        assert forall i :: 0 <= i < |a[1..]| ==> a[1..][i] == a[i + 1];
      }
      assert (cur + [a[0]]) + a[1..] == cur + a;
      LinesFromLast(a[1..], cur + [a[0]]);
    }
  }

  /** The text of `lines`, each ended by `\r\n`, as the lines of an HTTP message are. */
  function JoinCrLf(lines: seq<string>): string {
    if lines == [] then [] else lines[0] + "\r\n" + JoinCrLf(lines[1..])
  }

  /** `splitlines()` gives back every line written with `\r\n` after it, then the lines of what follows. */
  lemma {:induction false} SplitLinesJoinCrLf(lines: seq<string>, b: string)
    requires forall k :: 0 <= k < |lines| ==> NoLineBreak(lines[k])
    ensures SplitLines(JoinCrLf(lines) + b) == lines + SplitLines(b)
    decreases |lines|
  {
    if lines == [] {
      assert JoinCrLf(lines) + b == b;
    } else {
      var rest := JoinCrLf(lines[1..]) + b;
      assert JoinCrLf(lines) + b == lines[0] + "\r\n" + rest;
      SplitLinesAtCrLf(lines[0], rest);
      SplitLinesJoinCrLf(lines[1..], b);
      assert lines == [lines[0]] + lines[1..];
    }
  }

  /**
   * The lines of a header block: the given lines, then the empty line that
   * closes the block, then the lines of what follows.
   */
  lemma SplitLinesBlock(lines: seq<string>, b: string)
    requires forall k :: 0 <= k < |lines| ==> NoLineBreak(lines[k])
    ensures JoinCrLf(lines + [""]) + b != []
    ensures SplitLines(JoinCrLf(lines + [""]) + b) == (lines + [""]) + SplitLines(b)
  {
    var block := lines + [""];
    assert forall k :: 0 <= k < |block| ==> NoLineBreak(block[k]) by {
      forall k | 0 <= k < |block| ensures NoLineBreak(block[k]) {
        if k < |lines| {
          assert block[k] == lines[k];
        }
      }
    }
    SplitLinesJoinCrLf(block, b);
  }

  /** Two words, then whitespace or nothing: `split()` gives them as its first two words. */
  lemma SplitTwoWords(first: string, second: string, rest: string)
    requires first != [] && NoSpace(first)
    requires second != [] && NoSpace(second)
    requires rest == [] || IsSpace(rest[0])
    ensures |Split(first + " " + second + rest)| >= 2
    ensures Split(first + " " + second + rest)[0] == first
    ensures Split(first + " " + second + rest)[1] == second
  {
    var tail := second + rest;
    assert Split(tail)[0] == second && |Split(tail)| >= 1 by {
      SplitWord(second);
      if rest != [] {
        assert tail == second + [rest[0]] + rest[1..];
        SplitAtSpace(second, rest[0], rest[1..]);
      } else {
        assert tail == second;
      }
    }
    assert Split(first + " " + second + rest) == [first] + Split(tail) by {
      assert first + " " + second + rest == first + [' '] + tail;
      SplitAtSpace(first, ' ', tail);
      SplitWord(first);
    }
  }

  /** `s` is made of whitespace only (or is empty). */
  predicate Blank(s: string) {
    forall i :: 0 <= i < |s| ==> IsSpace(s[i])
  }

  /** Nothing is left of `s` once its whitespace is taken out exactly when `s` is blank. */
  lemma {:induction false} DropSpacesEmpty(s: string)
    ensures DropSpaces(s) == [] <==> Blank(s)
    decreases |s|
  {
    if s != [] {
      DropSpacesEmpty(s[1..]);
      assert Blank(s) <==> IsSpace(s[0]) && Blank(s[1..]) by {
        if IsSpace(s[0]) && Blank(s[1..]) {
          forall i | 0 <= i < |s| ensures IsSpace(s[i]) {
            if i > 0 { assert s[i] == s[1..][i - 1]; }
          }
        }
      }
    }
  }

  /** `s.split()` is empty exactly when `s` holds nothing but whitespace. */
  lemma SplitEmptyIffBlank(s: string)
    ensures Split(s) == [] <==> Blank(s)
  {
    var tokens := Split(s);
    DropSpacesEmpty(s);
    if tokens != [] {
      assert tokens[0] != [];
      assert Concat(tokens) == tokens[0] + Concat(tokens[1..]);
    }
  }

  /** `s.count("\n")`. */
  function CountNewlines(s: string): (n: nat)
    ensures n == multiset(s)['\n']
    ensures n <= |s|
  {
    if s == [] then 0
    else
      assert s == s[..|s| - 1] + [s[|s| - 1]];
      CountNewlines(s[..|s| - 1]) + (if s[|s| - 1] == '\n' then 1 else 0)
  }

  /** Each character of `s` after position `i` adds one to the count exactly when it is a newline. */
  lemma CountNewlinesStep(s: string, i: nat)
    requires i < |s|
    ensures CountNewlines(s[..i + 1]) == CountNewlines(s[..i]) + (if s[i] == '\n' then 1 else 0)
  {
    assert s[..i + 1][..i] == s[..i];
  }

  /** A longer prefix never holds fewer newlines. */
  lemma CountNewlinesMonotone(s: string, i: nat, j: nat)
    requires i <= j <= |s|
    ensures CountNewlines(s[..i]) <= CountNewlines(s[..j])
  {
    assert s[..j] == s[..i] + s[i..j];
  }

  /** `pat` occurs in `s` starting at position `i`. */
  predicate OccursAt(pat: string, s: string, i: nat) {
    i + |pat| <= |s| && s[i..i + |pat|] == pat
  }

  /** Python's `pat in s`: `pat` occurs in `s` as a contiguous, case-sensitive substring. */
  ghost predicate Occurs(pat: string, s: string) {
    exists i: nat :: OccursAt(pat, s, i)
  }

  /** The search that decides `pat in s`, trying the positions of `s` from left to right. */
  function Contains(s: string, pat: string): (b: bool)
    ensures b <==> Occurs(pat, s)
    decreases |s|
  {
    if |s| < |pat| then
      assert forall i: nat :: !OccursAt(pat, s, i);
      false
    else if s[..|pat|] == pat then
      assert OccursAt(pat, s, 0);
      true
    else
      var rest := Contains(s[1..], pat);
      assert rest ==> Occurs(pat, s) by {
        if rest {
          var i: nat :| OccursAt(pat, s[1..], i);
          assert s[1..][i..i + |pat|] == s[i + 1..i + 1 + |pat|];
          assert OccursAt(pat, s, i + 1);
        }
      }
      assert Occurs(pat, s) ==> rest by {
        if Occurs(pat, s) {
          var i: nat :| OccursAt(pat, s, i);
          assert i != 0;
          assert s[1..][i - 1..i - 1 + |pat|] == s[i..i + |pat|];
          assert OccursAt(pat, s[1..], i - 1);
        }
      }
      rest
  }
}
