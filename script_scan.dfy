/**
 * The one regular expression the extractor runs over a decoded response,
 *
 *   <script[^>]*src=["'](https?://[^"']+)["'][^>]*>(.*?)</script>
 *
 * with IGNORECASE and DOTALL, as `re.finditer` applies it. `IsMatch` is what
 * the pattern accepts at all; `Outranks` is the order in which Python's
 * backtracking matcher tries the choices it leaves open (the first `[^>]*`
 * longest first, the lazy `(.*?)` shortest first); `MatchAt` is the match the
 * engine reports at one start position and `FindAll` the sequence of matches
 * `finditer` yields.
 */
module ScriptScan {
  import opened Wrappers

  const OpenTag := "<script"
  const SrcAttr := "src="
  const Http := "http://"
  const Https := "https://"
  const CloseTag := "</script>"

  /**
   * Under IGNORECASE, text character `c` matches the lower-case pattern
   * character `p`: `c` is `p` or its ASCII upper case, or one of the extra
   * case variants Python's `re` accepts for `i` (U+0130, U+0131) and `s` (U+017F).
   */
  predicate FoldsTo(c: char, p: char) {
    c == p
    || ('a' <= p <= 'z' && c as int == p as int - 32)
    || (p == 'i' && (c == '\U{0130}' || c == '\U{0131}'))
    || (p == 's' && c == '\U{017F}')
  }

  /** The literal `lit` (written in lower case) matches `t` case-insensitively at position `i`. */
  predicate LitAt(t: string, i: nat, lit: string) {
    i + |lit| <= |t| && forall j :: 0 <= j < |lit| ==> FoldsTo(t[i + j], lit[j])
  }

  predicate IsQuote(c: char) {
    c == '"' || c == '\''
  }

  predicate IsTagEnd(c: char) {
    c == '>'
  }

  /** No character of `t[lo..hi]` is `>`. */
  predicate NoTagEndIn(t: string, lo: nat, hi: nat) {
    forall i {:trigger IsTagEnd(t[i])} :: lo <= i < hi && i < |t| ==> !IsTagEnd(t[i])
  }

  /** No character of `t[lo..hi]` is a quote. */
  predicate NoQuoteIn(t: string, lo: nat, hi: nat) {
    forall i {:trigger IsQuote(t[i])} :: lo <= i < hi && i < |t| ==> !IsQuote(t[i])
  }

  /**
   * A match of the pattern. The positions are those of `<script` (start),
   * of `src=` (attr), of the quote that closes the URL (srcEnd), of the `>`
   * that closes the opening tag (tagEnd) and of `</script>` (bodyEnd).
   */
  datatype Match = Match(start: nat, attr: nat, srcEnd: nat, tagEnd: nat, bodyEnd: nat) {
    /** Where group 1, the URL, begins. */
    function SrcStart(): nat { attr + |SrcAttr| + 1 }
    /** Where group 2, the script's inner content, begins. */
    function BodyStart(): nat { tagEnd + 1 }
    /** The position just past `</script>`, where `finditer` resumes. */
    function End(): nat { bodyEnd + |CloseTag| }
  }

  /** The position just past the scheme of a URL at `g` that begins with `http://` or `https://`. */
  function SchemeEnd(t: string, g: nat): nat {
    if LitAt(t, g, Https) then g + |Https| else g + |Http|
  }

  /** `m` is a way for the pattern to match `t`: every part of the pattern at the positions `m` names. */
  predicate IsMatch(t: string, m: Match) {
    && LitAt(t, m.start, OpenTag)
    && m.start + |OpenTag| <= m.attr
    && NoTagEndIn(t, m.start + |OpenTag|, m.attr)
    && SrcOpensAt(t, m.attr)
    && SchemeEnd(t, m.SrcStart()) < m.srcEnd < |t|
    && NoQuoteIn(t, SchemeEnd(t, m.SrcStart()), m.srcEnd)
    && IsQuote(t[m.srcEnd])
    && m.srcEnd < m.tagEnd < |t|
    && NoTagEndIn(t, m.srcEnd + 1, m.tagEnd)
    && IsTagEnd(t[m.tagEnd])
    && m.tagEnd < m.bodyEnd
    && LitAt(t, m.bodyEnd, CloseTag)
  }

  /** The positions of `m` are ordered and lie within `t`, so both groups can be sliced out. */
  predicate InBounds(t: string, m: Match) {
    m.start <= m.SrcStart() <= m.srcEnd <= m.BodyStart() <= m.bodyEnd <= |t|
  }

  /**
   * Of two matches at the same start, backtracking reaches `m` no later than `n`:
   * the greedy `[^>]*` before `src=` prefers the later `src=`, and for the same
   * `src=` the lazy `(.*?)` prefers the earlier `</script>`.
   */
  predicate Outranks(m: Match, n: Match) {
    m.attr > n.attr || (m.attr == n.attr && m.bodyEnd <= n.bodyEnd)
  }

  /** The first `>` at or after `i`, or `|t|` when there is none. */
  function FirstTagEnd(t: string, i: nat): (k: nat)
    requires i <= |t|
    ensures i <= k <= |t|
    ensures NoTagEndIn(t, i, k)
    ensures k < |t| ==> IsTagEnd(t[k])
    decreases |t| - i
  {
    if i == |t| || IsTagEnd(t[i]) then i else FirstTagEnd(t, i + 1)
  }

  /** The first quote at or after `i`, or `|t|` when there is none. */
  function FirstQuote(t: string, i: nat): (k: nat)
    requires i <= |t|
    ensures i <= k <= |t|
    ensures NoQuoteIn(t, i, k)
    ensures k < |t| ==> IsQuote(t[k])
    decreases |t| - i
  {
    if i == |t| || IsQuote(t[i]) then i else FirstQuote(t, i + 1)
  }

  /** The first position at or after `i` where `</script>` begins, if any. */
  function FindCloseTag(t: string, i: nat): (k: Option<nat>)
    ensures k.Some? ==> i <= k.value && LitAt(t, k.value, CloseTag)
    ensures forall j :: i <= j && (k.None? || j < k.value) ==> !LitAt(t, j, CloseTag)
    decreases |t| - i
  {
    if i + |CloseTag| > |t| then None
    else if LitAt(t, i, CloseTag) then Some(i)
    else FindCloseTag(t, i + 1)
  }

  /**
   * Once `src=` is placed, a match has no freedom left before its body: the
   * URL runs to the first quote after the scheme and the opening tag closes
   * at the first `>` after that quote.
   */
  lemma TailForced(t: string, n: Match)
    requires IsMatch(t, n)
    ensures n.srcEnd == FirstQuote(t, SchemeEnd(t, n.SrcStart()))
    ensures n.tagEnd == FirstTagEnd(t, n.srcEnd + 1)
  {
  }

  /**
   * The rest of the pattern, from `src=` at `p` on, for an opening `<script`
   * at `s`: the URL runs to the first quote, the opening tag to the next `>`,
   * and the lazy body stops at the first `</script>` after it.
   */
  function TailAt(t: string, s: nat, p: nat): Option<Match> {
    if !SrcOpensAt(t, p) || SchemeEnd(t, p + |SrcAttr| + 1) >= |t| then None
    else UrlFrom(t, s, p, FirstQuote(t, SchemeEnd(t, p + |SrcAttr| + 1)))
  }

  /** The rest of the tail once the URL ends at `srcEnd`: `[^"']+` needs at least one character. */
  function UrlFrom(t: string, s: nat, p: nat, srcEnd: nat): Option<Match> {
    if srcEnd <= SchemeEnd(t, p + |SrcAttr| + 1) || srcEnd >= |t| || FirstTagEnd(t, srcEnd + 1) >= |t| then None
    else BodyFrom(t, s, p, srcEnd, FirstTagEnd(t, srcEnd + 1))
  }

  /** The rest of the tail once the opening tag ends at `tagEnd`. */
  function BodyFrom(t: string, s: nat, p: nat, srcEnd: nat, tagEnd: nat): Option<Match> {
    match FindCloseTag(t, tagEnd + 1)
    case None => None
    case Some(bodyEnd) => Some(Match(s, p, srcEnd, tagEnd, bodyEnd))
  }

  /** `src=` at `p`, then a quote, then `http://` or `https://`. */
  predicate SrcOpensAt(t: string, p: nat) {
    && LitAt(t, p, SrcAttr) && p + |SrcAttr| < |t| && IsQuote(t[p + |SrcAttr|])
    && (LitAt(t, p + |SrcAttr| + 1, Http) || LitAt(t, p + |SrcAttr| + 1, Https))
  }

  /** The tail search, once the URL and the opening tag are known to end at `srcEnd` and `tagEnd`. */
  lemma TailAtSteps(t: string, s: nat, p: nat, srcEnd: nat, tagEnd: nat)
    requires SrcOpensAt(t, p)
    requires SchemeEnd(t, p + |SrcAttr| + 1) < srcEnd < |t|
    requires FirstQuote(t, SchemeEnd(t, p + |SrcAttr| + 1)) == srcEnd
    requires srcEnd < tagEnd < |t| && FirstTagEnd(t, srcEnd + 1) == tagEnd
    ensures TailAt(t, s, p) == BodyFrom(t, s, p, srcEnd, tagEnd)
  {
  }

  /** The body search succeeds when some `</script>` follows the opening tag, and stops at or before it. */
  lemma BodyFromFirst(t: string, s: nat, p: nat, srcEnd: nat, tagEnd: nat, close: nat)
    requires tagEnd < close && LitAt(t, close, CloseTag)
    ensures BodyFrom(t, s, p, srcEnd, tagEnd).Some?
    ensures BodyFrom(t, s, p, srcEnd, tagEnd).value.bodyEnd <= close
  {
  }

  /** A match `TailAt` finds is a match of the pattern, with `<script` at `s` and `src=` at `p`. */
  lemma TailAtSound(t: string, s: nat, p: nat)
    requires LitAt(t, s, OpenTag) && s + |OpenTag| <= p && NoTagEndIn(t, s + |OpenTag|, p)
    requires TailAt(t, s, p).Some?
    ensures TailAt(t, s, p).value.start == s && TailAt(t, s, p).value.attr == p
    ensures IsMatch(t, TailAt(t, s, p).value)
  {
    TailAtParts(t, s, p);
  }

  /** What a successful tail search is made of, step by step. */
  lemma TailAtParts(t: string, s: nat, p: nat)
    requires TailAt(t, s, p).Some?
    ensures var m := TailAt(t, s, p).value;
            && m.start == s && m.attr == p && SrcOpensAt(t, p)
            && SchemeEnd(t, p + |SrcAttr| + 1) < m.srcEnd < |t|
            && m.srcEnd == FirstQuote(t, SchemeEnd(t, p + |SrcAttr| + 1))
            && m.srcEnd < m.tagEnd < |t| && m.tagEnd == FirstTagEnd(t, m.srcEnd + 1)
            && m.tagEnd < m.bodyEnd && LitAt(t, m.bodyEnd, CloseTag)
  {
    var srcEnd := FirstQuote(t, SchemeEnd(t, p + |SrcAttr| + 1));
    UrlFromParts(t, s, p, srcEnd);
    BodyFromParts(t, s, p, srcEnd, FirstTagEnd(t, srcEnd + 1));
  }

  /** A successful search from the end of the URL closes the opening tag at the first `>`. */
  lemma UrlFromParts(t: string, s: nat, p: nat, srcEnd: nat)
    requires UrlFrom(t, s, p, srcEnd).Some?
    ensures SchemeEnd(t, p + |SrcAttr| + 1) < srcEnd < |t|
    ensures srcEnd + 1 <= |t| && srcEnd < FirstTagEnd(t, srcEnd + 1) < |t|
    ensures UrlFrom(t, s, p, srcEnd) == BodyFrom(t, s, p, srcEnd, FirstTagEnd(t, srcEnd + 1))
  {
  }

  /** A successful body search ends at the first `</script>` after the opening tag. */
  lemma BodyFromParts(t: string, s: nat, p: nat, srcEnd: nat, tagEnd: nat)
    requires BodyFrom(t, s, p, srcEnd, tagEnd).Some?
    ensures BodyFrom(t, s, p, srcEnd, tagEnd).value.start == s
    ensures BodyFrom(t, s, p, srcEnd, tagEnd).value.attr == p
    ensures BodyFrom(t, s, p, srcEnd, tagEnd).value.srcEnd == srcEnd
    ensures BodyFrom(t, s, p, srcEnd, tagEnd).value.tagEnd == tagEnd
    ensures tagEnd < BodyFrom(t, s, p, srcEnd, tagEnd).value.bodyEnd
    ensures LitAt(t, BodyFrom(t, s, p, srcEnd, tagEnd).value.bodyEnd, CloseTag)
  {
  }

  /**
   * Every match of the pattern with `<script` at `s` and `src=` at `p` is
   * found by `TailAt` up to where its body ends, and `TailAt`'s body ends no
   * later: the lazy `(.*?)` stops at the first `</script>`.
   */
  lemma TailAtFirst(t: string, n: Match)
    requires IsMatch(t, n)
    ensures TailAt(t, n.start, n.attr).Some?
    ensures TailAt(t, n.start, n.attr).value.bodyEnd <= n.bodyEnd
  {
    TailForced(t, n);
    TailAtSteps(t, n.start, n.attr, n.srcEnd, n.tagEnd);
    BodyFromFirst(t, n.start, n.attr, n.srcEnd, n.tagEnd, n.bodyEnd);
  }

  /**
   * The greedy `[^>]*` after `<script`: try `src=` at `p`, then at `p - 1`,
   * and so on down to the end of `<script`.
   */
  function AttrSearch(t: string, s: nat, p: nat): Option<Match>
    requires s + |OpenTag| <= p
    decreases p
  {
    match TailAt(t, s, p)
    case Some(m) => Some(m)
    case None => if p == s + |OpenTag| then None else AttrSearch(t, s, p - 1)
  }

  /** Whatever `AttrSearch` returns is a match at `s` whose `src=` lies at or before `p`. */
  lemma {:induction false} AttrSearchSound(t: string, s: nat, p: nat)
    requires LitAt(t, s, OpenTag) && s + |OpenTag| <= p && NoTagEndIn(t, s + |OpenTag|, p)
    requires AttrSearch(t, s, p).Some?
    ensures AttrSearch(t, s, p).value.start == s && AttrSearch(t, s, p).value.attr <= p
    ensures IsMatch(t, AttrSearch(t, s, p).value)
    decreases p
  {
    if TailAt(t, s, p).Some? {
      TailAtSound(t, s, p);
    } else {
      AttrSearchSound(t, s, p - 1);
    }
  }

  /** Where the tail search fails for `src=` at `p`, no match at `s` has its `src=` at `p`. */
  lemma NoTailNoMatch(t: string, s: nat, p: nat)
    requires TailAt(t, s, p).None?
    ensures forall n :: IsMatch(t, n) && n.start == s ==> n.attr != p
  {
    forall n | IsMatch(t, n) && n.start == s && n.attr == p
      ensures false
    {
      TailAtFirst(t, n);
    }
  }

  /** Where the tail search succeeds for `src=` at `p`, it ends the body no later than any match with `src=` at `p`. */
  lemma TailEarliest(t: string, s: nat, p: nat)
    requires TailAt(t, s, p).Some?
    ensures forall n :: IsMatch(t, n) && n.start == s && n.attr == p ==> TailAt(t, s, p).value.bodyEnd <= n.bodyEnd
  {
    forall n | IsMatch(t, n) && n.start == s && n.attr == p
      ensures TailAt(t, s, p).value.bodyEnd <= n.bodyEnd
    {
      TailAtFirst(t, n);
    }
  }

  /** When `AttrSearch` finds nothing, no match at `s` has its `src=` at or before `p`. */
  lemma {:induction false} AttrSearchNone(t: string, s: nat, p: nat)
    requires s + |OpenTag| <= p
    requires AttrSearch(t, s, p).None?
    ensures forall n :: IsMatch(t, n) && n.start == s ==> n.attr > p
    decreases p
  {
    NoTailNoMatch(t, s, p);
    if p > s + |OpenTag| {
      AttrSearchNone(t, s, p - 1);
    }
  }

  /**
   * `AttrSearch` returns the match with the latest `src=` at or before `p`,
   * ties going to the earliest `</script>`.
   */
  lemma {:induction false} AttrSearchBest(t: string, s: nat, p: nat)
    requires s + |OpenTag| <= p
    requires AttrSearch(t, s, p).Some?
    ensures forall n :: IsMatch(t, n) && n.start == s && n.attr <= p ==> Outranks(AttrSearch(t, s, p).value, n)
    decreases p
  {
    if TailAt(t, s, p).Some? {
      assert AttrSearch(t, s, p) == TailAt(t, s, p) && TailAt(t, s, p).value.attr == p;
      TailEarliest(t, s, p);
    } else {
      NoTailNoMatch(t, s, p);
      AttrSearchBest(t, s, p - 1);
    }
  }

  /**
   * The match Python's engine reports when it tries start position `s`, if any:
   * the `[^>]*` after `<script` cannot run past the first `>`, so the search for
   * `src=` starts there.
   */
  function MatchAt(t: string, s: nat): Option<Match> {
    if !LitAt(t, s, OpenTag) then None
    else AttrSearch(t, s, FirstTagEnd(t, s + |OpenTag|))
  }

  /**
   * What the engine reports at `s` is a match of the pattern starting at `s`
   * that outranks every other one there, and it reports nothing exactly when
   * the pattern cannot match at `s`.
   */
  lemma MatchAtSpec(t: string, s: nat)
    ensures MatchAt(t, s).Some? ==>
              var m := MatchAt(t, s).value;
              m.start == s && IsMatch(t, m) && forall n :: IsMatch(t, n) && n.start == s ==> Outranks(m, n)
    ensures MatchAt(t, s).None? ==> forall n :: IsMatch(t, n) ==> n.start != s
  {
    if LitAt(t, s, OpenTag) {
      var e := FirstTagEnd(t, s + |OpenTag|);
      if AttrSearch(t, s, e).Some? {
        AttrSearchSound(t, s, e);
        AttrSearchBest(t, s, e);
      } else {
        AttrSearchNone(t, s, e);
      }
    }
  }

  /** A reported match starts where it was asked for and ends after that, inside the text. */
  lemma MatchAtBounds(t: string)
    ensures ReportsWithin((s: nat) => MatchAt(t, s), |t|)
  {
    forall s: nat | MatchAt(t, s).Some?
      ensures MatchAt(t, s).value.start == s < MatchAt(t, s).value.End() <= |t|
    {
      MatchAtSpec(t, s);
    }
  }

  /**
   * `at` behaves as a matcher over a text of length `n`: a match it reports
   * for start `s` starts at `s` and ends after `s`, at or before `n`.
   */
  ghost predicate ReportsWithin(at: nat -> Option<Match>, n: nat) {
    forall s: nat :: at(s).Some? ==> at(s).value.start == s < at(s).value.End() <= n
  }

  /** The search `finditer` runs from `pos`: try each start position in turn until the matcher reports a match. */
  function SearchFrom(at: nat -> Option<Match>, pos: nat, n: nat): Option<Match>
    requires pos <= n
    decreases n - pos
  {
    match at(pos)
    case Some(m) => Some(m)
    case None => if pos == n then None else SearchFrom(at, pos + 1, n)
  }

  /** `SearchFrom` reports the match at the leftmost start at or after `pos` where there is one. */
  lemma {:induction false} SearchFromSpec(at: nat -> Option<Match>, pos: nat, n: nat)
    requires ReportsWithin(at, n) && pos <= n
    ensures SearchFrom(at, pos, n).Some? ==>
              var m := SearchFrom(at, pos, n).value;
              pos <= m.start && at(m.start) == Some(m)
    ensures forall s: nat :: pos <= s && (SearchFrom(at, pos, n).None? || s < SearchFrom(at, pos, n).value.start) ==>
              at(s).None?
    decreases n - pos
  {
    if at(pos).None? && pos < n {
      SearchFromSpec(at, pos + 1, n);
    }
  }

  /** `finditer`'s loop: search from `pos`, and after each match search again from where it ended. */
  function ScanFrom(at: nat -> Option<Match>, pos: nat, n: nat): seq<Match>
    requires ReportsWithin(at, n) && pos <= n
    decreases n - pos
  {
    match SearchFrom(at, pos, n)
    case None => []
    case Some(m) =>
      SearchFromSpec(at, pos, n);
      [m] + ScanFrom(at, m.End(), n)
  }

  /** Every match `ScanFrom` yields is the one `at` reports at its start, which lies at or after `pos`. */
  lemma {:induction false} ScanFromReported(at: nat -> Option<Match>, pos: nat, n: nat)
    requires ReportsWithin(at, n) && pos <= n
    ensures forall k :: 0 <= k < |ScanFrom(at, pos, n)| ==>
              pos <= ScanFrom(at, pos, n)[k].start && at(ScanFrom(at, pos, n)[k].start) == Some(ScanFrom(at, pos, n)[k])
    decreases n - pos
  {
    SearchFromSpec(at, pos, n);
    match SearchFrom(at, pos, n)
    case None =>
    case Some(m) =>
      var rest := ScanFrom(at, m.End(), n);
      ScanFromReported(at, m.End(), n);
      var ms := ScanFrom(at, pos, n);
      assert ms == [m] + rest;
      assert at(m.start) == Some(m);
      assert pos <= m.start < m.End();
      forall k | 0 < k < |ms| ensures pos <= ms[k].start && at(ms[k].start) == Some(ms[k]) {
        assert ms[k] == rest[k - 1];
        assert m.End() <= rest[k - 1].start && at(rest[k - 1].start) == Some(rest[k - 1]);
      }
  }

  /** The matches `ScanFrom` yields come in increasing order and do not overlap. */
  lemma {:induction false} ScanFromOrdered(at: nat -> Option<Match>, pos: nat, n: nat)
    requires ReportsWithin(at, n) && pos <= n
    ensures forall j, k :: 0 <= j < k < |ScanFrom(at, pos, n)| ==>
              ScanFrom(at, pos, n)[j].End() <= ScanFrom(at, pos, n)[k].start
    decreases n - pos
  {
    match SearchFrom(at, pos, n)
    case None =>
    case Some(m) =>
      SearchFromSpec(at, pos, n);
      var rest := ScanFrom(at, m.End(), n);
      ScanFromReported(at, m.End(), n);
      ScanFromOrdered(at, m.End(), n);
      var ms := ScanFrom(at, pos, n);
      assert ms == [m] + rest;
      forall j, k | 0 <= j < k < |ms| ensures ms[j].End() <= ms[k].start {
        assert ms[k] == rest[k - 1];
        assert m.End() <= rest[k - 1].start;
        if j > 0 {
          assert ms[j] == rest[j - 1];
        }
      }
  }

  /** `ScanFrom` misses nothing: every start at or after `pos` at which `at` reports a match lies inside a match it yields. */
  lemma {:induction false} ScanFromComplete(at: nat -> Option<Match>, pos: nat, n: nat, s: nat)
    requires ReportsWithin(at, n) && pos <= n
    requires pos <= s && at(s).Some?
    ensures exists k :: 0 <= k < |ScanFrom(at, pos, n)| && ScanFrom(at, pos, n)[k].start <= s < ScanFrom(at, pos, n)[k].End()
    decreases n - pos
  {
    SearchFromSpec(at, pos, n);
    match SearchFrom(at, pos, n)
    case None =>
      assert false;
    case Some(m) =>
      var ms := ScanFrom(at, pos, n);
      assert at(m.start) == Some(m);
      if s < m.End() {
        assert m.start <= s;
        assert ms == [m] + ScanFrom(at, m.End(), n);
        assert ms[0] == m;
      } else {
        var rest := ScanFrom(at, m.End(), n);
        assert ms == [m] + rest;
        ScanFromComplete(at, m.End(), n, s);
        var k :| 0 <= k < |rest| && rest[k].start <= s < rest[k].End();
        assert ms[k + 1] == rest[k];
      }
  }

  /** `re.finditer(pattern, t)`: the matches in the order found, each search resuming where the previous match ended. */
  function FindAll(t: string): seq<Match> {
    MatchAtBounds(t);
    ScanFrom((s: nat) => MatchAt(t, s), 0, |t|)
  }

  /**
   * Every match `finditer` yields is the one the engine reports at its start,
   * so a match of the pattern that outranks the others there; the matches
   * come in increasing order and do not overlap.
   */
  lemma FindAllReported(t: string)
    ensures var ms := FindAll(t);
            forall k :: 0 <= k < |ms| ==> MatchAt(t, ms[k].start) == Some(ms[k]) && IsMatch(t, ms[k])
    ensures var ms := FindAll(t);
            forall j, k :: 0 <= j < k < |ms| ==> ms[j].End() <= ms[k].start
  {
    MatchAtBounds(t);
    var at := (s: nat) => MatchAt(t, s);
    ScanFromReported(at, 0, |t|);
    ScanFromOrdered(at, 0, |t|);
    var ms := FindAll(t);
    assert ms == ScanFrom(at, 0, |t|);
    forall k | 0 <= k < |ms| ensures MatchAt(t, ms[k].start) == Some(ms[k]) && IsMatch(t, ms[k]) {
      assert at(ms[k].start) == Some(ms[k]);
      MatchAtSpec(t, ms[k].start);
    }
  }

  /** Every match `finditer` yields lies within `t`. */
  lemma FindAllInBounds(t: string)
    ensures forall k :: 0 <= k < |FindAll(t)| ==> InBounds(t, FindAll(t)[k])
  {
    FindAllReported(t);
  }

  /**
   * `finditer` misses nothing: wherever the pattern can match, that start lies
   * inside a match it yields (a match that overlaps an earlier one is skipped).
   */
  lemma FindAllComplete(t: string, n: Match)
    requires IsMatch(t, n)
    ensures exists k :: 0 <= k < |FindAll(t)| && FindAll(t)[k].start <= n.start < FindAll(t)[k].End()
  {
    MatchAtSpec(t, n.start);
    MatchAtBounds(t);
    var at := (s: nat) => MatchAt(t, s);
    assert FindAll(t) == ScanFrom(at, 0, |t|);
    assert at(n.start).Some?;
    ScanFromComplete(at, 0, |t|, n.start);
  }
}
