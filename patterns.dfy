/**
 * The two regular expressions of `detecter_questions` (app.py:39 and app.py:41),
 * each written twice: as the language the pattern describes (`QuestionSplit`,
 * `AnswerSplit`: every way the line can be cut into the pattern's parts) and as
 * a search that visits those cuts in the order Python's backtracking `re`
 * engine tries them, so that the groups it returns are the ones `re` returns.
 *
 * Question pattern `^\s*(\d+(?:\.\d+)*)\s*[-\s–—.]*\s*(.+?)\s*\?$`:
 *   a = end of the leading whitespace, d = end of group 1 (the number),
 *   p = start and q = end of group 2 (the text). The engine prefers the
 *   largest d, then for that d the largest p, then the smallest q.
 * Answer pattern `^([A-D])\s*[-\s–—.]+\s*(.*?)(\{\{checkbox\}\})?$` with
 *   `re.IGNORECASE`: p = start and q = end of group 2, marked = group 3 took
 *   part. The engine prefers the largest p, then the smallest q, and at one q
 *   it tries the marker before going without it.
 */
module Patterns {
  import opened Wrappers
  import opened Text

  /** `[-\s–—.]`, the separator class of both patterns. */
  predicate IsSep(c: char) {
    c == '-' || c == '.' || c == '\U{2013}' || c == '\U{2014}' || IsSpace(c)
  }

  predicate IsDigitOrDot(c: char) {
    IsDigit(c) || c == '.'
  }

  /** `\s`, the class a run of blanks is made of (see `IsSpace`). */
  predicate Blank(c: char) {
    IsSpace(c)
  }

  /** `.` matches every character but a newline. */
  predicate NotNewline(c: char) {
    c != '\n'
  }

  /** Every character of `t[i..j]` satisfies `P`. */
  predicate AllIn(t: string, i: nat, j: nat, P: char -> bool)
    requires i <= j <= |t|
  {
    forall k :: i <= k < j ==> P(t[k])
  }

  /** Length of the longest run of characters from `i` on that satisfy `P`
      (what a greedy `X*` over one character class consumes first). */
  function Span(t: string, i: nat, P: char -> bool): (n: nat)
    requires i <= |t|
    ensures i + n <= |t|
    decreases |t| - i
  {
    if i < |t| && P(t[i]) then 1 + Span(t, i + 1, P) else 0
  }

  /** The run is made of `P` characters and stops at the end or at one that is not. */
  lemma {:induction false} SpanSpec(t: string, i: nat, P: char -> bool)
    requires i <= |t|
    ensures var n := Span(t, i, P); AllIn(t, i, i + n, P) && (i + n == |t| || !P(t[i + n]))
    decreases |t| - i
  {
    if i < |t| && P(t[i]) {
      SpanSpec(t, i + 1, P);
    }
  }

  /** No run of `P` characters starting at `i` reaches past the longest one. */
  lemma {:induction false} SpanBound(t: string, i: nat, j: nat, P: char -> bool)
    requires i <= j <= |t| && AllIn(t, i, j, P)
    ensures j <= i + Span(t, i, P)
    decreases j - i
  {
    if i < j {
      SpanBound(t, i + 1, j, P);
    }
  }

  /** `$` without MULTILINE: at the end, or just before a newline that ends the string. */
  predicate AtEnd(t: string, k: nat) {
    k == |t| || (k + 1 == |t| && t[k] == '\n')
  }

  /** The language of `\d+(?:\.\d+)*`: a digit, then either nothing, or the
      rest of a dotted number, or a dot and a dotted number. */
  predicate IsDottedNumber(s: string)
    decreases |s|
  {
    && s != [] && IsDigit(s[0])
    && (|s| == 1 || IsDottedNumber(s[1..]) || (s[1] == '.' && IsDottedNumber(s[2..])))
  }

  /** A dotted number is made of digits and dots and ends with a digit. */
  lemma {:induction false} DottedNumberChars(s: string)
    requires IsDottedNumber(s)
    ensures forall k :: 0 <= k < |s| ==> IsDigitOrDot(s[k])
    ensures IsDigit(s[|s| - 1])
    decreases |s|
  {
    if |s| > 1 {
      if IsDottedNumber(s[1..]) {
        DottedNumberChars(s[1..]);
        assert forall k :: 1 <= k < |s| ==> s[k] == s[1..][k - 1];
      } else {
        DottedNumberChars(s[2..]);
        assert forall k :: 2 <= k < |s| ==> s[k] == s[2..][k - 2];
      }
    }
  }

  /** Group 1 can span `t[a..d]`. */
  predicate NumberAt(t: string, a: nat, d: nat)
    requires a <= d <= |t|
  {
    IsDottedNumber(t[a..d])
  }

  /** `\s*\?$` matches from `q`. The `\s*` has to take the whole whitespace run,
      since `?` is not whitespace. */
  predicate QuestionTail(t: string, q: nat)
    requires q <= |t|
  {
    var w := Span(t, q, Blank);
    q + w < |t| && t[q + w] == '?' && AtEnd(t, q + w + 1)
  }

  /** One way of matching the whole question pattern against `t`. */
  ghost predicate QuestionSplit(t: string, a: nat, d: nat, p: nat, q: nat) {
    && a < d <= p < q <= |t|
    && AllIn(t, 0, a, Blank)
    && NumberAt(t, a, d)
    && AllIn(t, d, p, IsSep)
    && AllIn(t, p, q, NotNewline)
    && QuestionTail(t, q)
  }

  // ---------------------------------------------------------------------
  // The question pattern. A greedy repeat gives back one character at a time,
  // so its ends are tried from the longest down; a lazy one takes one more
  // character at a time, so its ends are tried from the shortest up.

  /** Where the `?` of `\?$` has to be: the last character, or the one before
      a final newline. */
  function MarkPos(t: string): (r: Option<nat>)
    ensures r.Some? ==> r.value < |t| && t[r.value] == '?' && AtEnd(t, r.value + 1)
  {
    if |t| >= 1 && t[|t| - 1] == '?' then Some(|t| - 1)
    else if |t| >= 2 && t[|t| - 1] == '\n' && t[|t| - 2] == '?' then Some(|t| - 2)
    else None
  }

  /** The start of the run of whitespace that ends at `w`. */
  function SpaceBefore(t: string, w: nat): (s: nat)
    requires w <= |t|
    ensures s <= w
    decreases w
  {
    if w > 0 && IsSpace(t[w - 1]) then SpaceBefore(t, w - 1) else w
  }

  /** The run is whitespace, and no longer whitespace run ends at `w`. */
  lemma {:induction false} SpaceBeforeSpec(t: string, q: nat, w: nat)
    requires q <= w <= |t|
    ensures AllIn(t, SpaceBefore(t, w), w, Blank)
    ensures AllIn(t, q, w, Blank) ==> SpaceBefore(t, w) <= q
    decreases w
  {
    if w > 0 && IsSpace(t[w - 1]) {
      SpaceBeforeSpec(t, if q < w then q else w - 1, w - 1);
    }
  }

  /** The ends of group 2 from which `\s*\?$` matches: from the start of the
      whitespace before the final `?` up to that `?`. */
  predicate TailAt(t: string, q: nat)
    requires q <= |t|
  {
    MarkPos(t).Some? && SpaceBefore(t, MarkPos(t).value) <= q <= MarkPos(t).value
  }

  /** `TailAt` is the language of `\s*\?$`. */
  lemma TailAtIff(t: string, q: nat)
    requires q <= |t|
    ensures TailAt(t, q) <==> QuestionTail(t, q)
  {
    var w := q + Span(t, q, Blank);
    SpanSpec(t, q, Blank);
    if QuestionTail(t, q) {
      assert MarkPos(t) == Some(w);
      SpaceBeforeSpec(t, q, w);
    }
    if TailAt(t, q) {
      var m := MarkPos(t).value;
      SpaceBeforeSpec(t, q, m);
      SpanBound(t, q, m, Blank);
      assert !IsSpace(t[m]);
    }
  }

  /** The lazy `(.+?)\s*\?$` started at `p`: the end of group 2, if any. Taking
      one more character at a time, group 2 stops at the first end from which
      `\s*\?$` matches, unless a newline comes first (`LazyQuestionTextSpec`). */
  function LazyQuestionText(t: string, p: nat): (r: Option<nat>)
    requires p <= |t|
    ensures r.Some? ==> p < r.value <= |t|
  {
    if MarkPos(t).Some? then
      var w := MarkPos(t).value;
      var s := SpaceBefore(t, w);
      var q := if s <= p then p + 1 else s;
      if q <= w && q <= p + Span(t, p, NotNewline) then Some(q) else None
    else None
  }

  /** Group 2 started at `p` ends at the first possible end, over one line, and
      has none when no end works. */
  lemma LazyQuestionTextSpec(t: string, p: nat)
    requires p <= |t|
    ensures var r := LazyQuestionText(t, p);
            r.Some? ==> AllIn(t, p, r.value, NotNewline) && QuestionTail(t, r.value)
                        && forall e :: p < e < r.value ==> !QuestionTail(t, e)
    ensures LazyQuestionText(t, p).None? ==>
              forall e :: p < e <= |t| && AllIn(t, p, e, NotNewline) ==> !QuestionTail(t, e)
  {
    var r := LazyQuestionText(t, p);
    SpanSpec(t, p, NotNewline);
    if r.Some? {
      assert AllIn(t, p, r.value, NotNewline) by {
        forall k | p <= k < r.value ensures NotNewline(t[k]) {
          assert AllIn(t, p, p + Span(t, p, NotNewline), NotNewline);
        }
      }
      TailAtIff(t, r.value);
      forall e | p < e < r.value ensures !QuestionTail(t, e) {
        TailAtIff(t, e);
      }
    } else {
      forall e | p < e <= |t| && AllIn(t, p, e, NotNewline) ensures !QuestionTail(t, e) {
        TailAtIff(t, e);
        SpanBound(t, p, e, NotNewline);
      }
    }
  }

  /** The separator `\s*[-\s–—.]*\s*` after the number: its possible ends are
      tried from `p` down to `d`; the first one from which group 2 matches wins. */
  function TextStart(t: string, d: nat, p: nat): (r: Option<nat>)
    requires d <= p <= |t|
    ensures r.Some? ==> d <= r.value <= p && LazyQuestionText(t, r.value).Some?
    decreases p
  {
    if LazyQuestionText(t, p).Some? then Some(p)
    else if p == d then None
    else TextStart(t, d, p - 1)
  }

  /** The separator end found is the latest that works. */
  lemma {:induction false} TextStartSpec(t: string, d: nat, p: nat)
    requires d <= p <= |t|
    ensures var r := TextStart(t, d, p);
            r.Some? ==> forall p' :: r.value < p' <= p ==> LazyQuestionText(t, p').None?
    ensures TextStart(t, d, p).None? ==> forall p' :: d <= p' <= p ==> LazyQuestionText(t, p').None?
    decreases p
  {
    if LazyQuestionText(t, p).None? && p > d {
      TextStartSpec(t, d, p - 1);
    }
  }

  /** Group 2 behind a separator that can end anywhere from `d` to `p`: where it
      starts and ends. */
  function SearchText(t: string, d: nat, p: nat): (r: Option<(nat, nat)>)
    requires d <= p <= |t|
    ensures r.Some? ==> d <= r.value.0 <= p && LazyQuestionText(t, r.value.0) == Some(r.value.1)
  {
    match TextStart(t, d, p)
    case Some(p') => Some((p', LazyQuestionText(t, p').value))
    case None => None
  }

  /** The separator end found is the latest that works. */
  lemma SearchTextSpec(t: string, d: nat, p: nat)
    requires d <= p <= |t|
    ensures var r := SearchText(t, d, p);
            r.Some? ==> forall p' :: r.value.0 < p' <= p ==> LazyQuestionText(t, p').None?
    ensures SearchText(t, d, p).None? ==> forall p' :: d <= p' <= p ==> LazyQuestionText(t, p').None?
  {
    TextStartSpec(t, d, p);
  }

  /** Where the separator after a number ending at `d` can end at the latest. */
  function SepEnd(t: string, d: nat): (e: nat)
    requires d <= |t|
    ensures d <= e <= |t|
  {
    d + Span(t, d, IsSep)
  }

  /** After a number ending at `d`, the rest of the pattern matches. */
  function TextAfter(t: string, d: nat): (r: Option<(nat, nat)>)
    requires d <= |t|
  {
    SearchText(t, d, SepEnd(t, d))
  }

  /** Group 1: its possible ends are tried from `d` down to just after `a`; the
      first one that is a dotted number and lets the rest of the pattern match wins. */
  function SearchNumber(t: string, a: nat, d: nat): (r: Option<nat>)
    requires a <= d <= |t|
    ensures r.Some? ==> a < r.value <= d && NumberAt(t, a, r.value) && TextAfter(t, r.value).Some?
    decreases d
  {
    if d == a then None
    else if NumberAt(t, a, d) && TextAfter(t, d).Some? then Some(d)
    else SearchNumber(t, a, d - 1)
  }

  /** The number end found is the latest that works. */
  lemma {:induction false} SearchNumberSpec(t: string, a: nat, d: nat)
    requires a <= d <= |t|
    ensures var r := SearchNumber(t, a, d);
            forall d' :: (if r.Some? then r.value else a) < d' <= d && NumberAt(t, a, d')
                         ==> TextAfter(t, d').None?
    decreases d
  {
    if d > a && !(NumberAt(t, a, d) && TextAfter(t, d).Some?) {
      SearchNumberSpec(t, a, d - 1);
    }
  }

  /** The cut (a, d, p, q) `re.match` settles on for the question pattern. */
  function FindQuestion(t: string): Option<(nat, nat, nat, nat)>
  {
    var a := Span(t, 0, Blank);
    match SearchNumber(t, a, a + Span(t, a, IsDigitOrDot))
    case Some(d) =>
      var pq := TextAfter(t, d).value;
      Some((a, d, pq.0, pq.1))
    case None => None
  }

  /** The two groups of a question line: `num` and `txt` of app.py:56-57. */
  datatype QuestionMatch = QuestionMatch(num: string, txt: string)

  /** `question_pattern.match(t)` with its groups 1 and 2. */
  function MatchQuestion(t: string): Option<QuestionMatch>
  {
    match FindQuestion(t)
    case Some(c) =>
      if c.0 <= c.1 <= c.2 <= c.3 <= |t| then Some(QuestionMatch(t[c.0..c.1], t[c.2..c.3])) else None
    case None => None
  }

  /** What the search returns is a way of matching the pattern. */
  lemma FindQuestionSound(t: string)
    requires FindQuestion(t).Some?
    ensures var c := FindQuestion(t).value; QuestionSplit(t, c.0, c.1, c.2, c.3)
  {
    var c := FindQuestion(t).value;
    SpanSpec(t, 0, Blank);
    SpanSpec(t, c.1, IsSep);
    LazyQuestionTextSpec(t, c.2);
  }

  /** The search finds a match whenever the pattern matches at all, and the one
      it finds is first in the engine's order: the longest number, then the
      longest separator, then the shortest text. */
  lemma FindQuestionFirst(t: string, a': nat, d': nat, p': nat, q': nat)
    requires QuestionSplit(t, a', d', p', q')
    ensures FindQuestion(t).Some?
    ensures var c := FindQuestion(t).value;
            && c.0 == a' && d' <= c.1
            && (d' == c.1 ==> p' <= c.2 && (p' == c.2 ==> c.3 <= q'))
  {
    LeadingSpace(t, a', d');
    NumberBound(t, a', d');
    TextAfterReaches(t, d', p', q');
    var top := a' + Span(t, a', IsDigitOrDot);
    SearchNumberReaches(t, a', top, d');
    var d := SearchNumber(t, a', top).value;
    FindQuestionIs(t, a', d);
    assert FindQuestion(t).value == (a', d, TextAfter(t, d).value.0, TextAfter(t, d).value.1);
  }

  /** A number end that works is found, or a later one is. */
  lemma SearchNumberReaches(t: string, a: nat, d: nat, d': nat)
    requires a < d' <= d <= |t| && NumberAt(t, a, d') && TextAfter(t, d').Some?
    ensures SearchNumber(t, a, d).Some? && d' <= SearchNumber(t, a, d).value
  {
    SearchNumberSpec(t, a, d);
  }

  /** The cut found, once the leading whitespace and the number end are known. */
  lemma FindQuestionIs(t: string, a: nat, d: nat)
    requires a == Span(t, 0, Blank) && SearchNumber(t, a, a + Span(t, a, IsDigitOrDot)) == Some(d)
    ensures TextAfter(t, d).Some?
    ensures FindQuestion(t) == Some((a, d, TextAfter(t, d).value.0, TextAfter(t, d).value.1))
  {
  }

  /** The leading `\s*` ends where the number starts. */
  lemma LeadingSpace(t: string, a: nat, d: nat)
    requires a < d <= |t| && AllIn(t, 0, a, Blank) && NumberAt(t, a, d)
    ensures Span(t, 0, Blank) == a
  {
    assert t[a] == t[a..d][0];
    SpanSpec(t, 0, Blank);
    SpanBound(t, 0, a, Blank);
  }

  /** A number that starts at `a` ends within the run of digits and dots there. */
  lemma NumberBound(t: string, a: nat, d: nat)
    requires a <= d <= |t| && NumberAt(t, a, d)
    ensures d <= a + Span(t, a, IsDigitOrDot)
  {
    DottedNumberChars(t[a..d]);
    assert AllIn(t, a, d, IsDigitOrDot) by {
      forall k | a <= k < d ensures IsDigitOrDot(t[k]) {
        assert t[k] == t[a..d][k - a];
      }
    }
    SpanBound(t, a, d, IsDigitOrDot);
  }

  /** A cut whose number ends at `d` makes the rest of the pattern match after
      `d`, at a separator end no earlier than the cut's, and at that same end
      with a text no longer than the cut's. */
  lemma TextAfterReaches(t: string, d: nat, p': nat, q': nat)
    requires d <= p' < q' <= |t| && AllIn(t, d, p', IsSep)
    requires AllIn(t, p', q', NotNewline) && QuestionTail(t, q')
    ensures TextAfter(t, d).Some? && p' <= TextAfter(t, d).value.0
    ensures p' == TextAfter(t, d).value.0 ==> TextAfter(t, d).value.1 <= q'
  {
    SpanBound(t, d, p', IsSep);
    SearchTextSpec(t, d, SepEnd(t, d));
    LazyTextReaches(t, p', q');
  }

  /** Group 2 can start at `p'` whenever some cut starts it there, and its lazy
      end is no later than that cut's. */
  lemma LazyTextReaches(t: string, p': nat, q': nat)
    requires p' < q' <= |t| && AllIn(t, p', q', NotNewline) && QuestionTail(t, q')
    ensures LazyQuestionText(t, p').Some? && LazyQuestionText(t, p').value <= q'
  {
    LazyQuestionTextSpec(t, p');
  }

  /** The question pattern matches exactly when the line is in its language. */
  lemma MatchQuestionIff(t: string)
    ensures MatchQuestion(t).Some? <==> exists a, d, p, q :: QuestionSplit(t, a, d, p, q)
  {
    if MatchQuestion(t).Some? {
      FindQuestionSound(t);
      var c := FindQuestion(t).value;
      assert QuestionSplit(t, c.0, c.1, c.2, c.3);
    }
    if a, d, p, q :| QuestionSplit(t, a, d, p, q) {
      FindQuestionFirst(t, a, d, p, q);
    }
  }

  /** On a stripped line, a question starts with its number and ends with `?`;
      the number is a dotted number and the text is one line. */
  lemma QuestionLineShape(t: string)
    requires t != [] && !IsSpace(t[0]) && !IsSpace(t[|t| - 1])
    requires MatchQuestion(t).Some?
    ensures var m := MatchQuestion(t).value;
            && IsDottedNumber(m.num) && |m.num| < |t| && t[..|m.num|] == m.num
            && m.txt != [] && (forall k :: 0 <= k < |m.txt| ==> m.txt[k] != '\n')
            && t[|t| - 1] == '?'
  {
    FindQuestionSound(t);
    var c := FindQuestion(t).value;
    assert c.0 == 0;
    QuestionEndsWithMark(t, c.3);
    assert forall k :: 0 <= k < |t[c.2..c.3]| ==> t[c.2..c.3][k] == t[c.2 + k];
  }

  /** On a line that does not end in whitespace, `\s*\?$` can only match a final `?`. */
  lemma QuestionEndsWithMark(t: string, q: nat)
    requires q <= |t| && QuestionTail(t, q) && !IsSpace(t[|t| - 1])
    ensures t[|t| - 1] == '?'
  {
  }

  /** The literal `\{\{checkbox\}\}` of the answer pattern. */
  const Marker: string := "{{checkbox}}"

  /** Under `re.IGNORECASE` a letter of the pattern also matches its upper-case
      form, and `k` also matches KELVIN SIGN (U+212A), whose lower case it is. */
  predicate FoldMatch(c: char, l: char) {
    c == l || ('a' <= l <= 'z' && c == Upper(l)) || (l == 'k' && c == '\U{212a}')
  }

  /** Group 3, the checkbox marker, matches at `q`. */
  predicate MarkerAt(t: string, q: nat) {
    q + |Marker| <= |t| && forall k :: 0 <= k < |Marker| ==> FoldMatch(t[q + k], Marker[k])
  }

  /** `[A-D]` under `re.IGNORECASE`. */
  predicate IsAnswerLetter(c: char) {
    'A' <= c <= 'D' || 'a' <= c <= 'd'
  }

  /** `(\{\{checkbox\}\})?$` matches from `e`, with or without the marker. */
  predicate AnswerEnd(t: string, e: nat, marked: bool) {
    if marked then MarkerAt(t, e) && AtEnd(t, e + |Marker|) else AtEnd(t, e)
  }

  /** One way of matching the whole answer pattern against `t`. */
  ghost predicate AnswerSplit(t: string, p: nat, q: nat, marked: bool) {
    && 1 < p <= q <= |t|
    && IsAnswerLetter(t[0])
    && AllIn(t, 1, p, IsSep)
    && AllIn(t, p, q, NotNewline)
    && AnswerEnd(t, q, marked)
  }

  /** The lazy `(.*?)` of the answer pattern resumed at `q`: the first end, from
      `q` up, from which `(\{\{checkbox\}\})?$` matches with or without the
      marker; `.` stops at a newline. */
  function AnswerTextEnd(t: string, q: nat): (r: Option<nat>)
    requires q <= |t|
    ensures r.Some? ==> q <= r.value <= |t| && (AnswerEnd(t, r.value, true) || AnswerEnd(t, r.value, false))
    decreases |t| - q
  {
    if AnswerEnd(t, q, true) || AnswerEnd(t, q, false) then Some(q)
    else if q < |t| && t[q] != '\n' then AnswerTextEnd(t, q + 1)
    else None
  }

  /** The end found is the shortest, over text without a newline; with none
      found, no end over text without a newline works. */
  lemma {:induction false} AnswerTextEndSpec(t: string, p: nat, q: nat)
    requires p <= q <= |t| && AllIn(t, p, q, NotNewline)
    ensures var r := AnswerTextEnd(t, q);
            r.Some? ==> AllIn(t, p, r.value, NotNewline)
                        && forall e :: q <= e < r.value ==> !AnswerEnd(t, e, true) && !AnswerEnd(t, e, false)
    ensures AnswerTextEnd(t, q).None? ==>
              forall e :: q <= e <= |t| && AllIn(t, p, e, NotNewline) ==> !AnswerEnd(t, e, true) && !AnswerEnd(t, e, false)
    decreases |t| - q
  {
    if !AnswerEnd(t, q, true) && !AnswerEnd(t, q, false) && q < |t| && t[q] != '\n' {
      AnswerTextEndSpec(t, p, q + 1);
    }
  }

  /** Group 2 and group 3 of the answer pattern resumed at `q`; at the end found,
      the greedy `(...)?` takes the marker when it can. */
  function LazyAnswer(t: string, q: nat): (r: Option<(nat, bool)>)
    requires q <= |t|
    ensures r.Some? ==> q <= r.value.0 <= |t| && AnswerEnd(t, r.value.0, r.value.1)
                        && (!r.value.1 ==> !AnswerEnd(t, r.value.0, true))
  {
    match AnswerTextEnd(t, q)
    case Some(e) => Some((e, AnswerEnd(t, e, true)))
    case None => None
  }

  /** The end found is the first one, over text without a newline; with no end
      found, none is possible. */
  lemma LazyAnswerSpec(t: string, p: nat, q: nat)
    requires p <= q <= |t| && AllIn(t, p, q, NotNewline)
    ensures var r := LazyAnswer(t, q);
            r.Some? ==> AllIn(t, p, r.value.0, NotNewline)
                        && forall e :: q <= e < r.value.0 ==> !AnswerEnd(t, e, true) && !AnswerEnd(t, e, false)
    ensures LazyAnswer(t, q).None? ==>
              forall e :: q <= e <= |t| && AllIn(t, p, e, NotNewline) ==> !AnswerEnd(t, e, true) && !AnswerEnd(t, e, false)
  {
    AnswerTextEndSpec(t, p, q);
  }

  /** The cut (p, q, marked) `re.match` settles on for the answer pattern. The
      separator run is taken whole: a shorter one cannot help, as shown in
      `FindAnswerFirst`. */
  function FindAnswer(t: string): Option<(nat, nat, bool)>
  {
    if |t| < 2 || !IsAnswerLetter(t[0]) then None
    else
      var p := 1 + Span(t, 1, IsSep);
      if p == 1 then None
      else
        match LazyAnswer(t, p)
        case Some(e) => Some((p, e.0, e.1))
        case None => None
  }

  /** The three groups of an answer line, as `re` returns them. */
  datatype AnswerMatch = AnswerMatch(letter: char, txt: string, marked: bool)

  /** `answer_pattern.match(t)` with its groups 1, 2 and whether group 3 matched. */
  function MatchAnswer(t: string): Option<AnswerMatch>
  {
    match FindAnswer(t)
    case Some(c) =>
      if 1 <= c.0 <= c.1 <= |t| then Some(AnswerMatch(t[0], t[c.0..c.1], c.2)) else None
    case None => None
  }

  /** What the search returns is a way of matching the pattern. */
  lemma FindAnswerSound(t: string)
    requires FindAnswer(t).Some?
    ensures var c := FindAnswer(t).value; AnswerSplit(t, c.0, c.1, c.2)
  {
    var p := FindAnswer(t).value.0;
    SpanSpec(t, 1, IsSep);
    LazyAnswerSpec(t, p, p);
  }

  /** The search finds a match whenever the pattern matches at all, and the one
      it finds is first in the engine's order. */
  lemma FindAnswerFirst(t: string, p': nat, q': nat, m': bool)
    requires AnswerSplit(t, p', q', m')
    ensures FindAnswer(t).Some?
    ensures var c := FindAnswer(t).value;
            && p' <= c.0
            && (p' == c.0 ==> c.1 <= q' && (c.1 == q' && m' ==> c.2))
  {
    var p := 1 + Span(t, 1, IsSep);
    SpanSpec(t, 1, IsSep);
    SpanBound(t, 1, p', IsSep);
    LazyAnswerSpec(t, p, p);
    if q' < p {
      AnswerEndInSeparator(t, q', m');
      assert AnswerEnd(t, p, false);
      assert LazyAnswer(t, p).Some?;
    } else {
      assert AllIn(t, p, q', NotNewline);
      assert LazyAnswer(t, p).Some?;
    }
  }

  /** An end of the answer pattern inside the separator run can only be the
      final newline, without the marker. */
  lemma AnswerEndInSeparator(t: string, q: nat, m: bool)
    requires q < |t| && IsSep(t[q]) && AnswerEnd(t, q, m)
    ensures !m && q + 1 == |t|
  {
    MarkerHead(t, q, m);
  }

  /** The marker starts with a brace, which no case folding changes. */
  lemma MarkerHead(t: string, q: nat, m: bool)
    requires AnswerEnd(t, q, m)
    ensures m ==> t[q] == '{'
  {
    if m {
      assert FoldMatch(t[q + 0], Marker[0]);
    }
  }

  /** The answer pattern matches exactly when the line is in its language. */
  lemma MatchAnswerIff(t: string)
    ensures MatchAnswer(t).Some? <==> exists p, q, m :: AnswerSplit(t, p, q, m)
  {
    if MatchAnswer(t).Some? {
      FindAnswerSound(t);
      var c := FindAnswer(t).value;
      assert AnswerSplit(t, c.0, c.1, c.2);
    }
    if p, q, m :| AnswerSplit(t, p, q, m) {
      FindAnswerFirst(t, p, q, m);
    }
  }

  /** Group 1 is the first character, a letter from A to D in either case. */
  lemma AnswerLetter(t: string)
    requires MatchAnswer(t).Some?
    ensures var m := MatchAnswer(t).value;
            m.letter == t[0] && 'A' <= Upper(m.letter) <= 'D'
  {
  }

  /** On a line that does not end in a newline, group 3 takes part exactly when
      the line ends with the marker (in any case), and group 2 then stops right
      before that marker. */
  lemma AnswerMarkedIff(t: string)
    requires MatchAnswer(t).Some? && t[|t| - 1] != '\n'
    ensures var m := MatchAnswer(t).value;
            m.marked <==> (|t| >= |Marker| && MarkerAt(t, |t| - |Marker|))
    ensures var m := MatchAnswer(t).value;
            m.marked ==> t == [t[0]] + t[1..|t| - |Marker| - |m.txt|] + m.txt + t[|t| - |Marker|..]
  {
    var c := FindAnswer(t).value;
    FindAnswerSound(t);
    LazyAnswerSpec(t, c.0, c.0);
    if |t| >= |Marker| && MarkerAt(t, |t| - |Marker|) {
      var e := |t| - |Marker|;
      assert FoldMatch(t[e + 0], Marker[0]);
      assert t[e] == '{';
      assert AnswerEnd(t, e, true);
    }
    if c.2 {
      assert c.1 + |Marker| == |t|;
      assert t == [t[0]] + t[1..c.0] + t[c.0..c.1] + t[c.1..];
    }
  }
}
