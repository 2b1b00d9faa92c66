/**
 * The string primitives app.py relies on, written out with Python's meaning:
 * `str.isspace`, `str.strip`, `str.replace`, `in` on strings, `str.split()`,
 * `str.upper()` on a letter and `str(n)` for a natural number.
 */
module Text {
  import opened Wrappers

  /** U+00A0, the no-break space. */
  const NoBreakSpace: char := '\U{a0}'

  /** The characters for which Python's `str.isspace()` holds; `\s` in a `str`
      pattern of the `re` module matches exactly these. */
  predicate IsSpace(c: char) {
    || c == ' '
    || ('\t' <= c <= '\r')
    || ('\U{1c}' <= c <= '\U{1f}')
    || c == '\U{85}' || c == '\U{a0}' || c == '\U{1680}'
    || ('\U{2000}' <= c <= '\U{200a}')
    || c == '\U{2028}' || c == '\U{2029}' || c == '\U{202f}' || c == '\U{205f}' || c == '\U{3000}'
  }

  predicate NoSpace(s: string) {
    forall i :: 0 <= i < |s| ==> !IsSpace(s[i])
  }

  predicate AllSpace(s: string) {
    forall i :: 0 <= i < |s| ==> IsSpace(s[i])
  }

  /** `s.lstrip()`: drop the leading whitespace. */
  function TrimStart(s: string): (r: string)
    ensures |r| <= |s| && (r == [] || !IsSpace(r[0]))
  {
    if s != [] && IsSpace(s[0]) then TrimStart(s[1..]) else s
  }

  /** `lstrip` keeps a suffix and drops only whitespace before it. */
  lemma {:induction false} TrimStartSpec(s: string)
    ensures var r := TrimStart(s); r == s[|s| - |r|..] && AllSpace(s[..|s| - |r|])
    decreases |s|
  {
    if s != [] && IsSpace(s[0]) {
      var t := s[1..];
      TrimStartSpec(t);
      var r := TrimStart(t);
      assert t[|t| - |r|..] == s[|s| - |r|..];
      forall i | 0 <= i < |s| - |r| ensures IsSpace(s[i]) {
        if 0 < i { assert s[i] == t[..|t| - |r|][i - 1]; }
      }
    }
  }

  /** `s.rstrip()`: drop the trailing whitespace. */
  function TrimEnd(s: string): (r: string)
    ensures |r| <= |s| && (r == [] || !IsSpace(r[|r| - 1]))
  {
    if s != [] && IsSpace(s[|s| - 1]) then TrimEnd(s[..|s| - 1]) else s
  }

  /** `rstrip` keeps a prefix and drops only whitespace after it. */
  lemma {:induction false} TrimEndSpec(s: string)
    ensures var r := TrimEnd(s); r == s[..|r|] && AllSpace(s[|r|..])
    decreases |s|
  {
    if s != [] && IsSpace(s[|s| - 1]) {
      var t := s[..|s| - 1];
      TrimEndSpec(t);
      var r := TrimEnd(t);
      assert t[..|r|] == s[..|r|];
      forall i | |r| <= i < |s| ensures IsSpace(s[i]) {
        if i < |s| - 1 { assert s[i] == t[|r|..][i - |r|]; }
      }
    }
  }

  /** `s.strip()`. */
  function Strip(s: string): (r: string)
  {
    TrimEnd(TrimStart(s))
  }

  /** `Strip` removes whitespace at both ends and nothing else. */
  lemma StripSpec(s: string)
    ensures exists a, b :: 0 <= a <= b <= |s| && Strip(s) == s[a..b]
                           && AllSpace(s[..a]) && AllSpace(s[b..])
    ensures Strip(s) == [] || (!IsSpace(Strip(s)[0]) && !IsSpace(Strip(s)[|Strip(s)| - 1]))
  {
    var t := TrimStart(s);
    var a := |s| - |t|;
    var r := TrimEnd(t);
    TrimStartSpec(s);
    TrimEndSpec(t);
    var b := a + |r|;
    DropTake(s, a, |r|);
    DropDrop(s, a, |r|);
    assert Strip(s) == s[a..b] && AllSpace(s[..a]) && AllSpace(s[b..]);
  }

  /** `strip` leaves nothing exactly when the string is all whitespace. */
  lemma StripEmpty(s: string)
    ensures Strip(s) == [] <==> AllSpace(s)
  {
    StripSpec(s);
    var a, b :| 0 <= a <= b <= |s| && Strip(s) == s[a..b] && AllSpace(s[..a]) && AllSpace(s[b..]);
    if Strip(s) == [] {
      forall i | 0 <= i < |s| ensures IsSpace(s[i]) {
        if i < a { assert s[i] == s[..a][i]; } else { assert s[i] == s[b..][i - b]; }
      }
    } else {
      assert s[a] == Strip(s)[0];
    }
  }

  /** `k` occurs in `s` starting at position `i`. */
  predicate OccursAt(s: string, k: string, i: int) {
    0 <= i && i + |k| <= |s| && s[i..i + |k|] == k
  }

  /** Python's `k in s`. */
  predicate Contains(s: string, k: string)
    decreases |s|
  {
    |k| <= |s| && (s[..|k|] == k || (s != [] && Contains(s[1..], k)))
  }

  /** Shifting by one character moves an occurrence by one position. */
  lemma OccursShift(t: string, k: string, i: int)
    requires t != [] && i >= 0
    ensures OccursAt(t[1..], k, i) <==> OccursAt(t, k, i + 1)
  {
    if 0 <= i && i + 1 + |k| <= |t| {
      assert t[1..][i..i + |k|] == t[i + 1..i + 1 + |k|];
    }
  }

  /** `k in s` holds exactly when `k` occurs somewhere in `s`. */
  lemma {:induction false} ContainsSpec(s: string, k: string)
    ensures Contains(s, k) <==> exists i :: OccursAt(s, k, i)
    decreases |s|
  {
    if |k| > |s| {
      assert forall i :: !OccursAt(s, k, i);
    } else if s[..|k|] == k {
      assert OccursAt(s, k, 0);
    } else {
      assert k != [];
      ContainsSpec(s[1..], k);
      if Contains(s[1..], k) {
        var i :| OccursAt(s[1..], k, i);
        OccursShift(s, k, i);
      }
      if i :| OccursAt(s, k, i) {
        assert i != 0;
        OccursShift(s, k, i - 1);
      }
    }
  }

  /**
   * Python's `s.replace(pat, rep)`: every occurrence of `pat`, found left to
   * right and never overlapping, is replaced by `rep`. With an empty `pat`,
   * `rep` is inserted before every character and at the end.
   */
  function Replace(s: string, pat: string, rep: string): string
    decreases |s|
  {
    if pat == [] then
      if s == [] then rep else rep + [s[0]] + Replace(s[1..], pat, rep)
    else if |s| < |pat| then s
    else if s[..|pat|] == pat then rep + Replace(s[|pat|..], pat, rep)
    else [s[0]] + Replace(s[1..], pat, rep)
  }

  /** Replacing a pattern that does not occur leaves the string as it is. */
  lemma {:induction false} ReplaceAbsent(s: string, pat: string, rep: string)
    requires !Contains(s, pat)
    ensures Replace(s, pat, rep) == s
    decreases |s|
  {
    if |s| >= |pat| {
      ReplaceAbsent(s[1..], pat, rep);
    }
  }

  /** Where the pattern does not start, the first character is copied. */
  lemma ReplaceHeadNoMatch(t: string, pat: string, rep: string)
    requires pat != [] && t != [] && !OccursAt(t, pat, 0)
    ensures Replace(t, pat, rep) == [t[0]] + Replace(t[1..], pat, rep)
  {
    if |t| >= |pat| {
      assert t[..|pat|] != pat;
    }
  }

  /** Positions before the first occurrence are copied unchanged. */
  lemma {:induction false} ReplaceSkipsPrefix(s: string, pat: string, rep: string, i: nat)
    requires pat != [] && i <= |s|
    requires forall j :: 0 <= j < i ==> !OccursAt(s, pat, j)
    ensures Replace(s, pat, rep) == s[..i] + Replace(s[i..], pat, rep)
    decreases i
  {
    if i > 0 {
      var t := s[1..];
      forall j | 0 <= j < i - 1
        ensures !OccursAt(t, pat, j)
      {
        OccursShift(s, pat, j);
      }
      ReplaceSkipsPrefix(t, pat, rep, i - 1);
      ReplaceHeadNoMatch(s, pat, rep);
      DropDrop(s, 1, i - 1);
      TakeCons(s, i);
      AppendChain(Replace(s, pat, rep), [s[0]], Replace(t, pat, rep), t[..i - 1], Replace(t[i - 1..], pat, rep));
    }
  }

  /** Where the pattern starts, it is replaced and the scan resumes after it. */
  lemma ReplaceHeadMatch(t: string, pat: string, rep: string)
    requires pat != [] && OccursAt(t, pat, 0)
    ensures Replace(t, pat, rep) == rep + Replace(t[|pat|..], pat, rep)
  {
    assert t[..|pat|] == pat;
  }

  /** The leftmost occurrence is the one replaced, and the scan resumes after it. */
  lemma ReplaceFirst(s: string, pat: string, rep: string, i: nat)
    requires pat != [] && OccursAt(s, pat, i)
    requires forall j :: 0 <= j < i ==> !OccursAt(s, pat, j)
    ensures Replace(s, pat, rep) == s[..i] + rep + Replace(s[i + |pat|..], pat, rep)
  {
    var rest := s[i..];
    ReplaceSkipsPrefix(s, pat, rep, i);
    OccursAtDrop(s, pat, i);
    ReplaceHeadMatch(rest, pat, rep);
    DropDrop(s, i, |pat|);
    AppendChain(Replace(s, pat, rep), s[..i], Replace(rest, pat, rep), rep, Replace(rest[|pat|..], pat, rep));
  }

  /** An occurrence at `i` is an occurrence at 0 once the first `i` characters are dropped. */
  lemma OccursAtDrop(s: string, k: string, i: nat)
    requires OccursAt(s, k, i)
    ensures OccursAt(s[i..], k, 0)
  {
    assert s[i..][..|k|] == s[i..i + |k|];
  }

  /** Dropping twice is dropping the sum. */
  lemma DropDrop<T>(s: seq<T>, i: nat, k: nat)
    requires i + k <= |s|
    ensures s[i..][k..] == s[i + k..]
  {
  }

  /** Taking after dropping is a slice. */
  lemma DropTake<T>(s: seq<T>, i: nat, k: nat)
    requires i + k <= |s|
    ensures s[i..][..k] == s[i..i + k]
  {
  }

  /** A non-empty prefix is its first element and the rest of it. */
  lemma TakeCons<T>(s: seq<T>, i: nat)
    requires 0 < i <= |s|
    ensures s[..i] == [s[0]] + s[1..][..i - 1]
  {
  }

  /** Rewriting the tail of a concatenation. */
  lemma AppendChain<T>(a: seq<T>, p: seq<T>, x: seq<T>, q: seq<T>, z: seq<T>)
    requires a == p + x && x == q + z
    ensures a == p + q + z
  {
  }

  /** Replacing one character by another is a character-wise map. */
  lemma {:induction false} ReplaceChar(s: string, c: char, d: char)
    ensures var r := Replace(s, [c], [d]);
            |r| == |s| && forall i :: 0 <= i < |s| ==> r[i] == if s[i] == c then d else s[i]
    decreases |s|
  {
    if s != [] {
      ReplaceChar(s[1..], c, d);
      if s[..1] == [c] {
        assert s[0] == c;
        assert s[1..] == s[|[c]|..];
      } else {
        assert s[0] != c;
      }
    }
  }

  /** `c.upper()` for the ASCII letters; every other character is kept. */
  function Upper(c: char): (r: char)
  {
    if 'a' <= c <= 'z' then (c as int - 'a' as int + 'A' as int) as char else c
  }

  /** `upper` maps exactly the lower-case ASCII letters onto the upper-case
      ones and leaves every other character as it is. */
  lemma UpperSpec(c: char)
    ensures 'A' <= Upper(c) <= 'Z' <==> ('A' <= c <= 'Z' || 'a' <= c <= 'z')
    ensures Upper(Upper(c)) == Upper(c)
    ensures ('a' <= c <= 'z') ==> Upper(c) as int == c as int - 32
    ensures !('a' <= c <= 'z') ==> Upper(c) == c
  {
  }

  /** `s.upper()`, character by character (see `Upper`). */
  function UpperString(s: string): (r: string)
    ensures |r| == |s|
  {
    if s == [] then [] else [Upper(s[0])] + UpperString(s[1..])
  }

  /** Each character of `s.upper()` is the upper case of the one of `s`. */
  lemma {:induction false} UpperStringAt(s: string, i: nat)
    requires i < |s|
    ensures UpperString(s)[i] == Upper(s[i])
  {
    if i > 0 {
      UpperStringAt(s[1..], i - 1);
    }
  }

  /** The longest prefix of `s` that holds no whitespace. */
  function TakeWord(s: string): (r: string)
    ensures |r| <= |s| && r == s[..|r|] && NoSpace(r)
    ensures |r| == |s| || IsSpace(s[|r|])
  {
    if s == [] || IsSpace(s[0]) then [] else [s[0]] + TakeWord(s[1..])
  }

  /** Python's `s.split()`: the maximal runs of non-whitespace characters. */
  function Words(s: string): (r: seq<string>)
    ensures forall j :: 0 <= j < |r| ==> r[j] != [] && NoSpace(r[j])
    decreases |s|
  {
    var t := TrimStart(s);
    if t == [] then []
    else
      var w := TakeWord(t);
      [w] + Words(t[|w|..])
  }

  /** `s.split()[0]`, or `None` where Python raises `IndexError`. */
  function FirstToken(s: string): Option<string>
  {
    var ws := Words(s);
    if ws == [] then None else Some(ws[0])
  }

  /** A string that starts with a word followed by whitespace has that word as its first token. */
  lemma FirstTokenOf(w: string, rest: string)
    requires w != [] && NoSpace(w)
    requires rest == [] || IsSpace(rest[0])
    ensures FirstToken(w + rest) == Some(w)
  {
    var s := w + rest;
    assert TrimStart(s) == s;
    TakeWordOf(w, rest);
  }

  lemma {:induction false} TakeWordOf(w: string, rest: string)
    requires NoSpace(w)
    requires rest == [] || IsSpace(rest[0])
    ensures TakeWord(w + rest) == w
    decreases |w|
  {
    if w != [] {
      TakeWordOf(w[1..], rest);
      assert (w + rest)[1..] == w[1..] + rest;
    } else {
      assert w + rest == rest;
    }
  }

  /** The first token is `None` exactly for a blank string. */
  lemma FirstTokenBlank(s: string)
    ensures FirstToken(s).None? <==> AllSpace(s)
  {
    var t := TrimStart(s);
    TrimStartSpec(s);
    if t == [] {
      assert s == s[..|s| - |t|];
    } else {
      assert !IsSpace(s[|s| - |t|]);
    }
  }

  /** Python's `"".join(runs)`. */
  function Concat(runs: seq<string>): (r: string)
    ensures runs == [] ==> r == []
  {
    if runs == [] then [] else runs[0] + Concat(runs[1..])
  }

  /** The joined text is empty exactly when every run is empty. */
  lemma {:induction false} ConcatEmpty(runs: seq<string>)
    ensures Concat(runs) == [] <==> forall j :: 0 <= j < |runs| ==> runs[j] == []
    decreases |runs|
  {
    if runs != [] {
      ConcatEmpty(runs[1..]);
      assert forall j :: 1 <= j < |runs| ==> runs[j] == runs[1..][j - 1];
    }
  }

  predicate IsDigit(c: char) {
    '0' <= c <= '9'
  }

  function DigitChar(d: nat): (c: char)
    requires d < 10
    ensures IsDigit(c) && c as int - '0' as int == d
  {
    ('0' as int + d) as char
  }

  /** `str(n)` for a natural number: its decimal digits, most significant first. */
  function NatToString(n: nat): (r: string)
    ensures r != [] && forall i :: 0 <= i < |r| ==> IsDigit(r[i])
  {
    if n < 10 then [DigitChar(n)] else NatToString(n / 10) + [DigitChar(n % 10)]
  }

  /** The value of a string of decimal digits (`int(s)`). */
  function DecimalValue(s: string): nat
    requires forall i :: 0 <= i < |s| ==> IsDigit(s[i])
  {
    if s == [] then 0
    else
      var d := s[|s| - 1] as int - '0' as int;
      assert IsDigit(s[|s| - 1]);
      10 * DecimalValue(s[..|s| - 1]) + d
  }

  /** `int(str(n)) == n`, and `str(n)` has no leading zero. */
  lemma {:induction false} NatToStringRoundTrip(n: nat)
    ensures DecimalValue(NatToString(n)) == n
    ensures NatToString(n)[0] == '0' ==> n == 0
  {
    if n >= 10 {
      NatToStringRoundTrip(n / 10);
      var s := NatToString(n);
      assert s[..|s| - 1] == NatToString(n / 10);
    }
  }
}
