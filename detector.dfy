/**
 * `detecter_questions` (app.py:34-94): one pass over the paragraphs of the
 * template that opens a question at every question line and attaches every
 * later answer line to the question opened last, followed by a filter that
 * keeps the questions with a marked option and at least two options.
 */
module Detector {
  import opened Wrappers
  import opened Text
  import opened Patterns

  /** One option of a question, as the dictionary built at app.py:74-80. */
  datatype Answer = Answer(index: nat, letter: char, text: string, correct: bool, originalText: string)

  /** One question, as the dictionary built at app.py:58-64; `answers` is its
      `reponses` list and `correctIdx` its `correct_idx`. */
  datatype Question = Question(index: nat, text: string, answers: seq<Answer>,
                               correctIdx: Option<nat>, originalText: string)

  const EnDash: char := '\U{2013}'
  const EmDash: char := '\U{2014}'

  /** The clean-up of a paragraph's text before it is matched (app.py:44-47):
      `strip()`, then the three one-character replacements, which together act
      character by character (`NormalizeIsReplace`). */
  function Normalize(raw: string): string
  {
    MapNormal(Strip(raw))
  }

  /** What the three replacements do to one character. */
  function NormalChar(c: char): char
  {
    if c == NoBreakSpace then ' ' else if c == EnDash || c == EmDash then '-' else c
  }

  /** `NormalChar` applied to every character. */
  function MapNormal(s: string): (r: string)
    ensures |r| == |s|
  {
    if s == [] then [] else [NormalChar(s[0])] + MapNormal(s[1..])
  }

  lemma {:induction false} MapNormalAt(s: string)
    ensures forall i :: 0 <= i < |s| ==> MapNormal(s)[i] == NormalChar(s[i])
    decreases |s|
  {
    if s != [] {
      MapNormalAt(s[1..]);
      forall i | 0 < i < |s| ensures MapNormal(s)[i] == NormalChar(s[i]) {
        assert MapNormal(s)[i] == MapNormal(s[1..])[i - 1];
        assert s[i] == s[1..][i - 1];
      }
    }
  }

  /** The model's clean-up is the chain of `str.replace` calls at app.py:44-47. */
  lemma NormalizeIsReplace(raw: string)
    ensures Normalize(raw) == Replace(Replace(Replace(Strip(raw), [NoBreakSpace], " "), [EnDash], "-"), [EmDash], "-")
  {
    var s := Strip(raw);
    var s1 := Replace(s, [NoBreakSpace], " ");
    var s2 := Replace(s1, [EnDash], "-");
    var s3 := Replace(s2, [EmDash], "-");
    ReplaceChar(s, NoBreakSpace, ' ');
    ReplaceChar(s1, EnDash, '-');
    ReplaceChar(s2, EmDash, '-');
    MapNormalAt(s);
    assert Normalize(raw) == s3 by {
      forall i | 0 <= i < |s| ensures Normalize(raw)[i] == s3[i] {
        assert s3[i] == NormalChar(s[i]);
      }
    }
  }

  /** The clean-up is empty exactly for a blank paragraph. */
  lemma NormalizeBlank(raw: string)
    ensures Normalize(raw) == [] <==> AllSpace(raw)
  {
    StripEmpty(raw);
  }

  /** The cleaned-up text neither starts nor ends with whitespace. */
  lemma NormalizeEnds(raw: string)
    ensures var t := Normalize(raw);
            t != [] ==> !IsSpace(t[0]) && !IsSpace(t[|t| - 1])
  {
    MapNormalAt(Strip(raw));
    StripSpec(raw);
  }

  /** The clean-up strips the paragraph and then maps it character by character;
      it is empty exactly for a blank paragraph, never starts or ends with
      whitespace, and leaves no no-break space or long dash behind. */
  lemma NormalizeSpec(raw: string)
    ensures var s, t := Strip(raw), Normalize(raw);
            |t| == |s| && forall i :: 0 <= i < |s| ==> t[i] == NormalChar(s[i])
    ensures Normalize(raw) == [] <==> AllSpace(raw)
    ensures var t := Normalize(raw);
            t != [] ==> !IsSpace(t[0]) && !IsSpace(t[|t| - 1])
    ensures var t := Normalize(raw);
            forall i :: 0 <= i < |t| ==> t[i] != NoBreakSpace && t[i] != EnDash && t[i] != EmDash
  {
    MapNormalAt(Strip(raw));
    NormalizeBlank(raw);
    NormalizeEnds(raw);
  }

  /** The text stored for a question: `f"{num} - {txt}?"` (app.py:60). */
  function QuestionText(m: QuestionMatch): string
  {
    m.num + " - " + m.txt + "?"
  }

  /** The question a question line opens (app.py:58-64). */
  function NewQuestion(i: nat, texte: string, m: QuestionMatch): Question
  {
    Question(i, QuestionText(m), [], None, texte)
  }

  /** The option an answer line yields (app.py:71-80). */
  function NewAnswer(i: nat, texte: string, m: AnswerMatch): Answer
  {
    Answer(i, Upper(m.letter), Strip(m.txt), m.marked, texte)
  }

  /** The position of the last marked option, `None` when no option is marked. */
  function LastMarked(answers: seq<Answer>): (r: Option<nat>)
    ensures r.Some? ==> r.value < |answers| && answers[r.value].correct
                        && forall j :: r.value < j < |answers| ==> !answers[j].correct
    ensures r.None? ==> forall j :: 0 <= j < |answers| ==> !answers[j].correct
  {
    if answers == [] then None
    else if answers[|answers| - 1].correct then Some(|answers| - 1)
    else LastMarked(answers[..|answers| - 1])
  }

  /** Appending an option to the open question, and moving `correct_idx` to
      it when it is marked (app.py:74-82). */
  function Attach(q: Question, a: Answer): Question
  {
    var reps := q.answers + [a];
    q.(answers := reps, correctIdx := if a.correct then Some(|reps| - 1) else q.correctIdx)
  }

  /** What the loop body makes of one paragraph: skipped because blank, a
      question line, an answer line (the question pattern is tried first), or
      anything else. */
  datatype Line = Skipped | QuestionLine(texte: string, q: QuestionMatch)
                | AnswerLine(texte: string, a: AnswerMatch) | OtherLine

  /** The tests of app.py:48-69 on the cleaned-up text, in their order. */
  function Classify(texte: string): Line
  {
    if texte == [] then Skipped
    else
      match MatchQuestion(texte)
      case Some(m) => QuestionLine(texte, m)
      case None =>
        match MatchAnswer(texte)
        case Some(m) => AnswerLine(texte, m)
        case None => OtherLine
  }

  /** The classification of a paragraph, in terms of its raw text: blank lines
      are skipped, the question pattern wins over the answer pattern, and each
      kind carries the cleaned-up text and the groups of its match. */
  lemma ClassifySpec(raw: string)
    ensures var t, l := Normalize(raw), Classify(Normalize(raw));
            && (l.Skipped? <==> AllSpace(raw))
            && (l.QuestionLine? <==> t != [] && MatchQuestion(t).Some?)
            && (l.AnswerLine? <==> t != [] && MatchQuestion(t).None? && MatchAnswer(t).Some?)
            && (l.QuestionLine? ==> l.texte == t && MatchQuestion(t) == Some(l.q))
            && (l.AnswerLine? ==> l.texte == t && MatchAnswer(t) == Some(l.a))
  {
    NormalizeBlank(raw);
  }

  /** The paragraphs as the loop classifies them. */
  function Lines(paras: seq<string>): (r: seq<Line>)
    ensures |r| == |paras|
  {
    if paras == [] then [] else Lines(paras[..|paras| - 1]) + [Classify(Normalize(paras[|paras| - 1]))]
  }

  /** Line `i` is the classification of paragraph `i`. */
  lemma {:induction false} LinesAt(paras: seq<string>, i: nat)
    requires i < |paras|
    ensures Lines(paras)[i] == Classify(Normalize(paras[i]))
  {
    if i < |paras| - 1 {
      var init := paras[..|paras| - 1];
      LinesAt(init, i);
      assert init[i] == paras[i];
    }
  }

  /** One turn of the loop at app.py:43-82 on paragraph `i`. `qs` is the
      `questions` list; the open `current_question` is its last element, since
      every question is appended at the moment it is opened. */
  function Step(qs: seq<Question>, i: nat, line: Line): seq<Question>
  {
    match line
    case QuestionLine(t, m) => qs + [NewQuestion(i, t, m)]
    case AnswerLine(t, m) =>
      if qs == [] then qs else qs[..|qs| - 1] + [Attach(qs[|qs| - 1], NewAnswer(i, t, m))]
    case _ => qs
  }

  /** `questions` after the first `k` paragraphs. */
  function ScanUpTo(lines: seq<Line>, k: nat): seq<Question>
    requires k <= |lines|
  {
    if k == 0 then [] else Step(ScanUpTo(lines, k - 1), k - 1, lines[k - 1])
  }

  // ---------------------------------------------------------------------
  // A reference description of the scan, line by line.

  /** The positions of the question lines among the first `k` lines. */
  function QuestionStarts(lines: seq<Line>, k: nat): (r: seq<nat>)
    requires k <= |lines|
    ensures forall j :: 0 <= j < |r| ==> r[j] < k && lines[r[j]].QuestionLine?
    ensures forall j, j' :: 0 <= j < j' < |r| ==> r[j] < r[j']
  {
    if k == 0 then []
    else QuestionStarts(lines, k - 1) + (if lines[k - 1].QuestionLine? then [k - 1] else [])
  }

  /** The option that answer line `i` yields. */
  function AnswerAt(lines: seq<Line>, i: nat): Answer
    requires i < |lines| && lines[i].AnswerLine?
  {
    NewAnswer(i, lines[i].texte, lines[i].a)
  }

  /** The options that the answer lines at positions `lo` to `hi - 1` yield, in order. */
  function AnswersBetween(lines: seq<Line>, lo: nat, hi: nat): (r: seq<Answer>)
    requires hi <= |lines|
    ensures forall j :: 0 <= j < |r| ==> lo <= r[j].index < hi && lines[r[j].index].AnswerLine?
                                          && r[j] == AnswerAt(lines, r[j].index)
    ensures forall j, j' :: 0 <= j < j' < |r| ==> r[j].index < r[j'].index
    decreases hi
  {
    if hi <= lo then []
    else AnswersBetween(lines, lo, hi - 1) + (if lines[hi - 1].AnswerLine? then [AnswerAt(lines, hi - 1)] else [])
  }

  /** The question opened at line `i` once the lines before `hi` are read, `hi`
      being the next question line or the number of lines read so far. */
  function QuestionAt(lines: seq<Line>, i: nat, hi: nat): Question
    requires i < hi <= |lines| && lines[i].QuestionLine?
  {
    var reps := AnswersBetween(lines, i + 1, hi);
    Question(i, QuestionText(lines[i].q), reps, LastMarked(reps), lines[i].texte)
  }

  /** Where the lines of the `j`-th question stop. */
  function NextStart(starts: seq<nat>, j: nat, k: nat): nat
    requires j < |starts|
  {
    if j + 1 < |starts| then starts[j + 1] else k
  }

  /** The question lines `starts` lie among the first `k` lines, each
      question's lines running up to the next one. */
  predicate StartsFit(lines: seq<Line>, starts: seq<nat>, k: nat)
  {
    && k <= |lines|
    && forall j :: 0 <= j < |starts| ==> starts[j] < NextStart(starts, j, k) <= k && lines[starts[j]].QuestionLine?
  }

  /** The positions of the question lines fit. */
  lemma StartsFitHold(lines: seq<Line>, k: nat)
    requires k <= |lines|
    ensures StartsFit(lines, QuestionStarts(lines, k), k)
  {
  }

  /** What `questions` holds after `k` lines, described without the loop: one
      question per question line, each with the answer lines up to the next one. */
  function Explained(lines: seq<Line>, k: nat): seq<Question>
    requires k <= |lines|
  {
    var starts := QuestionStarts(lines, k);
    StartsFitHold(lines, k);
    QuestionsAt(lines, starts, k, |starts|)
  }

  /** The first `n` questions of `Explained`. */
  function QuestionsAt(lines: seq<Line>, starts: seq<nat>, k: nat, n: nat): (r: seq<Question>)
    requires n <= |starts| && StartsFit(lines, starts, k)
    ensures |r| == n
  {
    seq(n, j requires 0 <= j < n => QuestionAt(lines, starts[j], NextStart(starts, j, k)))
  }

  /** A line that adds nothing leaves the reference description as it is. */
  lemma ExplainedIdle(lines: seq<Line>, k: nat)
    requires k < |lines| && !lines[k].QuestionLine?
    requires QuestionStarts(lines, k) == [] || !lines[k].AnswerLine?
    ensures Explained(lines, k + 1) == Explained(lines, k)
  {
    var starts := QuestionStarts(lines, k);
    assert QuestionStarts(lines, k + 1) == starts;
    forall j | 0 <= j < |starts|
      ensures QuestionAt(lines, starts[j], NextStart(starts, j, k + 1))
              == QuestionAt(lines, starts[j], NextStart(starts, j, k))
    {
      if j + 1 == |starts| {
        assert AnswersBetween(lines, starts[j] + 1, k + 1) == AnswersBetween(lines, starts[j] + 1, k);
      }
    }
  }

  /** A question line appends the question it opens to the reference description. */
  lemma ExplainedQuestion(lines: seq<Line>, k: nat)
    requires k < |lines| && lines[k].QuestionLine?
    ensures Explained(lines, k + 1) == Explained(lines, k) + [NewQuestion(k, lines[k].texte, lines[k].q)]
  {
    var starts := QuestionStarts(lines, k);
    var starts' := QuestionStarts(lines, k + 1);
    assert starts' == starts + [k];
    var e, e' := Explained(lines, k), Explained(lines, k + 1);
    forall j | 0 <= j < |starts|
      ensures e'[j] == e[j]
    {
      assert NextStart(starts', j, k + 1) == NextStart(starts, j, k);
    }
    assert e'[|starts|] == QuestionAt(lines, k, k + 1);
    assert AnswersBetween(lines, k + 1, k + 1) == [];
  }

  /** One more answer line inside a question's lines attaches its option. */
  lemma QuestionAtExtend(lines: seq<Line>, i: nat, k: nat)
    requires i < k < |lines| && lines[i].QuestionLine? && lines[k].AnswerLine?
    ensures QuestionAt(lines, i, k + 1) == Attach(QuestionAt(lines, i, k), AnswerAt(lines, k))
  {
    var reps := AnswersBetween(lines, i + 1, k);
    var a := AnswerAt(lines, k);
    assert AnswersBetween(lines, i + 1, k + 1) == reps + [a];
    assert (reps + [a])[..|reps|] == reps;
  }

  /** The questions before the last one do not change with one more line
      that opens no question. */
  lemma ExplainedKeepsEarlier(lines: seq<Line>, k: nat, j: nat)
    requires k < |lines| && QuestionStarts(lines, k + 1) == QuestionStarts(lines, k)
    requires j + 1 < |QuestionStarts(lines, k)|
    ensures Explained(lines, k + 1)[j] == Explained(lines, k)[j]
  {
    var starts := QuestionStarts(lines, k);
    StartsFitHold(lines, k);
    StartsFitHold(lines, k + 1);
    assert NextStart(starts, j, k + 1) == NextStart(starts, j, k);
  }

  /** The last question takes the option of one more answer line. */
  lemma ExplainedLastExtends(lines: seq<Line>, k: nat)
    requires k < |lines| && lines[k].AnswerLine? && QuestionStarts(lines, k) != []
    requires QuestionStarts(lines, k + 1) == QuestionStarts(lines, k)
    ensures var n := |QuestionStarts(lines, k)|;
            Explained(lines, k + 1)[n - 1] == Attach(Explained(lines, k)[n - 1], AnswerAt(lines, k))
  {
    var starts := QuestionStarts(lines, k);
    var n := |starts|;
    StartsFitHold(lines, k);
    var i := starts[n - 1];
    assert NextStart(starts, n - 1, k) == k && NextStart(starts, n - 1, k + 1) == k + 1;
    assert Explained(lines, k)[n - 1] == QuestionAt(lines, i, k);
    assert Explained(lines, k + 1)[n - 1] == QuestionAt(lines, i, k + 1);
    QuestionAtExtend(lines, i, k);
  }

  /** An answer line read while a question is open attaches its option to the
      last question of the reference description. */
  lemma ExplainedAnswer(lines: seq<Line>, k: nat)
    requires k < |lines| && lines[k].AnswerLine? && QuestionStarts(lines, k) != []
    ensures var e := Explained(lines, k);
            Explained(lines, k + 1) == e[..|e| - 1] + [Attach(e[|e| - 1], AnswerAt(lines, k))]
  {
    var starts := QuestionStarts(lines, k);
    assert QuestionStarts(lines, k + 1) == starts;
    var n := |starts|;
    var e, e' := Explained(lines, k), Explained(lines, k + 1);
    var goal := e[..n - 1] + [Attach(e[n - 1], AnswerAt(lines, k))];
    forall j | 0 <= j < n ensures e'[j] == goal[j] {
      if j < n - 1 {
        ExplainedKeepsEarlier(lines, k, j);
      } else {
        ExplainedLastExtends(lines, k);
      }
    }
    assert e' == goal;
  }

  /** The loop builds exactly the reference description. */
  lemma {:induction false} ScanExplained(lines: seq<Line>, k: nat)
    requires k <= |lines|
    ensures ScanUpTo(lines, k) == Explained(lines, k)
  {
    if k > 0 {
      var i := k - 1;
      ScanExplained(lines, i);
      if lines[i].QuestionLine? {
        ExplainedQuestion(lines, i);
      } else if lines[i].AnswerLine? && ScanUpTo(lines, i) != [] {
        ExplainedAnswer(lines, i);
      } else {
        ExplainedIdle(lines, i);
      }
    }
  }

  // ---------------------------------------------------------------------
  // What the scan promises, stated on the loop function.

  /** Each option records whether it is marked, and `correctIdx` is the last
      marked option, `None` exactly when no option is marked. */
  lemma ScanCorrectIsLastMarked(lines: seq<Line>, j: nat)
    requires j < |ScanUpTo(lines, |lines|)|
    ensures var q := ScanUpTo(lines, |lines|)[j];
            && (q.correctIdx.None? <==> forall a :: 0 <= a < |q.answers| ==> !q.answers[a].correct)
            && (q.correctIdx.Some? ==>
                  && q.correctIdx.value < |q.answers| && q.answers[q.correctIdx.value].correct
                  && forall a :: q.correctIdx.value < a < |q.answers| ==> !q.answers[a].correct)
  {
    ScanExplained(lines, |lines|);
  }

  /** Questions come in document order, each after the previous one and its
      options, and every option comes after its question, in document order. */
  lemma ScanOrder(lines: seq<Line>, j: nat)
    requires j < |ScanUpTo(lines, |lines|)|
    ensures var qs := ScanUpTo(lines, |lines|);
            && qs[j].index < |lines|
            && (forall a :: 0 <= a < |qs[j].answers| ==> qs[j].index < qs[j].answers[a].index < |lines|)
            && (forall a, b :: 0 <= a < b < |qs[j].answers| ==> qs[j].answers[a].index < qs[j].answers[b].index)
            && (j + 1 < |qs| ==> forall a :: 0 <= a < |qs[j].answers| ==> qs[j].answers[a].index < qs[j + 1].index)
            && (j + 1 < |qs| ==> qs[j].index < qs[j + 1].index)
  {
    ScanExplained(lines, |lines|);
    var starts := QuestionStarts(lines, |lines|);
    if j + 1 < |starts| {
      assert starts[j] < starts[j + 1];
    }
  }

  /** A question is opened by every question line, and only by one. */
  lemma ScanQuestionStarts(lines: seq<Line>)
    ensures var qs := ScanUpTo(lines, |lines|);
            |qs| == |QuestionStarts(lines, |lines|)|
            && forall j :: 0 <= j < |qs| ==> qs[j].index == QuestionStarts(lines, |lines|)[j]
  {
    ScanExplained(lines, |lines|);
  }

  /** Answer lines read before the first question line are ignored: with no
      question line among the first `k` lines, nothing has been collected. */
  lemma AnswersBeforeFirstQuestionIgnored(lines: seq<Line>, k: nat)
    requires k <= |lines|
    requires forall i :: 0 <= i < k ==> !lines[i].QuestionLine?
    ensures ScanUpTo(lines, k) == []
  {
    ScanExplained(lines, k);
  }

  /** A line that is neither a question nor an answer line neither closes nor
      changes the open question. */
  lemma OtherLineChangesNothing(qs: seq<Question>, i: nat, line: Line)
    requires !line.QuestionLine? && !line.AnswerLine?
    ensures Step(qs, i, line) == qs
  {
  }

  /** An answer line changes only the open question, by appending its option. */
  lemma AnswerLineAppends(qs: seq<Question>, i: nat, line: Line)
    requires qs != [] && line.AnswerLine?
    ensures var r, n := Step(qs, i, line), |qs|;
            && |r| == n && r[..n - 1] == qs[..n - 1]
            && r[n - 1].answers == qs[n - 1].answers + [NewAnswer(i, line.texte, line.a)]
            && r[n - 1].index == qs[n - 1].index && r[n - 1].text == qs[n - 1].text
  {
  }

  /** The text stored for a question ends with `?` and its first whitespace
      token is the dotted question number, which is the key scoring looks up
      (app.py:60, app.py:143). */
  lemma QuestionTextKey(raw: string)
    requires Classify(Normalize(raw)).QuestionLine?
    ensures var l := Classify(Normalize(raw));
            && IsDottedNumber(l.q.num) && FirstToken(QuestionText(l.q)) == Some(l.q.num)
            && QuestionText(l.q)[|QuestionText(l.q)| - 1] == '?'
            && l.texte[..|l.q.num|] == l.q.num
  {
    var t := Normalize(raw);
    ClassifySpec(raw);
    NormalizeEnds(raw);
    QuestionLineShape(t);
    var m := MatchQuestion(t).value;
    NumberToken(m.num, m.txt);
  }

  /** A dotted number followed by ` - ` is the first token of the text. */
  lemma NumberToken(num: string, txt: string)
    requires IsDottedNumber(num)
    ensures FirstToken(QuestionText(QuestionMatch(num, txt))) == Some(num)
  {
    DottedNumberChars(num);
    assert NoSpace(num) by {
      forall i | 0 <= i < |num| ensures !IsSpace(num[i]) {
        assert IsDigit(num[i]) || num[i] == '.';
      }
    }
    assert QuestionText(QuestionMatch(num, txt)) == num + (" - " + txt + "?");
    FirstTokenOf(num, " - " + txt + "?");
  }

  /** An option's letter is the upper-case form of the line's first character,
      one of A to D, and it is marked exactly when the cleaned-up line ends with
      the marker. */
  lemma AnswerFields(raw: string, i: nat)
    requires Classify(Normalize(raw)).AnswerLine?
    ensures var l := Classify(Normalize(raw));
            var a, t := NewAnswer(i, l.texte, l.a), l.texte;
            && 'A' <= a.letter <= 'D' && a.letter == Upper(t[0]) && a.originalText == t
            && (a.correct <==> (|t| >= |Marker| && MarkerAt(t, |t| - |Marker|)))
  {
    var t := Normalize(raw);
    ClassifySpec(raw);
    NormalizeEnds(raw);
    AnswerFieldsOf(t, Classify(t).a, i);
  }

  /** `AnswerFields` on the cleaned-up text and its match. */
  lemma AnswerFieldsOf(t: string, m: AnswerMatch, i: nat)
    requires t != [] && t[|t| - 1] != '\n' && MatchAnswer(t) == Some(m)
    ensures var a := NewAnswer(i, t, m);
            && 'A' <= a.letter <= 'D' && a.letter == Upper(t[0]) && a.originalText == t
            && (a.correct <==> (|t| >= |Marker| && MarkerAt(t, |t| - |Marker|)))
  {
    AnswerMarkedIff(t);
    AnswerLetter(t);
  }

  // ---------------------------------------------------------------------
  // The filter (app.py:85-93).

  /** The test at app.py:87. */
  predicate IsValid(q: Question)
  {
    q.correctIdx.Some? && |q.answers| >= 2
  }

  /** The warning shown for a dropped question (app.py:90-93). */
  function WarningFor(q: Question): string
  {
    "Ignorée : " + q.text + " (bonne réponse manquante ou <2 réponses)"
  }

  /** `valid` after the filter loop has looked at `qs`. */
  function KeepValid(qs: seq<Question>): (r: seq<Question>)
    ensures |r| <= |qs|
    ensures forall j :: 0 <= j < |r| ==> IsValid(r[j]) && r[j] in qs
  {
    if qs == [] then []
    else KeepValid(qs[..|qs| - 1]) + (if IsValid(qs[|qs| - 1]) then [qs[|qs| - 1]] else [])
  }

  /** The warnings the filter loop emits for `qs`, in order. */
  function Warnings(qs: seq<Question>): seq<string>
  {
    if qs == [] then []
    else Warnings(qs[..|qs| - 1]) + (if IsValid(qs[|qs| - 1]) then [] else [WarningFor(qs[|qs| - 1])])
  }

  /** A question is kept exactly when it passes the test; every other one
      yields one warning. */
  lemma {:induction false} FilterPartition(qs: seq<Question>)
    ensures forall q :: q in KeepValid(qs) <==> q in qs && IsValid(q)
    ensures |KeepValid(qs)| + |Warnings(qs)| == |qs|
    ensures forall q :: q in qs && !IsValid(q) ==> WarningFor(q) in Warnings(qs)
  {
    if qs != [] {
      var init := qs[..|qs| - 1];
      FilterPartition(init);
      assert qs == init + [qs[|qs| - 1]];
    }
  }

  /** The questions come in document order. */
  predicate InOrder(qs: seq<Question>)
  {
    forall j, j' :: 0 <= j < j' < |qs| ==> qs[j].index < qs[j'].index
  }

  /** The filter keeps the document order: kept questions have increasing
      line numbers when the scanned ones do. */
  lemma {:induction false} FilterKeepsOrder(qs: seq<Question>)
    requires InOrder(qs)
    ensures InOrder(KeepValid(qs))
  {
    if qs != [] {
      var init := qs[..|qs| - 1];
      FilterKeepsOrder(init);
      var last := qs[|qs| - 1];
      var ri := KeepValid(init);
      forall j | 0 <= j < |ri| ensures ri[j].index < last.index {
        var x :| 0 <= x < |init| && init[x] == ri[j];
        assert qs[x] == init[x];
      }
      var r := KeepValid(qs);
      assert r == ri + (if IsValid(last) then [last] else []);
      forall j, j' | 0 <= j < j' < |r| ensures r[j].index < r[j'].index {
        assert r[j] == ri[j];
        if j' < |ri| {
          assert r[j'] == ri[j'];
          assert ri[j].index < ri[j'].index;
        } else {
          assert r[j'] == last;
          assert ri[j].index < last.index;
        }
      }
    }
  }

  /** Every question that can be kept has a usable correct option: `correctIdx`
      points inside the list to a marked option. */
  lemma ValidHasMarkedAnswer(lines: seq<Line>, q: Question)
    requires q in KeepValid(ScanUpTo(lines, |lines|))
    ensures IsValid(q) && q.correctIdx.value < |q.answers| && q.answers[q.correctIdx.value].correct
  {
    var qs := ScanUpTo(lines, |lines|);
    var j :| 0 <= j < |qs| && qs[j] == q;
    ScanCorrectIsLastMarked(lines, j);
  }

  /**
   * `detecter_questions` over the paragraph texts of a template. It returns
   * the kept questions, in document order, and the warnings shown for the
   * dropped ones.
   */
  method DetectQuestions(paras: seq<string>) returns (valid: seq<Question>, warnings: seq<string>)
    ensures valid == KeepValid(ScanUpTo(Lines(paras), |paras|))
    ensures warnings == Warnings(ScanUpTo(Lines(paras), |paras|))
    ensures forall j :: 0 <= j < |valid| ==>
              IsValid(valid[j]) && valid[j].correctIdx.value < |valid[j].answers|
              && valid[j].answers[valid[j].correctIdx.value].correct
    ensures InOrder(valid)
  {
    var questions := CollectQuestions(paras);
    valid, warnings := FilterQuestions(questions);
    forall k | 0 <= k < |valid|
      ensures IsValid(valid[k]) && valid[k].correctIdx.value < |valid[k].answers|
              && valid[k].answers[valid[k].correctIdx.value].correct
    {
      ValidHasMarkedAnswer(Lines(paras), valid[k]);
    }
    assert InOrder(questions) by {
      ScanQuestionStarts(Lines(paras));
    }
    FilterKeepsOrder(questions);
  }

  /** The loop at app.py:43-82: it builds `questions` paragraph by paragraph. */
  method CollectQuestions(paras: seq<string>) returns (questions: seq<Question>)
    ensures questions == ScanUpTo(Lines(paras), |paras|)
  {
    questions := [];
    var i := 0;
    while i < |paras|
      invariant i <= |paras|
      invariant questions == ScanUpTo(Lines(paras), i)
    {
      questions := ReadParagraph(questions, paras, i);
      assert ScanUpTo(Lines(paras), i + 1) == Step(ScanUpTo(Lines(paras), i), i, Lines(paras)[i]);
      i := i + 1;
    }
  }

  /** The body of the loop at app.py:43-82 for paragraph `i`. */
  method ReadParagraph(questions: seq<Question>, paras: seq<string>, i: nat) returns (r: seq<Question>)
    requires i < |paras|
    ensures r == Step(questions, i, Lines(paras)[i])
  {
    LinesAt(paras, i);
    r := questions;
    var texte := Normalize(paras[i]);
    if texte == [] {
      return;
    }
    var mq := MatchQuestion(texte);
    if mq.Some? {
      r := r + [NewQuestion(i, texte, mq.value)];
      return;
    }
    if r != [] {
      var mr := MatchAnswer(texte);
      if mr.Some? {
        var current := r[|r| - 1];
        var reps := current.answers + [NewAnswer(i, texte, mr.value)];
        if mr.value.marked {
          current := current.(answers := reps, correctIdx := Some(|reps| - 1));
        } else {
          current := current.(answers := reps);
        }
        r := r[..|r| - 1] + [current];
      }
    }
  }

  /** The filter loop at app.py:85-93. */
  method FilterQuestions(questions: seq<Question>) returns (valid: seq<Question>, warnings: seq<string>)
    ensures valid == KeepValid(questions) && warnings == Warnings(questions)
  {
    valid, warnings := [], [];
    var j := 0;
    while j < |questions|
      invariant j <= |questions|
      invariant valid == KeepValid(questions[..j]) && warnings == Warnings(questions[..j])
    {
      assert questions[..j + 1][..j] == questions[..j];
      var q := questions[j];
      if q.correctIdx.Some? && |q.answers| >= 2 {
        valid := valid + [q];
      } else {
        warnings := warnings + [WarningFor(q)];
      }
      j := j + 1;
    }
    assert questions[..j] == questions;
  }
}
