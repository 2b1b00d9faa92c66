/**
 * The outcome of a learner (`calculer_resultat_final`, app.py:109-116) and
 * the answer key read from the corrections workbook (`parse_correct_answers`,
 * app.py:96-107), the workbook being given as its rows.
 */
module Grading {
  import opened Wrappers
  import opened Text

  const Acquired: string := "Acquis"
  const InProgress: string := "En cours d'acquisition"
  const NotAcquired: string := "Non acquis"

  /** The denominator `generer_document` relies on (app.py:109, app.py:164). */
  const DefaultTotal: nat := 9

  /** `calculer_resultat_final(score, total_q)`: the percentage, computed here
      exactly, against the two inclusive thresholds. */
  function Outcome(score: int, total: int): string
    requires total > 0
  {
    var pct := (score as real / total as real) * 100.0;
    if pct >= 75.0 then Acquired
    else if pct >= 50.0 then InProgress
    else NotAcquired
  }

  /** Scaling by a positive number keeps an order. */
  lemma ScaleOrder(x: real, y: real, t: real)
    requires t > 0.0
    ensures x >= y <==> x * t >= y * t
  {
    if x >= y {
      assert (x - y) * t >= 0.0;
    } else {
      assert (y - x) * t > 0.0;
    }
  }

  /** The percentage reaches `p` exactly when `100 * score >= p * total`. */
  lemma PercentReaches(score: int, total: int, p: int)
    requires total > 0
    ensures (score as real / total as real) * 100.0 >= p as real <==> 100 * score >= p * total
  {
    var t := total as real;
    var x := (score as real / t) * 100.0;
    assert x * t == 100.0 * score as real;
    ScaleOrder(x, p as real, t);
  }

  /** The three labels in integer terms: `Acquis` from 75% on, `En cours
      d'acquisition` from 50% up to 75% excluded, `Non acquis` below 50%. */
  lemma OutcomeThresholds(score: int, total: int)
    requires total > 0
    ensures Outcome(score, total) == Acquired <==> 4 * score >= 3 * total
    ensures Outcome(score, total) == InProgress <==> 2 * score >= total && 4 * score < 3 * total
    ensures Outcome(score, total) == NotAcquired <==> 2 * score < total
  {
    PercentReaches(score, total, 75);
    PercentReaches(score, total, 50);
  }

  /** With the default denominator of 9: 7 or more is `Acquis`, 5 or 6 is
      `En cours d'acquisition`, 4 or less is `Non acquis`. */
  lemma OutcomeOutOfNine(score: int)
    ensures Outcome(score, DefaultTotal) == Acquired <==> score >= 7
    ensures Outcome(score, DefaultTotal) == InProgress <==> 5 <= score <= 6
    ensures Outcome(score, DefaultTotal) == NotAcquired <==> score <= 4
  {
    OutcomeThresholds(score, DefaultTotal);
  }

  /** The labels ranked from worst to best. */
  function Rank(outcome: string): nat
  {
    if outcome == Acquired then 2 else if outcome == InProgress then 1 else 0
  }

  /** A higher score never yields a worse label. */
  lemma OutcomeMonotone(s1: int, s2: int, total: int)
    requires total > 0 && s1 <= s2
    ensures Rank(Outcome(s1, total)) <= Rank(Outcome(s2, total))
  {
    OutcomeThresholds(s1, total);
    OutcomeThresholds(s2, total);
  }

  // ---------------------------------------------------------------------
  // The answer key.

  /** A row of the corrections workbook: the cells `Numéro de la question` and
      `Réponse correcte` in their string form, `None` for an empty cell. */
  datatype KeyRow = KeyRow(number: Option<string>, answer: Option<string>)

  /** The rows `dropna` keeps. */
  predicate Complete(row: KeyRow)
  {
    row.number.Some? && row.answer.Some?
  }

  /** The stripped question number of a complete row. */
  function KeyOf(row: KeyRow): string
    requires Complete(row)
  {
    Strip(row.number.value)
  }

  /** The stripped, upper-cased answer of a complete row. */
  function ValueOf(row: KeyRow): string
    requires Complete(row)
  {
    UpperString(Strip(row.answer.value))
  }

  /** `dict(zip(numbers, answers))` over the complete rows, in order: a later
      row with the same number overwrites an earlier one. */
  function AnswerKey(rows: seq<KeyRow>): map<string, string>
  {
    if rows == [] then map[]
    else
      var m := AnswerKey(rows[..|rows| - 1]);
      var last := rows[|rows| - 1];
      if Complete(last) then m[KeyOf(last) := ValueOf(last)] else m
  }

  /** `parse_correct_answers(f)`: no workbook gives the empty key. */
  function ParseCorrectAnswers(f: Option<seq<KeyRow>>): map<string, string>
  {
    match f
    case None => map[]
    case Some(rows) => AnswerKey(rows)
  }

  /** Some complete row among `rows` carries the number `k`. */
  predicate Carries(rows: seq<KeyRow>, k: string)
  {
    exists i :: 0 <= i < |rows| && Complete(rows[i]) && KeyOf(rows[i]) == k
  }

  /** A number is in the key exactly when some complete row carries it. */
  lemma {:induction false} AnswerKeyDomain(rows: seq<KeyRow>, k: string)
    ensures k in AnswerKey(rows) <==> Carries(rows, k)
  {
    if rows != [] {
      var init := rows[..|rows| - 1];
      var last := rows[|rows| - 1];
      AnswerKeyDomain(init, k);
      if Carries(init, k) {
        var i :| 0 <= i < |init| && Complete(init[i]) && KeyOf(init[i]) == k;
        assert rows[i] == init[i];
      }
      if Carries(rows, k) && !(Complete(last) && KeyOf(last) == k) {
        var i :| 0 <= i < |rows| && Complete(rows[i]) && KeyOf(rows[i]) == k;
        assert init[i] == rows[i];
      }
    }
  }

  /** The answer of a number is the one of the last complete row carrying it. */
  lemma {:induction false} AnswerKeyLast(rows: seq<KeyRow>, k: string, i: nat)
    requires i < |rows| && Complete(rows[i]) && KeyOf(rows[i]) == k
    requires forall j :: i < j < |rows| && Complete(rows[j]) ==> KeyOf(rows[j]) != k
    ensures k in AnswerKey(rows) && AnswerKey(rows)[k] == ValueOf(rows[i])
  {
    if i < |rows| - 1 {
      var init := rows[..|rows| - 1];
      assert init[i] == rows[i];
      forall j | i < j < |init| && Complete(init[j]) ensures KeyOf(init[j]) != k {
        assert init[j] == rows[j];
      }
      AnswerKeyLast(init, k, i);
    }
  }

  /** Rows with an empty cell are ignored. */
  lemma IncompleteRowIgnored(rows: seq<KeyRow>, row: KeyRow)
    requires !Complete(row)
    ensures AnswerKey(rows + [row]) == AnswerKey(rows)
  {
    assert (rows + [row])[..|rows|] == rows;
  }
}
