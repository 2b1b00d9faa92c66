/**
 * `remplacer_placeholders` (app.py:18-32): every `{{...}}` key of a
 * replacement table is replaced, run by run, in the text of a paragraph.
 * A paragraph is the sequence of the texts of its runs; its text is their
 * concatenation. A key that is split over two runs is not replaced, since
 * each run is rewritten on its own (`SubstituteAt`).
 */
module Placeholders {
  import opened Text

  /** The replacement table, as the pairs of the dictionary in insertion order. */
  type Replacements = seq<(string, string)>

  /** The key with its spaces turned into no-break spaces. */
  function NbspVariant(key: string): string
  {
    Replace(key, " ", [NoBreakSpace])
  }

  /** The key with its spaces removed. */
  function SpaceFree(key: string): string
  {
    Replace(key, " ", "")
  }

  /** `if pat in text: text = text.replace(pat, value)`. */
  function ReplaceIfPresent(text: string, pat: string, value: string): string
  {
    if Contains(text, pat) then Replace(text, pat, value) else text
  }

  /** What the inner loop body does to one run for one key (app.py:23-32):
      the key, then its no-break variant, then its space-free variant. */
  function RunStep(text: string, key: string, value: string): string
  {
    var t1 := ReplaceIfPresent(text, key, value);
    var t2 := ReplaceIfPresent(t1, NbspVariant(key), value);
    ReplaceIfPresent(t2, SpaceFree(key), value)
  }

  /** One key applied to every run. */
  function SubstituteKey(runs: seq<string>, key: string, value: string): (r: seq<string>)
    ensures |r| == |runs|
  {
    seq(|runs|, j requires 0 <= j < |runs| => RunStep(runs[j], key, value))
  }

  /** The outer loop: the keys in order, each applied to every run. */
  function SubstituteAll(runs: seq<string>, repl: Replacements): (r: seq<string>)
    ensures |r| == |runs|
  {
    if repl == [] then runs
    else
      var last := repl[|repl| - 1];
      SubstituteKey(SubstituteAll(runs, repl[..|repl| - 1]), last.0, last.1)
  }

  /** The keys in order, applied to a single run. */
  function RunSteps(text: string, repl: Replacements): string
  {
    if repl == [] then text
    else
      var last := repl[|repl| - 1];
      RunStep(RunSteps(text, repl[..|repl| - 1]), last.0, last.1)
  }

  /** The whole function: nothing happens when the paragraph's text is empty. */
  function Substitute(runs: seq<string>, repl: Replacements): seq<string>
  {
    if Concat(runs) == [] then runs else SubstituteAll(runs, repl)
  }

  // ---------------------------------------------------------------------
  // Properties.

  /** The `in` tests only save work: each guarded replacement is the plain
      `str.replace`. */
  lemma RunStepIsReplace(text: string, key: string, value: string)
    ensures RunStep(text, key, value)
            == Replace(Replace(Replace(text, key, value), NbspVariant(key), value), SpaceFree(key), value)
  {
    var t1 := Replace(text, key, value);
    var t2 := Replace(t1, NbspVariant(key), value);
    if !Contains(text, key) {
      ReplaceAbsent(text, key, value);
    }
    if !Contains(t1, NbspVariant(key)) {
      ReplaceAbsent(t1, NbspVariant(key), value);
    }
    if !Contains(t2, SpaceFree(key)) {
      ReplaceAbsent(t2, SpaceFree(key), value);
    }
  }

  /** The key contains no plain space. */
  predicate SpaceLess(key: string)
  {
    forall i :: 0 <= i < |key| ==> key[i] != ' '
  }

  /** For a key without spaces, which is the case of every key app.py uses,
      both variants are the key itself. */
  lemma VariantsOfSpaceLess(key: string)
    requires SpaceLess(key)
    ensures NbspVariant(key) == key && SpaceFree(key) == key
  {
    ContainsSpec(key, " ");
    forall i | 0 <= i && i + 1 <= |key| ensures !OccursAt(key, " ", i) {
      assert key[i..i + 1][0] == key[i];
    }
    ReplaceAbsent(key, " ", [NoBreakSpace]);
    ReplaceAbsent(key, " ", "");
  }

  /** None of the three forms of the key occurs in the text. */
  predicate Absent(text: string, key: string)
  {
    !Contains(text, key) && !Contains(text, NbspVariant(key)) && !Contains(text, SpaceFree(key))
  }

  /** A run holding none of the three forms of the key is left as it is. */
  lemma RunStepUntouched(text: string, key: string, value: string)
    requires Absent(text, key)
    ensures RunStep(text, key, value) == text
  {
  }

  /** A run that is exactly a key without spaces becomes the value, when the
      value does not itself hold the key. */
  lemma KeyRunBecomesValue(key: string, value: string)
    requires key != [] && SpaceLess(key) && !Contains(value, key)
    ensures RunStep(key, key, value) == value
  {
    VariantsOfSpaceLess(key);
    assert OccursAt(key, key, 0);
    ReplaceHeadMatch(key, key, value);
    assert key[|key|..] == [];
    assert Replace(key, key, value) == value;
  }

  /** A run holding no form of any key is left as it is by the whole table. */
  lemma {:induction false} RunUntouched(text: string, repl: Replacements)
    requires forall i :: 0 <= i < |repl| ==> Absent(text, repl[i].0)
    ensures RunSteps(text, repl) == text
  {
    if repl != [] {
      var init := repl[..|repl| - 1];
      assert forall i :: 0 <= i < |init| ==> init[i] == repl[i];
      RunUntouched(text, init);
      RunStepUntouched(text, repl[|repl| - 1].0, repl[|repl| - 1].1);
    }
  }

  /** Runs are rewritten independently: run `j` of the result is what the
      table makes of run `j` alone. */
  lemma {:induction false} SubstituteAllAt(runs: seq<string>, repl: Replacements, j: nat)
    requires j < |runs|
    ensures SubstituteAll(runs, repl)[j] == RunSteps(runs[j], repl)
  {
    if repl != [] {
      SubstituteAllAt(runs, repl[..|repl| - 1], j);
    }
  }

  /** The paragraph keeps its runs: their number never changes, and each run
      is rewritten on its own when the paragraph has text. */
  lemma SubstituteAt(runs: seq<string>, repl: Replacements, j: nat)
    requires j < |runs|
    ensures |Substitute(runs, repl)| == |runs|
    ensures Concat(runs) != [] ==> Substitute(runs, repl)[j] == RunSteps(runs[j], repl)
  {
    if Concat(runs) != [] {
      SubstituteAllAt(runs, repl, j);
    }
  }

  /** A paragraph whose runs are all empty is left as it is. */
  lemma BlankParagraphUnchanged(runs: seq<string>, repl: Replacements)
    requires forall j :: 0 <= j < |runs| ==> runs[j] == []
    ensures Substitute(runs, repl) == runs
  {
    ConcatEmpty(runs);
  }

  /** A paragraph holding no form of any key is left as it is. */
  lemma ParagraphUntouched(runs: seq<string>, repl: Replacements)
    requires forall j, i :: 0 <= j < |runs| && 0 <= i < |repl| ==> Absent(runs[j], repl[i].0)
    ensures Substitute(runs, repl) == runs
  {
    if Concat(runs) != [] {
      forall j | 0 <= j < |runs| ensures SubstituteAll(runs, repl)[j] == runs[j] {
        SubstituteAllAt(runs, repl, j);
        RunUntouched(runs[j], repl);
      }
    }
  }

  // ---------------------------------------------------------------------
  // The procedure, on the runs of one paragraph.

  /** `remplacer_placeholders(paragraph, replacements)`, the paragraph being
      the array of its runs' texts. */
  method ReplacePlaceholders(runs: array<string>, repl: Replacements)
    modifies runs
    ensures runs[..] == Substitute(old(runs[..]), repl)
  {
    if Concat(runs[..]) == [] {
      return;
    }
    ghost var original := runs[..];
    var k := 0;
    while k < |repl|
      invariant k <= |repl|
      invariant runs[..] == SubstituteAll(original, repl[..k])
    {
      var key, value := repl[k].0, repl[k].1;
      ghost var before := runs[..];
      var j := 0;
      while j < runs.Length
        invariant j <= runs.Length
        invariant forall i :: 0 <= i < j ==> runs[i] == RunStep(before[i], key, value)
        invariant forall i :: j <= i < runs.Length ==> runs[i] == before[i]
      {
        var text := runs[j];
        if Contains(text, key) {
          text := Replace(text, key, value);
        }
        var ni := Replace(key, " ", [NoBreakSpace]);
        if Contains(text, ni) {
          text := Replace(text, ni, value);
        }
        var ns := Replace(key, " ", "");
        if Contains(text, ns) {
          text := Replace(text, ns, value);
        }
        runs[j] := text;
        j := j + 1;
      }
      assert runs[..] == SubstituteKey(before, key, value);
      assert repl[..k + 1][..k] == repl[..k];
      k := k + 1;
    }
    assert repl[..k] == repl;
  }
}
