# QCM engine: a verified model

This project models in Dafny the engine of the multiple-choice (QCM) generator
in `app.py`. A Word template holds numbered questions, each followed by
lettered options. One option of each question is flagged with a
`{{checkbox}}` marker. For every learner, the generator writes a copy of the
template. In that copy:

- the learner's details are filled in;
- the options of each question are reordered, with a ticked box on the option
  put first;
- the learner is scored against an answer key read from a corrections
  workbook;
- the score and its label (`Acquis`, `En cours d'acquisition`, `Non acquis`)
  are filled in.

The project has one module per part of the engine:

- `Text` (`text.dfy`): the Python string operations the engine uses, written
  out with Python's meaning. These are `str.isspace`, `strip`, `replace`,
  `in`, `split()[0]`, `upper` and `str(n)`.
- `Patterns` (`patterns.dfy`): the two regular expressions of
  `detecter_questions`. Each appears twice: as the language of the pattern,
  and as a search that tries the cuts of the line in the order of Python's
  backtracking `re` engine. Lemmas tie the two together: the search is sound,
  it finds a match whenever one exists, and the match it finds is the one `re`
  prefers.
- `Detector` (`detector.dfy`): `detecter_questions` itself. It takes the
  paragraphs of the template and produces the questions it keeps and the
  warnings for the ones it drops. It is written as the paragraph loop and the
  filter loop. Both loops are proved against functions (`ScanUpTo`,
  `KeepValid`, `Warnings`). The scan is also proved equal to a description
  that uses no loop: one question per question line, holding the answer lines
  up to the next question line.
- `Placeholders` (`placeholders.dfy`): `remplacer_placeholders`. It works on
  the array of the runs of one paragraph, with the same nested loops over the
  keys and the runs.
- `Grading` (`grading.dfy`): the outcome label (`calculer_resultat_final`) and
  the answer key (`parse_correct_answers`). The key is built from the rows of
  the workbook.
- `Renderer` (`renderer.dfy`): `generer_document` for one learner. The copy is
  an array of paragraphs. The per-question loop reorders the options, writes
  them back over their own paragraphs and adds up the score. It is proved
  against the function `ProcessFrom`. The whole procedure is proved against
  `Generate`.
- `Wrappers` (`wrappers.dfy`): the `Option` type.

A Python call that raises inside `generer_document` is caught by its catch-all
handler. The model gives such a call an `Option` result, and `None` becomes the
`(None, 0, "Erreur")` result of the handler. The calls that can raise are:

- `split()[0]` on a blank question text;
- `pop(None)`, for a frozen question with neither a chosen option nor a
  correct one;
- `pop` with an index out of range;
- `reps[0]` on an empty list.

Three inputs are parameters of the model:

- The Streamlit session state is a `Session` value. It holds the frozen
  questions, the option chosen for each frozen question, and the answer key.
- The order `random.shuffle` picks for each question is given as a list of
  exchanges. `ShuffleReachesAll` proves that every permutation can be
  expressed this way.
- The learner row is a `Learner` value, with each cell in its `str` form.

Two behaviours of the code a reader might not expect, which the model keeps:

- **The correct option is not pinned.** The code moves the correct option to
  the front and then shuffles the whole list (app.py:149-151). The correct
  option can therefore end up anywhere (`CorrectNotPinned`).
- **The denominator is fixed.** The outcome is always computed out of 9
  (app.py:164), whatever the number of questions. A template with fewer than
  five questions therefore never passes (`FewQuestionsNeverPass`).

The answer key also keeps every letter the workbook holds, not only `A` to
`D` (app.py:101-104).

## Model

| member | source | states |
|---|---|---|
| Text.StripSpec | app.py:44 | `strip` removes a whitespace prefix and a whitespace suffix and nothing else; the result is empty or starts and ends with a non-space |
| Text.StripEmpty | app.py:48-49 | the stripped text is empty exactly when the paragraph is all whitespace |
| Text.ContainsSpec | app.py:23-32 | `k in s` holds exactly when `k` occurs at some position of `s` |
| Text.ReplaceAbsent | app.py:23-32 | `str.replace` with a pattern that does not occur returns the string unchanged |
| Text.ReplaceFirst | app.py:24 | `str.replace` replaces the leftmost occurrence and resumes the scan right after it |
| Text.ReplaceChar | app.py:45-47 | replacing one character by another acts character by character |
| Text.UpperSpec | app.py:71 | `upper` maps exactly the lower-case ASCII letters onto the upper-case ones, shifting each by 32, leaves every other character as it is, and is idempotent |
| Text.UpperStringAt | app.py:103 | every character of the upper-cased string is the upper-cased character |
| Text.FirstTokenOf | app.py:143 | a non-blank word followed by whitespace or nothing is the first token of `split()` |
| Text.FirstTokenBlank | app.py:143 | `split()[0]` raises exactly for a blank string |
| Text.NatToString | app.py:166-168 | `str(n)` is a non-empty string of decimal digits |
| Text.NatToStringRoundTrip | app.py:166-168 | reading back the digits of `str(n)` gives `n` |
| Patterns.FindQuestionSound | app.py:39 | the match the question search returns is a way of cutting the line into the parts of the question pattern |
| Patterns.FindQuestionFirst | app.py:39 | whenever the question pattern matches, the search finds a match, and it is the one `re` prefers: the longest number, then the longest separator, then the shortest text |
| Patterns.MatchQuestionIff | app.py:39 | `re.match` with the question pattern succeeds exactly when the line is in the pattern's language |
| Patterns.QuestionLineShape | app.py:39 | on a stripped line, a question match starts with its dotted number, has a one-line text that is not empty, and the line ends with `?` |
| Patterns.QuestionEndsWithMark | app.py:39 | on a line that does not end in whitespace, `\s*\?$` can only match a final `?` |
| Patterns.LazyQuestionTextSpec | app.py:39 | the lazy `(.+?)` group ends at the first end from which the rest of the pattern matches, or at none when no end works |
| Patterns.SearchNumberSpec | app.py:39 | no end of the dotted-number group longer than the one chosen lets the rest of the pattern match |
| Patterns.FindAnswerSound | app.py:41 | the match the answer search returns is a way of cutting the line into the parts of the answer pattern |
| Patterns.FindAnswerFirst | app.py:41 | whenever the answer pattern matches, the search finds a match, and it is the one `re` prefers: the longest separator, then the shortest text, then the marker taken when possible |
| Patterns.MatchAnswerIff | app.py:41 | `re.match` with the answer pattern succeeds exactly when the line is in the pattern's language |
| Patterns.LazyAnswerSpec | app.py:41 | the lazy `(.*?)` group stops at the first end from which the optional marker and `$` match |
| Patterns.AnswerLetter | app.py:69-71 | group 1 is the first character of the line, a letter from A to D in either case |
| Patterns.AnswerMarkedIff | app.py:41 | the marker group takes part exactly when the line ends with `{{checkbox}}` in any case; the text group then stops right before the marker |
| Detector.NormalizeIsReplace | app.py:44-47 | the clean-up is `strip` followed by the three `str.replace` calls |
| Detector.NormalizeSpec | app.py:44-49 | the clean-up maps the stripped paragraph character by character; it is empty exactly for a blank paragraph, starts and ends with a non-space, and leaves no no-break space, en dash or em dash |
| Detector.ClassifySpec | app.py:48-69 | a paragraph is skipped exactly when blank; it is a question line exactly when the question pattern matches; it is an answer line exactly when only the answer pattern matches; each kind carries the cleaned-up text and its match |
| Detector.LastMarked | app.py:73-82 | the position returned holds a marked option with no marked option after it, and `None` means no option is marked |
| Detector.ScanExplained | app.py:43-82 | the paragraph loop builds one question per question line, each holding the options of the answer lines up to the next question line |
| Detector.ScanCorrectIsLastMarked | app.py:73-82 | `correct_idx` of every question is its last marked option, and it is `None` exactly when no option is marked |
| Detector.ScanOrder | app.py:43-82 | questions come in strictly increasing document order; options come after their question, before the next one, in document order |
| Detector.ScanQuestionStarts | app.py:54-66 | every question line opens exactly one question, numbered by its paragraph |
| Detector.AnswersBeforeFirstQuestionIgnored | app.py:68-70 | answer lines read before the first question line are ignored |
| Detector.OtherLineChangesNothing | app.py:68-82 | a line that is neither a question nor an answer neither closes nor changes the open question |
| Detector.AnswerLineAppends | app.py:74-82 | an answer line only appends its option to the open question; the earlier questions and the open question's number and text are unchanged |
| Detector.QuestionTextKey | app.py:56-60 | the stored text of a question ends with `?`, the line starts with the question's dotted number, and that number is the first token of the stored text, which is the key scoring looks up |
| Detector.NumberToken | app.py:60 | the first token of `num - txt?` is `num` |
| Detector.AnswerFields | app.py:71-80 | an option's letter is the upper-cased first character, one of A to D; it is marked exactly when the cleaned-up line ends with the marker; it keeps that line as its original text |
| Detector.KeepValid | app.py:85-88 | every question kept passes the test and comes from the scanned list |
| Detector.FilterPartition | app.py:85-93 | a question is kept exactly when it has a correct index and at least two options; every dropped one yields its warning; kept plus warned make up the whole list |
| Detector.FilterKeepsOrder | app.py:85-88 | the kept questions stay in document order |
| Detector.ValidHasMarkedAnswer | app.py:87 | every kept question has a correct index inside its options pointing at a marked option |
| Detector.DetectQuestions | app.py:34-94 | the method returns the filtered scan and its warnings; every kept question has two or more options and a correct index pointing at a marked option, in document order |
| Detector.CollectQuestions | app.py:43-82 | the paragraph loop returns the scan of the paragraphs |
| Detector.ReadParagraph | app.py:44-82 | one turn of the loop is the step for that paragraph's classification |
| Detector.FilterQuestions | app.py:85-94 | the filter loop returns the kept questions and the warnings |
| Placeholders.RunStepIsReplace | app.py:23-32 | the guarded replacements of one key are the three plain `str.replace` calls: the key, its no-break-space form, then its space-free form |
| Placeholders.VariantsOfSpaceLess | app.py:26-30 | for a key without spaces both variant forms are the key itself |
| Placeholders.RunStepUntouched | app.py:23-32 | a run holding none of the three forms of a key is left as it is |
| Placeholders.KeyRunBecomesValue | app.py:23-24 | a run that is exactly a key without spaces becomes its value |
| Placeholders.RunUntouched | app.py:21-32 | a run holding no form of any key is left as it is by the whole table |
| Placeholders.SubstituteAt | app.py:21-32 | the number of runs never changes, and each run is rewritten on its own |
| Placeholders.BlankParagraphUnchanged | app.py:19-20 | a paragraph whose text is empty is left unchanged |
| Placeholders.ParagraphUntouched | app.py:18-32 | a paragraph holding no form of any key is left unchanged |
| Placeholders.ReplacePlaceholders | app.py:18-32 | the nested loops leave the runs as the substitution of the table over the original runs |
| Grading.OutcomeThresholds | app.py:109-116 | `Acquis` exactly from 75% on, `En cours d'acquisition` exactly from 50% up to 75% excluded, `Non acquis` exactly below 50%, all in integer cross-multiplication |
| Grading.OutcomeOutOfNine | app.py:109-116 | out of the default 9: 7 or more is `Acquis`, 5 or 6 is `En cours d'acquisition`, 4 or less is `Non acquis` |
| Grading.OutcomeMonotone | app.py:109-116 | a higher score never yields a worse label |
| Grading.AnswerKeyDomain | app.py:101-104 | a question number is in the key exactly when some complete row carries it after stripping |
| Grading.AnswerKeyLast | app.py:102-104 | a number's answer is the stripped, upper-cased answer of the last complete row carrying it |
| Grading.IncompleteRowIgnored | app.py:101 | a row with an empty cell does not change the key |
| Renderer.PyIndex | app.py:146 | a Python index is valid exactly from `-n` to `n - 1`, and it denotes itself or `n` plus itself |
| Renderer.MoveToFront | app.py:146-147 | `pop` then `insert(0, ...)` raises exactly for an invalid index, and keeps the length |
| Renderer.MoveToFrontSpec | app.py:146-147 | the popped option comes first, the others keep their relative order, and the options are the same |
| Renderer.ShufflePermutes | app.py:151 | a shuffle keeps the options |
| Renderer.ShuffleReachesAll | app.py:151 | every permutation of the options is a possible shuffle |
| Renderer.ReorderedPermutes | app.py:142-151 | whatever the branch, the copy holds the same options as the question |
| Renderer.FrozenOrder | app.py:145-147 | for a frozen question, the reorder succeeds exactly when the chosen index, defaulting to `correct_idx`, exists and is in range; that option comes first and the others keep their order |
| Renderer.UnfrozenValidSucceeds | app.py:148-151 | the reorder of a question the detector keeps never raises when the question is not frozen |
| Renderer.CorrectNotPinned | app.py:149-151 | when not frozen, for every position of the copy some shuffle puts the correct option there |
| Renderer.IndexOf | app.py:155 | `reps.index(r)` is the first position holding `r` |
| Renderer.WrittenBackUntouched | app.py:153-158 | a paragraph that is no option's paragraph is left as it is |
| Renderer.WrittenBackOption | app.py:153-158 | each option whose paragraph exists becomes the single run `letter - text box`, with its own letter, ticked exactly when it comes first |
| Renderer.ReorderedDistinct | app.py:153-158 | the options of a copy of a detected question sit on different paragraphs, so no write-back overwrites another |
| Renderer.ProcessQuestion | app.py:141-161 | a turn that does not raise keeps the number of paragraphs and adds 0 or 1 to the score |
| Renderer.PointSpec | app.py:160-161 | a question adds 1 exactly when its number is in the key and the key's letter is the upper-cased letter of the option put first |
| Renderer.ProcessFromBounds | app.py:141-161 | over the remaining questions, the document keeps its paragraphs and the score grows by at most one per question |
| Renderer.ScoreFieldFilled | app.py:165-171 | a run holding `{{result_mod1}}` or `{{result_mod_total}}` amid text with no brace ends up with `str(score)` in its place and the text around it unchanged |
| Renderer.KeyInContext | app.py:21-32 | a key without spaces that opens with a brace, amid text with no brace, becomes its value and nothing else in the run changes |
| Renderer.GenerateFillsScore | app.py:164-171 | in the returned copy, a run the question loop left holding one of the two score placeholders amid text with no brace holds `str(score)` in its place, and its paragraph keeps its runs |
| Renderer.GenerateSpec | app.py:118-182 | the copy has as many paragraphs as the template, the score is at most the number of questions, and the outcome is the label of the score out of 9; on an exception, the result has no document, score 0 and `Erreur` |
| Renderer.FewQuestionsNeverPass | app.py:164 | with fewer than five questions a generated copy is always `Non acquis`, because the denominator stays 9 |
| Renderer.ApplyReplacements | app.py:130-131 | the loop over the paragraphs leaves every paragraph substituted |
| Renderer.WriteBack | app.py:153-158 | the write-back loop leaves the document as `WrittenBack` describes |
| Renderer.ProcessOne | app.py:141-161 | one turn on the array succeeds exactly when `ProcessQuestion` does, and then leaves its document and point |
| Renderer.Turn | app.py:141-161 | after one turn, the remaining questions yield from the new state what they yielded from the old one; a turn that raises ends the loop |
| Renderer.ProcessQuestions | app.py:139-161 | the loop over the questions succeeds exactly when `ProcessFrom` does, and then leaves its document and score |
| Renderer.GenerateDocument | app.py:118-182 | the method returns what `Generate` describes |

## Left out

- Streamlit and the session state (app.py:13-14 and the UI from app.py:184 on). The state enters as a `Session` parameter. The debug `st.write` (app.py:52) and the `st.error` calls (app.py:106, app.py:180-181) are output only. The `st.warning` calls (app.py:90-93) are modelled as the returned list of warning texts.
- The pandas workbook reading (app.py:99-100, app.py:105-107). The answer key is built from the rows given as string cells. A workbook that cannot be read, or a missing column, also yields the empty key in `app.py`; the model only covers the absent workbook. The float-to-string form of numeric cells is not modelled.
- python-docx. Templates are loaded and saved outside the model. A paragraph is the list of its run texts. `clear()` followed by `add_run` is modelled as the paragraph becoming one run. Paragraphs inside tables (app.py:132-136, app.py:172-176) are not modelled. The detector takes the paragraph texts directly.
- The ZIP archive, temporary files and the progress bar (app.py:254-290). These are file I/O.
- `random.shuffle`: the permutation it picks is an input of the model, given as a list of exchanges. Its randomness is not modelled.
- Aliasing: the ordering code sees the option list as a value. Python's copy of `reponses` and the shared question dictionary are therefore not modelled. The template's options cannot change, but that follows from the modelling, not from a proof.
- The catch-all handler of `generer_document` (app.py:179-182). It is modelled only for the calls named above that raise. Other library failures are outside the model.
- Grading.OutcomeThresholds: the percentage is computed with exact rationals, not floating point (app.py:110). With a total of 0 the function raises in `app.py`; the model requires a positive total, and the code only ever passes 9.
- Text.Upper: `str.upper` is modelled for ASCII letters only. For option letters this is exact, because the answer pattern only lets A to D through in either case. For the answer cells of the workbook, Python's other Unicode case mappings (including those that lengthen the string) are not modelled.
- Text.IsDigit: `\d` is modelled as the ASCII digits. Python's pattern also accepts other Unicode decimal digits.
- Patterns.FoldMatch: case-insensitive matching of the marker covers ASCII case and the KELVIN SIGN for `k`, which are the only characters Python's folding maps onto the marker's letters.
- The learner-placeholder table (`LearnerReplacements`) is applied, but no lemma singles out one of its keys. The properties of substitution hold for any table.
- Renderer.GenerateFillsScore: the score placeholder must sit amid text holding no brace, so that no other placeholder can overlap it. It is stated for the document the question loop leaves, to which app.py:170-171 applies the score table. It is not traced back through the write-back to the template.
