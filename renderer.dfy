/**
 * The personalised copy of the template for one learner (`generer_document`,
 * app.py:118-182): the learner placeholders are filled in, the options of
 * every question are reordered and written back over their own paragraphs,
 * the learner is scored against the answer key, and the score placeholders
 * are filled in.
 */
module Renderer {
  import opened Wrappers
  import opened Text
  import opened Detector
  import opened Placeholders
  import opened Grading

  /** The body of a document: its paragraphs, each the texts of its runs. */
  type Document = seq<seq<string>>

  /** U+2611 and U+2610, the ticked and the empty ballot box. */
  const Checked: char := '\U{2611}'
  const Unchecked: char := '\U{2610}'

  // ---------------------------------------------------------------------
  // The list operations on the copy of the options.

  /** The position a Python index `i` denotes in a list of length `n`;
      negative indices count from the end, and anything else raises. */
  function PyIndex(n: nat, i: int): (r: Option<nat>)
    ensures r.Some? <==> -(n as int) <= i < n
    ensures r.Some? ==> r.value < n && (r.value == i || r.value == n + i)
  {
    if 0 <= i < n then Some(i) else if -(n as int) <= i < 0 then Some(n + i) else None
  }

  /** `cr = reps.pop(i); reps.insert(0, cr)`, `None` when `pop` raises. */
  function MoveToFront<T>(s: seq<T>, i: int): (r: Option<seq<T>>)
    ensures r.Some? <==> PyIndex(|s|, i).Some?
    ensures r.Some? ==> |r.value| == |s|
  {
    match PyIndex(|s|, i)
    case None => None
    case Some(k) => Some([s[k]] + (s[..k] + s[k + 1..]))
  }

  /** The option moved is first, the others keep their relative order, and
      nothing is gained or lost. */
  lemma MoveToFrontSpec<T>(s: seq<T>, i: int)
    requires PyIndex(|s|, i).Some?
    ensures var r, k := MoveToFront(s, i).value, PyIndex(|s|, i).value;
            && r[0] == s[k]
            && (forall j :: 0 <= j < k ==> r[j + 1] == s[j])
            && (forall j :: k < j < |s| ==> r[j] == s[j])
            && multiset(r) == multiset(s)
  {
    var k := PyIndex(|s|, i).value;
    assert s == s[..k] + [s[k]] + s[k + 1..];
  }

  /** Exchanging the elements at two positions. */
  function Swap<T>(s: seq<T>, i: nat, j: nat): (r: seq<T>)
    requires i < |s| && j < |s|
    ensures |r| == |s|
  {
    s[i := s[j]][j := s[i]]
  }

  /** Every exchange stays inside a list of length `n`. */
  predicate SwapsFit(swaps: seq<(nat, nat)>, n: nat)
  {
    forall k :: 0 <= k < |swaps| ==> swaps[k].0 < n && swaps[k].1 < n
  }

  /** `random.shuffle(reps)`. The order it produces is an input of the model,
      given as the exchanges that produce it; every order can be produced so
      (`ShuffleReachesAll`). */
  function Shuffle<T>(s: seq<T>, swaps: seq<(nat, nat)>): (r: seq<T>)
    requires SwapsFit(swaps, |s|)
    ensures |r| == |s|
  {
    if swaps == [] then s
    else
      var last := swaps[|swaps| - 1];
      Swap(Shuffle(s, swaps[..|swaps| - 1]), last.0, last.1)
  }

  /** An exchange keeps the elements. */
  lemma SwapPermutes<T>(s: seq<T>, i: nat, j: nat)
    requires i < |s| && j < |s|
    ensures multiset(Swap(s, i, j)) == multiset(s)
  {
    if i != j {
      var t := s[i := s[j]];
      assert multiset(t) == multiset(s) - multiset{s[i]} + multiset{s[j]};
      assert multiset(t[j := s[i]]) == multiset(t) - multiset{t[j]} + multiset{s[i]};
    }
  }

  /** The shuffled list is a permutation of the list. */
  lemma {:induction false} ShufflePermutes<T>(s: seq<T>, swaps: seq<(nat, nat)>)
    requires SwapsFit(swaps, |s|)
    ensures multiset(Shuffle(s, swaps)) == multiset(s)
  {
    if swaps != [] {
      var init := swaps[..|swaps| - 1];
      var last := swaps[|swaps| - 1];
      ShufflePermutes(s, init);
      SwapPermutes(Shuffle(s, init), last.0, last.1);
    }
  }

  /** Shuffling by two lists of exchanges in turn is shuffling by both. */
  lemma {:induction false} ShuffleThen<T>(s: seq<T>, a: seq<(nat, nat)>, b: seq<(nat, nat)>)
    requires SwapsFit(a, |s|) && SwapsFit(b, |s|)
    ensures SwapsFit(a + b, |s|)
    ensures Shuffle(Shuffle(s, a), b) == Shuffle(s, a + b)
    decreases |b|
  {
    assert SwapsFit(a + b, |s|) by {
      forall k | 0 <= k < |a + b| ensures (a + b)[k].0 < |s| && (a + b)[k].1 < |s| {
        if k < |a| {
          assert (a + b)[k] == a[k];
        } else {
          assert (a + b)[k] == b[k - |a|];
        }
      }
    }
    if b == [] {
      assert a + b == a;
    } else {
      var init := b[..|b| - 1];
      assert SwapsFit(init, |s|) by {
        forall k | 0 <= k < |init| ensures init[k].0 < |s| && init[k].1 < |s| {
          assert init[k] == b[k];
        }
      }
      ShuffleThen(s, a, init);
      assert (a + b)[..|a + b| - 1] == a + init;
      assert (a + b)[|a + b| - 1] == b[|b| - 1];
    }
  }

  /** One exchange is that exchange. */
  lemma ShuffleOne<T>(s: seq<T>, i: nat, j: nat)
    requires i < |s| && j < |s|
    ensures SwapsFit([(i, j)], |s|) && Shuffle(s, [(i, j)]) == Swap(s, i, j)
  {
    assert [(i, j)][..0] == [];
  }

  /** The element wanted at `lo` is among the elements from `lo` on. */
  lemma FindInRest<T>(s: seq<T>, t: seq<T>, lo: nat) returns (m: nat)
    requires lo < |s| == |t| && multiset(s[lo..]) == multiset(t[lo..])
    ensures lo <= m < |s| && s[m] == t[lo]
  {
    assert t[lo..][0] == t[lo];
    assert t[lo] in multiset(s[lo..]);
    var x :| 0 <= x < |s[lo..]| && s[lo..][x] == t[lo];
    m := lo + x;
  }

  /** An exchange from `lo` on is the same exchange on the slice from `lo`. */
  lemma SwapSlice<T>(s: seq<T>, lo: nat, m: nat)
    requires lo <= m < |s|
    ensures Swap(s, lo, m)[lo..] == Swap(s[lo..], 0, m - lo)
  {
    var u, v := Swap(s, lo, m)[lo..], Swap(s[lo..], 0, m - lo);
    forall k | 0 <= k < |u| ensures u[k] == v[k] {
      assert u[k] == Swap(s, lo, m)[lo + k];
    }
  }

  /** Removing the first element removes one copy of it. */
  lemma DropHead<T>(u: seq<T>)
    requires u != []
    ensures multiset(u[1..]) == multiset(u) - multiset{u[0]}
  {
    assert u == [u[0]] + u[1..];
  }

  /** Exchanging the wanted element into place extends the agreeing prefix by one. */
  lemma PrefixAfterSwap<T>(s: seq<T>, t: seq<T>, lo: nat, m: nat)
    requires lo <= m < |s| == |t| && s[m] == t[lo] && s[..lo] == t[..lo]
    ensures Swap(s, lo, m)[..lo + 1] == t[..lo + 1]
  {
    var s' := Swap(s, lo, m);
    forall j | 0 <= j <= lo ensures s'[j] == t[j] {
      if j < lo {
        assert s[..lo][j] == t[..lo][j];
      }
    }
  }

  /** ... and leaves the same elements after it. */
  lemma RestAfterSwap<T>(s: seq<T>, t: seq<T>, lo: nat, m: nat)
    requires lo <= m < |s| == |t| && s[m] == t[lo] && multiset(s[lo..]) == multiset(t[lo..])
    ensures multiset(Swap(s, lo, m)[lo + 1..]) == multiset(t[lo + 1..])
  {
    var u := Swap(s, lo, m)[lo..];
    SwapSlice(s, lo, m);
    SwapPermutes(s[lo..], 0, m - lo);
    DropHead(u);
    DropHead(t[lo..]);
    assert u[1..] == Swap(s, lo, m)[lo + 1..];
    assert t[lo..][1..] == t[lo + 1..];
  }

  /** The exchanges that bring the elements of `t` into place one by one,
      from position `lo` on. */
  lemma {:induction false} ShuffleReachesFrom<T>(s: seq<T>, t: seq<T>, lo: nat) returns (swaps: seq<(nat, nat)>)
    requires lo <= |s| == |t| && s[..lo] == t[..lo] && multiset(s[lo..]) == multiset(t[lo..])
    ensures SwapsFit(swaps, |s|) && Shuffle(s, swaps) == t
    decreases |s| - lo
  {
    if lo == |s| {
      assert s == s[..lo] && t == t[..lo];
      swaps := [];
    } else {
      var m := FindInRest(s, t, lo);
      PrefixAfterSwap(s, t, lo, m);
      RestAfterSwap(s, t, lo, m);
      var rest := ShuffleReachesFrom(Swap(s, lo, m), t, lo + 1);
      ShuffleOne(s, lo, m);
      ShuffleThen(s, [(lo, m)], rest);
      swaps := [(lo, m)] + rest;
    }
  }

  /** Every permutation of the list is a possible outcome of the shuffle. */
  lemma ShuffleReachesAll<T>(s: seq<T>, t: seq<T>)
    requires multiset(t) == multiset(s)
    ensures exists swaps :: SwapsFit(swaps, |s|) && Shuffle(s, swaps) == t
  {
    assert |t| == |multiset(t)| == |multiset(s)| == |s|;
    assert s[0..] == s && t[0..] == t;
    var swaps := ShuffleReachesFrom(s, t, 0);
  }

  // ---------------------------------------------------------------------
  // The reordering of one question (app.py:142-151).

  /** What `st.session_state` holds for the run: which questions are frozen
      (`figees`), the option chosen for a frozen question
      (`reponses_correctes`), and the answer key (`correct_answers`). */
  datatype Session = Session(frozen: map<nat, bool>, chosen: map<nat, int>, key: map<string, string>)

  /** `figees.get(q['index'], False)`. */
  predicate IsFrozen(s: Session, q: Question)
  {
    q.index in s.frozen && s.frozen[q.index]
  }

  /** `reponses_correctes.get(q['index'], q['correct_idx'])`, `None` standing
      for Python's `None`. */
  function ChosenIndex(s: Session, q: Question): Option<int>
  {
    if q.index in s.chosen then Some(s.chosen[q.index])
    else if q.correctIdx.Some? then Some(q.correctIdx.value)
    else None
  }

  /** The options of `q` in the order of this copy; `None` when `pop` raises. */
  function Reordered(s: Session, q: Question, swaps: seq<(nat, nat)>): (r: Option<seq<Answer>>)
    requires SwapsFit(swaps, |q.answers|)
    ensures r.Some? ==> |r.value| == |q.answers|
  {
    if IsFrozen(s, q) then
      match ChosenIndex(s, q)
      case None => None
      case Some(bi) => MoveToFront(q.answers, bi)
    else
      var front := if q.correctIdx.Some? then MoveToFront(q.answers, q.correctIdx.value) else Some(q.answers);
      match front
      case None => None
      case Some(f) => Some(Shuffle(f, swaps))
  }

  /** The copy holds the same options as the question, whatever the branch. */
  lemma ReorderedPermutes(s: Session, q: Question, swaps: seq<(nat, nat)>)
    requires SwapsFit(swaps, |q.answers|) && Reordered(s, q, swaps).Some?
    ensures multiset(Reordered(s, q, swaps).value) == multiset(q.answers)
  {
    if IsFrozen(s, q) {
      MoveToFrontSpec(q.answers, ChosenIndex(s, q).value);
    } else {
      var f := q.answers;
      if q.correctIdx.Some? {
        MoveToFrontSpec(q.answers, q.correctIdx.value);
        f := MoveToFront(q.answers, q.correctIdx.value).value;
      }
      ShufflePermutes(f, swaps);
    }
  }

  /** A frozen question puts the chosen option first, defaulting to the
      correct one, and keeps the others in their order of the template. */
  lemma FrozenOrder(s: Session, q: Question, swaps: seq<(nat, nat)>)
    requires SwapsFit(swaps, |q.answers|) && IsFrozen(s, q)
    ensures Reordered(s, q, swaps).Some? <==>
              ChosenIndex(s, q).Some? && -|q.answers| <= ChosenIndex(s, q).value < |q.answers|
    ensures Reordered(s, q, swaps).Some? ==>
              var r, k := Reordered(s, q, swaps).value, PyIndex(|q.answers|, ChosenIndex(s, q).value).value;
              && r[0] == q.answers[k]
              && (forall j :: 0 <= j < k ==> r[j + 1] == q.answers[j])
              && (forall j :: k < j < |q.answers| ==> r[j] == q.answers[j])
  {
    if Reordered(s, q, swaps).Some? {
      MoveToFrontSpec(q.answers, ChosenIndex(s, q).value);
    }
  }

  /** A question the detector keeps is never a failure when it is not frozen. */
  lemma UnfrozenValidSucceeds(s: Session, q: Question, swaps: seq<(nat, nat)>)
    requires SwapsFit(swaps, |q.answers|) && !IsFrozen(s, q)
    requires IsValid(q) && q.correctIdx.value < |q.answers|
    ensures Reordered(s, q, swaps).Some?
  {
  }

  /** The correct option of a question that is not frozen is not kept first:
      some shuffle puts it at any position `k` of the copy. */
  lemma CorrectNotPinned(s: Session, q: Question, k: nat)
    requires !IsFrozen(s, q) && q.correctIdx.Some? && q.correctIdx.value < |q.answers|
    requires k < |q.answers|
    ensures exists swaps :: SwapsFit(swaps, |q.answers|) && Reordered(s, q, swaps).Some?
                            && Reordered(s, q, swaps).value[k] == q.answers[q.correctIdx.value]
  {
    var c := q.correctIdx.value;
    MoveToFrontSpec(q.answers, c);
    var f := MoveToFront(q.answers, c).value;
    ShuffleOne(f, 0, k);
    assert Reordered(s, q, [(0, k)]) == Some(Swap(f, 0, k));
  }

  // ---------------------------------------------------------------------
  // The write-back (app.py:153-158).

  /** `reps.index(r)`: the first position holding an option equal to `r`. */
  function IndexOf<T(==)>(s: seq<T>, x: T): (i: nat)
    requires x in s
    ensures i < |s| && s[i] == x && forall j :: 0 <= j < i ==> s[j] != x
  {
    if s[0] == x then 0 else 1 + IndexOf(s[1..], x)
  }

  /** The text an option's paragraph is given. */
  function OptionLine(a: Answer, box: char): string
  {
    [a.letter] + " - " + a.text + " " + [box]
  }

  /** The box of option `r`: ticked when `reps.index(r) == 0`. */
  function Box(reps: seq<Answer>, r: Answer): char
    requires r in reps
  {
    if IndexOf(reps, r) == 0 then Checked else Unchecked
  }

  /** The document after the loop has written back the first `n` options:
      `clear()` and `add_run` leave the paragraph with the line as its only
      run; an index past the last paragraph is skipped. */
  function WrittenBack(doc: Document, reps: seq<Answer>, n: nat): (r: Document)
    requires n <= |reps|
    ensures |r| == |doc|
  {
    if n == 0 then doc
    else
      var d := WrittenBack(doc, reps, n - 1);
      var a := reps[n - 1];
      if a.index < |d| then d[a.index := [OptionLine(a, Box(reps, a))]] else d
  }

  /** The options sit on different paragraphs. */
  predicate DistinctIndices(reps: seq<Answer>)
  {
    forall j, j' :: 0 <= j < j' < |reps| ==> reps[j].index != reps[j'].index
  }

  /** A paragraph that is no option's paragraph is left as it is. */
  lemma {:induction false} WrittenBackUntouched(doc: Document, reps: seq<Answer>, n: nat, p: nat)
    requires n <= |reps| && p < |doc|
    requires forall j :: 0 <= j < n ==> reps[j].index != p
    ensures WrittenBack(doc, reps, n)[p] == doc[p]
  {
    if n > 0 {
      WrittenBackUntouched(doc, reps, n - 1, p);
    }
  }

  /** Each option whose paragraph exists is written over it with its own
      letter and text, ticked exactly when it comes first. */
  lemma {:induction false} WrittenBackOption(doc: Document, reps: seq<Answer>, n: nat, j: nat)
    requires j < n <= |reps| && DistinctIndices(reps) && reps[j].index < |doc|
    ensures WrittenBack(doc, reps, n)[reps[j].index]
            == [OptionLine(reps[j], if j == 0 then Checked else Unchecked)]
  {
    if j == n - 1 {
      var i := IndexOf(reps, reps[j]);
      assert i == j;
    } else {
      WrittenBackOption(doc, reps, n - 1, j);
      assert reps[n - 1].index != reps[j].index;
    }
  }

  /** The options sit on paragraphs in increasing order, as the detector builds them. */
  predicate IncreasingIndices(reps: seq<Answer>)
  {
    forall a, b :: 0 <= a < b < |reps| ==> reps[a].index < reps[b].index
  }

  /** With increasing paragraphs, no option occurs twice. */
  lemma {:induction false} IncreasingOnce(s: seq<Answer>, x: Answer)
    requires IncreasingIndices(s)
    ensures multiset(s)[x] <= 1
  {
    if s != [] {
      var tail := s[1..];
      IncreasingOnce(tail, x);
      assert s == [s[0]] + tail;
      assert s[0] == x ==> x !in tail by {
        forall k | 0 <= k < |tail| ensures tail[k].index > s[0].index {
          assert tail[k] == s[k + 1];
        }
      }
    }
  }

  /** Two positions of a list holding each element at most once differ in content. */
  lemma OnceDistinct<T>(r: seq<T>, j: nat, j': nat)
    requires j < j' < |r| && multiset(r)[r[j]] <= 1
    ensures r[j] != r[j']
  {
    assert r == r[..j] + [r[j]] + r[j + 1..j'] + [r[j']] + r[j' + 1..];
  }

  /** The options of any copy of a question the detector builds sit on
      different paragraphs. */
  lemma ReorderedDistinct(q: Question, r: seq<Answer>)
    requires IncreasingIndices(q.answers) && multiset(r) == multiset(q.answers)
    ensures DistinctIndices(r)
  {
    forall j, j' | 0 <= j < j' < |r| ensures r[j].index != r[j'].index {
      IncreasingOnce(q.answers, r[j]);
      OnceDistinct(r, j, j');
      assert r[j] in multiset(q.answers) && r[j'] in multiset(q.answers);
      var a :| 0 <= a < |q.answers| && q.answers[a] == r[j];
      var b :| 0 <= b < |q.answers| && q.answers[b] == r[j'];
      assert a != b;
    }
  }

  // ---------------------------------------------------------------------
  // Scoring (app.py:143, app.py:160-161) and one question as a whole.

  /** What the question adds to the score: 1 when its number is in the key
      and the first option's letter is the key's; `None` when `reps[0]`
      raises. */
  function Point(key: map<string, string>, num: string, reps: seq<Answer>): Option<nat>
  {
    if num !in key then Some(0)
    else if reps == [] then None
    else if UpperString([reps[0].letter]) == key[num] then Some(1)
    else Some(0)
  }

  /** One turn of the loop at app.py:141-161, `None` when it raises: the
      document after it and what the question adds to the score. */
  function ProcessQuestion(doc: Document, s: Session, q: Question, swaps: seq<(nat, nat)>): (r: Option<(Document, nat)>)
    requires SwapsFit(swaps, |q.answers|)
    ensures r.Some? ==> |r.value.0| == |doc| && r.value.1 <= 1
  {
    match FirstToken(q.text)
    case None => None
    case Some(num) =>
      match Reordered(s, q, swaps)
      case None => None
      case Some(reps) =>
        match Point(s.key, num, reps)
        case None => None
        case Some(p) => Some((WrittenBack(doc, reps, |reps|), p))
  }

  /** A question scores exactly when its number, the first token of its text,
      is in the key with the letter of the option put first. */
  lemma PointSpec(doc: Document, s: Session, q: Question, swaps: seq<(nat, nat)>)
    requires SwapsFit(swaps, |q.answers|) && ProcessQuestion(doc, s, q, swaps).Some?
    ensures var num, reps := FirstToken(q.text).value, Reordered(s, q, swaps).value;
            ProcessQuestion(doc, s, q, swaps).value.1 == 1 <==>
              num in s.key && reps != [] && [Upper(reps[0].letter)] == s.key[num]
  {
    var reps := Reordered(s, q, swaps).value;
    if reps != [] {
      UpperStringAt([reps[0].letter], 0);
    }
  }

  // ---------------------------------------------------------------------
  // All the questions, and the whole document.

  /** One order of the options per question. */
  predicate ShufflesFit(qs: seq<Question>, shuffles: seq<seq<(nat, nat)>>)
  {
    |shuffles| == |qs| && forall i :: 0 <= i < |qs| ==> SwapsFit(shuffles[i], |qs[i].answers|)
  }

  /** The document and the score once the questions from `i` on have been
      processed, starting from `doc` and `score`; `None` as soon as one turn
      raises. */
  function ProcessFrom(doc: Document, score: nat, s: Session, qs: seq<Question>,
                       shuffles: seq<seq<(nat, nat)>>, i: nat): (r: Option<(Document, nat)>)
    requires i <= |qs| && ShufflesFit(qs, shuffles)
    decreases |qs| - i
  {
    if i == |qs| then Some((doc, score))
    else
      match ProcessQuestion(doc, s, qs[i], shuffles[i])
      case None => None
      case Some(dp) => ProcessFrom(dp.0, score + dp.1, s, qs, shuffles, i + 1)
  }

  /** A turn that succeeds hands its document and score to the next question. */
  lemma ProcessFromStep(doc: Document, score: nat, s: Session, qs: seq<Question>,
                        shuffles: seq<seq<(nat, nat)>>, i: nat, d: Document, p: nat)
    requires i < |qs| && ShufflesFit(qs, shuffles)
    requires ProcessQuestion(doc, s, qs[i], shuffles[i]) == Some((d, p))
    ensures ProcessFrom(doc, score, s, qs, shuffles, i) == ProcessFrom(d, score + p, s, qs, shuffles, i + 1)
  {
  }

  /** A turn that raises ends the whole loop. */
  lemma ProcessFromFail(doc: Document, score: nat, s: Session, qs: seq<Question>,
                        shuffles: seq<seq<(nat, nat)>>, i: nat)
    requires i < |qs| && ShufflesFit(qs, shuffles)
    requires ProcessQuestion(doc, s, qs[i], shuffles[i]).None?
    ensures ProcessFrom(doc, score, s, qs, shuffles, i).None?
  {
  }

  /** The document keeps its paragraphs, and each remaining question adds 0
      or 1 to the score. */
  lemma {:induction false} ProcessFromBounds(doc: Document, score: nat, s: Session, qs: seq<Question>,
                                             shuffles: seq<seq<(nat, nat)>>, i: nat)
    requires i <= |qs| && ShufflesFit(qs, shuffles)
    ensures var r := ProcessFrom(doc, score, s, qs, shuffles, i);
            r.Some? ==> |r.value.0| == |doc| && score <= r.value.1 <= score + (|qs| - i)
    decreases |qs| - i
  {
    if i < |qs| {
      var turn := ProcessQuestion(doc, s, qs[i], shuffles[i]);
      if turn.Some? {
        var d, p := turn.value.0, turn.value.1;
        ProcessFromStep(doc, score, s, qs, shuffles, i, d, p);
        ProcessFromBounds(d, score + p, s, qs, shuffles, i + 1);
      } else {
        ProcessFromFail(doc, score, s, qs, shuffles, i);
      }
    }
  }

  /** The row of the learner spreadsheet, each cell in its `str` form. */
  datatype Learner = Learner(firstName: string, lastName: string, email: string,
                             sessionRef: string, date: string)

  /** The learner placeholders (app.py:122-128). */
  function LearnerReplacements(l: Learner): Replacements
  {
    [("{{prenom}}", l.firstName), ("{{nom}}", l.lastName), ("{{email}}", l.email),
     ("{{ref_session}}", l.sessionRef), ("{{date_evaluation}}", l.date)]
  }

  /** The score placeholders (app.py:165-169): both score fields receive the score. */
  function ScoreReplacements(score: nat, outcome: string): Replacements
  {
    [("{{result_mod1}}", NatToString(score)), ("{{result_mod_total}}", NatToString(score)),
     ("{{result_evaluation}}", outcome)]
  }

  /** `str(n)` holds no brace. */
  lemma NumberHoldsNoBrace(n: nat)
    ensures '{' !in NatToString(n)
  {
    var d := NatToString(n);
    forall i | 0 <= i < |d| ensures d[i] != '{' {
      assert IsDigit(d[i]);
    }
  }

  /** A key without spaces holding a character the text lacks does not
      occur in the text in any of its forms. */
  lemma MissingCharApart(t: string, k: string, c: char)
    requires c in k && c !in t && SpaceLess(k)
    ensures Absent(t, k)
  {
    VariantsOfSpaceLess(k);
    ContainsSpec(t, k);
    var j :| 0 <= j < |k| && k[j] == c;
    forall i | 0 <= i && i + |k| <= |t| ensures !OccursAt(t, k, i) {
      assert t[i..i + |k|][j] == t[i + j];
      assert t[i + j] in t;
    }
  }

  /** A key without spaces that starts with a brace, set amid text holding no
      brace, is replaced by a value holding no brace, and nothing else changes. */
  lemma KeyInContext(a: string, k: string, b: string, v: string)
    requires k != [] && k[0] == '{' && SpaceLess(k)
    requires '{' !in a && '{' !in b && '{' !in v
    ensures RunStep(a + k + b, k, v) == a + v + b
  {
    var t := a + k + b;
    VariantsOfSpaceLess(k);
    RunStepIsReplace(t, k, v);
    assert k[0] in k;
    assert t[|a|..|a| + |k|] == k;
    forall j | 0 <= j < |a| ensures !OccursAt(t, k, j) {
      if j + |k| <= |t| {
        assert t[j..j + |k|][0] == a[j];
        assert a[j] in a;
      }
    }
    ReplaceFirst(t, k, v, |a|);
    assert t[..|a|] == a && t[|a| + |k|..] == b;
    MissingCharApart(b, k, '{');
    ReplaceAbsent(b, k, v);
    MissingCharApart(a + v + b, k, '{');
    ReplaceAbsent(a + v + b, k, v);
  }

  /** A key opening with two braces does not occur in another key that
      has braces only at its first two positions and differs from it at
      position 12, when that key is set amid text holding no brace. */
  lemma KeyApartInContext(a: string, k1: string, k2: string, b: string)
    requires |k1| > 12 && k1[0] == '{' && k1[1] == '{' && SpaceLess(k1)
    requires |k2| > 12 && k2[12] != k1[12] && forall i :: 2 <= i < |k2| ==> k2[i] != '{'
    requires '{' !in a && '{' !in b
    ensures Absent(a + k2 + b, k1)
  {
    var t := a + k2 + b;
    VariantsOfSpaceLess(k1);
    ContainsSpec(t, k1);
    forall j | 0 <= j && j + |k1| <= |t| ensures !OccursAt(t, k1, j) {
      var w := t[j..j + |k1|];
      if j < |a| {
        assert w[0] == a[j] && a[j] in a;
      } else if j == |a| {
        assert w[12] == k2[12];
      } else if j == |a| + 1 {
        assert w[1] == k2[2];
      } else if j < |a| + |k2| {
        assert w[0] == k2[j - |a|];
      } else {
        assert w[0] == b[j - |a| - |k2|] && b[j - |a| - |k2|] in b;
      }
    }
  }

  /** The facts about the score placeholders the lemmas above need. */
  lemma ScoreKeysPlain(score: nat, outcome: string)
    ensures forall i :: 0 <= i < 3 ==>
              var k := ScoreReplacements(score, outcome)[i].0; k != [] && k[0] == '{' && SpaceLess(k)
    ensures var k1, k2 := ScoreReplacements(score, outcome)[0].0, ScoreReplacements(score, outcome)[1].0;
            && |k1| > 12 && k1[1] == '{' && |k2| > 12 && k2[12] != k1[12]
            && forall i :: 2 <= i < |k2| ==> k2[i] != '{'
  {
    var repl := ScoreReplacements(score, outcome);
    var k2 := repl[1].0;
    assert repl[0].0[12] == '1' && k2[12] == '_';
    var r := k2[2..];
    forall c | 0 <= c < |r| ensures r[c] != '{' {
      assert r[c] in r;
    }
    forall i | 2 <= i < |k2| ensures k2[i] != '{' {
      assert k2[i] == r[i - 2];
    }
    forall i | 0 <= i < 3 ensures SpaceLess(repl[i].0) {
      var k := repl[i].0;
      forall c | 0 <= c < |k| ensures k[c] != ' ' {
        assert k[c] in k;
      }
    }
  }

  /** A run holding one of the two score placeholders, amid text with no
      brace, ends up with `str(score)` in its place, whatever the outcome. */
  lemma ScoreFieldFilled(score: nat, outcome: string, a: string, key: string, b: string)
    requires key == "{{result_mod1}}" || key == "{{result_mod_total}}"
    requires '{' !in a && '{' !in b
    ensures RunSteps(a + key + b, ScoreReplacements(score, outcome)) == a + NatToString(score) + b
  {
    var repl, v := ScoreReplacements(score, outcome), NatToString(score);
    var k1, k2, k3 := repl[0].0, repl[1].0, repl[2].0;
    var t := a + key + b;
    ScoreKeysPlain(score, outcome);
    NumberHoldsNoBrace(score);
    assert repl[..1][..0] == [] && repl[..2][..1] == repl[..1] && repl[..3] == repl;
    var r1 := RunStep(t, k1, v);
    var r2 := RunStep(r1, k2, v);
    assert RunSteps(t, repl[..1]) == r1;
    assert RunSteps(t, repl[..2]) == r2;
    assert k2[0] in k2 && k3[0] in k3;
    MissingCharApart(a + v + b, k3, '{');
    if key == k1 {
      KeyInContext(a, k1, b, v);
      MissingCharApart(a + v + b, k2, '{');
      RunStepUntouched(a + v + b, k2, v);
    } else {
      KeyApartInContext(a, k1, k2, b);
      RunStepUntouched(t, k1, v);
      KeyInContext(a, k2, b, v);
    }
    RunStepUntouched(r2, k3, outcome);
  }

  /** Every paragraph of the body through `remplacer_placeholders`. */
  function SubstituteDoc(doc: Document, repl: Replacements): (r: Document)
    ensures |r| == |doc|
  {
    seq(|doc|, i requires 0 <= i < |doc| => Substitute(doc[i], repl))
  }

  /** The document and the score once the question loop has run over the
      copy filled in with the learner's details (app.py:130-161). */
  function Processed(template: Document, l: Learner, s: Session, qs: seq<Question>,
                     shuffles: seq<seq<(nat, nat)>>): Option<(Document, nat)>
    requires ShufflesFit(qs, shuffles)
  {
    ProcessFrom(SubstituteDoc(template, LearnerReplacements(l)), 0, s, qs, shuffles, 0)
  }

  /** What `generer_document` returns: the document, the score and the outcome. */
  datatype Generated = Generated(doc: Option<Document>, score: nat, outcome: string)

  /** `generer_document` for one learner; any exception gives `(None, 0, "Erreur")`. */
  function Generate(template: Document, l: Learner, s: Session, qs: seq<Question>,
                    shuffles: seq<seq<(nat, nat)>>): Generated
    requires ShufflesFit(qs, shuffles)
  {
    match Processed(template, l, s, qs, shuffles)
    case None => Generated(None, 0, "Erreur")
    case Some(ds) =>
      var outcome := Outcome(ds.1, DefaultTotal);
      Generated(Some(SubstituteDoc(ds.0, ScoreReplacements(ds.1, outcome))), ds.1, outcome)
  }

  /** The copy has as many paragraphs as the template, the score is at most the number
      of questions, and the outcome is the label of the score out of 9, or
      `Erreur` with no document and a score of 0. */
  lemma GenerateSpec(template: Document, l: Learner, s: Session, qs: seq<Question>,
                     shuffles: seq<seq<(nat, nat)>>)
    requires ShufflesFit(qs, shuffles)
    ensures var g := Generate(template, l, s, qs, shuffles);
            && g.score <= |qs|
            && (g.doc.Some? ==> |g.doc.value| == |template| && g.outcome == Outcome(g.score, DefaultTotal))
            && (g.doc.None? ==> g.score == 0 && g.outcome == "Erreur")
  {
    var filled := SubstituteDoc(template, LearnerReplacements(l));
    ProcessFromBounds(filled, 0, s, qs, shuffles, 0);
  }

  /** In the copy returned, a run the question loop left holding one of the
      two score placeholders, amid text with no brace, holds `str(score)` in
      its place, and its paragraph keeps its runs. */
  lemma GenerateFillsScore(template: Document, l: Learner, s: Session, qs: seq<Question>,
                           shuffles: seq<seq<(nat, nat)>>, p: nat, j: nat,
                           a: string, key: string, b: string)
    requires ShufflesFit(qs, shuffles) && Processed(template, l, s, qs, shuffles).Some?
    requires var d := Processed(template, l, s, qs, shuffles).value.0;
             p < |d| && j < |d[p]| && d[p][j] == a + key + b
    requires key == "{{result_mod1}}" || key == "{{result_mod_total}}"
    requires '{' !in a && '{' !in b
    ensures var g, d := Generate(template, l, s, qs, shuffles), Processed(template, l, s, qs, shuffles).value.0;
            && g.doc.Some? && |g.doc.value| == |d| && |g.doc.value[p]| == |d[p]|
            && g.doc.value[p][j] == a + NatToString(g.score) + b
  {
    var ds := Processed(template, l, s, qs, shuffles).value;
    var repl := ScoreReplacements(ds.1, Outcome(ds.1, DefaultTotal));
    assert ds.0[p][j] != [];
    ConcatEmpty(ds.0[p]);
    SubstituteAt(ds.0[p], repl, j);
    ScoreFieldFilled(ds.1, Outcome(ds.1, DefaultTotal), a, key, b);
  }

  /** The denominator stays 9 whatever the number of questions: a template
      with fewer than 5 questions always yields `Non acquis`. */
  lemma FewQuestionsNeverPass(template: Document, l: Learner, s: Session, qs: seq<Question>,
                              shuffles: seq<seq<(nat, nat)>>)
    requires ShufflesFit(qs, shuffles) && |qs| < 5
    requires Generate(template, l, s, qs, shuffles).doc.Some?
    ensures Generate(template, l, s, qs, shuffles).outcome == NotAcquired
  {
    GenerateSpec(template, l, s, qs, shuffles);
    OutcomeOutOfNine(Generate(template, l, s, qs, shuffles).score);
  }

  // ---------------------------------------------------------------------
  // The procedure.

  /** A fresh array holding the runs of a paragraph. */
  method RunsOf(p: seq<string>) returns (a: array<string>)
    ensures fresh(a) && a[..] == p
  {
    a := new string[|p|](j requires 0 <= j < |p| => p[j]);
  }

  /** The `for p in doc.paragraphs: remplacer_placeholders(p, repl)` loops. */
  method ApplyReplacements(doc: array<seq<string>>, repl: Replacements)
    modifies doc
    ensures doc[..] == SubstituteDoc(old(doc[..]), repl)
  {
    var i := 0;
    while i < doc.Length
      invariant i <= doc.Length
      invariant forall j :: 0 <= j < i ==> doc[j] == Substitute(old(doc[j]), repl)
      invariant forall j :: i <= j < doc.Length ==> doc[j] == old(doc[j])
    {
      var runs := RunsOf(doc[i]);
      ReplacePlaceholders(runs, repl);
      doc[i] := runs[..];
      i := i + 1;
    }
  }

  /** The write-back loop of app.py:153-158. */
  method WriteBack(doc: array<seq<string>>, reps: seq<Answer>)
    modifies doc
    ensures doc[..] == WrittenBack(old(doc[..]), reps, |reps|)
  {
    var n := 0;
    while n < |reps|
      invariant n <= |reps|
      invariant doc[..] == WrittenBack(old(doc[..]), reps, n)
    {
      var r := reps[n];
      var idx := r.index;
      if idx < doc.Length {
        var box := if IndexOf(reps, r) == 0 then Checked else Unchecked;
        doc[idx] := [OptionLine(r, box)];
      }
      n := n + 1;
    }
  }

  /** One turn of the loop of app.py:141-161 on the copy of the document;
      `ok` is false when the turn raises. */
  method ProcessOne(doc: array<seq<string>>, s: Session, q: Question, swaps: seq<(nat, nat)>)
    returns (ok: bool, point: nat)
    requires SwapsFit(swaps, |q.answers|)
    modifies doc
    ensures ok <==> ProcessQuestion(old(doc[..]), s, q, swaps).Some?
    ensures ok ==> ProcessQuestion(old(doc[..]), s, q, swaps) == Some((doc[..], point))
  {
    var num := FirstToken(q.text);
    if num.None? {
      return false, 0;
    }
    var reps := q.answers;
    if q.index in s.frozen && s.frozen[q.index] {
      var bi: Option<int> := if q.index in s.chosen then Some(s.chosen[q.index])
                             else if q.correctIdx.Some? then Some(q.correctIdx.value) else None;
      if bi.None? {
        return false, 0;
      }
      var k := PyIndex(|reps|, bi.value);
      if k.None? {
        return false, 0;
      }
      var cr := reps[k.value];
      reps := reps[..k.value] + reps[k.value + 1..];
      reps := [cr] + reps;
    } else {
      if q.correctIdx.Some? {
        var k := PyIndex(|reps|, q.correctIdx.value);
        if k.None? {
          return false, 0;
        }
        var cr := reps[k.value];
        reps := reps[..k.value] + reps[k.value + 1..];
        reps := [cr] + reps;
      }
      reps := Shuffle(reps, swaps);
    }
    assert Reordered(s, q, swaps) == Some(reps);
    WriteBack(doc, reps);
    if num.value in s.key {
      if reps == [] {
        return false, 0;
      }
      point := if UpperString([reps[0].letter]) == s.key[num.value] then 1 else 0;
    } else {
      point := 0;
    }
    ok := true;
  }

  /** One turn of the loop, followed through in the specification: the
      questions from `i` on yield from the new state what they yielded from
      the old one. */
  method Turn(doc: array<seq<string>>, s: Session, qs: seq<Question>,
              shuffles: seq<seq<(nat, nat)>>, i: nat, score: nat) returns (ok: bool, score': nat)
    requires i < |qs| && ShufflesFit(qs, shuffles)
    modifies doc
    ensures !ok ==> ProcessFrom(old(doc[..]), score, s, qs, shuffles, i).None?
    ensures ok ==> ProcessFrom(old(doc[..]), score, s, qs, shuffles, i)
                   == ProcessFrom(doc[..], score', s, qs, shuffles, i + 1)
  {
    ghost var before := doc[..];
    var point;
    ok, point := ProcessOne(doc, s, qs[i], shuffles[i]);
    ghost var after := doc[..];
    score' := score + point;
    if ok {
      ProcessFromStep(before, score, s, qs, shuffles, i, after, point);
    } else {
      ProcessFromFail(before, score, s, qs, shuffles, i);
    }
  }

  /** The loop of app.py:141-161 over all the questions; `ok` is false when
      a turn raises, which ends the loop. */
  method ProcessQuestions(doc: array<seq<string>>, s: Session, qs: seq<Question>,
                          shuffles: seq<seq<(nat, nat)>>) returns (ok: bool, score: nat)
    requires ShufflesFit(qs, shuffles)
    modifies doc
    ensures ok <==> ProcessFrom(old(doc[..]), 0, s, qs, shuffles, 0).Some?
    ensures ok ==> ProcessFrom(old(doc[..]), 0, s, qs, shuffles, 0) == Some((doc[..], score))
  {
    ghost var final := ProcessFrom(doc[..], 0, s, qs, shuffles, 0);
    score := 0;
    var i := 0;
    while i < |qs|
      invariant i <= |qs|
      invariant ProcessFrom(doc[..], score, s, qs, shuffles, i) == final
    {
      var okTurn;
      okTurn, score := Turn(doc, s, qs, shuffles, i, score);
      if !okTurn {
        return false, 0;
      }
      i := i + 1;
    }
    ok := true;
  }

  /** `generer_document(row, template)`, the template being given as its
      paragraphs and the session state and the shuffles as parameters. */
  method GenerateDocument(template: Document, l: Learner, s: Session, qs: seq<Question>,
                          shuffles: seq<seq<(nat, nat)>>) returns (g: Generated)
    requires ShufflesFit(qs, shuffles)
    ensures g == Generate(template, l, s, qs, shuffles)
  {
    var doc := new seq<string>[|template|](i requires 0 <= i < |template| => template[i]);
    assert doc[..] == template;
    ApplyReplacements(doc, LearnerReplacements(l));
    var ok, score := ProcessQuestions(doc, s, qs, shuffles);
    if !ok {
      return Generated(None, 0, "Erreur");
    }
    var outcome := Outcome(score, DefaultTotal);
    ApplyReplacements(doc, ScoreReplacements(score, outcome));
    g := Generated(Some(doc[..]), score, outcome);
  }
}
