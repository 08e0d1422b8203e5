/** The scorer, `calculate_scores` (app.py:352-359).

    For every recorded answer, in the order the answers were recorded, the scorer looks
    the answer's label up among its question's options; a label that is not an option
    is skipped, and otherwise each (career, weight) of the option is added to the
    career's running total in a `defaultdict`. A career becomes a key of the result
    the first time an option names it; a career no answer touches is not a key and
    reads as 0 through the default.

    The specification has two independent parts: `Touched` lists the careers in the
    order the answers name them, so the result's keys are `Dedup(Touched(...))`, and
    `CareerTotal` is the sum, over the answers, of the weight each gives a career.
 */
module Scorer {
  import opened Dicts
  import opened Catalog

  /** `st.session_state.responses`: question id to the label of the chosen option. */
  type Responses = Dict<string, string>
  type Scores = Dict<string, int>

  /** Every answered question is a question of the catalog; `QUESTIONS[question]`
      raises KeyError otherwise. */
  predicate AnswersKnown(cat: Catalog, responses: Responses)
  {
    forall i :: 0 <= i < |responses| ==> responses[i].0 in Keys(cat)
  }

  /** The weight an option gives career `c`: the sum of its entries for `c`. */
  function WeightOf(w: Weights, c: string): int
  {
    if w == [] then 0
    else WeightOf(w[..|w| - 1], c) + (if w[|w| - 1].0 == c then w[|w| - 1].1 else 0)
  }

  /** The weight the answer `response` to question `q` gives career `c`; an answer
      whose label is not an option of `q` gives nothing. */
  function Contribution(cat: Catalog, q: string, response: string, c: string): int
  {
    match Picked(cat, q, response)
    case Some(w) => WeightOf(w, c)
    case None => 0
  }

  /** The careers named by the options the answers pick, in the order the scorer
      meets them (with repetitions). */
  function Touched(cat: Catalog, responses: Responses): seq<string>
  {
    if responses == [] then []
    else
      var last := responses[|responses| - 1];
      Touched(cat, responses[..|responses| - 1]) +
        match Picked(cat, last.0, last.1)
        case Some(w) => Keys(w)
        case None => []
  }

  /** The total weight the answers give career `c`. */
  function CareerTotal(cat: Catalog, responses: Responses, c: string): int
  {
    if responses == [] then 0
    else
      var last := responses[|responses| - 1];
      CareerTotal(cat, responses[..|responses| - 1], c) + Contribution(cat, last.0, last.1, c)
  }

  /** The dictionary `calculate_scores` builds: every touched career, in order of
      first touch, with its total. */
  function ScoresOf(cat: Catalog, responses: Responses): Scores
    requires AnswersKnown(cat, responses)
  {
    var ks := Dedup(Touched(cat, responses));
    seq(|ks|, i requires 0 <= i < |ks| => (ks[i], CareerTotal(cat, responses, ks[i])))
  }

  lemma {:induction false} WeightOfUntouched(w: Weights, c: string)
    requires c !in Keys(w)
    ensures WeightOf(w, c) == 0
  {
    if w != [] {
      assert Keys(w[..|w| - 1]) == Keys(w)[..|w| - 1];
      WeightOfUntouched(w[..|w| - 1], c);
    }
  }

  /** A career that no picked option names has total 0. */
  lemma {:induction false} UntouchedIsZero(cat: Catalog, responses: Responses, c: string)
    requires c !in Touched(cat, responses)
    ensures CareerTotal(cat, responses, c) == 0
  {
    if responses != [] {
      var last := responses[|responses| - 1];
      UntouchedIsZero(cat, responses[..|responses| - 1], c);
      match Picked(cat, last.0, last.1)
      case Some(w) => WeightOfUntouched(w, c);
      case None =>
    }
  }

  /** The result of the scorer read through the `defaultdict`: its keys are the touched
      careers in order of first touch, without repeats, and every career, key or not,
      reads as its total. */
  lemma ScoresOfReading(cat: Catalog, responses: Responses)
    requires AnswersKnown(cat, responses)
    ensures Keys(ScoresOf(cat, responses)) == Dedup(Touched(cat, responses))
    ensures IsDict(ScoresOf(cat, responses))
    ensures forall c :: Get(ScoresOf(cat, responses), c) ==
                        (if c in Touched(cat, responses) then Some(CareerTotal(cat, responses, c)) else None)
    ensures forall c :: GetOr(ScoresOf(cat, responses), c, 0) == CareerTotal(cat, responses, c)
  {
    var s := ScoresOf(cat, responses);
    var ks := Dedup(Touched(cat, responses));
    assert Keys(s) == ks;
    forall c ensures Get(s, c) == if c in ks then Some(CareerTotal(cat, responses, c)) else None {
      if c in ks {
        var i :| 0 <= i < |ks| && ks[i] == c;
        GetEntry(s, i);
      }
    }
    forall c ensures GetOr(s, c, 0) == CareerTotal(cat, responses, c) {
      if c !in ks {
        UntouchedIsZero(cat, responses, c);
      }
    }
  }

  /** Extending the option prefix by one entry appends its career to the key order
      unless it has been met already. */
  lemma KeysPrefixStep(seen: seq<string>, weights: Weights, j: nat)
    requires j < |weights|
    ensures Dedup(seen + Keys(weights[..j + 1])) ==
            if weights[j].0 in seen + Keys(weights[..j]) then Dedup(seen + Keys(weights[..j]))
            else Dedup(seen + Keys(weights[..j])) + [weights[j].0]
  {
    assert seen + Keys(weights[..j + 1]) == (seen + Keys(weights[..j])) + [weights[j].0];
    DedupSnoc(seen + Keys(weights[..j]), weights[j].0);
  }

  /** Extending the option prefix by one entry adds its weight to its career. */
  lemma WeightPrefixStep(weights: Weights, j: nat, c: string)
    requires j < |weights|
    ensures WeightOf(weights[..j + 1], c) ==
            WeightOf(weights[..j], c) + (if weights[j].0 == c then weights[j].1 else 0)
  {
    assert weights[..j + 1][..j] == weights[..j];
  }

  /** One step of the inner loop keeps the key-order invariant. */
  lemma AddStepKeys(weights: Weights, seen: seq<string>, j: nat, r: Scores)
    requires j < |weights|
    requires Keys(r) == Dedup(seen + Keys(weights[..j]))
    ensures Keys(Increment(r, weights[j].0, weights[j].1)) == Dedup(seen + Keys(weights[..j + 1]))
  {
    KeysPrefixStep(seen, weights, j);
  }

  /** One step of the inner loop keeps the running-sum invariant. */
  lemma AddStepValues(scores: Scores, weights: Weights, j: nat, r: Scores)
    requires j < |weights|
    requires forall c :: GetOr(r, c, 0) == GetOr(scores, c, 0) + WeightOf(weights[..j], c)
    ensures forall c :: GetOr(Increment(r, weights[j].0, weights[j].1), c, 0) ==
                        GetOr(scores, c, 0) + WeightOf(weights[..j + 1], c)
  {
    var r' := Increment(r, weights[j].0, weights[j].1);
    forall c ensures GetOr(r', c, 0) == GetOr(scores, c, 0) + WeightOf(weights[..j + 1], c) {
      WeightPrefixStep(weights, j, c);
    }
  }

  /** The inner loop of `calculate_scores`: `scores[career] += weight` for every
      (career, weight) of the picked option, in the option's order. */
  method AddWeights(scores: Scores, weights: Weights, ghost seen: seq<string>) returns (r: Scores)
    requires Keys(scores) == Dedup(seen)
    ensures Keys(r) == Dedup(seen + Keys(weights))
    ensures forall c :: GetOr(r, c, 0) == GetOr(scores, c, 0) + WeightOf(weights, c)
  {
    r := scores;
    var j := 0;
    assert seen + Keys(weights[..j]) == seen;
    while j < |weights|
      invariant 0 <= j <= |weights|
      invariant Keys(r) == Dedup(seen + Keys(weights[..j]))
      invariant forall c :: GetOr(r, c, 0) == GetOr(scores, c, 0) + WeightOf(weights[..j], c)
    {
      var (career, weight) := weights[j];
      AddStepKeys(weights, seen, j, r);
      AddStepValues(scores, weights, j, r);
      r := Increment(r, career, weight);
      j := j + 1;
    }
    assert weights[..j] == weights;
  }

  /** `calculate_scores(responses)`: the loop over the recorded answers. */
  method CalculateScores(cat: Catalog, responses: Responses) returns (scores: Scores)
    requires AnswersKnown(cat, responses)
    ensures scores == ScoresOf(cat, responses)
    ensures IsDict(scores) && Keys(scores) == Dedup(Touched(cat, responses))
    ensures forall c :: GetOr(scores, c, 0) == CareerTotal(cat, responses, c)
  {
    scores := [];
    var i := 0;
    while i < |responses|
      invariant 0 <= i <= |responses|
      invariant Keys(scores) == Dedup(Touched(cat, responses[..i]))
      invariant forall c :: GetOr(scores, c, 0) == CareerTotal(cat, responses[..i], c)
    {
      var (question, response) := responses[i];
      assert responses[..i + 1][..i] == responses[..i];
      var options := Get(cat, question).value;
      var picked := Get(options, response);
      assert picked == Picked(cat, question, response);
      if picked.Some? {
        scores := AddWeights(scores, picked.value, Touched(cat, responses[..i]));
        assert Touched(cat, responses[..i + 1]) == Touched(cat, responses[..i]) + Keys(picked.value);
      } else {
        assert Touched(cat, responses[..i + 1]) == Touched(cat, responses[..i]);
      }
      i := i + 1;
    }
    assert responses[..i] == responses;
    ScoresOfReading(cat, responses);
    forall c ensures Get(scores, c) == Get(ScoresOf(cat, responses), c) {
      if c in Keys(scores) {
        assert GetOr(scores, c, 0) == CareerTotal(cat, responses, c);
      }
    }
    DictExtensionality(scores, ScoresOf(cat, responses));
  }

  /** An answer whose label is not one of its question's options changes nothing:
      it is skipped silently. */
  lemma UnknownLabelSkipped(cat: Catalog, responses: Responses, q: string, response: string)
    requires AnswersKnown(cat, responses + [(q, response)])
    requires Picked(cat, q, response).None?
    ensures AnswersKnown(cat, responses)
    ensures ScoresOf(cat, responses + [(q, response)]) == ScoresOf(cat, responses)
  {
    var r := responses + [(q, response)];
    assert r[..|responses|] == responses;
    assert forall i :: 0 <= i < |responses| ==> responses[i] == r[i];
    assert Touched(cat, r) == Touched(cat, responses);
    assert forall c :: CareerTotal(cat, r, c) == CareerTotal(cat, responses, c);
  }

  lemma {:induction false} CareerTotalAppend(cat: Catalog, a: Responses, b: Responses, c: string)
    ensures CareerTotal(cat, a + b, c) == CareerTotal(cat, a, c) + CareerTotal(cat, b, c)
  {
    if b == [] {
      assert a + b == a;
    } else {
      var b' := b[..|b| - 1];
      assert (a + b)[..|a + b| - 1] == a + b';
      CareerTotalAppend(cat, a, b', c);
    }
  }

  /** Whether the option the answer `e` picks names career `c`. */
  predicate Names(cat: Catalog, e: (string, string), c: string)
  {
    match Picked(cat, e.0, e.1)
    case Some(w) => c in Keys(w)
    case None => false
  }

  lemma {:induction false} TouchedMembers(cat: Catalog, responses: Responses, c: string)
    ensures c in Touched(cat, responses) <==> exists k :: 0 <= k < |responses| && Names(cat, responses[k], c)
  {
    if responses != [] {
      var init := responses[..|responses| - 1];
      TouchedMembers(cat, init, c);
      assert forall k :: 0 <= k < |init| ==> init[k] == responses[k];
      if Names(cat, responses[|responses| - 1], c) {
        assert c in Touched(cat, responses);
      }
    }
  }

  /** The totals do not depend on the order in which the answers are visited:
      additions commute. */
  lemma {:induction false} CareerTotalPermutation(cat: Catalog, r1: Responses, r2: Responses, c: string)
    requires multiset(r1) == multiset(r2)
    ensures CareerTotal(cat, r1, c) == CareerTotal(cat, r2, c)
    decreases |r1|
  {
    if r1 == [] {
      assert |r2| == |multiset(r2)| == 0;
    } else {
      var init, x := r1[..|r1| - 1], r1[|r1| - 1];
      assert r1 == init + [x];
      assert x in multiset(r2);
      var k :| 0 <= k < |r2| && r2[k] == x;
      var left, right := r2[..k], r2[k + 1..];
      assert r2 == left + ([x] + right);
      RemoveLast(r1, r2, k);
      CareerTotalPermutation(cat, init, left + right, c);
      CareerTotalAppend(cat, left, [x] + right, c);
      CareerTotalAppend(cat, [x], right, c);
      CareerTotalAppend(cat, left, right, c);
      assert [x][..0] == [];
    }
  }

  lemma RemoveLast<T>(r1: seq<T>, r2: seq<T>, k: nat)
    requires multiset(r1) == multiset(r2)
    requires r1 != [] && k < |r2| && r2[k] == r1[|r1| - 1]
    ensures multiset(r1[..|r1| - 1]) == multiset(r2[..k] + r2[k + 1..])
  {
    var init, left, right := r1[..|r1| - 1], r2[..k], r2[k + 1..];
    assert r1 == init + [r2[k]];
    assert r2 == left + [r2[k]] + right;
    assert multiset(r1) == multiset(init) + multiset{r2[k]};
    assert multiset(r2) == multiset(left) + multiset{r2[k]} + multiset(right);
    assert multiset(left + right) == multiset(left) + multiset(right);
    forall y ensures multiset(init)[y] == multiset(left + right)[y] {
      assert multiset(r1)[y] == multiset(r2)[y];
    }
  }

  /** Visiting the same answers in another order gives the same scores and the same
      set of keys; only the order of the keys may differ. */
  lemma ScoresOrderIndependent(cat: Catalog, r1: Responses, r2: Responses)
    requires AnswersKnown(cat, r1)
    requires multiset(r1) == multiset(r2)
    ensures AnswersKnown(cat, r2)
    ensures forall c :: GetOr(ScoresOf(cat, r1), c, 0) == GetOr(ScoresOf(cat, r2), c, 0)
    ensures forall c :: c in Keys(ScoresOf(cat, r1)) <==> c in Keys(ScoresOf(cat, r2))
  {
    forall i | 0 <= i < |r2| ensures r2[i].0 in Keys(cat) {
      assert r2[i] in multiset(r1);
    }
    ScoresOfReading(cat, r1);
    ScoresOfReading(cat, r2);
    forall c ensures CareerTotal(cat, r1, c) == CareerTotal(cat, r2, c)
                  && (c in Touched(cat, r1) <==> c in Touched(cat, r2))
    {
      CareerTotalPermutation(cat, r1, r2, c);
      TouchedMembers(cat, r1, c);
      TouchedMembers(cat, r2, c);
      if k1 :| 0 <= k1 < |r1| && Names(cat, r1[k1], c) {
        assert r1[k1] in multiset(r2);
        var k2 :| 0 <= k2 < |r2| && r2[k2] == r1[k1];
      }
      if k2 :| 0 <= k2 < |r2| && Names(cat, r2[k2], c) {
        assert r2[k2] in multiset(r1);
        var k1 :| 0 <= k1 < |r1| && r1[k1] == r2[k2];
      }
    }
  }

  lemma {:induction false} WeightOfPositive(w: Weights, c: string)
    requires forall i :: 0 <= i < |w| ==> w[i].1 > 0
    ensures WeightOf(w, c) >= 0
    ensures c in Keys(w) ==> WeightOf(w, c) > 0
  {
    if w != [] {
      var init := w[..|w| - 1];
      assert Keys(w) == Keys(init) + [w[|w| - 1].0];
      WeightOfPositive(init, c);
    }
  }

  /** In a well-formed catalog every total is non-negative, and a touched career is a
      key of `CAREERS` with a positive total. */
  lemma {:induction false} TotalsOfWellFormed(cat: Catalog, responses: Responses, c: string)
    requires WellFormed(cat)
    ensures CareerTotal(cat, responses, c) >= 0
    ensures c in Touched(cat, responses) ==> c in Keys(Careers) && CareerTotal(cat, responses, c) > 0
  {
    if responses != [] {
      var init, last := responses[..|responses| - 1], responses[|responses| - 1];
      TotalsOfWellFormed(cat, init, c);
      match Picked(cat, last.0, last.1)
      case Some(w) =>
        PickedValid(cat, last.0, last.1);
        WeightOfPositive(w, c);
      case None =>
    }
  }

  /** With a well-formed catalog the scorer creates keys only from `CAREERS`, and every
      key it creates has a strictly positive score. */
  lemma ScoresFromCareers(cat: Catalog, responses: Responses)
    requires WellFormed(cat) && AnswersKnown(cat, responses)
    ensures forall i :: 0 <= i < |ScoresOf(cat, responses)| ==>
              ScoresOf(cat, responses)[i].0 in Keys(Careers) && ScoresOf(cat, responses)[i].1 > 0
  {
    var s := ScoresOf(cat, responses);
    ScoresOfReading(cat, responses);
    forall i | 0 <= i < |s| ensures s[i].0 in Keys(Careers) && s[i].1 > 0 {
      assert s[i].0 in Dedup(Touched(cat, responses));
      TotalsOfWellFormed(cat, responses, s[i].0);
    }
  }
}
