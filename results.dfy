/** The results page's computation: `normalize_scores` (app.py:361-365) and the choice of
    the top career in `display_results` (app.py:403-413).

    Python's floats are modelled by exact reals: percentages are `score / total * 100`
    computed without rounding.
 */
module Results {
  import opened Dicts
  import opened Catalog
  import opened Scorer

  type Percentages = Dict<string, real>

  /** `sum(scores.values())`: never negative for non-negative scores, and, for positive
      scores, zero only when there are none. */
  function Total(s: Scores): (t: int)
    ensures (forall j :: 0 <= j < |s| ==> s[j].1 >= 0) ==> t >= 0
    ensures (forall j :: 0 <= j < |s| ==> s[j].1 > 0) ==> (t == 0 <==> s == [])
  {
    if s == [] then 0
    else
      assert forall j :: 0 <= j < |s| - 1 ==> s[..|s| - 1][j] == s[j];
      Total(s[..|s| - 1]) + s[|s| - 1].1
  }

  /** The sum of a dictionary of percentages. */
  function RealTotal(n: Percentages): real
  {
    if n == [] then 0.0 else RealTotal(n[..|n| - 1]) + n[|n| - 1].1
  }

  /** `{career: (score/total) * 100 for career, score in scores.items()}`. */
  function Scale(s: Scores, total: int): (n: Percentages)
    requires total != 0
    ensures |n| == |s| && Keys(n) == Keys(s)
  {
    seq(|s|, i requires 0 <= i < |s| => (s[i].0, (s[i].1 as real / total as real) * 100.0))
  }

  /** `{career: 0 for career in CAREERS}`. */
  function ZeroFilled(): (n: Percentages)
    ensures Keys(n) == CareerKeys()
    ensures forall i :: 0 <= i < |n| ==> n[i].1 == 0.0
  {
    var ks := CareerKeys();
    seq(|ks|, i requires 0 <= i < |ks| => (ks[i], 0.0))
  }

  /** `normalize_scores`: never empty, so the results page always has a first entry. */
  function Normalize(s: Scores): (n: Percentages)
    ensures |n| > 0
  {
    var total := Total(s);
    if total == 0 then ZeroFilled()
    else
      assert s != [];
      Scale(s, total)
  }

  /** A zero total yields exactly the five career keys, in `CAREERS` order, all at 0. */
  lemma NormalizeZeroTotal(s: Scores)
    requires Total(s) == 0
    ensures Keys(Normalize(s)) == CareerKeys()
    ensures forall i :: 0 <= i < |Normalize(s)| ==> Normalize(s)[i].1 == 0.0
  {
  }

  lemma DivideSum(a: real, b: real, t: real)
    requires t != 0.0
    ensures (a / t) * 100.0 + (b / t) * 100.0 == ((a + b) / t) * 100.0
  {
  }

  lemma {:induction false} ScaleTotal(s: Scores, t: int)
    requires t != 0
    ensures RealTotal(Scale(s, t)) == (Total(s) as real / t as real) * 100.0
  {
    if s != [] {
      var init := s[..|s| - 1];
      assert Scale(s, t)[..|s| - 1] == Scale(init, t);
      ScaleTotal(init, t);
      DivideSum(Total(init) as real, s[|s| - 1].1 as real, t as real);
    }
  }

  /** A nonzero total keeps exactly the input keys, in their order. */
  lemma NormalizeKeepsKeys(s: Scores)
    requires Total(s) != 0
    ensures Keys(Normalize(s)) == Keys(s)
  {
  }

  /** With a nonzero total each value is the score's share of the total, in percent. */
  lemma NormalizeShare(s: Scores, i: nat)
    requires Total(s) != 0 && i < |s|
    ensures Normalize(s)[i].0 == s[i].0
    ensures Normalize(s)[i].1 == (s[i].1 as real / Total(s) as real) * 100.0
  {
    NormalizeIsScale(s);
  }

  lemma NormalizeIsScale(s: Scores)
    requires Total(s) != 0
    ensures Normalize(s) == Scale(s, Total(s))
  {
  }

  lemma WholeShare(t: real)
    requires t != 0.0
    ensures (t / t) * 100.0 == 100.0
  {
  }

  /** With a nonzero total the percentages add up to exactly 100. */
  lemma NormalizeSumsTo100(s: Scores)
    requires Total(s) != 0
    ensures RealTotal(Normalize(s)) == 100.0
  {
    NormalizeIsScale(s);
    ScaleTotal(s, Total(s));
    WholeShare(Total(s) as real);
  }

  lemma {:induction false} BelowTotal(s: Scores, i: nat)
    requires forall j :: 0 <= j < |s| ==> s[j].1 >= 0
    requires i < |s|
    ensures 0 <= s[i].1 <= Total(s)
  {
    if i < |s| - 1 {
      BelowTotal(s[..|s| - 1], i);
    }
  }

  lemma ShareBounds(v: real, t: real)
    requires 0.0 <= v <= t && t > 0.0
    ensures 0.0 <= (v / t) * 100.0 <= 100.0
  {
    assert v / t <= 1.0;
  }

  /** With non-negative scores every percentage lies in [0, 100]. */
  lemma NormalizeBounds(s: Scores)
    requires forall j :: 0 <= j < |s| ==> s[j].1 >= 0
    ensures forall i :: 0 <= i < |Normalize(s)| ==> 0.0 <= Normalize(s)[i].1 <= 100.0
  {
    var t := Total(s);
    if t != 0 {
      forall i | 0 <= i < |s| ensures 0.0 <= Normalize(s)[i].1 <= 100.0 {
        BelowTotal(s, i);
        ShareBounds(s[i].1 as real, t as real);
      }
    }
  }

  lemma ShareMonotone(a: real, b: real, t: real)
    requires t > 0.0
    ensures a <= b <==> (a / t) * 100.0 <= (b / t) * 100.0
  {
    if a <= b {
      assert a / t <= b / t;
    }
    if (a / t) * 100.0 <= (b / t) * 100.0 {
      assert a / t <= b / t;
      assert a == (a / t) * t && b == (b / t) * t;
    }
  }

  /** With a positive total, normalising preserves the order between any two careers. */
  lemma NormalizePreservesOrder(s: Scores, i: nat, j: nat)
    requires Total(s) > 0
    requires i < |s| && j < |s|
    ensures s[i].1 <= s[j].1 <==> Normalize(s)[i].1 <= Normalize(s)[j].1
  {
    ShareMonotone(s[i].1 as real, s[j].1 as real, Total(s) as real);
  }

  // Top-career selection: `sorted(normalized.items(), key=value, reverse=True)[0][0]`.

  predicate Descending(s: Percentages)
  {
    forall i, j :: 0 <= i < j < |s| ==> s[i].1 >= s[j].1
  }

  /** Inserts `x` into a descending list before the first entry that is not larger than
      it; an entry that came earlier in the input thereby stays ahead of later equal ones. */
  function Insert(x: (string, real), s: Percentages): (r: Percentages)
    requires Descending(s)
    ensures Descending(r)
    ensures multiset(r) == multiset(s) + multiset{x}
    ensures r[0] == if s == [] || s[0].1 <= x.1 then x else s[0]
  {
    if s == [] || s[0].1 <= x.1 then [x] + s
    else
      var t := Insert(x, s[1..]);
      assert s == [s[0]] + s[1..];
      InsertBelowHead(x, s, t);
      [s[0]] + t
  }

  lemma InsertBelowHead(x: (string, real), s: Percentages, t: Percentages)
    requires Descending(s) && s != [] && x.1 < s[0].1
    requires Descending(t) && multiset(t) == multiset(s[1..]) + multiset{x}
    ensures Descending([s[0]] + t)
  {
    forall j | 0 <= j < |t| ensures t[j].1 <= s[0].1 {
      assert t[j] in multiset(t);
      if t[j] != x {
        assert t[j] in s[1..];
      }
    }
  }

  /** `sorted(..., key=lambda x: x[1], reverse=True)`: a stable sort by descending value. */
  function SortDesc(n: Percentages): (r: Percentages)
    ensures Descending(r)
    ensures multiset(r) == multiset(n)
  {
    if n == [] then []
    else
      assert n == [n[0]] + n[1..];
      Insert(n[0], SortDesc(n[1..]))
  }

  /** The reference reading of the top entry: the first position holding the maximum. */
  function FirstMax(n: Percentages): (k: nat)
    requires |n| > 0
    ensures k < |n|
    ensures forall j :: 0 <= j < |n| ==> n[j].1 <= n[k].1
    ensures forall j :: 0 <= j < k ==> n[j].1 < n[k].1
  {
    if |n| == 1 then 0
    else
      var k := 1 + FirstMax(n[1..]);
      assert forall j :: 1 <= j < |n| ==> n[j] == n[1..][j - 1];
      if n[0].1 >= n[k].1 then 0 else k
  }

  /** `sorted_careers[0][0]`: one of the careers being ranked. */
  function TopCareer(n: Percentages): (top: string)
    requires |n| > 0
    ensures exists i :: 0 <= i < |n| && n[i].0 == top
  {
    var r := SortDesc(n);
    assert r[0] in multiset(r);
    assert r[0] in n;
    r[0].0
  }

  /** The head of the stable descending sort is the first maximal entry: the maximum,
      with ties going to the earliest key in insertion order. */
  lemma {:induction false} SortHeadIsFirstMax(n: Percentages)
    requires |n| > 0
    ensures SortDesc(n)[0] == n[FirstMax(n)]
  {
    if |n| > 1 {
      SortHeadIsFirstMax(n[1..]);
    }
  }

  lemma TopCareerIsFirstMax(n: Percentages)
    requires |n| > 0
    ensures TopCareer(n) == n[FirstMax(n)].0
    ensures forall j :: 0 <= j < |n| ==> n[j].1 <= n[FirstMax(n)].1
  {
    var k := FirstMax(n);
    SortHeadIsFirstMax(n);
    assert TopCareer(n) == SortDesc(n)[0].0 == n[k].0;
  }

  /** With a zero total every career ties at 0 and the first of `CAREERS`, SWE, wins. */
  lemma ZeroTotalTopIsSWE(s: Scores)
    requires Total(s) == 0
    ensures TopCareer(Normalize(s)) == "SWE"
  {
    var n := Normalize(s);
    NormalizeZeroTotal(s);
    TopCareerIsFirstMax(n);
    assert Keys(n)[0] == "SWE";
    assert FirstMax(n) == 0;
  }

  // The results page over the scorer's output.

  /** With a well-formed catalog the total is zero exactly when no answer picked an
      option naming some career. */
  lemma ZeroTotalIffNothingTouched(cat: Catalog, responses: Responses)
    requires WellFormed(cat) && AnswersKnown(cat, responses)
    ensures Total(ScoresOf(cat, responses)) == 0 <==> Touched(cat, responses) == []
  {
    var s := ScoresOf(cat, responses);
    ScoresOfReading(cat, responses);
    ScoresFromCareers(cat, responses);
    if Touched(cat, responses) != [] {
      assert Touched(cat, responses)[0] in Dedup(Touched(cat, responses));
    }
  }

  lemma {:induction false} NothingPickedNothingTouched(cat: Catalog, responses: Responses)
    requires forall i :: 0 <= i < |responses| ==> Picked(cat, responses[i].0, responses[i].1).None?
    ensures Touched(cat, responses) == []
  {
    if responses != [] {
      NothingPickedNothingTouched(cat, responses[..|responses| - 1]);
    }
  }

  /** No answers, or only answers whose labels are not options, give a zero total and hence
      the zero-filled percentages. */
  lemma NothingPickedZeroTotal(cat: Catalog, responses: Responses)
    requires AnswersKnown(cat, responses)
    requires forall i :: 0 <= i < |responses| ==> Picked(cat, responses[i].0, responses[i].1).None?
    ensures ScoresOf(cat, responses) == []
    ensures Total(ScoresOf(cat, responses)) == 0
    ensures Keys(Normalize(ScoresOf(cat, responses))) == CareerKeys()
  {
    NothingPickedNothingTouched(cat, responses);
    ScoresOfReading(cat, responses);
    NormalizeZeroTotal(ScoresOf(cat, responses));
  }

  /** The career the results page names is a key of `CAREERS` (so both `CAREERS[top]` and
      `CAREER_DESCRIPTIONS[top]` succeed) and has the largest raw score of all careers. */
  lemma TopCareerHasMaxScore(cat: Catalog, responses: Responses)
    requires WellFormed(cat) && AnswersKnown(cat, responses)
    ensures TopCareer(Normalize(ScoresOf(cat, responses))) in CareerKeys()
    ensures forall c :: CareerTotal(cat, responses, c) <=
                        CareerTotal(cat, responses, TopCareer(Normalize(ScoresOf(cat, responses))))
  {
    var s := ScoresOf(cat, responses);
    var n := Normalize(s);
    var top := TopCareer(n);
    ScoresOfReading(cat, responses);
    ScoresFromCareers(cat, responses);
    ZeroTotalIffNothingTouched(cat, responses);
    if Total(s) == 0 {
      ZeroTotalTopIsSWE(s);
      forall c ensures CareerTotal(cat, responses, c) == 0 {
        UntouchedIsZero(cat, responses, c);
      }
    } else {
      var k := FirstMax(n);
      TopCareerIsFirstMax(n);
      NormalizeKeepsKeys(s);
      assert top == Keys(n)[k] == Keys(s)[k] == s[k].0;
      GetEntry(s, k);
      forall c ensures CareerTotal(cat, responses, c) <= s[k].1 {
        if c in Keys(s) {
          var j := IndexOf(Keys(s), c);
          GetEntry(s, j);
          NormalizePreservesOrder(s, j, k);
        } else {
          UntouchedIsZero(cat, responses, c);
        }
      }
    }
  }

  /** The computation of `display_results`: the top career's key and its display name. */
  method DisplayResults(cat: Catalog, responses: Responses) returns (top: string, name: string)
    requires WellFormed(cat) && AnswersKnown(cat, responses)
    ensures top == TopCareer(Normalize(ScoresOf(cat, responses)))
    ensures top in DescribedCareers && Get(Careers, top) == Some(name)
    ensures forall c :: CareerTotal(cat, responses, c) <= CareerTotal(cat, responses, top)
  {
    var scores := CalculateScores(cat, responses);
    var normalized := Normalize(scores);
    var sorted := SortDesc(normalized);
    top := sorted[0].0;
    TopCareerHasMaxScore(cat, responses);
    var found := Get(Careers, top);
    name := found.value;
  }
}
