/** Worked examples on the first questions of the catalog: the answers' scores, their
    percentages and the career the results page names.
 */
module Examples {
  import opened Dicts
  import opened Catalog
  import opened Scorer
  import opened Results
  import opened Questions

  const BuildSoftware := "Building software products and systems from scratch"
  const ClearObjectives := "Clear objectives with concrete solutions"

  /** Looking up an answer of the first question finds the option's weights. */
  lemma PickBuildSoftware()
    ensures Picked(Excerpt, "work_type", BuildSoftware) == Some([("SWE", 2)])
  {
    assert Keys(Excerpt)[0] == "work_type";
    assert Keys(WorkType)[0] == BuildSoftware;
  }

  lemma PickClearObjectives()
    ensures Picked(Excerpt, "problem_approach", ClearObjectives) == Some([("SWE", 1), ("Data Engineer", 1)])
  {
    assert Keys(Excerpt)[0] != "problem_approach";
    assert Keys(Excerpt)[1] == "problem_approach";
    assert Keys(ProblemApproach)[0] == ClearObjectives;
  }

  /** Two answers: building software (`{SWE: 2}`) and clear objectives
      (`{SWE: 1, Data Engineer: 1}`). */
  const TwoAnswers: Responses := [("work_type", BuildSoftware), ("problem_approach", ClearObjectives)]

  lemma TwoAnswersTouched()
    ensures AnswersKnown(Excerpt, TwoAnswers)
    ensures Touched(Excerpt, TwoAnswers) == ["SWE", "SWE", "Data Engineer"]
  {
    PickBuildSoftware();
    PickClearObjectives();
    assert Keys(Excerpt)[0] == "work_type" && Keys(Excerpt)[1] == "problem_approach";
    var first := TwoAnswers[..1];
    assert first[..0] == [];
    assert Touched(Excerpt, first) == ["SWE"];
  }

  lemma TwoAnswersTotals()
    ensures CareerTotal(Excerpt, TwoAnswers, "SWE") == 3
    ensures CareerTotal(Excerpt, TwoAnswers, "Data Engineer") == 1
  {
    PickBuildSoftware();
    PickClearObjectives();
    var first := TwoAnswers[..1];
    assert first[..0] == [];
    assert CareerTotal(Excerpt, first, "SWE") == 2;
    assert CareerTotal(Excerpt, first, "Data Engineer") == 0;
  }

  lemma TwoAnswersScores()
    ensures AnswersKnown(Excerpt, TwoAnswers)
    ensures ScoresOf(Excerpt, TwoAnswers) == [("SWE", 3), ("Data Engineer", 1)]
  {
    TwoAnswersTouched();
    TwoAnswersTotals();
    TwoAnswersKeyOrder();
  }

  lemma TwoAnswersKeyOrder()
    ensures Dedup(["SWE", "SWE", "Data Engineer"]) == ["SWE", "Data Engineer"]
  {
    RepeatThenNew("SWE", "Data Engineer");
  }

  lemma DedupSingle<T(!new)>(a: T)
    ensures Dedup([a]) == [a]
  {
    assert [a][..0] == [];
  }

  /** The key order of a dictionary into which `a`, `a` and `b` are inserted. */
  lemma RepeatThenNew<T(!new)>(a: T, b: T)
    requires a != b
    ensures Dedup([a, a, b]) == [a, b]
  {
    DedupSingle(a);
    assert [a, a][..1] == [a];
    assert Dedup([a, a]) == [a];
    assert [a, a, b][..2] == [a, a];
  }

  /** `{SWE: 3, Data Engineer: 1}` normalises to `{SWE: 75, Data Engineer: 25}` and the
      results page names SWE. */
  lemma TwoAnswersResults()
    ensures AnswersKnown(Excerpt, TwoAnswers)
    ensures Normalize(ScoresOf(Excerpt, TwoAnswers)) == [("SWE", 75.0), ("Data Engineer", 25.0)]
    ensures TopCareer(Normalize(ScoresOf(Excerpt, TwoAnswers))) == "SWE"
  {
    TwoAnswersScores();
    ThreeToOne("SWE", "Data Engineer");
  }

  lemma ThreeToOne(a: string, b: string)
    ensures Normalize([(a, 3), (b, 1)]) == [(a, 75.0), (b, 25.0)]
    ensures TopCareer(Normalize([(a, 3), (b, 1)])) == a
  {
    var s: Scores := [(a, 3), (b, 1)];
    assert s[..1][..0] == [];
    assert Total(s[..1][..0]) == 0;
    assert Total(s[..1]) == 3;
    assert Total(s) == 4;
    var n := Normalize(s);
    assert n == [(a, 75.0), (b, 25.0)];
    TopCareerIsFirstMax(n);
    assert n[1].1 < n[0].1;
  }

  const QuickWins := "Quick wins (days/weeks)"

  /** One answer whose option weighs two careers equally. */
  const OneAnswer: Responses := [("project_timeline", QuickWins)]

  lemma PickQuickWins()
    ensures Picked(Excerpt, "project_timeline", QuickWins) == Some([("Data Analyst", 1), ("SWE", 1)])
  {
    assert Keys(Excerpt)[0] != "project_timeline" && Keys(Excerpt)[1] != "project_timeline";
    assert Keys(Excerpt)[2] == "project_timeline";
    assert Keys(ProjectTimeline)[0] == QuickWins;
  }

  lemma OneAnswerScores()
    ensures AnswersKnown(Excerpt, OneAnswer)
    ensures ScoresOf(Excerpt, OneAnswer) == [("Data Analyst", 1), ("SWE", 1)]
  {
    PickQuickWins();
    assert Keys(Excerpt)[2] == "project_timeline";
    assert OneAnswer[..0] == [];
    assert Touched(Excerpt, OneAnswer) == ["Data Analyst", "SWE"];
    OneAnswerTotals();
    TwoNew("Data Analyst", "SWE");
  }

  lemma OneAnswerTotals()
    ensures CareerTotal(Excerpt, OneAnswer, "Data Analyst") == 1
    ensures CareerTotal(Excerpt, OneAnswer, "SWE") == 1
  {
    PickQuickWins();
    assert OneAnswer[..0] == [];
    var w: Weights := [("Data Analyst", 1), ("SWE", 1)];
    assert w[..1][..0] == [];
    assert WeightOf(w[..1], "Data Analyst") == 1 && WeightOf(w[..1], "SWE") == 0;
    assert WeightOf(w, "Data Analyst") == 1 && WeightOf(w, "SWE") == 1;
  }

  lemma TwoNew<T(!new)>(a: T, b: T)
    requires a != b
    ensures Dedup([a, b]) == [a, b]
  {
    DedupSingle(a);
    assert [a, b][..1] == [a];
  }

  /** Equal scores split the percentages evenly, and the tie goes to the key the scorer
      inserted first. */
  lemma EvenSplit(a: string, b: string)
    ensures Normalize([(a, 1), (b, 1)]) == [(a, 50.0), (b, 50.0)]
    ensures TopCareer(Normalize([(a, 1), (b, 1)])) == a
  {
    var s: Scores := [(a, 1), (b, 1)];
    assert s[..1][..0] == [];
    assert Total(s[..1][..0]) == 0;
    assert Total(s[..1]) == 1;
    assert Total(s) == 2;
    var n := Normalize(s);
    assert n == [(a, 50.0), (b, 50.0)];
    TopCareerIsFirstMax(n);
  }

  /** A tie between Data Analyst and SWE goes to Data Analyst, the option's first career,
      although SWE comes first in `CAREERS`. */
  lemma TieFollowsInsertionOrder()
    ensures AnswersKnown(Excerpt, OneAnswer)
    ensures Normalize(ScoresOf(Excerpt, OneAnswer)) == [("Data Analyst", 50.0), ("SWE", 50.0)]
    ensures TopCareer(Normalize(ScoresOf(Excerpt, OneAnswer))) == "Data Analyst"
  {
    OneAnswerScores();
    EvenSplit("Data Analyst", "SWE");
  }

  /** Without answers every career scores 0 and SWE, first in `CAREERS`, is named. */
  lemma NoAnswersResults()
    ensures AnswersKnown(Excerpt, [])
    ensures Normalize(ScoresOf(Excerpt, [])) ==
              [("SWE", 0.0), ("Data Scientist", 0.0), ("Data Analyst", 0.0), ("Data Engineer", 0.0), ("MLE", 0.0)]
    ensures TopCareer(Normalize(ScoresOf(Excerpt, []))) == "SWE"
  {
    NothingPickedZeroTotal(Excerpt, []);
    ZeroTotalTopIsSWE(ScoresOf(Excerpt, []));
    NormalizeZeroTotal(ScoresOf(Excerpt, []));
  }
}
