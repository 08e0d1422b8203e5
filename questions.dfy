/** The first three questions of the quiz's catalog, `QUESTIONS` (app.py:50-73), in
    display order, each with its option labels and their weights as declared. Prompt
    texts are left out. The worked examples are answers to these questions.
 */
module Questions {
  import opened Dicts
  import opened Catalog

  const Excerpt: Catalog := [
    ("work_type", WorkType),
    ("problem_approach", ProblemApproach),
    ("project_timeline", ProjectTimeline)
  ]

  const WorkType: Options := [
    ("Building software products and systems from scratch", [("SWE", 2)]),
    ("Discovering patterns and insights in data", [("Data Scientist", 1), ("Data Analyst", 1)]),
    ("Creating infrastructure that others rely on", [("Data Engineer", 2)])
  ]

  const ProblemApproach: Options := [
    ("Clear objectives with concrete solutions", [("SWE", 1), ("Data Engineer", 1)]),
    ("Open-ended questions requiring exploration", [("Data Scientist", 1), ("Data Analyst", 1)]),
    ("Complex technical challenges with defined constraints", [("MLE", 2)])
  ]

  const ProjectTimeline: Options := [
    ("Quick wins (days/weeks)", [("Data Analyst", 1), ("SWE", 1)]),
    ("Medium-term projects (weeks/months)", [("Data Engineer", 1), ("MLE", 1)]),
    ("Long-term research and exploration (months+)", [("Data Scientist", 2)])
  ]

  /** A check of `ValidWeights` that unfolds entry by entry on a literal. */
  predicate WeightsChecked(w: Weights)
  {
    w == [] || (w[0].0 in DescribedCareers && w[0].1 > 0 && w[0].0 !in Keys(w[1..]) && WeightsChecked(w[1..]))
  }

  predicate OptionsChecked(o: Options)
  {
    o == [] || (WeightsChecked(o[0].1) && o[0].0 !in Keys(o[1..]) && OptionsChecked(o[1..]))
  }

  lemma {:induction false} DistinctCons<K>(ks: seq<K>)
    requires ks != [] && ks[0] !in ks[1..] && Distinct(ks[1..])
    ensures Distinct(ks)
  {
    forall i, j | 0 <= i < j < |ks| ensures ks[i] != ks[j] {
      if i > 0 {
        assert ks[i] == ks[1..][i - 1] && ks[j] == ks[1..][j - 1];
      } else {
        assert ks[j] == ks[1..][j - 1];
      }
    }
  }

  lemma {:induction false} WeightsCheckedValid(w: Weights)
    requires WeightsChecked(w)
    ensures ValidWeights(w)
  {
    if w != [] {
      WeightsCheckedValid(w[1..]);
      assert Keys(w) == [w[0].0] + Keys(w[1..]);
      DistinctCons(Keys(w));
      assert CareerKeys() == DescribedCareers;
      forall i | 0 <= i < |w| ensures w[i].0 in Keys(Careers) && w[i].1 > 0 {
        if i > 0 { assert w[i] == w[1..][i - 1]; }
      }
    }
  }

  lemma {:induction false} OptionsCheckedValid(o: Options)
    requires OptionsChecked(o)
    ensures ValidOptions(o)
  {
    if o != [] {
      OptionsCheckedValid(o[1..]);
      WeightsCheckedValid(o[0].1);
      assert Keys(o) == [o[0].0] + Keys(o[1..]);
      DistinctCons(Keys(o));
      forall i | 0 <= i < |o| ensures ValidWeights(o[i].1) {
        if i > 0 { assert o[i] == o[1..][i - 1]; }
      }
    }
  }

  lemma WorkTypeValid()
    ensures ValidOptions(WorkType)
  {
    assert OptionsChecked(WorkType);
    OptionsCheckedValid(WorkType);
  }

  lemma ProblemApproachValid()
    ensures ValidOptions(ProblemApproach)
  {
    assert OptionsChecked(ProblemApproach);
    OptionsCheckedValid(ProblemApproach);
  }

  lemma ProjectTimelineValid()
    ensures ValidOptions(ProjectTimeline)
  {
    assert OptionsChecked(ProjectTimeline);
    OptionsCheckedValid(ProjectTimeline);
  }

  lemma WellFormedCons(q: string, opts: Options, rest: Catalog)
    requires ValidOptions(opts) && WellFormed(rest) && q !in Keys(rest)
    ensures WellFormed([(q, opts)] + rest)
  {
    var cat := [(q, opts)] + rest;
    assert Keys(cat) == [q] + Keys(rest);
    DistinctCons(Keys(cat));
    forall i | 0 <= i < |cat| ensures ValidOptions(cat[i].1) {
      if i > 0 { assert cat[i] == rest[i - 1]; }
    }
  }

  /** The excerpt keeps the catalog's invariants: every option names only careers of
      `CAREERS`, each with a positive weight, and no key repeats. */
  lemma ExcerptWellFormed()
    ensures WellFormed(Excerpt)
  {
    WorkTypeValid();
    ProblemApproachValid();
    ProjectTimelineValid();
    var last: Catalog := [("project_timeline", ProjectTimeline)];
    WellFormedCons("project_timeline", ProjectTimeline, []);
    WellFormedCons("problem_approach", ProblemApproach, last);
    WellFormedCons("work_type", WorkType, [("problem_approach", ProblemApproach)] + last);
    assert Excerpt == [("work_type", WorkType)] + ([("problem_approach", ProblemApproach)] + last);
  }
}
