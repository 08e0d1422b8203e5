/** The question catalog and the career enumeration (app.py:7-13, 16-46, 49-342).

    Careers are identified by their key strings. A catalog maps each question id, in
    display order, to its options; each option label maps to the weights the option
    gives, a dictionary from career key to an integer. Prompt texts, display names'
    use on screen and description texts are passed unchanged to the user interface
    and are not modelled.
 */
module Catalog {
  import opened Dicts

  type Weights = Dict<string, int>
  type Options = Dict<string, Weights>
  type Catalog = Dict<string, Options>

  /** `CAREERS`: career key to display name, in declaration order. */
  const Careers: Dict<string, string> := [
    ("SWE", "Software Engineer"),
    ("Data Scientist", "Data Scientist"),
    ("Data Analyst", "Data Analyst"),
    ("Data Engineer", "Data Engineer"),
    ("MLE", "Machine Learning Engineer")
  ]

  /** The keys of `CAREER_DESCRIPTIONS` (its texts are opaque to the model). */
  const DescribedCareers: seq<string> := ["SWE", "Data Scientist", "Data Analyst", "Data Engineer", "MLE"]

  /** `list(CAREERS)`. */
  function CareerKeys(): (ks: seq<string>)
    ensures |ks| == 5 && ks[0] == "SWE"
    ensures IsDict(Careers) && Distinct(ks)
    ensures ks == DescribedCareers
  {
    assert Keys(Careers) == DescribedCareers;
    Keys(Careers)
  }

  /** An option's weights use only career keys, each with a positive weight. */
  predicate ValidWeights(w: Weights)
  {
    IsDict(w) && forall i :: 0 <= i < |w| ==> w[i].0 in Keys(Careers) && w[i].1 > 0
  }

  predicate ValidOptions(opts: Options)
  {
    IsDict(opts) && forall i :: 0 <= i < |opts| ==> ValidWeights(opts[i].1)
  }

  /** The invariants of the catalog: question ids, option labels and weighted careers are
      dictionary keys (no repeats), and every option names only careers of `CAREERS`,
      each with a positive weight. */
  predicate WellFormed(cat: Catalog)
  {
    IsDict(cat) && forall i :: 0 <= i < |cat| ==> ValidOptions(cat[i].1)
  }

  /** `QUESTIONS[q]["options"].get(response)`: the weights of the chosen option, or None
      when the response is not one of the question's options. The source raises
      `KeyError` for an unknown question id (app.py:355); answering None there is this
      model's own totalisation, and the scorer never reaches that branch, because
      `Scorer.CalculateScores` requires every answered id to be a question. */
  function Picked(cat: Catalog, q: string, response: string): (r: Option<Weights>)
    ensures r.None? <==> q !in Keys(cat) || response !in Keys(GetOr(cat, q, []))
  {
    match Get(cat, q)
    case None => None
    case Some(opts) => Get(opts, response)
  }

  /** In a well-formed catalog every option that can be picked has valid weights. */
  lemma PickedValid(cat: Catalog, q: string, response: string)
    requires WellFormed(cat)
    requires Picked(cat, q, response).Some?
    ensures ValidWeights(Picked(cat, q, response).value)
  {
  }
}
