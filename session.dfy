/** The quiz's session state and its progression: `initialize_session_state`
    (app.py:344-350), the "Next" handler of `display_question` (app.py:389-401) and the
    page dispatch of `main` (app.py:436-443).

    A Streamlit session keeps `page` and `responses` across reruns of the script; a field
    is `None` here while the key is absent from `st.session_state`.
 */
module Session {
  import opened Dicts
  import opened Catalog
  import opened Scorer

  /** What a rerun of `main` renders. */
  datatype Screen = QuestionScreen(id: string) | ResultsScreen

  /** The state every session reaches from a fresh start: the first `page` question ids
      answered, in order, each with one of that question's option labels. */
  predicate ValidState(cat: Catalog, page: nat, responses: Responses)
  {
    IsDict(cat) && page <= |cat| && Keys(responses) == Keys(cat)[..page] &&
    forall i :: 0 <= i < |responses| ==> responses[i].1 in Keys(cat[i].1)
  }

  /** The session starts valid: no page answered, nothing recorded. */
  lemma InitialStateValid(cat: Catalog)
    requires IsDict(cat)
    ensures ValidState(cat, 0, [])
  {
    assert Keys<string, string>([]) == [] == Keys(cat)[..0];
  }

  /** Answering the current question with one of its options keeps the state valid. */
  lemma NextKeepsValid(cat: Catalog, page: nat, responses: Responses, response: string)
    requires ValidState(cat, page, responses)
    requires page < |cat| && response in Keys(cat[page].1)
    ensures Put(responses, Keys(cat)[page], response) == responses + [(cat[page].0, response)]
    ensures ValidState(cat, page + 1, Put(responses, Keys(cat)[page], response))
  {
    var id := Keys(cat)[page];
    assert id !in Keys(cat)[..page];
    var r := responses + [(id, response)];
    assert Keys(r) == Keys(responses) + [id];
    assert Keys(cat)[..page + 1] == Keys(cat)[..page] + [id];
    DictExtensionality(Put(responses, id, response), r);
  }

  /** In a valid state every recorded question id is a question of the catalog, so scoring
      never raises `KeyError`. */
  lemma ValidAnswersKnown(cat: Catalog, page: nat, responses: Responses)
    requires ValidState(cat, page, responses)
    ensures AnswersKnown(cat, responses)
  {
    forall i | 0 <= i < |responses| ensures responses[i].0 in Keys(cat) {
      assert responses[i].0 == Keys(responses)[i] == Keys(cat)[i];
    }
  }

  /** In a valid state every recorded label picks an option: the scorer skips nothing. */
  lemma ValidNothingSkipped(cat: Catalog, page: nat, responses: Responses)
    requires ValidState(cat, page, responses)
    ensures forall i :: 0 <= i < |responses| ==> Picked(cat, responses[i].0, responses[i].1).Some?
  {
    forall i | 0 <= i < |responses| ensures Picked(cat, responses[i].0, responses[i].1).Some? {
      assert responses[i].0 == Keys(responses)[i] == Keys(cat)[i];
      GetEntry(cat, i);
    }
  }

  /** In a valid state the results are due exactly when every question has been answered. */
  lemma ResultsIffAllAnswered(cat: Catalog, page: nat, responses: Responses)
    requires ValidState(cat, page, responses)
    ensures page >= |cat| <==> Keys(responses) == Keys(cat)
  {
    if Keys(responses) == Keys(cat) {
      assert |Keys(cat)[..page]| == page;
    }
  }

  class QuizSession {
    /** `st.session_state.page`. */
    var page: Option<nat>
    /** `st.session_state.responses`: question id to the chosen option label. */
    var responses: Option<Responses>

    /** A new browser session: nothing stored yet. */
    constructor ()
      ensures page == None && responses == None
    {
      page := None;
      responses := None;
    }

    predicate Ready()
      reads this
    {
      page.Some? && responses.Some?
    }

    predicate Valid(cat: Catalog)
      reads this
    {
      Ready() && ValidState(cat, page.value, responses.value)
    }

    /** `initialize_session_state`: fills in the fields that are missing and leaves the
        others alone, so a rerun never resets the quiz. */
    method Initialize()
      modifies this
      ensures Ready()
      ensures page == if old(page).None? then Some(0) else old(page)
      ensures responses == if old(responses).None? then Some([]) else old(responses)
    {
      if page.None? {
        page := Some(0);
      }
      if responses.None? {
        responses := Some([]);
      }
    }

    /** The dispatch of `main`: the results once `page` has run past the last question,
        otherwise the question at position `page`. */
    function CurrentScreen(cat: Catalog): (s: Screen)
      reads this
      requires Ready()
      ensures s.ResultsScreen? <==> page.value >= |cat|
      ensures s.QuestionScreen? ==> s.id in Keys(cat) && s.id == Keys(cat)[page.value]
    {
      if page.value >= |cat| then ResultsScreen else QuestionScreen(Keys(cat)[page.value])
    }

    /** The "Next" handler: records the radio's label under the current question id and
        moves to the next page. The button exists only on a question screen, and the radio
        offers only the question's option labels. */
    method Next(cat: Catalog, response: string)
      requires Ready() && page.value < |cat|
      requires response in Keys(cat[page.value].1)
      modifies this
      ensures page == Some(old(page.value) + 1)
      ensures responses == Some(Put(old(responses.value), Keys(cat)[old(page.value)], response))
      ensures Get(responses.value, Keys(cat)[old(page.value)]) == Some(response)
      ensures forall q :: q != Keys(cat)[old(page.value)] ==>
                Get(responses.value, q) == Get(old(responses.value), q)
      ensures old(Valid(cat)) ==> Valid(cat)
    {
      var id := Keys(cat)[page.value];
      if Valid(cat) {
        NextKeepsValid(cat, page.value, responses.value, response);
      }
      responses := Some(Put(responses.value, id, response));
      page := Some(page.value + 1);
    }

    /** The page the session shows once initialised. */
    function PageAfterInit(): nat
      reads this
    {
      if page.Some? then page.value else 0
    }

    /** One run of `main`: initialise, dispatch, and, when the user pressed "Next" with the
        label `click` selected on a question screen, apply the handler. */
    method Rerun(cat: Catalog, click: Option<string>) returns (screen: Screen)
      requires click.Some? && PageAfterInit() < |cat| ==> click.value in Keys(cat[PageAfterInit()].1)
      modifies this
      ensures Ready()
      ensures screen.ResultsScreen? <==> old(PageAfterInit()) >= |cat|
      ensures screen.QuestionScreen? ==> screen.id == Keys(cat)[old(PageAfterInit())]
      ensures page == Some(if screen.QuestionScreen? && click.Some? then old(PageAfterInit()) + 1
                           else old(PageAfterInit()))
      ensures screen.QuestionScreen? && click.Some? ==>
                responses == Some(Put(if old(responses).None? then [] else old(responses).value,
                                      screen.id, click.value))
      ensures screen.QuestionScreen? && click.Some? ==> Get(responses.value, screen.id) == click
      ensures !(screen.QuestionScreen? && click.Some?) ==>
                responses == if old(responses).None? then Some([]) else old(responses)
      ensures old(Valid(cat) || (IsDict(cat) && page.None? && responses.None?)) ==> Valid(cat)
    {
      var unset := page.None? && responses.None?;
      Initialize();
      if unset && IsDict(cat) {
        InitialStateValid(cat);
      }
      screen := CurrentScreen(cat);
      if screen.QuestionScreen? && click.Some? {
        var id := screen.id;
        Next(cat, click.value);
        assert Get(responses.value, id) == click;
      }
    }
  }
}
