# Data Career Quiz: a verified model of the quiz engine

The Data Career Quiz is a Streamlit app (`app.py`). It asks a fixed list of
multiple-choice questions. Every option of a question gives integer weights to some of
five careers: SWE, Data Scientist, Data Analyst, Data Engineer and MLE. At the end it
shows the careers' percentages and names the career with the highest score.

This project models the engine under that user interface, in five modules:

- **Dicts** (`dicts.dfy`) models Python's insertion-ordered `dict` and `defaultdict` as
  sequences of entries. It covers lookup, `d[k] = v`, `d[k] += v`, and the key order
  that insertions produce.
- **Catalog** (`catalog.dfy`) holds the career table `CAREERS`, the keys of
  `CAREER_DESCRIPTIONS`, and the catalog's well-formedness invariant. It also models the
  option lookup the scorer performs. **Questions** (`questions.dfy`) transcribes the
  first three questions of `QUESTIONS` and proves them well formed.
- **Scorer** (`scorer.dfy`) models `calculate_scores` as an imperative method: a nested
  loop over a growing dictionary. The method is proved equal to a functional
  specification: per-career sums over the answers, with keys in order of first touch.
- **Results** (`results.dfy`) models `normalize_scores` with exact reals. It also
  models the choice of the top career: the head of a stable descending sort, proved to
  be the first maximal entry.
- **Session** (`session.dfy`) is a class holding the two session fields `page` and
  `responses`. Its methods are `initialize_session_state`, the "Next" handler and
  `main`'s dispatch. A reachable-state invariant is proved preserved.

`examples.dfy` works through concrete answers to the first questions.

Python's KeyError on an unknown question id is modelled as a precondition
(`AnswersKnown`). The session invariant proves the app always meets it.

## Model

| member | source | states |
|---|---|---|
| Dicts.Keys | app.py:443 | `list(d.keys())`: one key per entry, in insertion order |
| Dicts.Get | app.py:355-356 | `d.get(k)`: the lookup finds nothing exactly when `k` is not a key |
| Dicts.GetOr | app.py:358 | the reading of a `defaultdict(int)`: the default for a missing key, otherwise what `d.get(k)` finds |
| Dicts.Put | app.py:399 | `d[k] = v`: an existing key keeps its place, a new key is appended; `k` then reads `v` and every other key reads as before |
| Dicts.Increment | app.py:358 | `d[k] += v` on a `defaultdict`: the key order is as for `Put`; `k` reads its old value (0 if absent) plus `v`; every other key reads as before |
| Dicts.Dedup | app.py:353-358 | the key order of a dictionary filled by a series of insertions: no repeats, and the same members as the insertion series |
| Dicts.DedupSnoc | app.py:358 | inserting one more key leaves the key order unchanged if the key is present, and appends it otherwise |
| Dicts.DedupOrderAt | app.py:353-358 | of any two positions of a dictionary's key order, the earlier key was first inserted earlier |
| Dicts.DedupFirstOccurrenceOrder | app.py:353-358 | a dictionary filled by a series of insertions lists its keys in order of first insertion |
| Catalog.CareerKeys | app.py:7-13 | `list(CAREERS)` has five distinct keys, starts with SWE, and equals the key list of `CAREER_DESCRIPTIONS` (app.py:16-46) |
| Catalog.Picked | app.py:355-356 | the option lookup yields nothing exactly when the question is unknown or the label is not one of its options |
| Catalog.PickedValid | app.py:49-342 | in a well-formed catalog, every option the scorer can pick names only careers of `CAREERS`, each with a positive weight |
| Questions.WorkTypeValid | app.py:52-56 | the options of `work_type` are valid |
| Questions.ProblemApproachValid | app.py:60-64 | the options of `problem_approach` are valid |
| Questions.ProjectTimelineValid | app.py:68-72 | the options of `project_timeline` are valid |
| Questions.ExcerptWellFormed | app.py:49-73 | the first three questions form a well-formed catalog: distinct ids and labels, weights only for careers of `CAREERS`, all positive |
| Scorer.CalculateScores | app.py:352-359 | the loop's dictionary equals the specification: its keys are the touched careers in order of first touch (`Dicts.DedupFirstOccurrenceOrder`), and each career reads (default 0) the sum of its weights over the answers whose label is an option |
| Scorer.AddWeights | app.py:357-358 | the inner loop adds each weight of the picked option to its career's running score, and appends careers seen for the first time |
| Scorer.AddStepKeys | app.py:358 | one `+=` of the inner loop extends the key order by the step's career exactly when that career is new |
| Scorer.AddStepValues | app.py:358 | one `+=` of the inner loop adds the step's weight to its career's reading and changes no other reading |
| Scorer.ScoresOfReading | app.py:353-359 | the specified scores form a dictionary: a touched career reads its total, an untouched one is absent |
| Scorer.UntouchedIsZero | app.py:353-358 | a career no picked option names has total 0, which is what the `defaultdict` reads for it |
| Scorer.UnknownLabelSkipped | app.py:355 | appending an answer whose label is not an option leaves the scores unchanged, and nothing is raised |
| Scorer.CareerTotalAppend | app.py:354-358 | the total over two batches of answers is the sum of the batches' totals |
| Scorer.TouchedMembers | app.py:354-358 | a career is touched exactly when some answer picks an option that names it |
| Scorer.CareerTotalPermutation | app.py:354-358 | the per-career totals do not depend on the order of the answers |
| Scorer.ScoresOrderIndependent | app.py:353-359 | reordering the answers gives the same key set and the same score for every career; only the key order may change |
| Scorer.WeightOfPositive | app.py:357-358 | with positive weights, an option gives every career a non-negative weight, and a positive one to each career it names |
| Scorer.TotalsOfWellFormed | app.py:49-342 | with a well-formed catalog, every total is non-negative, and a touched career is a key of `CAREERS` with a positive total |
| Scorer.ScoresFromCareers | app.py:353-358 | with a well-formed catalog, the scorer creates keys only from `CAREERS`, each with a strictly positive score |
| Results.Total | app.py:362 | non-negative scores have a non-negative total; with positive scores the total is 0 exactly when there are no scores |
| Results.ZeroFilled | app.py:364 | the five `CAREERS` keys in order, each at 0 |
| Results.Scale | app.py:365 | the scaled dictionary has the input's careers, in the input's order |
| Results.Normalize | app.py:361-365 | `normalize_scores` is never empty, so `sorted_careers[0]` (app.py:409) exists |
| Results.NormalizeZeroTotal | app.py:362-364 | a zero total gives exactly the five `CAREERS` keys, in order, each mapped to 0 |
| Results.NormalizeKeepsKeys | app.py:365 | a nonzero total keeps exactly the input keys, in their order |
| Results.NormalizeShare | app.py:365 | with a nonzero total, each entry keeps its career and holds `score/total*100` |
| Results.ScaleTotal | app.py:362-365 | the scaled values add up to the total's share of itself times 100 |
| Results.NormalizeSumsTo100 | app.py:362-365 | with a nonzero total, the percentages add up to exactly 100 |
| Results.NormalizeBounds | app.py:365 | with non-negative scores, every percentage lies in [0, 100] |
| Results.NormalizePreservesOrder | app.py:365 | with a positive total, one career's score is at most another's exactly when its percentage is |
| Results.Insert | app.py:408 | inserting into a descending list keeps it descending and adds exactly the new entry; the new head is the entry, unless the old head is strictly larger |
| Results.SortDesc | app.py:408 | `sorted(..., reverse=True)` by value yields a descending permutation of the entries |
| Results.TopCareer | app.py:408-409 | the named career is one of the careers being ranked |
| Results.FirstMax | app.py:408-409 | the reference top position holds a maximal value, and every earlier entry is strictly smaller |
| Results.SortHeadIsFirstMax | app.py:408-409 | the head of the stable descending sort is the first maximal entry |
| Results.TopCareerIsFirstMax | app.py:408-409 | `sorted_careers[0][0]` is the key of the first maximal entry: the maximum, with ties going to the earliest key |
| Results.ZeroTotalTopIsSWE | app.py:364 | with a zero total, all five careers tie at 0 and the top-career choice (app.py:408-409) names SWE, the first key of `CAREERS` |
| Results.BelowTotal | app.py:362 | with non-negative scores, each score is at most the total |
| Results.ZeroTotalIffNothingTouched | app.py:362-364 | with a well-formed catalog, the total is 0 exactly when no picked option names any career |
| Results.NothingPickedZeroTotal | app.py:355-364 | no answers, or only answers with unknown labels, give empty scores, a zero total and the zero-filled percentages |
| Results.TopCareerHasMaxScore | app.py:403-413 | the named career is a key of `CAREERS` and `CAREER_DESCRIPTIONS`, so both lookups succeed, and no career has a higher raw score |
| Results.DisplayResults | app.py:403-413 | computes the named career and its display name: the career has the maximal raw score, and its display name is `CAREERS[top]` |
| Session.InitialStateValid | app.py:344-348 | the initial state (page 0, no responses) satisfies the reachable-state invariant |
| Session.NextKeepsValid | app.py:393-400 | answering the current question with an option appends exactly one entry (the current id and that label) and keeps the invariant with the page one further |
| Session.ValidAnswersKnown | app.py:399 | in a reachable state, every recorded id is a question, so scoring the responses (app.py:404, 355) never raises KeyError |
| Session.ValidNothingSkipped | app.py:393-399 | in a reachable state, every recorded label is an option of its question, so the scorer's test at app.py:355 skips nothing |
| Session.ResultsIffAllAnswered | app.py:438-443 | in a reachable state, the page has reached the end exactly when every question has been answered |
| Session.QuizSession.constructor | app.py:344-348 | a new session has neither field |
| Session.QuizSession.Initialize | app.py:344-348 | fills in `page = 0` and `responses = {}` only where they are missing; existing values are kept |
| Session.QuizSession.CurrentScreen | app.py:438-443 | results exactly when `page >= len(QUESTIONS)`; otherwise the question `list(QUESTIONS.keys())[page]` |
| Session.QuizSession.Next | app.py:398-400 | stores the label under the current question id; leaves every other entry unchanged; advances `page` by exactly 1; keeps the invariant |
| Session.QuizSession.Rerun | app.py:436-443 | one run of `main`: initialise, choose the screen, and on a click on a question screen store the label under that question id (in the initialised responses) and advance the page; otherwise leave the initialised state alone; keeps the invariant from a fresh or valid session |
| Examples.TwoAnswersScores | app.py:53-61 | building software plus clear objectives score `{SWE: 3, Data Engineer: 1}` |
| Examples.TwoAnswersResults | app.py:361-365 | these scores normalise to `{SWE: 75, Data Engineer: 25}`, and SWE is named (app.py:408-409) |
| Examples.OneAnswerScores | app.py:69 | "Quick wins" alone scores `{Data Analyst: 1, SWE: 1}` |
| Examples.TieFollowsInsertionOrder | app.py:408-409 | the tie from the answer at app.py:69 normalises to 50/50 and names Data Analyst, the scorer's first key, although SWE comes first in `CAREERS` |
| Examples.NoAnswersResults | app.py:362-364 | no answers give the five careers at 0, and SWE is named (app.py:408-409) |

## Left out

- Streamlit rendering and control are not modelled: `st.write`, `st.radio`, `st.button`,
  `st.columns`, `st.progress`, `st.set_page_config`, `st.title`, `st.rerun`. Only the
  state changes they trigger are. The radio's contract (it offers only the current
  question's option labels) is a precondition of `Next` and `Rerun`.
- `create_results_visualization` (app.py:367-387) is not modelled. It builds a chart in
  pandas and plotly, which are outside this model.
- Floating point is not modelled. Scores are modelled as integers, since every weight is
  an integer. Percentages are exact reals, so whether IEEE rounding keeps the sum at
  exactly 100.0 is not captured.
- The `scores` session field (app.py:349-350) is not modelled, because nothing reads it.
- Prompt texts, display texts and `CAREER_DESCRIPTIONS` texts are not modelled; only
  the description table's keys are.
- The catalog is not transcribed in full. Only the first three of the 35 questions in
  `QUESTIONS` are (app.py:50-73). Theorems about the full quiz take `WellFormed(cat)`
  as a hypothesis, and `Questions.ExcerptWellFormed` shows the transcribed part meets
  it. The remaining questions are data of the same shape.
- config.py is not part of this model. It is a separate catalog that app.py never
  imports.
- Scorer.CalculateScores: an unknown question id raises KeyError in the source; here
  that case is excluded by the precondition `AnswersKnown`, and
  `Session.ValidAnswersKnown` shows the app never reaches it.
- Results.TopCareerHasMaxScore: the tie-break is stated on the percentages (through
  `Results.TopCareerIsFirstMax`). On raw scores the model states only maximality.
