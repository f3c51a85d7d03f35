# AIND-Isolation game agent: a Dafny model

This project models the move-choosing agent of an Isolation player. Isolation is a
two-player board game: players move in turn, and a player with no legal move loses.

The model covers these parts of the agent:

- the evaluators that score a position for one player:
  - `custom_score` and the mobility heuristics behind it;
  - the six-weight `EvaluationFunction`;
- depth-limited `minimax`;
- depth-limited `alphabeta`;
- the driver `get_move`, which runs fixed-depth or iterative-deepening search under a
  deadline. When time runs out it falls back on the last completed answer.

The modules are:

- `Scores` (scores.dfy): scores extended with -inf and +inf, their order, and `max`/`min`.
- `Isolation` (isolation.dfy): the board as an abstract game. A position has:
  - a legal-move list for each player;
  - a successor function `forecast_move`;
  - the winner and loser tests;
  - a move count and the board size.
- `Heuristics` (heuristics.dfy): `custom_score`, `__heuristic1__` and `__heuristic2__`.
- `Evaluation` (evaluation.dfy): `EvaluationFunction` and `eval_func`.
- `MinimaxSearch` (minimax.dfy): `minimax` as a function. It comes with:
  - a clock-free reference value `MinimaxValue`;
  - `Nodes`, a count of the calls a search makes.
- `AlphaBetaSearch` (alphabeta.dfy): `alphabeta` as a function. It comes with:
  - the fail-soft theorem that ties it to `MinimaxValue`;
  - the budget comparison with minimax;
  - what it returns as a move.
- `GameAgent` (game_agent.dfy):
  - `ChooseMove`, the specification of `get_move`;
  - the iterative-deepening lemmas;
  - the class `CustomPlayer`. Its methods are loops proved equal to the specification
    functions, and `GetMove` updates the field `bestMoveSoFar`.

The clock is modelled as an integer budget:

- Every search call reads `time_left()` on entry. Below `TIMER_THRESHOLD` it raises
  `Timeout`; here it returns the `Timeout` result instead.
- Otherwise the call costs one unit of budget.
- What is left is handed to the next call.

With this model the lemmas can say exactly which depths complete. It also shows that
iterative deepening always stops.

## Model

| member | source | states |
|---|---|---|
| Scores.Le | game_agent.py:351 | Python's `<=` on scores: -inf is below and +inf above every score, +inf is below only +inf, -inf is above only -inf, and finite scores compare as their integers |
| Scores.Lt | game_agent.py:348 | Python's `<` on scores is the strict part of `<=`: below and different |
| Scores.LeTotal | game_agent.py:348-351 | any two scores are comparable, and scores below each other are equal |
| Scores.Max | game_agent.py:354 | `max(alpha, value)` is an upper bound of both arguments and is one of them |
| Scores.Min | game_agent.py:371 | `min(beta, value)` is a lower bound of both arguments and is one of them |
| Isolation.MoveLt | game_agent.py:276-281 | Python's `<` on `(row, col)` moves is irreflexive, decided by the row when the rows differ and by the column when they are equal |
| Isolation.MoveLtStrictTotal | game_agent.py:276-281 | of two different moves exactly one is the smaller |
| Isolation.Opponent | game_agent.py:57 | the opponent of a player is the other player |
| Heuristics.Heuristic1 | game_agent.py:53-61 | a finite score: own moves minus three times opponent moves while fewer than half the cells are played, own minus opponent moves afterwards |
| Heuristics.Heuristic2 | game_agent.py:63-68 | a finite score: own moves minus twice the opponent's moves |
| Heuristics.CustomScore | game_agent.py:21-51 | -inf exactly when the player has lost; +inf exactly when it has not lost but has won; otherwise the `__heuristic1__` score |
| Heuristics.CustomScoreTerminal | game_agent.py:45-49 | where the player to move is stuck (under the board's rule that such a player has lost), it scores -inf and its opponent scores +inf |
| Evaluation.EvaluationFunction.EvalFunc | parameterized_evaluation_function.py:21-52 | -inf exactly when the player has lost (tested first); +inf exactly when it has not lost but has won; otherwise `w0*own - w1*opp - w2*dist` while `2*move_count < height*width`, and `w3*own - w4*opp - w5*dist` after |
| Evaluation.DefaultIsMobilityDifference | parameterized_evaluation_function.py:16-17 | with the default weights (1,1,0,1,1,0), an undecided position scores own moves minus opponent moves in both phases, whatever the distance |
| Evaluation.CustomScoreIsWeighted | game_agent.py:21-61 | `custom_score` is the weighted evaluator with weights (1,3,0,1,1,0) |
| Evaluation.Heuristic2IsWeighted | game_agent.py:63-68 | on undecided positions `__heuristic2__` is the weighted evaluator with weights (1,2,0,1,2,0) |
| Evaluation.EvalFuncTerminal | parameterized_evaluation_function.py:41-45 | for any weights, a stuck player scores -inf and its opponent +inf |
| MinimaxSearch.GreatestPair | game_agent.py:276-278 | Python's `max` over `(score, move)` tuples returns a member of the list that no member exceeds |
| MinimaxSearch.LeastPair | game_agent.py:279-281 | Python's `min` over `(score, move)` tuples returns a member of the list that no member is below |
| MinimaxSearch.PairLt | game_agent.py:276-281 | Python's `<` on `(score, move)` tuples is irreflexive; the scores decide when they differ, and the moves only break ties |
| MinimaxSearch.PairLtStrictTotal | game_agent.py:276-281 | of two different `(score, move)` tuples exactly one is the smaller |
| MinimaxSearch.PairLtTrans | game_agent.py:276-281 | the tuple order `max` and `min` use is transitive |
| MinimaxSearch.Minimax | game_agent.py:217-281 | `Timeout` whenever the budget is below the threshold on entry; `(score(game, self), (-1,-1))` at depth 0 or with no legal move; a completed call spends budget |
| MinimaxSearch.MinimaxChildren | game_agent.py:267-271 | the loop collects one `(score, move)` pair per legal move, in order, and never gains budget |
| MinimaxSearch.MinimaxTime | game_agent.py:252-253 | `minimax` completes exactly when the budget stays at or above the threshold for all the calls it makes; it then spends one unit per call |
| MinimaxSearch.ChildrenTime | game_agent.py:267-271 | the loop completes exactly when the budget covers all the successors' calls, and then spends exactly that much |
| MinimaxSearch.ChildrenScores | game_agent.py:268-271 | the `i`-th collected pair is the reference minimax value of the `i`-th successor with the move that leads there |
| MinimaxSearch.MaxOverIsGreatest | game_agent.py:276-278 | the maximizing layer's reference value is attained by a successor and bounds all of them |
| MinimaxSearch.MinOverIsLeast | game_agent.py:279-281 | the minimizing layer's reference value is attained by a successor and bounds all of them from below |
| MinimaxSearch.MinimaxScore | game_agent.py:217-281 | a completed `minimax` returns the depth-limited minimax value from the root agent's point of view |
| MinimaxSearch.MinimaxChoosesExtremePair | game_agent.py:267-281 | at a node with moves, a completed `minimax` returns a legal move with the node's value, and that move's successor has exactly the returned value. No successor's `(value, move)` tuple is greater (maximizing) or smaller (minimizing) than the returned one, so ties go to the greater or lesser move |
| MinimaxSearch.TieGoesToGreaterMove | game_agent.py:278 | for any score and any two moves m1 < m2, `max` of the two `(score, move)` pairs is `(score, m2)` in either order |
| AlphaBetaSearch.AlphaBeta | game_agent.py:284-338 | `Timeout` whenever the budget is below the threshold on entry; `(score(game, self), (-1,-1))` at depth 0 or with no legal move; a completed call spends budget |
| AlphaBetaSearch.MaxLayer | game_agent.py:341-356 | the maximizing loop never gains budget |
| AlphaBetaSearch.MinLayer | game_agent.py:359-373 | the minimizing loop never gains budget |
| AlphaBetaSearch.AlphaBetaFailSoft | game_agent.py:284-373 | for any window with alpha < beta, a completed `alphabeta` returns the minimax value when strictly inside the window, an upper bound on it at or below alpha, and a lower bound on it at or above beta |
| AlphaBetaSearch.MaxLayerBounds | game_agent.py:341-356 | the maximizing loop's result against the greatest value of the remaining successors: a lower bound at a cutoff, otherwise an upper bound that is exact above alpha |
| AlphaBetaSearch.MinLayerBounds | game_agent.py:359-373 | the mirror image of `MaxLayerBounds` for the minimizing loop |
| AlphaBetaSearch.AlphaBetaFullWindowIsMinimaxValue | game_agent.py:284 | with the default window (-inf, +inf), a completed `alphabeta` returns the minimax value |
| AlphaBetaSearch.AlphaBetaAgreesWithMinimax | game_agent.py:217-373 | when both complete at the same depth, `alphabeta` with the full window and `minimax` return the same score |
| AlphaBetaSearch.AlphaBetaWithinBudget | game_agent.py:324-325 | a budget that lets `minimax` complete lets `alphabeta` complete, with at least as much budget left |
| AlphaBetaSearch.MaxLayerWithinBudget | game_agent.py:341-356 | the maximizing loop completes within the budget of a full scan and spends no more than it |
| AlphaBetaSearch.MinLayerWithinBudget | game_agent.py:359-373 | the minimizing loop completes within the budget of a full scan and spends no more than it |
| AlphaBetaSearch.AlphaBetaNoSlowerThanMinimax | game_agent.py:284-373 | whenever `minimax` completes, `alphabeta` with the full window completes with at least as much budget left |
| AlphaBetaSearch.MaxLayerMove | game_agent.py:341-356 | the maximizing loop returns a move it tried or its incumbent. A result above -inf, reached from -inf, carries a move it tried. From (-inf, (-1,-1)) with beta above -inf, a result of -inf keeps (-1,-1) |
| AlphaBetaSearch.MinLayerMove | game_agent.py:359-373 | the minimizing loop returns a move it tried; without a cutoff at alpha it is the last move, not the best one |
| AlphaBetaSearch.MaxLayerCutoff | game_agent.py:347-353 | a cutoff of the maximizing loop (value >= beta, with value <= alpha < beta on entry) returns the move just tried with the score its own search returned under a window (lo, beta) with alpha <= lo; that move's successor has minimax value at least the score |
| AlphaBetaSearch.MinLayerCutoff | game_agent.py:364-370 | a cutoff of the minimizing loop (value <= alpha, with alpha < beta <= value on entry) returns the move just tried with the score its own search returned under a window (alpha, hi) with hi <= beta; that move's successor has minimax value at most the score |
| AlphaBetaSearch.MaxLayerFullWindow | game_agent.py:341-356 | the maximizing loop run with alpha equal to its value and beta = +inf, as at the root, returns its incumbent `(value, best)` when no successor is worth more than `value`; otherwise a score above `value` with the first move tried whose successor's minimax value is exactly that score, every earlier successor being worth less |
| AlphaBetaSearch.AlphaBetaMove | game_agent.py:341-373 | at a maximizing node with moves and beta above -inf, the move is (-1,-1) exactly when the score is -inf, and a legal move otherwise. At a minimizing node it is a legal move, and the last one unless cut off at alpha. A cutoff at beta (maximizing) or alpha (minimizing) returns a legal move whose successor is worth at least (at most) the score. With the full window, a maximizing node scoring above -inf returns its minimax value and the first legal move, in generation order, whose successor has exactly that value |
| AlphaBetaSearch.MaxLayerIgnoresBest | game_agent.py:343-356 | the maximizing loop's completion, score and budget do not depend on the move it starts from |
| AlphaBetaSearch.AlphaBetaIntended | game_agent.py:341-356 | starting the maximizing layer's best move at the first legal move keeps completion, score and budget, and always returns a legal move where there is one |
| GameAgent.RootSearch | game_agent.py:196-205 | the search `get_move` runs is `minimax` for method 'minimax' and `alphabeta` with the full window otherwise. It times out below the threshold, spends budget, and when it completes it returns the minimax value |
| GameAgent.Deepen | game_agent.py:193-200 | the iterative-deepening loop ends with its starting move or with the move of a search, at the starting depth or deeper, that completed within the budget |
| GameAgent.ChooseMove | game_agent.py:133-215 | (-1,-1) with no legal move. The first legal move when the first search times out. In fixed mode, the move of the completed search |
| GameAgent.CompletedPrefix | game_agent.py:193-200 | if the deepening loop completed depth k, it completed every shallower depth |
| GameAgent.DeepenFrom | game_agent.py:193-210 | when depth k completes and depth k+1 times out, the loop ends with depth k's move |
| GameAgent.DeepeningStops | game_agent.py:195-200 | iterative deepening reaches a depth whose next search times out |
| GameAgent.IterativeReturnsDeepestCompleted | game_agent.py:181-210 | in iterative mode `get_move` returns the move of the deepest search that completed. All shallower searches completed and the next one timed out; with none completed, it returns the first legal move |
| GameAgent.DeepenMinimaxLegal | game_agent.py:193-200 | the iterative minimax loop only ever holds a legal move |
| GameAgent.MinimaxAgentMoveIsLegal | game_agent.py:164-166 | a minimax agent given the board's legal moves, at least one of them, returns one of them |
| GameAgent.AlphaBetaAgentMove | game_agent.py:201-205 | a fixed-depth alpha-beta agent whose search completes returns (-1,-1) if it scores the position -inf, and a legal move otherwise |
| GameAgent.FixedDepthAgentPlaysBestMove | game_agent.py:201-205 | a fixed-depth agent whose search completes plays a legal move whose successor has the position's minimax value: always for minimax, and for alpha-beta whenever its score is above -inf. Among several best moves minimax plays the greatest `(row, col)` tuple and alpha-beta the first in generation order |
| GameAgent.AlphaBetaAgentForfeits | game_agent.py:341-356 | a concrete game in which the alpha-beta agent returns (-1,-1) at a position with a legal move, while the minimax agent returns that move |
| GameAgent.CustomPlayer.constructor | game_agent.py:123-131 | the configuration is stored as given (defaults: depth 3, `custom_score`, iterative, 'minimax', threshold 10), and `best_move_so_far` starts at (-1,-1) |
| GameAgent.CustomPlayer.Minimax | game_agent.py:217-281 | the method computes `MinimaxSearch.Minimax` |
| GameAgent.CustomPlayer.SearchChildren | game_agent.py:267-271 | the results loop computes `MinimaxChildren` |
| GameAgent.CustomPlayer.AlphaBeta | game_agent.py:284-338 | the method computes `AlphaBetaSearch.AlphaBeta` |
| GameAgent.CustomPlayer.SearchMaxLayer | game_agent.py:341-356 | the maximizing loop computes `MaxLayer` from (-inf, (-1,-1)) |
| GameAgent.CustomPlayer.SearchMinLayer | game_agent.py:359-373 | the minimizing loop computes `MinLayer` from +inf |
| GameAgent.CustomPlayer.RunSearch | game_agent.py:196-205 | the search call computes `RootSearch` |
| GameAgent.CustomPlayer.GetMove | game_agent.py:133-215 | returns `ChooseMove`. With no legal move `best_move_so_far` is unchanged; otherwise it ends as the returned move |

## Left out

- The wall clock behind `time_left` is replaced by an integer budget.
  - Each deadline probe costs one unit.
  - The time spent between probes is not modelled.
- `logging` calls are not modelled.
- `isolation.Board` is not part of this model. Its legal-move generation, `forecast_move`,
  and the winner and loser tests are abstract functions of a position.
  - `DecidedByMobility` states the board's rule that a stuck player to move has lost.
    Only the terminal lemmas assume it.
- Scores are integers extended with -inf and +inf, not floats. `custom_score` and the two
  heuristics produce only integers or infinities, so for them nothing is lost.
- Evaluation.EvaluationFunction.EvalFunc: the distance term is an integer parameter, so the
  modelled `eval_func` returns an integer where the original, with a nonzero `w2` or `w5`
  and a non-integer Euclidean distance, returns a non-integer float.
- `__distance_from_center__` and `__heuristic3__` take a square root, so they are not
  modelled. `eval_func` takes the distance as a non-negative integer parameter.
- The stub `paramterized_heuristic` does nothing, so it is not modelled.
- `tournament_mp.py` and `interactive_isolation.py` are not part of this model. They are
  process pools, command-line parsing, file output and human play.
- `self.score(game, self)` passes the agent object. The model passes the `Player` seat the
  board knows the agent as.
- The minimizing loop of `alphabeta` also tracks a `best_move_so_far`, but never returns
  it. `SearchMinLayer` does not keep that variable.
- In `CustomPlayer`, the loop of `minimax` and the two loops of `alphabeta` are separate
  methods (`SearchChildren`, `SearchMaxLayer`, `SearchMinLayer`) rather than inline. The
  early returns and the state updates are the same.
- `EvaluationFunction.__init__` is the datatype constructor, and `DefaultWeights` is its
  default. Because the object is a value, `eval_func` cannot change the weights or the
  board.
- The documented choices `{'minimax', 'alphabeta'}` are not enforced: any method name
  other than 'minimax' runs alpha-beta, as the code does.
- Ties in `minimax` are broken by comparing moves, as Python tuple comparison does, not
  by generation order; `alphabeta` keeps the first best move it meets. Both are modelled.
- `search_depth` is documented as strictly positive but is not checked. A fixed-mode depth
  of 0 or less returns (-1,-1); `MinimaxAgentMoveIsLegal`, `AlphaBetaAgentMove` and
  `FixedDepthAgentPlaysBestMove` ask for a fixed-mode depth of at least 1.
- The driver `ChooseMove` and `CustomPlayer` use `alphabeta` as written. The corrected
  `AlphaBetaIntended` is stated and proved beside it (see Findings).

## Findings

| source | as written | input that shows it | evidently intended | confidence | as-written member | corrected member |
|---|---|---|---|---|---|---|
| game_agent.py:341-356 | the maximizing layer of `alphabeta` starts `best_move_so_far` at (-1,-1) and replaces it only when a child scores strictly above -inf. Where every line loses, it returns (-1,-1), and `get_move` (201-205, 215) hands that back | a position with one legal move (0,0) whose only reply leaves the agent stuck; fixed depth 2, `custom_score`: `alphabeta` returns (-inf, (-1,-1)) and `get_move` returns (-1,-1) | return a legal move whenever there is one, as the docstrings say ("may return (-1, -1) if there are no available legal moves", 164-166; "(-1, -1) for no legal moves", 313-314); `minimax` does this | not executed | GameAgent.AlphaBetaAgentForfeits | AlphaBetaSearch.AlphaBetaIntended |
