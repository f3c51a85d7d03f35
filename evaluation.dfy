/** parameterized_evaluation_function.py: an evaluator whose six weights are fixed when it
    is built. The first three weigh own moves, opponent moves and distance from the centre
    while fewer than half the cells have been played; the last three do so afterwards. */
module Evaluation {
  import opened Scores
  import opened Isolation
  import opened Heuristics

  /** The weight tuple `(w0, w1, w2, w3, w4, w5)`. */
  datatype Weights = Weights(w0: int, w1: int, w2: int, w3: int, w4: int, w5: int)

  /** The constructor's default, `(1, 1, 0, 1, 1, 0)`. */
  const DefaultWeights := Weights(1, 1, 0, 1, 1, 0)

  /** An `EvaluationFunction` object. Its only field is assigned when it is built and only
      read afterwards, so the object is a value. */
  datatype EvaluationFunction = EvaluationFunction(weights: Weights)
  {
    /** `eval_func(game, player)`. The Euclidean distance of the player from the centre of
        the board is not modelled; `distance` stands for it. */
    function EvalFunc<Pos>(game: Board<Pos>, player: Player, distance: nat): (r: Score)
      ensures r == NegInf <==> game.IsLoser(player)
      ensures r == PosInf <==> !game.IsLoser(player) && game.IsWinner(player)
      ensures r.Fin? && game.FirstHalf() ==>
        r.n == weights.w0 * |game.LegalMovesOf(player)|
               - weights.w1 * |game.LegalMovesOf(Opponent(player))| - weights.w2 * distance
      ensures r.Fin? && !game.FirstHalf() ==>
        r.n == weights.w3 * |game.LegalMovesOf(player)|
               - weights.w4 * |game.LegalMovesOf(Opponent(player))| - weights.w5 * distance
    {
      if game.IsLoser(player) then NegInf
      else if game.IsWinner(player) then PosInf
      else
        var ownMoves := |game.LegalMovesOf(player)|;
        var oppMoves := |game.LegalMovesOf(Opponent(player))|;
        if game.FirstHalf() then Fin(weights.w0 * ownMoves - weights.w1 * oppMoves - weights.w2 * distance)
        else Fin(weights.w3 * ownMoves - weights.w4 * oppMoves - weights.w5 * distance)
    }
  }

  /** With the default weights an undecided position scores own moves minus opponent moves
      in both halves of the game, whatever the distance from the centre. */
  lemma DefaultIsMobilityDifference<Pos>(game: Board<Pos>, player: Player, distance: nat)
    requires !game.IsLoser(player) && !game.IsWinner(player)
    ensures EvaluationFunction(DefaultWeights).EvalFunc(game, player, distance)
         == Fin(|game.LegalMovesOf(player)| - |game.LegalMovesOf(Opponent(player))|)
  {
  }

  /** `custom_score` is the weighted evaluator with weights `(1, 3, 0, 1, 1, 0)`. */
  lemma CustomScoreIsWeighted<Pos>(game: Board<Pos>, player: Player, distance: nat)
    ensures CustomScore(game, player)
         == EvaluationFunction(Weights(1, 3, 0, 1, 1, 0)).EvalFunc(game, player, distance)
  {
  }

  /** On an undecided position `__heuristic2__` is the weighted evaluator with weights
      `(1, 2, 0, 1, 2, 0)`. */
  lemma Heuristic2IsWeighted<Pos>(game: Board<Pos>, player: Player, distance: nat)
    requires !game.IsLoser(player) && !game.IsWinner(player)
    ensures Heuristic2(game, player)
         == EvaluationFunction(Weights(1, 2, 0, 1, 2, 0)).EvalFunc(game, player, distance)
  {
  }

  /** A player with no move left is scored -inf, and its opponent +inf, whatever the
      weights. */
  lemma EvalFuncTerminal<Pos>(e: EvaluationFunction, game: Board<Pos>, distance: nat)
    requires DecidedByMobility(game)
    requires game.GetLegalMoves() == []
    ensures e.EvalFunc(game, game.rules.activePlayer(game.pos), distance) == NegInf
    ensures e.EvalFunc(game, Opponent(game.rules.activePlayer(game.pos)), distance) == PosInf
  {
  }
}
