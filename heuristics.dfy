/** The fixed evaluators of game_agent.py: `custom_score` and the mobility heuristics it
    can delegate to. Each maps a board and a player to a score from that player's
    point of view. */
module Heuristics {
  import opened Scores
  import opened Isolation

  /** `__heuristic1__`: aggressive (opponent moves count three times) while fewer than
      half the cells have been played, plain mobility difference afterwards. */
  function Heuristic1<Pos>(game: Board<Pos>, player: Player): (r: Score)
    ensures r.Fin?
    ensures game.FirstHalf() ==>
      r.n == |game.LegalMovesOf(player)| - 3 * |game.LegalMovesOf(Opponent(player))|
    ensures !game.FirstHalf() ==>
      r.n == |game.LegalMovesOf(player)| - |game.LegalMovesOf(Opponent(player))|
  {
    var ownMoves := |game.LegalMovesOf(player)|;
    var oppMoves := |game.LegalMovesOf(Opponent(player))|;
    if game.FirstHalf() then Fin(ownMoves - 3 * oppMoves) else Fin(ownMoves - oppMoves)
  }

  /** `__heuristic2__`: opponent moves count twice for the whole game. */
  function Heuristic2<Pos>(game: Board<Pos>, player: Player): (r: Score)
    ensures r.Fin?
    ensures r.n == |game.LegalMovesOf(player)| - 2 * |game.LegalMovesOf(Opponent(player))|
  {
    var ownMoves := |game.LegalMovesOf(player)|;
    var oppMoves := |game.LegalMovesOf(Opponent(player))|;
    Fin(ownMoves - 2 * oppMoves)
  }

  /** `custom_score`: a lost position is -inf, a won one +inf (the loss test comes
      first), and anything else is scored by `__heuristic1__`. */
  function CustomScore<Pos>(game: Board<Pos>, player: Player): (r: Score)
    ensures r == NegInf <==> game.IsLoser(player)
    ensures r == PosInf <==> !game.IsLoser(player) && game.IsWinner(player)
    ensures r.Fin? ==> r == Heuristic1(game, player)
  {
    if game.IsLoser(player) then NegInf
    else if game.IsWinner(player) then PosInf
    else Heuristic1(game, player)
  }

  /** How `isolation.Board` decides a finished game (that class is not part of this
      model): at this position the player to move has lost, and the other player has
      won, exactly when the player to move has no legal move. */
  ghost predicate DecidedByMobility<Pos>(game: Board<Pos>)
  {
    var mover := game.rules.activePlayer(game.pos);
    && (game.IsLoser(mover) <==> game.GetLegalMoves() == [])
    && (game.IsWinner(Opponent(mover)) <==> game.GetLegalMoves() == [])
    && !game.IsLoser(Opponent(mover))
  }

  /** A player with no move left is scored -inf, and its opponent +inf. */
  lemma CustomScoreTerminal<Pos>(game: Board<Pos>)
    requires DecidedByMobility(game)
    requires game.GetLegalMoves() == []
    ensures CustomScore(game, game.rules.activePlayer(game.pos)) == NegInf
    ensures CustomScore(game, Opponent(game.rules.activePlayer(game.pos))) == PosInf
  {
  }
}
