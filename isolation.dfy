/** The game board the agent searches. The board itself (legal-move generation,
    successor states, the win and loss tests) is not part of this model: it is an
    abstract collaborator given as a record of functions over an opaque position type. */
module Isolation {

  datatype Player = Player1 | Player2

  /** `game.get_opponent(player)`: a two-player game has exactly one other player. */
  function Opponent(p: Player): (q: Player)
    ensures q != p
  {
    if p == Player1 then Player2 else Player1
  }

  /** A move is the (row, col) cell the mover occupies next. */
  type Move = (int, int)

  /** The "no legal move" answer. */
  const NoMove: Move := (-1, -1)

  /** Python's `<` on `(int, int)` tuples: by row, then by column. */
  predicate MoveLt(a: Move, b: Move)
    ensures MoveLt(a, b) ==> a != b
    ensures a.0 != b.0 ==> (MoveLt(a, b) <==> a.0 < b.0)
    ensures a.0 == b.0 ==> (MoveLt(a, b) <==> a.1 < b.1)
  {
    a.0 < b.0 || (a.0 == b.0 && a.1 < b.1)
  }

  /** Of two different moves exactly one is the smaller. */
  lemma MoveLtStrictTotal(a: Move, b: Move)
    ensures MoveLt(a, b) ==> !MoveLt(b, a)
    ensures a != b ==> MoveLt(a, b) || MoveLt(b, a)
  {
  }

  /** The queries an `isolation.Board` answers about one of its positions. */
  datatype Rules<!Pos> = Rules(
    legalMoves: (Pos, Player) -> seq<Move>,
    activePlayer: Pos -> Player,
    forecast: (Pos, Move) -> Pos,
    isWinner: (Pos, Player) -> bool,
    isLoser: (Pos, Player) -> bool,
    moveCount: Pos -> int,
    width: Pos -> int,
    height: Pos -> int)

  /** A board: the rules of the game together with the current position. Boards are
      values; `ForecastMove` returns a new board and leaves this one usable. */
  datatype Board<!Pos> = Board(rules: Rules<Pos>, pos: Pos)
  {
    /** `game.get_legal_moves()`: the moves of the player to move, in generation order. */
    function GetLegalMoves(): seq<Move>
    {
      rules.legalMoves(pos, rules.activePlayer(pos))
    }

    /** `game.get_legal_moves(player)`. */
    function LegalMovesOf(p: Player): seq<Move>
    {
      rules.legalMoves(pos, p)
    }

    /** `game.forecast_move(m)`. */
    function ForecastMove(m: Move): (b: Board<Pos>)
      ensures b.rules == rules
    {
      Board(rules, rules.forecast(pos, m))
    }

    predicate IsWinner(p: Player)
    {
      rules.isWinner(pos, p)
    }

    predicate IsLoser(p: Player)
    {
      rules.isLoser(pos, p)
    }

    function MoveCount(): int
    {
      rules.moveCount(pos)
    }

    /** `game.move_count < (game.height * game.width) / 2`, with Python 3's true
        division, stated over the integers. */
    predicate FirstHalf()
    {
      2 * rules.moveCount(pos) < rules.height(pos) * rules.width(pos)
    }
  }
}
