/** `CustomPlayer`: the agent that picks a move by fixed-depth or iterative-deepening
    search with minimax or alpha-beta. The search functions of `MinimaxSearch` and
    `AlphaBetaSearch` specify what the class's methods compute; `ChooseMove` specifies
    `get_move`, and the lemmas below say which move it ends up returning. */
module GameAgent {
  import opened Scores
  import opened Isolation
  import opened Heuristics
  import opened MinimaxSearch
  import opened AlphaBetaSearch

  // ---------------------------------------------------------------------------------
  // What `get_move` computes.

  /** One search from the root, a maximizing layer: `minimax` when the method is named
      "minimax", and `alphabeta` with the window (-inf, +inf) for any other name. */
  function RootSearch<Pos>(a: Agent<Pos>, game: Board<Pos>, depth: int, timeLeft: int): (r: Result)
    ensures timeLeft < a.timerThreshold ==> r == Timeout
    ensures r.Done? ==> r.timeLeft < timeLeft
    ensures r.Done? ==> r.score == MinimaxValue(a, game, depth, true)
  {
    if a.searchMethod == "minimax" then
      var r := Minimax(a, game, depth, true, timeLeft);
      MinimaxScore(a, game, depth, true, timeLeft);
      r
    else
      var r := AlphaBeta(a, game, depth, NegInf, PosInf, true, timeLeft);
      if r.Done? then
        AlphaBetaFullWindowIsMinimaxValue(a, game, depth, true, timeLeft);
        r
      else r
  }

  /** The iterative-deepening loop from depth `depth` on, holding `best` as the move
      of the last search that completed: each completed search replaces it, and the
      first search that times out ends the loop with it. The answer is therefore `best`
      or the move of a search, at `depth` or deeper, that completed within the budget. */
  function Deepen<Pos>(a: Agent<Pos>, game: Board<Pos>, depth: int, timeLeft: int, best: Move): (m: Move)
    decreases timeLeft - a.timerThreshold
    ensures m == best || exists d: int, t: int | depth <= d && t <= timeLeft ::
      RootSearch(a, game, d, t).Done? && RootSearch(a, game, d, t).move == m
  {
    match RootSearch(a, game, depth, timeLeft)
    case Timeout => best
    case Done(_, m, left) =>
      assert RootSearch(a, game, depth, timeLeft).move == m;
      Deepen(a, game, depth + 1, left, m)
  }

  /** `get_move(game, legal_moves, time_left)`: (-1, -1) when there is no legal move;
      otherwise the first legal move stands until a search completes, iterative mode
      deepens from depth 1 until a search times out, and fixed mode runs one search at
      `search_depth`. */
  function ChooseMove<Pos>(a: Agent<Pos>, game: Board<Pos>, legalMoves: seq<Move>, timeLeft: int): (m: Move)
    ensures legalMoves == [] ==> m == NoMove
    ensures legalMoves != [] && timeLeft < a.timerThreshold ==> m == legalMoves[0]
    ensures legalMoves != [] && RootSearch(a, game, if a.iterative then 1 else a.searchDepth, timeLeft).Timeout? ==>
      m == legalMoves[0]
    ensures legalMoves != [] && !a.iterative && RootSearch(a, game, a.searchDepth, timeLeft).Done? ==>
      m == RootSearch(a, game, a.searchDepth, timeLeft).move
  {
    if legalMoves == [] then NoMove
    else if a.iterative then Deepen(a, game, 1, timeLeft, legalMoves[0])
    else
      match RootSearch(a, game, a.searchDepth, timeLeft)
      case Timeout => legalMoves[0]
      case Done(_, m, _) => m
  }

  // ---------------------------------------------------------------------------------
  // Iterative deepening, depth by depth.

  /** How far the deepening loop got. */
  datatype Progress = Interrupted | Completed(move: Move, timeLeft: int)

  /** The state of the deepening loop after the searches at depths 1 to `k`, started from
      `fallback`: `Completed` with the move of depth `k` and the budget left when all of
      them completed, `Interrupted` once one timed out. */
  function Deepened<Pos>(a: Agent<Pos>, game: Board<Pos>, k: nat, timeLeft: int, fallback: Move): Progress
  {
    if k == 0 then Completed(fallback, timeLeft)
    else
      match Deepened(a, game, k - 1, timeLeft, fallback)
      case Interrupted => Interrupted
      case Completed(_, left) =>
        match RootSearch(a, game, k, left)
        case Timeout => Interrupted
        case Done(_, m, left') => Completed(m, left')
  }

  /** A loop that completed `k` searches completed every shallower one too. */
  lemma {:induction false} CompletedPrefix<Pos>(a: Agent<Pos>, game: Board<Pos>, j: nat, k: nat,
                                               timeLeft: int, fallback: Move)
    requires j <= k
    requires Deepened(a, game, k, timeLeft, fallback).Completed?
    decreases k
    ensures Deepened(a, game, j, timeLeft, fallback).Completed?
  {
    if j < k {
      CompletedPrefix(a, game, j, k - 1, timeLeft, fallback);
    }
  }

  /** Run from the state after depth `j`, the loop ends with the move of depth `k` when
      depth `k` completes and depth `k + 1` times out. */
  lemma {:induction false} DeepenFrom<Pos>(a: Agent<Pos>, game: Board<Pos>, j: nat, k: nat,
                                          timeLeft: int, fallback: Move)
    requires j <= k
    requires Deepened(a, game, k, timeLeft, fallback).Completed?
    requires RootSearch(a, game, k + 1, Deepened(a, game, k, timeLeft, fallback).timeLeft).Timeout?
    decreases k - j
    ensures Deepened(a, game, j, timeLeft, fallback).Completed?
    ensures var s := Deepened(a, game, j, timeLeft, fallback);
      Deepen(a, game, j + 1, s.timeLeft, s.move) == Deepened(a, game, k, timeLeft, fallback).move
  {
    CompletedPrefix(a, game, j, k, timeLeft, fallback);
    if j < k {
      DeepenFrom(a, game, j + 1, k, timeLeft, fallback);
      var s := Deepened(a, game, j, timeLeft, fallback);
      var r := RootSearch(a, game, j + 1, s.timeLeft);
      assert Deepened(a, game, j + 1, timeLeft, fallback) == Completed(r.move, r.timeLeft);
      assert Deepen(a, game, j + 1, s.timeLeft, s.move) == Deepen(a, game, j + 2, r.timeLeft, r.move);
    }
  }

  /** From a state after depth `j` that completed, the loop reaches a depth `k >= j` that
      completes and whose next search times out: the budget strictly shrinks with every
      completed search and a search below the threshold times out. */
  lemma {:induction false} DeepeningStops<Pos>(a: Agent<Pos>, game: Board<Pos>, j: nat,
                                              timeLeft: int, fallback: Move) returns (k: nat)
    requires Deepened(a, game, j, timeLeft, fallback).Completed?
    decreases Deepened(a, game, j, timeLeft, fallback).timeLeft - a.timerThreshold + 1
    ensures j <= k
    ensures Deepened(a, game, k, timeLeft, fallback).Completed?
    ensures RootSearch(a, game, k + 1, Deepened(a, game, k, timeLeft, fallback).timeLeft).Timeout?
  {
    var left := Deepened(a, game, j, timeLeft, fallback).timeLeft;
    if RootSearch(a, game, j + 1, left).Timeout? {
      k := j;
    } else {
      k := DeepeningStops(a, game, j + 1, timeLeft, fallback);
    }
  }

  /** In iterative mode with at least one legal move, `get_move` returns the move of the
      deepest search that completed: there is a `k` such that the searches at depths 1 to
      `k` all complete, the one at depth `k + 1` times out, and the answer is the move of
      depth `k` (the first legal move when `k` is 0). */
  lemma IterativeReturnsDeepestCompleted<Pos>(a: Agent<Pos>, game: Board<Pos>, legalMoves: seq<Move>,
                                             timeLeft: int) returns (k: nat)
    requires a.iterative && legalMoves != []
    ensures forall j: nat | j <= k :: Deepened(a, game, j, timeLeft, legalMoves[0]).Completed?
    ensures RootSearch(a, game, k + 1, Deepened(a, game, k, timeLeft, legalMoves[0]).timeLeft).Timeout?
    ensures ChooseMove(a, game, legalMoves, timeLeft) == Deepened(a, game, k, timeLeft, legalMoves[0]).move
  {
    k := DeepeningStops(a, game, 0, timeLeft, legalMoves[0]);
    DeepenFrom(a, game, 0, k, timeLeft, legalMoves[0]);
    forall j: nat | j <= k
      ensures Deepened(a, game, j, timeLeft, legalMoves[0]).Completed?
    {
      CompletedPrefix(a, game, j, k, timeLeft, legalMoves[0]);
    }
  }

  // ---------------------------------------------------------------------------------
  // Which move comes back.

  /** The iterative minimax loop only ever holds a legal move. */
  lemma {:induction false} DeepenMinimaxLegal<Pos>(a: Agent<Pos>, game: Board<Pos>, depth: int,
                                                  timeLeft: int, best: Move)
    requires a.searchMethod == "minimax" && depth >= 1
    requires best in game.GetLegalMoves()
    decreases timeLeft - a.timerThreshold
    ensures Deepen(a, game, depth, timeLeft, best) in game.GetLegalMoves()
  {
    var r := RootSearch(a, game, depth, timeLeft);
    if r.Done? {
      assert r.move in game.GetLegalMoves() by {
        MinimaxChoosesExtremePair(a, game, depth, true, timeLeft);
      }
      DeepenMinimaxLegal(a, game, depth + 1, r.timeLeft, r.move);
      assert Deepen(a, game, depth, timeLeft, best) == Deepen(a, game, depth + 1, r.timeLeft, r.move);
    }
  }

  /** A minimax agent given the board's own legal moves, at least one of them, returns one
      of them (in fixed mode when `search_depth` is at least 1). */
  lemma MinimaxAgentMoveIsLegal<Pos>(a: Agent<Pos>, game: Board<Pos>, legalMoves: seq<Move>, timeLeft: int)
    requires a.searchMethod == "minimax"
    requires legalMoves == game.GetLegalMoves() && legalMoves != []
    requires !a.iterative ==> a.searchDepth >= 1
    ensures ChooseMove(a, game, legalMoves, timeLeft) in legalMoves
  {
    if a.iterative {
      DeepenMinimaxLegal(a, game, 1, timeLeft, legalMoves[0]);
    } else if RootSearch(a, game, a.searchDepth, timeLeft).Done? {
      MinimaxChoosesExtremePair(a, game, a.searchDepth, true, timeLeft);
    }
  }

  /** A fixed-depth alpha-beta agent whose search completes returns the sentinel (-1, -1)
      exactly when the search scores the position -inf, even though legal moves exist,
      and one of the legal moves otherwise. */
  lemma AlphaBetaAgentMove<Pos>(a: Agent<Pos>, game: Board<Pos>, legalMoves: seq<Move>, timeLeft: int)
    requires a.searchMethod != "minimax" && !a.iterative && a.searchDepth >= 1
    requires legalMoves == game.GetLegalMoves() && legalMoves != []
    requires RootSearch(a, game, a.searchDepth, timeLeft).Done?
    ensures RootSearch(a, game, a.searchDepth, timeLeft).score == NegInf ==>
      ChooseMove(a, game, legalMoves, timeLeft) == NoMove
    ensures RootSearch(a, game, a.searchDepth, timeLeft).score != NegInf ==>
      ChooseMove(a, game, legalMoves, timeLeft) in legalMoves
  {
    AlphaBetaMove(a, game, a.searchDepth, NegInf, PosInf, true, timeLeft);
  }

  /** A fixed-depth agent whose search completes plays a best move at that depth: one whose
      successor has the minimax value of the position. For alpha-beta this holds when the
      search scores the position above -inf; below that it answers (-1, -1). Where several
      moves are best the two methods part ways: minimax plays the greatest of them as a
      `(row, col)` tuple, alpha-beta the first of them in generation order. */
  lemma FixedDepthAgentPlaysBestMove<Pos>(a: Agent<Pos>, game: Board<Pos>, legalMoves: seq<Move>,
                                         timeLeft: int)
    requires !a.iterative && a.searchDepth >= 1
    requires legalMoves == game.GetLegalMoves() && legalMoves != []
    requires RootSearch(a, game, a.searchDepth, timeLeft).Done?
    ensures a.searchMethod == "minimax" || RootSearch(a, game, a.searchDepth, timeLeft).score != NegInf ==>
      exists i | 0 <= i < |legalMoves| ::
        && legalMoves[i] == ChooseMove(a, game, legalMoves, timeLeft)
        && ChildValue(a, game, legalMoves, i, a.searchDepth, false) == MinimaxValue(a, game, a.searchDepth, true)
    ensures a.searchMethod == "minimax" ==>
      forall j | 0 <= j < |legalMoves| ::
        ChildValue(a, game, legalMoves, j, a.searchDepth, false) == MinimaxValue(a, game, a.searchDepth, true) ==>
          !MoveLt(ChooseMove(a, game, legalMoves, timeLeft), legalMoves[j])
    ensures a.searchMethod != "minimax" && RootSearch(a, game, a.searchDepth, timeLeft).score != NegInf ==>
      exists i | 0 <= i < |legalMoves| ::
        && legalMoves[i] == ChooseMove(a, game, legalMoves, timeLeft)
        && forall j | 0 <= j < i ::
             Lt(ChildValue(a, game, legalMoves, j, a.searchDepth, false), MinimaxValue(a, game, a.searchDepth, true))
  {
    if a.searchMethod == "minimax" {
      MinimaxChoosesExtremePair(a, game, a.searchDepth, true, timeLeft);
    } else {
      AlphaBetaMove(a, game, a.searchDepth, NegInf, PosInf, true, timeLeft);
    }
  }

  // ---------------------------------------------------------------------------------
  // A position where the alpha-beta agent answers (-1, -1) although it can move.

  /** Three positions of a game played out move by move: at 0 the first player has the
      single move (0, 0); at 1 the second player has the single move (1, 1); at 2 the
      first player is stuck and has lost. */
  function ForcedLoss(): Rules<int>
  {
    Rules(
      (pos: int, p: Player) =>
        if pos == 0 && p == Player1 then [(0, 0)]
        else if pos == 1 && p == Player2 then [(1, 1)]
        else [],
      (pos: int) => if pos == 1 then Player2 else Player1,
      (pos: int, m: Move) => pos + 1,
      (pos: int, p: Player) => pos == 2 && p == Player2,
      (pos: int, p: Player) => pos == 2 && p == Player1,
      (pos: int) => pos,
      (pos: int) => 7,
      (pos: int) => 7)
  }

  /** On that game a fixed-depth-2 alpha-beta agent scoring with `custom_score` sees that
      every line loses, and returns (-1, -1) from position 0 although (0, 0) is legal
      there; the minimax agent in its place returns (0, 0). */
  lemma AlphaBetaAgentForfeits()
    ensures forall pos | 0 <= pos <= 2 :: DecidedByMobility(Board(ForcedLoss(), pos))
    ensures var a := Agent(2, (b: Board<int>, p: Player) => CustomScore(b, p), false, "alphabeta", 0, Player1);
      var game := Board(ForcedLoss(), 0);
      && game.GetLegalMoves() == [(0, 0)]
      && AlphaBeta(a, game, 2, NegInf, PosInf, true, 100) == Done(NegInf, NoMove, 97)
      && ChooseMove(a, game, game.GetLegalMoves(), 100) == NoMove
    ensures var a := Agent(2, (b: Board<int>, p: Player) => CustomScore(b, p), false, "minimax", 0, Player1);
      var game := Board(ForcedLoss(), 0);
      ChooseMove(a, game, game.GetLegalMoves(), 100) == (0, 0)
  {
    var rules := ForcedLoss();
    var b0, b1, b2 := Board(rules, 0), Board(rules, 1), Board(rules, 2);
    assert b0.ForecastMove((0, 0)) == b1;
    assert b1.ForecastMove((1, 1)) == b2;
    assert b2.GetLegalMoves() == [];
    var score := (b: Board<int>, p: Player) => CustomScore(b, p);
    var ab := Agent(2, score, false, "alphabeta", 0, Player1);
    assert AlphaBeta(ab, b2, 0, NegInf, PosInf, true, 98) == Done(NegInf, NoMove, 97);
    assert AlphaBeta(ab, b1, 1, NegInf, PosInf, false, 99) == Done(NegInf, (1, 1), 97);
    assert AlphaBeta(ab, b0, 2, NegInf, PosInf, true, 100) == Done(NegInf, NoMove, 97);
    var mm := Agent(2, score, false, "minimax", 0, Player1);
    assert Minimax(mm, b0, 2, true, 100).Done?;
    MinimaxAgentMoveIsLegal(mm, b0, b0.GetLegalMoves(), 100);
  }

  // ---------------------------------------------------------------------------------
  // The agent object.

  /** A `CustomPlayer`: the configuration fixed by `__init__` and the move
      `best_move_so_far` that `get_move` falls back on when a search times out. The
      clock `time_left` is not a field here: every method takes the budget left and
      returns what remains. */
  class CustomPlayer<Pos> {
    const agent: Agent<Pos>
    var bestMoveSoFar: Move

    /** `__init__(search_depth=3, score_fn=custom_score, iterative=True,
        method='minimax', timeout=10.)`; `seat` is the player the board knows this agent
        as. */
    constructor(seat: Player, searchDepth: int := 3,
                scoreFn: (Board<Pos>, Player) -> Score := (b: Board<Pos>, p: Player) => CustomScore(b, p),
                iterative: bool := true, searchMethod: string := "minimax", timeout: int := 10)
      ensures agent == Agent(searchDepth, scoreFn, iterative, searchMethod, timeout, seat)
      ensures bestMoveSoFar == NoMove
    {
      agent := Agent(searchDepth, scoreFn, iterative, searchMethod, timeout, seat);
      bestMoveSoFar := NoMove;
    }

    /** `minimax(game, depth, maximizing_player)`. */
    method Minimax(game: Board<Pos>, depth: int, maximizing: bool, timeLeft: int) returns (r: Result)
      decreases depth, 1
      ensures r == MinimaxSearch.Minimax(agent, game, depth, maximizing, timeLeft)
    {
      if timeLeft < agent.timerThreshold {
        return Timeout;
      }
      if depth <= 0 {
        return Done(agent.score(game, agent.seat), NoMove, timeLeft - 1);
      }
      var legalMoves := game.GetLegalMoves();
      if |legalMoves| == 0 {
        return Done(agent.score(game, agent.seat), NoMove, timeLeft - 1);
      }
      var scan := SearchChildren(game, legalMoves, depth, !maximizing, timeLeft - 1);
      if scan.Stopped? {
        return Timeout;
      }
      var best := if maximizing then GreatestPair(scan.results) else LeastPair(scan.results);
      return Done(best.0, best.1, scan.timeLeft);
    }

    /** The loop of `minimax`: each move's successor is searched one level shallower, in
        order, and its `(score, move)` collected, until a successor times out. */
    method SearchChildren(game: Board<Pos>, legalMoves: seq<Move>, depth: int, childMaximizing: bool,
                          timeLeft: int) returns (s: Scan)
      requires depth >= 1
      decreases depth, 0
      ensures s == MinimaxChildren(agent, game, legalMoves, depth, childMaximizing, timeLeft)
    {
      var results: seq<(Score, Move)> := [];
      var clock := timeLeft;
      for i := 0 to |legalMoves|
        invariant Prepend(results, MinimaxChildren(agent, game, legalMoves[i..], depth, childMaximizing, clock))
               == MinimaxChildren(agent, game, legalMoves, depth, childMaximizing, timeLeft)
      {
        var m := legalMoves[i];
        var child := Minimax(game.ForecastMove(m), depth - 1, childMaximizing, clock);
        ChildrenStep(agent, game, legalMoves, i, depth, childMaximizing, results, clock, child);
        if child.Timeout? {
          return Stopped;
        }
        results := results + [(child.score, m)];
        clock := child.timeLeft;
      }
      assert legalMoves[|legalMoves|..] == [];
      return Scanned(results, clock);
    }

    /** `alphabeta(game, depth, alpha, beta, maximizing_player)`. */
    method AlphaBeta(game: Board<Pos>, depth: int, alpha: Score, beta: Score, maximizing: bool,
                     timeLeft: int) returns (r: Result)
      decreases depth, 1
      ensures r == AlphaBetaSearch.AlphaBeta(agent, game, depth, alpha, beta, maximizing, timeLeft)
    {
      if timeLeft < agent.timerThreshold {
        return Timeout;
      }
      if depth <= 0 {
        return Done(agent.score(game, agent.seat), NoMove, timeLeft - 1);
      }
      var legalMoves := game.GetLegalMoves();
      if |legalMoves| == 0 {
        return Done(agent.score(game, agent.seat), NoMove, timeLeft - 1);
      }
      if maximizing {
        r := SearchMaxLayer(game, legalMoves, depth, alpha, beta, timeLeft - 1);
      } else {
        r := SearchMinLayer(game, legalMoves, depth, alpha, beta, timeLeft - 1);
      }
    }

    /** The maximizing loop of `alphabeta`, from value -inf and `best_move_so_far`
        (-1, -1). */
    method SearchMaxLayer(game: Board<Pos>, legalMoves: seq<Move>, depth: int, alpha: Score, beta: Score,
                          timeLeft: int) returns (r: Result)
      requires depth >= 1
      decreases depth, 0
      ensures r == MaxLayer(agent, game, legalMoves, depth, NegInf, NoMove, alpha, beta, timeLeft)
    {
      var value, best, lower, clock := NegInf, NoMove, alpha, timeLeft;
      for i := 0 to |legalMoves|
        invariant MaxLayer(agent, game, legalMoves[i..], depth, value, best, lower, beta, clock)
               == MaxLayer(agent, game, legalMoves, depth, NegInf, NoMove, alpha, beta, timeLeft)
      {
        var m := legalMoves[i];
        assert legalMoves[i..][1..] == legalMoves[i + 1..];
        var child := AlphaBeta(game.ForecastMove(m), depth - 1, lower, beta, false, clock);
        if child.Timeout? {
          return Timeout;
        }
        if Lt(value, child.score) {
          value, best := child.score, m;
        }
        if Le(beta, value) {
          return Done(value, m, child.timeLeft);
        }
        lower := Max(lower, value);
        clock := child.timeLeft;
      }
      return Done(value, best, clock);
    }

    /** The minimizing loop of `alphabeta`, from value +inf. It returns the move of its
        last iteration, so its own `best_move_so_far` is not kept. */
    method SearchMinLayer(game: Board<Pos>, legalMoves: seq<Move>, depth: int, alpha: Score, beta: Score,
                          timeLeft: int) returns (r: Result)
      requires depth >= 1
      decreases depth, 0
      ensures r == MinLayer(agent, game, legalMoves, depth, PosInf, NoMove, alpha, beta, timeLeft)
    {
      var value, last, upper, clock := PosInf, NoMove, beta, timeLeft;
      for i := 0 to |legalMoves|
        invariant MinLayer(agent, game, legalMoves[i..], depth, value, last, alpha, upper, clock)
               == MinLayer(agent, game, legalMoves, depth, PosInf, NoMove, alpha, beta, timeLeft)
      {
        var m := legalMoves[i];
        assert legalMoves[i..][1..] == legalMoves[i + 1..];
        var child := AlphaBeta(game.ForecastMove(m), depth - 1, alpha, upper, true, clock);
        if child.Timeout? {
          return Timeout;
        }
        if Lt(child.score, value) {
          value := child.score;
        }
        if Le(value, alpha) {
          return Done(value, m, child.timeLeft);
        }
        upper := Min(upper, value);
        last := m;
        clock := child.timeLeft;
      }
      return Done(value, last, clock);
    }

    /** The search `get_move` calls at one depth. */
    method RunSearch(game: Board<Pos>, depth: int, timeLeft: int) returns (r: Result)
      ensures r == RootSearch(agent, game, depth, timeLeft)
    {
      if agent.searchMethod == "minimax" {
        r := Minimax(game, depth, true, timeLeft);
      } else {
        r := AlphaBeta(game, depth, NegInf, PosInf, true, timeLeft);
      }
    }

    /** `get_move(game, legal_moves, time_left)`. With no legal move it answers (-1, -1)
        and leaves `best_move_so_far` alone; otherwise `best_move_so_far` ends as the move
        returned. */
    method GetMove(game: Board<Pos>, legalMoves: seq<Move>, timeLeft: int) returns (m: Move)
      modifies this
      ensures m == ChooseMove(agent, game, legalMoves, timeLeft)
      ensures legalMoves == [] ==> bestMoveSoFar == old(bestMoveSoFar)
      ensures legalMoves != [] ==> bestMoveSoFar == m
    {
      if |legalMoves| == 0 {
        return NoMove;
      }
      bestMoveSoFar := legalMoves[0];
      if agent.iterative {
        var depth, clock := 1, timeLeft;
        while true
          invariant Deepen(agent, game, depth, clock, bestMoveSoFar) == ChooseMove(agent, game, legalMoves, timeLeft)
          decreases clock - agent.timerThreshold
        {
          var r := RunSearch(game, depth, clock);
          if r.Timeout? {
            return bestMoveSoFar;
          }
          bestMoveSoFar := r.move;
          depth, clock := depth + 1, r.timeLeft;
        }
      } else {
        var r := RunSearch(game, agent.searchDepth, timeLeft);
        if r.Done? {
          bestMoveSoFar := r.move;
        }
        return bestMoveSoFar;
      }
    }
  }
}
