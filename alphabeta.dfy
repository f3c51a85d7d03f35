/** `CustomPlayer.alphabeta` as a function of the board, the depth, the window, the layer
    and the time left, with the same budget model as `minimax`. It is proved to agree
    with minimax: the score is the minimax value whenever it lies strictly inside the
    window, and a bound on it otherwise (so with the full window it is that value), and a
    budget that lets minimax finish lets alpha-beta finish with at least as much left. */
module AlphaBetaSearch {
  import opened Scores
  import opened Isolation
  import opened MinimaxSearch

  /** `alphabeta(game, depth, alpha, beta, maximizing_player)`. */
  function AlphaBeta<Pos>(a: Agent<Pos>, game: Board<Pos>, depth: int, alpha: Score, beta: Score,
                          maximizing: bool, timeLeft: int): (r: Result)
    decreases depth, 1, 0
    ensures timeLeft < a.timerThreshold ==> r == Timeout
    ensures timeLeft >= a.timerThreshold && (depth <= 0 || game.GetLegalMoves() == []) ==>
      r == Done(a.score(game, a.seat), NoMove, timeLeft - 1)
    ensures r.Done? ==> r.timeLeft < timeLeft
  {
    if timeLeft < a.timerThreshold then Timeout
    else if depth <= 0 then Done(a.score(game, a.seat), NoMove, timeLeft - 1)
    else
      var legalMoves := game.GetLegalMoves();
      if legalMoves == [] then Done(a.score(game, a.seat), NoMove, timeLeft - 1)
      else if maximizing then MaxLayer(a, game, legalMoves, depth, NegInf, NoMove, alpha, beta, timeLeft - 1)
      else MinLayer(a, game, legalMoves, depth, PosInf, NoMove, alpha, beta, timeLeft - 1)
  }

  /** The rest of the maximizing loop, from the moves still to try and the loop state
      `value`, `best_move_so_far` and `alpha`. A child value above `value` replaces it
      and its move; once `value >= beta` the loop returns `(value, m)` with the move just
      tried; otherwise `alpha` becomes `max(alpha, value)`. After the last move the loop
      returns `(value, best_move_so_far)`. */
  function MaxLayer<Pos>(a: Agent<Pos>, game: Board<Pos>, moves: seq<Move>, depth: int,
                         value: Score, best: Move, alpha: Score, beta: Score, timeLeft: int): (r: Result)
    requires depth >= 1
    decreases depth, 0, |moves|
    ensures r.Done? ==> r.timeLeft <= timeLeft
  {
    if moves == [] then Done(value, best, timeLeft)
    else
      var m := moves[0];
      match AlphaBeta(a, game.ForecastMove(m), depth - 1, alpha, beta, false, timeLeft)
      case Timeout => Timeout
      case Done(thisValue, _, left) =>
        var value' := if Lt(value, thisValue) then thisValue else value;
        var best' := if Lt(value, thisValue) then m else best;
        if Le(beta, value') then Done(value', m, left)
        else MaxLayer(a, game, moves[1..], depth, value', best', Max(alpha, value'), beta, left)
  }

  /** The rest of the minimizing loop, from the moves still to try and the loop state
      `value`, `beta` and the move `m` of the last iteration. A child value below `value`
      replaces it; once `value <= alpha` the loop returns `(value, m)`; otherwise `beta`
      becomes `min(beta, value)`. After the last move the loop returns `(value, m)` with
      the last move tried: the tracked `best_move_so_far` is never returned. */
  function MinLayer<Pos>(a: Agent<Pos>, game: Board<Pos>, moves: seq<Move>, depth: int,
                         value: Score, last: Move, alpha: Score, beta: Score, timeLeft: int): (r: Result)
    requires depth >= 1
    decreases depth, 0, |moves|
    ensures r.Done? ==> r.timeLeft <= timeLeft
  {
    if moves == [] then Done(value, last, timeLeft)
    else
      var m := moves[0];
      match AlphaBeta(a, game.ForecastMove(m), depth - 1, alpha, beta, true, timeLeft)
      case Timeout => Timeout
      case Done(thisValue, _, left) =>
        var value' := if Lt(thisValue, value) then thisValue else value;
        if Le(value', alpha) then Done(value', m, left)
        else MinLayer(a, game, moves[1..], depth, value', m, alpha, Min(beta, value'), left)
  }

  /** The search of the board after move `m`, one ply shallower, with the window
      (`alpha`, `beta`) and `timeLeft`, completes with score `score`. */
  ghost predicate ChildReturns<Pos>(a: Agent<Pos>, game: Board<Pos>, m: Move, depth: int, alpha: Score,
                                    beta: Score, maximizing: bool, timeLeft: int, score: Score)
  {
    AlphaBeta(a, game.ForecastMove(m), depth - 1, alpha, beta, maximizing, timeLeft).Done?
    && AlphaBeta(a, game.ForecastMove(m), depth - 1, alpha, beta, maximizing, timeLeft).score == score
  }

  // ---------------------------------------------------------------------------------
  // Scores: alpha-beta is minimax inside the window and a bound on it outside.

  /** `r` is what a fail-soft alpha-beta search may return for a node whose minimax value
      is `v`, searched with the window (`alpha`, `beta`). */
  ghost predicate FailSoft(r: Score, alpha: Score, beta: Score, v: Score)
  {
    && (Le(r, alpha) ==> Le(v, r))
    && (Le(beta, r) ==> Le(r, v))
    && (Lt(alpha, r) && Lt(r, beta) ==> r == v)
  }

  /** A completed alpha-beta search with `alpha < beta` returns the minimax value when it
      lands strictly inside the window, an upper bound on it when it lands at or below
      `alpha`, and a lower bound on it when it lands at or above `beta`. */
  lemma {:induction false} AlphaBetaFailSoft<Pos>(a: Agent<Pos>, game: Board<Pos>, depth: int,
                                                 alpha: Score, beta: Score, maximizing: bool,
                                                 timeLeft: int)
    requires Lt(alpha, beta)
    requires AlphaBeta(a, game, depth, alpha, beta, maximizing, timeLeft).Done?
    decreases depth, 1, 0
    ensures FailSoft(AlphaBeta(a, game, depth, alpha, beta, maximizing, timeLeft).score, alpha, beta,
                     MinimaxValue(a, game, depth, maximizing))
  {
    if depth > 0 && game.GetLegalMoves() != [] {
      var moves := game.GetLegalMoves();
      if maximizing {
        MaxLayerBounds(a, game, moves, depth, NegInf, NoMove, alpha, beta, timeLeft - 1);
      } else {
        MinLayerBounds(a, game, moves, depth, PosInf, NoMove, alpha, beta, timeLeft - 1);
      }
    }
  }

  /** One iteration of the maximizing loop, on scores alone. The successor searched with
      the window (`alpha`, `beta`) returned `c` for minimax value `v1`; the loop either
      stops at the updated value or goes on with `alpha` raised to it and returns `r`,
      bounded against the greatest value `wRest` of the later successors as
      `MaxLayerBounds` states. Then `r` is bounded in the same way against the greatest
      value of this successor and the later ones. */
  lemma MaxStepBounds(value: Score, alpha: Score, beta: Score, c: Score, v1: Score, r: Score, wRest: Score)
    requires Le(value, alpha) && Lt(alpha, beta)
    requires FailSoft(c, alpha, beta, v1)
    requires var value' := if Lt(value, c) then c else value;
      if Le(beta, value') then r == value'
      else
        && (Le(beta, r) ==> Le(r, wRest))
        && (Lt(r, beta) ==> Le(wRest, r) && Le(value', r) && (Lt(Max(alpha, value'), r) ==> wRest == r))
    ensures var w := Max(v1, wRest);
      && (Le(beta, r) ==> Le(r, w))
      && (Lt(r, beta) ==> Le(w, r) && Le(value, r) && (Lt(alpha, r) ==> w == r))
  {
  }

  /** What the maximizing loop returns, against the greatest minimax value `w` of the
      successors still to try: a cutoff value is a lower bound of `w`; otherwise the
      result is at least `value`, bounds `w` from above, and equals it once it exceeds
      the current `alpha`. */
  lemma {:induction false} MaxLayerBounds<Pos>(a: Agent<Pos>, game: Board<Pos>, moves: seq<Move>,
                                              depth: int, value: Score, best: Move, alpha: Score,
                                              beta: Score, timeLeft: int)
    requires depth >= 1
    requires Le(value, alpha) && Lt(alpha, beta)
    requires MaxLayer(a, game, moves, depth, value, best, alpha, beta, timeLeft).Done?
    decreases depth, 0, |moves|
    ensures var r := MaxLayer(a, game, moves, depth, value, best, alpha, beta, timeLeft).score;
      var w := MaxOver(a, game, moves, depth);
      && (Le(beta, r) ==> Le(r, w))
      && (Lt(r, beta) ==> Le(w, r) && Le(value, r) && (Lt(alpha, r) ==> w == r))
  {
    if moves != [] {
      var m := moves[0];
      var child := AlphaBeta(a, game.ForecastMove(m), depth - 1, alpha, beta, false, timeLeft);
      AlphaBetaFailSoft(a, game.ForecastMove(m), depth - 1, alpha, beta, false, timeLeft);
      var value' := if Lt(value, child.score) then child.score else value;
      var best' := if Lt(value, child.score) then m else best;
      if !Le(beta, value') {
        MaxLayerBounds(a, game, moves[1..], depth, value', best', Max(alpha, value'), beta, child.timeLeft);
      }
      MaxStepBounds(value, alpha, beta, child.score, MinimaxValue(a, game.ForecastMove(m), depth - 1, false),
                    MaxLayer(a, game, moves, depth, value, best, alpha, beta, timeLeft).score,
                    MaxOver(a, game, moves[1..], depth));
    }
  }

  /** One iteration of the minimizing loop, on scores alone: the mirror image of
      `MaxStepBounds`. */
  lemma MinStepBounds(value: Score, alpha: Score, beta: Score, c: Score, v1: Score, r: Score, wRest: Score)
    requires Le(beta, value) && Lt(alpha, beta)
    requires FailSoft(c, alpha, beta, v1)
    requires var value' := if Lt(c, value) then c else value;
      if Le(value', alpha) then r == value'
      else
        && (Le(r, alpha) ==> Le(wRest, r))
        && (Lt(alpha, r) ==> Le(r, wRest) && Le(r, value') && (Lt(r, Min(beta, value')) ==> wRest == r))
    ensures var w := Min(v1, wRest);
      && (Le(r, alpha) ==> Le(w, r))
      && (Lt(alpha, r) ==> Le(r, w) && Le(r, value) && (Lt(r, beta) ==> w == r))
  {
  }

  /** The mirror image of `MaxLayerBounds` for the minimizing loop, against the least
      minimax value `w` of the successors still to try. */
  lemma {:induction false} MinLayerBounds<Pos>(a: Agent<Pos>, game: Board<Pos>, moves: seq<Move>,
                                              depth: int, value: Score, last: Move, alpha: Score,
                                              beta: Score, timeLeft: int)
    requires depth >= 1
    requires Le(beta, value) && Lt(alpha, beta)
    requires MinLayer(a, game, moves, depth, value, last, alpha, beta, timeLeft).Done?
    decreases depth, 0, |moves|
    ensures var r := MinLayer(a, game, moves, depth, value, last, alpha, beta, timeLeft).score;
      var w := MinOver(a, game, moves, depth);
      && (Le(r, alpha) ==> Le(w, r))
      && (Lt(alpha, r) ==> Le(r, w) && Le(r, value) && (Lt(r, beta) ==> w == r))
  {
    if moves != [] {
      var m := moves[0];
      var child := AlphaBeta(a, game.ForecastMove(m), depth - 1, alpha, beta, true, timeLeft);
      AlphaBetaFailSoft(a, game.ForecastMove(m), depth - 1, alpha, beta, true, timeLeft);
      var value' := if Lt(child.score, value) then child.score else value;
      if !Le(value', alpha) {
        MinLayerBounds(a, game, moves[1..], depth, value', m, alpha, Min(beta, value'), child.timeLeft);
      }
      MinStepBounds(value, alpha, beta, child.score, MinimaxValue(a, game.ForecastMove(m), depth - 1, true),
                    MinLayer(a, game, moves, depth, value, last, alpha, beta, timeLeft).score,
                    MinOver(a, game, moves[1..], depth));
    }
  }

  /** Called at the root with the full window (-inf, +inf), a completed alpha-beta search
      returns the depth-limited minimax value. */
  lemma AlphaBetaFullWindowIsMinimaxValue<Pos>(a: Agent<Pos>, game: Board<Pos>, depth: int,
                                              maximizing: bool, timeLeft: int)
    requires AlphaBeta(a, game, depth, NegInf, PosInf, maximizing, timeLeft).Done?
    ensures AlphaBeta(a, game, depth, NegInf, PosInf, maximizing, timeLeft).score
         == MinimaxValue(a, game, depth, maximizing)
  {
    AlphaBetaFailSoft(a, game, depth, NegInf, PosInf, maximizing, timeLeft);
  }

  /** When both complete on the same board and depth, `alphabeta` with the full window and
      `minimax` return the same score. */
  lemma AlphaBetaAgreesWithMinimax<Pos>(a: Agent<Pos>, game: Board<Pos>, depth: int,
                                       maximizing: bool, timeLeft: int, timeLeft': int)
    requires AlphaBeta(a, game, depth, NegInf, PosInf, maximizing, timeLeft).Done?
    requires Minimax(a, game, depth, maximizing, timeLeft').Done?
    ensures AlphaBeta(a, game, depth, NegInf, PosInf, maximizing, timeLeft).score
         == Minimax(a, game, depth, maximizing, timeLeft').score
  {
    AlphaBetaFullWindowIsMinimaxValue(a, game, depth, maximizing, timeLeft);
    MinimaxScore(a, game, depth, maximizing, timeLeft');
  }

  // ---------------------------------------------------------------------------------
  // Time: alpha-beta never needs more budget than minimax.

  /** A budget that covers every call of the full tree lets alpha-beta finish, whatever
      the window, with at least the budget minimax would leave. */
  lemma {:induction false} AlphaBetaWithinBudget<Pos>(a: Agent<Pos>, game: Board<Pos>, depth: int,
                                                     alpha: Score, beta: Score, maximizing: bool,
                                                     timeLeft: int)
    requires timeLeft - Nodes(game, depth) >= a.timerThreshold - 1
    decreases depth, 1, 0
    ensures AlphaBeta(a, game, depth, alpha, beta, maximizing, timeLeft).Done?
    ensures AlphaBeta(a, game, depth, alpha, beta, maximizing, timeLeft).timeLeft
         >= timeLeft - Nodes(game, depth)
  {
    if depth > 0 && game.GetLegalMoves() != [] {
      var moves := game.GetLegalMoves();
      if maximizing {
        MaxLayerWithinBudget(a, game, moves, depth, NegInf, NoMove, alpha, beta, timeLeft - 1);
      } else {
        MinLayerWithinBudget(a, game, moves, depth, PosInf, NoMove, alpha, beta, timeLeft - 1);
      }
    }
  }

  lemma {:induction false} MaxLayerWithinBudget<Pos>(a: Agent<Pos>, game: Board<Pos>, moves: seq<Move>,
                                                    depth: int, value: Score, best: Move, alpha: Score,
                                                    beta: Score, timeLeft: int)
    requires depth >= 1
    requires moves == [] || timeLeft - SubtreeNodes(game, moves, depth) >= a.timerThreshold - 1
    decreases depth, 0, |moves|
    ensures MaxLayer(a, game, moves, depth, value, best, alpha, beta, timeLeft).Done?
    ensures MaxLayer(a, game, moves, depth, value, best, alpha, beta, timeLeft).timeLeft
         >= timeLeft - SubtreeNodes(game, moves, depth)
  {
    if moves != [] {
      var m := moves[0];
      AlphaBetaWithinBudget(a, game.ForecastMove(m), depth - 1, alpha, beta, false, timeLeft);
      var child := AlphaBeta(a, game.ForecastMove(m), depth - 1, alpha, beta, false, timeLeft);
      var value' := if Lt(value, child.score) then child.score else value;
      var best' := if Lt(value, child.score) then m else best;
      if !Le(beta, value') {
        MaxLayerWithinBudget(a, game, moves[1..], depth, value', best', Max(alpha, value'), beta,
                             child.timeLeft);
      }
    }
  }

  lemma {:induction false} MinLayerWithinBudget<Pos>(a: Agent<Pos>, game: Board<Pos>, moves: seq<Move>,
                                                    depth: int, value: Score, last: Move, alpha: Score,
                                                    beta: Score, timeLeft: int)
    requires depth >= 1
    requires moves == [] || timeLeft - SubtreeNodes(game, moves, depth) >= a.timerThreshold - 1
    decreases depth, 0, |moves|
    ensures MinLayer(a, game, moves, depth, value, last, alpha, beta, timeLeft).Done?
    ensures MinLayer(a, game, moves, depth, value, last, alpha, beta, timeLeft).timeLeft
         >= timeLeft - SubtreeNodes(game, moves, depth)
  {
    if moves != [] {
      var m := moves[0];
      AlphaBetaWithinBudget(a, game.ForecastMove(m), depth - 1, alpha, beta, true, timeLeft);
      var child := AlphaBeta(a, game.ForecastMove(m), depth - 1, alpha, beta, true, timeLeft);
      var value' := if Lt(child.score, value) then child.score else value;
      if !Le(value', alpha) {
        MinLayerWithinBudget(a, game, moves[1..], depth, value', m, alpha, Min(beta, value'),
                             child.timeLeft);
      }
    }
  }

  /** Whenever `minimax` completes, `alphabeta` on the same board, depth and budget
      completes too, whatever its window, and leaves at least as much time. */
  lemma AlphaBetaNoSlowerThanMinimax<Pos>(a: Agent<Pos>, game: Board<Pos>, depth: int,
                                         alpha: Score, beta: Score, maximizing: bool, timeLeft: int)
    requires Minimax(a, game, depth, maximizing, timeLeft).Done?
    ensures AlphaBeta(a, game, depth, alpha, beta, maximizing, timeLeft).Done?
    ensures AlphaBeta(a, game, depth, alpha, beta, maximizing, timeLeft).timeLeft
         >= Minimax(a, game, depth, maximizing, timeLeft).timeLeft
  {
    MinimaxTime(a, game, depth, maximizing, timeLeft);
    AlphaBetaWithinBudget(a, game, depth, alpha, beta, maximizing, timeLeft);
  }
  // ---------------------------------------------------------------------------------
  // Moves.

  /** The maximizing loop returns a move it tried or the incumbent `best`; a result
      above -inf reached from `value = -inf` carries a move it tried; and from the
      initial state (-inf, (-1, -1)) with `beta` above -inf, a result of -inf keeps the
      sentinel move. */
  lemma {:induction false} MaxLayerMove<Pos>(a: Agent<Pos>, game: Board<Pos>, moves: seq<Move>,
                                            depth: int, value: Score, best: Move, alpha: Score,
                                            beta: Score, timeLeft: int)
    requires depth >= 1
    requires MaxLayer(a, game, moves, depth, value, best, alpha, beta, timeLeft).Done?
    decreases |moves|
    ensures var r := MaxLayer(a, game, moves, depth, value, best, alpha, beta, timeLeft);
      && Le(value, r.score)
      && (r.move in moves || r.move == best)
      && (value == NegInf && r.score != NegInf ==> r.move in moves)
      && (value == NegInf && best == NoMove && beta != NegInf && r.score == NegInf ==> r.move == NoMove)
  {
    if moves != [] {
      var m := moves[0];
      var child := AlphaBeta(a, game.ForecastMove(m), depth - 1, alpha, beta, false, timeLeft);
      var value' := if Lt(value, child.score) then child.score else value;
      var best' := if Lt(value, child.score) then m else best;
      if !Le(beta, value') {
        MaxLayerMove(a, game, moves[1..], depth, value', best', Max(alpha, value'), beta, child.timeLeft);
        LeTrans(value, value', MaxLayer(a, game, moves, depth, value, best, alpha, beta, timeLeft).score);
      }
    }
  }

  /** The minimizing loop returns a move it tried (the `last` it was given when there is
      none left), and when its value stays above `alpha` that move is the last one. */
  lemma {:induction false} MinLayerMove<Pos>(a: Agent<Pos>, game: Board<Pos>, moves: seq<Move>,
                                            depth: int, value: Score, last: Move, alpha: Score,
                                            beta: Score, timeLeft: int)
    requires depth >= 1
    requires MinLayer(a, game, moves, depth, value, last, alpha, beta, timeLeft).Done?
    decreases |moves|
    ensures var r := MinLayer(a, game, moves, depth, value, last, alpha, beta, timeLeft);
      && (moves == [] ==> r.move == last)
      && (moves != [] ==> r.move in moves)
      && (moves != [] && Lt(alpha, r.score) ==> r.move == moves[|moves| - 1])
  {
    if moves != [] {
      var m := moves[0];
      var child := AlphaBeta(a, game.ForecastMove(m), depth - 1, alpha, beta, true, timeLeft);
      var value' := if Lt(child.score, value) then child.score else value;
      if !Le(value', alpha) {
        MinLayerMove(a, game, moves[1..], depth, value', m, alpha, Min(beta, value'), child.timeLeft);
        if moves[1..] != [] {
          assert moves[1..][|moves[1..]| - 1] == moves[|moves| - 1];
        }
      }
    }
  }

  /** A cutoff of the maximizing loop (`value >= beta`, inside a window with
      `value <= alpha < beta`) returns the move just tried together with the score its
      own search returned, so that successor's minimax value is at least the score. */
  lemma {:induction false} MaxLayerCutoff<Pos>(a: Agent<Pos>, game: Board<Pos>, moves: seq<Move>,
                                              depth: int, value: Score, best: Move, alpha: Score,
                                              beta: Score, timeLeft: int)
    requires depth >= 1
    requires Le(value, alpha) && Lt(alpha, beta)
    requires MaxLayer(a, game, moves, depth, value, best, alpha, beta, timeLeft).Done?
    decreases |moves|
    ensures var r := MaxLayer(a, game, moves, depth, value, best, alpha, beta, timeLeft);
      Le(beta, r.score) ==>
        exists i | 0 <= i < |moves| ::
          && moves[i] == r.move
          && Le(r.score, ChildValue(a, game, moves, i, depth, false))
          && exists lo: Score, t: int | Le(alpha, lo) && Lt(lo, beta) ::
               ChildReturns(a, game, moves[i], depth, lo, beta, false, t, r.score)
  {
    var r := MaxLayer(a, game, moves, depth, value, best, alpha, beta, timeLeft);
    if moves != [] && Le(beta, r.score) {
      var m := moves[0];
      var child := AlphaBeta(a, game.ForecastMove(m), depth - 1, alpha, beta, false, timeLeft);
      var value' := if Lt(value, child.score) then child.score else value;
      var best' := if Lt(value, child.score) then m else best;
      if Le(beta, value') {
        AlphaBetaFailSoft(a, game.ForecastMove(m), depth - 1, alpha, beta, false, timeLeft);
        if !Lt(value, child.score) {
          LeTrans(beta, value, alpha);
        }
        assert ChildReturns(a, game, moves[0], depth, alpha, beta, false, timeLeft, r.score);
        assert Le(r.score, ChildValue(a, game, moves, 0, depth, false));
      } else {
        var alpha' := Max(alpha, value');
        MaxLayerCutoff(a, game, moves[1..], depth, value', best', alpha', beta, child.timeLeft);
        var i :| 0 <= i < |moves[1..]| && moves[1..][i] == r.move
          && Le(r.score, ChildValue(a, game, moves[1..], i, depth, false))
          && exists lo: Score, t: int | Le(alpha', lo) && Lt(lo, beta) ::
               ChildReturns(a, game, moves[1..][i], depth, lo, beta, false, t, r.score);
        var lo: Score, t: int :| Le(alpha', lo) && Lt(lo, beta)
          && ChildReturns(a, game, moves[1..][i], depth, lo, beta, false, t, r.score);
        assert moves[1..][i] == moves[i + 1];
        LeTrans(alpha, alpha', lo);
      }
    }
  }

  /** The mirror image of `MaxLayerCutoff`: a cutoff of the minimizing loop
      (`value <= alpha`, inside a window with `alpha < beta <= value`) returns the move
      just tried together with the score its own search returned, so that successor's
      minimax value is at most the score. */
  lemma {:induction false} MinLayerCutoff<Pos>(a: Agent<Pos>, game: Board<Pos>, moves: seq<Move>,
                                              depth: int, value: Score, last: Move, alpha: Score,
                                              beta: Score, timeLeft: int)
    requires depth >= 1
    requires Le(beta, value) && Lt(alpha, beta)
    requires MinLayer(a, game, moves, depth, value, last, alpha, beta, timeLeft).Done?
    decreases |moves|
    ensures var r := MinLayer(a, game, moves, depth, value, last, alpha, beta, timeLeft);
      Le(r.score, alpha) ==>
        exists i | 0 <= i < |moves| ::
          && moves[i] == r.move
          && Le(ChildValue(a, game, moves, i, depth, true), r.score)
          && exists hi: Score, t: int | Lt(alpha, hi) && Le(hi, beta) ::
               ChildReturns(a, game, moves[i], depth, alpha, hi, true, t, r.score)
  {
    var r := MinLayer(a, game, moves, depth, value, last, alpha, beta, timeLeft);
    if moves != [] && Le(r.score, alpha) {
      var m := moves[0];
      var child := AlphaBeta(a, game.ForecastMove(m), depth - 1, alpha, beta, true, timeLeft);
      var value' := if Lt(child.score, value) then child.score else value;
      if Le(value', alpha) {
        AlphaBetaFailSoft(a, game.ForecastMove(m), depth - 1, alpha, beta, true, timeLeft);
        if !Lt(child.score, value) {
          LeTrans(beta, value, alpha);
        }
        assert ChildReturns(a, game, moves[0], depth, alpha, beta, true, timeLeft, r.score);
        assert Le(ChildValue(a, game, moves, 0, depth, true), r.score);
      } else {
        var beta' := Min(beta, value');
        MinLayerCutoff(a, game, moves[1..], depth, value', m, alpha, beta', child.timeLeft);
        var i :| 0 <= i < |moves[1..]| && moves[1..][i] == r.move
          && Le(ChildValue(a, game, moves[1..], i, depth, true), r.score)
          && exists hi: Score, t: int | Lt(alpha, hi) && Le(hi, beta') ::
               ChildReturns(a, game, moves[1..][i], depth, alpha, hi, true, t, r.score);
        var hi: Score, t: int :| Lt(alpha, hi) && Le(hi, beta')
          && ChildReturns(a, game, moves[1..][i], depth, alpha, hi, true, t, r.score);
        assert moves[1..][i] == moves[i + 1];
        LeTrans(hi, beta', beta);
      }
    }
  }

  /** The maximizing loop searched with `alpha = value` and `beta = +inf`, as at the root
      of `get_move`'s search. Either no successor is worth more than `value` and the
      incumbent `(value, best)` comes back, or the returned score is above `value` and the
      returned move is the first move tried whose successor has exactly that score as its
      minimax value: every earlier one is worth less. Every child that raises `value`
      lands inside its window, where alpha-beta is exact, and a later child of equal value
      does not replace it (`this_value > value` is strict). */
  lemma {:induction false} MaxLayerFullWindow<Pos>(a: Agent<Pos>, game: Board<Pos>, moves: seq<Move>,
                                                  depth: int, value: Score, best: Move, timeLeft: int)
    requires depth >= 1 && value != PosInf
    requires MaxLayer(a, game, moves, depth, value, best, value, PosInf, timeLeft).Done?
    decreases |moves|
    ensures var r := MaxLayer(a, game, moves, depth, value, best, value, PosInf, timeLeft);
      || (&& r.score == value && r.move == best
          && forall j | 0 <= j < |moves| :: Le(ChildValue(a, game, moves, j, depth, false), value))
      || (&& Lt(value, r.score)
          && exists i | 0 <= i < |moves| ::
               && moves[i] == r.move && ChildValue(a, game, moves, i, depth, false) == r.score
               && forall j | 0 <= j < i :: Lt(ChildValue(a, game, moves, j, depth, false), r.score))
  {
    if moves != [] {
      var r := MaxLayer(a, game, moves, depth, value, best, value, PosInf, timeLeft);
      var m := moves[0];
      var child := AlphaBeta(a, game.ForecastMove(m), depth - 1, value, PosInf, false, timeLeft);
      AlphaBetaFailSoft(a, game.ForecastMove(m), depth - 1, value, PosInf, false, timeLeft);
      var v0 := ChildValue(a, game, moves, 0, depth, false);
      forall j | 1 <= j < |moves|
        ensures ChildValue(a, game, moves[1..], j - 1, depth, false) == ChildValue(a, game, moves, j, depth, false)
      {
        assert moves[1..][j - 1] == moves[j];
      }
      if Lt(value, child.score) {
        assert v0 == child.score;
        if child.score != PosInf {
          MaxLayerFullWindow(a, game, moves[1..], depth, child.score, m, child.timeLeft);
          if r.score != child.score || r.move != m {
            var i :| 0 <= i < |moves[1..]| && moves[1..][i] == r.move
              && ChildValue(a, game, moves[1..], i, depth, false) == r.score
              && forall j | 0 <= j < i :: Lt(ChildValue(a, game, moves[1..], j, depth, false), r.score);
            assert moves[1..][i] == moves[i + 1];
            LeTrans(value, child.score, r.score);
            forall j | 0 <= j < i + 1
              ensures Lt(ChildValue(a, game, moves, j, depth, false), r.score)
            {
              if j > 0 {
                assert ChildValue(a, game, moves[1..], j - 1, depth, false) == ChildValue(a, game, moves, j, depth, false);
              }
            }
          }
        }
      } else {
        LeTotal(value, child.score);
        LeTrans(v0, child.score, value);
        MaxLayerFullWindow(a, game, moves[1..], depth, value, best, child.timeLeft);
        if r.score != value || r.move != best {
          var i :| 0 <= i < |moves[1..]| && moves[1..][i] == r.move
            && ChildValue(a, game, moves[1..], i, depth, false) == r.score
            && forall j | 0 <= j < i :: Lt(ChildValue(a, game, moves[1..], j, depth, false), r.score);
          assert moves[1..][i] == moves[i + 1];
          if Le(r.score, v0) {
            LeTrans(r.score, v0, value);
          }
          forall j | 0 <= j < i + 1
            ensures Lt(ChildValue(a, game, moves, j, depth, false), r.score)
          {
            if j > 0 {
              assert ChildValue(a, game, moves[1..], j - 1, depth, false) == ChildValue(a, game, moves, j, depth, false);
            }
          }
        }
      }
    }
  }

  /** The move `alphabeta` returns where the player to move has moves. On a maximizing
      layer whose `beta` is above -inf it is the sentinel (-1, -1) exactly when the score
      is -inf, and one of the legal moves otherwise. On a minimizing layer it is always a
      legal move, and, unless the loop was cut off at `alpha`, the last one in generation
      order rather than the one that gave the least value. A cutoff returns a move whose
      successor's minimax value is on the cut side of the score. Searched with the full
      window, a maximizing node scoring above -inf returns a best move: the first legal
      move, in generation order, whose successor has the node's minimax value. */
  lemma AlphaBetaMove<Pos>(a: Agent<Pos>, game: Board<Pos>, depth: int, alpha: Score, beta: Score,
                          maximizing: bool, timeLeft: int)
    requires depth >= 1 && game.GetLegalMoves() != []
    requires AlphaBeta(a, game, depth, alpha, beta, maximizing, timeLeft).Done?
    ensures var r := AlphaBeta(a, game, depth, alpha, beta, maximizing, timeLeft);
      var moves := game.GetLegalMoves();
      maximizing && beta != NegInf ==>
        && (r.score == NegInf ==> r.move == NoMove)
        && (r.score != NegInf ==> r.move in moves)
    ensures var r := AlphaBeta(a, game, depth, alpha, beta, maximizing, timeLeft);
      var moves := game.GetLegalMoves();
      !maximizing ==>
        && r.move in moves
        && (Lt(alpha, r.score) ==> r.move == moves[|moves| - 1])
    ensures var r := AlphaBeta(a, game, depth, alpha, beta, maximizing, timeLeft);
      var moves := game.GetLegalMoves();
      maximizing && Lt(alpha, beta) && Le(beta, r.score) ==>
        exists i | 0 <= i < |moves| ::
          moves[i] == r.move && Le(r.score, ChildValue(a, game, moves, i, depth, false))
    ensures var r := AlphaBeta(a, game, depth, alpha, beta, maximizing, timeLeft);
      var moves := game.GetLegalMoves();
      !maximizing && Lt(alpha, beta) && Le(r.score, alpha) ==>
        exists i | 0 <= i < |moves| ::
          moves[i] == r.move && Le(ChildValue(a, game, moves, i, depth, true), r.score)
    ensures var r := AlphaBeta(a, game, depth, alpha, beta, maximizing, timeLeft);
      var moves := game.GetLegalMoves();
      maximizing && alpha == NegInf && beta == PosInf && r.score != NegInf ==>
        && r.score == MinimaxValue(a, game, depth, true)
        && exists i | 0 <= i < |moves| ::
             && moves[i] == r.move && ChildValue(a, game, moves, i, depth, false) == r.score
             && forall j | 0 <= j < i :: Lt(ChildValue(a, game, moves, j, depth, false), r.score)
  {
    var moves := game.GetLegalMoves();
    if maximizing {
      MaxLayerMove(a, game, moves, depth, NegInf, NoMove, alpha, beta, timeLeft - 1);
      if Lt(alpha, beta) {
        MaxLayerCutoff(a, game, moves, depth, NegInf, NoMove, alpha, beta, timeLeft - 1);
      }
      if alpha == NegInf && beta == PosInf {
        MaxLayerFullWindow(a, game, moves, depth, NegInf, NoMove, timeLeft - 1);
        AlphaBetaFullWindowIsMinimaxValue(a, game, depth, true, timeLeft);
      }
    } else {
      MinLayerMove(a, game, moves, depth, PosInf, NoMove, alpha, beta, timeLeft - 1);
      if Lt(alpha, beta) {
        MinLayerCutoff(a, game, moves, depth, PosInf, NoMove, alpha, beta, timeLeft - 1);
      }
    }
  }

  // ---------------------------------------------------------------------------------
  // The intended maximizing layer: start `best_move_so_far` at the first legal move.

  /** The maximizing loop's score, time and completion do not depend on the incumbent
      move it starts from. */
  lemma {:induction false} MaxLayerIgnoresBest<Pos>(a: Agent<Pos>, game: Board<Pos>, moves: seq<Move>,
                                                   depth: int, value: Score, best1: Move, best2: Move,
                                                   alpha: Score, beta: Score, timeLeft: int)
    requires depth >= 1
    decreases |moves|
    ensures var r1 := MaxLayer(a, game, moves, depth, value, best1, alpha, beta, timeLeft);
      var r2 := MaxLayer(a, game, moves, depth, value, best2, alpha, beta, timeLeft);
      && r1.Done? == r2.Done?
      && (r1.Done? ==> r1.score == r2.score && r1.timeLeft == r2.timeLeft)
  {
    if moves != [] {
      var m := moves[0];
      var child := AlphaBeta(a, game.ForecastMove(m), depth - 1, alpha, beta, false, timeLeft);
      if child.Done? {
        var value' := if Lt(value, child.score) then child.score else value;
        var best1' := if Lt(value, child.score) then m else best1;
        var best2' := if Lt(value, child.score) then m else best2;
        MaxLayerIgnoresBest(a, game, moves[1..], depth, value', best1', best2', Max(alpha, value'),
                            beta, child.timeLeft);
      }
    }
  }

  /** `alphabeta` with the maximizing layer's `best_move_so_far` starting at the first legal
      move instead of (-1, -1). It completes exactly when `alphabeta` does, with the same
      score and time left, and where the player to move has moves it returns one of them,
      as the method's documentation promises ("(-1, -1) for no legal moves"). */
  function AlphaBetaIntended<Pos>(a: Agent<Pos>, game: Board<Pos>, depth: int, alpha: Score,
                                  beta: Score, maximizing: bool, timeLeft: int): (r: Result)
    ensures r.Done? == AlphaBeta(a, game, depth, alpha, beta, maximizing, timeLeft).Done?
    ensures r.Done? ==>
      && r.score == AlphaBeta(a, game, depth, alpha, beta, maximizing, timeLeft).score
      && r.timeLeft == AlphaBeta(a, game, depth, alpha, beta, maximizing, timeLeft).timeLeft
    ensures r.Done? && depth >= 1 && game.GetLegalMoves() != [] ==> r.move in game.GetLegalMoves()
  {
    var legalMoves := game.GetLegalMoves();
    if timeLeft < a.timerThreshold || depth <= 0 || legalMoves == [] then
      AlphaBeta(a, game, depth, alpha, beta, maximizing, timeLeft)
    else if maximizing then
      var r := MaxLayer(a, game, legalMoves, depth, NegInf, legalMoves[0], alpha, beta, timeLeft - 1);
      MaxLayerIgnoresBest(a, game, legalMoves, depth, NegInf, legalMoves[0], NoMove, alpha, beta,
                          timeLeft - 1);
      if r.Done? then
        MaxLayerMove(a, game, legalMoves, depth, NegInf, legalMoves[0], alpha, beta, timeLeft - 1);
        r
      else r
    else
      var r := AlphaBeta(a, game, depth, alpha, beta, maximizing, timeLeft);
      if r.Done? then
        AlphaBetaMove(a, game, depth, alpha, beta, maximizing, timeLeft);
        r
      else r
  }
}
