/** `CustomPlayer.minimax` as a function of the board, the depth, the layer and the time
    left, together with a clock-free reference value and a count of the calls it makes.

    The time probe `self.time_left()` is modelled as a budget: each call reads the budget
    on entry, raises `Timeout` (here: returns `Timeout`) when it is below
    `TIMER_THRESHOLD`, and otherwise spends one unit. The budget left over is returned
    with the result, so the caller can hand it to the next call. */
module MinimaxSearch {
  import opened Scores
  import opened Isolation

  /** What `CustomPlayer.__init__` fixes: the search depth of fixed-depth mode, the
      evaluator `self.score`, the `iterative` flag, the `method` name and
      `TIMER_THRESHOLD`; `seat` is the player the board knows this agent as (`self`). */
  datatype Agent<!Pos> = Agent(
    searchDepth: int,
    score: (Board<Pos>, Player) -> Score,
    iterative: bool,
    searchMethod: string,
    timerThreshold: int,
    seat: Player)

  /** The outcome of a search call: `Timeout` for the raised exception, otherwise the
      `(score, move)` pair and the budget left afterwards. */
  datatype Result = Timeout | Done(score: Score, move: Move, timeLeft: int)

  /** Python's `<` on `(score, move)` tuples: by score, then by move. */
  predicate PairLt(x: (Score, Move), y: (Score, Move))
    ensures PairLt(x, y) ==> x != y
    ensures x.0 != y.0 ==> (PairLt(x, y) <==> Lt(x.0, y.0))
    ensures x.0 == y.0 ==> (PairLt(x, y) <==> MoveLt(x.1, y.1))
  {
    Lt(x.0, y.0) || (x.0 == y.0 && MoveLt(x.1, y.1))
  }

  /** Of two different tuples exactly one is the smaller. */
  lemma PairLtStrictTotal(x: (Score, Move), y: (Score, Move))
    ensures PairLt(x, y) ==> !PairLt(y, x)
    ensures x != y ==> PairLt(x, y) || PairLt(y, x)
  {
    LeTotal(x.0, y.0);
    MoveLtStrictTotal(x.1, y.1);
  }

  lemma PairLtTrans(x: (Score, Move), y: (Score, Move), z: (Score, Move))
    requires PairLt(x, y) && PairLt(y, z)
    ensures PairLt(x, z)
  {
  }

  /** Python's `max(results)`: scan left to right, replacing the incumbent only by a
      strictly greater tuple. No tuple of the list is greater than the answer. */
  function GreatestPair(rs: seq<(Score, Move)>): (r: (Score, Move))
    requires rs != []
    ensures r in rs
    ensures forall x | x in rs :: !PairLt(r, x)
  {
    if |rs| == 1 then rs[0]
    else
      var incumbent := GreatestPair(rs[..|rs| - 1]);
      var last := rs[|rs| - 1];
      assert rs == rs[..|rs| - 1] + [last];
      if PairLt(incumbent, last) then
        assert forall x | x in rs[..|rs| - 1] :: !PairLt(last, x) by {
          forall x | x in rs[..|rs| - 1] ensures !PairLt(last, x) {
            if PairLt(last, x) { PairLtTrans(incumbent, last, x); }
          }
        }
        last
      else incumbent
  }

  /** Python's `min(results)`: scan left to right, replacing the incumbent only by a
      strictly smaller tuple. No tuple of the list is smaller than the answer. */
  function LeastPair(rs: seq<(Score, Move)>): (r: (Score, Move))
    requires rs != []
    ensures r in rs
    ensures forall x | x in rs :: !PairLt(x, r)
  {
    if |rs| == 1 then rs[0]
    else
      var incumbent := LeastPair(rs[..|rs| - 1]);
      var last := rs[|rs| - 1];
      assert rs == rs[..|rs| - 1] + [last];
      if PairLt(last, incumbent) then
        assert forall x | x in rs[..|rs| - 1] :: !PairLt(x, last) by {
          forall x | x in rs[..|rs| - 1] ensures !PairLt(x, last) {
            if PairLt(x, last) { PairLtTrans(x, last, incumbent); }
          }
        }
        last
      else incumbent
  }

  /** The `(score, move)` pairs collected so far, or the news that a child timed out. */
  datatype Scan = Stopped | Scanned(results: seq<(Score, Move)>, timeLeft: int)

  /** `minimax(game, depth, maximizing_player)`. */
  function Minimax<Pos>(a: Agent<Pos>, game: Board<Pos>, depth: int, maximizing: bool,
                        timeLeft: int): (r: Result)
    decreases depth, 1, 0
    ensures timeLeft < a.timerThreshold ==> r == Timeout
    ensures timeLeft >= a.timerThreshold && (depth <= 0 || game.GetLegalMoves() == []) ==>
      r == Done(a.score(game, a.seat), NoMove, timeLeft - 1)
    ensures r.Done? ==> r.timeLeft < timeLeft
  {
    if timeLeft < a.timerThreshold then Timeout
    else if depth <= 0 then Done(a.score(game, a.seat), NoMove, timeLeft - 1)
    else
      var legalMoves := game.GetLegalMoves();
      if legalMoves == [] then Done(a.score(game, a.seat), NoMove, timeLeft - 1)
      else
        match MinimaxChildren(a, game, legalMoves, depth, !maximizing, timeLeft - 1)
        case Stopped => Timeout
        case Scanned(results, left) =>
          var best := if maximizing then GreatestPair(results) else LeastPair(results);
          Done(best.0, best.1, left)
  }

  /** The loop of `minimax` over `moves`: search each successor one level shallower, in
      order, and collect `(score, move)`; the first child that times out stops it. */
  function MinimaxChildren<Pos>(a: Agent<Pos>, game: Board<Pos>, moves: seq<Move>, depth: int,
                                childMaximizing: bool, timeLeft: int): (s: Scan)
    requires depth >= 1
    decreases depth, 0, |moves|
    ensures s.Scanned? ==> |s.results| == |moves| && s.timeLeft <= timeLeft
  {
    if moves == [] then Scanned([], timeLeft)
    else
      match Minimax(a, game.ForecastMove(moves[0]), depth - 1, childMaximizing, timeLeft)
      case Timeout => Stopped
      case Done(score, _, left) =>
        match MinimaxChildren(a, game, moves[1..], depth, childMaximizing, left)
        case Stopped => Stopped
        case Scanned(rest, left') => Scanned([(score, moves[0])] + rest, left')
  }

  /** `done` followed by what a scan collects. */
  function Prepend(done: seq<(Score, Move)>, s: Scan): Scan
  {
    match s
    case Stopped => Stopped
    case Scanned(rs, left) => Scanned(done + rs, left)
  }

  /** Collecting `done` and then `x` in front of a scan is collecting `done + [x]`. */
  lemma PrependTwice(done: seq<(Score, Move)>, x: (Score, Move), s: Scan)
    ensures Prepend(done, Prepend([x], s)) == Prepend(done + [x], s)
  {
    if s.Scanned? {
      assert done + ([x] + s.results) == (done + [x]) + s.results;
    }
  }

  /** One step of the loop of `minimax` with `done` collected and `moves[i..]` still to
      search: a successor that times out stops the loop, and a completed one moves its
      `(score, move)` to the collected pairs and hands its leftover budget on. */
  lemma ChildrenStep<Pos>(a: Agent<Pos>, game: Board<Pos>, moves: seq<Move>, i: nat, depth: int,
                          childMaximizing: bool, done: seq<(Score, Move)>, timeLeft: int, child: Result)
    requires depth >= 1 && i < |moves|
    requires child == Minimax(a, game.ForecastMove(moves[i]), depth - 1, childMaximizing, timeLeft)
    ensures child.Timeout? ==>
      Prepend(done, MinimaxChildren(a, game, moves[i..], depth, childMaximizing, timeLeft)) == Stopped
    ensures child.Done? ==>
      Prepend(done, MinimaxChildren(a, game, moves[i..], depth, childMaximizing, timeLeft))
        == Prepend(done + [(child.score, moves[i])],
                   MinimaxChildren(a, game, moves[i + 1..], depth, childMaximizing, child.timeLeft))
  {
    assert moves[i..][0] == moves[i] && moves[i..][1..] == moves[i + 1..];
    if child.Done? {
      PrependTwice(done, (child.score, moves[i]),
                   MinimaxChildren(a, game, moves[i + 1..], depth, childMaximizing, child.timeLeft));
    }
  }

  /** The depth-limited minimax value from `a.seat`'s point of view, with no clock:
      the evaluator at depth 0 and where the player to move is stuck, otherwise the
      greatest (maximizing layer) or least (minimizing layer) value of the successors. */
  function MinimaxValue<Pos>(a: Agent<Pos>, game: Board<Pos>, depth: int, maximizing: bool): Score
    decreases depth, 1, 0
  {
    if depth <= 0 || game.GetLegalMoves() == [] then a.score(game, a.seat)
    else if maximizing then MaxOver(a, game, game.GetLegalMoves(), depth)
    else MinOver(a, game, game.GetLegalMoves(), depth)
  }

  /** The greatest minimizing-layer value among the successors by `moves`. */
  function MaxOver<Pos>(a: Agent<Pos>, game: Board<Pos>, moves: seq<Move>, depth: int): Score
    requires depth >= 1
    decreases depth, 0, |moves|
  {
    if moves == [] then NegInf
    else Max(MinimaxValue(a, game.ForecastMove(moves[0]), depth - 1, false),
             MaxOver(a, game, moves[1..], depth))
  }

  /** The least maximizing-layer value among the successors by `moves`. */
  function MinOver<Pos>(a: Agent<Pos>, game: Board<Pos>, moves: seq<Move>, depth: int): Score
    requires depth >= 1
    decreases depth, 0, |moves|
  {
    if moves == [] then PosInf
    else Min(MinimaxValue(a, game.ForecastMove(moves[0]), depth - 1, true),
             MinOver(a, game, moves[1..], depth))
  }

  /** The value of the successor by `moves[i]`, one level shallower. */
  function ChildValue<Pos>(a: Agent<Pos>, game: Board<Pos>, moves: seq<Move>, i: nat, depth: int,
                           childMaximizing: bool): Score
    requires i < |moves|
  {
    MinimaxValue(a, game.ForecastMove(moves[i]), depth - 1, childMaximizing)
  }

  /** How many calls a complete depth-limited search of `game` makes. */
  function Nodes<Pos>(game: Board<Pos>, depth: int): nat
    decreases depth, 1, 0
  {
    if depth <= 0 || game.GetLegalMoves() == [] then 1
    else 1 + SubtreeNodes(game, game.GetLegalMoves(), depth)
  }

  /** How many calls the complete searches of the successors by `moves` make. */
  function SubtreeNodes<Pos>(game: Board<Pos>, moves: seq<Move>, depth: int): nat
    requires depth >= 1
    decreases depth, 0, |moves|
  {
    if moves == [] then 0
    else Nodes(game.ForecastMove(moves[0]), depth - 1) + SubtreeNodes(game, moves[1..], depth)
  }

  // ---------------------------------------------------------------------------------
  // Time: minimax completes exactly when the budget covers every call of the tree.

  /** `minimax` finishes exactly when the budget left on entry, less one unit for each
      call in the tree, stays at or above `TIMER_THRESHOLD - 1`; it then hands back
      exactly that remainder. */
  lemma {:induction false} MinimaxTime<Pos>(a: Agent<Pos>, game: Board<Pos>, depth: int,
                                           maximizing: bool, timeLeft: int)
    decreases depth, 1, 0
    ensures Minimax(a, game, depth, maximizing, timeLeft).Done?
        <==> timeLeft - Nodes(game, depth) >= a.timerThreshold - 1
    ensures Minimax(a, game, depth, maximizing, timeLeft).Done? ==>
      Minimax(a, game, depth, maximizing, timeLeft).timeLeft == timeLeft - Nodes(game, depth)
  {
    if timeLeft >= a.timerThreshold && depth > 0 && game.GetLegalMoves() != [] {
      ChildrenTime(a, game, game.GetLegalMoves(), depth, !maximizing, timeLeft - 1);
    }
  }

  lemma {:induction false} ChildrenTime<Pos>(a: Agent<Pos>, game: Board<Pos>, moves: seq<Move>,
                                            depth: int, childMaximizing: bool, timeLeft: int)
    requires depth >= 1
    decreases depth, 0, |moves|
    ensures MinimaxChildren(a, game, moves, depth, childMaximizing, timeLeft).Scanned?
        <==> moves == [] || timeLeft - SubtreeNodes(game, moves, depth) >= a.timerThreshold - 1
    ensures MinimaxChildren(a, game, moves, depth, childMaximizing, timeLeft).Scanned? ==>
      MinimaxChildren(a, game, moves, depth, childMaximizing, timeLeft).timeLeft
        == timeLeft - SubtreeNodes(game, moves, depth)
  {
    if moves != [] {
      var child := game.ForecastMove(moves[0]);
      MinimaxTime(a, child, depth - 1, childMaximizing, timeLeft);
      match Minimax(a, child, depth - 1, childMaximizing, timeLeft)
      case Timeout =>
      case Done(_, _, left) =>
        ChildrenTime(a, game, moves[1..], depth, childMaximizing, left);
    }
  }

  // ---------------------------------------------------------------------------------
  // Scores: a completed minimax returns the reference value.

  /** The `i`-th collected pair is the reference value of the `i`-th successor together
      with the move that leads there. */
  lemma {:induction false} ChildrenScores<Pos>(a: Agent<Pos>, game: Board<Pos>, moves: seq<Move>,
                                              depth: int, childMaximizing: bool, timeLeft: int)
    requires depth >= 1
    requires MinimaxChildren(a, game, moves, depth, childMaximizing, timeLeft).Scanned?
    decreases depth, 0, |moves|
    ensures forall i | 0 <= i < |moves| ::
      MinimaxChildren(a, game, moves, depth, childMaximizing, timeLeft).results[i]
        == (ChildValue(a, game, moves, i, depth, childMaximizing), moves[i])
  {
    if moves != [] {
      var child := game.ForecastMove(moves[0]);
      MinimaxScore(a, child, depth - 1, childMaximizing, timeLeft);
      var left := Minimax(a, child, depth - 1, childMaximizing, timeLeft).timeLeft;
      ChildrenScores(a, game, moves[1..], depth, childMaximizing, left);
      forall i | 0 <= i < |moves|
        ensures MinimaxChildren(a, game, moves, depth, childMaximizing, timeLeft).results[i]
                == (ChildValue(a, game, moves, i, depth, childMaximizing), moves[i])
      {
        if i > 0 {
          assert moves[1..][i - 1] == moves[i];
        }
      }
    }
  }

  /** `MaxOver` is an upper bound of the successor values that one of them attains. */
  lemma {:induction false} MaxOverIsGreatest<Pos>(a: Agent<Pos>, game: Board<Pos>, moves: seq<Move>,
                                                 depth: int) returns (k: nat)
    requires depth >= 1 && moves != []
    decreases |moves|
    ensures k < |moves| && MaxOver(a, game, moves, depth) == ChildValue(a, game, moves, k, depth, false)
    ensures forall i | 0 <= i < |moves| ::
      Le(ChildValue(a, game, moves, i, depth, false), MaxOver(a, game, moves, depth))
  {
    var head := ChildValue(a, game, moves, 0, depth, false);
    if |moves| == 1 {
      k := 0;
    } else {
      var j := MaxOverIsGreatest(a, game, moves[1..], depth);
      forall i | 1 <= i < |moves|
        ensures ChildValue(a, game, moves[1..], i - 1, depth, false) == ChildValue(a, game, moves, i, depth, false)
      {
        assert moves[1..][i - 1] == moves[i];
      }
      k := if MaxOver(a, game, moves, depth) == head then 0 else j + 1;
      forall i | 0 <= i < |moves|
        ensures Le(ChildValue(a, game, moves, i, depth, false), MaxOver(a, game, moves, depth))
      {
        if i > 0 {
          LeTrans(ChildValue(a, game, moves, i, depth, false), MaxOver(a, game, moves[1..], depth),
                  MaxOver(a, game, moves, depth));
        }
      }
    }
  }

  /** `MinOver` is a lower bound of the successor values that one of them attains. */
  lemma {:induction false} MinOverIsLeast<Pos>(a: Agent<Pos>, game: Board<Pos>, moves: seq<Move>,
                                              depth: int) returns (k: nat)
    requires depth >= 1 && moves != []
    decreases |moves|
    ensures k < |moves| && MinOver(a, game, moves, depth) == ChildValue(a, game, moves, k, depth, true)
    ensures forall i | 0 <= i < |moves| ::
      Le(MinOver(a, game, moves, depth), ChildValue(a, game, moves, i, depth, true))
  {
    var head := ChildValue(a, game, moves, 0, depth, true);
    if |moves| == 1 {
      k := 0;
    } else {
      var j := MinOverIsLeast(a, game, moves[1..], depth);
      forall i | 1 <= i < |moves|
        ensures ChildValue(a, game, moves[1..], i - 1, depth, true) == ChildValue(a, game, moves, i, depth, true)
      {
        assert moves[1..][i - 1] == moves[i];
      }
      k := if MinOver(a, game, moves, depth) == head then 0 else j + 1;
      forall i | 0 <= i < |moves|
        ensures Le(MinOver(a, game, moves, depth), ChildValue(a, game, moves, i, depth, true))
      {
        if i > 0 {
          LeTrans(MinOver(a, game, moves, depth), MinOver(a, game, moves[1..], depth),
                  ChildValue(a, game, moves, i, depth, true));
        }
      }
    }
  }

  /** A completed `minimax` returns the depth-limited minimax value. */
  lemma {:induction false} MinimaxScore<Pos>(a: Agent<Pos>, game: Board<Pos>, depth: int,
                                            maximizing: bool, timeLeft: int)
    decreases depth, 1, 1
    ensures Minimax(a, game, depth, maximizing, timeLeft).Done? ==>
      Minimax(a, game, depth, maximizing, timeLeft).score == MinimaxValue(a, game, depth, maximizing)
  {
    if timeLeft >= a.timerThreshold && depth > 0 && game.GetLegalMoves() != [] {
      var moves := game.GetLegalMoves();
      var s := MinimaxChildren(a, game, moves, depth, !maximizing, timeLeft - 1);
      if s.Scanned? {
        ChildrenScores(a, game, moves, depth, !maximizing, timeLeft - 1);
        if maximizing {
          var r := GreatestPair(s.results);
          var k := MaxOverIsGreatest(a, game, moves, depth);
          var j :| 0 <= j < |moves| && s.results[j] == r;
          assert !PairLt(r, s.results[k]);
          LeTotal(r.0, MaxOver(a, game, moves, depth));
        } else {
          var r := LeastPair(s.results);
          var k := MinOverIsLeast(a, game, moves, depth);
          var j :| 0 <= j < |moves| && s.results[j] == r;
          assert !PairLt(s.results[k], r);
          LeTotal(r.0, MinOver(a, game, moves, depth));
        }
      }
    }
  }
  // ---------------------------------------------------------------------------------
  // Moves: Python's max/min over (score, move) tuples.

  /** At a layer that has moves, a completed `minimax` returns one of them with the
      layer's value, that move's successor has exactly that value, and no successor's `(value, move)` tuple is greater (maximizing
      layer) or smaller (minimizing layer) than the returned pair. Equal values are
      therefore decided by comparing the moves, not by the order of generation. */
  lemma MinimaxChoosesExtremePair<Pos>(a: Agent<Pos>, game: Board<Pos>, depth: int,
                                      maximizing: bool, timeLeft: int)
    requires depth >= 1 && game.GetLegalMoves() != []
    requires Minimax(a, game, depth, maximizing, timeLeft).Done?
    ensures Minimax(a, game, depth, maximizing, timeLeft).move in game.GetLegalMoves()
    ensures Minimax(a, game, depth, maximizing, timeLeft).score == MinimaxValue(a, game, depth, maximizing)
    ensures var r := Minimax(a, game, depth, maximizing, timeLeft);
      forall i | 0 <= i < |game.GetLegalMoves()| ::
        var child := (ChildValue(a, game, game.GetLegalMoves(), i, depth, !maximizing), game.GetLegalMoves()[i]);
        if maximizing then !PairLt((r.score, r.move), child) else !PairLt(child, (r.score, r.move))
    ensures var r := Minimax(a, game, depth, maximizing, timeLeft);
      exists i | 0 <= i < |game.GetLegalMoves()| ::
        game.GetLegalMoves()[i] == r.move && ChildValue(a, game, game.GetLegalMoves(), i, depth, !maximizing) == r.score
  {
    var moves := game.GetLegalMoves();
    var s := MinimaxChildren(a, game, moves, depth, !maximizing, timeLeft - 1);
    ChildrenScores(a, game, moves, depth, !maximizing, timeLeft - 1);
    MinimaxScore(a, game, depth, maximizing, timeLeft);
    var r := if maximizing then GreatestPair(s.results) else LeastPair(s.results);
    var j :| 0 <= j < |moves| && s.results[j] == r;
    forall i | 0 <= i < |moves|
      ensures s.results[i] == (ChildValue(a, game, moves, i, depth, !maximizing), moves[i])
    {
    }
    assert moves[j] == r.1 && ChildValue(a, game, moves, j, depth, !maximizing) == r.0;
  }

  /** Two successors of equal value: `max` keeps the one with the greater move, whichever
      order they were generated in, where a stable maximum would keep the first one met. */
  lemma TieGoesToGreaterMove(score: Score, m1: Move, m2: Move)
    requires MoveLt(m1, m2)
    ensures GreatestPair([(score, m1), (score, m2)]) == (score, m2)
    ensures GreatestPair([(score, m2), (score, m1)]) == (score, m2)
  {
    MoveLtStrictTotal(m1, m2);
  }
}
