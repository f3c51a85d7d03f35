/** Evaluation scores. The evaluators return Python floats; `custom_score` and the two
    heuristics produce only -inf, +inf and integers (a float of an integer expression),
    so a score is an integer extended with the two infinities. The weighted evaluation
    function is modelled with an integer distance term, so it yields such scores too. */
module Scores {

  datatype Score = NegInf | Fin(n: int) | PosInf

  /** Python's `a <= b` on such floats: -inf is below and +inf above every score, and
      finite scores compare as their integers. */
  predicate Le(a: Score, b: Score)
    ensures a == NegInf || b == PosInf ==> Le(a, b)
    ensures a == PosInf && Le(a, b) ==> b == PosInf
    ensures b == NegInf && Le(a, b) ==> a == NegInf
    ensures a.Fin? && b.Fin? ==> (Le(a, b) <==> a.n <= b.n)
  {
    match (a, b)
    case (NegInf, _) => true
    case (_, PosInf) => true
    case (Fin(x), Fin(y)) => x <= y
    case _ => false
  }

  /** Python's `a < b`: the order is total, so this is `not b <= a`. */
  predicate Lt(a: Score, b: Score)
    ensures Lt(a, b) <==> Le(a, b) && a != b
  {
    !Le(b, a)
  }

  /** Python's `max(a, b)`: `a` unless `b > a`. */
  function Max(a: Score, b: Score): (r: Score)
    ensures Le(a, r) && Le(b, r)
    ensures r == a || r == b
  {
    if Lt(a, b) then b else a
  }

  /** Python's `min(a, b)`: `a` unless `b < a`. */
  function Min(a: Score, b: Score): (r: Score)
    ensures Le(r, a) && Le(r, b)
    ensures r == a || r == b
  {
    if Lt(b, a) then b else a
  }

  /** The order is total and antisymmetric. */
  lemma LeTotal(a: Score, b: Score)
    ensures Le(a, b) || Le(b, a)
    ensures Le(a, b) && Le(b, a) ==> a == b
  {
  }

  lemma LeTrans(a: Score, b: Score, c: Score)
    requires Le(a, b) && Le(b, c)
    ensures Le(a, c)
  {
  }
}
