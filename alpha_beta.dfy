/**
 * The window reasoning of alpha-beta search, on scores alone: what a
 * result for a window says about the true value, what a child search
 * promises its parent, and the invariants of the two search loops with the
 * step that keeps each.
 */
module AlphaBeta {
  import opened Scores

  /**
   * A search result `r` for the window from `alpha` to `beta` bounds the
   * true value `v`: at or below `alpha` it is an upper bound, at or above
   * `beta` a lower bound, and strictly inside the window it is exact.
   */
  predicate WindowBound(r: Score, v: Score, alpha: Score, beta: Score)
  {
    (Le(r, alpha) ==> Le(v, r)) && (Ge(r, beta) ==> Ge(v, r)) && (Lt(alpha, r) && Lt(r, beta) ==> r == v)
  }

  /** The same bound, stated on the standings of the four scores. */
  predicate StandingBound(r: Score, v: Score, alpha: Score, beta: Score)
  {
    (Standing(r) <= Standing(alpha) ==> Standing(v) <= Standing(r)) &&
    (Standing(r) >= Standing(beta) ==> Standing(v) >= Standing(r)) &&
    (Standing(alpha) < Standing(r) < Standing(beta) ==> Standing(r) == Standing(v))
  }

  /** On ordered scores the window bound is the bound on standings. */
  lemma WindowBoundStanding(r: Score, v: Score, alpha: Score, beta: Score)
    requires Ordered(r) && Ordered(v) && Ordered(alpha) && Ordered(beta)
    ensures WindowBound(r, v, alpha, beta) <==> StandingBound(r, v, alpha, beta)
  {
    Compare(r, alpha);
    Compare(v, r);
    Compare(r, beta);
    Compare(alpha, r);
    if Standing(r) == Standing(v) {
      StandingInjective(r, v);
    }
  }

  /** A bound that lies strictly inside the window is the true value. */
  lemma {:induction false} WindowBoundExact(r: Score, v: Score, alpha: Score, beta: Score)
    requires Ordered(r) && Ordered(v) && Ordered(alpha) && Ordered(beta)
    requires WindowBound(r, v, alpha, beta)
    requires Lt(alpha, v) && Lt(v, beta)
    ensures r == v
  {
    WindowBoundStanding(r, v, alpha, beta);
    Compare(alpha, v);
    Compare(v, beta);
    StandingInjective(r, v);
  }

  /**
   * What a child search promises its parent, on standings: a reply score
   * `c` for the window from `a` to `beta` bounds the reply's unpruned
   * value `w` from below at or above `beta`, from above at or below `a`,
   * and equals it in between.
   */
  predicate ReplyBound(a: Score, beta: Score, c: Score, w: Score)
  {
    Proper(c) && Proper(w) && StandingBound(c, w, a, beta)
  }

  /**
   * The invariant of the capture loop: `a`, the current alpha, is below
   * `beta` and is the better of the original `alpha` and the unpruned
   * value `seen` of standing pat and the captures tried so far.
   */
  predicate QuiescenceInvariant(alpha: Score, beta: Score, a: Score, seen: Score)
  {
    Proper(alpha) && Proper(a) && Proper(beta) && Proper(seen) &&
    Standing(a) < Standing(beta) &&
    Standing(a) == (if Standing(alpha) > Standing(seen) then Standing(alpha) else Standing(seen))
  }

  /**
   * One step of the capture loop: a capture at or above `beta` lifts the
   * unpruned value to `beta`; any other keeps the invariant.
   */
  lemma QuiescenceScoreStep(alpha: Score, beta: Score, a: Score, seen: Score, c: Score, w: Score)
    requires QuiescenceInvariant(alpha, beta, a, seen) && ReplyBound(a, beta, c, w)
    ensures Proper(Max(seen, w))
    ensures Ge(c, beta) ==> Standing(Max(seen, w)) >= Standing(beta)
    ensures !Ge(c, beta) ==> QuiescenceInvariant(alpha, beta, if Gt(c, a) then c else a, Max(seen, w))
  {
    Compare(seen, w);
    Compare(c, beta);
    Compare(c, a);
  }

  /**
   * The invariant of the move loop: `a`, the current alpha, is the better
   * of the original `alpha` and the best score, which is below `beta`; the
   * best score bounds the unpruned value `seen` of the moves tried so far
   * from above while it is at most `alpha`, and equals it once above.
   * Before the first move both are `MIN`.
   */
  predicate NegamaxInvariant(alpha: Score, beta: Score, a: Score, best: Score, seen: Score)
  {
    Proper(alpha) && Proper(a) && Proper(beta) &&
    (best == MIN || Proper(best)) && (seen == MIN || Proper(seen)) &&
    Standing(alpha) < Standing(beta) &&
    Standing(a) == (if Standing(alpha) > Standing(best) then Standing(alpha) else Standing(best)) &&
    Standing(best) < Standing(beta) &&
    (Standing(best) <= Standing(alpha) ==> Standing(seen) <= Standing(best)) &&
    (Standing(best) > Standing(alpha) ==> best == seen)
  }

  /**
   * One step of the move loop on the standings: `al` and `be` the window,
   * `a` the current alpha, `b` the best score, `s` the unpruned value seen,
   * `c` the move's score and `w` its unpruned value.
   */
  lemma NegamaxStep(al: int, be: int, a: int, b: int, s: int, c: int, w: int)
    requires al < be && a == (if al > b then al else b) && b < be
    requires b <= al ==> s <= b
    requires b > al ==> b == s
    requires c >= be ==> w >= c
    requires c <= a ==> w <= c
    requires a < c < be ==> w == c
    ensures var b', a', s' := (if c > b then c else b), (if c > a then c else a), (if s > w then s else w);
      (a' >= be ==> b' == c && s' >= c) &&
      (a' < be ==> a' == (if al > b' then al else b') && b' < be && (b' <= al ==> s' <= b') && (b' > al ==> b' == s'))
  {
  }

  /** The source's update `if c > x { x = c }` raises `x` to the higher standing of the two. */
  lemma Raise(c: Score, x: Score)
    requires Ordered(c) && Ordered(x)
    ensures Gt(c, x) <==> Standing(c) > Standing(x)
    ensures Standing(if Gt(c, x) then c else x) == (if Standing(c) > Standing(x) then Standing(c) else Standing(x))
  {
    Compare(c, x);
  }

  /**
   * One step of the move loop: a move that lifts alpha to `beta` leaves a
   * best score at or above `beta` and an unpruned value at or above it;
   * any other keeps the invariant.
   */
  lemma NegamaxScoreStep(alpha: Score, beta: Score, a: Score, best: Score, seen: Score, c: Score, w: Score)
    requires NegamaxInvariant(alpha, beta, a, best, seen) && ReplyBound(a, beta, c, w)
    ensures var best', a', seen' := (if Gt(c, best) then c else best), (if Gt(c, a) then c else a), Max(seen, w);
      Proper(best') && Proper(seen') &&
      (Ge(a', beta) ==> Standing(best') >= Standing(beta) && Standing(seen') >= Standing(best')) &&
      (!Ge(a', beta) ==> NegamaxInvariant(alpha, beta, a', best', seen'))
  {
    StandingAboveMin(c);
    StandingAboveMin(w);
    Raise(c, best);
    Raise(c, a);
    Compare(seen, w);
    var best', a', seen' := (if Gt(c, best) then c else best), (if Gt(c, a) then c else a), Max(seen, w);
    Compare(a', beta);
    NegamaxStep(Standing(alpha), Standing(beta), Standing(a), Standing(best), Standing(seen), Standing(c), Standing(w));
    if Standing(best') == Standing(seen') {
      StandingInjective(best', seen');
    }
  }
}
