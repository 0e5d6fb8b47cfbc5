/** A loop over a sequence whose body may raise: each element updates the
    state in turn, and the first failure ends the loop with its error. The
    extractor's loop over statements is one (conanfile.py:177-216). */
module Folds {
  import opened Wrappers

  /** `for x in xs: state = step(state, x)`, where a raising step ends the
      loop. */
  function FoldSteps<S, X, E>(step: (S, X) -> Result<S, E>, start: S, xs: seq<X>): Result<S, E>
    decreases |xs|
  {
    if |xs| == 0 then Success(start)
    else
      match FoldSteps(step, start, xs[..|xs| - 1])
      case Failure(e) => Failure(e)
      case Success(s) => step(s, xs[|xs| - 1])
  }

  /** The loop over one more element is one more step. */
  lemma FoldStepAfter<S, X, E>(step: (S, X) -> Result<S, E>, start: S, xs: seq<X>, x: X, s: S)
    requires FoldSteps(step, start, xs) == Success(s)
    ensures FoldSteps(step, start, xs + [x]) == step(s, x)
  {
    assert (xs + [x])[..|xs|] == xs;
    assert (xs + [x])[|xs|] == x;
  }

  /** A completed loop completed on every shorter prefix, and its last
      step started from the state the prefix left. */
  lemma FoldSnoc<S, X, E>(step: (S, X) -> Result<S, E>, start: S, xs: seq<X>)
    requires |xs| > 0 && FoldSteps(step, start, xs).Success?
    ensures FoldSteps(step, start, xs[..|xs| - 1]).Success?
    ensures FoldSteps(step, start, xs) == step(FoldSteps(step, start, xs[..|xs| - 1]).value, xs[|xs| - 1])
  {
  }

  /** When a step raises exactly on the elements `ok` rejects, whatever the
      state, the loop completes exactly when `ok` accepts every element. */
  lemma {:induction false} FoldSucceeds<S, X, E>(step: (S, X) -> Result<S, E>, start: S, xs: seq<X>, ok: X -> bool)
    requires forall s, x :: step(s, x).Success? <==> ok(x)
    ensures FoldSteps(step, start, xs).Success? <==> forall i :: 0 <= i < |xs| ==> ok(xs[i])
    decreases |xs|
  {
    if |xs| > 0 {
      var init := xs[..|xs| - 1];
      FoldSucceeds(step, start, init, ok);
      assert forall i :: 0 <= i < |init| ==> init[i] == xs[i];
      var last := xs[|xs| - 1];
      match FoldSteps(step, start, init)
      case Failure(_) =>
        var j :| 0 <= j < |init| && !ok(init[j]);
        assert !ok(xs[j]);
      case Success(s) =>
        assert FoldSteps(step, start, xs) == step(s, last);
        assert step(s, last).Success? <==> ok(last);
        if ok(last) {
          forall i | 0 <= i < |xs| ensures ok(xs[i]) {
            if i < |init| {
              assert ok(init[i]);
            }
          }
        }
    }
  }

  /** Once a step has raised, later elements change nothing. */
  lemma {:induction false} FoldFailureStays<S, X, E>(step: (S, X) -> Result<S, E>, start: S, xs: seq<X>, more: seq<X>)
    requires FoldSteps(step, start, xs).Failure?
    ensures FoldSteps(step, start, xs + more) == FoldSteps(step, start, xs)
    decreases |more|
  {
    if |more| > 0 {
      assert (xs + more)[..|xs + more| - 1] == xs + more[..|more| - 1];
      FoldFailureStays(step, start, xs, more[..|more| - 1]);
    } else {
      assert xs + more == xs;
    }
  }

  /** When a step raises `err(x)` on the elements `ok` rejects and completes
      on the others, the loop ends with the error of the first rejected
      element. */
  lemma FoldFirstFailure<S, X, E>(step: (S, X) -> Result<S, E>, start: S, xs: seq<X>, ok: X -> bool, err: X -> E, i: nat)
    requires forall s, x :: step(s, x).Success? <==> ok(x)
    requires forall s, x :: !ok(x) ==> step(s, x) == Failure(err(x))
    requires i < |xs| && !ok(xs[i]) && forall j :: 0 <= j < i ==> ok(xs[j])
    ensures FoldSteps(step, start, xs) == Failure(err(xs[i]))
  {
    var before := xs[..i];
    var upto := before + [xs[i]];
    assert forall j :: 0 <= j < i ==> before[j] == xs[j];
    FoldSucceeds(step, start, before, ok);
    match FoldSteps(step, start, before)
    case Success(s) =>
      FoldStepAfter(step, start, before, xs[i], s);
      assert step(s, xs[i]) == Failure(err(xs[i]));
      FoldFailureStays(step, start, upto, xs[i + 1..]);
      assert upto + xs[i + 1..] == xs;
  }
}
