/** Runs of a step relation, laid end to end. */
module Traces {
  /** Each state follows from the one before it by its step. */
  ghost predicate Trace<S, T>(next: (S, T, S) -> bool, states: seq<S>, steps: seq<T>) {
    && |states| == |steps| + 1
    && forall i :: 0 <= i < |steps| ==> next(states[i], steps[i], states[i + 1])
  }

  /** A run that begins where another ends continues it. */
  lemma Join<S, T>(next: (S, T, S) -> bool, xs: seq<S>, p: seq<T>, ys: seq<S>, q: seq<T>)
    requires Trace(next, xs, p) && Trace(next, ys, q) && ys[0] == xs[|xs| - 1]
    ensures Trace(next, xs + ys[1..], p + q)
    ensures (xs + ys[1..])[0] == xs[0] && (xs + ys[1..])[|p + q|] == ys[|ys| - 1]
  {
    var zs, r := xs + ys[1..], p + q;
    forall i | 0 <= i < |r| ensures next(zs[i], r[i], zs[i + 1]) {
      if i < |p| {
        assert next(xs[i], p[i], xs[i + 1]);
      } else {
        var k := i - |p|;
        assert zs[i] == ys[k] && zs[i + 1] == ys[k + 1];
        assert next(ys[k], q[k], ys[k + 1]);
      }
    }
  }
}
