/** Runs of a step function over a list of inputs, up to one that ends the run. */
module Trails {
  /** The states passed through, the first one included. */
  ghost function Trail<S, K>(next: (S, K) -> S, stop: K -> bool, s: S, inputs: seq<K>): (trail: seq<S>)
    ensures trail != [] && trail[0] == s
    decreases |inputs|
  {
    if inputs == [] then [s]
    else
      var t := next(s, inputs[0]);
      if stop(inputs[0]) then [s, t] else [s] + Trail(next, stop, t, inputs[1..])
  }

  /** One state more, t, of a run that has passed through `done` and is at s. */
  lemma TrailNext<S, K>(next: (S, K) -> S, stop: K -> bool, done: seq<S>, s: S, t: S, inputs: seq<K>, tail: seq<K>,
                        goesOn: bool)
    requires inputs != [] && tail == inputs[1..]
    requires t == next(s, inputs[0]) && (goesOn <==> !stop(inputs[0]))
    ensures done + Trail(next, stop, s, inputs) ==
            done + [s] + if goesOn then Trail(next, stop, t, tail) else [t]
  {
  }

  lemma {:induction false} TrailLength<S, K>(next: (S, K) -> S, stop: K -> bool, s: S, inputs: seq<K>)
    ensures |Trail(next, stop, s, inputs)| <= |inputs| + 1
    decreases |inputs|
  {
    if inputs != [] {
      TrailLength(next, stop, next(s, inputs[0]), inputs[1..]);
    }
  }

  /** A run that nothing ends before its last input passes through all of them. */
  lemma {:induction false} TrailWhole<S, K>(next: (S, K) -> S, stop: K -> bool, s: S, inputs: seq<K>)
    requires forall k :: 0 <= k < |inputs| - 1 ==> !stop(inputs[k])
    ensures |Trail(next, stop, s, inputs)| == |inputs| + 1
    decreases |inputs|
  {
    if |inputs| > 1 {
      TrailWhole(next, stop, next(s, inputs[0]), inputs[1..]);
    }
  }

  /** Each state is a step on from the one before it. */
  lemma {:induction false} TrailSteps<S, K>(next: (S, K) -> S, stop: K -> bool, s: S, inputs: seq<K>, i: nat)
    requires 0 < i < |Trail(next, stop, s, inputs)|
    ensures i <= |inputs|
    ensures Trail(next, stop, s, inputs)[i] == next(Trail(next, stop, s, inputs)[i - 1], inputs[i - 1])
    decreases i
  {
    if i > 1 {
      TrailSteps(next, stop, next(s, inputs[0]), inputs[1..], i - 1);
    }
  }

  /** Inputs that the step function does not tell apart give the same run. */
  lemma {:induction false} TrailSame<S, K>(next: (S, K) -> S, stop: K -> bool, s: S, a: seq<K>, b: seq<K>)
    requires |a| == |b|
    requires forall k :: 0 <= k < |a| ==> stop(a[k]) == stop(b[k]) && forall x :: next(x, a[k]) == next(x, b[k])
    ensures Trail(next, stop, s, a) == Trail(next, stop, s, b)
    decreases |a|
  {
    if a != [] {
      assert forall k :: 0 <= k < |a[1..]| ==> a[1..][k] == a[k + 1] && b[1..][k] == b[k + 1];
      assert next(s, a[0]) == next(s, b[0]);
      TrailSame(next, stop, next(s, a[0]), a[1..], b[1..]);
    }
  }
}
