/** The control structure of the patch loop: a fallible step runs over a
    sequence of items front to back, and the first failure ends the run with
    the state as it stands; nothing done before is undone. */
module EarlyExit {
  import opened Wrappers

  /** Whether the run got through every item, and the state it ended in. */
  datatype Run<S> = Run(ok: bool, state: S)

  /** The loop with early return, item by item from the front. */
  function RunSteps<S, X>(step: (S, X) -> Option<S>, s: S, xs: seq<X>): (r: Run<S>)
    ensures xs == [] ==> r == Run(true, s)
    decreases |xs|
  {
    if |xs| == 0 then Run(true, s)
    else
      match step(s, xs[0])
      case None => Run(false, s)
      case Some(next) => RunSteps(step, next, xs[1..])
  }

  /** Reference semantics: the state after the first `k` items have run one
      after another, or nothing when one of them failed. */
  function Prefix<S, X>(step: (S, X) -> Option<S>, s: S, xs: seq<X>, k: nat): Option<S>
    requires k <= |xs|
    decreases k
  {
    if k == 0 then Some(s)
    else
      match Prefix(step, s, xs, k - 1)
      case None => None
      case Some(t) => step(t, xs[k - 1])
  }

  /** Item `k` succeeds on the state the items before it produced. */
  ghost predicate StepOk<S, X>(step: (S, X) -> Option<S>, s: S, xs: seq<X>, k: nat)
    requires k < |xs|
  {
    Prefix(step, s, xs, k).Some? && step(Prefix(step, s, xs, k).value, xs[k]).Some?
  }

  /** One more item on top of a successful prefix. */
  lemma PrefixNext<S, X>(step: (S, X) -> Option<S>, s: S, xs: seq<X>, k: nat, t: S)
    requires k < |xs| && Prefix(step, s, xs, k) == Some(t)
    ensures Prefix(step, s, xs, k + 1) == step(t, xs[k])
  {
  }

  /** A successful prefix of `k` items is one more item on top of a
      successful prefix of `k - 1`. */
  lemma PrefixPrev<S, X>(step: (S, X) -> Option<S>, s: S, xs: seq<X>, k: nat)
    requires 0 < k <= |xs| && Prefix(step, s, xs, k).Some?
    ensures Prefix(step, s, xs, k - 1).Some?
    ensures Prefix(step, s, xs, k) == step(Prefix(step, s, xs, k - 1).value, xs[k - 1])
  {
  }

  /** A property of the state that holds at the start and that every
      successful step carries from item `j` to item `j + 1` holds after a
      successful prefix. */
  lemma {:induction false} PrefixInvariant<S, X>(step: (S, X) -> Option<S>, s: S, xs: seq<X>, k: nat,
                                                inv: (S, nat) -> bool)
    requires k <= |xs| && Prefix(step, s, xs, k).Some?
    requires inv(s, 0)
    requires forall t, j :: 0 <= j < |xs| && inv(t, j) && step(t, xs[j]).Some? ==>
      inv(step(t, xs[j]).value, j + 1)
    ensures inv(Prefix(step, s, xs, k).value, k)
    decreases k
  {
    if k > 0 {
      PrefixPrev(step, s, xs, k);
      PrefixInvariant(step, s, xs, k - 1, inv);
    }
  }

  /** The reference taken from the front: the first item, then the rest. */
  lemma {:induction false} PrefixCons<S, X>(step: (S, X) -> Option<S>, s: S, x: X, rest: seq<X>, k: nat)
    requires k <= |rest|
    ensures Prefix(step, s, [x] + rest, k + 1) ==
      match step(s, x)
      case None => None
      case Some(next) => Prefix(step, next, rest, k)
    decreases k
  {
    if k > 0 {
      PrefixCons(step, s, x, rest, k - 1);
      assert ([x] + rest)[k] == rest[k - 1];
    }
  }

  /** The early-return loop agrees with the reference: it gets through every
      item exactly when the reference succeeds, and then ends in its state. */
  lemma {:induction false} RunMatchesPrefix<S, X>(step: (S, X) -> Option<S>, s: S, xs: seq<X>)
    ensures RunSteps(step, s, xs).ok <==> Prefix(step, s, xs, |xs|).Some?
    ensures RunSteps(step, s, xs).ok ==> Prefix(step, s, xs, |xs|) == Some(RunSteps(step, s, xs).state)
    decreases |xs|
  {
    if |xs| > 0 {
      var rest := xs[1..];
      assert xs == [xs[0]] + rest;
      PrefixCons(step, s, xs[0], rest, |rest|);
      match step(s, xs[0])
      case None =>
      case Some(next) =>
        RunMatchesPrefix(step, next, rest);
    }
  }

  /** The first `m` items succeed in turn exactly when each of them succeeds
      on what its predecessors produced. */
  lemma {:induction false} PrefixSomeIff<S, X>(step: (S, X) -> Option<S>, s: S, xs: seq<X>, m: nat)
    requires m <= |xs|
    ensures Prefix(step, s, xs, m).Some? <==> forall k :: 0 <= k < m ==> StepOk(step, s, xs, k)
    decreases m
  {
    if m > 0 {
      PrefixSomeIff(step, s, xs, m - 1);
      if Prefix(step, s, xs, m).Some? {
        assert StepOk(step, s, xs, m - 1);
      } else if Prefix(step, s, xs, m - 1).Some? {
        assert !StepOk(step, s, xs, m - 1);
      }
    }
  }

  /** When item `k` is the first to fail, the run stops there, in the state
      items `0..k-1` produced. */
  lemma {:induction false} RunFailsAt<S, X>(step: (S, X) -> Option<S>, s: S, xs: seq<X>, k: nat)
    requires k < |xs|
    requires Prefix(step, s, xs, k).Some?
    requires step(Prefix(step, s, xs, k).value, xs[k]).None?
    ensures RunSteps(step, s, xs) == Run(false, Prefix(step, s, xs, k).value)
    decreases k
  {
    if k > 0 {
      var rest := xs[1..];
      assert xs == [xs[0]] + rest;
      PrefixCons(step, s, xs[0], rest, k - 1);
      assert rest[k - 1] == xs[k];
      RunFailsAt(step, step(s, xs[0]).value, rest, k - 1);
    }
  }

  /** Items after a failing one are never looked at. */
  lemma {:induction false} FailureIgnoresLater<S, X>(step: (S, X) -> Option<S>, s: S, xs: seq<X>, later: seq<X>)
    requires !RunSteps(step, s, xs).ok
    ensures RunSteps(step, s, xs + later) == RunSteps(step, s, xs)
    decreases |xs|
  {
    var ys := xs + later;
    assert ys[0] == xs[0];
    match step(s, xs[0])
    case None =>
    case Some(next) =>
      assert ys[1..] == xs[1..] + later;
      FailureIgnoresLater(step, next, xs[1..], later);
  }

  /** The loop as written: run each item in turn and return at the first
      failure with the state as it stands. */
  method RunLoop<S, X>(step: (S, X) -> Option<S>, s: S, xs: seq<X>) returns (ok: bool, out: S)
    ensures Run(ok, out) == RunSteps(step, s, xs)
  {
    out := s;
    var i := 0;
    while i < |xs|
      invariant 0 <= i <= |xs|
      invariant Prefix(step, s, xs, i) == Some(out)
    {
      var next := step(out, xs[i]);
      if next.None? {
        RunFailsAt(step, s, xs, i);
        return false, out;
      }
      PrefixNext(step, s, xs, i, out);
      out := next.value;
      i := i + 1;
    }
    RunMatchesPrefix(step, s, xs);
    return true, out;
  }
}
