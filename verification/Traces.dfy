/** Runs of a system whose clients keep account of what they hold.

    An operation of type `Op` is answered with an `R` and takes the system from one state to the next. What
    the clients hold, of type `L`, follows from the operations and the answers alone. */
module Traces {

  /** What clients hold after the first `n` operations. */
  function HeldAfter<L, Op, R>(init: L, account: (L, Op, R) -> L, ops: seq<Op>, results: seq<R>, n: nat): L
    requires n <= |ops| && n <= |results|
  {
    if n == 0 then init else account(HeldAfter(init, account, ops, results, n - 1), ops[n - 1], results[n - 1])
  }

  ghost predicate SoundAt<L, S, Op, R>(init: L, account: (L, Op, R) -> L, sound: (L, S) -> bool,
                                       ops: seq<Op>, results: seq<R>, trace: seq<S>, i: nat)
    requires i <= |results| <= |ops| && |trace| == |results| + 1
  {
    sound(HeldAfter(init, account, ops, results, i), trace[i])
  }

  ghost predicate StepAt<L, S, Op, R>(init: L, account: (L, Op, R) -> L, step: (L, S, Op, R, S) -> bool,
                                      ops: seq<Op>, results: seq<R>, trace: seq<S>, i: nat)
    requires i < |results| <= |ops| && |trace| == |results| + 1
  {
    step(HeldAfter(init, account, ops, results, i), trace[i], ops[i], results[i], trace[i + 1])
  }

  /** Each state of the trace is sound, and follows from the one before by the operation and its answer. */
  ghost predicate IsRun<L(!new), S(!new), Op(!new), R(!new)>(
    init: L, account: (L, Op, R) -> L, sound: (L, S) -> bool, step: (L, S, Op, R, S) -> bool,
    ops: seq<Op>, results: seq<R>, trace: seq<S>)
  {
    && |results| <= |ops| && |trace| == |results| + 1
    && (forall i: nat {:trigger SoundAt(init, account, sound, ops, results, trace, i)} ::
          i <= |results| ==> SoundAt(init, account, sound, ops, results, trace, i))
    && forall i: nat {:trigger StepAt(init, account, step, ops, results, trace, i)} ::
         i < |results| ==> StepAt(init, account, step, ops, results, trace, i)
  }

  lemma {:induction false} HeldPrefix<L, Op, R>(
    init: L, account: (L, Op, R) -> L, ops: seq<Op>, results: seq<R>, r: R, n: nat)
    requires n <= |results| <= |ops|
    ensures HeldAfter(init, account, ops, results + [r], n) == HeldAfter(init, account, ops, results, n)
  {
    if n > 0 { HeldPrefix(init, account, ops, results, r, n - 1); }
  }

  /** A run from `start` that has come to `s`, where clients hold `held`. */
  ghost predicate Recorded<L(!new), S(!new), Op(!new), R(!new)>(
    init: L, account: (L, Op, R) -> L, sound: (L, S) -> bool, step: (L, S, Op, R, S) -> bool,
    ops: seq<Op>, results: seq<R>, trace: seq<S>, start: S, held: L, s: S)
  {
    && IsRun(init, account, sound, step, ops, results, trace)
    && trace[0] == start && trace[|results|] == s && held == HeldAfter(init, account, ops, results, |results|)
  }

  /** A run starts in any sound state. */
  lemma StartRun<L(!new), S(!new), Op(!new), R(!new)>(
    init: L, account: (L, Op, R) -> L, sound: (L, S) -> bool, step: (L, S, Op, R, S) -> bool, ops: seq<Op>, s: S)
    requires sound(init, s)
    ensures Recorded(init, account, sound, step, ops, [], [s], s, init, s)
  {
    var results: seq<R>, trace := [], [s];
    forall i: nat {:trigger SoundAt(init, account, sound, ops, results, trace, i)} | i <= 0
      ensures SoundAt(init, account, sound, ops, results, trace, i)
    {
    }
  }

  /** A run goes on with any step to a sound state. */
  lemma ExtendRun<L(!new), S(!new), Op(!new), R(!new)>(
    init: L, account: (L, Op, R) -> L, sound: (L, S) -> bool, step: (L, S, Op, R, S) -> bool,
    ops: seq<Op>, results: seq<R>, trace: seq<S>, r: R, s: S)
    requires IsRun(init, account, sound, step, ops, results, trace) && |results| < |ops|
    requires var n := |results|;
             var held := HeldAfter(init, account, ops, results, n);
             step(held, trace[n], ops[n], r, s) && sound(account(held, ops[n], r), s)
    ensures IsRun(init, account, sound, step, ops, results + [r], trace + [s])
    ensures HeldAfter(init, account, ops, results + [r], |results| + 1) ==
            account(HeldAfter(init, account, ops, results, |results|), ops[|results|], r)
  {
    var n, results', trace' := |results|, results + [r], trace + [s];
    HeldPrefix(init, account, ops, results, r, n);
    forall i: nat {:trigger SoundAt(init, account, sound, ops, results', trace', i)} | i <= n + 1
      ensures SoundAt(init, account, sound, ops, results', trace', i)
    {
      if i <= n {
        HeldPrefix(init, account, ops, results, r, i);
        assert SoundAt(init, account, sound, ops, results, trace, i) && trace'[i] == trace[i];
      }
    }
    forall i: nat {:trigger StepAt(init, account, step, ops, results', trace', i)} | i < n + 1
      ensures StepAt(init, account, step, ops, results', trace', i)
    {
      HeldPrefix(init, account, ops, results, r, i);
      assert trace'[i] == trace[i];
      if i < n {
        assert StepAt(init, account, step, ops, results, trace, i);
        assert results'[i] == results[i] && trace'[i + 1] == trace[i + 1];
      }
    }
  }

  lemma Record<L(!new), S(!new), Op(!new), R(!new)>(
    init: L, account: (L, Op, R) -> L, sound: (L, S) -> bool, step: (L, S, Op, R, S) -> bool,
    ops: seq<Op>, results: seq<R>, trace: seq<S>, start: S, held: L, s: S, r: R, s': S)
    requires Recorded(init, account, sound, step, ops, results, trace, start, held, s) && |results| < |ops|
    requires step(held, s, ops[|results|], r, s') && sound(account(held, ops[|results|], r), s')
    ensures Recorded(init, account, sound, step, ops, results + [r], trace + [s'], start,
                     account(held, ops[|results|], r), s')
  {
    ExtendRun(init, account, sound, step, ops, results, trace, r, s');
  }

  /** One step of a run. */
  lemma RunStep<L(!new), S(!new), Op(!new), R(!new)>(
    init: L, account: (L, Op, R) -> L, sound: (L, S) -> bool, step: (L, S, Op, R, S) -> bool,
    ops: seq<Op>, results: seq<R>, trace: seq<S>, k: nat)
    requires IsRun(init, account, sound, step, ops, results, trace) && k < |results|
    ensures sound(HeldAfter(init, account, ops, results, k), trace[k])
    ensures step(HeldAfter(init, account, ops, results, k), trace[k], ops[k], results[k], trace[k + 1])
  {
    assert SoundAt(init, account, sound, ops, results, trace, k);
    assert StepAt(init, account, step, ops, results, trace, k);
  }

  lemma RunSound<L(!new), S(!new), Op(!new), R(!new)>(
    init: L, account: (L, Op, R) -> L, sound: (L, S) -> bool, step: (L, S, Op, R, S) -> bool,
    ops: seq<Op>, results: seq<R>, trace: seq<S>, k: nat)
    requires IsRun(init, account, sound, step, ops, results, trace) && k <= |results|
    ensures sound(HeldAfter(init, account, ops, results, k), trace[k])
  {
    assert SoundAt(init, account, sound, ops, results, trace, k);
  }
}
