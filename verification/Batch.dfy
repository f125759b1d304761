/**
 Retrying an action on successively smaller batches until the inputs that make it fail are found.

 The action is arbitrary: it may answer differently at every call, so it is a function of the number
 of the call and of the batch.
 */
module Batch {
  import opened Wrappers

  datatype Reply<R, E> = Done(response: R) | Raised(error: E)

  datatype Success<T, R> = Success(successfulInput: seq<T>, response: R)

  datatype Failure<I, E> = Failure(failedInput: I, error: E)

  /** The three response lists, and the batches the action was called with, in order. */
  datatype Responses<T, R, E> = Responses(
    successes: seq<Success<T, R>>,
    intermediates: seq<Failure<seq<T>, E>>,
    failures: seq<Failure<T, E>>,
    sent: seq<seq<T>>)

  type Action<!T, !R, !E> = (nat, seq<T>) -> Reply<R, E>

  /** What retrying does with `inputs` when `calls` calls have been made before. */
  function Bisect<T, R, E>(inputs: seq<T>, action: Action<T, R, E>, calls: nat): Responses<T, R, E>
    decreases |inputs|
  {
    if inputs == [] then Responses([], [], [], [])
    else
      match action(calls, inputs)
      case Done(response) => Responses([Success(inputs, response)], [], [], [inputs])
      case Raised(error) =>
        if |inputs| == 1 then Responses([], [], [Failure(inputs[0], error)], [inputs])
        else
          var midpoint := |inputs| / 2;
          var left := Bisect(inputs[..midpoint], action, calls + 1);
          var right := Bisect(inputs[midpoint..], action, calls + 1 + |left.sent|);
          Responses(left.successes + right.successes,
                    [Failure(inputs, error)] + left.intermediates + right.intermediates,
                    left.failures + right.failures,
                    [inputs] + left.sent + right.sent)
  }

  /** A batch that fails is split in two halves, which are retried one after the other. */
  lemma BisectSplits<T, R, E>(inputs: seq<T>, action: Action<T, R, E>, calls: nat)
    returns (error: E, left: Responses<T, R, E>, right: Responses<T, R, E>)
    requires |inputs| > 1 && action(calls, inputs).Raised?
    ensures action(calls, inputs) == Raised(error)
    ensures left == Bisect(inputs[..|inputs| / 2], action, calls + 1)
    ensures right == Bisect(inputs[|inputs| / 2..], action, calls + 1 + |left.sent|)
    ensures Bisect(inputs, action, calls)
         == Responses(left.successes + right.successes,
                      [Failure(inputs, error)] + left.intermediates + right.intermediates,
                      left.failures + right.failures,
                      [inputs] + left.sent + right.sent)
  {
    error := action(calls, inputs).error;
    left := Bisect(inputs[..|inputs| / 2], action, calls + 1);
    right := Bisect(inputs[|inputs| / 2..], action, calls + 1 + |left.sent|);
  }

  lemma BisectStops<T, R, E>(inputs: seq<T>, action: Action<T, R, E>, calls: nat)
    ensures inputs == [] ==> Bisect(inputs, action, calls) == Responses([], [], [], [])
    ensures inputs != [] && action(calls, inputs).Done? ==>
              Bisect(inputs, action, calls)
              == Responses([Success(inputs, action(calls, inputs).response)], [], [], [inputs])
    ensures |inputs| == 1 && action(calls, inputs).Raised? ==>
              Bisect(inputs, action, calls)
              == Responses([], [], [Failure(inputs[0], action(calls, inputs).error)], [inputs])
  {
  }

  /* ---------- the mutable response ---------- */

  class BisectRetryResponse<T, R, E> {
    var successResponses: seq<Success<T, R>>
    var intermediateResponses: seq<Failure<seq<T>, E>>
    var failureResponses: seq<Failure<T, E>>

    constructor (successes: seq<Success<T, R>>, intermediates: seq<Failure<seq<T>, E>>, failures: seq<Failure<T, E>>)
      ensures successResponses == successes && intermediateResponses == intermediates && failureResponses == failures
    {
      successResponses, intermediateResponses, failureResponses := successes, intermediates, failures;
    }

    ghost predicate Holds(r: Responses<T, R, E>)
      reads this
    {
      successResponses == r.successes && intermediateResponses == r.intermediates && failureResponses == r.failures
    }

    /** Appends the lists of the others to this response's own, in order. */
    method Merge(left: BisectRetryResponse<T, R, E>, right: BisectRetryResponse<T, R, E>)
      requires left != this && right != this
      modifies this
      ensures successResponses == old(successResponses) + left.successResponses + right.successResponses
      ensures intermediateResponses
           == old(intermediateResponses) + left.intermediateResponses + right.intermediateResponses
      ensures failureResponses == old(failureResponses) + left.failureResponses + right.failureResponses
    {
      var others := [left, right];
      for i := 0 to |others|
        invariant i >= 1 ==> successResponses == old(successResponses) + left.successResponses
                             + if i == 2 then right.successResponses else []
        invariant i >= 1 ==> intermediateResponses == old(intermediateResponses) + left.intermediateResponses
                             + if i == 2 then right.intermediateResponses else []
        invariant i >= 1 ==> failureResponses == old(failureResponses) + left.failureResponses
                             + if i == 2 then right.failureResponses else []
        invariant i == 0 ==> unchanged(this)
      {
        successResponses := successResponses + others[i].successResponses;
        intermediateResponses := intermediateResponses + others[i].intermediateResponses;
        failureResponses := failureResponses + others[i].failureResponses;
      }
    }
  }

  /** The recursion, building its response in place; `sent` counts the calls it made. */
  method BisectRetry<T, R, E>(inputs: seq<T>, action: Action<T, R, E>, calls: nat)
    returns (r: BisectRetryResponse<T, R, E>, sent: nat)
    ensures fresh(r) && r.Holds(Bisect(inputs, action, calls)) && sent == |Bisect(inputs, action, calls).sent|
    decreases |inputs|
  {
    hide Bisect;
    BisectStops(inputs, action, calls);
    if |inputs| == 0 {
      r := new BisectRetryResponse([], [], []);
      return r, 0;
    }
    match action(calls, inputs)
    case Done(response) =>
      r := new BisectRetryResponse([Success(inputs, response)], [], []);
      sent := 1;
    case Raised(error) =>
      if |inputs| == 1 {
        r := new BisectRetryResponse([], [], [Failure(inputs[0], error)]);
        return r, 1;
      }
      r := new BisectRetryResponse([], [Failure(inputs, error)], []);
      ghost var _, _, _ := BisectSplits(inputs, action, calls);
      var midpoint := |inputs| / 2;
      var left, leftSent := BisectRetry(inputs[..midpoint], action, calls + 1);
      var right, rightSent := BisectRetry(inputs[midpoint..], action, calls + 1 + leftSent);
      r.Merge(left, right);
      sent := 1 + leftSent + rightSent;
  }

  /* ---------- every input is answered exactly once ---------- */

  function SucceededInputs<T, R>(successes: seq<Success<T, R>>): seq<T> {
    if successes == [] then [] else successes[0].successfulInput + SucceededInputs(successes[1..])
  }

  function FailedInputs<T, E>(failures: seq<Failure<T, E>>): seq<T> {
    if failures == [] then [] else [failures[0].failedInput] + FailedInputs(failures[1..])
  }

  lemma SucceededStep<T, R>(a: seq<Success<T, R>>)
    ensures SucceededInputs(a) == if a == [] then [] else a[0].successfulInput + SucceededInputs(a[1..])
  {
  }

  lemma {:induction false} SucceededConcat<T, R>(a: seq<Success<T, R>>, b: seq<Success<T, R>>)
    ensures SucceededInputs(a + b) == SucceededInputs(a) + SucceededInputs(b)
    decreases a
  {
    hide SucceededInputs;
    SucceededStep(a);
    SucceededStep(a + b);
    if a == [] {
      assert a + b == b;
    } else {
      SucceededConcat(a[1..], b);
      assert (a + b)[1..] == a[1..] + b;
      ConcatAssociates(a[0].successfulInput, SucceededInputs(a[1..]), SucceededInputs(b));
    }
  }

  lemma FailedStep<T, E>(a: seq<Failure<T, E>>)
    ensures FailedInputs(a) == if a == [] then [] else [a[0].failedInput] + FailedInputs(a[1..])
  {
  }

  lemma {:induction false} FailedConcat<T, E>(a: seq<Failure<T, E>>, b: seq<Failure<T, E>>)
    ensures FailedInputs(a + b) == FailedInputs(a) + FailedInputs(b)
    decreases a
  {
    hide FailedInputs;
    FailedStep(a);
    FailedStep(a + b);
    if a == [] {
      assert a + b == b;
    } else {
      FailedConcat(a[1..], b);
      assert (a + b)[1..] == a[1..] + b;
      ConcatAssociates([a[0].failedInput], FailedInputs(a[1..]), FailedInputs(b));
    }
  }

  /** The parts of `inputs` that were split off: `a` and `b` interleave to `inputs`. */
  ghost predicate Interleave<T>(a: seq<T>, b: seq<T>, inputs: seq<T>)
    decreases inputs
  {
    if inputs == [] then a == [] && b == []
    else
      (a != [] && a[0] == inputs[0] && Interleave(a[1..], b, inputs[1..]))
      || (b != [] && b[0] == inputs[0] && Interleave(a, b[1..], inputs[1..]))
  }

  lemma {:induction false} InterleaveConcat<T>(a: seq<T>, b: seq<T>, s: seq<T>, a': seq<T>, b': seq<T>, s': seq<T>)
    requires Interleave(a, b, s) && Interleave(a', b', s')
    ensures Interleave(a + a', b + b', s + s')
    decreases s
  {
    if s == [] {
      assert a + a' == a' && b + b' == b' && s + s' == s';
    } else {
      assert (s + s')[1..] == s[1..] + s';
      if a != [] && a[0] == s[0] && Interleave(a[1..], b, s[1..]) {
        InterleaveConcat(a[1..], b, s[1..], a', b', s');
        assert (a + a')[1..] == a[1..] + a';
      } else {
        InterleaveConcat(a, b[1..], s[1..], a', b', s');
        assert (b + b')[1..] == b[1..] + b';
      }
    }
  }

  lemma {:induction false} InterleaveOne<T>(s: seq<T>)
    ensures Interleave(s, [], s) && Interleave([], s, s)
  {
    if s != [] {
      InterleaveOne(s[1..]);
    }
  }

  /**
   Whatever the action does, the succeeded and the failed inputs together are the inputs, each exactly
   once and each kind in the original order.
   */
  lemma {:induction false} EveryInputAnsweredOnce<T, R, E>(inputs: seq<T>, action: Action<T, R, E>, calls: nat)
    ensures var r := Bisect(inputs, action, calls);
            Interleave(SucceededInputs(r.successes), FailedInputs(r.failures), inputs)
    decreases |inputs|
  {
    hide Bisect, Interleave;
    BisectStops(inputs, action, calls);
    InterleaveOne(inputs);
    var r := Bisect(inputs, action, calls);
    if inputs == [] {
    } else if action(calls, inputs).Done? {
      assert SucceededInputs(r.successes) == inputs;
    } else if |inputs| == 1 {
      assert FailedInputs(r.failures) == inputs;
    } else {
      var midpoint := |inputs| / 2;
      var _, left, right := BisectSplits(inputs, action, calls);
      EveryInputAnsweredOnce(inputs[..midpoint], action, calls + 1);
      EveryInputAnsweredOnce(inputs[midpoint..], action, calls + 1 + |left.sent|);
      SucceededConcat(left.successes, right.successes);
      FailedConcat(left.failures, right.failures);
      InterleaveConcat(SucceededInputs(left.successes), FailedInputs(left.failures), inputs[..midpoint],
                       SucceededInputs(right.successes), FailedInputs(right.failures), inputs[midpoint..]);
      assert inputs[..midpoint] + inputs[midpoint..] == inputs;
    }
  }

  lemma {:induction false} InterleaveIsPartition<T>(a: seq<T>, b: seq<T>, s: seq<T>)
    requires Interleave(a, b, s)
    ensures multiset(a) + multiset(b) == multiset(s)
    decreases s
  {
    if s != [] {
      assert s == [s[0]] + s[1..];
      if a != [] && a[0] == s[0] && Interleave(a[1..], b, s[1..]) {
        InterleaveIsPartition(a[1..], b, s[1..]);
        assert a == [a[0]] + a[1..];
      } else {
        InterleaveIsPartition(a, b[1..], s[1..]);
        assert b == [b[0]] + b[1..];
      }
    }
  }

  /* ---------- which calls are made ---------- */

  /** No call is made for nothing, and there are fewer than two calls per input. */
  lemma {:induction false} CallsAreBounded<T, R, E>(inputs: seq<T>, action: Action<T, R, E>, calls: nat)
    ensures var sent := Bisect(inputs, action, calls).sent;
            [] !in sent && |sent| <= if inputs == [] then 0 else 2 * |inputs| - 1
    decreases |inputs|
  {
    hide Bisect;
    BisectStops(inputs, action, calls);
    if |inputs| > 1 && action(calls, inputs).Raised? {
      var midpoint := |inputs| / 2;
      var _, left, right := BisectSplits(inputs, action, calls);
      CallsAreBounded(inputs[..midpoint], action, calls + 1);
      CallsAreBounded(inputs[midpoint..], action, calls + 1 + |left.sent|);
    }
  }

  /* ---------- the answers are those of the calls ---------- */

  /** Is this failure the answer of one of the calls to its input alone?  The first of them has number `calls`. */
  ghost predicate IsRaised<T, R, E>(f: Failure<T, E>, sent: seq<seq<T>>, action: Action<T, R, E>, calls: nat) {
    exists k: nat :: k < |sent| && sent[k] == [f.failedInput] && action(calls + k, sent[k]) == Raised(f.error)
  }

  ghost predicate IsDone<T, R, E>(s: Success<T, R>, sent: seq<seq<T>>, action: Action<T, R, E>, calls: nat) {
    exists k: nat :: k < |sent| && sent[k] == s.successfulInput && action(calls + k, sent[k]) == Done(s.response)
  }

  ghost predicate ReportsCalls<T(!new), R(!new), E(!new)>(r: Responses<T, R, E>, action: Action<T, R, E>, calls: nat) {
    && (forall f | f in r.failures :: IsRaised(f, r.sent, action, calls))
    && (forall s | s in r.successes :: IsDone(s, r.sent, action, calls))
    && (forall f | f in r.intermediates :: IsRaisedFirst(f, r.sent, action, calls))
    && |r.successes| + |r.intermediates| + |r.failures| == |r.sent|
  }

  /** Is this the answer of one of the calls to a batch of several inputs? */
  ghost predicate IsRaisedFirst<T, R, E>(f: Failure<seq<T>, E>, sent: seq<seq<T>>, action: Action<T, R, E>, calls: nat) {
    |f.failedInput| > 1
    && exists k: nat :: k < |sent| && sent[k] == f.failedInput && action(calls + k, sent[k]) == Raised(f.error)
  }

  lemma RaisedFirstAmong<T, R, E>(
    f: Failure<seq<T>, E>, before: seq<seq<T>>, sent: seq<seq<T>>, after: seq<seq<T>>, action: Action<T, R, E>, calls: nat, next: nat)
    requires next == calls + |before| && IsRaisedFirst(f, sent, action, next)
    ensures IsRaisedFirst(f, before + sent + after, action, calls)
  {
    var k: nat :| k < |sent| && sent[k] == f.failedInput && action(next + k, sent[k]) == Raised(f.error);
    assert (before + sent + after)[|before| + k] == sent[k];
    assert next + k == calls + (|before| + k);
  }

  lemma RaisedAmong<T, R, E>(
    f: Failure<T, E>, before: seq<seq<T>>, sent: seq<seq<T>>, after: seq<seq<T>>, action: Action<T, R, E>, calls: nat, next: nat)
    requires next == calls + |before| && IsRaised(f, sent, action, next)
    ensures IsRaised(f, before + sent + after, action, calls)
  {
    var k: nat :| k < |sent| && sent[k] == [f.failedInput] && action(next + k, sent[k]) == Raised(f.error);
    assert (before + sent + after)[|before| + k] == sent[k];
    assert next + k == calls + (|before| + k);
  }

  lemma DoneAmong<T, R, E>(
    s: Success<T, R>, before: seq<seq<T>>, sent: seq<seq<T>>, after: seq<seq<T>>, action: Action<T, R, E>, calls: nat, next: nat)
    requires next == calls + |before| && IsDone(s, sent, action, next)
    ensures IsDone(s, before + sent + after, action, calls)
  {
    var k: nat :| k < |sent| && sent[k] == s.successfulInput && action(next + k, sent[k]) == Done(s.response);
    assert (before + sent + after)[|before| + k] == sent[k];
    assert next + k == calls + (|before| + k);
  }

  lemma HalvesReportCalls<T(!new), R(!new), E(!new)>(
    inputs: seq<T>, left: Responses<T, R, E>, right: Responses<T, R, E>, r: Responses<T, R, E>,
    action: Action<T, R, E>, calls: nat, first: nat, next: nat)
    requires first == calls + 1 && next == first + |left.sent|
    requires ReportsCalls(left, action, first) && ReportsCalls(right, action, next)
    requires r.successes == left.successes + right.successes && r.failures == left.failures + right.failures
    requires r.sent == [inputs] + left.sent + right.sent
    requires |inputs| > 1 && action(calls, inputs).Raised?
    requires r.intermediates == [Failure(inputs, action(calls, inputs).error)] + left.intermediates + right.intermediates
    ensures ReportsCalls(r, action, calls)
  {
    assert IsRaisedFirst(r.intermediates[0], r.sent, action, calls) by {
      assert r.sent[0] == inputs && calls + 0 == calls;
    }
    hide IsRaised, IsDone, IsRaisedFirst;
    var upToRight := [inputs] + left.sent;
    assert r.sent == upToRight + right.sent + [];
    forall f | f in r.failures ensures IsRaised(f, r.sent, action, calls) {
      if f in left.failures {
        RaisedAmong(f, [inputs], left.sent, right.sent, action, calls, first);
      } else {
        RaisedAmong(f, upToRight, right.sent, [], action, calls, next);
      }
    }
    forall s | s in r.successes ensures IsDone(s, r.sent, action, calls) {
      if s in left.successes {
        DoneAmong(s, [inputs], left.sent, right.sent, action, calls, first);
      } else {
        DoneAmong(s, upToRight, right.sent, [], action, calls, next);
      }
    }
    forall f | f in r.intermediates ensures IsRaisedFirst(f, r.sent, action, calls) {
      if f in left.intermediates {
        RaisedFirstAmong(f, [inputs], left.sent, right.sent, action, calls, first);
      } else if f in right.intermediates {
        RaisedFirstAmong(f, upToRight, right.sent, [], action, calls, next);
      }
    }
  }

  lemma OneCallReports<T(!new), R(!new), E(!new)>(inputs: seq<T>, action: Action<T, R, E>, calls: nat)
    requires |inputs| <= 1 || action(calls, inputs).Done?
    ensures ReportsCalls(Bisect(inputs, action, calls), action, calls)
  {
    hide Bisect;
    BisectStops(inputs, action, calls);
    var r := Bisect(inputs, action, calls);
    if inputs != [] {
      assert r.sent[0] == inputs && calls + 0 == calls;
      if action(calls, inputs).Raised? {
        assert inputs == [inputs[0]];
        assert IsRaised(r.failures[0], r.sent, action, calls);
      } else {
        assert IsDone(r.successes[0], r.sent, action, calls);
      }
    }
  }

  /**
   For an arbitrary action: every reported failure is what a call with that input alone raised, every
   reported success what a call with that batch answered, every intermediate response what a call with a
   larger batch raised, and there are as many of them as calls.
   */
  lemma {:induction false} EveryReportIsOfACall<T(!new), R(!new), E(!new)>(inputs: seq<T>, action: Action<T, R, E>, calls: nat)
    ensures ReportsCalls(Bisect(inputs, action, calls), action, calls)
    decreases |inputs|
  {
    hide Bisect, ReportsCalls;
    if |inputs| <= 1 || action(calls, inputs).Done? {
      OneCallReports(inputs, action, calls);
    } else {
      var midpoint := |inputs| / 2;
      var _, left, right := BisectSplits(inputs, action, calls);
      var first := calls + 1;
      var next := first + |left.sent|;
      EveryReportIsOfACall(inputs[..midpoint], action, first);
      EveryReportIsOfACall(inputs[midpoint..], action, next);
      HalvesReportCalls(inputs, left, right, Bisect(inputs, action, calls), action, calls, first, next);
    }
  }

  function Select<T(==)>(inputs: seq<T>, bad: set<T>, keepBad: bool): seq<T> {
    if inputs == [] then []
    else IfBad(inputs[0], bad, keepBad) + Select(inputs[1..], bad, keepBad)
  }

  function IfBad<T(==)>(input: T, bad: set<T>, keepBad: bool): seq<T> {
    if (input in bad) == keepBad then [input] else []
  }

  lemma {:induction false} SelectConcat<T>(a: seq<T>, b: seq<T>, bad: set<T>, keepBad: bool)
    ensures Select(a + b, bad, keepBad) == Select(a, bad, keepBad) + Select(b, bad, keepBad)
    decreases a
  {
    hide IfBad;
    if a == [] {
      assert a + b == b;
    } else {
      SelectConcat(a[1..], b, bad, keepBad);
      assert (a + b)[1..] == a[1..] + b;
      assert Select(a + b, bad, keepBad) == IfBad(a[0], bad, keepBad) + Select(a[1..] + b, bad, keepBad);
      hide Select;
      ConcatAssociates(IfBad(a[0], bad, keepBad), Select(a[1..], bad, keepBad), Select(b, bad, keepBad));
    }
  }

  lemma {:induction false} SelectNothingBad<T>(inputs: seq<T>, bad: set<T>)
    ensures Select(inputs, bad, true) == [] <==> forall x | x in inputs :: x !in bad
    ensures Select(inputs, bad, true) == [] ==> Select(inputs, bad, false) == inputs
    decreases inputs
  {
    if inputs != [] {
      SelectNothingBad(inputs[1..], bad);
      assert inputs == [inputs[0]] + inputs[1..];
    }
  }

  /** The action fails exactly on the batches that hold a bad input. */
  ghost predicate FailsOn<T(!new), R(!new), E(!new)>(action: Action<T, R, E>, bad: set<T>) {
    forall calls: nat, batch: seq<T> :: action(calls, batch).Raised? <==> exists x | x in batch :: x in bad
  }

  lemma FailsOnBatch<T(!new), R(!new), E(!new)>(action: Action<T, R, E>, bad: set<T>, calls: nat, batch: seq<T>)
    requires FailsOn(action, bad)
    ensures action(calls, batch).Raised? <==> Select(batch, bad, true) != []
  {
    SelectNothingBad(batch, bad);
  }

  function CeilLog2(n: nat): nat {
    if n <= 1 then 0 else 1 + CeilLog2((n + 1) / 2)
  }

  lemma {:induction false} CeilLog2Monotone(m: nat, n: nat)
    requires m <= n
    ensures CeilLog2(m) <= CeilLog2(n)
    decreases n
  {
    if m > 1 {
      CeilLog2Monotone((m + 1) / 2, (n + 1) / 2);
    }
  }

  /** The most calls that finding `k` bad inputs among `n` can take. */
  function CallsAtMost(k: nat, n: nat): nat {
    2 * k * CeilLog2(n) + 1
  }

  /** Exactly the bad inputs failed and exactly the others succeeded, in order, within few calls. */
  ghost predicate FindsBad<T(!new), R(!new), E(!new)>(inputs: seq<T>, r: Responses<T, R, E>, bad: set<T>) {
    && FailedInputs(r.failures) == Select(inputs, bad, true)
    && SucceededInputs(r.successes) == Select(inputs, bad, false)
    && |r.sent| <= CallsAtMost(|Select(inputs, bad, true)|, |inputs|)
  }

  /** The two halves of a batch that failed, and what retrying them gives. */
  lemma BisectHalves<T, R, E>(inputs: seq<T>, action: Action<T, R, E>, calls: nat)
    returns (l: seq<T>, u: seq<T>, left: Responses<T, R, E>, right: Responses<T, R, E>, next: nat)
    requires |inputs| > 1 && action(calls, inputs).Raised?
    ensures l + u == inputs && 1 <= |l| <= |u| <= |l| + 1
    ensures left == Bisect(l, action, calls + 1) && right == Bisect(u, action, next)
    ensures var r := Bisect(inputs, action, calls);
            && r.successes == left.successes + right.successes && r.failures == left.failures + right.failures
            && |r.sent| == 1 + |left.sent| + |right.sent|
  {
    hide Bisect;
    var error;
    l, u := inputs[..|inputs| / 2], inputs[|inputs| / 2..];
    error, left, right := BisectSplits(inputs, action, calls);
    next := calls + 1 + |left.sent|;
  }

  /** A batch that is not split: it is empty, or succeeds, or is a single input that fails. */
  lemma OneCallFindsBad<T(!new), R(!new), E(!new)>(inputs: seq<T>, action: Action<T, R, E>, calls: nat, bad: set<T>)
    requires FailsOn(action, bad) && (|inputs| <= 1 || action(calls, inputs).Done?)
    ensures FindsBad(inputs, Bisect(inputs, action, calls), bad)
  {
    FailsOnBatch(action, bad, calls, inputs);
    hide FailsOn, Select, FindsBad, Bisect;
    BisectStops(inputs, action, calls);
    if inputs == [] {
      NothingFindsBad(Bisect(inputs, action, calls), bad);
    } else if action(calls, inputs).Done? {
      SuccessFindsBad(inputs, Bisect(inputs, action, calls), action(calls, inputs).response, bad);
    } else {
      assert inputs == [inputs[0]];
      FailureFindsBad(inputs[0], Bisect(inputs, action, calls), action(calls, inputs).error, bad);
    }
  }

  lemma NothingFindsBad<T(!new), R(!new), E(!new)>(r: Responses<T, R, E>, bad: set<T>)
    requires r.successes == [] && r.failures == [] && r.sent == []
    ensures FindsBad([], r, bad)
  {
    NoInputs<T, R, E>(bad);
    hide Select, SucceededInputs, FailedInputs;
  }

  lemma SuccessFindsBad<T(!new), R(!new), E(!new)>(inputs: seq<T>, r: Responses<T, R, E>, response: R, bad: set<T>)
    requires Select(inputs, bad, true) == []
    requires r.successes == [Success(inputs, response)] && r.failures == [] && |r.sent| == 1
    ensures FindsBad(inputs, r, bad)
  {
    SelectNothingBad(inputs, bad);
    hide Select;
    NoInputs<T, R, E>(bad);
    OneSuccess(inputs, response);
    hide SucceededInputs, FailedInputs;
  }

  lemma FailureFindsBad<T(!new), R(!new), E(!new)>(input: T, r: Responses<T, R, E>, error: E, bad: set<T>)
    requires Select([input], bad, true) != []
    requires r.successes == [] && r.failures == [Failure(input, error)] && |r.sent| == 1
    ensures FindsBad([input], r, bad)
  {
    SelectOne(input, bad);
    hide Select;
    NoInputs<T, R, E>(bad);
    OneFailure(input, error);
    hide SucceededInputs, FailedInputs;
  }

  lemma NoInputs<T, R, E>(bad: set<T>)
    ensures SucceededInputs<T, R>([]) == [] && FailedInputs<T, E>([]) == []
    ensures Select([], bad, true) == [] && Select([], bad, false) == []
  {
  }

  lemma OneSuccess<T, R>(inputs: seq<T>, response: R)
    ensures SucceededInputs([Success(inputs, response)]) == inputs
  {
    assert [Success(inputs, response)][1..] == [];
  }

  lemma OneFailure<T, E>(input: T, error: E)
    ensures FailedInputs([Failure(input, error)]) == [input]
  {
    assert [Failure(input, error)][1..] == [];
  }

  lemma SelectOne<T>(input: T, bad: set<T>)
    ensures Select([input], bad, true) == IfBad(input, bad, true) && Select([input], bad, false) == IfBad(input, bad, false)
  {
    assert [input][1..] == [];
  }

  lemma HalvesFindBad<T(!new), R(!new), E(!new)>(
    l: seq<T>, u: seq<T>, left: Responses<T, R, E>, right: Responses<T, R, E>, r: Responses<T, R, E>, bad: set<T>)
    requires 1 <= |l| <= |u| <= |l| + 1 && Select(l + u, bad, true) != []
    requires FindsBad(l, left, bad) && FindsBad(u, right, bad)
    requires r.successes == left.successes + right.successes && r.failures == left.failures + right.failures
    requires |r.sent| == 1 + |left.sent| + |right.sent|
    ensures FindsBad(l + u, r, bad)
  {
    hide Select, SucceededInputs, FailedInputs, CallsAtMost;
    SucceededConcat(left.successes, right.successes);
    FailedConcat(left.failures, right.failures);
    SelectConcat(l, u, bad, true);
    SelectConcat(l, u, bad, false);
    CallsAddUp(|Select(l, bad, true)|, |Select(u, bad, true)|, |Select(l + u, bad, true)|, |l|, |u|, |l + u|);
  }

  /**
   With bad inputs, exactly they are reported as failed and exactly the others succeed, in order; with
   `k` of them among `n` inputs the action is called at most 2 * k * ceil(log2 n) + 1 times.
   */
  lemma {:induction false} BadInputsAreFound<T(!new), R(!new), E(!new)>(
    inputs: seq<T>, action: Action<T, R, E>, calls: nat, bad: set<T>)
    requires FailsOn(action, bad)
    ensures FindsBad(inputs, Bisect(inputs, action, calls), bad)
    decreases |inputs|
  {
    hide Bisect, FailsOn, FindsBad, Select;
    if |inputs| <= 1 || action(calls, inputs).Done? {
      OneCallFindsBad(inputs, action, calls, bad);
    } else {
      FailsOnBatch(action, bad, calls, inputs);
      var l, u, left, right, next := BisectHalves(inputs, action, calls);
      BadInputsAreFound(l, action, calls + 1, bad);
      BadInputsAreFound(u, action, next, bad);
      HalvesFindBad(l, u, left, right, Bisect(inputs, action, calls), bad);
    }
  }

  lemma CallsAddUp(k: nat, k': nat, both: nat, m: nat, m': nat, n: nat)
    requires 1 <= m <= m' <= m + 1 && m + m' == n && k + k' == both && both >= 1
    ensures 1 + CallsAtMost(k, m) + CallsAtMost(k', m') <= CallsAtMost(both, n)
  {
    CeilLog2Monotone(m, m');
    assert (m + m' + 1) / 2 == m';
    assert CeilLog2(m + m') == 1 + CeilLog2(m');
    hide CeilLog2;
    OneLevelDeeper(k, k', CeilLog2(m), CeilLog2(m'));
  }

  lemma OneLevelDeeper(k: nat, k': nat, depth: nat, depth': nat)
    requires k + k' >= 1 && depth <= depth'
    ensures 2 * k * depth + 2 * k' * depth' + 3 <= 2 * (k + k') * (depth' + 1) + 1
  {
    assert k * depth <= k * depth';
    assert 2 * (k + k') * (depth' + 1) == 2 * k * depth' + 2 * k' * depth' + 2 * (k + k');
  }
}
