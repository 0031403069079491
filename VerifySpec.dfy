/** Reference semantics of a composite task's verification pass, with the
    asynchronous runtime stripped away: the base hook runs first, the children
    are launched in captured order with a cancellation check before each launch,
    and the launched verifications are joined when the loop ends normally. */
module VerifySpec {

  /** Terminal state of one verification. */
  datatype Outcome = Succeeded | Failed | Cancelled

  datatype Option<T> = None | Some(value: T)

  /** The cancellation token of the shared context, seen from the launch loop.
      Poll `i` is the check made just before child `i` is launched. If the
      signal is raised before poll `k`, every poll from `k` on sees it: once
      tripped, the token never un-cancels. */
  datatype CancellationToken = CancellationToken(raisedBeforePoll: Option<nat>) {
    predicate IsCancellationRequested(poll: nat) {
      raisedBeforePoll.Some? && raisedBeforePoll.value <= poll
    }
  }

  /** Observable steps of one verification, in the order they happen. */
  datatype Event =
    | BaseHook            // the inherited verification hook ran
    | Poll(index: nat)    // the token was checked before child `index`
    | Launch(index: nat)  // child `index` had its verification started
    | Join                // the launched verifications were awaited together

  /** What the launch loop did from some child index on. */
  datatype Launches<T> = Launches(launched: seq<T>, trace: seq<Event>, cancelled: bool)

  /** The whole verification: its outcome, the children launched, and the events. */
  datatype Run<T> = Run(outcome: Outcome, launched: seq<T>, trace: seq<Event>)

  /** Joining verifications that run concurrently: a faulted one faults the
      join, otherwise a cancelled one cancels it, otherwise it succeeds. */
  function WhenAll(outcomes: seq<Outcome>): (r: Outcome)
    ensures r == Succeeded <==> forall k :: 0 <= k < |outcomes| ==> outcomes[k] == Succeeded
    ensures r == Failed <==> exists k :: 0 <= k < |outcomes| && outcomes[k] == Failed
  {
    if outcomes == [] then Succeeded
    else
      var rest := WhenAll(outcomes[1..]);
      if outcomes[0] == Failed || rest == Failed then Failed
      else if outcomes[0] == Cancelled || rest == Cancelled then Cancelled
      else Succeeded
  }

  /** The outcomes of the first `n` verifications started, in launch order. */
  function LaunchOutcomes(n: nat, verify: nat -> Outcome): seq<Outcome> {
    seq(n, k requires 0 <= k < n => verify(k))
  }

  /** The launch loop, from child `i` to the end: poll the token, stop at once
      if it is set, otherwise launch child `i` and go on with the next. */
  function LaunchFrom<T>(children: seq<T>, token: CancellationToken, i: nat): (r: Launches<T>)
    requires i <= |children|
    ensures i + |r.launched| <= |children|
    ensures forall j :: 0 <= j < |r.launched| ==> r.launched[j] == children[i + j]
    decreases |children| - i
  {
    if i == |children| then Launches([], [], false)
    else if token.IsCancellationRequested(i) then Launches([], [Poll(i)], true)
    else
      var rest := LaunchFrom(children, token, i + 1);
      Launches([children[i]] + rest.launched, [Poll(i), Launch(i)] + rest.trace, rest.cancelled)
  }

  /** A composite's verification: the base hook's outcome `baseHook` ends the
      run if it is not a success; a cancellation seen in the loop ends it as
      cancelled without waiting for the children already launched; otherwise
      the launched children are joined. `verify(k)` is the outcome of the
      verification started for list entry `k`, so a child listed twice can
      end differently each time. */
  function Verification<T>(children: seq<T>, token: CancellationToken, baseHook: Outcome,
                           verify: nat -> Outcome): (r: Run<T>)
    ensures |r.launched| <= |children| && r.launched == children[..|r.launched|]
    ensures |r.trace| > 0 && r.trace[0] == BaseHook
  {
    if baseHook != Succeeded then Run(baseHook, [], [BaseHook])
    else
      var loop := LaunchFrom(children, token, 0);
      if loop.cancelled then Run(Cancelled, loop.launched, [BaseHook] + loop.trace)
      else Run(WhenAll(LaunchOutcomes(|loop.launched|, verify)), loop.launched, [BaseHook] + loop.trace + [Join])
  }

  /** The index of the first poll in `[i, n)` that sees the token set, if any. */
  function FirstCancellation(token: CancellationToken, i: nat, n: nat): (r: Option<nat>)
    ensures r.Some? ==> i <= r.value < n && token.IsCancellationRequested(r.value)
    ensures r.Some? ==> forall k :: i <= k < r.value ==> !token.IsCancellationRequested(k)
    ensures r.None? ==> forall k :: i <= k < n ==> !token.IsCancellationRequested(k)
  {
    match token.raisedBeforePoll
    case None => None
    case Some(c) => if n <= i || n <= c then None else if c <= i then Some(i) else Some(c)
  }

  // ---------------------------------------------------------------------------
  // Properties of the launch loop

  /** One step of the launch loop: a poll that does not see the token is
      followed by the launch of that child and the rest of the loop. */
  lemma LaunchStep<T>(children: seq<T>, token: CancellationToken, i: nat)
    requires i < |children| && !token.IsCancellationRequested(i)
    ensures var r, rest := LaunchFrom(children, token, i), LaunchFrom(children, token, i + 1);
      r.launched == [children[i]] + rest.launched && r.trace == [Poll(i), Launch(i)] + rest.trace &&
      r.cancelled == rest.cancelled
  {
  }

  /** The loop stops exactly at the first poll that sees the token set, and
      launches every remaining child when no poll does. */
  lemma {:induction false} LaunchStopsAtFirstCancellation<T>(children: seq<T>, token: CancellationToken, i: nat)
    requires i <= |children|
    ensures var r := LaunchFrom(children, token, i);
      var first := FirstCancellation(token, i, |children|);
      (r.cancelled <==> first.Some?) &&
      (first.Some? ==> r.launched == children[i..first.value]) &&
      (first.None? ==> r.launched == children[i..])
    decreases |children| - i
  {
    var r := LaunchFrom(children, token, i);
    assert r.launched == children[i..i + |r.launched|];
    if i < |children| && !token.IsCancellationRequested(i) {
      LaunchStopsAtFirstCancellation(children, token, i + 1);
    }
  }

  /** Every launch is preceded by its own poll, children are launched by
      increasing index, each once, and a cancelled loop ends on the poll that
      saw the token set. The loop itself never joins. */
  lemma {:induction false} LaunchTrace<T>(children: seq<T>, token: CancellationToken, i: nat)
    requires i <= |children|
    ensures var r := LaunchFrom(children, token, i);
      |r.trace| == 2 * |r.launched| + (if r.cancelled then 1 else 0) &&
      (forall j :: 0 <= j < |r.launched| ==> r.trace[2 * j] == Poll(i + j) && r.trace[2 * j + 1] == Launch(i + j)) &&
      (r.cancelled ==> r.trace[2 * |r.launched|] == Poll(i + |r.launched|))
    ensures var r := LaunchFrom(children, token, i);
      forall e :: e in r.trace ==> (e.Poll? || e.Launch?) && (e.Launch? ==> i <= e.index < i + |r.launched|)
    decreases |children| - i
  {
    if i < |children| && !token.IsCancellationRequested(i) {
      LaunchTrace(children, token, i + 1);
      var r, rest := LaunchFrom(children, token, i), LaunchFrom(children, token, i + 1);
      forall j | 1 <= j < |r.launched|
        ensures r.trace[2 * j] == Poll(i + j) && r.trace[2 * j + 1] == Launch(i + j)
      {
        assert r.trace[2 * j] == rest.trace[2 * (j - 1)];
        assert r.trace[2 * j + 1] == rest.trace[2 * (j - 1) + 1];
      }
    }
  }

  // ---------------------------------------------------------------------------
  // Properties of a whole verification

  /** The base hook is the first event, and a base hook that does not succeed
      ends the verification with its own outcome before any child is launched. */
  lemma BaseHookRunsFirst<T>(children: seq<T>, token: CancellationToken, baseHook: Outcome, verify: nat -> Outcome)
    ensures var run := Verification(children, token, baseHook, verify);
      run.trace[0] == BaseHook &&
      (baseHook != Succeeded ==> run.outcome == baseHook && run.launched == [] && run.trace == [BaseHook])
  {
  }

  /** The launched children are always a prefix of the child list, launched in
      list order, each entry once: the k-th launch event names child k, right
      after the poll for child k. */
  lemma {:induction false} LaunchedInOrder<T>(children: seq<T>, token: CancellationToken, baseHook: Outcome,
                                              verify: nat -> Outcome)
    ensures var run := Verification(children, token, baseHook, verify);
      |run.launched| <= |children| && run.launched == children[..|run.launched|] &&
      2 * |run.launched| + 1 <= |run.trace| &&
      (forall j :: 0 <= j < |run.launched| ==> run.trace[2 * j + 1] == Poll(j) && run.trace[2 * j + 2] == Launch(j)) &&
      (forall e :: e in run.trace && e.Launch? ==> e.index < |run.launched|)
  {
    if baseHook == Succeeded {
      var loop := LaunchFrom(children, token, 0);
      LaunchTrace(children, token, 0);
      var run := Verification(children, token, baseHook, verify);
      forall j | 0 <= j < |run.launched|
        ensures run.trace[2 * j + 1] == Poll(j) && run.trace[2 * j + 2] == Launch(j)
      {
        assert run.trace[2 * j + 1] == loop.trace[2 * j];
        assert run.trace[2 * j + 2] == loop.trace[2 * j + 1];
      }
    }
  }

  /** When the base hook succeeds and cancellation is first seen before child
      `c`: the verification ends as cancelled, children `c` and later are
      never launched, and the children already launched are not awaited (no
      join happens). */
  lemma {:induction false} CancellationStopsLaunching<T>(children: seq<T>, token: CancellationToken, verify: nat -> Outcome,
                                                         c: nat)
    requires token.raisedBeforePoll == Some(c) && c < |children|
    ensures var run := Verification(children, token, Succeeded, verify);
      run.outcome == Cancelled && run.launched == children[..c] && Join !in run.trace &&
      run.trace[|run.trace| - 1] == Poll(c)
  {
    LaunchStopsAtFirstCancellation(children, token, 0);
    LaunchTrace(children, token, 0);
  }

  /** A token raised before the verification starts means a non-empty
      composite launches no child. The base hook still runs first, so a hook
      that does not succeed decides the outcome; otherwise it is cancelled. */
  lemma CancelledBeforeVerify<T>(children: seq<T>, baseHook: Outcome, verify: nat -> Outcome)
    requires |children| > 0
    ensures var run := Verification(children, CancellationToken(Some(0)), baseHook, verify);
      run.launched == [] && run.outcome == (if baseHook == Succeeded then Cancelled else baseHook)
  {
    if baseHook == Succeeded {
      CancellationStopsLaunching(children, CancellationToken(Some(0)), verify, 0);
    }
  }

  /** With no cancellation seen in the loop, every child is launched, the
      launched verifications are joined last, and the composite succeeds
      exactly when every child's verification succeeds. */
  lemma {:induction false} UncancelledLaunchesAll<T>(children: seq<T>, token: CancellationToken, verify: nat -> Outcome)
    requires FirstCancellation(token, 0, |children|).None?
    ensures var run := Verification(children, token, Succeeded, verify);
      run.launched == children && run.trace[|run.trace| - 1] == Join &&
      (run.outcome == Succeeded <==> forall k :: 0 <= k < |children| ==> verify(k) == Succeeded) &&
      (run.outcome == Failed <==> exists k :: 0 <= k < |children| && verify(k) == Failed)
  {
    LaunchStopsAtFirstCancellation(children, token, 0);
    assert children[0..] == children;
    assert forall k :: 0 <= k < |children| ==> LaunchOutcomes(|children|, verify)[k] == verify(k);
  }

  /** A verification succeeds if and only if the base hook succeeds, no poll
      in the loop sees the token set, and every child's verification succeeds. */
  lemma {:induction false} SucceedsIffAllSucceed<T>(children: seq<T>, token: CancellationToken, baseHook: Outcome,
                                                    verify: nat -> Outcome)
    ensures Verification(children, token, baseHook, verify).outcome == Succeeded <==>
      baseHook == Succeeded &&
      (forall k :: 0 <= k < |children| ==> !token.IsCancellationRequested(k)) &&
      (forall k :: 0 <= k < |children| ==> verify(k) == Succeeded)
  {
    LaunchStopsAtFirstCancellation(children, token, 0);
    assert children[0..] == children;
    assert forall k :: 0 <= k < |children| ==> LaunchOutcomes(|children|, verify)[k] == verify(k);
  }

  /** An empty composite never consults the token: it polls nothing, launches
      nothing, and ends with the base hook's outcome even when the token is set. */
  lemma EmptyCompositeNeverPolls<T>(token: CancellationToken, baseHook: Outcome, verify: nat -> Outcome)
    ensures var run := Verification<T>([], token, baseHook, verify);
      run.outcome == baseHook && run.launched == [] && forall e :: e in run.trace ==> !e.Poll?
  {
  }
}
