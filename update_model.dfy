/**
 * The update-request arbiter (`UpdateController` in js/update_controller.js)
 * as pure transitions on its state.
 *
 * Each `setTimeout` the source performs becomes a `Timer` appended to the
 * state's pending list; the host runs pending timers in any order (the delay
 * is recorded but no clock is modelled), which is sound because every handler
 * re-reads the state when it runs. Each invocation of the redraw callback or
 * of the single-node notifier is appended to the `calls` log.
 */
module UpdateModel {
  import opened Wrappers

  type NodeId = int

  /** The `controller` a request is about; `AllControllers` is the absent argument. */
  datatype Scope = AllControllers | Controller(index: int)

  /** What a pending timer runs when it fires. */
  datatype Action =
    | DelayedRequest(cause: string, noretry: bool, scope: Scope)  // make_request(cause, null, noretry, controller)
    | DeferredRequest(cause: string, scope: Scope)                // deferred_request(cause, controller)
    | OnChangeTick                                                // OnChangeController._on_change()

  datatype Timer = Timer(delay: int, action: Action)

  /** An externally visible effect: `callback(controller)` or `single_node(id, info)`. */
  datatype Call = Redraw(scope: Scope) | SingleNode(id: NodeId, info: string)

  /**
   * What the arbiter reads but never changes: the two `Timings` constants and the
   * `permission` function installed by `setup`, whose result is an integer wait
   * (0 proceed, positive retry after that many ms, negative refuse).
   */
  datatype Env = Env(pauseStackWait: int, onChangeWait: int, permission: Scope -> int)

  /** The static fields `pause_stack`, `_configuring`, `requesting`, plus timers and effects. */
  datatype ArbiterState = ArbiterState(
    pauseStack: int,
    configuring: bool,
    requesting: bool,
    timers: seq<Timer>,
    calls: seq<Call>)

  /** The wait the arbiter assigns itself while the graph is configuring. */
  const CONFIGURING_WAIT: int := -2

  /** JavaScript truthiness of the `after_ms` argument: absent, null and 0 are false. */
  predicate Truthy(afterMs: Option<int>) {
    afterMs.Some? && afterMs.value != 0
  }

  predicate IsRetry(a: Action) { a.DeferredRequest? }
  predicate IsTick(a: Action) { a.OnChangeTick? }

  /** Number of pending timers whose action satisfies `p`. */
  function Count(ts: seq<Timer>, p: Action -> bool): (n: nat)
    ensures n <= |ts|
    ensures n == 0 <==> forall i :: 0 <= i < |ts| ==> !p(ts[i].action)
  {
    if ts == [] then 0
    else
      var rest := Count(ts[1..], p);
      assert forall i :: 1 <= i < |ts| ==> ts[i] == ts[1..][i - 1];
      (if p(ts[0].action) then 1 else 0) + rest
  }

  /** The pending list once the timer at index `i` has fired. */
  function RemoveAt(ts: seq<Timer>, i: nat): (r: seq<Timer>)
    requires i < |ts|
    ensures |r| == |ts| - 1
    ensures forall j :: 0 <= j < i ==> r[j] == ts[j]
    ensures forall j :: i <= j < |r| ==> r[j] == ts[j + 1]
  {
    ts[..i] + ts[i + 1..]
  }

  lemma {:induction false} CountAppend(ts: seq<Timer>, us: seq<Timer>, p: Action -> bool)
    ensures Count(ts + us, p) == Count(ts, p) + Count(us, p)
  {
    if ts == [] {
      assert ts + us == us;
    } else {
      assert (ts + us)[1..] == ts[1..] + us;
      CountAppend(ts[1..], us, p);
    }
  }

  lemma {:induction false} CountRemove(ts: seq<Timer>, i: nat, p: Action -> bool)
    requires i < |ts|
    ensures Count(RemoveAt(ts, i), p) + (if p(ts[i].action) then 1 else 0) == Count(ts, p)
  {
    if i == 0 {
      assert RemoveAt(ts, 0) == ts[1..];
    } else {
      var rest := RemoveAt(ts[1..], i - 1);
      assert RemoveAt(ts, i) == [ts[0]] + rest;
      assert ([ts[0]] + rest)[1..] == rest;
      CountRemove(ts[1..], i - 1, p);
    }
  }

  /**
   * The single-flight invariant: `requesting` is set exactly when one
   * `deferred_request` timer is pending, so at most one retry is ever armed.
   */
  ghost predicate SingleFlight(s: ArbiterState) {
    Count(s.timers, IsRetry) == if s.requesting then 1 else 0
  }

  /**
   * The wait computed by make_request's three guarded assignments: pause first,
   * then configuring, and only when neither set a nonzero wait, the permission.
   */
  function WaitTime(s: ArbiterState, env: Env, scope: Scope): (w: int)
    ensures s.pauseStack > 0 && env.pauseStackWait != 0 ==> w == env.pauseStackWait
    ensures !(s.pauseStack > 0 && env.pauseStackWait != 0) && s.configuring ==> w == CONFIGURING_WAIT
    ensures !(s.pauseStack > 0 && env.pauseStackWait != 0) && !s.configuring ==> w == env.permission(scope)
  {
    var afterPause := if s.pauseStack > 0 then env.pauseStackWait else 0;
    var afterConfiguring := if afterPause == 0 && s.configuring then CONFIGURING_WAIT else afterPause;
    if afterConfiguring == 0 then env.permission(scope) else afterConfiguring
  }

  /** The reason logged when no retry is armed; a later guard overrides an earlier one. */
  datatype DropReason = NegativeWait | NoRetrySet | RetryPending

  /** The four outcomes of one make_request call. */
  datatype Decision =
    | Reschedule(delay: int)  // the whole request is re-run after after_ms
    | Invoke                  // callback(controller) now
    | Arm(wait: int)          // one deferred_request timer
    | Drop(reason: DropReason)

  function Decide(s: ArbiterState, env: Env, afterMs: Option<int>, noretry: bool, scope: Scope): (d: Decision)
    ensures Truthy(afterMs) <==> d.Reschedule?
    ensures d.Reschedule? ==> d.delay == afterMs.value
    ensures d == Invoke <==> !Truthy(afterMs) && WaitTime(s, env, scope) == 0
    ensures d.Arm? <==> !Truthy(afterMs) && WaitTime(s, env, scope) > 0 && !noretry && !s.requesting
    ensures d.Arm? ==> d.wait == WaitTime(s, env, scope)
    ensures d.Drop? && s.requesting ==> d.reason == RetryPending
    ensures d.Drop? && !s.requesting && noretry ==> d.reason == NoRetrySet
    ensures d.Drop? && !s.requesting && !noretry ==> d.reason == NegativeWait && WaitTime(s, env, scope) < 0
  {
    if Truthy(afterMs) then Reschedule(afterMs.value)
    else
      var wait := WaitTime(s, env, scope);
      if wait == 0 then Invoke
      else if s.requesting then Drop(RetryPending)
      else if noretry then Drop(NoRetrySet)
      else if wait < 0 then Drop(NegativeWait)
      else Arm(wait)
  }

  /** make_request(cause, after_ms, noretry, controller). */
  function Request(s: ArbiterState, env: Env, cause: string, afterMs: Option<int>, noretry: bool, scope: Scope): (r: ArbiterState)
    ensures r.pauseStack == s.pauseStack && r.configuring == s.configuring
    // a truthy delay only schedules the same request, with the delay cleared, for later
    ensures Truthy(afterMs) ==>
      r == s.(timers := s.timers + [Timer(afterMs.value, DelayedRequest(cause, noretry, scope))])
    // the callback runs now exactly when the wait is 0, and then no timer is armed
    ensures r.calls == s.calls || r.calls == s.calls + [Redraw(scope)]
    ensures r.calls == s.calls + [Redraw(scope)] <==> Decide(s, env, afterMs, noretry, scope) == Invoke
    ensures Decide(s, env, afterMs, noretry, scope) == Invoke ==> r.timers == s.timers && r.requesting == s.requesting
    // a retry is armed only from a positive wait, without noretry, and when none is pending
    ensures Decide(s, env, afterMs, noretry, scope).Arm? ==>
      r.requesting && r.timers == s.timers + [Timer(WaitTime(s, env, scope), DeferredRequest(cause, scope))]
    ensures Decide(s, env, afterMs, noretry, scope).Drop? ==> r == s
    // while configuring and not paused, nothing is redrawn and no retry is armed
    ensures s.configuring && !(s.pauseStack > 0 && env.pauseStackWait != 0) ==>
      r.calls == s.calls && r.requesting == s.requesting && Count(r.timers, IsRetry) == Count(s.timers, IsRetry)
    ensures SingleFlight(s) ==> SingleFlight(r)
    ensures Count(r.timers, IsTick) == Count(s.timers, IsTick)
  {
    match Decide(s, env, afterMs, noretry, scope)
    case Reschedule(ms) =>
      var t := Timer(ms, DelayedRequest(cause, noretry, scope));
      CountAppend(s.timers, [t], IsRetry);
      CountAppend(s.timers, [t], IsTick);
      s.(timers := s.timers + [t])
    case Invoke =>
      s.(calls := s.calls + [Redraw(scope)])
    case Arm(wait) =>
      var t := Timer(wait, DeferredRequest(cause, scope));
      CountAppend(s.timers, [t], IsRetry);
      CountAppend(s.timers, [t], IsTick);
      s.(requesting := true, timers := s.timers + [t])
    case Drop(_) =>
      s
  }

  /** make_request_unless_configuring: ignored outright while configuring. */
  function RequestUnlessConfiguring(s: ArbiterState, env: Env, cause: string, afterMs: Option<int>, noretry: bool, scope: Scope): (r: ArbiterState)
    ensures s.configuring ==> r == s
    ensures !s.configuring ==> r == Request(s, env, cause, afterMs, noretry, scope)
  {
    if s.configuring then s else Request(s, env, cause, afterMs, noretry, scope)
  }

  /**
   * deferred_request(cause, controller), run once its own timer has left the
   * pending list: `requesting` is cleared first, so the re-issued request,
   * which carries no delay and no noretry, may arm a fresh retry.
   */
  function Deferred(s: ArbiterState, env: Env, cause: string, scope: Scope): (r: ArbiterState)
    ensures r == Request(s.(requesting := false), env, cause, None, false, scope)
    ensures Count(s.timers, IsRetry) == 0 ==> SingleFlight(r)
    ensures r.requesting ==> r.timers == s.timers + [Timer(WaitTime(s, env, scope), DeferredRequest(cause, scope))]
    ensures WaitTime(s, env, scope) > 0 ==> r.requesting
  {
    Request(s.(requesting := false), env, cause, None, false, scope)
  }

  /**
   * A truthy `after_ms` decides nothing: the outcome does not depend on the
   * pause stack, the configuring flag, the retry flag or the permission.
   */
  lemma DelayedRequestReadsNoState(s: ArbiterState, t: ArbiterState, env: Env, env': Env,
                                   cause: string, afterMs: Option<int>, noretry: bool, scope: Scope)
    requires Truthy(afterMs) && s.timers == t.timers && s.calls == t.calls
    ensures Request(s, env, cause, afterMs, noretry, scope).timers == Request(t, env', cause, afterMs, noretry, scope).timers
    ensures Request(s, env, cause, afterMs, noretry, scope).requesting == s.requesting
  {
  }

  /** A pending pause wins over configuring and over the permission, whatever the permission says. */
  lemma PauseTakesPrecedence(s: ArbiterState, env: Env, p: Scope -> int, cause: string, noretry: bool, scope: Scope)
    requires s.pauseStack > 0 && env.pauseStackWait > 0
    ensures Request(s, env, cause, None, noretry, scope) == Request(s, env.(permission := p), cause, None, noretry, scope)
    ensures Request(s, env, cause, None, noretry, scope).calls == s.calls
  {
  }

  /** The same scope requested once per cause, in order, with no delay and no noretry. */
  function RequestAll(s: ArbiterState, env: Env, causes: seq<string>, scope: Scope): ArbiterState
    decreases |causes|
  {
    if causes == [] then s else RequestAll(Request(s, env, causes[0], None, false, scope), env, causes[1..], scope)
  }

  /** While a retry is pending and the wait is nonzero, further requests are dropped outright. */
  lemma {:induction false} PendingRetryAbsorbsRequests(s: ArbiterState, env: Env, causes: seq<string>, scope: Scope)
    requires s.requesting && WaitTime(s, env, scope) != 0
    ensures RequestAll(s, env, causes, scope) == s
    decreases |causes|
  {
    if causes != [] {
      assert Request(s, env, causes[0], None, false, scope) == s;
      PendingRetryAbsorbsRequests(s, env, causes[1..], scope);
    }
  }

  /**
   * Single-flight: a burst of requests that all meet a positive wait arms
   * exactly one retry, for the first cause, and redraws nothing.
   */
  lemma BurstArmsOneRetry(s: ArbiterState, env: Env, causes: seq<string>, scope: Scope)
    requires SingleFlight(s) && !s.requesting && |causes| > 0 && WaitTime(s, env, scope) > 0
    ensures var r := RequestAll(s, env, causes, scope);
      && r.requesting && Count(r.timers, IsRetry) == 1 && r.calls == s.calls
      && r.timers == s.timers + [Timer(WaitTime(s, env, scope), DeferredRequest(causes[0], scope))]
  {
    var s1 := Request(s, env, causes[0], None, false, scope);
    assert WaitTime(s1, env, scope) == WaitTime(s, env, scope);
    PendingRetryAbsorbsRequests(s1, env, causes[1..], scope);
  }
}
