/**
 * The change poller (`OnChangeController` in js/update_controller.js) as pure
 * transitions, and the host's timer loop over the arbiter and the poller
 * together.
 */
module ChangeModel {
  import opened Wrappers
  import opened Sequences
  import opened UpdateModel

  /**
   * A graph node as the poller sees it: its current `bgcolor` and `title`
   * and the copies `_controller_bgcolor` / `_controller_title` cached on it.
   * `None` is JavaScript's `undefined`.
   */
  datatype Node = Node(
    id: NodeId,
    bgcolor: Option<string>,
    title: Option<string>,
    cachedBgcolor: Option<string>,
    cachedTitle: Option<string>)

  predicate Differs(n: Node) {
    n.bgcolor != n.cachedBgcolor || n.title != n.cachedTitle
  }

  /** One node after the scan has looked at it: a changed node gets its cache refreshed. */
  function Refresh(n: Node): (r: Node)
    ensures !Differs(r)
    ensures r.id == n.id && r.bgcolor == n.bgcolor && r.title == n.title
    ensures !Differs(n) ==> r == n
  {
    if Differs(n) then n.(cachedBgcolor := n.bgcolor, cachedTitle := n.title) else n
  }

  function RefreshAll(ns: seq<Node>): (r: seq<Node>)
    ensures |r| == |ns|
    ensures forall i :: 0 <= i < |ns| ==> r[i] == Refresh(ns[i])
  {
    seq(|ns|, i requires 0 <= i < |ns| => Refresh(ns[i]))
  }

  function Ids(ns: seq<Node>): (r: seq<NodeId>)
    ensures |r| == |ns|
    ensures forall i :: 0 <= i < |ns| ==> r[i] == ns[i].id
  {
    seq(|ns|, i requires 0 <= i < |ns| => ns[i].id)
  }

  /** The ids the scan pushes onto `changed_nodes`, in graph order. */
  function ChangedIds(ns: seq<Node>): (r: seq<NodeId>)
    ensures |r| <= |ns|
  {
    if ns == [] then []
    else (if Differs(ns[0]) then [ns[0].id] else []) + ChangedIds(ns[1..])
  }

  /** `changed_nodes` holds exactly the ids of the nodes that differed, as a subsequence of the graph. */
  lemma {:induction false} ChangedIdsExact(ns: seq<Node>)
    ensures IsSubsequence(ChangedIds(ns), Ids(ns))
    ensures forall x :: x in ChangedIds(ns) <==> exists i :: 0 <= i < |ns| && ns[i].id == x && Differs(ns[i])
  {
    if ns != [] {
      ChangedIdsExact(ns[1..]);
      assert Ids(ns)[1..] == Ids(ns[1..]);
      if Differs(ns[0]) {
        assert ChangedIds(ns)[1..] == ChangedIds(ns[1..]);
      } else {
        assert ChangedIds(ns) == ChangedIds(ns[1..]);
      }
      forall x
        ensures x in ChangedIds(ns) <==> exists i :: 0 <= i < |ns| && ns[i].id == x && Differs(ns[i])
      {
        if x in ChangedIds(ns) && !(Differs(ns[0]) && ns[0].id == x) {
          assert x in ChangedIds(ns[1..]);
          var j :| 0 <= j < |ns[1..]| && ns[1..][j].id == x && Differs(ns[1..][j]);
          assert ns[j + 1] == ns[1..][j];
        }
        if exists i :: 0 <= i < |ns| && ns[i].id == x && Differs(ns[i]) {
          var i :| 0 <= i < |ns| && ns[i].id == x && Differs(ns[i]);
          if i > 0 {
            assert ns[1..][i - 1] == ns[i];
          }
        }
      }
    }
  }

  /** A scan right after a scan finds nothing: the refresh leaves no node differing. */
  lemma {:induction false} RescanFindsNothing(ns: seq<Node>)
    ensures ChangedIds(RefreshAll(ns)) == []
  {
    if ns != [] {
      assert RefreshAll(ns)[1..] == RefreshAll(ns[1..]);
      RescanFindsNothing(ns[1..]);
    }
  }

  /** The poller's state: `gap_request_stack` and the graph's nodes. */
  datatype Poller = Poller(gap: int, nodes: seq<Node>)

  datatype World = World(arbiter: ArbiterState, poller: Poller)

  /**
   * The two invariants of the timer loop: single-flight retries, and
   * `gap_request_stack` equal to the number of pending `_on_change` ticks.
   */
  ghost predicate WorldInv(w: World) {
    SingleFlight(w.arbiter) && w.poller.gap == Count(w.arbiter.timers, IsTick)
  }

  /** on_change(): one more pending tick, counted in `gap_request_stack`. */
  function OnChange(w: World, env: Env): (r: World)
    ensures r.poller == w.poller.(gap := w.poller.gap + 1)
    ensures r.arbiter == w.arbiter.(timers := w.arbiter.timers + [Timer(env.onChangeWait, OnChangeTick)])
    ensures WorldInv(w) ==> WorldInv(r)
  {
    var t := Timer(env.onChangeWait, OnChangeTick);
    CountAppend(w.arbiter.timers, [t], IsRetry);
    CountAppend(w.arbiter.timers, [t], IsTick);
    World(w.arbiter.(timers := w.arbiter.timers + [t]), w.poller.(gap := w.poller.gap + 1))
  }

  /** What a scan reports: more than one change is a full request, one change a single-node call. */
  function Dispatch(a: ArbiterState, env: Env, changed: seq<NodeId>): (r: ArbiterState)
    ensures |changed| > 1 ==> r == Request(a, env, "on_change, multiple nodes changed", None, false, AllControllers)
    ensures |changed| == 1 ==> r == a.(calls := a.calls + [SingleNode(changed[0], "on_change")])
    ensures |changed| == 0 ==> r == a
  {
    if |changed| > 1 then Request(a, env, "on_change, multiple nodes changed", None, false, AllControllers)
    else if |changed| == 1 then a.(calls := a.calls + [SingleNode(changed[0], "on_change")])
    else a
  }

  /**
   * _on_change(), once its own tick has left the pending list. Only the tick
   * that brings `gap_request_stack` to zero acts; `groupsChanged` is the
   * answer of `GroupManager.check_for_changes()`.
   */
  function Resolve(w: World, env: Env, groupsChanged: bool): (r: World)
    ensures r.poller.gap == w.poller.gap - 1
    ensures w.poller.gap - 1 != 0 ==> r == w.(poller := w.poller.(gap := w.poller.gap - 1))
    ensures w.poller.gap - 1 == 0 && groupsChanged ==>
      r.poller.nodes == w.poller.nodes &&
      r.arbiter == Request(w.arbiter, env, "on_change, change in groups", None, false, AllControllers)
    ensures w.poller.gap - 1 == 0 && !groupsChanged ==>
      r.poller.nodes == RefreshAll(w.poller.nodes) &&
      r.arbiter == Dispatch(w.arbiter, env, ChangedIds(w.poller.nodes))
  {
    var p := w.poller.(gap := w.poller.gap - 1);
    if p.gap != 0 then w.(poller := p)
    else if groupsChanged then
      World(Request(w.arbiter, env, "on_change, change in groups", None, false, AllControllers), p)
    else
      World(Dispatch(w.arbiter, env, ChangedIds(w.poller.nodes)), p.(nodes := RefreshAll(w.poller.nodes)))
  }

  /** The host runs the pending timer at index `i`; it leaves the list first. */
  function Fire(w: World, env: Env, i: nat, groupsChanged: bool): (r: World)
    requires i < |w.arbiter.timers|
    ensures WorldInv(w) ==> WorldInv(r)
  {
    var ts := w.arbiter.timers;
    var w' := w.(arbiter := w.arbiter.(timers := RemoveAt(ts, i)));
    CountRemove(ts, i, IsRetry);
    CountRemove(ts, i, IsTick);
    match ts[i].action
    case DelayedRequest(cause, noretry, scope) =>
      w'.(arbiter := Request(w'.arbiter, env, cause, None, noretry, scope))
    case DeferredRequest(cause, scope) =>
      w'.(arbiter := Deferred(w'.arbiter, env, cause, scope))
    case OnChangeTick =>
      Resolve(w', env, groupsChanged)
  }

  /**
   * Debounce: while other ticks are still pending, firing a tick only
   * decrements the counter; the scan runs only on the last pending tick.
   */
  lemma TickActsOnlyWhenLast(w: World, env: Env, i: nat, groupsChanged: bool)
    requires WorldInv(w) && i < |w.arbiter.timers| && w.arbiter.timers[i].action == OnChangeTick
    ensures var r := Fire(w, env, i, groupsChanged);
      Count(w.arbiter.timers, IsTick) > 1 ==>
        r.poller.nodes == w.poller.nodes && r.arbiter == w.arbiter.(timers := RemoveAt(w.arbiter.timers, i))
    ensures Count(w.arbiter.timers, IsTick) == 1 && !groupsChanged ==>
      Fire(w, env, i, groupsChanged).poller.nodes == RefreshAll(w.poller.nodes)
  {
    CountRemove(w.arbiter.timers, i, IsTick);
  }

  /**
   * Firing a retry timer consults the arbiter once more: the request it
   * re-issues has no delay and no noretry, and the retry flag is released.
   */
  lemma RetryReissuesRequest(w: World, env: Env, i: nat, groupsChanged: bool)
    requires WorldInv(w) && i < |w.arbiter.timers| && w.arbiter.timers[i].action.DeferredRequest?
    ensures var t := w.arbiter.timers[i].action;
      Fire(w, env, i, groupsChanged).arbiter ==
        Request(w.arbiter.(requesting := false, timers := RemoveAt(w.arbiter.timers, i)), env, t.cause, None, false, t.scope)
    ensures Count(RemoveAt(w.arbiter.timers, i), IsRetry) == 0
  {
    CountRemove(w.arbiter.timers, i, IsRetry);
  }
}
