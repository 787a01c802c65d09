/**
 * The two static classes of js/update_controller.js as Dafny classes whose
 * fields are the source's static fields. Every method is tied to the pure
 * transition of UpdateModel / ChangeModel that specifies it, so the
 * properties proved there hold of these methods.
 */
module Updates {
  import opened Wrappers
  import opened UpdateModel
  import opened ChangeModel

  class UpdateController {
    var pauseStack: int
    var configuring: bool
    var requesting: bool
    /** The `permission` function installed by `setup`. */
    var permission: Scope -> int
    /** `Timings.PAUSE_STACK_WAIT` and `Timings.ON_CHANGE`. */
    const pauseStackWait: int
    const onChangeWait: int
    /** The page's pending `setTimeout` callbacks, in the order they were set. */
    var timers: seq<Timer>
    /** Every call of `callback` and `single_node` so far. */
    var calls: seq<Call>

    function State(): ArbiterState
      reads this
    {
      ArbiterState(pauseStack, configuring, requesting, timers, calls)
    }

    function Environment(): UpdateModel.Env
      reads this
    {
      UpdateModel.Env(pauseStackWait, onChangeWait, permission)
    }

    ghost predicate Valid()
      reads this
    {
      SingleFlight(State())
    }

    /**
     * The static initialisers. The default permission answers `false`, which
     * make_request's `wait_time == 0` test reads as 0, so it is modelled as 0.
     */
    constructor (pauseStackWait: int, onChangeWait: int)
      ensures State() == ArbiterState(0, false, false, [], [])
      ensures this.pauseStackWait == pauseStackWait && this.onChangeWait == onChangeWait
      ensures forall scope :: permission(scope) == 0
      ensures Valid()
    {
      this.pauseStackWait := pauseStackWait;
      this.onChangeWait := onChangeWait;
      pauseStack, configuring, requesting := 0, false, false;
      permission := _ => 0;
      timers, calls := [], [];
    }

    /** setup(callback, permission, single_node); the two callbacks are recorded in `calls` instead. */
    method Setup(permission: Scope -> int)
      modifies this
      ensures State() == old(State()) && this.permission == permission
    {
      this.permission := permission;
    }

    /** push_pause(): no bound is checked. */
    method PushPause()
      modifies this
      ensures State() == old(State()).(pauseStack := old(pauseStack) + 1)
      ensures permission == old(permission)
    {
      pauseStack := pauseStack + 1;
    }

    /** pop_pause(): no clamping, so an unmatched pop drives the counter negative. */
    method PopPause()
      modifies this
      ensures State() == old(State()).(pauseStack := old(pauseStack) - 1)
      ensures permission == old(permission)
    {
      pauseStack := pauseStack - 1;
    }

    /** configuring(v). */
    method Configuring(v: bool)
      modifies this
      ensures State() == old(State()).(configuring := v)
      ensures permission == old(permission)
    {
      configuring := v;
    }

    /** make_request(label, after_ms, noretry, controller); an absent label is "". */
    method MakeRequest(cause: string, afterMs: Option<int>, noretry: bool, scope: Scope)
      modifies this
      ensures State() == Request(old(State()), old(Environment()), cause, afterMs, noretry, scope)
      ensures permission == old(permission)
      ensures old(Valid()) ==> Valid()
    {
      if Truthy(afterMs) {
        timers := timers + [Timer(afterMs.value, DelayedRequest(cause, noretry, scope))];
      } else {
        var wait := 0;
        if wait == 0 && pauseStack > 0 { wait := pauseStackWait; }
        if wait == 0 && configuring { wait := CONFIGURING_WAIT; }
        if wait == 0 { wait := permission(scope); }
        if wait == 0 {
          calls := calls + [Redraw(scope)];
          return;
        }
        var reason: Option<DropReason> := None;
        if wait < 0 { reason := Some(NegativeWait); }
        if noretry { reason := Some(NoRetrySet); }
        if requesting { reason := Some(RetryPending); }
        if reason == None {
          requesting := true;
          timers := timers + [Timer(wait, Action.DeferredRequest(cause, scope))];
        }
      }
    }

    /** make_single_request(label, controller). */
    method MakeSingleRequest(cause: string, scope: Scope)
      modifies this
      ensures State() == Request(old(State()), old(Environment()), cause, None, false, scope)
      ensures permission == old(permission)
    {
      MakeRequest(cause, None, false, scope);
    }

    /** make_request_unless_configuring(label, after_ms, noretry, controller). */
    method MakeRequestUnlessConfiguring(cause: string, afterMs: Option<int>, noretry: bool, scope: Scope)
      modifies this
      ensures State() == RequestUnlessConfiguring(old(State()), old(Environment()), cause, afterMs, noretry, scope)
      ensures old(configuring) ==> unchanged(this)
      ensures permission == old(permission)
    {
      if !configuring {
        MakeRequest(cause, afterMs, noretry, scope);
      }
    }

    /** deferred_request(label, controller): the retry flag is released before the re-check. */
    method DeferredRequest(cause: string, scope: Scope)
      modifies this
      ensures State() == Deferred(old(State()), old(Environment()), cause, scope)
      ensures permission == old(permission)
    {
      requesting := false;
      MakeRequest(cause, None, false, scope);
    }

    /** A call of the `single_node` notifier installed by `setup`. */
    method SingleNode(id: NodeId, info: string)
      modifies this
      ensures State() == old(State()).(calls := old(calls) + [Call.SingleNode(id, info)])
      ensures permission == old(permission)
    {
      calls := calls + [Call.SingleNode(id, info)];
    }

    /** The host takes the pending timer at index `i` off the list to run it. */
    method TakeTimer(i: nat) returns (t: Timer)
      requires i < |timers|
      modifies this
      ensures t == old(timers[i])
      ensures State() == old(State()).(timers := RemoveAt(old(timers), i))
      ensures permission == old(permission)
    {
      t := timers[i];
      timers := timers[..i] + timers[i + 1..];
    }
  }

  class OnChangeController {
    /** The arbiter that the poller's requests go to; its pending list is the page's. */
    const updates: UpdateController
    /** `gap_request_stack`. */
    var gap: int
    /** `app.graph._nodes`, with the poller's cached copies on each node. */
    var nodes: seq<Node>

    function World(): World
      reads this, updates
    {
      ChangeModel.World(updates.State(), Poller(gap, nodes))
    }

    ghost predicate Valid()
      reads this, updates
    {
      WorldInv(World())
    }

    constructor (updates: UpdateController, nodes: seq<Node>)
      ensures this.updates == updates && World() == ChangeModel.World(updates.State(), Poller(0, nodes))
      ensures updates.Valid() && Count(updates.timers, IsTick) == 0 ==> Valid()
    {
      this.updates := updates;
      gap := 0;
      this.nodes := nodes;
    }

    /** The host editor changes the graph (titles, colours, nodes); the caches travel with the nodes. */
    method EditGraph(nodes: seq<Node>)
      modifies this
      ensures World() == old(World()).(poller := Poller(old(gap), nodes))
      ensures old(Valid()) ==> Valid()
    {
      this.nodes := nodes;
    }

    /** on_change(). */
    method OnChange()
      modifies this, updates
      ensures World() == ChangeModel.OnChange(old(World()), old(updates.Environment()))
      ensures updates.permission == old(updates.permission)
    {
      gap := gap + 1;
      updates.timers := updates.timers + [Timer(updates.onChangeWait, OnChangeTick)];
    }

    /** _on_change(), with `groupsChanged` the answer of `GroupManager.check_for_changes()`. */
    /** The scan of lines 98-105: every node's cache refreshed in place, the differing ids collected in order. */
    method ScanNodes() returns (changed: seq<NodeId>)
      modifies this
      ensures nodes == RefreshAll(old(nodes)) && changed == ChangedIds(old(nodes))
      ensures gap == old(gap)
    {
      ghost var before := nodes;
      changed := [];
      var k := 0;
      while k < |nodes|
        invariant 0 <= k <= |nodes| == |before|
        invariant gap == old(gap)
        invariant forall j :: 0 <= j < k ==> nodes[j] == Refresh(before[j])
        invariant forall j :: k <= j < |nodes| ==> nodes[j] == before[j]
        invariant changed + ChangedIds(before[k..]) == ChangedIds(before)
      {
        var n := nodes[k];
        assert before[k..][1..] == before[k + 1..];
        if n.bgcolor != n.cachedBgcolor || n.title != n.cachedTitle {
          changed := changed + [n.id];
          nodes := nodes[k := n.(cachedBgcolor := n.bgcolor, cachedTitle := n.title)];
        }
        k := k + 1;
      }
      assert nodes == RefreshAll(before);
      assert before[|before|..] == [];
    }

    method ResolveChange(groupsChanged: bool)
      modifies this, updates
      ensures World() == Resolve(old(World()), old(updates.Environment()), groupsChanged)
      ensures updates.permission == old(updates.permission)
    {
      gap := gap - 1;
      if gap == 0 {
        if groupsChanged {
          updates.MakeRequest("on_change, change in groups", None, false, AllControllers);
        } else {
          var changed := ScanNodes();
          if |changed| > 1 {
            updates.MakeRequest("on_change, multiple nodes changed", None, false, AllControllers);
          } else if |changed| == 1 {
            updates.SingleNode(changed[0], "on_change");
          }
        }
      }
    }
  }

  /** The host runs the pending timer at index `i` of the page's list. */
  method RunTimer(poller: OnChangeController, i: nat, groupsChanged: bool)
    requires i < |poller.updates.timers|
    modifies poller, poller.updates
    ensures poller.World() == Fire(old(poller.World()), old(poller.updates.Environment()), i, groupsChanged)
    ensures old(poller.Valid()) ==> poller.Valid()
  {
    var updates := poller.updates;
    var t := updates.TakeTimer(i);
    match t.action
    case DelayedRequest(cause, noretry, scope) =>
      updates.MakeRequest(cause, None, noretry, scope);
    case DeferredRequest(cause, scope) =>
      updates.DeferredRequest(cause, scope);
    case OnChangeTick =>
      poller.ResolveChange(groupsChanged);
  }
}
