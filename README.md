# Controller panel: update arbitration and panel rebuild

This project models the core of a ComfyUI front-end extension, the
"Controller" side panel, in Dafny, and proves properties of the model.

* `UpdateController` (js/update_controller.js) arbitrates redraw requests.
  Many call sites signal that something changed. The arbiter asks a
  permission function how long to wait: 0 proceeds, a positive wait retries
  later, and a negative wait refuses. A pause stack and a configuring flag
  take precedence over the permission. The arbiter runs the redraw callback
  immediately, arms at most one retry timer (single-flight), or drops the
  request.
* `OnChangeController` debounces change polling. Each `on_change` call
  schedules a tick. Only the tick that brings the pending count to zero
  compares each node's `bgcolor`/`title` with the copies cached on the node.
  It then issues a full request for several changes, or a single-node
  notification for one change.
* `ControllerPanel` (js/controller_panel.js) rebuilds its node list on every
  redraw. It drops blocks whose node left the graph, lists the saved order
  first and then the graph order (each id at most once), writes the new
  order back, and hides blocks according to the group choice and the
  "advanced" switch. While a rebuild is in progress it marks itself
  unrefreshable, and it clears the mark on every exit.

Layout:

* `update_model.dfy`: the arbiter as pure transitions on `ArbiterState`.
  Each `setTimeout` becomes a `Timer` in a pending list, and each callback
  invocation becomes an entry in a call log.
* `change_model.dfy`: the poller as pure transitions, and `Fire`, which lets
  the host run any pending timer.
* `updates.dfy`: both controllers as classes whose fields are the source's
  static fields. Every method is proved equal to its pure transition.
  `OnChangeController.EditGraph` stands for the host editing the graph
  between calls; it keeps the controller's invariant.
* `panel_model.dfy`: the panel's list and map bookkeeping, visibility and
  `can_refresh`, as functions and lemmas, including both findings.
* `panel.dfy`: the `ControllerPanel` and `settings` objects as classes, and
  `toggle`.
* `wrappers.dfy` and `sequences.dfy`: `Option`, `NoDuplicates`, `IsSubsequence`.

The collaborators whose code is not part of this model are parameters of the
model. The permission function and the two `Timings` constants are stored on
the arbiter. `NodeInclusionManager`, `GroupManager` and `NodeBlock` become the
fixed predicates of `PanelModel.Host`. `GroupManager.check_for_changes()` is a
boolean argument of the tick handler. No clock is modelled: pending timers may
fire in any order, which the source tolerates because every handler re-reads
the state when it runs.

Two behaviours of the code that a reader may not expect; the model follows
the code:

* A configuring wait (-2) is negative, so no retry is armed and the request
  is dropped. The logged reason is "delay was negative" unless noretry or a
  pending retry overrides it.
* The permission the panel installs returns a boolean where make_request
  expects an integer wait (Finding 1).

## Model

| member | source | states |
|---|---|---|
| UpdateModel.WaitTime | js/update_controller.js:52-55 | a positive pause stack with a nonzero pause wait wins; otherwise configuring gives -2; otherwise the permission's answer is used |
| UpdateModel.Decide | js/update_controller.js:47-75 | a truthy delay reschedules; otherwise a zero wait invokes the callback; a retry is armed iff the wait is positive, noretry is unset and no retry is pending; the logged drop reason is the last guard that matched (pending, then noretry, then negative wait) |
| UpdateModel.Request | js/update_controller.js:44-78 | a delayed request only appends a delayed timer; the callback runs iff the decision is Invoke; Arm appends exactly one retry timer carrying the wait and sets `requesting`; a dropped request changes nothing; while configuring (and not paused) nothing is redrawn and no retry is armed; the single-flight invariant and the pending tick count are preserved |
| UpdateModel.RequestUnlessConfiguring | js/update_controller.js:37-43 | while configuring, the state is unchanged whatever the permission says; otherwise the call is make_request |
| UpdateModel.Deferred | js/update_controller.js:80-83 | the retry flag is released before the re-check; with no other retry pending, single-flight holds afterwards; a positive wait re-arms a retry |
| UpdateModel.DelayedRequestReadsNoState | js/update_controller.js:47-49 | with a truthy delay, the outcome depends neither on the pause stack, the configuring flag, the retry flag nor the permission |
| UpdateModel.PauseTakesPrecedence | js/update_controller.js:52-55 | while paused, make_request gives the same result for every permission and never redraws |
| UpdateModel.PendingRetryAbsorbsRequests | js/update_controller.js:63-69 | while a retry is pending and the wait is nonzero, any number of further requests leave the state unchanged |
| UpdateModel.BurstArmsOneRetry | js/update_controller.js:63-74 | a burst of requests that meets a positive wait arms exactly one retry timer (for the first cause) and redraws nothing |
| ChangeModel.Refresh | js/update_controller.js:100-104 | after the scan visits a node, its cache equals its current colour and title, and a node that did not differ is untouched |
| ChangeModel.ChangedIds | js/update_controller.js:98-105 | the scan reports at most one id per node scanned |
| ChangeModel.ChangedIdsExact | js/update_controller.js:98-105 | `changed_nodes` is a subsequence of the graph's ids and holds exactly the ids of the nodes whose colour or title differed from the cache |
| ChangeModel.RescanFindsNothing | js/update_controller.js:98-105 | a scan right after a scan reports no change |
| ChangeModel.OnChange | js/update_controller.js:88-91 | one more tick is pending and the counter grows by one; the counter keeps equal to the number of pending ticks |
| ChangeModel.Dispatch | js/update_controller.js:106-112 | more than one change makes a full request; exactly one change makes a single-node call for that id; no change does nothing |
| ChangeModel.Resolve | js/update_controller.js:92-117 | the counter drops by one; a tick that leaves it nonzero does nothing else; the last tick requests a full update when groups changed, and otherwise scans and refreshes every node |
| ChangeModel.Fire | js/update_controller.js:44-117 | running any pending timer preserves both single-flight and the equality between the counter and the number of pending ticks |
| ChangeModel.TickActsOnlyWhenLast | js/update_controller.js:92-117 | while other ticks are pending, a tick leaves the nodes and the arbiter alone; the last tick scans |
| ChangeModel.RetryReissuesRequest | js/update_controller.js:80-83 | firing the retry timer re-issues the request with no delay and no noretry, and leaves no other retry pending |
| Updates.UpdateController.constructor | js/update_controller.js:14-18 | the pause stack is 0, configuring and requesting are false, nothing is pending, and the default permission answers 0 |
| Updates.UpdateController.Setup | js/update_controller.js:20-24 | installs the permission and leaves the state alone |
| Updates.UpdateController.PushPause | js/update_controller.js:26 | the pause stack grows by one, without a bound |
| Updates.UpdateController.PopPause | js/update_controller.js:27 | the pause stack shrinks by one, without clamping at zero |
| Updates.UpdateController.Configuring | js/update_controller.js:29-32 | sets the configuring flag only |
| Updates.UpdateController.MakeRequest | js/update_controller.js:44-78 | the new state is `Request` of the old state, and single-flight is preserved |
| Updates.UpdateController.MakeSingleRequest | js/update_controller.js:34-36 | a request with no delay and no noretry |
| Updates.UpdateController.MakeRequestUnlessConfiguring | js/update_controller.js:37-43 | the new state is `RequestUnlessConfiguring` of the old state; while configuring nothing changes |
| Updates.UpdateController.DeferredRequest | js/update_controller.js:80-83 | the new state is `Deferred` of the old state |
| Updates.UpdateController.SingleNode | js/update_controller.js:109 | appends one single-node call to the log and changes nothing else |
| Updates.OnChangeController.constructor | js/update_controller.js:87 | the pending counter starts at 0, and the controller is valid when no tick is pending |
| Updates.OnChangeController.OnChange | js/update_controller.js:88-91 | the new world is `OnChange` of the old world |
| Updates.OnChangeController.ScanNodes | js/update_controller.js:98-105 | the in-place scan loop leaves every node refreshed (`RefreshAll`) and collects exactly `ChangedIds` |
| Updates.OnChangeController.ResolveChange | js/update_controller.js:92-117 | the new world is `Resolve` of the old world |
| Updates.RunTimer | js/update_controller.js:44-117 | the new world is `Fire` of the old world, so both invariants are preserved |
| PanelModel.RemoveAbsent | js/controller_panel.js:160-166 | the blocks kept are exactly those whose node is still in the graph, unchanged |
| PanelModel.MaybeCreate | js/controller_panel.js:126-132 | a block is stored only for an included node whose new block is valid |
| PanelModel.Consider | js/controller_panel.js:143-158 | a listed id is skipped; an id is appended iff it was unlisted, is included and has a block afterwards; existing blocks are kept, and only the given id may gain a block |
| PanelModel.ConsiderAll | js/controller_panel.js:265-266 | considering a sequence of ids never shortens the list and adds at most one entry per id considered |
| PanelModel.ConsiderAllBlocks | js/controller_panel.js:143-158 | a sequence of considerations only adds blocks, only for ids it considered, and keeps existing ones |
| PanelModel.ConsiderAllOrder | js/controller_panel.js:143-158 | the list only grows at its end, and what it gains is a subsequence of the ids considered |
| PanelModel.ConsiderAllNoDuplicates | js/controller_panel.js:143-145 | the early return keeps `new_node_id_list` free of duplicates |
| PanelModel.ConsiderAllMembers | js/controller_panel.js:143-158 | an id ends up listed iff it was listed before, or it was considered, is included and has a block |
| PanelModel.ConsiderAllGains | js/controller_panel.js:126-158 | a block gained while considering ids belongs to an included node whose new block is valid |
| PanelModel.ConsiderAllCreates | js/controller_panel.js:126-158 | every considered id that is included and whose new block would be valid ends up with a block |
| PanelModel.ConsiderAllListedHaveBlocks | js/controller_panel.js:152-156 | every listed id has a node block |
| PanelModel.Rebuild | js/controller_panel.js:263-266 | the rebuilt list holds at most one entry per saved-order id and per graph node |
| PanelModel.RebuildOrder | js/controller_panel.js:263-266 | the rebuilt list has no duplicates; the surviving saved-order ids come first in saved order, then the remaining graph nodes in graph order; it holds exactly the included ids with blocks among those considered; the saved-order prefix holds exactly the saved-order ids that are included and have a block, so no saved-order id appears in the graph part |
| PanelModel.NewNodeOrder | js/controller_panel.js:267 | the saved order is replaced only by a non-empty rebuilt list |
| PanelModel.ShownState | js/controller_panel.js:173-189 | a block rejected by include_node keeps its state; an included block is shown iff it is in the chosen group and, when advanced-only, advanced controls are on |
| PanelModel.NodeVisibility | js/controller_panel.js:168-192 | blocks rejected by include_node keep their state; included blocks outside the group are hidden; a counted block is hidden iff it is advanced-only and advanced controls are off; `nodes` counts the included blocks in the group; `visible_nodes` counts only the advanced-only blocks shown; the checkbox appears iff some counted block is advanced-only |
| PanelModel.VisibilityFromLoop | js/controller_panel.js:172-190 | whatever the key order, the per-block states and the counts a key-by-key pass accumulates are those of `NodeVisibility` |
| PanelModel.VisibleNodes | js/controller_panel.js:171-181 | the corrected count lies between `visible_nodes` and `nodes`, and is positive iff some counted block is left shown |
| PanelModel.VisibleCountMissesOrdinaryBlocks | js/controller_panel.js:177-185 | one shown ordinary block gives `nodes` 1 but `visible_nodes` 0 |
| PanelModel.Built | js/controller_panel.js:219-269 | the unrefreshable mark is cleared on every exit, and the hidden flag and the showing and advanced settings are kept; on an exception raised before the rebuild starts, the main container is emptied and nothing else changes; otherwise the group choice is made valid, the list has no duplicates and each listed id has a block, the main container is the list, and the saved order becomes the list iff it is non-empty |
| PanelModel.Redrawn | js/controller_panel.js:54-59 | the state is that of a build, shown with `settings.showing` true when the build returned normally, and with both unchanged after an exception raised before the rebuild starts |
| PanelModel.Hidden | js/controller_panel.js:61-64 | the panel is hidden with `settings.showing` false, and nothing else changes |
| PanelModel.Toggled | js/controller_panel.js:41-46 | a toggle that returns normally flips `settings.showing` and sets the hidden class to the old showing value; a failed redraw leaves both; hiding keeps the blocks, the list and the saved order |
| PanelModel.ShowingOf | js/controller_panel.js:48-52 | true iff the `showing` setting reads as true; a read that throws answers false |
| PanelModel.CanRefresh | js/controller_panel.js:96-117 | true iff an instance exists, focus is not inside it, it is not marked unrefreshable, it has no unrefreshable descendant, and it is showing |
| PanelModel.PermissionAsWritten | js/controller_panel.js:85 | the installed permission reads as 1 when the panel can be refreshed and as 0 when it cannot |
| PanelModel.RefreshablePanelIsNeverRedrawn | js/update_controller.js:55-73 | as written, a request for a refreshable panel (not paused, not configuring, no retry pending) redraws nothing and arms a 1 ms retry |
| PanelModel.UnrefreshablePanelIsRedrawn | js/update_controller.js:55-61 | as written, a request for a panel that cannot be refreshed redraws it at once |
| PanelModel.Permission | js/controller_panel.js:85 | the intended permission is 0 iff the panel can be refreshed, and never negative |
| PanelModel.RedrawsExactlyWhenRefreshable | js/update_controller.js:52-73 | with the intended permission, an unpaused, settled request redraws iff the panel can be refreshed, and otherwise arms a retry after the given delay |
| Panel.Settings.constructor | js/controller_panel.js:255-267 | the settings object holds the given showing, advanced, node order and group choice values |
| Panel.ControllerPanel.constructor | js/controller_panel.js:19-26 | the panel starts with no blocks, an empty list and no marks |
| Panel.ControllerPanel.MaybeCreateNodeBlock | js/controller_panel.js:126-132 | the blocks become `MaybeCreate` of the old blocks |
| Panel.ControllerPanel.ConsiderAddingNode | js/controller_panel.js:143-158 | the list and blocks become `Consider` of the old ones; the main container gains exactly the ids appended to the list |
| Panel.ControllerPanel.ConsiderEach | js/controller_panel.js:265-266 | the forEach loop yields `ConsiderAll`, and the main container matches the list |
| Panel.ControllerPanel.RemoveAbsentNodes | js/controller_panel.js:160-166 | the key-by-key deletion leaves `RemoveAbsent` of the old blocks |
| Panel.ControllerPanel.SetNodeVisibility | js/controller_panel.js:168-192 | blocks, counts and checkbox flag are those of `NodeVisibility` |
| Panel.VisibilityLoop | js/controller_panel.js:172-190 | the loop over the key set leaves every block with its `ShownState`, and `nodes`, `visible_nodes` and the checkbox flag tally exactly the counted keys |
| Panel.VisibilityPass | js/controller_panel.js:168-191 | the pass over the key set returns `NodeVisibility` of the blocks |
| Panel.ControllerPanel.BuildInner | js/controller_panel.js:230-269 | on success the group choice is made valid, the list and main container are the `Rebuild` list, the saved order is `NewNodeOrder`, and blocks and checkbox follow `NodeVisibility`; on an exception raised before the rebuild starts, nothing the model tracks changes |
| Panel.ControllerPanel.BuildControllerPanel | js/controller_panel.js:219-228 | the whole new state of the panel and its settings is `Built` of the old one, on the normal exit and on an exception raised before the rebuild starts |
| Panel.ControllerPanel.Redraw | js/controller_panel.js:54-59 | the whole new state is `Redrawn` of the old one |
| Panel.ControllerPanel.Hide | js/controller_panel.js:61-64 | the whole new state is `Hidden` of the old one |
| Panel.Toggle | js/controller_panel.js:41-46 | with no instance nothing happens; otherwise the whole new state is `Toggled` of the old one, and the call returns normally unless a redraw fails |
| Panel.CanRefreshPanel | js/controller_panel.js:96-117 | a panel being rebuilt, or one not showing, can never be refreshed |

## Left out

- DOM construction, styling, `set_position`, the header, footer, submit button and empty message: only the node list, the block map, the hidden flags and the panel's own classes are modelled.
- Logging (`Debug`, the `message` helper, drop reasons) is not modelled beyond the `DropReason` chosen.
- The drag handlers, `save_node_order`, `on_height_change`, `force_redraw`, `on_update`, `graph_cleared` and the wiring in `on_setup` other than the installed permission are not modelled: they are DOM events or host hooks.
- The constructor's first `redraw`/`hide` and the removal of a previous instance: the constructor is modelled up to `node_blocks = {}`, and the later calls are separate method calls.
- Real time: timers carry their delay, but the host may fire them in any order, so orderings that only hold because of the actual delays are not captured.
- The `Timings` constants are parameters, since their values are not part of this model.
- Node ids are assumed truthy, and a node is identified by its id; the `node_or_node_id.id` normalisation and `get_node` are not modelled.
- Panel.ControllerPanel.BuildInner: an exception is modelled only before any tracked state changes. A throw during lines 264-266 of js/controller_panel.js would leave `settings.group_choice`, `new_node_id_list` and `node_blocks` already changed, and is not modelled.
- PanelModel.Built: the same restriction; its exceptional case is an exception raised before the rebuild starts.
- Panel.ControllerPanel.BuildControllerPanel: the same restriction, through `BuildInner` and `Built`.
- PanelModel.Redrawn: the same restriction, through `Built`.
- Panel.ControllerPanel.Redraw: the same restriction, through `Redrawn`.
- Panel.Toggle: reading a field of the `Settings` class cannot throw, so `toggle` always passes a successful read to `ShowingOf`; the `catch` branch is modelled by `ShowingOf` alone.
- Panel.ControllerPanel.Hide: the `catch` around `settings.showing = false` is not modelled, since assigning a field cannot throw here.
- Updates.UpdateController.Setup: the redraw callback and the single-node notifier are recorded in the call log instead of being stored as functions.
- `settings` persistence (`settings.load`, `initialise`, `heights`) is not modelled.

## Findings

| source | as written | input that shows it | evidently intended | confidence | as-written member | corrected member |
|---|---|---|---|---|---|---|
| js/controller_panel.js:85 | `can_refresh`, a boolean, is installed as the permission, and make_request treats its answer as a wait: `true == 0` is false and `setTimeout` reads `true` as 1 ms, while `false == 0` is true | a showing, idle panel (not paused, not configuring, no retry pending): each request arms a 1 ms retry and never redraws; a panel with focus inside is redrawn at once | the permission answers 0 when the panel can be refreshed and a positive retry delay otherwise | medium, not executed | PanelModel.RefreshablePanelIsNeverRedrawn | PanelModel.RedrawsExactlyWhenRefreshable |
| js/controller_panel.js:177-185 | `count_visible` is incremented only for advanced-only blocks shown because advanced controls are on, so ordinary blocks never count as visible and the footer drop target at line 273 is not installed | one included, ordinary block in the chosen group: `nodes` is 1, `visible_nodes` is 0 | `visible_nodes` counts every counted block left shown | medium, not executed | PanelModel.VisibleCountMissesOrdinaryBlocks | PanelModel.VisibleNodes |
