/**
 * The list and map bookkeeping of `ControllerPanel` (js/controller_panel.js)
 * as pure functions: which node blocks survive a rebuild and in which order,
 * which are hidden, and whether the panel may be refreshed.
 *
 * The collaborators whose code is not part of this model (NodeInclusionManager,
 * GroupManager, NodeBlock) are fixed predicates collected in `Host`.
 */
module PanelModel {
  import opened Wrappers
  import opened Sequences
  import opened UpdateModel

  /** A node block; only its `hidden` class is modelled. */
  datatype Block = Block(hidden: bool)

  /**
   * A freshly built NodeBlock. Its initial `hidden` class is never observed:
   * a block is created only for an included node, and set_node_visibility
   * overwrites the flag of every included block.
   */
  const NEW_BLOCK: Block := Block(false)

  datatype Host = Host(
    includeNode: NodeId -> bool,         // NodeInclusionManager.include_node
    isNodeIn: (string, NodeId) -> bool,  // GroupManager.is_node_in(group, id)
    advancedOnly: NodeId -> bool,        // NodeInclusionManager.advanced_only
    blockValid: NodeId -> bool,          // (new NodeBlock(node)).valid_nodeblock
    validOption: string -> string)       // GroupManager.valid_option

  /** The ids of `app.graph._nodes` in graph order, and the keys of `app.graph._nodes_by_id`. */
  datatype Graph = Graph(nodes: seq<NodeId>, byId: set<NodeId>)

  /** The rebuild's working state: `new_node_id_list` and `node_blocks`. */
  datatype Build = Build(list: seq<NodeId>, blocks: map<NodeId, Block>)

  /** remove_absent_nodes(): the blocks whose node is still in the graph, unchanged. */
  function RemoveAbsent(blocks: map<NodeId, Block>, byId: set<NodeId>): (r: map<NodeId, Block>)
    ensures r.Keys == blocks.Keys * byId
    ensures forall k :: k in r ==> r[k] == blocks[k]
  {
    map k | k in blocks && k in byId :: blocks[k]
  }

  /** maybe_create_node_block_for_node(id): a block is stored only for an included node whose block is valid. */
  function MaybeCreate(blocks: map<NodeId, Block>, id: NodeId, h: Host): (r: map<NodeId, Block>)
    ensures h.includeNode(id) && h.blockValid(id) ==> r == blocks[id := NEW_BLOCK]
    ensures !(h.includeNode(id) && h.blockValid(id)) ==> r == blocks
  {
    if h.includeNode(id) && h.blockValid(id) then blocks[id := NEW_BLOCK] else blocks
  }

  /**
   * consider_adding_node(id): an id already listed is skipped; an included
   * id is listed once a block exists for it, reusing or creating one.
   */
  function Consider(b: Build, id: NodeId, h: Host): (r: Build)
    ensures r.list == b.list || (id !in b.list && r.list == b.list + [id])
    ensures r.list != b.list <==> id !in b.list && h.includeNode(id) && id in r.blocks
    ensures b.blocks.Keys <= r.blocks.Keys && forall k :: k in b.blocks ==> r.blocks[k] == b.blocks[k]
    ensures forall k :: k != id ==> (k in r.blocks <==> k in b.blocks)
    ensures id in r.blocks && id !in b.blocks ==> h.includeNode(id) && h.blockValid(id)
  {
    if id in b.list || !h.includeNode(id) then b
    else
      var blocks := if id in b.blocks then b.blocks else MaybeCreate(b.blocks, id, h);
      if id in blocks then Build(b.list + [id], blocks) else b.(blocks := blocks)
  }

  /** `ids.forEach(consider_adding_node)`. */
  function ConsiderAll(b: Build, ids: seq<NodeId>, h: Host): (r: Build)
    ensures |b.list| <= |r.list| <= |b.list| + |ids|
    decreases |ids|
  {
    if ids == [] then b else ConsiderAll(Consider(b, ids[0], h), ids[1..], h)
  }

  /** Blocks are only ever added by consider_adding_node, and only for the ids it is given. */
  lemma {:induction false} ConsiderAllBlocks(b: Build, ids: seq<NodeId>, h: Host)
    ensures var r := ConsiderAll(b, ids, h);
      b.blocks.Keys <= r.blocks.Keys &&
      (forall k :: k in b.blocks ==> r.blocks[k] == b.blocks[k]) &&
      (forall k :: k !in ids ==> (k in r.blocks <==> k in b.blocks))
    decreases |ids|
  {
    if ids != [] {
      ConsiderAllBlocks(Consider(b, ids[0], h), ids[1..], h);
      assert forall k :: k in ids[1..] ==> k in ids;
    }
  }

  /** The list only grows, and what it gains is a subsequence of the ids considered. */
  lemma {:induction false} ConsiderAllOrder(b: Build, ids: seq<NodeId>, h: Host)
    ensures var r := ConsiderAll(b, ids, h);
      |b.list| <= |r.list| && r.list[..|b.list|] == b.list && IsSubsequence(r.list[|b.list|..], ids)
    decreases |ids|
  {
    var r := ConsiderAll(b, ids, h);
    if ids != [] {
      var b1 := Consider(b, ids[0], h);
      ConsiderAllOrder(b1, ids[1..], h);
      assert r.list[..|b1.list|] == b1.list;
      assert r.list[..|b.list|] == b1.list[..|b.list|];
      if b1.list == b.list {
        assert r.list[|b.list|..] == r.list[|b1.list|..];
      } else {
        var tail := r.list[|b.list|..];
        assert tail[0] == ids[0];
        assert tail[1..] == r.list[|b1.list|..];
      }
    }
  }

  /** consider_adding_node's early return keeps `new_node_id_list` free of duplicates. */
  lemma {:induction false} ConsiderAllNoDuplicates(b: Build, ids: seq<NodeId>, h: Host)
    requires NoDuplicates(b.list)
    ensures NoDuplicates(ConsiderAll(b, ids, h).list)
    decreases |ids|
  {
    if ids != [] {
      var b1 := Consider(b, ids[0], h);
      assert NoDuplicates(b1.list) by {
        if b1.list != b.list {
          assert forall i :: 0 <= i < |b.list| ==> b1.list[i] == b.list[i];
        }
      }
      ConsiderAllNoDuplicates(b1, ids[1..], h);
    }
  }

  /**
   * An id ends up listed exactly when it was listed before, or it was
   * considered, is included and has a block at the end.
   */
  lemma {:induction false} ConsiderAllMembers(b: Build, ids: seq<NodeId>, h: Host)
    ensures var r := ConsiderAll(b, ids, h);
      forall x :: x in r.list <==> x in b.list || (x in ids && h.includeNode(x) && x in r.blocks)
    decreases |ids|
  {
    var r := ConsiderAll(b, ids, h);
    if ids != [] {
      var b1 := Consider(b, ids[0], h);
      ConsiderAllMembers(b1, ids[1..], h);
      ConsiderAllBlocks(b1, ids[1..], h);
      forall x
        ensures x in r.list <==> x in b.list || (x in ids && h.includeNode(x) && x in r.blocks)
      {
        if x in b1.list && x !in b.list {
          assert x == ids[0] && h.includeNode(x) && x in b1.blocks;
        }
        if x == ids[0] && x !in b.list && h.includeNode(x) && x in r.blocks && x !in ids[1..] {
          assert x in b1.blocks;
          assert x in b1.list;
        }
      }
    }
  }

  /** A block gained while considering ids is one maybe_create made: included and valid. */
  lemma {:induction false} ConsiderAllGains(b: Build, ids: seq<NodeId>, h: Host)
    ensures var r := ConsiderAll(b, ids, h);
      forall k :: k in r.blocks && k !in b.blocks ==> h.includeNode(k) && h.blockValid(k)
    decreases |ids|
  {
    if ids != [] {
      ConsiderAllGains(Consider(b, ids[0], h), ids[1..], h);
    }
  }

  /** Every considered id that is included and whose block would be valid ends up with a block. */
  lemma {:induction false} ConsiderAllCreates(b: Build, ids: seq<NodeId>, h: Host)
    requires forall x :: x in b.list ==> x in b.blocks
    ensures var r := ConsiderAll(b, ids, h);
      forall x :: x in ids && h.includeNode(x) && h.blockValid(x) ==> x in r.blocks
    decreases |ids|
  {
    if ids != [] {
      var b1 := Consider(b, ids[0], h);
      assert forall x :: x in b1.list ==> x in b1.blocks;
      ConsiderAllCreates(b1, ids[1..], h);
      ConsiderAllBlocks(b1, ids[1..], h);
      assert h.includeNode(ids[0]) && h.blockValid(ids[0]) ==> ids[0] in b1.blocks;
      assert forall x :: x in ids && x != ids[0] ==> x in ids[1..];
    }
  }

  /** Every listed id has a node block. */
  lemma {:induction false} ConsiderAllListedHaveBlocks(b: Build, ids: seq<NodeId>, h: Host)
    requires forall x :: x in b.list ==> x in b.blocks
    ensures var r := ConsiderAll(b, ids, h); forall x :: x in r.list ==> x in r.blocks
    decreases |ids|
  {
    if ids != [] {
      var b1 := Consider(b, ids[0], h);
      assert forall x :: x in b1.list ==> x in b1.blocks;
      ConsiderAllListedHaveBlocks(b1, ids[1..], h);
      assert ConsiderAll(b, ids, h) == ConsiderAll(b1, ids[1..], h);
    }
  }

  /**
   * Lines 263-266 of _build_controllerPanel: an empty list, absent nodes
   * dropped, then the saved order and then the graph considered in turn.
   */
  function Rebuild(blocks: map<NodeId, Block>, order: seq<NodeId>, g: Graph, h: Host): (r: Build)
    ensures |r.list| <= |order| + |g.nodes|
  {
    ConsiderAll(ConsiderAll(Build([], RemoveAbsent(blocks, g.byId)), order, h), g.nodes, h)
  }

  /** The ids kept from the saved order, in saved order. */
  function SavedPart(blocks: map<NodeId, Block>, order: seq<NodeId>, g: Graph, h: Host): seq<NodeId>
  {
    ConsiderAll(Build([], RemoveAbsent(blocks, g.byId)), order, h).list
  }

  /**
   * The rebuilt order: no duplicates; the surviving saved-order ids first, in
   * saved order, then the remaining graph nodes in graph order; exactly the
   * included ids that have a block, among those considered.
   */
  lemma RebuildOrder(blocks: map<NodeId, Block>, order: seq<NodeId>, g: Graph, h: Host)
    ensures var r := Rebuild(blocks, order, g, h);
      var saved := SavedPart(blocks, order, g, h);
      && NoDuplicates(r.list)
      && |saved| <= |r.list| && r.list[..|saved|] == saved
      && IsSubsequence(saved, order)
      && IsSubsequence(r.list[|saved|..], g.nodes)
      && (forall x :: x in r.list ==> x in r.blocks)
      && (forall x :: x in r.list <==> (x in order || x in g.nodes) && h.includeNode(x) && x in r.blocks)
      && (forall x :: x in saved <==> x in order && h.includeNode(x) && x in r.blocks)
      && (forall x :: x in order && x in r.list ==> x in saved)
  {
    var b0 := Build([], RemoveAbsent(blocks, g.byId));
    var b1 := ConsiderAll(b0, order, h);
    var r := ConsiderAll(b1, g.nodes, h);
    ConsiderAllOrder(b0, order, h);
    assert b1.list[0..] == b1.list;
    ConsiderAllOrder(b1, g.nodes, h);
    ConsiderAllNoDuplicates(b0, order, h);
    ConsiderAllNoDuplicates(b1, g.nodes, h);
    ConsiderAllListedHaveBlocks(b0, order, h);
    ConsiderAllListedHaveBlocks(b1, g.nodes, h);
    ConsiderAllMembers(b0, order, h);
    ConsiderAllMembers(b1, g.nodes, h);
    ConsiderAllBlocks(b1, g.nodes, h);
    ConsiderAllGains(b1, g.nodes, h);
    ConsiderAllCreates(b0, order, h);
  }

  /** `node_order` is replaced only by a non-empty rebuilt list. */
  function NewNodeOrder(order: seq<NodeId>, list: seq<NodeId>): (r: seq<NodeId>)
    ensures |list| > 0 ==> r == list
    ensures |list| == 0 ==> r == order
  {
    if |list| > 0 then list else order
  }

  /** A block counted by set_node_visibility: included, and in the chosen group. */
  predicate Counted(h: Host, group: string, k: NodeId) {
    h.includeNode(k) && h.isNodeIn(group, k)
  }

  /** The hidden flag set_node_visibility leaves on the block of `k`. */
  function ShownState(b: Block, k: NodeId, h: Host, group: string, advanced: bool): (r: Block)
    ensures !h.includeNode(k) ==> r == b
    // an included block is shown exactly when it is in the group and, if advanced-only, advanced is on
    ensures h.includeNode(k) ==> (!r.hidden <==> h.isNodeIn(group, k) && (h.advancedOnly(k) ==> advanced))
  {
    if !h.includeNode(k) then b
    else if !h.isNodeIn(group, k) then Block(true)
    else if h.advancedOnly(k) then Block(!advanced)
    else Block(false)
  }

  function CountedSet(blocks: map<NodeId, Block>, h: Host, group: string): set<NodeId>
  {
    set k | k in blocks && Counted(h, group, k)
  }

  lemma SubsetCardinality(a: set<NodeId>, b: set<NodeId>)
    requires a <= b
    ensures |a| <= |b|
  {
    assert b == a + (b - a);
  }

  /** What set_node_visibility returns and leaves behind. */
  datatype Visibility = Visibility(
    blocks: map<NodeId, Block>,
    nodes: nat,
    visibleNodes: nat,
    showAdvancedCheckbox: bool)

  function NodeVisibility(blocks: map<NodeId, Block>, h: Host, group: string, advanced: bool): (v: Visibility)
    ensures v.blocks.Keys == blocks.Keys
    // blocks rejected by include_node keep their state
    ensures forall k :: k in blocks && !h.includeNode(k) ==> v.blocks[k] == blocks[k]
    // included blocks outside the chosen group are hidden
    ensures forall k :: k in blocks && h.includeNode(k) && !h.isNodeIn(group, k) ==> v.blocks[k].hidden
    // a counted block is hidden exactly when it is advanced-only and advanced controls are off
    ensures forall k :: k in blocks && Counted(h, group, k) ==>
      (v.blocks[k].hidden <==> h.advancedOnly(k) && !advanced)
    ensures v.nodes == |CountedSet(blocks, h, group)|
    ensures v.visibleNodes <= v.nodes
    // visible_nodes counts only the advanced-only blocks shown because advanced is on
    ensures v.visibleNodes == |set k | k in CountedSet(blocks, h, group) && h.advancedOnly(k) && !v.blocks[k].hidden|
    ensures v.showAdvancedCheckbox <==> exists k :: k in blocks && Counted(h, group, k) && h.advancedOnly(k)
  {
    var counted := CountedSet(blocks, h, group);
    var adv := set k | k in counted && h.advancedOnly(k);
    var shown := map k | k in blocks :: ShownState(blocks[k], k, h, group, advanced);
    SubsetCardinality(adv, counted);
    var visible := if advanced then |adv| else 0;
    assert (set k | k in counted && h.advancedOnly(k) && !shown[k].hidden) == (if advanced then adv else {});
    assert adv != {} <==> exists k :: k in blocks && Counted(h, group, k) && h.advancedOnly(k) by {
      if adv != {} {
        var k :| k in adv;
      }
      if exists k :: k in blocks && Counted(h, group, k) && h.advancedOnly(k) {
        var k :| k in blocks && Counted(h, group, k) && h.advancedOnly(k);
        assert k in adv;
      }
    }
    Visibility(shown, |counted|, visible, adv != {})
  }

  /**
   * What a key-by-key pass over the blocks accumulates: the per-block states,
   * the counted keys and the advanced-only keys shown, in any key order.
   */
  lemma VisibilityFromLoop(before: map<NodeId, Block>, h: Host, group: string, advanced: bool,
                           blocks: map<NodeId, Block>, counted: set<NodeId>, shownAdv: set<NodeId>)
    requires blocks.Keys == before.Keys
    requires forall k :: k in before ==> blocks[k] == ShownState(before[k], k, h, group, advanced)
    requires forall k :: k in counted <==> k in before && Counted(h, group, k)
    requires forall k :: k in shownAdv <==> k in counted && h.advancedOnly(k) && advanced
    ensures var v := NodeVisibility(before, h, group, advanced);
      blocks == v.blocks && |counted| == v.nodes && |shownAdv| == v.visibleNodes &&
      ((exists k :: k in counted && h.advancedOnly(k)) <==> v.showAdvancedCheckbox)
  {
    var v := NodeVisibility(before, h, group, advanced);
    var cs := CountedSet(before, h, group);
    assert forall k :: k in counted ==> k in cs;
    assert forall k :: k in cs ==> k in counted;
    assert counted == cs;
    var adv := set k | k in cs && h.advancedOnly(k) && !v.blocks[k].hidden;
    assert forall k :: k in shownAdv ==> k in adv;
    assert forall k :: k in adv ==> k in shownAdv;
    assert shownAdv == adv;
    assert forall k :: k in blocks ==> blocks[k] == v.blocks[k];
  }

  /**
   * The count `visible_nodes` evidently means: the counted blocks left shown,
   * ordinary ones included.
   */
  function VisibleNodes(blocks: map<NodeId, Block>, h: Host, group: string, advanced: bool): (n: nat)
    ensures n <= NodeVisibility(blocks, h, group, advanced).nodes
    ensures NodeVisibility(blocks, h, group, advanced).visibleNodes <= n
    ensures n > 0 <==> exists k :: k in blocks && Counted(h, group, k) && !NodeVisibility(blocks, h, group, advanced).blocks[k].hidden
  {
    var v := NodeVisibility(blocks, h, group, advanced);
    var counted := CountedSet(blocks, h, group);
    var shown := set k | k in counted && !v.blocks[k].hidden;
    var advShown := set k | k in counted && h.advancedOnly(k) && !v.blocks[k].hidden;
    SubsetCardinality(shown, counted);
    SubsetCardinality(advShown, shown);
    assert shown != {} <==> exists k :: k in blocks && Counted(h, group, k) && !v.blocks[k].hidden by {
      if shown != {} {
        var k :| k in shown;
        assert k in blocks && Counted(h, group, k) && !v.blocks[k].hidden;
      }
      if exists k :: k in blocks && Counted(h, group, k) && !v.blocks[k].hidden {
        var k :| k in blocks && Counted(h, group, k) && !v.blocks[k].hidden;
        assert k in shown;
      }
    }
    |shown|
  }

  /**
   * As written, one shown ordinary block gives `nodes` 1 but `visible_nodes` 0,
   * so the footer drop target of line 273 is not installed.
   */
  lemma VisibleCountMissesOrdinaryBlocks()
    ensures var h := Host(_ => true, (_, _) => true, _ => false, _ => true, g => g);
      var blocks := map[7 := Block(true)];
      var v := NodeVisibility(blocks, h, "", false);
      v.nodes == 1 && v.visibleNodes == 0 && !v.blocks[7].hidden && VisibleNodes(blocks, h, "", false) == 1
  {
    var h := Host(_ => true, (_, _) => true, _ => false, _ => true, g => g);
    var blocks := map[7 := Block(true)];
    assert CountedSet(blocks, h, "") == {7};
    var v := NodeVisibility(blocks, h, "", false);
    assert (set k | k in CountedSet(blocks, h, "") && !v.blocks[k].hidden) == {7};
  }

  /**
   * Everything a build, redraw, hide or toggle of the panel can change: the
   * panel's fields and classes, and the settings it reads and writes.
   */
  datatype PanelState = PanelState(
    blocks: map<NodeId, Block>,  // node_blocks
    list: seq<NodeId>,           // new_node_id_list
    container: seq<NodeId>,      // blocks appended to main_container, in order
    unrefreshable: bool,         // the panel's 'unrefreshable' class
    hidden: bool,                // the panel's 'hidden' class
    checkbox: bool,              // show_advanced_checkbox
    showing: bool,               // settings.showing
    advanced: bool,              // settings.advanced
    order: seq<NodeId>,          // settings.node_order
    group: string)               // settings.group_choice

  /**
   * build_controllerPanel(). With `fails` the build throws before the model's
   * state changes: the container has been emptied and the 'unrefreshable'
   * mark is removed again by the finally clause. Otherwise the group choice
   * is validated, the list and container rebuilt, the order saved when the
   * list is non-empty, and the visibility pass run on the rebuilt blocks.
   */
  function Built(s: PanelState, g: Graph, h: Host, fails: bool): (r: PanelState)
    ensures !r.unrefreshable
    ensures r.hidden == s.hidden && r.showing == s.showing && r.advanced == s.advanced
    ensures fails ==> r.container == [] && r.blocks == s.blocks && r.list == s.list
                      && r.checkbox == s.checkbox && r.order == s.order && r.group == s.group
    ensures !fails ==> r.group == h.validOption(s.group) && r.container == r.list
    ensures !fails ==> NoDuplicates(r.list) && forall x :: x in r.list ==> x in r.blocks
    // the saved order is replaced by a non-empty rebuilt list, and kept otherwise
    ensures !fails ==> (r.list != [] ==> r.order == r.list) && (r.list == [] ==> r.order == s.order)
  {
    if fails then s.(container := [], unrefreshable := false)
    else
      var gc := h.validOption(s.group);
      var b := Rebuild(s.blocks, s.order, g, h);
      var v := NodeVisibility(b.blocks, h, gc, s.advanced);
      RebuildOrder(s.blocks, s.order, g, h);
      PanelState(v.blocks, b.list, b.list, false, s.hidden, v.showAdvancedCheckbox,
                 s.showing, s.advanced, NewNodeOrder(s.order, b.list), gc)
  }

  /** redraw(): the panel is built and then, if that returned normally, shown. */
  function Redrawn(s: PanelState, g: Graph, h: Host, fails: bool): (r: PanelState)
    ensures r.(hidden := s.hidden, showing := s.showing) == Built(s, g, h, fails)
    ensures !fails ==> !r.hidden && r.showing
    ensures fails ==> r.hidden == s.hidden && r.showing == s.showing
  {
    var b := Built(s, g, h, fails);
    if fails then b else b.(hidden := false, showing := true)
  }

  /** hide(): hidden and no longer showing; nothing else changes. */
  function Hidden(s: PanelState): (r: PanelState)
    ensures r.hidden && !r.showing
    ensures r.(hidden := s.hidden, showing := s.showing) == s
  {
    s.(hidden := true, showing := false)
  }

  /** toggle() on an existing instance: hide a showing panel, redraw a hidden one. */
  function Toggled(s: PanelState, g: Graph, h: Host, fails: bool): (r: PanelState)
    // a toggle that returns normally flips whether the panel is showing
    ensures s.showing || !fails ==> r.showing == !s.showing && r.hidden == s.showing
    ensures !s.showing && fails ==> r.showing == s.showing && r.hidden == s.hidden
    // hiding keeps the blocks and the order; only a redraw rebuilds them
    ensures s.showing ==> r.blocks == s.blocks && r.list == s.list && r.order == s.order
    ensures r.advanced == s.advanced
  {
    if s.showing then Hidden(s) else Redrawn(s, g, h, fails)
  }

  /** showing(): the `showing` setting, or false when reading it throws (`None`). */
  function ShowingOf(read: Option<bool>): (r: bool)
    ensures r <==> read == Some(true)
  {
    match read
    case None => false
    case Some(b) => b
  }

  /** What can_refresh inspects; `None` stands for an absent panel instance. */
  datatype PanelView = PanelView(
    activeInside: bool,                  // the panel contains document.activeElement
    markedUnrefreshable: bool,           // the panel's own class list holds 'unrefreshable'
    unrefreshableDescendants: nat,       // getElementsByClassName('unrefreshable').length
    showing: bool)                       // ControllerPanel.showing()

  /**
   * can_refresh(): true only when nothing blocks a refresh; any exception,
   * here the missing instance, answers false.
   */
  function CanRefresh(view: Option<PanelView>): (r: bool)
    ensures r <==> view.Some? && !view.value.activeInside && !view.value.markedUnrefreshable
                   && view.value.unrefreshableDescendants == 0 && view.value.showing
  {
    match view
    case None => false
    case Some(v) =>
      if v.activeInside then false
      else if v.markedUnrefreshable then false
      else if v.unrefreshableDescendants == 1 then false
      else if v.unrefreshableDescendants > 1 then false
      else if !v.showing then false
      else true
  }

  /**
   * The permission on_setup installs is can_refresh itself, a boolean. In
   * make_request `true == 0` and `true < 0` are false and `setTimeout` reads
   * `true` as 1 ms, while `false == 0` is true: a refreshable panel reads as
   * "retry in 1 ms" and an unrefreshable one as "proceed".
   */
  function PermissionAsWritten(view: Option<PanelView>): (w: int)
    ensures w == 0 <==> !CanRefresh(view)
    ensures w == 1 <==> CanRefresh(view)
  {
    if CanRefresh(view) then 1 else 0
  }

  /** As written, a panel that can be refreshed is never redrawn: each request re-arms a 1 ms retry. */
  lemma RefreshablePanelIsNeverRedrawn(s: ArbiterState, pauseWait: int, onChangeWait: int,
                                       view: Option<PanelView>, cause: string, scope: Scope)
    requires CanRefresh(view) && s.pauseStack <= 0 && !s.configuring && !s.requesting
    ensures var r := Request(s, Env(pauseWait, onChangeWait, _ => PermissionAsWritten(view)), cause, None, false, scope);
      r.calls == s.calls && r.requesting && r.timers == s.timers + [Timer(1, DeferredRequest(cause, scope))]
  {
  }

  /** As written, a panel that must not be refreshed (focus inside, mid-drag, hidden) is redrawn at once. */
  lemma UnrefreshablePanelIsRedrawn(s: ArbiterState, pauseWait: int, onChangeWait: int,
                                    view: Option<PanelView>, cause: string, noretry: bool, scope: Scope)
    requires !CanRefresh(view) && s.pauseStack <= 0 && !s.configuring
    ensures var r := Request(s, Env(pauseWait, onChangeWait, _ => PermissionAsWritten(view)), cause, None, noretry, scope);
      r.calls == s.calls + [Redraw(scope)]
  {
  }

  /** The permission evidently intended: proceed when can_refresh allows it, otherwise retry later. */
  function Permission(view: Option<PanelView>, retryMs: int): (w: int)
    requires retryMs > 0
    ensures w == 0 <==> CanRefresh(view)
    ensures w >= 0
  {
    if CanRefresh(view) then 0 else retryMs
  }

  /** With the intended permission, an unpaused, settled request redraws exactly when the panel can be refreshed. */
  lemma RedrawsExactlyWhenRefreshable(s: ArbiterState, pauseWait: int, onChangeWait: int,
                                      view: Option<PanelView>, retryMs: int, cause: string, noretry: bool, scope: Scope)
    requires retryMs > 0 && s.pauseStack <= 0 && !s.configuring
    ensures var r := Request(s, Env(pauseWait, onChangeWait, _ => Permission(view, retryMs)), cause, None, noretry, scope);
      (r.calls == s.calls + [Redraw(scope)] <==> CanRefresh(view)) &&
      (!CanRefresh(view) && !noretry && !s.requesting ==> r.timers == s.timers + [Timer(retryMs, DeferredRequest(cause, scope))])
  {
  }
}
