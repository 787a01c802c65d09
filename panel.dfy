/**
 * `ControllerPanel` (js/controller_panel.js) as a class over the state its
 * methods update in place, and the part of the `settings` object it reads and
 * writes. DOM construction is not modelled; `mainContainer` records which
 * node blocks were appended to the main container, in order.
 */
module Panel {
  import opened Wrappers
  import opened UpdateModel
  import opened PanelModel

  /** The fields of the `settings` object that the panel uses. */
  class Settings {
    var showing: bool
    var advanced: bool
    var nodeOrder: seq<NodeId>
    var groupChoice: string

    constructor (showing: bool, advanced: bool, nodeOrder: seq<NodeId>, groupChoice: string)
      ensures this.showing == showing && this.advanced == advanced
      ensures this.nodeOrder == nodeOrder && this.groupChoice == groupChoice
    {
      this.showing := showing;
      this.advanced := advanced;
      this.nodeOrder := nodeOrder;
      this.groupChoice := groupChoice;
    }
  }

  class ControllerPanel {
    const settings: Settings
    /** `node_blocks`, from node id to block. */
    var nodeBlocks: map<NodeId, Block>
    /** `new_node_id_list`. */
    var newNodeIdList: seq<NodeId>
    /** Ids of the node blocks appended to `main_container`, in order. */
    var mainContainer: seq<NodeId>
    /** The panel's own 'unrefreshable' class. */
    var unrefreshable: bool
    /** The panel's own 'hidden' class. */
    var hidden: bool
    var showAdvancedCheckbox: bool

    /** The state of the constructor's `this.node_blocks = {}`; its first redraw or hide is a separate call. */
    constructor (settings: Settings)
      ensures this.settings == settings
      ensures nodeBlocks == map[] && newNodeIdList == [] && mainContainer == []
      ensures !unrefreshable && !hidden && !showAdvancedCheckbox
    {
      this.settings := settings;
      nodeBlocks := map[];
      newNodeIdList := [];
      mainContainer := [];
      unrefreshable, hidden, showAdvancedCheckbox := false, false, false;
    }

    /** The panel's whole state, with the settings it uses. */
    function Snapshot(): PanelState
      reads this, settings
    {
      PanelState(nodeBlocks, newNodeIdList, mainContainer, unrefreshable, hidden, showAdvancedCheckbox,
                 settings.showing, settings.advanced, settings.nodeOrder, settings.groupChoice)
    }

    function Current(): Build
      reads this
    {
      Build(newNodeIdList, nodeBlocks)
    }

    /** maybe_create_node_block_for_node(id). */
    method MaybeCreateNodeBlock(id: NodeId, h: Host)
      modifies this
      ensures nodeBlocks == MaybeCreate(old(nodeBlocks), id, h)
      ensures newNodeIdList == old(newNodeIdList) && mainContainer == old(mainContainer)
      ensures unrefreshable == old(unrefreshable) && hidden == old(hidden)
      ensures showAdvancedCheckbox == old(showAdvancedCheckbox)
    {
      if h.includeNode(id) {
        if h.blockValid(id) {
          nodeBlocks := nodeBlocks[id := NEW_BLOCK];
        }
      }
    }

    /** consider_adding_node(id); an existing block is rebuilt in the DOM only. */
    method ConsiderAddingNode(id: NodeId, h: Host)
      modifies this
      ensures Current() == Consider(old(Current()), id, h)
      ensures mainContainer == old(mainContainer) + newNodeIdList[|old(newNodeIdList)|..]
      ensures unrefreshable == old(unrefreshable) && hidden == old(hidden)
      ensures showAdvancedCheckbox == old(showAdvancedCheckbox)
    {
      if id in newNodeIdList {
        return;
      }
      if h.includeNode(id) {
        if id !in nodeBlocks {
          MaybeCreateNodeBlock(id, h);
        }
        if id in nodeBlocks {
          mainContainer := mainContainer + [id];
          newNodeIdList := newNodeIdList + [id];
        }
      }
    }

    /** `ids.forEach(consider_adding_node)`, appending to the main container as it goes. */
    method ConsiderEach(ids: seq<NodeId>, h: Host)
      requires mainContainer == newNodeIdList
      modifies this
      ensures Current() == ConsiderAll(old(Current()), ids, h)
      ensures mainContainer == newNodeIdList
      ensures unrefreshable == old(unrefreshable) && hidden == old(hidden)
      ensures showAdvancedCheckbox == old(showAdvancedCheckbox)
    {
      ghost var start := Current();
      var i := 0;
      while i < |ids|
        invariant 0 <= i <= |ids|
        invariant ConsiderAll(Current(), ids[i..], h) == ConsiderAll(start, ids, h)
        invariant mainContainer == newNodeIdList
        invariant unrefreshable == old(unrefreshable) && hidden == old(hidden)
        invariant showAdvancedCheckbox == old(showAdvancedCheckbox)
      {
        assert ids[i..][1..] == ids[i + 1..];
        ConsiderAddingNode(ids[i], h);
        i := i + 1;
      }
      assert ids[i..] == [];
    }

    /** remove_absent_nodes(): deletes, key by key, the blocks whose node left the graph. */
    method RemoveAbsentNodes(byId: set<NodeId>)
      modifies this
      ensures nodeBlocks == RemoveAbsent(old(nodeBlocks), byId)
      ensures newNodeIdList == old(newNodeIdList) && mainContainer == old(mainContainer)
      ensures unrefreshable == old(unrefreshable) && hidden == old(hidden)
      ensures showAdvancedCheckbox == old(showAdvancedCheckbox)
    {
      var keys := nodeBlocks.Keys;
      while keys != {}
        invariant keys <= old(nodeBlocks).Keys
        invariant forall k :: k in nodeBlocks <==> k in old(nodeBlocks) && (k in keys || k in byId)
        invariant forall k :: k in nodeBlocks ==> nodeBlocks[k] == old(nodeBlocks)[k]
        invariant newNodeIdList == old(newNodeIdList) && mainContainer == old(mainContainer)
        invariant unrefreshable == old(unrefreshable) && hidden == old(hidden)
        invariant showAdvancedCheckbox == old(showAdvancedCheckbox)
        decreases keys
      {
        var k := PickKey(keys);
        if k !in byId {
          nodeBlocks := nodeBlocks - {k};
        }
        keys := keys - {k};
      }
      ghost var want := RemoveAbsent(old(nodeBlocks), byId);
      assert forall k :: k in nodeBlocks.Keys <==> k in want.Keys;
      assert nodeBlocks.Keys == want.Keys;
      assert forall k :: k in want ==> nodeBlocks[k] == want[k];
    }

    /**
     * set_node_visibility(): sets each block's hidden flag and returns
     * `nodes` and `visible_nodes`; the key order does not matter.
     */
    method SetNodeVisibility(h: Host) returns (nodes: nat, visibleNodes: nat)
      modifies this
      ensures var v := NodeVisibility(old(nodeBlocks), h, settings.groupChoice, settings.advanced);
        nodeBlocks == v.blocks && nodes == v.nodes && visibleNodes == v.visibleNodes &&
        showAdvancedCheckbox == v.showAdvancedCheckbox
      ensures newNodeIdList == old(newNodeIdList) && mainContainer == old(mainContainer)
      ensures unrefreshable == old(unrefreshable) && hidden == old(hidden)
    {
      var v := VisibilityPass(nodeBlocks, h, settings.groupChoice, settings.advanced);
      nodeBlocks, showAdvancedCheckbox := v.blocks, v.showAdvancedCheckbox;
      nodes, visibleNodes := v.nodes, v.visibleNodes;
    }

    /**
     * _build_controllerPanel(). `fails` stands for an exception raised by the
     * DOM or by a collaborator while the header is built, before any state the
     * model tracks changes; the result is false exactly then, and the
     * exception propagates to the caller.
     */
    method BuildInner(g: Graph, h: Host, fails: bool) returns (ok: bool)
      modifies this, settings
      ensures ok == !fails
      ensures !ok ==> unchanged(this) && unchanged(settings)
      ensures ok ==> settings.groupChoice == h.validOption(old(settings.groupChoice))
      ensures ok ==> var r := Rebuild(old(nodeBlocks), old(settings.nodeOrder), g, h);
        && newNodeIdList == r.list && mainContainer == r.list
        && settings.nodeOrder == NewNodeOrder(old(settings.nodeOrder), r.list)
        && var v := NodeVisibility(r.blocks, h, settings.groupChoice, settings.advanced);
           nodeBlocks == v.blocks && showAdvancedCheckbox == v.showAdvancedCheckbox
      ensures unrefreshable == old(unrefreshable) && hidden == old(hidden)
      ensures settings.showing == old(settings.showing) && settings.advanced == old(settings.advanced)
    {
      if fails {
        return false;
      }
      var gc := h.validOption(settings.groupChoice);
      if gc != settings.groupChoice {
        settings.groupChoice := gc;
      }
      mainContainer := [];
      newNodeIdList := [];
      RemoveAbsentNodes(g.byId);
      ConsiderEach(settings.nodeOrder, h);
      ConsiderEach(g.nodes, h);
      if |newNodeIdList| > 0 {
        settings.nodeOrder := newNodeIdList;
      }
      var nodes, visibleNodes := SetNodeVisibility(h);
      ok := true;
    }

    /** build_controllerPanel(): the 'unrefreshable' mark is removed on every exit. */
    method BuildControllerPanel(g: Graph, h: Host, fails: bool) returns (ok: bool)
      modifies this, settings
      ensures ok == !fails
      ensures Snapshot() == Built(old(Snapshot()), g, h, fails)
    {
      mainContainer := [];
      unrefreshable := true;
      ok := BuildInner(g, h, fails);
      unrefreshable := false;
    }

    /** redraw(): shown only if the build returned normally. */
    method Redraw(g: Graph, h: Host, fails: bool) returns (ok: bool)
      modifies this, settings
      ensures ok == !fails
      ensures Snapshot() == Redrawn(old(Snapshot()), g, h, fails)
    {
      ok := BuildControllerPanel(g, h, fails);
      if ok {
        hidden := false;
        settings.showing := true;
      }
    }

    /** hide(). */
    method Hide()
      modifies this, settings
      ensures Snapshot() == Hidden(old(Snapshot()))
    {
      hidden := true;
      settings.showing := false;
    }
  }

  /** Some key of a non-empty key set; which one does not matter to the callers. */
  method PickKey(keys: set<NodeId>) returns (k: NodeId)
    requires keys != {}
    ensures k in keys
  {
    assert (forall x :: x !in keys) ==> keys == {};
    k :| k in keys;
  }

  /** The keys counted so far are exactly the counted keys among those seen. */
  ghost predicate CountedExactly(h: Host, group: string, done: set<NodeId>, counted: set<NodeId>) {
    forall k :: k in counted <==> k in done && Counted(h, group, k)
  }

  /** The keys left shown because they are advanced-only are exactly those among the counted ones. */
  ghost predicate ShownExactly(h: Host, advanced: bool, counted: set<NodeId>, shownAdv: set<NodeId>) {
    forall k :: k in shownAdv <==> k in counted && h.advancedOnly(k) && advanced
  }

  /** The checkbox flag is set exactly when some counted key is advanced-only. */
  ghost predicate CheckboxExactly(h: Host, counted: set<NodeId>, showAdvanced: bool) {
    showAdvanced <==> exists k :: k in counted && h.advancedOnly(k)
  }

  /** What the pass has accumulated over the keys seen so far. */
  ghost predicate Tally(h: Host, group: string, advanced: bool, done: set<NodeId>,
                        counted: set<NodeId>, shownAdv: set<NodeId>,
                        nodes: nat, visibleNodes: nat, showAdvanced: bool) {
    && CountedExactly(h, group, done, counted)
    && ShownExactly(h, advanced, counted, shownAdv)
    && nodes == |counted| && visibleNodes == |shownAdv|
    && CheckboxExactly(h, counted, showAdvanced)
  }

  lemma CountedStep(h: Host, group: string, done: set<NodeId>, counted: set<NodeId>, k: NodeId)
    requires CountedExactly(h, group, done, counted)
    ensures CountedExactly(h, group, done + {k}, if Counted(h, group, k) then counted + {k} else counted)
  {
  }

  lemma ShownStep(h: Host, advanced: bool, counted: set<NodeId>, shownAdv: set<NodeId>, k: NodeId, c: bool)
    requires ShownExactly(h, advanced, counted, shownAdv)
    ensures ShownExactly(h, advanced, if c then counted + {k} else counted,
                         if c && h.advancedOnly(k) && advanced then shownAdv + {k} else shownAdv)
  {
  }

  lemma CheckboxStep(h: Host, counted: set<NodeId>, showAdvanced: bool, k: NodeId, c: bool)
    requires CheckboxExactly(h, counted, showAdvanced)
    ensures CheckboxExactly(h, if c then counted + {k} else counted, showAdvanced || (c && h.advancedOnly(k)))
  {
    if c && h.advancedOnly(k) {
      assert k in counted + {k};
    }
  }

  /** Counting one more key `k` keeps the tally exact for the keys seen. */
  lemma TallyStep(h: Host, group: string, advanced: bool, done: set<NodeId>,
                  counted: set<NodeId>, shownAdv: set<NodeId>,
                  nodes: nat, visibleNodes: nat, showAdvanced: bool, k: NodeId)
    requires Tally(h, group, advanced, done, counted, shownAdv, nodes, visibleNodes, showAdvanced) && k !in done
    ensures var c := Counted(h, group, k);
      var shown := c && h.advancedOnly(k) && advanced;
      Tally(h, group, advanced, done + {k},
            if c then counted + {k} else counted,
            if shown then shownAdv + {k} else shownAdv,
            if c then nodes + 1 else nodes,
            if shown then visibleNodes + 1 else visibleNodes,
            showAdvanced || (c && h.advancedOnly(k)))
  {
    var c := Counted(h, group, k);
    CountedStep(h, group, done, counted, k);
    ShownStep(h, advanced, counted, shownAdv, k, c);
    CheckboxStep(h, counted, showAdvanced, k, c);
    assert k !in counted && k !in shownAdv;
  }

  /** The blocks of the keys seen carry their `ShownState`; the others are as before. */
  ghost predicate PassedBlocks(before: map<NodeId, Block>, blocks: map<NodeId, Block>, done: set<NodeId>,
                               h: Host, group: string, advanced: bool) {
    && (forall k :: k in blocks <==> k in before)
    && (forall k :: k in before && k in done ==> blocks[k] == ShownState(before[k], k, h, group, advanced))
    && (forall k :: k in before && k !in done ==> blocks[k] == before[k])
  }

  lemma BlocksStep(before: map<NodeId, Block>, blocks: map<NodeId, Block>, done: set<NodeId>,
                   h: Host, group: string, advanced: bool, k: NodeId)
    requires PassedBlocks(before, blocks, done, h, group, advanced) && k in before
    ensures PassedBlocks(before, blocks[k := ShownState(blocks[k], k, h, group, advanced)], done + {k}, h, group, advanced)
  {
  }

  /**
   * The key-by-key loop of set_node_visibility over the blocks, counting as
   * it goes; the key order does not matter. `counted` and `shownAdv` are the
   * keys counted in `nodes` and in `visibleNodes`.
   */
  method VisibilityLoop(before: map<NodeId, Block>, h: Host, group: string, advanced: bool)
    returns (blocks: map<NodeId, Block>, nodes: nat, visibleNodes: nat, showAdvanced: bool,
             ghost done: set<NodeId>, ghost counted: set<NodeId>, ghost shownAdv: set<NodeId>)
    ensures forall k :: k in blocks <==> k in before
    ensures forall k :: k in before ==> blocks[k] == ShownState(before[k], k, h, group, advanced)
    ensures forall k :: k in done <==> k in before
    ensures Tally(h, group, advanced, done, counted, shownAdv, nodes, visibleNodes, showAdvanced)
  {
    nodes, visibleNodes := 0, 0;
    blocks := before;
    showAdvanced := false;
    var keys := before.Keys;
    done, counted, shownAdv := {}, {}, {};
    while keys != {}
      invariant forall k :: k in before <==> k in keys || k in done
      invariant forall k :: k in keys ==> k !in done
      invariant PassedBlocks(before, blocks, done, h, group, advanced)
      invariant Tally(h, group, advanced, done, counted, shownAdv, nodes, visibleNodes, showAdvanced)
      decreases keys
    {
      var k := PickKey(keys);
      // the hidden flag of the block, then the counts, for the same key
      var block := blocks[k];
      if h.includeNode(k) {
        if !h.isNodeIn(group, k) {
          block := block.(hidden := true);
        } else if h.advancedOnly(k) {
          block := block.(hidden := !advanced);
        } else {
          block := block.(hidden := false);
        }
      }
      assert block == ShownState(blocks[k], k, h, group, advanced);
      BlocksStep(before, blocks, done, h, group, advanced, k);
      blocks := blocks[k := block];
      TallyStep(h, group, advanced, done, counted, shownAdv, nodes, visibleNodes, showAdvanced, k);
      if h.includeNode(k) && h.isNodeIn(group, k) {
        nodes, counted := nodes + 1, counted + {k};
        if h.advancedOnly(k) {
          showAdvanced := true;
          if advanced {
            visibleNodes, shownAdv := visibleNodes + 1, shownAdv + {k};
          }
        }
      }
      done := done + {k};
      keys := keys - {k};
    }
  }

  /** set_node_visibility's pass over the blocks yields `NodeVisibility`, whatever the key order. */
  method VisibilityPass(before: map<NodeId, Block>, h: Host, group: string, advanced: bool) returns (v: Visibility)
    ensures v == NodeVisibility(before, h, group, advanced)
  {
    var blocks, nodes, visibleNodes, showAdvanced, done, counted, shownAdv := VisibilityLoop(before, h, group, advanced);
    assert forall k :: k in blocks.Keys ==> k in before.Keys;
    assert forall k :: k in before.Keys ==> k in blocks.Keys;
    assert blocks.Keys == before.Keys;
    VisibilityFromLoop(before, h, group, advanced, blocks, counted, shownAdv);
    v := Visibility(blocks, nodes, visibleNodes, showAdvanced);
  }


  /** toggle(): nothing without an instance; otherwise hide a showing panel, redraw a hidden one. */
  method Toggle(instance: ControllerPanel?, g: Graph, h: Host, fails: bool) returns (ok: bool)
    modifies if instance == null then {} else {instance, instance.settings}
    ensures ok <==> instance == null || old(instance.settings.showing) || !fails
    ensures instance != null ==> instance.Snapshot() == Toggled(old(instance.Snapshot()), g, h, fails)
  {
    ok := true;
    if instance != null {
      if ShowingOf(Some(instance.settings.showing)) {
        instance.Hide();
      } else {
        ok := instance.Redraw(g, h, fails);
      }
    }
  }

  /** can_refresh() for the current instance, if any. */
  function CanRefreshPanel(instance: ControllerPanel?, activeInside: bool, unrefreshableDescendants: nat): (r: bool)
    reads if instance == null then {} else {instance, instance.settings}
    ensures r ==> instance != null && !instance.unrefreshable && instance.settings.showing
    ensures r <==> CanRefresh(if instance == null then None
                              else Some(PanelView(activeInside, instance.unrefreshable, unrefreshableDescendants, instance.settings.showing)))
  {
    if instance == null then CanRefresh(None)
    else CanRefresh(Some(PanelView(activeInside, instance.unrefreshable, unrefreshableDescendants,
                                        ShowingOf(Some(instance.settings.showing)))))
  }
}
