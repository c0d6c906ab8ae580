/**
 * The plugin state: the latest tab list and pane manifest the host sent, and
 * the pane-to-tab cache rebuilt from them, plus the dispatch of pipe messages
 * to the handlers.
 */
module Plugin {
  import opened BoundedInts
  import opened PipeHandler

  /** A tab as the host reports it, reduced to what the plugin reads. */
  datatype TabInfo = TabInfo(position: nat, name: string)

  /** A pane as the host reports it, reduced to what the plugin reads. */
  datatype PaneInfo = PaneInfo(id: uint32, isPlugin: bool)

  /** The host's pane manifest: the panes listed under each tab position. */
  type PaneManifest = map<nat, seq<PaneInfo>>

  datatype Event = TabUpdate(tabs: seq<TabInfo>) | PaneUpdate(panes: PaneManifest) | OtherEvent

  datatype PipeMessage = PipeMessage(name: string, payload: Payload)

  // ---------------------------------------------------------------------------
  // The mapping a rebuild produces

  /** The cache after inserting every non-plugin pane of `list` with `tab`'s entry, in order. */
  function InsertPanes(cache: PaneTabMap, list: seq<PaneInfo>, tab: TabInfo): (r: PaneTabMap)
    ensures cache.Keys <= r.Keys
    ensures forall id | id in r :: (id in cache && r[id] == cache[id]) || r[id] == TabEntry(tab.position, tab.name)
  {
    if list == [] then cache
    else
      var before := InsertPanes(cache, list[..|list| - 1], tab);
      var pane := list[|list| - 1];
      if pane.isPlugin then before else before[pane.id := TabEntry(tab.position, tab.name)]
  }

  /** The cache a rebuild produces from `tabs` and `panes`, tab by tab. */
  function Mapping(tabs: seq<TabInfo>, panes: PaneManifest): (r: PaneTabMap)
    ensures forall id | id in r :: r[id].position in panes
  {
    if tabs == [] then map[]
    else
      var before := Mapping(tabs[..|tabs| - 1], panes);
      var tab := tabs[|tabs| - 1];
      if tab.position in panes then InsertPanes(before, panes[tab.position], tab) else before
  }

  /** Pane `id` is a non-plugin pane listed under the position of the `i`-th tab. */
  ghost predicate ListedUnder(tabs: seq<TabInfo>, panes: PaneManifest, i: int, id: uint32) {
    && 0 <= i < |tabs|
    && tabs[i].position in panes
    && exists pane | pane in panes[tabs[i].position] :: pane.id == id && !pane.isPlugin
  }

  lemma {:induction false} InsertPanesEffect(cache: PaneTabMap, list: seq<PaneInfo>, tab: TabInfo, id: uint32)
    ensures (exists pane | pane in list :: pane.id == id && !pane.isPlugin) ==>
              id in InsertPanes(cache, list, tab)
              && InsertPanes(cache, list, tab)[id] == TabEntry(tab.position, tab.name)
    ensures !(exists pane | pane in list :: pane.id == id && !pane.isPlugin) ==>
              (id in InsertPanes(cache, list, tab) <==> id in cache)
              && (id in cache ==> InsertPanes(cache, list, tab)[id] == cache[id])
  {
    if list != [] {
      var init := list[..|list| - 1];
      InsertPanesEffect(cache, init, tab, id);
      assert forall pane :: pane in list <==> pane in init || pane == list[|list| - 1];
    }
  }

  /**
   * After a rebuild the cache holds exactly the non-plugin panes listed under
   * the position of some tab: plugin panes and panes under a position no tab
   * has are never mapped, and nothing from earlier survives.
   */
  lemma {:induction false} MappingKeys(tabs: seq<TabInfo>, panes: PaneManifest, id: uint32)
    ensures id in Mapping(tabs, panes) <==> exists i :: ListedUnder(tabs, panes, i, id)
  {
    if tabs != [] {
      var init := tabs[..|tabs| - 1];
      var last := |tabs| - 1;
      MappingKeys(init, panes, id);
      forall i | 0 <= i < last
        ensures ListedUnder(init, panes, i, id) <==> ListedUnder(tabs, panes, i, id)
      {
        assert init[i] == tabs[i];
      }
      var listedLast := ListedUnder(tabs, panes, last, id);
      if tabs[last].position in panes {
        InsertPanesEffect(Mapping(init, panes), panes[tabs[last].position], tabs[last], id);
      }
      if id in Mapping(tabs, panes) && !listedLast {
        assert id in Mapping(init, panes);
        var i :| ListedUnder(init, panes, i, id);
        assert ListedUnder(tabs, panes, i, id);
      }
      if exists i :: ListedUnder(tabs, panes, i, id) {
        var i :| ListedUnder(tabs, panes, i, id);
        if i < last { assert ListedUnder(init, panes, i, id); }
      }
    }
  }

  /**
   * A mapped pane carries the position and name of the tab it was listed
   * under (the tab's own `position`, not its index in the list); when the
   * same pane is listed under several tabs, the last one wins.
   */
  lemma {:induction false} MappingValue(tabs: seq<TabInfo>, panes: PaneManifest, i: nat, id: uint32)
    requires ListedUnder(tabs, panes, i, id)
    requires forall j :: i < j < |tabs| ==> !ListedUnder(tabs, panes, j, id)
    ensures id in Mapping(tabs, panes)
    ensures Mapping(tabs, panes)[id] == TabEntry(tabs[i].position, tabs[i].name)
  {
    var init := tabs[..|tabs| - 1];
    var last := |tabs| - 1;
    if i == last {
      InsertPanesEffect(Mapping(init, panes), panes[tabs[last].position], tabs[last], id);
    } else {
      assert ListedUnder(init, panes, i, id);
      forall j | i < j < |init| ensures !ListedUnder(init, panes, j, id) {
        assert !ListedUnder(tabs, panes, j, id);
      }
      MappingValue(init, panes, i, id);
      assert !ListedUnder(tabs, panes, last, id);
      if tabs[last].position in panes {
        InsertPanesEffect(Mapping(init, panes), panes[tabs[last].position], tabs[last], id);
      }
    }
  }

  /** A snapshot in which every pane is listed under at most one tab, as the host sends it. */
  ghost predicate PanesListedOnce(tabs: seq<TabInfo>, panes: PaneManifest) {
    forall i, j, id :: ListedUnder(tabs, panes, i, id) && ListedUnder(tabs, panes, j, id) ==> i == j
  }

  /** In such a snapshot all non-plugin panes of one tab map to that tab's (position, name). */
  lemma SiblingsShareEntry(tabs: seq<TabInfo>, panes: PaneManifest, i: nat, a: uint32, b: uint32)
    requires PanesListedOnce(tabs, panes)
    requires ListedUnder(tabs, panes, i, a) && ListedUnder(tabs, panes, i, b)
    ensures a in Mapping(tabs, panes) && b in Mapping(tabs, panes)
    ensures Mapping(tabs, panes)[a] == Mapping(tabs, panes)[b] == TabEntry(tabs[i].position, tabs[i].name)
  {
    MappingValue(tabs, panes, i, a);
    MappingValue(tabs, panes, i, b);
  }

  /** A pane that is only ever listed as a plugin pane is never mapped. */
  lemma PluginPanesNeverMapped(tabs: seq<TabInfo>, panes: PaneManifest, id: uint32)
    requires forall pos, pane | pos in panes && pane in panes[pos] && pane.id == id :: pane.isPlugin
    ensures id !in Mapping(tabs, panes)
  {
    MappingKeys(tabs, panes, id);
  }

  // ---------------------------------------------------------------------------
  // The plugin state

  class State {
    /** pane_id -> (tab_position, tab_name) */
    var paneToTab: PaneTabMap
    var tabs: seq<TabInfo>
    var panes: PaneManifest

    constructor ()
      ensures paneToTab == map[] && tabs == [] && panes == map[]
    {
      paneToTab := map[];
      tabs := [];
      panes := map[];
    }

    /** `rebuild_mapping`: clear the cache and refill it from the latest tabs and panes. */
    method RebuildMapping()
      modifies this`paneToTab
      ensures paneToTab == Mapping(tabs, panes)
      ensures tabs == old(tabs) && panes == old(panes)
    {
      paneToTab := map[];
      for i := 0 to |tabs|
        invariant paneToTab == Mapping(tabs[..i], panes)
      {
        var tab := tabs[i];
        assert tabs[..i + 1][..i] == tabs[..i];
        if tab.position in panes {
          var list := panes[tab.position];
          for k := 0 to |list|
            invariant paneToTab == InsertPanes(Mapping(tabs[..i], panes), list[..k], tab)
          {
            var pane := list[k];
            assert list[..k + 1][..k] == list[..k];
            if pane.isPlugin {
              continue;
            }
            paneToTab := paneToTab[pane.id := TabEntry(tab.position, tab.name)];
          }
          assert list[..|list|] == list;
        }
      }
      assert tabs[..|tabs|] == tabs;
    }

    /**
     * `update`: a TabUpdate replaces the tabs, a PaneUpdate replaces the panes,
     * both rebuild the cache; other events change nothing. Never asks to render.
     */
    method Update(event: Event) returns (render: bool)
      modifies this
      ensures !render
      ensures event.TabUpdate? ==> tabs == event.tabs && panes == old(panes)
      ensures event.PaneUpdate? ==> panes == event.panes && tabs == old(tabs)
      ensures !event.OtherEvent? ==> paneToTab == Mapping(tabs, panes)
      ensures event.OtherEvent? ==> paneToTab == old(paneToTab) && tabs == old(tabs) && panes == old(panes)
    {
      render := false;
      match event
      case TabUpdate(newTabs) =>
        tabs := newTabs;
        RebuildMapping();
      case PaneUpdate(newPanes) =>
        panes := newPanes;
        RebuildMapping();
      case OtherEvent =>
    }

    /**
     * `pipe`: "tab-rename" and "tab-status" go to their handlers, whose effects
     * are returned for the host to perform and whose cache replaces this one;
     * any other pipe does nothing. Never asks to render.
     */
    method Pipe(message: PipeMessage) returns (render: bool, effects: seq<PipeEffect>)
      modifies this
      ensures !render
      ensures tabs == old(tabs) && panes == old(panes)
      ensures message.name == "tab-rename" ==>
                Handled(effects, paneToTab) == HandleRename(old(paneToTab), message.payload)
      ensures message.name == "tab-status" ==>
                Handled(effects, paneToTab) == HandleStatus(old(paneToTab), message.payload, "tab-status")
      ensures message.name !in {"tab-rename", "tab-status"} ==>
                effects == [] && paneToTab == old(paneToTab)
    {
      render := false;
      if message.name == "tab-rename" {
        var handled := HandleRename(paneToTab, message.payload);
        effects, paneToTab := handled.effects, handled.cache;
      } else if message.name == "tab-status" {
        var handled := HandleStatus(paneToTab, message.payload, message.name);
        effects, paneToTab := handled.effects, handled.cache;
      } else {
        effects := [];
      }
    }
  }
}
