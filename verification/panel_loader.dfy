/** The panel loader: it fetches a panel's markup once and caches it, falls
    back to a stand-in panel when the fetch fails, never puts a second panel
    of one type into the container (a hidden one is shown again instead),
    and moves a dragged panel within the panel manager's list. */
module PanelLoader {
  import opened Common

  // ---------------------------------------------------------------------
  // Panels and their styles

  /** The inline style properties the loader reads and writes ("" when
      unset). */
  datatype Style = Style(
    display: string, visibility: string, position: string, left: string, top: string,
    width: string, height: string, flex: string, overflow: string, zIndex: string, opacity: string)

  const Unstyled: Style := Style("", "", "", "", "", "", "", "", "", "", "")

  /** A panel element: its id, its `data-panel-type` and its style. */
  datatype Panel = Panel(id: string, panelType: string, style: Style)

  /** `isPanelHidden`: any of the seven ways a panel is hidden. */
  predicate IsPanelHidden(s: Style) {
    s.display == "none" || s.visibility == "hidden" || (s.position == "absolute" && s.left == "-9999px")
    || s.flex == "0" || s.width == "0" || s.height == "0" || s.opacity == "0"
  }

  /** `restorePanelVisibility`: every hiding property cleared, then the
      panel is shown as a flexible, opaque, relatively placed box. */
  function RestoreVisibility(s: Style): (r: Style)
    ensures r.display == "flex" && r.visibility == "visible" && r.position == "relative"
    ensures r.flex == "1" && r.opacity == "1"
    ensures r.left == "" && r.top == "" && r.width == "" && r.height == "" && r.overflow == "" && r.zIndex == ""
  {
    Unstyled.(display := "flex", visibility := "visible", position := "relative", flex := "1", opacity := "1")
  }

  /** A restored panel is not hidden, whatever its style was. */
  lemma RestoredIsVisible(s: Style)
    ensures !IsPanelHidden(RestoreVisibility(s))
    ensures RestoreVisibility(RestoreVisibility(s)) == RestoreVisibility(s)
  {
  }

  // ---------------------------------------------------------------------
  // Loading

  /** `panelConfigs`: the element id of each known panel type. */
  const Configs: map<string, string> := map[
    "bpmn" := "bpmn-panel", "rasci" := "rasci-panel", "ppi" := "ppi-panel",
    "test" := "test-panel", "logs" := "logs-panel"]

  /** The id a panel of that type gets: the configured one, or the type
      followed by `-panel`. */
  function ExpectedId(panelType: string): (r: string)
    ensures panelType in Configs ==> r == Configs[panelType]
    ensures panelType !in Configs ==> r == panelType + "-panel"
  {
    if panelType in Configs then Configs[panelType] else panelType + "-panel"
  }

  /** `createFallbackPanel`: an unstyled panel with the expected id. */
  function FallbackPanel(panelType: string): (r: Panel)
    ensures r.id == ExpectedId(panelType) && r.panelType == panelType && !IsPanelHidden(r.style)
  {
    Panel(ExpectedId(panelType), panelType, Unstyled)
  }

  /** `loadPanel(panelType)`: nothing for an unknown type; a copy of the
      cached panel when there is one; otherwise the fetched panel, which is
      cached, or the fallback panel when the fetch failed. `fetched` is what
      the fetch produced. */
  function LoadPanel(panelType: string, cache: map<string, Panel>, fetched: Option<Panel>): (r: (Option<Panel>, map<string, Panel>))
    ensures r.0.None? <==> panelType !in Configs
    ensures panelType in cache && panelType in Configs ==> r == (Some(cache[panelType]), cache)
    ensures r.1.Keys == cache.Keys || r.1.Keys == cache.Keys + {panelType}
    ensures forall t :: t in cache && t != panelType ==> t in r.1 && r.1[t] == cache[t]
    ensures panelType in Configs && panelType !in cache && fetched.None? ==> r == (Some(FallbackPanel(panelType)), cache)
  {
    if panelType !in Configs then (None, cache)
    else if panelType in cache then (Some(cache[panelType]), cache)
    else match fetched
      case Some(p) => (Some(p), cache[panelType := p])
      case None => (Some(FallbackPanel(panelType)), cache)
  }

  /** Once a fetch has succeeded, later loads of that type use the cache
      and no longer depend on the fetch. */
  lemma LoadPanelCaches(panelType: string, cache: map<string, Panel>, p: Panel, later: Option<Panel>)
    requires panelType in Configs
    ensures var first := LoadPanel(panelType, cache, Some(p));
            LoadPanel(panelType, first.1, later) == (first.0, first.1)
  {
  }

  // ---------------------------------------------------------------------
  // Creating

  /** The panel `createPanel` finds in the container: the first with the
      expected id, else the first of that type. */
  function Existing(container: seq<Panel>, panelType: string): (r: Option<nat>)
    ensures r.Some? ==> (r.value < |container|
              && (container[r.value].id == ExpectedId(panelType) || container[r.value].panelType == panelType))
    ensures r.None? <==> forall i :: 0 <= i < |container| ==>
              container[i].id != ExpectedId(panelType) && container[i].panelType != panelType
    ensures (exists i :: 0 <= i < |container| && container[i].id == ExpectedId(panelType)) ==>
              r.Some? && container[r.value].id == ExpectedId(panelType)
              && forall j :: 0 <= j < r.value ==> container[j].id != ExpectedId(panelType)
    ensures (forall i :: 0 <= i < |container| ==> container[i].id != ExpectedId(panelType)) && r.Some? ==>
              container[r.value].panelType == panelType
              && forall j :: 0 <= j < r.value ==> container[j].panelType != panelType
  {
    var ids := seq(|container|, i requires 0 <= i < |container| => container[i].id);
    var types := seq(|container|, i requires 0 <= i < |container| => container[i].panelType);
    match Position(ids, ExpectedId(panelType))
    case Some(i) =>
      assert forall j :: 0 <= j < i ==> container[j].id != ExpectedId(panelType) by {
        forall j | 0 <= j < i ensures container[j].id != ExpectedId(panelType) {
          assert ids[j] in ids[..i];
        }
      }
      Some(i)
    case None =>
      assert forall i :: 0 <= i < |container| ==> container[i].id != ExpectedId(panelType) by {
        forall i | 0 <= i < |container| ensures container[i].id != ExpectedId(panelType) {
          assert ids[i] in ids;
        }
      }
      match Position(types, panelType)
      case Some(i) =>
        assert forall j :: 0 <= j < i ==> container[j].panelType != panelType by {
          forall j | 0 <= j < i ensures container[j].panelType != panelType {
            assert types[j] in types[..i];
          }
        }
        Some(i)
      case None =>
        forall i | 0 <= i < |container| ensures container[i].panelType != panelType {
          assert types[i] in types;
        }
        None
  }

  /** `createPanel(panelType, container)`: a panel already there is
      returned, shown again when hidden; otherwise the loaded panel gets
      its id (when it has none) and its type and is appended. */
  function CreatePanel(panelType: string, container: seq<Panel>, cache: map<string, Panel>, fetched: Option<Panel>)
    : (r: (Option<Panel>, seq<Panel>, map<string, Panel>))
    ensures Existing(container, panelType).Some? ==>
              var i := Existing(container, panelType).value;
              |r.1| == |container| && r.2 == cache && r.0 == Some(r.1[i]) && !IsPanelHidden(r.1[i].style)
              && r.1[i].id == container[i].id && r.1[i].panelType == container[i].panelType
              && (forall j :: 0 <= j < |container| && j != i ==> r.1[j] == container[j])
    ensures Existing(container, panelType).None? ==>
              (r.0.None? <==> panelType !in Configs)
              && (r.0.None? ==> r.1 == container)
              && (r.0.Some? ==> r.1 == container + [r.0.value] && r.0.value.panelType == panelType)
    ensures r.0.Some? ==> Existing(r.1, panelType).Some?
  {
    match Existing(container, panelType)
    case Some(i) =>
      var p := container[i];
      if IsPanelHidden(p.style) then
        var shown := p.(style := RestoreVisibility(p.style));
        var r := container[i := shown];
        assert r[i].id == ExpectedId(panelType) || r[i].panelType == panelType;
        (Some(shown), r, cache)
      else (Some(p), container, cache)
    case None =>
      var (loaded, cache2) := LoadPanel(panelType, cache, fetched);
      match loaded
      case None => (None, container, cache2)
      case Some(p) =>
        var placed := p.(id := if p.id == "" then ExpectedId(panelType) else p.id, panelType := panelType);
        var r := container + [placed];
        assert r[|container|].panelType == panelType;
        (Some(placed), r, cache2)
  }

  /** A second `createPanel` of the same type adds nothing: it finds the
      panel the first one returned or appended. */
  lemma CreateTwiceNoDuplicate(panelType: string, container: seq<Panel>, cache: map<string, Panel>, f1: Option<Panel>, f2: Option<Panel>)
    requires CreatePanel(panelType, container, cache, f1).0.Some?
    ensures var first := CreatePanel(panelType, container, cache, f1);
            var second := CreatePanel(panelType, first.1, first.2, f2);
            |second.1| == |first.1| && second.0.Some?
  {
  }

  // ---------------------------------------------------------------------
  // Reordering

  /** `reorderPanel(panel, targetIndex)` on the panel manager's list: no
      change when the panel is detached, already at that index in the
      container, has no type, there is no panel manager, or the type is
      not in the list; otherwise the type is taken out and put back at
      `targetIndex`, or at the end when that is past it. */
  function ReorderPanel(attached: bool, currentIndex: int, panelType: string, managerPresent: bool,
                        active: seq<string>, targetIndex: nat): (r: seq<string>)
    ensures (!attached || currentIndex == targetIndex || !Truthy(panelType) || !managerPresent || panelType !in active)
              ==> r == active
    ensures |r| == |active| && multiset(r) == multiset(active)
    ensures r != active ==> panelType in active
    ensures attached && currentIndex != targetIndex && Truthy(panelType) && managerPresent && panelType in active ==>
              var at := if targetIndex < |active| - 1 then targetIndex else |active| - 1;
              r[at] == panelType && Without(r, at) == Without(active, Position(active, panelType).value)
  {
    if !attached || currentIndex == targetIndex || !Truthy(panelType) || !managerPresent then active
    else match Position(active, panelType)
      case None => active
      case Some(i) => MoveTo(active, i, targetIndex)
  }

  /** Dragging the panel back to where it stood undoes the reorder, when
      the list holds its type once. */
  lemma ReorderBack(active: seq<string>, panelType: string, targetIndex: nat, index2: int)
    requires Truthy(panelType) && panelType in active && NoDup(active)
    requires index2 != Position(active, panelType).value
    ensures var moved := ReorderPanel(true, -1, panelType, true, active, targetIndex);
            ReorderPanel(true, index2, panelType, true, moved, Position(active, panelType).value) == active
  {
    var from := Position(active, panelType).value;
    var moved := ReorderPanel(true, -1, panelType, true, active, targetIndex);
    var at := if targetIndex < |active| - 1 then targetIndex else |active| - 1;
    assert moved == MoveTo(active, from, targetIndex);
    PermutationNoDup(active, moved);
    PositionOfUnique(moved, panelType, at);
    assert ReorderPanel(true, index2, panelType, true, moved, from) == MoveTo(moved, at, from);
    MoveBack(active, from, targetIndex);
  }

  /** In a list without repeats, an element's position is where it stands. */
  lemma PositionOfUnique(s: seq<string>, x: string, k: nat)
    requires NoDup(s) && k < |s| && s[k] == x
    ensures Position(s, x) == Some(k)
  {
    var p := Position(s, x).value;
    assert s[p] == s[k];
  }
}
