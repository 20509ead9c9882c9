/** The panel manager: which of the three panels (BPMN diagram, RASCI
    matrix, PPI indicators) are open and in which order, and the layout the
    number of panels selects. */
module PanelManager {
  import opened Common

  /** The keys of `availablePanels`. */
  const AvailablePanels: set<string> := {"bpmn", "rasci", "ppi"}

  /** Only the BPMN panel is open at start. */
  const InitialPanels: seq<string> := ["bpmn"]

  /** The layout `updateLayoutOptions` picks for the number of open panels;
      none for zero. */
  function LayoutForActive(n: nat): (r: Option<string>)
    ensures r.None? <==> n == 0
    ensures n == 1 ==> r == Some("1")
    ensures n == 2 ==> r == Some("2v")
    ensures n == 3 ==> r == Some("3v")
    ensures n >= 4 ==> r == Some("4v")
  {
    if n == 1 then Some("1")
    else if n == 2 then Some("2v")
    else if n == 3 then Some("3v")
    else if n >= 4 then Some("4v")
    else None
  }

  /** The layout `adjustLayoutForVisiblePanels` picks for the number of
      visible panels; none for zero. */
  function LayoutForVisible(n: nat): (r: Option<string>)
    ensures r.None? <==> n == 0
    ensures n == 1 ==> r == Some("1")
    ensures n == 2 ==> r == Some("2v")
    ensures n == 3 ==> r == Some("3v")
    ensures n >= 4 ==> r == Some("4")
  {
    if n >= 4 then Some("4") else LayoutForActive(n)
  }

  /** The two layout choices agree up to three panels and part ways from
      four on: one picks the vertical four-panel layout, the other the grid. */
  lemma LayoutsDifferFromFour(n: nat)
    ensures LayoutForActive(n) == LayoutForVisible(n) <==> n < 4
  {
  }

  /** `adjustLayoutForVisiblePanels`: the current layout changes only when
      some panel is visible and the new layout differs from it. */
  function AdjustLayout(current: Option<string>, visible: nat): (r: Option<string>)
    ensures visible == 0 ==> r == current
    ensures visible > 0 ==> r == LayoutForVisible(visible)
  {
    var l := LayoutForVisible(visible);
    if l.Some? && l != current then l else current
  }

  /** A click on a panel's entry in the selector: an open panel is closed,
      a closed one is opened at the end. */
  function TogglePanel(active: seq<string>, key: string): (r: seq<string>)
    ensures key in r <==> key !in active
    ensures forall k :: k != key ==> (k in r <==> k in active)
    ensures key !in active ==> r == active + [key]
    ensures key in active ==> IsSubsequence(r, active)
    ensures NoDup(active) ==> NoDup(r)
  {
    if key in active then
      var r := Filter(active, (p: string) => p != key);
      assert NoDup(active) ==> NoDup(r) by {
        if NoDup(active) { FilterNoDup(active, (p: string) => p != key); }
      }
      r
    else active + [key]
  }

  /** Opening a closed panel and closing it again gives the old list back. */
  lemma ToggleTwiceRestores(active: seq<string>, key: string)
    requires key !in active
    ensures TogglePanel(TogglePanel(active, key), key) == active
  {
    var f := (p: string) => p != key;
    var s := active + [key];
    assert s == active + [key];
    FilterAppendLast(active, key, f);
  }

  lemma {:induction false} FilterAppendLast(active: seq<string>, key: string, f: string -> bool)
    requires key !in active && !f(key)
    requires forall p :: f(p) <==> p != key
    ensures Filter(active + [key], f) == active
    decreases |active|
  {
    if |active| == 0 {
      assert active + [key] == [key];
    } else {
      assert (active + [key])[1..] == active[1..] + [key];
      assert active[0] in active;
      assert forall x :: x in active[1..] ==> x in active;
      FilterAppendLast(active[1..], key, f);
      assert active == [active[0]] + active[1..];
    }
  }

  /** `reorderPanels(dragged, target)`: nothing when either panel is not
      open; otherwise the dragged panel is taken out and put where the
      target panel stood. */
  function ReorderPanels(active: seq<string>, dragged: string, target: string): (r: seq<string>)
    ensures dragged !in active || target !in active ==> r == active
    ensures multiset(r) == multiset(active) && |r| == |active|
    ensures dragged in active && target in active ==>
              var t := Position(active, target).value;
              r[t] == dragged && Without(r, t) == Without(active, Position(active, dragged).value)
  {
    match (Position(active, dragged), Position(active, target))
    case (Some(d), Some(t)) => MoveTo(active, d, t)
    case _ => active
  }

  /** Reordering never duplicates or loses a panel. */
  lemma ReorderKeepsPanels(active: seq<string>, dragged: string, target: string)
    requires NoDup(active)
    ensures NoDup(ReorderPanels(active, dragged, target))
    ensures forall k :: k in ReorderPanels(active, dragged, target) <==> k in active
  {
    var r := ReorderPanels(active, dragged, target);
    PermutationNoDup(active, r);
    assert forall k :: k in r <==> k in multiset(r);
  }

  /** One row of the order list: its one-based number and the panel. */
  datatype OrderRow = OrderRow(number: nat, key: string)

  /** `generatePanelOrder()`: a notice with fewer than two open panels;
      otherwise a numbered row per open panel, numbered by position, with
      unknown keys left blank. */
  function GeneratePanelOrder(active: seq<string>): (r: Option<seq<Option<OrderRow>>>)
    ensures r.None? <==> |active| <= 1
    ensures r.Some? ==> |r.value| == |active|
    ensures r.Some? ==> forall i :: 0 <= i < |active| ==>
              (r.value[i].Some? <==> active[i] in AvailablePanels) &&
              (r.value[i].Some? ==> r.value[i].value == OrderRow(i + 1, active[i]))
  {
    if |active| <= 1 then None
    else Some(seq(|active|, i requires 0 <= i < |active| =>
      if active[i] in AvailablePanels then Some(OrderRow(i + 1, active[i])) else None))
  }

  /** The shown numbers run 1, 2, … in list order, so after a reorder the
      dragged panel shows the number of the place it was dropped on. */
  lemma OrderNumbersFollowReorder(active: seq<string>, dragged: string, target: string)
    requires dragged in active && target in active && dragged in AvailablePanels && |active| >= 2
    ensures var r := GeneratePanelOrder(ReorderPanels(active, dragged, target));
            r.Some? && r.value[Position(active, target).value] == Some(OrderRow(Position(active, target).value + 1, dragged))
  {
    var moved := ReorderPanels(active, dragged, target);
    var t := Position(active, target).value;
    assert moved[t] == dragged && t < |moved|;
    var g := GeneratePanelOrder(moved);
    assert g.Some? && |g.value| == |moved|;
    assert g.value[t].Some? ==> g.value[t].value == OrderRow(t + 1, moved[t]);
    assert moved[t] in AvailablePanels;
  }
}
