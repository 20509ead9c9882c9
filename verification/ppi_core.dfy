/** The PPI core store (`PPICore`): the ordered list of PPI records and the
    operations that add, merge, delete, purge, filter and summarise them.
    The canvas is the element registry, or None when no modeller is
    available. */
module PpiCore {
  import opened Common
  import opened Diagram
  import opened PpiModel

  /** `ppis.findIndex(p => p.id === id)`. */
  function IndexOfId(ppis: seq<Ppi>, id: string): (r: Option<nat>)
    ensures r.Some? ==> r.value < |ppis| && ppis[r.value].id == id
    ensures r.Some? ==> forall j :: 0 <= j < r.value ==> ppis[j].id != id
    ensures r.None? <==> forall j :: 0 <= j < |ppis| ==> ppis[j].id != id
    decreases |ppis|
  {
    if |ppis| == 0 then None
    else if ppis[0].id == id then Some(0)
    else match IndexOfId(ppis[1..], id)
      case None => None
      case Some(i) => Some(i + 1)
  }

  /** `ppis.findIndex(p => p.elementId === e)`. */
  function IndexOfElement(ppis: seq<Ppi>, e: string): (r: Option<nat>)
    ensures r.Some? ==> r.value < |ppis| && ppis[r.value].elementId == e
    ensures r.Some? ==> forall j :: 0 <= j < r.value ==> ppis[j].elementId != e
    ensures r.None? <==> forall j :: 0 <= j < |ppis| ==> ppis[j].elementId != e
    decreases |ppis|
  {
    if |ppis| == 0 then None
    else if ppis[0].elementId == e then Some(0)
    else match IndexOfElement(ppis[1..], e)
      case None => None
      case Some(i) => Some(i + 1)
  }

  function RemoveAt<T>(s: seq<T>, i: nat): (r: seq<T>)
    requires i < |s|
    ensures |r| == |s| - 1
    ensures forall j :: 0 <= j < i ==> r[j] == s[j]
    ensures forall j :: i <= j < |r| ==> r[j] == s[j + 1]
  {
    s[..i] + s[i + 1..]
  }

  /** At most one record is bound to any one canvas element. */
  predicate UniqueBindings(ppis: seq<Ppi>) {
    forall i, j :: 0 <= i < j < |ppis| && Truthy(ppis[i].elementId) ==> ppis[i].elementId != ppis[j].elementId
  }

  /** `getPPIsForElement(e)`: the records bound to element `e`. */
  function ForElement(ppis: seq<Ppi>, e: string): (r: seq<Ppi>)
    ensures forall p :: p in r <==> p in ppis && p.elementId == e
    ensures IsSubsequence(r, ppis)
  {
    Filter(ppis, (p: Ppi) => p.elementId == e)
  }

  /** `addPPI`: a record bound to an element replaces the first record bound
      to the same element; the new record always goes last. */
  function AddPpi(ppis: seq<Ppi>, p: Ppi): (r: seq<Ppi>)
    ensures |r| >= 1 && r[|r| - 1] == p
    ensures !Truthy(p.elementId) ==> r == ppis + [p]
    ensures |r| == |ppis| <==> Truthy(p.elementId) && exists j :: 0 <= j < |ppis| && ppis[j].elementId == p.elementId
    ensures |r| == |ppis| || |r| == |ppis| + 1
    ensures forall q :: q in ppis && q.elementId != p.elementId ==> q in r
    ensures forall q :: q in r ==> q in ppis || q == p
  {
    if Truthy(p.elementId) then
      match IndexOfElement(ppis, p.elementId)
      case None => ppis + [p]
      case Some(i) =>
        assert forall q :: q in ppis && q != ppis[i] ==> q in RemoveAt(ppis, i) by {
          forall q | q in ppis && q != ppis[i] ensures q in RemoveAt(ppis, i) {
            var k :| 0 <= k < |ppis| && ppis[k] == q;
            if k < i { assert RemoveAt(ppis, i)[k] == q; } else { assert RemoveAt(ppis, i)[k - 1] == q; }
          }
        }
        RemoveAt(ppis, i) + [p]
    else ppis + [p]
  }

  /** Adding keeps the one-record-per-element invariant, and afterwards the
      new record is the only one bound to its element. */
  lemma AddKeepsBindingsUnique(ppis: seq<Ppi>, p: Ppi)
    requires UniqueBindings(ppis)
    ensures UniqueBindings(AddPpi(ppis, p))
    ensures Truthy(p.elementId) ==> ForElement(AddPpi(ppis, p), p.elementId) == [p]
  {
    var r := AddPpi(ppis, p);
    if Truthy(p.elementId) {
      match IndexOfElement(ppis, p.elementId)
      case None =>
        assert forall j :: 0 <= j < |r| - 1 ==> r[j].elementId != p.elementId;
        ForElementOnly(r, p);
      case Some(i) =>
        forall j | 0 <= j < |r| - 1 ensures r[j].elementId != p.elementId {
          if j >= i { assert r[j] == ppis[j + 1]; }
        }
        ForElementOnly(r, p);
    }
  }

  lemma {:induction false} ForElementOnly(r: seq<Ppi>, p: Ppi)
    requires |r| >= 1 && r[|r| - 1] == p
    requires forall j :: 0 <= j < |r| - 1 ==> r[j].elementId != p.elementId
    ensures ForElement(r, p.elementId) == [p]
    decreases |r|
  {
    if |r| > 1 {
      ForElementOnly(r[1..], p);
    }
  }

  predicate IsChild(e: Element, parent: string, kind: string) {
    e.parent == parent && e.kind == kind
  }

  predicate HasChild(reg: Registry, parent: string, kind: string) {
    exists i :: 0 <= i < |reg| && IsChild(reg[i], parent, kind)
  }

  /** `reg[i]` is the child `all.find` picks: the first of its kind under
      `parent`. */
  predicate FirstChildAt(reg: Registry, parent: string, kind: string, i: int) {
    0 <= i < |reg| && IsChild(reg[i], parent, kind) && forall j :: 0 <= j < i ==> !IsChild(reg[j], parent, kind)
  }

  /** Past a first element that is not such a child, the first child is
      found one place further on. */
  lemma FirstChildShift(reg: Registry, parent: string, kind: string)
    requires |reg| > 0 && !IsChild(reg[0], parent, kind)
    ensures !FirstChildAt(reg, parent, kind, 0)
    ensures forall i :: 0 < i < |reg| ==> (FirstChildAt(reg, parent, kind, i) <==> FirstChildAt(reg[1..], parent, kind, i - 1))
  {
    forall i | 0 < i < |reg|
      ensures FirstChildAt(reg, parent, kind, i) <==> FirstChildAt(reg[1..], parent, kind, i - 1)
    {
      if FirstChildAt(reg[1..], parent, kind, i - 1) {
        forall j | 0 <= j < i ensures !IsChild(reg[j], parent, kind) {
          if j > 0 { assert reg[j] == reg[1..][j - 1]; }
        }
      }
    }
  }

  /** Whenever `parent` has a child of that kind, one of them comes first. */
  lemma {:induction false} HasFirstChild(reg: Registry, parent: string, kind: string)
    ensures HasChild(reg, parent, kind) ==> exists i :: FirstChildAt(reg, parent, kind, i)
    decreases |reg|
  {
    if |reg| > 0 && HasChild(reg, parent, kind) {
      if IsChild(reg[0], parent, kind) {
        assert FirstChildAt(reg, parent, kind, 0);
      } else {
        var i :| 0 <= i < |reg| && IsChild(reg[i], parent, kind);
        assert IsChild(reg[1..][i - 1], parent, kind);
        HasFirstChild(reg[1..], parent, kind);
        var k :| FirstChildAt(reg[1..], parent, kind, k);
        FirstChildShift(reg, parent, kind);
        assert FirstChildAt(reg, parent, kind, k + 1);
      }
    }
  }

  /** The first Target (or Scope) child of `parent` takes the new name;
      nothing else changes. */
  function RenameFirstChild(reg: Registry, parent: string, kind: string, name: string): (r: Registry)
    ensures |r| == |reg|
    ensures forall i :: 0 <= i < |reg| ==> r[i] == if FirstChildAt(reg, parent, kind, i) then reg[i].(name := name) else reg[i]
    ensures HasChild(reg, parent, kind) ==> exists i :: FirstChildAt(reg, parent, kind, i)
    ensures !HasChild(reg, parent, kind) ==> r == reg
    decreases |reg|
  {
    HasFirstChild(reg, parent, kind);
    if |reg| == 0 then reg
    else if IsChild(reg[0], parent, kind) then
      assert FirstChildAt(reg, parent, kind, 0);
      [reg[0].(name := name)] + reg[1..]
    else
      var rest := RenameFirstChild(reg[1..], parent, kind, name);
      FirstChildShift(reg, parent, kind);
      assert !HasChild(reg, parent, kind) ==> !HasChild(reg[1..], parent, kind) by {
        if HasChild(reg[1..], parent, kind) {
          var i :| 0 <= i < |reg[1..]| && IsChild(reg[1..][i], parent, kind);
          assert IsChild(reg[i + 1], parent, kind);
        }
      }
      [reg[0]] + rest
  }

  /** Renaming changes names only, so which child comes first is the same
      for every parent and kind. */
  lemma RenameKeepsFirstChild(reg: Registry, parent: string, kind: string, name: string, p: string, k: string)
    ensures forall i :: FirstChildAt(RenameFirstChild(reg, parent, kind, name), p, k, i) <==> FirstChildAt(reg, p, k, i)
  {
    var r := RenameFirstChild(reg, parent, kind, name);
    assert forall i :: 0 <= i < |reg| ==> (IsChild(r[i], p, k) <==> IsChild(reg[i], p, k));
  }

  /** An update from the form, for a PPI bound to an element on the canvas. */
  predicate FormSyncs(reg: Registry, parentId: string, d: Patch) {
    d.origin == Some("form") && Truthy(parentId) && Has(reg, parentId)
  }

  /** The form-to-canvas synchronisation of `updatePPI`: an update that comes
      from the form and carries `target` or `scope` renames the first child
      shape of that kind under the PPI's element; nothing else changes. */
  function SyncFormToCanvas(reg: Registry, parentId: string, d: Patch): (r: Registry)
    ensures |r| == |reg|
    ensures forall i :: 0 <= i < |reg| ==> r[i] == reg[i].(name := r[i].name)
    ensures !FormSyncs(reg, parentId, d) ==> r == reg
    ensures FormSyncs(reg, parentId, d) && d.target.Some? ==>
              forall i :: FirstChildAt(reg, parentId, "PPINOT:Target", i) ==> r[i].name == d.target.value
    ensures FormSyncs(reg, parentId, d) && d.scope.Some? ==>
              forall i :: FirstChildAt(reg, parentId, "PPINOT:Scope", i) ==> r[i].name == d.scope.value
    ensures forall i :: 0 <= i < |reg| && r[i] != reg[i] ==>
              (d.target.Some? && FirstChildAt(reg, parentId, "PPINOT:Target", i))
              || (d.scope.Some? && FirstChildAt(reg, parentId, "PPINOT:Scope", i))
  {
    if FormSyncs(reg, parentId, d) && (d.target.Some? || d.scope.Some?) then
      var withTarget := if d.target.Some? then RenameFirstChild(reg, parentId, "PPINOT:Target", d.target.value) else reg;
      assert forall i :: FirstChildAt(withTarget, parentId, "PPINOT:Scope", i) <==> FirstChildAt(reg, parentId, "PPINOT:Scope", i) by {
        if d.target.Some? {
          RenameKeepsFirstChild(reg, parentId, "PPINOT:Target", d.target.value, parentId, "PPINOT:Scope");
        }
      }
      if d.scope.Some? then RenameFirstChild(withTarget, parentId, "PPINOT:Scope", d.scope.value) else withTarget
    else reg
  }

  datatype Outcome = Outcome(found: bool, ppis: seq<Ppi>, canvas: Option<Registry>)

  /** The record `updatePPI` stores: the old record with the update spread
      over it, except for `__source`, and a fresh `updatedAt`. */
  function Merged(p: Ppi, d: Patch, now: int): (r: Ppi)
    ensures SpreadFields(p, d, r)
    ensures r.origin == p.origin && r.updatedAt == now
    ensures r.id == p.id && r.bpmnLink == p.bpmnLink
  {
    Overlay(p, d.(origin := None)).(updatedAt := now)
  }

  /** `updatePPI(id, data)`. */
  function UpdatePpi(ppis: seq<Ppi>, canvas: Option<Registry>, id: string, d: Patch, now: int): (r: Outcome)
    ensures r.found <==> exists j :: 0 <= j < |ppis| && ppis[j].id == id
    ensures !r.found ==> r.ppis == ppis && r.canvas == canvas
    ensures |r.ppis| == |ppis|
    ensures r.found ==> var i := IndexOfId(ppis, id).value;
              r.ppis[i] == Merged(ppis[i], d, now) && forall j :: 0 <= j < |ppis| && j != i ==> r.ppis[j] == ppis[j]
    ensures r.canvas.Some? <==> canvas.Some?
    ensures r.canvas.Some? ==> |r.canvas.value| == |canvas.value|
    ensures r.found && canvas.Some? ==>
              r.canvas.value == SyncFormToCanvas(canvas.value, r.ppis[IndexOfId(ppis, id).value].elementId, d)
  {
    match IndexOfId(ppis, id)
    case None => Outcome(false, ppis, canvas)
    case Some(i) =>
      var merged := Merged(ppis[i], d, now);
      var canvas' := match canvas
        case None => None
        case Some(reg) => Some(SyncFormToCanvas(reg, merged.elementId, d));
      Outcome(true, ppis[i := merged], canvas')
  }

  /** A form update that carries a target, for a PPI whose element has a
      Target child on the canvas, gives that element's first Target child the
      new target as its name. */
  lemma FormUpdateRenamesTarget(ppis: seq<Ppi>, reg: Registry, id: string, d: Patch, now: int)
    requires IndexOfId(ppis, id).Some?
    requires var e := Merged(ppis[IndexOfId(ppis, id).value], d, now).elementId;
             FormSyncs(reg, e, d) && d.target.Some? && HasChild(reg, e, "PPINOT:Target")
    ensures var e := Merged(ppis[IndexOfId(ppis, id).value], d, now).elementId;
            var r := UpdatePpi(ppis, Some(reg), id, d, now);
            r.canvas.Some? && exists i :: FirstChildAt(reg, e, "PPINOT:Target", i) && r.canvas.value[i].name == d.target.value
  {
    var e := Merged(ppis[IndexOfId(ppis, id).value], d, now).elementId;
    HasFirstChild(reg, e, "PPINOT:Target");
  }

  /** The shape types `deletePPIFromCanvas` removes together with a PPI. */
  predicate IsPpiPart(kind: string) {
    kind == "PPINOT:Scope" || kind == "PPINOT:Target" || kind == "PPINOT:Measure" || kind == "PPINOT:Condition"
  }

  /** `deletePPIFromCanvas`: removes the PPI shape and its Scope, Target,
      Measure and Condition children. */
  function RemoveFromCanvas(reg: Registry, e: string): (r: Registry)
    ensures Truthy(e) ==> !Has(r, e)
    ensures forall x :: x in r <==> x in reg && !(Truthy(e) && Has(reg, e) && (x.id == e || (x.parent == e && IsPpiPart(x.kind))))
  {
    if !Truthy(e) || !Has(reg, e) then reg
    else
      var r := Filter(reg, (x: Element) => !(x.id == e || (x.parent == e && IsPpiPart(x.kind))));
      assert forall i :: 0 <= i < |r| ==> r[i] in r;
      r
  }

  /** A record survives the orphan purge when it is unbound or its element
      is still on the canvas. */
  predicate Kept(reg: Registry, p: Ppi) {
    !Truthy(p.elementId) || Has(reg, p.elementId)
  }

  /** `purgeOrphanedPPIs`. */
  function Purge(ppis: seq<Ppi>, reg: Registry): (r: seq<Ppi>)
    ensures IsSubsequence(r, ppis)
    ensures forall p :: p in r <==> p in ppis && Kept(reg, p)
    ensures (forall i :: 0 <= i < |ppis| ==> Kept(reg, ppis[i])) <==> r == ppis
  {
    Filter(ppis, (p: Ppi) => Kept(reg, p))
  }

  /** Purging twice is purging once. */
  lemma PurgeIdempotent(ppis: seq<Ppi>, reg: Registry)
    ensures Purge(Purge(ppis, reg), reg) == Purge(ppis, reg)
  {
    FilterIdempotent(ppis, (p: Ppi) => Kept(reg, p));
  }

  /** `deletePPI(id)`: the canvas shapes go first, then the record, then every
      record the canvas removal orphaned. */
  function DeletePpi(ppis: seq<Ppi>, canvas: Option<Registry>, id: string): (r: Outcome)
    ensures r.found <==> exists j :: 0 <= j < |ppis| && ppis[j].id == id
    ensures !r.found ==> r.ppis == ppis && r.canvas == canvas
    ensures r.found ==> |r.ppis| < |ppis|
    ensures r.found ==> IndexOfId(ppis, id).Some?
    ensures r.found && canvas.None? ==> r.ppis == RemoveAt(ppis, IndexOfId(ppis, id).value) && r.canvas.None?
    ensures r.found && canvas.Some? ==>
              var rest := RemoveAt(ppis, IndexOfId(ppis, id).value);
              r.canvas == Some(RemoveFromCanvas(canvas.value, ppis[IndexOfId(ppis, id).value].elementId))
              && IsSubsequence(r.ppis, rest)
              && forall p :: p in r.ppis <==> p in rest && Kept(r.canvas.value, p)
  {
    match IndexOfId(ppis, id)
    case None => Outcome(false, ppis, canvas)
    case Some(i) =>
      var rest := RemoveAt(ppis, i);
      match canvas
      case None =>
        SubsequenceReflexive(rest);
        Outcome(true, rest, None)
      case Some(reg) =>
        var reg' := RemoveFromCanvas(reg, ppis[i].elementId);
        Outcome(true, Purge(rest, reg'), Some(reg'))
  }

  /** Deleting a record just added, unbound and with a fresh id, gives the
      list back. */
  lemma AddThenDeleteRestores(ppis: seq<Ppi>, p: Ppi)
    requires !Truthy(p.elementId)
    requires forall j :: 0 <= j < |ppis| ==> ppis[j].id != p.id
    ensures DeletePpi(AddPpi(ppis, p), None, p.id) == Outcome(true, ppis, None)
  {
    var added := AddPpi(ppis, p);
    assert added[|ppis|].id == p.id;
    assert IndexOfId(added, p.id) == Some(|ppis|);
    assert RemoveAt(added, |ppis|) == ppis;
  }

  /** With a canvas, deleting a bound record leaves no record bound to its
      element. */
  lemma DeleteUnbindsElement(ppis: seq<Ppi>, reg: Registry, i: nat)
    requires i < |ppis| && Truthy(ppis[i].elementId)
    requires forall j :: 0 <= j < i ==> ppis[j].id != ppis[i].id
    ensures ForElement(DeletePpi(ppis, Some(reg), ppis[i].id).ppis, ppis[i].elementId) == []
  {
    var e := ppis[i].elementId;
    assert IndexOfId(ppis, ppis[i].id) == Some(i);
    var reg' := RemoveFromCanvas(reg, e);
    assert !Has(reg', e);
    var r := DeletePpi(ppis, Some(reg), ppis[i].id);
    assert r.ppis == Purge(RemoveAt(ppis, i), reg');
    var f := ForElement(r.ppis, e);
    forall p | p in r.ppis ensures p.elementId != e {
      assert Kept(reg', p);
    }
    EmptyIfNoMember(f);
  }

  predicate MatchesSearch(p: Ppi, term: string) {
    !Truthy(term) || Contains(ToLower(p.title), term) || Contains(ToLower(p.process), term)
    || Contains(ToLower(p.businessObjective), term)
  }

  predicate MatchesType(p: Ppi, typeFilter: string) {
    !Truthy(typeFilter) || (p.measure.Some? && p.measure.value.kind == typeFilter)
  }

  predicate MatchesStatus(p: Ppi, status: string) {
    if status == "linked" then Truthy(p.elementId)
    else if status == "unlinked" then !Truthy(p.elementId)
    else true
  }

  /** The test `filterPPIs` applies to each record. */
  function Matcher(term: string, typeFilter: string, status: string): Ppi -> bool {
    (p: Ppi) => MatchesSearch(p, term) && MatchesType(p, typeFilter) && MatchesStatus(p, status)
  }

  /** `filterPPIs(searchTerm, typeFilter, statusFilter)`. */
  function FilterPpis(ppis: seq<Ppi>, term: string, typeFilter: string, status: string): (r: seq<Ppi>)
    ensures IsSubsequence(r, ppis)
    ensures forall p :: p in r <==> p in ppis && MatchesSearch(p, term) && MatchesType(p, typeFilter) && MatchesStatus(p, status)
  {
    Filter(ppis, Matcher(term, typeFilter, status))
  }

  /** Every record is either linked or unlinked: the two status filters
      split the list. */
  lemma LinkedUnlinkedSplit(ppis: seq<Ppi>)
    ensures |FilterPpis(ppis, "", "", "linked")| + |FilterPpis(ppis, "", "", "unlinked")| == |ppis|
  {
    FilterSplit(ppis, Matcher("", "", "linked"), Matcher("", "", "unlinked"));
  }

  function IsLinked(p: Ppi): bool {
    Truthy(p.elementId)
  }

  /** The element id or type mentions `word` in any case. */
  predicate Mentions(elementId: string, elementType: string, word: string) {
    Contains(ToLower(elementId), word) || Contains(ToLower(elementType), word)
  }

  /** `detectMeasureType(id, type)` of the core: the first of time, count,
      data, state and aggregated that the id or type mentions, else
      derived. */
  function DetectMeasureType(elementId: string, elementType: string): (r: string)
    ensures r in {"time", "count", "data", "state", "aggregated", "derived"}
    ensures r == "time" <==> Mentions(elementId, elementType, "time")
    ensures r == "count" <==> !Mentions(elementId, elementType, "time") && Mentions(elementId, elementType, "count")
    ensures r == "data" <==> !Mentions(elementId, elementType, "time") && !Mentions(elementId, elementType, "count")
                             && Mentions(elementId, elementType, "data")
    ensures r == "state" <==> !Mentions(elementId, elementType, "time") && !Mentions(elementId, elementType, "count")
                              && !Mentions(elementId, elementType, "data") && Mentions(elementId, elementType, "state")
    ensures r == "aggregated" <==> !Mentions(elementId, elementType, "time") && !Mentions(elementId, elementType, "count")
                                   && !Mentions(elementId, elementType, "data") && !Mentions(elementId, elementType, "state")
                                   && Mentions(elementId, elementType, "aggregated")
    ensures r == "derived" <==> !Mentions(elementId, elementType, "time") && !Mentions(elementId, elementType, "count")
                                && !Mentions(elementId, elementType, "data") && !Mentions(elementId, elementType, "state")
                                && !Mentions(elementId, elementType, "aggregated")
  {
    var id, t := ToLower(elementId), ToLower(elementType);
    if Contains(id, "time") || Contains(t, "time") then "time"
    else if Contains(id, "count") || Contains(t, "count") then "count"
    else if Contains(id, "data") || Contains(t, "data") then "data"
    else if Contains(id, "state") || Contains(t, "state") then "state"
    else if Contains(id, "aggregated") || Contains(t, "aggregated") then "aggregated"
    else "derived"
  }

  /** The detection ignores case: lower-casing the id and the type first
      changes nothing. */
  lemma DetectIgnoresCase(elementId: string, elementType: string)
    ensures DetectMeasureType(ToLower(elementId), ToLower(elementType)) == DetectMeasureType(elementId, elementType)
  {
    ToLowerIdempotent(elementId);
    ToLowerIdempotent(elementType);
  }

  datatype Statistics = Statistics(total: nat, linked: nat, timeMeasures: nat)

  function IsTimeMeasure(p: Ppi): bool {
    p.measure.Some? && p.measure.value.kind == "time"
  }

  /** `getStatistics`. */
  function GetStatistics(ppis: seq<Ppi>): (r: Statistics)
    ensures r.total == |ppis|
    ensures r.linked <= r.total && r.timeMeasures <= r.total
    ensures r.linked == 0 <==> forall i :: 0 <= i < |ppis| ==> !Truthy(ppis[i].elementId)
    ensures r.timeMeasures == 0 <==> forall i :: 0 <= i < |ppis| ==> !IsTimeMeasure(ppis[i])
  {
    var linked, timed := Filter(ppis, IsLinked), Filter(ppis, IsTimeMeasure);
    assert forall i :: 0 <= i < |ppis| ==> ppis[i] in ppis;
    assert |linked| > 0 ==> linked[0] in linked;
    assert |timed| > 0 ==> timed[0] in timed;
    Statistics(|ppis|, |linked|, |timed|)
  }

  /** The linked count of the statistics is the size of the 'linked' view of
      the list. */
  lemma StatisticsMatchFilter(ppis: seq<Ppi>)
    ensures GetStatistics(ppis).linked == |FilterPpis(ppis, "", "", "linked")|
    ensures GetStatistics(ppis).timeMeasures == |FilterPpis(ppis, "", "time", "")|
  {
    FilterSameTest(ppis, IsLinked, Matcher("", "", "linked"));
    FilterSameTest(ppis, IsTimeMeasure, Matcher("", "time", ""));
  }

  /** `truncateText(text, maxLength)`; the source's default length is 40. */
  function TruncateText(text: string, maxLength: nat): (r: string)
    ensures !Truthy(text) ==> r == ""
    ensures |text| <= maxLength ==> r == text
    ensures |text| > maxLength ==> |r| == maxLength + 3 && r[..maxLength] == text[..maxLength] && EndsWith(r, "...")
  {
    if !Truthy(text) then ""
    else if |text| > maxLength then text[..maxLength] + "..."
    else text
  }

  const DefaultTruncateLength: nat := 40

  /** A form value after `parseFormData`. */
  datatype FormValue =
    | Text(text: string)
    | Definition(kind: string, definition: string)
    | Items(items: seq<string>)

  /** The keys of the submitted form entries. */
  function EntryKeys(entries: seq<(string, string)>): set<string> {
    set i | 0 <= i < |entries| :: entries[i].0
  }

  /** Entry `i` is the last entry with key `k`. */
  predicate LastEntry(entries: seq<(string, string)>, k: string, i: int) {
    0 <= i < |entries| && entries[i].0 == k && forall j :: i < j < |entries| ==> entries[j].0 != k
  }

  /** `data[key] = value.trim()` for every entry, the last entry of a key
      winning. */
  function CollectEntries(entries: seq<(string, string)>): (r: map<string, string>)
    ensures r.Keys == EntryKeys(entries)
    ensures forall k :: k in r ==> Trimmed(r[k])
    decreases |entries|
  {
    if |entries| == 0 then map[]
    else
      var init := entries[..|entries| - 1];
      var last := entries[|entries| - 1];
      assert EntryKeys(entries) == EntryKeys(init) + {last.0} by {
        assert forall i :: 0 <= i < |init| ==> init[i] == entries[i];
      }
      var m := CollectEntries(init);
      var v := Trim(last.1);
      assert Trimmed(v);
      m[last.0 := v]
  }

  /** Every value of `r` is the trimmed value of the last entry with its
      key. */
  ghost predicate TiedToLast(entries: seq<(string, string)>, r: map<string, string>) {
    forall k :: k in r ==> exists i :: LastEntry(entries, k, i) && r[k] == Trim(entries[i].1)
  }

  /** Each collected value is the trimmed value of the last entry with its
      key. */
  lemma {:induction false} CollectEntriesLast(entries: seq<(string, string)>)
    ensures TiedToLast(entries, CollectEntries(entries))
    decreases |entries|
  {
    if |entries| > 0 {
      var init := entries[..|entries| - 1];
      var last := entries[|entries| - 1];
      CollectEntriesLast(init);
      var m := CollectEntries(init);
      assert CollectEntries(entries) == m[last.0 := Trim(last.1)];
      CollectStep(entries, init, m);
    }
  }

  /** Adding the last entry to what the earlier entries collected keeps
      every key tied to its last entry. */
  lemma CollectStep(entries: seq<(string, string)>, init: seq<(string, string)>, m: map<string, string>)
    requires |entries| > 0 && init == entries[..|entries| - 1]
    requires TiedToLast(init, m)
    ensures TiedToLast(entries, m[entries[|entries| - 1].0 := Trim(entries[|entries| - 1].1)])
  {
    var last := entries[|entries| - 1];
    var r := m[last.0 := Trim(last.1)];
    forall k | k in r ensures exists i :: LastEntry(entries, k, i) && r[k] == Trim(entries[i].1) {
      if k == last.0 {
        assert LastEntry(entries, k, |entries| - 1);
      } else {
        var i :| LastEntry(init, k, i) && m[k] == Trim(init[i].1);
        ExtendLast(entries, k, i);
        assert init[i] == entries[i];
      }
    }
  }

  lemma ExtendLast(entries: seq<(string, string)>, k: string, i: int)
    requires |entries| > 0 && entries[|entries| - 1].0 != k
    requires LastEntry(entries[..|entries| - 1], k, i)
    ensures LastEntry(entries, k, i)
  {
    var init := entries[..|entries| - 1];
    forall j | i < j < |entries| ensures entries[j].0 != k {
      if j < |init| { assert init[j] == entries[j]; }
    }
  }

  /** `value.split(',').map(s => s.trim())`. */
  function SplitItems(s: string): (r: seq<string>)
    ensures |r| >= 1
    ensures forall k :: 0 <= k < |r| ==> ',' !in r[k] && Trimmed(r[k])
    ensures |r| == |Split(s, ',')| && forall k :: 0 <= k < |r| ==> r[k] == Trim(Split(s, ',')[k])
  {
    var pieces := Split(s, ',');
    seq(|pieces|, k requires 0 <= k < |pieces| => TrimInside(pieces[k]))
  }

  /** Items without commas and without surrounding spaces, joined with
      commas, split back into themselves. */
  lemma SplitItemsJoin(items: seq<string>)
    requires |items| >= 1
    requires forall k :: 0 <= k < |items| ==> ',' !in items[k] && Trimmed(items[k])
    ensures SplitItems(Join(items, ',')) == items
  {
    SplitJoin(items, ',');
    forall k | 0 <= k < |items| ensures Trim(items[k]) == items[k] {
      TrimmedIsFixed(items[k]);
    }
  }

  function TrimInside(s: string): (r: string)
    requires ',' !in s
    ensures ',' !in r && Trimmed(r)
  {
    TrimSub(s);
    Trim(s)
  }

  lemma TrimSub(s: string)
    ensures forall c :: c in Trim(s) ==> c in s
  {
    var t := TrimStart(s);
    assert t == s[|s| - |t|..];
    assert Trim(s) == t[..|Trim(s)|];
  }

  /** Every trimmed value as a text value. */
  function TextValues(data: map<string, string>): (r: map<string, FormValue>)
    ensures r.Keys == data.Keys
    ensures forall k :: k in r ==> r[k] == Text(data[k])
  {
    map k | k in data :: Text(data[k])
  }

  /** A measure type and a measure definition, both non-empty, fold into one
      definition record and the type key goes away. */
  function FoldMeasure(data: map<string, string>): (r: map<string, FormValue>)
    ensures var both := "measureType" in data && Truthy(data["measureType"])
                        && "measureDefinition" in data && Truthy(data["measureDefinition"]);
      (both ==> r.Keys == data.Keys - {"measureType"}
                && r["measureDefinition"] == Definition(data["measureType"], data["measureDefinition"])
                && forall k :: k in r && k != "measureDefinition" ==> r[k] == Text(data[k]))
      && (!both ==> r == TextValues(data))
  {
    var texts := TextValues(data);
    if "measureType" in data && Truthy(data["measureType"]) && "measureDefinition" in data && Truthy(data["measureDefinition"])
    then (texts - {"measureType"})["measureDefinition" := Definition(data["measureType"], data["measureDefinition"])]
    else texts
  }

  /** The value a key of the collected data takes after `parseFormData`. */
  function ParsedValue(data: map<string, string>, k: string, folded: bool): FormValue
    requires k in data && (folded ==> "measureType" in data)
  {
    if k == "measureDefinition" && folded then Definition(data["measureType"], data[k])
    else if k == "informed" && Truthy(data[k]) then Items(SplitItems(data[k]))
    else Text(data[k])
  }

  /** The measure type and definition are both present and non-empty. */
  predicate Folds(data: map<string, string>) {
    "measureType" in data && Truthy(data["measureType"]) && "measureDefinition" in data && Truthy(data["measureDefinition"])
  }

  /** `parseFormData` on the collected, trimmed values. */
  function ParseData(data: map<string, string>): (r: map<string, FormValue>)
    requires forall k :: k in data ==> Trimmed(data[k])
    ensures r.Keys == if Folds(data) then data.Keys - {"measureType"} else data.Keys
    ensures forall k :: k in r ==> r[k] == ParsedValue(data, k, Folds(data))
  {
    var folded := FoldMeasure(data);
    assert |"informed"| != |"measureDefinition"| && |"informed"| != |"measureType"|;
    if "informed" in data && Truthy(data["informed"]) then
      folded["informed" := Items(SplitItems(data["informed"]))]
    else folded
  }

  /** `parseFormData(formData)`: every value trimmed; a measure type and a
      measure definition, when both are non-empty, fold into one definition
      record; a non-empty `informed` becomes its comma-separated items. */
  function ParseFormData(entries: seq<(string, string)>): (r: map<string, FormValue>)
    ensures r.Keys <= EntryKeys(entries)
    ensures EntryKeys(entries) - {"measureType"} <= r.Keys
    ensures var data := CollectEntries(entries);
      ("measureDefinition" in r && r["measureDefinition"].Definition?) <==> Folds(data)
    ensures "measureDefinition" in r && r["measureDefinition"].Definition? ==> "measureType" !in r
    ensures "informed" in r ==> (r["informed"].Items? <==> Truthy(CollectEntries(entries)["informed"]))
    ensures forall k :: k in r && r[k].Text? ==> Trimmed(r[k].text)
    ensures var data := CollectEntries(entries);
      forall k :: k in r ==> k in data && r[k] == ParsedValue(data, k, Folds(data))
  {
    var data := CollectEntries(entries);
    var r := ParseData(data);
    assert |"informed"| != |"measureDefinition"|;
    r
  }

  /** A form holding a measure type and a measure definition reads back as
      one definition record. */
  lemma ParseFormFolds(kind: string, definition: string)
    requires Truthy(kind) && Trimmed(kind) && Truthy(definition) && Trimmed(definition)
    ensures ParseFormData([("measureType", kind), ("measureDefinition", definition)])
            == map["measureDefinition" := Definition(kind, definition)]
  {
    var mt, md := "measureType", "measureDefinition";
    var e := [(mt, kind), (md, definition)];
    assert |mt| == 11 && |md| == 17 && |"informed"| == 8;
    assert CollectEntries(e) == map[mt := kind, md := definition] by {
      assert e[..1] == [(mt, kind)] && e[..1][..0] == [];
      TrimmedIsFixed(kind);
      TrimmedIsFixed(definition);
    }
    var folded := FoldMeasure(map[mt := kind, md := definition]);
    assert folded.Keys == {md};
  }

  /** A form holding only a non-blank list of informed people reads back
      as the trimmed items of the list; with `SplitItemsJoin`, items written
      with commas come back unchanged. */
  lemma ParseFormInformed(value: string)
    requires Truthy(Trim(value))
    ensures ParseFormData([("informed", value)]) == map["informed" := Items(SplitItems(Trim(value)))]
  {
    var e := [("informed", value)];
    CollectOne("informed", value);
    ParseDataInformed(Trim(value));
    assert ParseFormData(e) == ParseData(CollectEntries(e));
  }

  lemma ParseDataInformed(t: string)
    requires Truthy(t) && Trimmed(t)
    ensures ParseData(map["informed" := t]) == map["informed" := Items(SplitItems(t))]
  {
    var data := map["informed" := t];
    assert |"informed"| != |"measureType"| && !Folds(data);
    var r := ParseData(data);
    assert r.Keys == {"informed"};
    assert r["informed"] == ParsedValue(data, "informed", false);
  }

  lemma CollectOne(k: string, v: string)
    ensures CollectEntries([(k, v)]) == map[k := Trim(v)]
  {
    assert [(k, v)][..0] == [];
  }
}
