/** The PPI synchronisation manager: the queue of canvas changes waiting to
    be applied to the PPI records, the search for the PPI shape a child
    shape hangs under, and the copying of a child's name into, or out of,
    the PPI records. A change's data is kept as the text the change id is
    built from (an element id, or the JSON text of an object). */
module PpiSync {
  import opened Common
  import opened Diagram
  import opened PpiModel
  import opened PpiCore

  // ---------------------------------------------------------------------
  // The change queue

  datatype Change = Change(kind: string, data: string)

  /** The eight change types `processChange` dispatches on. */
  const KnownKinds: seq<string> := [
    "ppi_change", "ppi_removal", "ppi_addition", "child_change",
    "child_removal", "child_addition", "child_move", "parent_change"]

  /** `syncState`: whether a sync runs, the queue of changes that arrived
      meanwhile, and the set of pending change ids. */
  datatype SyncState = SyncState(syncing: bool, queue: seq<Change>, pending: set<string>)

  /** The change id `${type}_${data}`. */
  function ChangeId(c: Change): string {
    c.kind + "_" + c.data
  }

  /** `queueSync(type, data)`: queued in arrival order during a sync, else
      recorded by its id, so the same change waiting twice is kept once. */
  function QueueSync(s: SyncState, c: Change): (r: SyncState)
    ensures r.syncing == s.syncing
    ensures s.syncing ==> r.queue == s.queue + [c] && r.pending == s.pending
    ensures !s.syncing ==> r.queue == s.queue && ChangeId(c) in r.pending && r.pending - {ChangeId(c)} == s.pending - {ChangeId(c)}
  {
    if s.syncing then s.(queue := s.queue + [c])
    else s.(pending := s.pending + {ChangeId(c)})
  }

  /** Outside a sync, recording a change again changes nothing. */
  lemma QueueSyncDeduplicates(s: SyncState, c: Change)
    requires !s.syncing
    ensures QueueSync(QueueSync(s, c), c) == QueueSync(s, c)
  {
  }

  /** `change.split('_', 2)`: at most the first two pieces; the second one
      is missing when the id has no underscore. */
  function DecodeAsWritten(id: string): (r: (string, Option<string>))
    ensures '_' !in r.0
    ensures r.1.Some? ==> '_' !in r.1.value
    ensures r.1.None? ==> r.0 == id
  {
    var p := Split(id, '_');
    if |p| == 1 then
      JoinSplit(id, '_');
      (p[0], None)
    else (p[0], Some(p[1]))
  }

  /** `processPendingChanges` as written: each id is decoded and handed to
      `processChange`, which only acts on the eight known types. The result
      is the changes that reach a handler. */
  function ProcessPendingAsWritten(ids: seq<string>): (r: seq<Change>)
    ensures |r| <= |ids|
    ensures forall c :: c in r ==> c.kind in KnownKinds
    decreases |ids|
  {
    if |ids| == 0 then []
    else
      var (kind, data) := DecodeAsWritten(ids[0]);
      var rest := ProcessPendingAsWritten(ids[1..]);
      if kind in KnownKinds then [Change(kind, data.GetOr(""))] + rest else rest
  }

  /** Every known type contains an underscore. */
  lemma KnownKindsHaveUnderscore(k: string)
    requires k in KnownKinds
    ensures '_' in k
  {
    if k == "ppi_change" || k == "ppi_removal" || k == "ppi_addition" {
      assert k[3] == '_';
    } else if k == "child_change" || k == "child_removal" || k == "child_addition" || k == "child_move" {
      assert k[5] == '_';
    } else {
      assert k == "parent_change";
      assert k[6] == '_';
    }
  }

  /** No pending change ever reaches its handler: the decoded type is the
      text before the first underscore, and every known type has one. */
  lemma {:induction false} PendingChangesAreDropped(ids: seq<string>)
    requires forall id :: id in ids ==> exists c: Change :: c.kind in KnownKinds && id == ChangeId(c)
    ensures ProcessPendingAsWritten(ids) == []
    decreases |ids|
  {
    if |ids| > 0 {
      var kind := DecodeAsWritten(ids[0]).0;
      if kind in KnownKinds {
        KnownKindsHaveUnderscore(kind);
        assert false;
      }
      assert forall id :: id in ids[1..] ==> id in ids;
      PendingChangesAreDropped(ids[1..]);
    }
  }

  /** A concrete id: `ppi_change` for element `Task_1` decodes to type
      "ppi" with data "change". */
  lemma PpiChangeDecodesToPpi()
    ensures DecodeAsWritten(ChangeId(Change("ppi_change", "Task_1"))).0 == "ppi"
  {
    var id := ChangeId(Change("ppi_change", "Task_1"));
    assert id[3] == '_' && '_' !in id[..3];
    FirstCharAt(id, '_', 3);
    SplitCons(id, '_', 3);
    assert id[..3] == "ppi";
  }

  /** A type made of two underscore-free words joined by one underscore. */
  predicate TwoWords(k: string) {
    exists i :: 0 <= i < |k| && k[i] == '_' && '_' !in k[..i] && '_' !in k[i + 1..]
  }

  lemma TwoWordsOf(a: string, b: string, k: string)
    requires '_' !in a && '_' !in b && k == a + "_" + b
    ensures TwoWords(k)
  {
    assert k[|a|] == '_' && k[..|a|] == a && k[|a| + 1..] == b;
  }

  lemma KnownKindsAreTwoWords(k: string)
    requires k in KnownKinds
    ensures TwoWords(k)
  {
    if k == "ppi_change" { TwoWordsOf("ppi", "change", k); }
    else if k == "ppi_removal" { TwoWordsOf("ppi", "removal", k); }
    else if k == "ppi_addition" { TwoWordsOf("ppi", "addition", k); }
    else if k == "child_change" { TwoWordsOf("child", "change", k); }
    else if k == "child_removal" { TwoWordsOf("child", "removal", k); }
    else if k == "child_addition" { TwoWordsOf("child", "addition", k); }
    else if k == "child_move" { TwoWordsOf("child", "move", k); }
    else { TwoWordsOf("parent", "change", k); }
  }

  /** Three or more pieces join as the first two words, then the rest. */
  lemma JoinThree(p: seq<string>)
    requires |p| >= 3
    ensures p[0] + "_" + p[1] + "_" + Join(p[2..], '_') == Join(p, '_')
  {
    assert p[1..][0] == p[1] && p[1..][1..] == p[2..];
    assert Join(p[1..], '_') == p[1] + "_" + Join(p[2..], '_');
  }

  /** The decoding the change id evidently calls for: the type is the first
      two underscore-separated words, the data everything after the second
      underscore. */
  function DecodeChangeId(id: string): (r: Option<Change>)
    ensures r.Some? ==> ChangeId(r.value) == id && TwoWords(r.value.kind)
    ensures r.None? ==> |Split(id, '_')| < 3
  {
    var p := Split(id, '_');
    if |p| < 3 then None
    else
      var c := Change(p[0] + "_" + p[1], Join(p[2..], '_'));
      assert TwoWords(c.kind) by { TwoWordsOf(p[0], p[1], c.kind); }
      assert ChangeId(c) == id by { JoinThree(p); JoinSplit(id, '_'); }
      Some(c)
  }

  /** An id whose type is two underscore-free words splits into those
      words followed by the pieces of the data. */
  lemma SplitTwoWords(a: string, b: string, data: string)
    requires '_' !in a && '_' !in b
    ensures Split(a + "_" + b + "_" + data, '_') == [a, b] + Split(data, '_')
  {
    var rest := Split(data, '_');
    var pieces := [a, b] + rest;
    JoinSplit(data, '_');
    JoinCons(b, rest, '_');
    JoinCons(a, [b] + rest, '_');
    assert [a] + ([b] + rest) == pieces;
    assert Join(pieces, '_') == a + "_" + b + "_" + data;
    SplitJoin(pieces, '_');
  }

  /** Every change of a two-word type comes back from its id unchanged. */
  lemma ChangeIdRoundTrip(c: Change)
    requires TwoWords(c.kind)
    ensures DecodeChangeId(ChangeId(c)) == Some(c)
  {
    var k := c.kind;
    var i :| 0 <= i < |k| && k[i] == '_' && '_' !in k[..i] && '_' !in k[i + 1..];
    var a, b := k[..i], k[i + 1..];
    assert k == a + "_" + b;
    assert ChangeId(c) == a + "_" + b + "_" + c.data;
    SplitTwoWords(a, b, c.data);
    var p := Split(ChangeId(c), '_');
    assert p[0] == a && p[1] == b && p[2..] == Split(c.data, '_');
    JoinSplit(c.data, '_');
  }

  /** `processPendingChanges` with the corrected decoding. */
  function ProcessPending(ids: seq<string>): (r: seq<Change>)
    ensures |r| <= |ids|
    ensures forall c :: c in r ==> c.kind in KnownKinds && ChangeId(c) in ids
    decreases |ids|
  {
    if |ids| == 0 then []
    else
      var rest := ProcessPending(ids[1..]);
      match DecodeChangeId(ids[0])
      case Some(c) => if c.kind in KnownKinds then [c] + rest else rest
      case None => rest
  }

  /** With the corrected decoding, every pending change of a known type
      reaches its handler with its own data. */
  lemma {:induction false} PendingChangesAreProcessed(cs: seq<Change>, ids: seq<string>)
    requires forall c :: c in cs ==> c.kind in KnownKinds
    requires |ids| == |cs| && forall i :: 0 <= i < |cs| ==> ids[i] == ChangeId(cs[i])
    ensures ProcessPending(ids) == cs
    decreases |cs|
  {
    if |cs| > 0 {
      var c, rest := cs[0], cs[1..];
      assert cs == [c] + rest;
      assert c in cs;
      KnownKindsAreTwoWords(c.kind);
      ChangeIdRoundTrip(c);
      assert forall x :: x in rest ==> x in cs;
      assert forall i :: 0 <= i < |rest| ==> ids[1..][i] == ChangeId(rest[i]) by {
        forall i | 0 <= i < |rest| ensures ids[1..][i] == ChangeId(rest[i]) {
          assert ids[1..][i] == ids[i + 1] && rest[i] == cs[i + 1];
        }
      }
      PendingChangesAreProcessed(rest, ids[1..]);
      ProcessPendingStep(ids, c);
    }
  }

  /** A first id that decodes to a change of a known type puts that change
      first. */
  lemma ProcessPendingStep(ids: seq<string>, c: Change)
    requires |ids| > 0 && DecodeChangeId(ids[0]) == Some(c) && c.kind in KnownKinds
    ensures ProcessPending(ids) == [c] + ProcessPending(ids[1..])
  {
  }

  // ---------------------------------------------------------------------
  // The PPI a child hangs under

  /** `isPPIElement`. */
  predicate IsPpiShape(e: Element) {
    e.kind == PpiType
  }

  /** The parent shape of `e`, looked up by id. */
  function ParentOf(reg: Registry, e: Element): (r: Option<Element>)
    ensures r.Some? ==> r.value in reg && r.value.id == e.parent && Truthy(e.parent)
  {
    if !Truthy(e.parent) then None else Get(reg, e.parent)
  }

  /** The `k`-th shape up the parent chain of `e` (`e` itself for 0). */
  function Ancestor(reg: Registry, e: Element, k: nat): Option<Element>
    decreases k
  {
    if k == 0 then Some(e)
    else match Ancestor(reg, e, k - 1)
      case None => None
      case Some(a) => ParentOf(reg, a)
  }

  predicate PpiAt(reg: Registry, e: Element, k: nat) {
    Ancestor(reg, e, k).Some? && IsPpiShape(Ancestor(reg, e, k).value)
  }

  /** The walk `hasPPIParent` and `findParentPPI` make: up from `from`, the
      `start`-th ancestor of `e`, at most `fuel` steps, stopping at the
      first PPI shape. */
  function PpiAbove(reg: Registry, e: Element, start: nat, fuel: nat): (r: Option<(nat, Element)>)
    requires start >= 1
    ensures r.Some? ==> start <= r.value.0 < start + fuel && Ancestor(reg, e, r.value.0) == Some(r.value.1) && IsPpiShape(r.value.1)
    ensures r.Some? ==> forall k :: start <= k < r.value.0 ==> !PpiAt(reg, e, k)
    ensures r.None? ==> forall k :: start <= k < start + fuel ==> !PpiAt(reg, e, k)
    decreases fuel
  {
    if fuel == 0 then None
    else match Ancestor(reg, e, start)
      case None =>
        assert forall k :: start <= k ==> Ancestor(reg, e, k).None? by {
          forall k | start <= k ensures Ancestor(reg, e, k).None? { NoneStaysNone(reg, e, start, k); }
        }
        None
      case Some(a) =>
        if IsPpiShape(a) then Some((start, a))
        else PpiAbove(reg, e, start + 1, fuel - 1)
  }

  lemma {:induction false} NoneStaysNone(reg: Registry, e: Element, j: nat, k: nat)
    requires j <= k && Ancestor(reg, e, j).None?
    ensures Ancestor(reg, e, k).None?
    decreases k - j
  {
    if j < k {
      NoneStaysNone(reg, e, j, k - 1);
    }
  }

  /** `hasPPIParent(element)`: some shape up the parent chain is a PPI. The
      walk is bounded by the registry's size, which an acyclic chain never
      exceeds. */
  function HasPpiParent(reg: Registry, e: Element): (r: bool)
    ensures r <==> exists k :: 1 <= k <= |reg| && PpiAt(reg, e, k)
  {
    var w := PpiAbove(reg, e, 1, |reg|);
    if w.Some? then
      assert PpiAt(reg, e, w.value.0);
      true
    else false
  }

  /** `findParentPPI(element)`: the first record bound to the nearest PPI
      shape above the element. */
  function FindParentPpi(ppis: seq<Ppi>, reg: Registry, e: Element): (r: Option<Ppi>)
    ensures r.Some? ==> r.value in ppis && HasPpiParent(reg, e)
    ensures r.Some? ==> exists k :: 1 <= k <= |reg| && PpiAt(reg, e, k) && Ancestor(reg, e, k).value.id == r.value.elementId
    ensures !HasPpiParent(reg, e) ==> r.None?
  {
    match PpiAbove(reg, e, 1, |reg|)
    case None => None
    case Some((k, a)) =>
      match IndexOfElement(ppis, a.id)
      case None => None
      case Some(i) => Some(ppis[i])
  }

  /** A record is found exactly when the nearest PPI shape above the element
      has one. */
  lemma FindParentPpiIffRecord(ppis: seq<Ppi>, reg: Registry, e: Element)
    requires HasPpiParent(reg, e)
    ensures var a := PpiAbove(reg, e, 1, |reg|).value.1;
            FindParentPpi(ppis, reg, e).Some? <==> exists j :: 0 <= j < |ppis| && ppis[j].elementId == a.id
  {
  }

  // ---------------------------------------------------------------------
  // Child shapes and the PPI records

  /** The sync manager's `detectMeasureType(id, type)`: by the element type
      alone, case-sensitively, Time before Count before Data before
      Condition before Derived before Aggregated. */
  function SyncMeasureType(kind: string): (r: string)
    ensures r in {"time", "count", "data", "state", "derived", "aggregated"}
    ensures r == "time" <==> Contains(kind, "Time")
    ensures r == "count" <==> !Contains(kind, "Time") && Contains(kind, "Count")
    ensures r == "data" <==> !Contains(kind, "Time") && !Contains(kind, "Count") && Contains(kind, "Data")
    ensures r == "state" <==> !Contains(kind, "Time") && !Contains(kind, "Count") && !Contains(kind, "Data")
                              && Contains(kind, "Condition")
    ensures r == "derived" <==> (!Contains(kind, "Time") && !Contains(kind, "Count") && !Contains(kind, "Data")
                                && !Contains(kind, "Condition") && (Contains(kind, "Derived") || !Contains(kind, "Aggregated")))
    ensures r == "aggregated" <==> (!Contains(kind, "Time") && !Contains(kind, "Count") && !Contains(kind, "Data")
                                   && !Contains(kind, "Condition") && !Contains(kind, "Derived") && Contains(kind, "Aggregated"))
  {
    if Contains(kind, "Time") then "time"
    else if Contains(kind, "Count") then "count"
    else if Contains(kind, "Data") then "data"
    else if Contains(kind, "Condition") then "state"
    else if Contains(kind, "Derived") then "derived"
    else if Contains(kind, "Aggregated") then "aggregated"
    else "derived"
  }

  /** Whatever the sync manager takes for a time measure, the core's
      case-insensitive detection takes for one too, whatever the id. */
  lemma SyncTimeIsCoreTime(elementId: string, kind: string)
    requires SyncMeasureType(kind) == "time"
    ensures DetectMeasureType(elementId, kind) == "time"
  {
    ContainsLower(kind, "Time");
    assert ToLower("Time") == "time";
  }

  /** The name a child contributes: its own name, or its id. */
  function ChildName(e: Element, childId: string): string {
    if Truthy(e.name) then e.name else childId
  }

  /** The update `updatePPIWithChildInfo` spreads over the parent record:
      the child's name goes to the field its type feeds. */
  function ChildPatch(e: Element, childId: string): (r: Patch)
    ensures e.kind == "PPINOT:Target" ==> r == EmptyPatch.(target := Some(ChildName(e, childId)))
    ensures e.kind == "PPINOT:Scope" ==> r == EmptyPatch.(scope := Some(ChildName(e, childId)))
    ensures e.kind == "PPINOT:Measure" ==> r == EmptyPatch.(measure := Some(Measure(SyncMeasureType(e.kind), ChildName(e, childId))))
    ensures e.kind == "PPINOT:Condition" ==> r == EmptyPatch.(businessObjective := Some(ChildName(e, childId)))
    ensures !IsPpiPart(e.kind) ==> r == EmptyPatch
  {
    var name := ChildName(e, childId);
    if e.kind == "PPINOT:Target" then EmptyPatch.(target := Some(name))
    else if e.kind == "PPINOT:Scope" then EmptyPatch.(scope := Some(name))
    else if e.kind == "PPINOT:Measure" then EmptyPatch.(measure := Some(Measure(SyncMeasureType(e.kind), name)))
    else if e.kind == "PPINOT:Condition" then EmptyPatch.(businessObjective := Some(name))
    else EmptyPatch
  }

  /** A Measure child always yields a "derived" measure: its type is exactly
      `PPINOT:Measure`, which names none of the keywords. */
  lemma MeasureChildIsDerived(e: Element, childId: string)
    requires e.kind == "PPINOT:Measure"
    ensures ChildPatch(e, childId).measure == Some(Measure("derived", ChildName(e, childId)))
  {
    assert !Contains(e.kind, "Time") by { NotInMeasure(e.kind, "Time"); }
    assert !Contains(e.kind, "Count") by { NotInMeasure(e.kind, "Count"); }
    assert !Contains(e.kind, "Data") by { NotInMeasure(e.kind, "Data"); }
    assert !Contains(e.kind, "Condition") by { NotInMeasure(e.kind, "Condition"); }
    assert !Contains(e.kind, "Derived") by { NotInMeasure(e.kind, "Derived"); }
    assert !Contains(e.kind, "Aggregated") by { NotInMeasure(e.kind, "Aggregated"); }
  }

  /** None of the capitalised keywords occurs in `PPINOT:Measure`: the
      first two letters of each never stand side by side there. */
  lemma NotInMeasure(kind: string, word: string)
    requires kind == "PPINOT:Measure"
    requires word in {"Time", "Count", "Data", "Condition", "Derived", "Aggregated"}
    ensures !Contains(kind, word)
  {
    forall i | 0 <= i < |kind| - 1 ensures !(kind[i] == word[0] && kind[i + 1] == word[1]) {
      assert kind[i] != word[0] || kind[i + 1] != word[1];
    }
    PairAbsent(kind, word);
  }

  /** `sub` cannot occur where its first two characters never stand side by
      side. */
  lemma {:induction false} PairAbsent(s: string, sub: string)
    requires |sub| >= 2
    requires forall i :: 0 <= i < |s| - 1 ==> !(s[i] == sub[0] && s[i + 1] == sub[1])
    ensures !Contains(s, sub)
    decreases |s|
  {
    if |s| > 0 {
      assert !StartsWith(s, sub) by {
        if |sub| <= |s| {
          assert s[..|sub|][0] == s[0] && s[..|sub|][1] == s[1];
          assert !(s[0] == sub[0] && s[1] == sub[1]);
        }
      }
      forall i | 0 <= i < |s[1..]| - 1 ensures !(s[1..][i] == sub[0] && s[1..][i + 1] == sub[1]) {
        assert s[1..][i] == s[i + 1] && s[1..][i + 1] == s[i + 2];
      }
      PairAbsent(s[1..], sub);
    }
  }

  /** `updatePPIWithChildInfo(parent, child)`: nothing without the child
      shape or a record bound to `parentId`; otherwise that record (looked
      up again by its id) gets the child's name. */
  function UpdateWithChildInfo(ppis: seq<Ppi>, reg: Registry, parentId: string, childId: string, now: int): (r: Outcome)
    ensures |r.ppis| == |ppis|
    ensures !Has(reg, childId) || IndexOfElement(ppis, parentId).None? ==> r == Outcome(false, ppis, Some(reg))
    ensures Has(reg, childId) && IndexOfElement(ppis, parentId).Some? ==>
              r == UpdatePpi(ppis, Some(reg), ppis[IndexOfElement(ppis, parentId).value].id, ChildPatch(Get(reg, childId).value, childId), now) && r.found
  {
    match Get(reg, childId)
    case None => Outcome(false, ppis, Some(reg))
    case Some(e) =>
      match IndexOfElement(ppis, parentId)
      case None => Outcome(false, ppis, Some(reg))
      case Some(i) => UpdatePpi(ppis, Some(reg), ppis[i].id, ChildPatch(e, childId), now)
  }

  /** A Target child's name lands in the parent record's target. */
  lemma TargetChildSetsTarget(ppis: seq<Ppi>, reg: Registry, parentId: string, childId: string, now: int)
    requires Has(reg, childId) && Get(reg, childId).value.kind == "PPINOT:Target"
    requires IndexOfElement(ppis, parentId).Some?
    ensures exists i :: 0 <= i < |ppis| && UpdateWithChildInfo(ppis, reg, parentId, childId, now).ppis[i].target == ChildName(Get(reg, childId).value, childId)
  {
    var e := Get(reg, childId).value;
    var d := ChildPatch(e, childId);
    assert d.target == Some(ChildName(e, childId));
    var i := IndexOfElement(ppis, parentId).value;
    var r := UpdatePpi(ppis, Some(reg), ppis[i].id, d, now);
    assert r == UpdateWithChildInfo(ppis, reg, parentId, childId, now);
    var j := IndexOfId(ppis, ppis[i].id).value;
    assert r.ppis[j] == Merged(ppis[j], d, now);
    assert r.ppis[j].target == ChildName(e, childId);
  }

  /** Whether `clearChildInfoFromAllPPIs` empties a field holding `value`
      for a child of type `kind` named `name`. */
  predicate Clears(value: string, name: string, childId: string) {
    Truthy(value) && (value == name || value == childId)
  }

  /** `clearChildInfoFromAllPPIs(child)`: nothing without the child shape;
      otherwise every record whose target (for a Target child) or scope (for
      a Scope child) holds the child's name or id has it emptied, and a
      fresh `updatedAt`. */
  function ClearChildInfo(ppis: seq<Ppi>, reg: Registry, childId: string, now: int): (r: seq<Ppi>)
    ensures |r| == |ppis|
    ensures !Has(reg, childId) ==> r == ppis
    ensures forall i :: 0 <= i < |r| ==> r[i] == ppis[i] || r[i] == ppis[i].(target := r[i].target, scope := r[i].scope, updatedAt := now)
    ensures Has(reg, childId) ==> var e := Get(reg, childId).value; forall i :: 0 <= i < |r| ==>
              (r[i].target == if e.kind == "PPINOT:Target" && Clears(ppis[i].target, ChildName(e, childId), childId) then "" else ppis[i].target) &&
              (r[i].scope == if e.kind == "PPINOT:Scope" && Clears(ppis[i].scope, ChildName(e, childId), childId) then "" else ppis[i].scope)
  {
    match Get(reg, childId)
    case None => ppis
    case Some(e) =>
      var name := ChildName(e, childId);
      seq(|ppis|, i requires 0 <= i < |ppis| =>
        if e.kind == "PPINOT:Target" && Clears(ppis[i].target, name, childId) then Merged(ppis[i], EmptyPatch.(target := Some("")), now)
        else if e.kind == "PPINOT:Scope" && Clears(ppis[i].scope, name, childId) then Merged(ppis[i], EmptyPatch.(scope := Some("")), now)
        else ppis[i])
  }

  /** After the clear no record still points at the child through the field
      its type feeds. */
  lemma ClearLeavesNoReference(ppis: seq<Ppi>, reg: Registry, childId: string, now: int)
    requires Has(reg, childId) && Get(reg, childId).value.kind == "PPINOT:Target"
    ensures forall p :: p in ClearChildInfo(ppis, reg, childId, now) ==>
              !Truthy(p.target) || (p.target != childId && p.target != ChildName(Get(reg, childId).value, childId))
  {
    var r := ClearChildInfo(ppis, reg, childId, now);
    forall p | p in r
      ensures !Truthy(p.target) || (p.target != childId && p.target != ChildName(Get(reg, childId).value, childId))
    {
      var k :| 0 <= k < |r| && r[k] == p;
    }
  }
}
