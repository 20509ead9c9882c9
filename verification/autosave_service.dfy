/** The event-driven autosave service: a change marks the project dirty
    and arms a one-shot timer, the timer's callback saves, and a restore
    suspends and resumes the whole thing. The asynchronous save is split
    into its start and its completion so that changes and timer callbacks
    can fall in between. The module also models which PPINOT canvas
    elements the service captures into the draft. */
module AutosaveService {
  import opened Common
  import opened Diagram

  // ---------------------------------------------------------------------
  // The state machine

  /** `enabled`, `hasChanges`, `isAutosaving`, `suspended`, and the timer:
      `handle` says whether `autosaveTimer` holds a handle, `armed` whether
      a callback is actually pending. */
  datatype Autosaver = Autosaver(
    enabled: bool,
    hasChanges: bool,
    saving: bool,
    suspended: bool,
    handle: bool,
    armed: bool)

  function Initial(enabled: bool): Autosaver {
    Autosaver(enabled, false, false, false, false, false)
  }

  /** `scheduleAutosave`: any old timer is cleared and a new one set. */
  function Schedule(s: Autosaver): Autosaver {
    s.(handle := true, armed := true)
  }

  /** `markAsChanged`: the project is dirty; a save is scheduled only when
      enabled, not suspended and no handle is held. */
  function MarkAsChanged(s: Autosaver): (r: Autosaver)
    ensures r.hasChanges
    ensures r.armed <==> s.armed || (s.enabled && !s.suspended && !s.handle)
    ensures r.handle <==> s.handle || (s.enabled && !s.suspended)
    ensures r.enabled == s.enabled && r.saving == s.saving && r.suspended == s.suspended
  {
    var d := s.(hasChanges := true);
    if s.enabled && !s.suspended && !s.handle then Schedule(d) else d
  }

  /** What `performAutosave` answers. */
  datatype Answer = Started | Refused(reason: string)

  /** The start of `performAutosave`: refused while a save runs, while
      suspended, or with nothing to save (the reason names the first of
      "saving" and "suspended" that holds); otherwise the save starts and
      the handle is dropped. */
  function BeginAutosave(s: Autosaver): (r: (Answer, Autosaver))
    ensures r.0.Refused? <==> s.saving || !s.hasChanges || s.suspended
    ensures r.0.Refused? ==> r.1 == s
    ensures r.0 == Refused("Already saving") <==> s.saving
    ensures r.0 == Refused("Suspended") <==> !s.saving && s.suspended
    ensures r.0 == Refused("no changes") <==> !s.saving && !s.suspended && !s.hasChanges
    ensures r.0.Started? ==> r.1 == s.(saving := true, handle := false)
  {
    if s.saving || !s.hasChanges || s.suspended then
      var reason := if s.saving then "Already saving" else if s.suspended then "Suspended" else "no changes";
      (Refused(reason), s)
    else (Started, s.(saving := true, handle := false))
  }

  /** The completion of a started save: success clears `hasChanges`;
      either way `isAutosaving` is reset. */
  function FinishAutosave(s: Autosaver, ok: bool): (r: Autosaver)
    ensures !r.saving
    ensures r.hasChanges == (s.hasChanges && !ok)
    ensures r == s.(saving := false, hasChanges := s.hasChanges && !ok)
  {
    s.(saving := false, hasChanges := if ok then false else s.hasChanges)
  }

  /** The timer's callback as written: the pending callback is consumed and
      `performAutosave` runs, which drops the handle only when it starts a
      save. */
  function TimerFires(s: Autosaver): (r: (Answer, Autosaver))
    requires s.armed
    ensures !r.1.armed
    ensures r.0.Refused? ==> r.1.handle == s.handle
  {
    BeginAutosave(s.(armed := false))
  }

  /** `suspendAutoSave`: suspended, and any timer cleared. */
  function Suspend(s: Autosaver): (r: Autosaver)
    ensures r.suspended && !r.handle && !r.armed
    ensures r.hasChanges == s.hasChanges && r.saving == s.saving && r.enabled == s.enabled
  {
    s.(suspended := true, handle := false, armed := false)
  }

  /** `resumeAutoSave`: no longer suspended; a save is rescheduled only when
      enabled with pending changes. */
  function Resume(s: Autosaver): (r: Autosaver)
    ensures !r.suspended
    ensures s.enabled && s.hasChanges ==> r.armed && r.handle
    ensures !(s.enabled && s.hasChanges) ==> r == s.(suspended := false)
  {
    var t := s.(suspended := false);
    if s.enabled && s.hasChanges then Schedule(t) else t
  }

  /** A change made while a save runs is forgotten when that save
      succeeds: the flag is cleared although the saved data predates the
      change. */
  lemma ChangeDuringSaveIsForgotten(s: Autosaver)
    requires s.saving
    ensures !FinishAutosave(MarkAsChanged(s), true).hasChanges
  {
  }

  // ---------------------------------------------------------------------
  // A stale timer handle (as written) and the corrected callback

  /** A held handle means a callback is pending. */
  predicate Healthy(s: Autosaver) {
    s.handle ==> s.armed
  }

  /** From a healthy dirty state with a save in flight: a change arms a
      timer, that timer fires while the save still runs and is refused
      without dropping its handle, the save completes, and the next change
      schedules nothing: the handle is held but no callback is pending, so
      autosave stops until a suspend or a manual save drops the handle. */
  lemma StaleHandleStopsAutosave()
    ensures var s0 := Autosaver(true, true, false, false, true, true);
            var s1 := TimerFires(s0);
            var s2 := MarkAsChanged(s1.1);
            var s3 := TimerFires(s2);
            var s4 := FinishAutosave(s3.1, true);
            var s5 := MarkAsChanged(s4);
            Healthy(s0) && s1.0 == Started && s3.0 == Refused("Already saving")
            && s5.enabled && !s5.suspended && s5.hasChanges && !s5.saving
            && s5.handle && !s5.armed && !Healthy(s5)
  {
  }

  /** The callback with the handle dropped as soon as it fires. */
  function TimerFiresCorrected(s: Autosaver): (r: (Answer, Autosaver))
    requires s.armed
    ensures !r.1.armed && !r.1.handle
    ensures r.0 == BeginAutosave(s.(armed := false, handle := false)).0
  {
    BeginAutosave(s.(armed := false, handle := false))
  }

  /** With the corrected callback every step keeps the handle honest, so a
      change on an enabled, unsuspended autosaver always leaves a callback
      pending. */
  lemma CorrectedStaysHealthy(s: Autosaver, ok: bool)
    requires Healthy(s)
    ensures Healthy(MarkAsChanged(s))
    ensures s.armed ==> Healthy(TimerFiresCorrected(s).1)
    ensures Healthy(BeginAutosave(s).1)
    ensures Healthy(FinishAutosave(s, ok))
    ensures Healthy(Suspend(s)) && Healthy(Resume(s))
    ensures s.enabled && !s.suspended ==> MarkAsChanged(s).armed
  {
  }

  // ---------------------------------------------------------------------
  // Restoring the draft

  /** The stored draft as `forceRestore` reads it: the parsed time of its
      `timestamp` (None when it does not parse) and whether it carries
      `data` or `value`. */
  datatype Draft = Draft(savedAt: Option<int>, hasProject: bool)

  const TtlMs: int := 3 * 60 * 60 * 1000

  /** `forceRestore`: false for a missing, expired or empty draft, without
      touching the autosaver; otherwise autosave is suspended for the
      restore and resumed afterwards whatever its outcome. An unparsable
      timestamp never expires. */
  function ForceRestore(s: Autosaver, draft: Option<Draft>, now: int, restored: bool): (r: (bool, Autosaver))
    ensures draft.None? ==> r == (false, s)
    ensures draft.Some? && draft.value.savedAt.Some? && now - draft.value.savedAt.value > TtlMs ==> r == (false, s)
    ensures draft.Some? && !draft.value.hasProject ==> r == (false, s)
    ensures r.0 ==> restored
    ensures r.1 != s ==> !r.1.suspended
    ensures draft.Some? && draft.value.hasProject
            && (draft.value.savedAt.None? || now - draft.value.savedAt.value <= TtlMs)
            ==> r == (restored, Resume(Suspend(s)))
  {
    match draft
    case None => (false, s)
    case Some(d) =>
      if d.savedAt.Some? && now - d.savedAt.value > TtlMs then (false, s)
      else if !d.hasProject then (false, s)
      else (restored, Resume(Suspend(s)))
  }

  /** A restore that goes ahead leaves a dirty, enabled autosaver with a
      save scheduled. */
  lemma RestoreReschedules(s: Autosaver, d: Draft, now: int, restored: bool)
    requires s.enabled && s.hasChanges && d.hasProject && d.savedAt.None?
    ensures var r := ForceRestore(s, Some(d), now, restored).1;
            r.armed && !r.suspended && Healthy(r)
  {
  }

  // ---------------------------------------------------------------------
  // Capturing PPINOT elements

  /** The id prefixes of the visual PPINOT elements, each with the type the
      capture records for it (checked in this order). */
  const VisualPrefixes: seq<(string, string)> := [
    ("Target_", "PPINOT:Target"), ("Scope_", "PPINOT:Scope"),
    ("AggregatedMeasure_", "PPINOT:AggregatedMeasure"), ("BaseMeasure_", "PPINOT:BaseMeasure"),
    ("DataMeasure_", "PPINOT:DataMeasure"), ("TimeMeasure_", "PPINOT:TimeMeasure"),
    ("Measure_", "PPINOT:Measure")]

  predicate HasVisualPrefix(id: string) {
    exists k :: 0 <= k < |VisualPrefixes| && StartsWith(id, VisualPrefixes[k].0)
  }

  /** A visual PPINOT element: a known prefix and not a label. */
  predicate IsVisual(e: Element) {
    HasVisualPrefix(e.id) && !Contains(e.id, "_label")
  }

  /** The recorded type: the first prefix that matches. */
  function VisualType(id: string): (r: string)
    ensures HasVisualPrefix(id) ==> exists k :: 0 <= k < |VisualPrefixes| && StartsWith(id, VisualPrefixes[k].0)
                                                && r == VisualPrefixes[k].1
  {
    PrefixType(id, 0)
  }

  function PrefixType(id: string, k: nat): (r: string)
    requires k <= |VisualPrefixes|
    ensures (exists m :: k <= m < |VisualPrefixes| && StartsWith(id, VisualPrefixes[m].0))
            ==> exists m :: k <= m < |VisualPrefixes| && StartsWith(id, VisualPrefixes[m].0) && r == VisualPrefixes[m].1
    decreases |VisualPrefixes| - k
  {
    if k == |VisualPrefixes| then "PPINOT:Element"
    else if StartsWith(id, VisualPrefixes[k].0) then VisualPrefixes[k].1
    else PrefixType(id, k + 1)
  }

  /** One captured element: id, type, name, parent id ("" for none) and
      whether it is a main PPI. */
  datatype Captured = Captured(id: string, kind: string, name: string, parent: string,
                               x: int, y: int, width: int, height: int, isMain: bool)

  function CapturedId(c: Captured): string {
    c.id
  }

  function SquaredDistance(a: Element, b: Element): int {
    (a.x - b.x) * (a.x - b.x) + (a.y - b.y) * (a.y - b.y)
  }

  /** The nearest PPI shape closer than 500, the first on ties. */
  function Nearest(e: Element, ppis: seq<Element>): (r: Option<Element>)
    ensures r.Some? ==> r.value in ppis && SquaredDistance(e, r.value) < 500 * 500
    ensures r.Some? ==> forall p :: p in ppis ==> SquaredDistance(e, r.value) <= SquaredDistance(e, p)
  {
    match Closest(e, ppis)
    case None => None
    case Some(p) => if SquaredDistance(e, p) < 500 * 500 then Some(p) else None
  }

  function Closest(e: Element, ppis: seq<Element>): (r: Option<Element>)
    ensures r.None? <==> |ppis| == 0
    ensures r.Some? ==> r.value in ppis && forall p :: p in ppis ==> SquaredDistance(e, r.value) <= SquaredDistance(e, p)
    decreases |ppis|
  {
    if |ppis| == 0 then None
    else
      match Closest(e, ppis[..|ppis| - 1])
      case None => Some(ppis[0])
      case Some(c) =>
        var last := ppis[|ppis| - 1];
        assert forall p :: p in ppis ==> p in ppis[..|ppis| - 1] || p == last;
        if SquaredDistance(e, last) < SquaredDistance(e, c) then Some(last) else Some(c)
  }

  /** The parent of a visual element: its own parent shape, else its
      business object's semantic parent, else the nearest PPI shape. */
  function VisualParent(e: Element, ppis: seq<Element>): string {
    if Truthy(e.parent) then e.parent
    else if Truthy(e.semanticParent) then e.semanticParent
    else match Nearest(e, ppis)
      case None => ""
      case Some(p) => p.id
  }

  /** The first truthy text among the element's name, its body and its
      first label's body, or else its id. */
  function VisualName(e: Element): string {
    if Truthy(e.name) then e.name
    else if Truthy(e.body) then e.body
    else if Truthy(e.labelBody) then e.labelBody
    else e.id
  }

  /** The entry for a visual PPINOT element: its id, the type its prefix
      gives, its name (falling back to its body, its label's body, then its
      id), its own parent (falling back to its semantic parent, then the
      nearest PPI shape within 500), its box, not marked as a main PPI. */
  function CaptureVisual(e: Element, ppis: seq<Element>): (r: Captured)
    ensures r.id == e.id && r.kind == VisualType(e.id) && !r.isMain
    ensures Truthy(e.name) ==> r.name == e.name
    ensures !Truthy(e.name) && Truthy(e.body) ==> r.name == e.body
    ensures !Truthy(e.name) && !Truthy(e.body) && Truthy(e.labelBody) ==> r.name == e.labelBody
    ensures !Truthy(e.name) && !Truthy(e.body) && !Truthy(e.labelBody) ==> r.name == e.id
    ensures Truthy(e.parent) ==> r.parent == e.parent
    ensures !Truthy(e.parent) && Truthy(e.semanticParent) ==> r.parent == e.semanticParent
    ensures !Truthy(e.parent) && !Truthy(e.semanticParent) && r.parent != "" ==>
              exists p :: p in ppis && p.id == r.parent && SquaredDistance(e, p) < 500 * 500
    ensures !Truthy(e.parent) && !Truthy(e.semanticParent) && (forall p :: p in ppis ==> SquaredDistance(e, p) >= 500 * 500) ==>
              r.parent == ""
    ensures (r.x, r.y, r.width, r.height) == (e.x, e.y, e.width, e.height)
  {
    Captured(e.id, VisualType(e.id), VisualName(e),
             VisualParent(e, ppis), e.x, e.y, e.width, e.height, false)
  }

  /** A visual element without a parent of either kind takes a PPI shape
      within 500 as its parent whenever there is one, and no PPI shape is
      nearer to it than the chosen one. */
  lemma NearbyPpiBecomesParent(e: Element, ppis: seq<Element>, p: Element)
    requires !Truthy(e.parent) && !Truthy(e.semanticParent)
    requires p in ppis && SquaredDistance(e, p) < 500 * 500
    ensures exists q :: q in ppis && CaptureVisual(e, ppis).parent == q.id
                        && forall o :: o in ppis ==> SquaredDistance(e, q) <= SquaredDistance(e, o)
  {
  }

  /** The entry for a PPI shape: its id, type, name or else id, no parent,
      its box, marked as a main PPI. */
  function CapturePpi(e: Element): (r: Captured)
    ensures r.id == e.id && r.kind == e.kind && r.parent == "" && r.isMain
    ensures r.name == (if Truthy(e.name) then e.name else e.id)
    ensures (r.x, r.y, r.width, r.height) == (e.x, e.y, e.width, e.height)
  {
    Captured(e.id, e.kind, if Truthy(e.name) then e.name else e.id, "", e.x, e.y, e.width, e.height, true)
  }

  function MapVisual(es: seq<Element>, ppis: seq<Element>): (r: seq<Captured>)
    ensures |r| == |es| && forall i :: 0 <= i < |es| ==> r[i] == CaptureVisual(es[i], ppis)
  {
    seq(|es|, i requires 0 <= i < |es| => CaptureVisual(es[i], ppis))
  }

  function MapPpi(es: seq<Element>): (r: seq<Captured>)
    ensures |r| == |es| && forall i :: 0 <= i < |es| ==> r[i] == CapturePpi(es[i])
  {
    seq(|es|, i requires 0 <= i < |es| => CapturePpi(es[i]))
  }

  function IsPpiShape(e: Element): bool {
    e.kind == PpiType
  }

  /** Where a captured element comes from: a PPI shape for a main PPI, a
      visual element otherwise. */
  predicate Origin(reg: Registry, c: Captured) {
    if c.isMain then exists e :: e in reg && IsPpiShape(e) && c.id == e.id
    else exists e :: e in reg && IsVisual(e) && c.id == e.id
  }

  /** The visual elements, then the PPI shapes, before de-duplication. */
  function AllCaptured(reg: Registry): seq<Captured> {
    CaptureBoth(Filter(reg, IsVisual), Filter(reg, IsPpiShape))
  }

  /** The entries of the visual elements, in order, followed by those of
      the PPI shapes, in order. */
  function CaptureBoth(visual: seq<Element>, ppis: seq<Element>): (r: seq<Captured>)
    ensures |r| == |visual| + |ppis|
    ensures forall i :: 0 <= i < |visual| ==> r[i] == CaptureVisual(visual[i], ppis)
    ensures forall i :: |visual| <= i < |r| ==> r[i] == CapturePpi(ppis[i - |visual|])
  {
    var a, b := MapVisual(visual, ppis), MapPpi(ppis);
    assert forall i :: |a| <= i < |a| + |b| ==> (a + b)[i] == b[i - |a|];
    a + b
  }

  lemma AllHaveOrigin(reg: Registry)
    ensures forall c :: c in AllCaptured(reg) ==> Origin(reg, c)
  {
    var ppis := Filter(reg, IsPpiShape);
    var visual := Filter(reg, IsVisual);
    VisualOrigin(reg, visual, ppis);
    PpiOrigin(reg, ppis);
    assert AllCaptured(reg) == MapVisual(visual, ppis) + MapPpi(ppis);
  }

  lemma VisualOrigin(reg: Registry, visual: seq<Element>, ppis: seq<Element>)
    requires forall e :: e in visual ==> e in reg && IsVisual(e)
    ensures forall c :: c in MapVisual(visual, ppis) ==> Origin(reg, c)
  {
    var m := MapVisual(visual, ppis);
    forall c | c in m
      ensures Origin(reg, c)
    {
      var k :| 0 <= k < |m| && m[k] == c;
      assert visual[k] in visual;
      assert !c.isMain && c.id == visual[k].id;
    }
  }

  lemma PpiOrigin(reg: Registry, ppis: seq<Element>)
    requires forall e :: e in ppis ==> e in reg && IsPpiShape(e)
    ensures forall c :: c in MapPpi(ppis) ==> Origin(reg, c)
  {
    var m := MapPpi(ppis);
    forall c | c in m
      ensures Origin(reg, c)
    {
      var k :| 0 <= k < |m| && m[k] == c;
      assert ppis[k] in ppis;
      assert c.isMain && c.id == ppis[k].id;
    }
  }

  lemma AllCover(reg: Registry)
    ensures forall e :: e in reg && (IsVisual(e) || IsPpiShape(e)) ==> HasKey(AllCaptured(reg), CapturedId, e.id)
  {
    var ppis := Filter(reg, IsPpiShape);
    var visual := Filter(reg, IsVisual);
    forall e | e in reg && (IsVisual(e) || IsPpiShape(e))
      ensures HasKey(AllCaptured(reg), CapturedId, e.id)
    {
      BothCover(visual, ppis, e);
    }
  }

  /** Every element of either list has an entry with its id. */
  lemma BothCover(visual: seq<Element>, ppis: seq<Element>, e: Element)
    requires e in visual || e in ppis
    ensures HasKey(CaptureBoth(visual, ppis), CapturedId, e.id)
  {
    var all := CaptureBoth(visual, ppis);
    if e in visual {
      var k :| 0 <= k < |visual| && visual[k] == e;
      assert all[k] in all;
    } else {
      var k :| 0 <= k < |ppis| && ppis[k] == e;
      var n := |visual| + k;
      assert all[n] == CapturePpi(ppis[n - |visual|]);
      assert all[n] in all;
    }
  }

  /** `capturarElementosPPINOT`: the visual elements, then the PPI shapes,
      keeping the first element of each id. */
  function CapturePpinot(reg: Registry): (r: seq<Captured>)
    ensures IsSubsequence(r, AllCaptured(reg))
    ensures forall c :: c in r ==> exists i :: FirstWithKey(AllCaptured(reg), CapturedId, i) && AllCaptured(reg)[i] == c
    ensures forall i, j :: 0 <= i < j < |r| ==> r[i].id != r[j].id
    ensures forall c :: c in r ==> Origin(reg, c)
    ensures forall c :: c in r && !c.isMain ==> !Contains(c.id, "_label")
    ensures forall e :: e in reg && (IsVisual(e) || IsPpiShape(e)) ==> HasKey(r, CapturedId, e.id)
  {
    var all := AllCaptured(reg);
    var r := DedupBy(all, CapturedId);
    AllHaveOrigin(reg);
    AllCover(reg);
    SubsequenceMembers(r, all);
    assert forall e :: e in reg && (IsVisual(e) || IsPpiShape(e)) ==> HasKey(r, CapturedId, e.id) by {
      forall e | e in reg && (IsVisual(e) || IsPpiShape(e))
        ensures HasKey(r, CapturedId, e.id)
      {
        var c :| c in all && CapturedId(c) == e.id;
      }
    }
    r
  }

  /** The visual elements come first, so a PPI shape's entry survives only
      when no visual element shares its id. */
  lemma VisualWinsOverPpi(reg: Registry, c: Captured)
    requires c in CapturePpinot(reg) && c.isMain
    ensures forall e :: e in reg && IsVisual(e) ==> e.id != c.id
  {
    var visual, ppis := Filter(reg, IsVisual), Filter(reg, IsPpiShape);
    var a, b := MapVisual(visual, ppis), MapPpi(ppis);
    assert AllCaptured(reg) == a + b;
    var i :| FirstWithKey(a + b, CapturedId, i) && (a + b)[i] == c;
    assert i >= |a|;
    FirstAfterPrefix(a, b, CapturedId, i);
    forall e | e in reg && IsVisual(e)
      ensures e.id != c.id
    {
      assert e in visual;
      VisualEntry(visual, ppis, e);
    }
  }

  lemma VisualEntry(visual: seq<Element>, ppis: seq<Element>, e: Element)
    requires e in visual
    ensures exists x :: x in MapVisual(visual, ppis) && CapturedId(x) == e.id
  {
    var k :| 0 <= k < |visual| && visual[k] == e;
    var a := MapVisual(visual, ppis);
    assert a[k] in a;
  }

  /** The first element with its key, found past a prefix, shares its key
      with nothing in the prefix. */
  lemma FirstAfterPrefix(a: seq<Captured>, b: seq<Captured>, key: Captured -> string, i: int)
    requires FirstWithKey(a + b, key, i) && i >= |a|
    ensures forall x :: x in a ==> key(x) != key((a + b)[i])
  {
    forall x | x in a
      ensures key(x) != key((a + b)[i])
    {
      var k :| 0 <= k < |a| && a[k] == x;
      assert (a + b)[k] == x;
    }
  }
}
