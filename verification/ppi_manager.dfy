/** The PPI manager that ties the PPI store to the canvas: the circuit
    breaker in front of list refreshes, the cooldown that stops a deleted
    PPI shape from being re-created straight away, the orphan check, the
    removal of a record when its shape goes, and the `bpmnLink` records
    the manager writes. Clock readings and the readiness of the list's DOM
    container are parameters. */
module PpiManager {
  import opened Common
  import opened Diagram
  import opened PpiModel
  import opened PpiCore

  // ---------------------------------------------------------------------
  // The refresh circuit breaker

  const MaxAttempts: int := 10
  const CircuitResetMs: int := 10000
  const RefreshDebounceMs: int := 100

  /** `_refreshAttempts`, `_refreshCircuitOpen`, `_lastRefreshTime`. */
  datatype Breaker = Breaker(attempts: int, open: bool, lastRefresh: int)

  const InitialBreaker: Breaker := Breaker(0, false, 0)

  /** The breaker's invariant: at most one attempt over the limit, and the
      circuit is open exactly when that limit was passed. */
  predicate BreakerOk(b: Breaker) {
    0 <= b.attempts <= MaxAttempts + 1 && (b.open <==> b.attempts == MaxAttempts + 1)
  }

  /** `refreshPPIList` at clock `now`; `ready` says whether the list's
      container is mounted, so the refresh goes through. The answer says
      whether the list was refreshed. */
  function RefreshPpiList(b: Breaker, now: int, ready: bool): (r: (bool, Breaker))
    ensures b.open && now - b.lastRefresh <= CircuitResetMs ==> r == (false, b)
    ensures r.0 ==> ready && !r.1.open && r.1.lastRefresh == now
    ensures r.0 ==> r.1.attempts == (if b.open || b.attempts < 0 then 0 else b.attempts)
    ensures r.1 != b && r.1.lastRefresh == b.lastRefresh ==> r.1 == Breaker(0, false, b.lastRefresh)
    ensures !b.open && now - b.lastRefresh < RefreshDebounceMs ==> r == (false, b)
  {
    var c := if b.open && now - b.lastRefresh > CircuitResetMs then Breaker(0, false, b.lastRefresh) else b;
    if c.open then (false, c)
    else if now - c.lastRefresh < RefreshDebounceMs then (false, c)
    else
      var d := Breaker(c.attempts + 1, false, now);
      if d.attempts > MaxAttempts then (false, d.(open := true))
      else if ready then (true, d.(attempts := if d.attempts - 1 < 0 then 0 else d.attempts - 1))
      else (false, d)
  }

  /** Every call keeps the breaker's invariant. */
  lemma RefreshKeepsBreakerOk(b: Breaker, now: int, ready: bool)
    requires BreakerOk(b)
    ensures BreakerOk(RefreshPpiList(b, now, ready).1)
  {
  }

  /** The breaker opens on the call that makes the eleventh outstanding
      attempt, and stays shut to every call for the next ten seconds. */
  lemma EleventhAttemptOpens(b: Breaker, now: int, ready: bool, later: int, ready2: bool)
    requires !b.open && b.attempts == MaxAttempts && now - b.lastRefresh >= RefreshDebounceMs
    requires now <= later <= now + CircuitResetMs
    ensures var r := RefreshPpiList(b, now, ready);
            !r.0 && r.1.open && RefreshPpiList(r.1, later, ready2) == (false, r.1)
  {
  }

  /** Refreshes that go through are at least 100 ms apart. */
  lemma RefreshesAreSpaced(b: Breaker, t1: int, t2: int, ready1: bool, ready2: bool)
    requires RefreshPpiList(b, t1, ready1).0
    requires RefreshPpiList(RefreshPpiList(b, t1, ready1).1, t2, ready2).0
    ensures t2 - t1 >= RefreshDebounceMs
  {
  }

  // ---------------------------------------------------------------------
  // The creation cooldown

  const CreationCooldownMs: int := 1500

  /** `_isDeleting` and `_recentlyDeletedElements`. */
  datatype Deletions = Deletions(deleting: bool, recent: map<string, int>)

  function LastDeletion(d: Deletions, elementId: string): int {
    if elementId in d.recent then d.recent[elementId] else 0
  }

  /** The guard of `createPPIFromElement`. */
  predicate MayCreate(d: Deletions, elementId: string, now: int) {
    !d.deleting && now - LastDeletion(d, elementId) >= CreationCooldownMs
  }

  /** The element-removed handler stamps the element with the clock. */
  function MarkDeleted(d: Deletions, elementId: string, now: int): (r: Deletions)
    ensures LastDeletion(r, elementId) == now
    ensures forall e :: e != elementId ==> LastDeletion(r, e) == LastDeletion(d, e)
    ensures r.deleting == d.deleting
  {
    d.(recent := d.recent[elementId := now])
  }

  /** The record `createPPIFromElement` builds: titled after the element's
      trimmed name, or its id. */
  function NewPpi(id: string, elementId: string, name: string, now: int): (r: Ppi)
    ensures r.elementId == elementId && r.id == id
    ensures r.title == (if Trim(name) != "" then Trim(name) else elementId)
  {
    Ppi(id, if Trim(name) != "" then Trim(name) else elementId, "", "Proceso General", "",
        Some(Measure("derived", "")), "", "", "", "", [],
        "PPI generado automáticamente desde elemento: " + elementId,
        elementId, "", map[], "", now, now)
  }

  /** The element's name as `createPPIFromElement` reads it: "" when there is
      no canvas or no such element. */
  function ElementName(canvas: Option<Registry>, elementId: string): string {
    if canvas.None? then "" else
    match Get(canvas.value, elementId)
    case None => ""
    case Some(e) => e.name
  }

  /** `createPPIFromElement`: nothing while deleting or within the cooldown;
      otherwise a new record bound to the element is added to the store. */
  function CreatePpiFromElement(ppis: seq<Ppi>, d: Deletions, canvas: Option<Registry>,
                                elementId: string, newId: string, now: int): (r: seq<Ppi>)
    ensures !MayCreate(d, elementId, now) ==> r == ppis
    ensures MayCreate(d, elementId, now) ==> |r| >= 1 && r[|r| - 1].elementId == elementId && r[|r| - 1].id == newId
    ensures MayCreate(d, elementId, now) ==> r == AddPpi(ppis, NewPpi(newId, elementId, ElementName(canvas, elementId), now))
  {
    if !MayCreate(d, elementId, now) then ppis
    else AddPpi(ppis, NewPpi(newId, elementId, ElementName(canvas, elementId), now))
  }

  /** Within 1.5 s of its removal a shape does not get a new record, however
      often creation is attempted. */
  lemma NoRecreationWithinCooldown(ppis: seq<Ppi>, d: Deletions, canvas: Option<Registry>,
                                   elementId: string, newId: string, t: int, now: int)
    requires t <= now < t + CreationCooldownMs
    ensures CreatePpiFromElement(ppis, MarkDeleted(d, elementId, t), canvas, elementId, newId, now) == ppis
  {
  }

  // ---------------------------------------------------------------------
  // Orphans and removal

  /** `checkForOrphanedPPIs`: records that are unbound or whose element is
      on the canvas stay. */
  function CheckForOrphanedPpis(ppis: seq<Ppi>, reg: Registry): (r: seq<Ppi>)
    ensures forall p :: p in r <==> p in ppis && (!Truthy(p.elementId) || Has(reg, p.elementId))
  {
    Filter(ppis, (p: Ppi) => !Truthy(p.elementId) || Has(reg, p.elementId))
  }

  /** The manager's orphan check and the store's purge agree. */
  lemma OrphanCheckIsPurge(ppis: seq<Ppi>, reg: Registry)
    ensures CheckForOrphanedPpis(ppis, reg) == Purge(ppis, reg)
  {
    FilterSameTest(ppis, (p: Ppi) => !Truthy(p.elementId) || Has(reg, p.elementId), (p: Ppi) => Kept(reg, p));
  }

  function WithoutId(ppis: seq<Ppi>, id: string): (r: seq<Ppi>)
    ensures forall p :: p in r <==> p in ppis && p.id != id
    ensures IsSubsequence(r, ppis)
  {
    Filter(ppis, (p: Ppi) => p.id != id)
  }

  /** `removePPIFromList(key)`: nothing while that key is being removed; the
      first record bound to element `key` goes (with every record sharing
      its id); failing that, the record with id `key` is deleted through
      the store; failing that, orphans are purged when a canvas is at
      hand. */
  function RemovePpiFromList(ppis: seq<Ppi>, busy: bool, canvas: Option<Registry>, key: string): (r: seq<Ppi>)
    ensures busy ==> r == ppis
    ensures !busy && IndexOfElement(ppis, key).Some? ==>
              r == WithoutId(ppis, ppis[IndexOfElement(ppis, key).value].id)
    ensures !busy && IndexOfElement(ppis, key).None? && IndexOfId(ppis, key).Some? ==>
              r == DeletePpi(ppis, canvas, key).ppis && |r| < |ppis|
    ensures !busy && IndexOfElement(ppis, key).None? && IndexOfId(ppis, key).None? ==>
              r == (if canvas.Some? then CheckForOrphanedPpis(ppis, canvas.value) else ppis)
  {
    if busy then ppis
    else match IndexOfElement(ppis, key)
      case Some(i) => WithoutId(ppis, ppis[i].id)
      case None =>
        match IndexOfId(ppis, key)
        case Some(_) => DeletePpi(ppis, canvas, key).ppis
        case None => if canvas.Some? then CheckForOrphanedPpis(ppis, canvas.value) else ppis
  }

  /** With one record per element, removing an element's record leaves no
      record bound to it. */
  lemma RemoveUnbindsElement(ppis: seq<Ppi>, canvas: Option<Registry>, e: string)
    requires UniqueBindings(ppis) && Truthy(e)
    requires exists j :: 0 <= j < |ppis| && ppis[j].elementId == e
    ensures forall p :: p in RemovePpiFromList(ppis, false, canvas, e) ==> p.elementId != e
  {
    var i := IndexOfElement(ppis, e).value;
    var r := RemovePpiFromList(ppis, false, canvas, e);
    forall p | p in r
      ensures p.elementId != e
    {
      var k :| 0 <= k < |ppis| && ppis[k] == p;
      if k != i {
        if k < i {
          assert ppis[k].elementId != ppis[i].elementId;
        } else {
          assert ppis[i].elementId != ppis[k].elementId;
        }
      }
    }
  }

  // ---------------------------------------------------------------------
  // The manager's BPMN links

  /** An entry of `bpmnLink` JavaScript reads as true. */
  predicate EntryTruthy(l: LinkEntry) {
    match l
    case ElementRef(x) => Truthy(x)
    case LinkRecord(_, _, _) => true
  }

  /** The manager's `getPPIsForElement(e)`: bound to `e`, or holding a
      truthy `bpmnLink[e]`. */
  predicate Matches(p: Ppi, e: string) {
    p.elementId == e || (e in p.bpmnLink && EntryTruthy(p.bpmnLink[e]))
  }

  function PpisForElement(ppis: seq<Ppi>, e: string): (r: seq<Ppi>)
    ensures IsSubsequence(r, ppis)
    ensures forall p :: p in r <==> p in ppis && Matches(p, e)
  {
    Filter(ppis, (p: Ppi) => Matches(p, e))
  }

  /** `linkToBpmnElement(id, e, linkType)`: false for an unknown record;
      otherwise the first record with that id gets a link record under key
      `e`. */
  function LinkToBpmnElement(ppis: seq<Ppi>, id: string, e: string, linkType: string, now: int): (r: (bool, seq<Ppi>))
    ensures r.0 <==> exists j :: 0 <= j < |ppis| && ppis[j].id == id
    ensures !r.0 ==> r.1 == ppis
    ensures |r.1| == |ppis|
    ensures r.0 ==> var i := IndexOfId(ppis, id).value;
                    r.1 == ppis[i := ppis[i].(bpmnLink := ppis[i].bpmnLink[e := LinkRecord(linkType, e, now)])]
  {
    match IndexOfId(ppis, id)
    case None => (false, ppis)
    case Some(i) => (true, ppis[i := ppis[i].(bpmnLink := ppis[i].bpmnLink[e := LinkRecord(linkType, e, now)])])
  }

  /** A record linked to an element is found for it. */
  lemma LinkThenFound(ppis: seq<Ppi>, id: string, e: string, linkType: string, now: int)
    requires exists j :: 0 <= j < |ppis| && ppis[j].id == id
    ensures exists p :: p in PpisForElement(LinkToBpmnElement(ppis, id, e, linkType, now).1, e) && p.id == id
  {
    var r := LinkToBpmnElement(ppis, id, e, linkType, now).1;
    var i := IndexOfId(ppis, id).value;
    assert r[i] in r && Matches(r[i], e);
  }

  /** The manager's `cleanupBpmnLinks(e)`: a truthy `bpmnLink[e]` is
      deleted. */
  function CleanupBpmnLinks(ppis: seq<Ppi>, e: string): (r: seq<Ppi>)
    ensures |r| == |ppis|
    ensures forall i :: 0 <= i < |r| ==> r[i].elementId == ppis[i].elementId && r[i].id == ppis[i].id
    ensures forall i :: 0 <= i < |r| ==> !(e in r[i].bpmnLink && EntryTruthy(r[i].bpmnLink[e]))
    ensures forall i :: 0 <= i < |r| ==> r[i].(bpmnLink := map[]) == ppis[i].(bpmnLink := map[])
    ensures forall i :: 0 <= i < |r| ==> forall k :: k in r[i].bpmnLink ==>
              k in ppis[i].bpmnLink && r[i].bpmnLink[k] == ppis[i].bpmnLink[k]
    ensures forall i :: 0 <= i < |r| ==> forall k :: k != e ==> (k in r[i].bpmnLink <==> k in ppis[i].bpmnLink)
    ensures forall i :: 0 <= i < |r| ==> (r[i] == ppis[i] <==> !(e in ppis[i].bpmnLink && EntryTruthy(ppis[i].bpmnLink[e])))
  {
    seq(|ppis|, i requires 0 <= i < |ppis| =>
      if e in ppis[i].bpmnLink && EntryTruthy(ppis[i].bpmnLink[e])
      then ppis[i].(bpmnLink := ppis[i].bpmnLink - {e})
      else ppis[i])
  }

  /** After the clean-up an element is found only through records bound to
      it. */
  lemma CleanupLeavesBoundOnly(ppis: seq<Ppi>, e: string)
    ensures forall p :: p in PpisForElement(CleanupBpmnLinks(ppis, e), e) ==> p.elementId == e
  {
    var r := CleanupBpmnLinks(ppis, e);
    forall p | p in PpisForElement(r, e)
      ensures p.elementId == e
    {
      var k :| 0 <= k < |r| && r[k] == p;
    }
  }
}
