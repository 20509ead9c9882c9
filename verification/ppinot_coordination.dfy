/** The PPINOT coordination manager: it decides when the PPINOT shapes kept
    in storage are put back on the canvas. Restoration needs a ready
    modeller, stored data and at least one trigger, runs once at a time, and
    stops after it has succeeded. The restoration itself is asynchronous, so
    an attempt is a beginning and a finish with an outcome. */
module PpinotCoordination {

  const MaxRestorationAttempts: int := 3
  /** `restorationCooldown`: zero, so only a clock that runs backwards is in
      cooldown. */
  const RestorationCooldown: int := 0

  /** `restorationState` together with `restorationTriggers`. */
  datatype Coordination = Coordination(
    initialized: bool,
    restoring: bool,
    restored: bool,
    modelerReady: bool,
    dataLoaded: bool,
    lastAttempt: int,
    count: nat,
    triggers: set<string>)

  const Initial: Coordination := Coordination(false, false, false, false, false, 0, 0, {})

  /** `canRestore()`. */
  predicate CanRestore(s: Coordination) {
    s.modelerReady && s.dataLoaded && !s.restoring && !s.restored && |s.triggers| > 0
  }

  /** What the synchronous part of `attemptRestoration` answers: refused,
      already restored, or an attempt now in flight. */
  datatype Attempt = Refused | AlreadyRestored | Started

  /** The synchronous part of `attemptRestoration()`: the guards, then the
      attempt is counted and marked as running. */
  function AttemptRestoration(s: Coordination, now: int): (r: (Attempt, Coordination))
    ensures !CanRestore(s) <==> r == (Refused, s)
    ensures r.0 == Started <==> CanRestore(s)
    ensures r.0 == Started ==> r.1 == s.(restoring := true, lastAttempt := now, count := s.count + 1)
  {
    if !CanRestore(s) then (Refused, s)
    else if s.restored then (AlreadyRestored, s)
    else if s.restoring then (Refused, s)
    else (Started, s.(restoring := true, lastAttempt := now, count := s.count + 1))
  }

  /** The two guards after `canRestore` never fire: `canRestore` already
      demands that nothing was restored and nothing is running. */
  lemma AttemptNeverAlreadyRestored(s: Coordination, now: int)
    ensures AttemptRestoration(s, now).0 != AlreadyRestored
  {
  }

  /** The asynchronous end of an attempt: the running flag is always
      cleared; on success the state is marked restored and the triggers are
      forgotten. */
  function FinishRestoration(s: Coordination, success: bool): (r: Coordination)
    ensures !r.restoring && r.count == s.count && r.lastAttempt == s.lastAttempt
    ensures r.restored == (s.restored || success)
    ensures r.triggers == (if success then {} else s.triggers)
    ensures r.modelerReady == s.modelerReady && r.dataLoaded == s.dataLoaded
  {
    if success then s.(restored := true, triggers := {}, restoring := false)
    else s.(restoring := false)
  }

  /** `triggerRestoration(source)`: ignored in cooldown, after three
      attempts, while restoring, or for a source already registered;
      otherwise the source is registered and an attempt is made. */
  function TriggerRestoration(s: Coordination, source: string, now: int): (r: (Attempt, Coordination))
    ensures (now - s.lastAttempt < RestorationCooldown || s.count >= MaxRestorationAttempts || s.restoring || source in s.triggers)
              ==> r == (Refused, s)
    ensures r.0 == Started ==> r.1.count == s.count + 1 <= MaxRestorationAttempts && source in r.1.triggers && r.1.restoring
    ensures r.0 != Started ==> r.1.restoring == s.restoring && r.1.count == s.count
    ensures r.1.triggers <= s.triggers + {source}
  {
    if now - s.lastAttempt < RestorationCooldown then (Refused, s)
    else if s.count >= MaxRestorationAttempts then (Refused, s)
    else if s.restoring then (Refused, s)
    else if source in s.triggers then (Refused, s)
    else AttemptRestoration(s.(triggers := s.triggers + {source}), now)
  }

  /** A trigger starts an attempt exactly when the clock has not gone back,
      it is new, fewer than three attempts were made, nothing is running or
      restored, and the modeller and the data are ready. */
  lemma TriggerStartsIff(s: Coordination, source: string, now: int)
    ensures TriggerRestoration(s, source, now).0 == Started <==>
              now >= s.lastAttempt && source !in s.triggers && s.count < MaxRestorationAttempts && !s.restoring && !s.restored
              && s.modelerReady && s.dataLoaded
  {
    var t := s.triggers + {source};
    assert source in t;
    assert |t| > 0;
  }

  /** Triggers alone never push the attempt count past three. */
  lemma TriggersBoundAttempts(s: Coordination, source: string, now: int)
    requires s.count <= MaxRestorationAttempts
    ensures TriggerRestoration(s, source, now).1.count <= MaxRestorationAttempts
  {
  }

  /** Once restoration has succeeded, no trigger starts another attempt. */
  lemma RestoredStaysQuiet(s: Coordination, source: string, now: int)
    requires s.restored
    ensures TriggerRestoration(s, source, now).0 != Started
    ensures TriggerRestoration(s, source, now).1.restored
  {
  }

  /** The modeller watcher: when the modeller first turns out ready, the flag
      is set and an attempt is made. */
  function ModelerReady(s: Coordination, now: int): (r: (Attempt, Coordination))
    ensures s.modelerReady ==> r == (Refused, s)
    ensures !s.modelerReady ==> r.1.modelerReady && r == AttemptRestoration(s.(modelerReady := true), now)
  {
    if s.modelerReady then (Refused, s) else AttemptRestoration(s.(modelerReady := true), now)
  }

  /** The data watcher: when stored PPINOT elements first show up, the flag
      is set and an attempt is made. */
  function DataLoaded(s: Coordination, elements: nat, now: int): (r: (Attempt, Coordination))
    ensures s.dataLoaded || elements == 0 ==> r == (Refused, s)
    ensures !s.dataLoaded && elements > 0 ==> r.1.dataLoaded && r == AttemptRestoration(s.(dataLoaded := true), now)
  {
    if elements > 0 && !s.dataLoaded then AttemptRestoration(s.(dataLoaded := true), now) else (Refused, s)
  }

  /** `reset()`: every flag back to its initial value and no triggers. */
  function Reset(s: Coordination): (r: Coordination)
    ensures !r.restoring && !r.restored && !r.modelerReady && !r.dataLoaded && r.count == 0 && r.triggers == {}
    ensures !CanRestore(r)
  {
    Initial
  }

  /** `forceRestoration()`: forgets the success, the count and the triggers
      (but not the readiness flags, nor a running attempt) and triggers
      `manual.force`. */
  function ForceRestoration(s: Coordination, now: int): (r: (Attempt, Coordination))
    ensures r.1.count <= 1 && r.1.triggers <= {"manual.force"} && !r.1.restored
    ensures r.0 == Started <==> !s.restoring && s.modelerReady && s.dataLoaded && now >= s.lastAttempt
  {
    var t := s.(restored := false, count := 0, triggers := {});
    TriggerStartsIff(t, "manual.force", now);
    TriggerRestoration(t, "manual.force", now)
  }

  /** Forcing starts a first fresh attempt whenever nothing is running and
      the modeller and the data are ready, even after a success. */
  lemma ForceStartsFresh(s: Coordination, now: int)
    requires !s.restoring && s.modelerReady && s.dataLoaded && now >= s.lastAttempt
    ensures var r := ForceRestoration(s, now);
            r.0 == Started && r.1.count == 1 && r.1.triggers == {"manual.force"}
  {
  }
}
