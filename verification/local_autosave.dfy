/** The localStorage draft manager: the three-hour expiry of a stored
    draft, the test that a draft holds something worth restoring, the
    save throttle and its suspension during a restore, the "time ago"
    wording of the draft notice, and the re-binding of stored PPIs to the
    canvas. Clock readings, the outcome of the storage write and the
    canvas import are parameters. */
module LocalAutosave {
  import opened Common
  import opened Diagram
  import opened PpiModel
  import opened PpiCore

  /** `TTL_MS`: three hours. */
  const TtlMs: int := 3 * 60 * 60 * 1000

  /** `minSaveInterval`. */
  const MinSaveInterval: int := 2000

  // ---------------------------------------------------------------------
  // Loading the draft

  /** The parts of a stored project state that decide whether it is worth
      restoring. None stands for a missing field or one of the wrong type
      (an XML that is not a string, indicators or roles that are not
      arrays); `hasMetadata` says whether the state carries `metadata`, and
      `lastSave` is that metadata's `lastSave` (None when absent). */
  datatype Draft = Draft(
    xml: Option<string>,
    indicators: Option<seq<Option<Ppi>>>,
    roles: Option<seq<string>>,
    hasMetadata: bool,
    lastSave: Option<int>)

  /** The stored entry: the state (None when it is null) and `savedAt`. */
  datatype Stored = Stored(value: Option<Draft>, savedAt: int)

  /** The content check of `loadFromStorage`. */
  predicate HasContent(d: Draft) {
    (d.xml.Some? && |Trim(d.xml.value)| > 0)
    || (d.indicators.Some? && |d.indicators.value| > 0)
    || (d.roles.Some? && |d.roles.value| > 0)
  }

  predicate Expired(s: Stored, now: int) {
    now - s.savedAt > TtlMs
  }

  /** What `loadFromStorage` answers, and whether the entry is still in
      storage afterwards (an expired entry is removed). */
  datatype Loaded = Loaded(draft: Option<Draft>, stillStored: bool)

  function LoadFromStorage(stored: Option<Stored>, now: int): (r: Loaded)
    ensures r.draft.Some? <==> stored.Some? && !Expired(stored.value, now)
                               && stored.value.value.Some? && HasContent(stored.value.value.value)
    ensures r.draft.Some? ==> r.draft == stored.value.value
    ensures r.stillStored <==> stored.Some? && !Expired(stored.value, now)
  {
    match stored
    case None => Loaded(None, false)
    case Some(s) =>
      if Expired(s, now) then Loaded(None, false)
      else if s.value.Some? && HasContent(s.value.value) then Loaded(s.value, true)
      else Loaded(None, true)
  }

  /** A draft with content saved at `t` is loaded back unchanged at any
      time up to three hours later. */
  lemma SaveThenLoad(d: Draft, t: int, now: int)
    requires HasContent(d) && t <= now <= t + TtlMs
    ensures LoadFromStorage(Some(Stored(Some(d), t)), now) == Loaded(Some(d), true)
  {
  }

  /** Expiry is for good: once a draft is too old to load, it stays so. */
  lemma ExpiredStaysExpired(s: Stored, now: int, later: int)
    requires now <= later && LoadFromStorage(Some(s), now).draft.None?
    requires !LoadFromStorage(Some(s), now).stillStored
    ensures LoadFromStorage(Some(s), later).draft.None?
  {
  }

  /** `loadState`: true when a draft loads and carries metadata. */
  function LoadState(stored: Option<Stored>, now: int): (r: bool)
    ensures r ==> stored.Some? && !Expired(stored.value, now)
    ensures r <==> LoadFromStorage(stored, now).draft.Some? && LoadFromStorage(stored, now).draft.value.hasMetadata
  {
    var l := LoadFromStorage(stored, now);
    l.draft.Some? && l.draft.value.hasMetadata
  }

  // ---------------------------------------------------------------------
  // Saving

  /** The saver's state: `suspended`, `lastSaveTime` and the
      `metadata.lastSave` of the project state. */
  datatype Saver = Saver(suspended: bool, lastSaveTime: int, lastSave: Option<int>)

  const InitialSaver: Saver := Saver(false, 0, None)

  datatype SaveOutcome = SaveOutcome(saved: bool, state: Saver)

  /** `saveState` at clock `now`: refused while suspended or within 2000 ms
      of the last successful save; `captured` says whether reading the
      canvas and the panels succeeded, `written` whether the storage write
      did. */
  function SaveState(s: Saver, now: int, captured: bool, written: bool): (r: SaveOutcome)
    ensures r.saved <==> !s.suspended && now - s.lastSaveTime >= MinSaveInterval && captured && written
    ensures r.state.suspended == s.suspended
    ensures r.state.lastSaveTime == (if r.saved then now else s.lastSaveTime)
    ensures r.state.lastSave == (if !s.suspended && now - s.lastSaveTime >= MinSaveInterval && captured
                                 then Some(now) else s.lastSave)
  {
    if s.suspended then SaveOutcome(false, s)
    else if now - s.lastSaveTime < MinSaveInterval then SaveOutcome(false, s)
    else if !captured then SaveOutcome(false, s)
    else
      var s' := s.(lastSave := Some(now));
      if written then SaveOutcome(true, s'.(lastSaveTime := now))
      else SaveOutcome(false, s')
  }

  /** Two successful saves are at least 2000 ms apart. */
  lemma SavesAreSpaced(s: Saver, t1: int, t2: int, c1: bool, w1: bool, c2: bool, w2: bool)
    requires SaveState(s, t1, c1, w1).saved
    requires SaveState(SaveState(s, t1, c1, w1).state, t2, c2, w2).saved
    ensures t2 - t1 >= MinSaveInterval
  {
  }

  /** A failed save leaves the throttle where it was, so the next attempt
      is measured from the last success. */
  lemma FailedSaveKeepsThrottle(s: Saver, now: int, captured: bool, written: bool)
    requires !SaveState(s, now, captured, written).saved
    ensures SaveState(s, now, captured, written).state.lastSaveTime == s.lastSaveTime
  {
  }

  function Suspend(s: Saver): Saver {
    s.(suspended := true)
  }

  function Resume(s: Saver): Saver {
    s.(suspended := false)
  }

  /** `forceRestore`: nothing happens when no draft loads; otherwise the
      loaded state is spread over the project state, so its metadata, and
      with it `lastSave`, replaces the current one, and saving is suspended
      for the restore and resumed afterwards whatever the restore's
      outcome. The throttle's `lastSaveTime` is never touched. */
  function ForceRestore(s: Saver, stored: Option<Stored>, now: int, restored: bool): (r: (bool, Saver))
    ensures !LoadState(stored, now) ==> r == (false, s)
    ensures LoadState(stored, now) ==> r.0 == restored && !r.1.suspended
    ensures LoadState(stored, now) ==> r.1.lastSave == stored.value.value.value.lastSave
    ensures r.1.lastSaveTime == s.lastSaveTime
  {
    if !LoadState(stored, now) then (false, s)
    else
      var loaded := s.(lastSave := LoadFromStorage(stored, now).draft.value.lastSave);
      var during := Suspend(loaded);
      (restored, Resume(during))
  }

  /** A draft saved at `t` and restored within three hours brings back the
      `lastSave` it was stored with. */
  lemma SaveThenRestore(s: Saver, d: Draft, t: int, now: int, restored: bool)
    requires HasContent(d) && d.hasMetadata && t <= now <= t + TtlMs
    ensures ForceRestore(s, Some(Stored(Some(d), t)), now, restored).1.lastSave == d.lastSave
  {
    SaveThenLoad(d, t, now);
  }

  /** After a restore that loaded something, the next save is refused only
      by the throttle and the outcome of the capture and the write. */
  lemma SaveAfterRestore(s: Saver, stored: Option<Stored>, now: int, restored: bool, later: int)
    requires LoadState(stored, now)
    requires later - s.lastSaveTime >= MinSaveInterval
    ensures SaveState(ForceRestore(s, stored, now, restored).1, later, true, true).saved
  {
  }

  // ---------------------------------------------------------------------
  // "Time ago"

  /** The unit `getTimeAgo` picks, with its count. */
  datatype Ago = LessThanMinute | Days(n: nat) | Hours(n: nat) | Minutes(n: nat)

  const MinuteMs: int := 60 * 1000
  const HourMs: int := 60 * MinuteMs
  const DayMs: int := 24 * HourMs

  /** Flooring the minutes to hours is flooring the milliseconds. */
  lemma HoursFromMinutes(diff: int)
    ensures (diff / MinuteMs) / 60 == diff / HourMs
  {
    var q := diff / MinuteMs;
    var q2 := q / 60;
    assert diff == MinuteMs * q + diff % MinuteMs;
    assert q == 60 * q2 + q % 60;
    assert diff == HourMs * q2 + (MinuteMs * (q % 60) + diff % MinuteMs);
    assert 0 <= MinuteMs * (q % 60) + diff % MinuteMs < HourMs;
  }

  lemma DaysFromHours(diff: int)
    ensures (diff / HourMs) / 24 == diff / DayMs
  {
    var q := diff / HourMs;
    var q2 := q / 24;
    assert diff == HourMs * q + diff % HourMs;
    assert q == 24 * q2 + q % 24;
    assert diff == DayMs * q2 + (HourMs * (q % 24) + diff % HourMs);
    assert 0 <= HourMs * (q % 24) + diff % HourMs < DayMs;
  }

  /** The largest whole unit elapsed between `timestamp` and `now`. */
  function TimeAgo(now: int, timestamp: int): (r: Ago)
    ensures var diff := now - timestamp;
            (r.Days? <==> diff >= DayMs)
            && (r.Hours? <==> HourMs <= diff < DayMs)
            && (r.Minutes? <==> MinuteMs <= diff < HourMs)
            && (r.LessThanMinute? <==> diff < MinuteMs)
    ensures r.Days? ==> r.n == (now - timestamp) / DayMs && r.n >= 1
    ensures r.Hours? ==> r.n == (now - timestamp) / HourMs && 1 <= r.n < 24
    ensures r.Minutes? ==> r.n == (now - timestamp) / MinuteMs && 1 <= r.n < 60
  {
    var diff := now - timestamp;
    var minutes := diff / MinuteMs;
    var hours := minutes / 60;
    var days := hours / 24;
    HoursFromMinutes(diff);
    DaysFromHours(diff);
    if days > 0 then Days(days)
    else if hours > 0 then Hours(hours)
    else if minutes > 0 then Minutes(minutes)
    else LessThanMinute
  }

  /** "n unit", with a plural "s" above one: the decimal digits of `n`, a
      space, the unit, and a final "s" exactly when `n` is above one. */
  function Counted(n: nat, unit: string): (r: string)
    ensures var d := NatToString(n);
            |r| == |d| + 1 + |unit| + (if n > 1 then 1 else 0)
            && r[..|d|] == d && r[|d|] == ' '
            && r[|d| + 1..|d| + 1 + |unit|] == unit
            && (n > 1 ==> r[|r| - 1] == 's')
  {
    NatToString(n) + " " + unit + (if n > 1 then "s" else "")
  }

  /** `getTimeAgo`: the Spanish wording of `TimeAgo`. */
  function GetTimeAgo(now: int, timestamp: int): (r: string)
    ensures r == "menos de 1 minuto" <==> now - timestamp < MinuteMs
    ensures now - timestamp >= DayMs ==> r == Counted((now - timestamp) / DayMs, "día")
    ensures HourMs <= now - timestamp < DayMs ==> r == Counted((now - timestamp) / HourMs, "hora")
    ensures MinuteMs <= now - timestamp < HourMs ==> r == Counted((now - timestamp) / MinuteMs, "minuto")
  {
    match TimeAgo(now, timestamp)
    case Days(n) => Counted(n, "día")
    case Hours(n) => Counted(n, "hora")
    case Minutes(n) => Counted(n, "minuto")
    case LessThanMinute => "menos de 1 minuto"
  }

  /** The count can be read back from the wording: the digits run up to
      the first space, so two wordings of the same unit are equal only for
      equal counts. */
  lemma CountedInjective(a: nat, b: nat, unit: string)
    requires Counted(a, unit) == Counted(b, unit)
    ensures a == b
  {
    var r := Counted(a, unit);
    var da, db := NatToString(a), NatToString(b);
    if |da| != |db| {
      assert false;
    }
    assert da == r[..|da|] == db;
    NatToStringInjective(a, b);
  }

  /** A wording in which a unit follows the count's space. */
  predicate UnitAfterCount(r: string, n: nat, c: char) {
    var d := NatToString(n);
    |d| + 1 < |r| && r[|d| + 1] == c
  }

  /** `getTimeAgo` says "1 día" exactly while at least one and under two
      days have passed. */
  lemma OneDay(now: int, timestamp: int)
    ensures GetTimeAgo(now, timestamp) == "1 día" <==> DayMs <= now - timestamp < 2 * DayMs
  {
    var diff := now - timestamp;
    var r := GetTimeAgo(now, timestamp);
    assert NatToString(1) == "1";
    if diff >= DayMs {
      assert Counted(1, "día") == "1 día";
      if r == "1 día" {
        CountedInjective(diff / DayMs, 1, "día");
      }
    } else if diff >= HourMs {
      assert UnitAfterCount(r, diff / HourMs, 'h');
    } else if diff >= MinuteMs {
      assert UnitAfterCount(r, diff / MinuteMs, 'm');
    }
  }

  /** … "1 hora" exactly while at least one and under two hours have
      passed. */
  lemma OneHour(now: int, timestamp: int)
    ensures GetTimeAgo(now, timestamp) == "1 hora" <==> HourMs <= now - timestamp < 2 * HourMs
  {
    var diff := now - timestamp;
    var r := GetTimeAgo(now, timestamp);
    assert NatToString(1) == "1";
    if diff >= DayMs {
      assert UnitAfterCount(r, diff / DayMs, 'd');
    } else if diff >= HourMs {
      assert Counted(1, "hora") == "1 hora";
      if r == "1 hora" {
        CountedInjective(diff / HourMs, 1, "hora");
      }
    } else if diff >= MinuteMs {
      assert UnitAfterCount(r, diff / MinuteMs, 'm');
    }
  }

  /** … and "1 minuto" exactly while at least one and under two minutes
      have passed. */
  lemma OneMinute(now: int, timestamp: int)
    ensures GetTimeAgo(now, timestamp) == "1 minuto" <==> MinuteMs <= now - timestamp < 2 * MinuteMs
  {
    var diff := now - timestamp;
    var r := GetTimeAgo(now, timestamp);
    assert NatToString(1) == "1";
    if diff >= DayMs {
      assert UnitAfterCount(r, diff / DayMs, 'd');
    } else if diff >= HourMs {
      assert UnitAfterCount(r, diff / HourMs, 'h');
    } else if diff >= MinuteMs {
      assert Counted(1, "minuto") == "1 minuto";
      if r == "1 minuto" {
        CountedInjective(diff / MinuteMs, 1, "minuto");
      }
    }
  }

  // ---------------------------------------------------------------------
  // Re-binding stored PPIs

  /** A stored PPI survives the restore when it is present, bound, and its
      element is on the canvas (or no canvas can be asked). */
  predicate Survives(entry: Option<Ppi>, canvas: Option<Registry>) {
    entry.Some? && Truthy(entry.value.elementId)
    && (canvas.None? || Has(canvas.value, entry.value.elementId))
  }

  /** The `kept` list of `restorePPIState`. */
  function KeptPpis(entries: seq<Option<Ppi>>, canvas: Option<Registry>): (r: seq<Ppi>)
    ensures |r| <= |entries|
    ensures forall p :: p in r <==> Some(p) in entries && Survives(Some(p), canvas)
    decreases |entries|
  {
    if |entries| == 0 then []
    else
      var rest := KeptPpis(entries[1..], canvas);
      assert forall x :: x in entries[1..] ==> x in entries;
      if Survives(entries[0], canvas) then [entries[0].value] + rest else rest
  }

  /** Some record of `s` is bound to element `e`. */
  predicate Binds(s: seq<Ppi>, e: string) {
    exists q :: q in s && q.elementId == e
  }

  /** `addPPI` keeps every binding and adds the new record's. */
  lemma AddPpiBinds(store: seq<Ppi>, p: Ppi, e: string)
    ensures Binds(store, e) || e == p.elementId ==> Binds(AddPpi(store, p), e)
  {
    if e == p.elementId {
      assert p in AddPpi(store, p);
    } else if Binds(store, e) {
      var q :| q in store && q.elementId == e;
      assert q in AddPpi(store, p);
    }
  }

  /** Repeated `addPPI` calls on the store. */
  function AddAll(store: seq<Ppi>, ps: seq<Ppi>): (r: seq<Ppi>)
    ensures forall q :: q in r ==> q in store || q in ps
    ensures UniqueBindings(store) ==> UniqueBindings(r)
    ensures forall e :: Binds(store, e) || Binds(ps, e) ==> Binds(r, e)
    decreases |ps|
  {
    if |ps| == 0 then store
    else
      var next := AddPpi(store, ps[0]);
      assert UniqueBindings(store) ==> UniqueBindings(next) by {
        if UniqueBindings(store) {
          AddKeepsBindingsUnique(store, ps[0]);
        }
      }
      var r := AddAll(next, ps[1..]);
      assert forall q :: q in ps[1..] ==> q in ps;
      assert forall e :: Binds(store, e) || Binds(ps, e) ==> Binds(next, e) || Binds(ps[1..], e) by {
        forall e | Binds(store, e) || Binds(ps, e)
          ensures Binds(next, e) || Binds(ps[1..], e)
        {
          AddPpiBinds(store, ps[0], e);
          if e != ps[0].elementId && !Binds(store, e) {
            var q :| q in ps && q.elementId == e;
            var k :| 0 <= k < |ps| && ps[k] == q;
            assert k > 0;
            assert ps[1..][k - 1] == q;
          }
        }
      }
      r
  }

  /** The PPI store and the stored indicators after `restorePPIState`. */
  datatype PpiRestore = PpiRestore(store: seq<Ppi>, indicators: seq<Option<Ppi>>)

  function Wrap(ps: seq<Ppi>): (r: seq<Option<Ppi>>)
    ensures |r| == |ps| && forall i :: 0 <= i < |ps| ==> r[i] == Some(ps[i])
  {
    seq(|ps|, i requires 0 <= i < |ps| => Some(ps[i]))
  }

  /** Some present, bound PPI's element is missing from the canvas. */
  predicate DropsBound(entries: seq<Option<Ppi>>, canvas: Option<Registry>) {
    exists e :: e in entries && e.Some? && Truthy(e.value.elementId) && !Survives(e, canvas)
  }

  /** `restorePPIState`: the store is emptied and refilled with the stored
      PPIs whose element is still on the canvas; when some bound PPI was
      dropped, the stored list is cut down to the kept ones. */
  function RestorePpiState(entries: seq<Option<Ppi>>, canvas: Option<Registry>): (r: PpiRestore)
    ensures forall p :: p in r.store ==> Truthy(p.elementId) && Some(p) in entries
                                         && (canvas.None? || Has(canvas.value, p.elementId))
    ensures UniqueBindings(r.store)
    ensures forall e :: e in entries && Survives(e, canvas) ==> Binds(r.store, e.value.elementId)
    ensures r.indicators == entries || forall e :: e in r.indicators ==> Survives(e, canvas)
    ensures (forall e :: e in entries && e.Some? && Truthy(e.value.elementId) ==> Survives(e, canvas))
            ==> r.indicators == entries
    ensures DropsBound(entries, canvas) ==> r.indicators == Wrap(KeptPpis(entries, canvas))
  {
    var kept := KeptPpis(entries, canvas);
    var store := AddAll([], kept);
    var removed := DropsBound(entries, canvas);
    assert forall e :: e in entries && Survives(e, canvas) ==> Binds(kept, e.value.elementId) by {
      forall e | e in entries && Survives(e, canvas)
        ensures Binds(kept, e.value.elementId)
      {
        assert e.value in kept;
      }
    }
    PpiRestore(store, if removed then Wrap(kept) else entries)
  }
}
