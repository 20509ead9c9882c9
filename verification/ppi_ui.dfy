/** The PPI panel's list and edit form: which records the list shows, the
    clean-up of duplicate cards, the defaults `validatePPI` fills in before
    a record is edited, the completeness mark on a card, the throttle on
    updates, and the progress mark on each tab of the edit form. */
module PpiUi {
  import opened Common
  import opened Diagram
  import opened PpiModel

  // ---------------------------------------------------------------------
  // The list

  /** The state of the de-duplicating pass over the records: the ids in the
      order first met, the record kept for each id, and the element ids
      already claimed. */
  datatype Listing = Listing(order: seq<string>, byId: map<string, Ppi>, elements: set<string>)

  /** One record of the pass: records without an id, and records whose
      element was already claimed, are skipped; otherwise the record is
      kept under its id (replacing an earlier one with that id, which keeps
      its place) and its element is claimed. */
  function Accept(l: Listing, p: Ppi): Listing {
    if !Truthy(p.id) then l
    else if Truthy(p.elementId) && p.elementId in l.elements then l
    else Listing(if p.id in l.byId then l.order else l.order + [p.id],
                 l.byId[p.id := p],
                 if Truthy(p.elementId) then l.elements + {p.elementId} else l.elements)
  }

  /** Some record among `seen` is bound to element `e`. */
  predicate Claimed(seen: seq<Ppi>, e: string) {
    exists k :: 0 <= k < |seen| && seen[k].elementId == e
  }

  /** What the pass keeps true of its state after reading `seen`. */
  ghost predicate ListingOk(l: Listing, seen: seq<Ppi>) {
    NoDup(l.order)
    && (forall id :: id in l.order <==> id in l.byId)
    && (forall id :: id in l.byId ==> l.byId[id].id == id && Truthy(id) && l.byId[id] in seen)
    && (forall id :: id in l.byId && Truthy(l.byId[id].elementId) ==> l.byId[id].elementId in l.elements)
    && (forall a, b :: a in l.byId && b in l.byId && a != b && Truthy(l.byId[a].elementId) ==>
          l.byId[a].elementId != l.byId[b].elementId)
    && (forall e :: e in l.elements ==> Claimed(seen, e))
  }

  /** A record with an id that no other record shares, neither by id nor
      (when it has one) by element. */
  predicate UniqueIn(source: seq<Ppi>, p: Ppi) {
    Truthy(p.id)
    && (forall q :: q in source && q.id == p.id ==> q == p)
    && (Truthy(p.elementId) ==> forall q :: q in source && q.elementId == p.elementId ==> q == p)
  }

  lemma AcceptKeepsOk(l: Listing, seen: seq<Ppi>, p: Ppi)
    requires ListingOk(l, seen)
    ensures ListingOk(Accept(l, p), seen + [p])
  {
    var s := seen + [p];
    assert forall q :: q in seen ==> q in s;
    ClaimedGrows(l.elements, seen, p);
    if Truthy(p.id) && !(Truthy(p.elementId) && p.elementId in l.elements) {
      var n := Accept(l, p);
      assert s[|seen|] == p;
      if p.id !in l.byId {
        AppendFreshNoDup(l.order, p.id);
      }
      AcceptKeepsDistinct(l, p);
      assert forall e :: e in n.elements ==> Claimed(s, e);
    }
  }

  /** Storing `p` under its id keeps the elements of the held records
      apart, since `p`'s element was not claimed yet. */
  lemma AcceptKeepsDistinct(l: Listing, p: Ppi)
    requires Truthy(p.id) && !(Truthy(p.elementId) && p.elementId in l.elements)
    requires forall id :: id in l.byId && Truthy(l.byId[id].elementId) ==> l.byId[id].elementId in l.elements
    requires forall a, b :: a in l.byId && b in l.byId && a != b && Truthy(l.byId[a].elementId) ==>
               l.byId[a].elementId != l.byId[b].elementId
    ensures var m := Accept(l, p).byId;
            forall a, b :: a in m && b in m && a != b && Truthy(m[a].elementId) ==> m[a].elementId != m[b].elementId
  {
    var m := Accept(l, p).byId;
    assert m == l.byId[p.id := p];
    forall a, b | a in m && b in m && a != b && Truthy(m[a].elementId) ensures m[a].elementId != m[b].elementId {
      if a == p.id {
        assert m[b] == l.byId[b];
      } else if b == p.id {
        assert m[a] == l.byId[a];
      } else {
        assert m[a] == l.byId[a] && m[b] == l.byId[b];
      }
    }
  }

  /** An element claimed before one more record is read stays claimed. */
  lemma ClaimedGrows(elements: set<string>, seen: seq<Ppi>, p: Ppi)
    requires forall e :: e in elements ==> Claimed(seen, e)
    ensures forall e :: e in elements ==> Claimed(seen + [p], e)
  {
    forall e | e in elements ensures Claimed(seen + [p], e) {
      var k :| 0 <= k < |seen| && seen[k].elementId == e;
      assert (seen + [p])[k] == seen[k];
    }
  }

  /** Appending an id not yet in the order keeps the order free of repeats. */
  lemma AppendFreshNoDup(order: seq<string>, id: string)
    requires NoDup(order) && id !in order
    ensures NoDup(order + [id])
  {
    var n := order + [id];
    forall i, j | 0 <= i < j < |n| ensures n[i] != n[j] {
      if j == |order| { assert n[i] == order[i]; }
    }
  }

  /** The records the list shows, in order. */
  function Shown(l: Listing): (r: seq<Ppi>)
    requires forall id :: id in l.order ==> id in l.byId
  {
    Filter(seq(|l.order|, j requires 0 <= j < |l.order| => l.byId[l.order[j]]), (p: Ppi) => p.kind == PpiType)
  }

  /** The list `renderPPIs` shows: one card per id and per element, only
      for PPI records, and every PPI record that shares neither its id nor
      its element with another record. */
  method ListPpis(source: seq<Ppi>) returns (shown: seq<Ppi>)
    ensures forall p :: p in shown ==> p in source && Truthy(p.id) && p.kind == PpiType
    ensures forall i, j :: 0 <= i < j < |shown| ==> shown[i].id != shown[j].id
    ensures forall i, j :: 0 <= i < j < |shown| && Truthy(shown[i].elementId) ==> shown[i].elementId != shown[j].elementId
    ensures forall p :: p in source && UniqueIn(source, p) && p.kind == PpiType ==> p in shown
    ensures shown == Shown(AcceptAll(source))
  {
    var l := Listing([], map[], {});
    var i := 0;
    while i < |source|
      invariant 0 <= i <= |source|
      invariant l == AcceptAll(source[..i])
      invariant forall k :: 0 <= k < i && UniqueIn(source, source[k]) ==>
                  source[k].id in l.byId && l.byId[source[k].id] == source[k]
    {
      var p := source[i];
      AcceptKeepsUnique(l, source, i);
      assert source[..i + 1] == source[..i] + [p];
      assert source[..i + 1][..i] == source[..i];
      var next := Accept(l, p);
      l := next;
      i := i + 1;
    }
    assert source[..i] == source;
    shown := Shown(l);
    ShownProperties(l, source);
  }

  /** The pass over `s` as a fold: the state after reading every record. */
  function AcceptAll(s: seq<Ppi>): (r: Listing)
    ensures ListingOk(r, s)
    decreases |s|
  {
    if |s| == 0 then Listing([], map[], {})
    else
      var t := s[..|s| - 1];
      AcceptKeepsOk(AcceptAll(t), t, s[|s| - 1]);
      assert t + [s[|s| - 1]] == s;
      Accept(AcceptAll(t), s[|s| - 1])
  }

  /** The pass keeps record `k` of `s`: it has an id and its element was
      not claimed by the records kept before it. */
  predicate AcceptedAt(s: seq<Ppi>, k: int)
    requires 0 <= k < |s|
  {
    Truthy(s[k].id) && !(Truthy(s[k].elementId) && s[k].elementId in AcceptAll(s[..k]).elements)
  }

  /** A kept record that no later kept record shares its id with is the
      one the pass holds for that id: `Map.set` lets the last one win. */
  lemma {:induction false} LastAcceptedWins(s: seq<Ppi>, k: int)
    requires 0 <= k < |s| && AcceptedAt(s, k)
    requires forall j :: k < j < |s| && s[j].id == s[k].id ==> !AcceptedAt(s, j)
    ensures s[k].id in AcceptAll(s).byId && AcceptAll(s).byId[s[k].id] == s[k]
    decreases |s|
  {
    var t := s[..|s| - 1];
    var last := s[|s| - 1];
    assert AcceptAll(s) == Accept(AcceptAll(t), last);
    if k < |s| - 1 {
      assert t[..k] == s[..k];
      forall j | k < j < |t| && t[j].id == t[k].id
        ensures !AcceptedAt(t, j)
      {
        assert t[..j] == s[..j];
        assert !AcceptedAt(s, j);
      }
      LastAcceptedWins(t, k);
      if last.id == s[k].id {
        assert s[..|s| - 1] == t;
        assert !AcceptedAt(s, |s| - 1);
      }
    } else {
      assert s[..k] == t;
    }
  }

  /** The ids only ever grow at the end, so an id keeps the place where it
      was first kept even when a later record replaces it. */
  lemma {:induction false} OrderOnlyGrows(s: seq<Ppi>, n: nat)
    requires n <= |s|
    ensures AcceptAll(s[..n]).order <= AcceptAll(s).order
    decreases |s| - n
  {
    if n < |s| {
      OrderOnlyGrows(s, n + 1);
      AcceptAllStep(s, n);
      AcceptOrderGrows(AcceptAll(s[..n]), s[n]);
    } else {
      assert s[..n] == s;
    }
  }

  /** One more record read is one more `Accept`. */
  lemma AcceptAllStep(s: seq<Ppi>, n: nat)
    requires n < |s|
    ensures AcceptAll(s[..n + 1]) == Accept(AcceptAll(s[..n]), s[n])
  {
    var t := s[..n + 1];
    assert t[..n] == s[..n];
  }

  /** `Accept` only ever appends to the order. */
  lemma AcceptOrderGrows(l: Listing, p: Ppi)
    ensures l.order <= Accept(l, p).order
  {
  }

  /** Two PPI records with the same id on different elements: the list
      shows only the later one. */
  lemma LaterDuplicateIsShown(a: Ppi, b: Ppi)
    requires Truthy(a.id) && a.id == b.id
    requires Truthy(a.elementId) && Truthy(b.elementId) && a.elementId != b.elementId
    requires a.kind == PpiType && b.kind == PpiType
    ensures Shown(AcceptAll([a, b])) == [b]
  {
    var two := Accept(Accept(Listing([], map[], {}), a), b);
    AcceptAllPair(a, b);
    assert two.order == [a.id] && two.byId[a.id] == b;
    ShownSingle(two, b);
  }

  /** The pass over two records reads them in turn. */
  lemma AcceptAllPair(a: Ppi, b: Ppi)
    ensures AcceptAll([a, b]) == Accept(Accept(Listing([], map[], {}), a), b)
  {
    assert [a][..0] == [];
    assert AcceptAll([a]) == Accept(Listing([], map[], {}), a);
    assert [a, b][..1] == [a];
  }

  /** A state holding one PPI record shows just that record. */
  lemma ShownSingle(l: Listing, p: Ppi)
    requires l.order == [p.id] && p.id in l.byId && l.byId[p.id] == p && p.kind == PpiType
    ensures Shown(l) == [p]
  {
    var values := seq(|l.order|, j requires 0 <= j < |l.order| => l.byId[l.order[j]]);
    assert values == [p];
  }

  /** Reading one more record keeps every unique record read so far. */
  lemma AcceptKeepsUnique(l: Listing, source: seq<Ppi>, i: nat)
    requires i < |source|
    requires ListingOk(l, source[..i])
    requires forall k :: 0 <= k < i && UniqueIn(source, source[k]) ==>
               source[k].id in l.byId && l.byId[source[k].id] == source[k]
    ensures var next := Accept(l, source[i]);
            forall k :: 0 <= k < i + 1 && UniqueIn(source, source[k]) ==>
              source[k].id in next.byId && next.byId[source[k].id] == source[k]
  {
    var p := source[i];
    var next := Accept(l, p);
    forall k | 0 <= k < i + 1 && UniqueIn(source, source[k])
      ensures source[k].id in next.byId && next.byId[source[k].id] == source[k]
    {
      var q := source[k];
      if k == i {
        if Truthy(p.elementId) && p.elementId in l.elements {
          assert Claimed(source[..i], p.elementId);
          var m :| 0 <= m < i && source[..i][m].elementId == p.elementId;
          assert source[m] == p;
        }
      } else if p.id == q.id && Truthy(p.id) {
        assert p == q;
      }
    }
  }

  /** What the list shows once every record is read. */
  lemma ShownProperties(l: Listing, source: seq<Ppi>)
    requires ListingOk(l, source)
    requires forall k :: 0 <= k < |source| && UniqueIn(source, source[k]) ==>
               source[k].id in l.byId && l.byId[source[k].id] == source[k]
    ensures var shown := Shown(l);
            (forall p :: p in shown ==> p in source && Truthy(p.id) && p.kind == PpiType)
            && (forall i, j :: 0 <= i < j < |shown| ==> shown[i].id != shown[j].id)
            && (forall i, j :: 0 <= i < j < |shown| && Truthy(shown[i].elementId) ==> shown[i].elementId != shown[j].elementId)
            && (forall p :: p in source && UniqueIn(source, p) && p.kind == PpiType ==> p in shown)
  {
    var values := seq(|l.order|, j requires 0 <= j < |l.order| => l.byId[l.order[j]]);
    var shown := Filter(values, (p: Ppi) => p.kind == PpiType);
    assert shown == Shown(l);
    forall i, j | 0 <= i < j < |shown| ensures shown[i].id != shown[j].id && (Truthy(shown[i].elementId) ==> shown[i].elementId != shown[j].elementId)
    {
      ShownDistinct(l, values, shown, i, j);
    }
    ShownSound(l, source);
    ShownComplete(l, source);
  }

  /** Every card is a PPI record of the source with an id. */
  lemma ShownSound(l: Listing, source: seq<Ppi>)
    requires forall id :: id in l.order <==> id in l.byId
    requires forall id :: id in l.byId ==> l.byId[id].id == id && Truthy(id) && l.byId[id] in source
    ensures forall p :: p in Shown(l) ==> p in source && Truthy(p.id) && p.kind == PpiType
  {
    var values := seq(|l.order|, j requires 0 <= j < |l.order| => l.byId[l.order[j]]);
    assert forall p :: p in values ==> p in source && Truthy(p.id);
  }

  /** A PPI record held under its own id gets a card. */
  lemma ShownComplete(l: Listing, source: seq<Ppi>)
    requires forall id :: id in l.order <==> id in l.byId
    requires forall k :: 0 <= k < |source| && UniqueIn(source, source[k]) ==>
               source[k].id in l.byId && l.byId[source[k].id] == source[k]
    ensures forall p :: p in source && UniqueIn(source, p) && p.kind == PpiType ==> p in Shown(l)
  {
    var values := seq(|l.order|, j requires 0 <= j < |l.order| => l.byId[l.order[j]]);
    forall p | p in source && UniqueIn(source, p) && p.kind == PpiType ensures p in Shown(l) {
      var k :| 0 <= k < |source| && source[k] == p;
      var m :| 0 <= m < |l.order| && l.order[m] == p.id;
      assert values[m] == p;
    }
  }

  lemma ShownDistinct(l: Listing, values: seq<Ppi>, shown: seq<Ppi>, i: int, j: int)
    requires forall id :: id in l.order <==> id in l.byId
    requires forall id :: id in l.byId ==> l.byId[id].id == id
    requires forall a, b :: a in l.byId && b in l.byId && a != b && Truthy(l.byId[a].elementId) ==>
               l.byId[a].elementId != l.byId[b].elementId
    requires NoDup(l.order)
    requires values == seq(|l.order|, j requires 0 <= j < |l.order| => l.byId[l.order[j]])
    requires shown == Filter(values, (p: Ppi) => p.kind == PpiType)
    requires 0 <= i < j < |shown|
    ensures shown[i].id != shown[j].id && (Truthy(shown[i].elementId) ==> shown[i].elementId != shown[j].elementId)
  {
    assert NoDup(values) by {
      forall a, b | 0 <= a < b < |values| ensures values[a] != values[b] {
        assert values[a].id == l.order[a] && values[b].id == l.order[b];
      }
    }
    FilterNoDup(values, (p: Ppi) => p.kind == PpiType);
    assert shown[i] in values && shown[j] in values;
    assert shown[i] != shown[j];
    var a :| 0 <= a < |values| && values[a] == shown[i];
    var b :| 0 <= b < |values| && values[b] == shown[j];
    assert l.order[a] != l.order[b];
  }

  /** The duplicate-card sweep: of the cards with one PPI id, the first
      stays and the rest are removed. */
  function KeepFirstCards(cards: seq<string>): (r: seq<string>)
    ensures IsSubsequence(r, cards)
    ensures NoDup(r)
    ensures forall c :: c in r <==> c in cards
  {
    var r := DedupBy(cards, (c: string) => c);
    assert forall c :: c in cards ==> c in r by {
      forall c | c in cards ensures c in r {
        assert HasKey(r, (c: string) => c, c);
      }
    }
    SubsequenceMembers(r, cards);
    r
  }

  // ---------------------------------------------------------------------
  // The edit form

  const DefaultMeasure: Measure := Measure("derived", "Sin definición")

  function Or(value: string, default: string): string {
    if Truthy(value) then value else default
  }

  /** `validatePPI`: no record, or one without an id, gives nothing;
      otherwise the record with a default for every empty field; `now`
      stands for a missing timestamp. */
  function ValidatePpi(p: Option<Ppi>, now: int): (r: Option<Ppi>)
    ensures r.None? <==> p.None? || !Truthy(p.value.id)
    ensures r.Some? ==> r.value.id == p.value.id && r.value.elementId == p.value.elementId
    ensures r.Some? ==> Truthy(r.value.title) && Truthy(r.value.description) && Truthy(r.value.target)
                        && Truthy(r.value.scope) && Truthy(r.value.businessObjective) && r.value.measure.Some?
    ensures r.Some? && Truthy(p.value.title) ==> r.value.title == p.value.title
    ensures r.Some? && Truthy(p.value.target) ==> r.value.target == p.value.target
    ensures r.Some? ==> r.value.responsible == p.value.responsible && r.value.informed == p.value.informed
    ensures r.Some? ==> r.value.createdAt == (if p.value.createdAt != 0 then p.value.createdAt else now)
    ensures r.Some? ==> r.value.updatedAt == (if p.value.updatedAt != 0 then p.value.updatedAt else now)
    ensures r.Some? && Truthy(p.value.description) ==> r.value.description == p.value.description
    ensures r.Some? && Truthy(p.value.scope) ==> r.value.scope == p.value.scope
    ensures r.Some? && Truthy(p.value.businessObjective) ==> r.value.businessObjective == p.value.businessObjective
    ensures r.Some? && p.value.measure.Some? ==> r.value.measure == p.value.measure
    ensures r.Some? ==> r.value.(title := p.value.title, description := p.value.description, target := p.value.target,
                                 scope := p.value.scope, businessObjective := p.value.businessObjective,
                                 measure := p.value.measure, createdAt := p.value.createdAt,
                                 updatedAt := p.value.updatedAt) == p.value
  {
    if p.None? || !Truthy(p.value.id) then None
    else
      var q := p.value;
      Some(q.(
        measure := if q.measure.None? then Some(DefaultMeasure) else q.measure,
        title := Or(q.title, "Sin título"),
        description := Or(q.description, "Sin descripción"),
        target := Or(q.target, "Sin objetivo"),
        scope := Or(q.scope, "Sin alcance"),
        businessObjective := Or(q.businessObjective, "Sin objetivo de negocio"),
        createdAt := if q.createdAt != 0 then q.createdAt else now,
        updatedAt := if q.updatedAt != 0 then q.updatedAt else now))
  }

  /** A validated record passes validation unchanged. */
  lemma ValidateIdempotent(p: Option<Ppi>, now: int)
    ensures ValidatePpi(ValidatePpi(p, now), now) == ValidatePpi(p, now)
  {
  }

  /** The number of filled fields among title, target, scope and
      responsible. */
  function CompletedFields(p: Ppi): (r: nat)
    ensures r <= 4
    ensures r == 0 <==> !Truthy(p.title) && !Truthy(p.target) && !Truthy(p.scope) && !Truthy(p.responsible)
  {
    (if Truthy(p.title) then 1 else 0) + (if Truthy(p.target) then 1 else 0)
    + (if Truthy(p.scope) then 1 else 0) + (if Truthy(p.responsible) then 1 else 0)
  }

  /** A card is complete when all four fields are filled. */
  function IsComplete(p: Ppi): (r: bool)
    ensures r <==> Truthy(p.title) && Truthy(p.target) && Truthy(p.scope) && Truthy(p.responsible)
  {
    CompletedFields(p) == 4
  }

  /** After validation only the responsible can be missing. */
  lemma ValidatedCompleteIffResponsible(p: Option<Ppi>, now: int)
    requires ValidatePpi(p, now).Some?
    ensures IsComplete(ValidatePpi(p, now).value) <==> Truthy(p.value.responsible)
  {
  }

  // ---------------------------------------------------------------------
  // Throttle

  /** One call to a throttled callback at clock `now`, given the time of the
      last accepted call: accepted when at least `delay` has passed. */
  function Throttle(last: int, now: int, delay: int): (r: (bool, int))
    ensures r.0 <==> now - last >= delay
    ensures r.0 ==> r.1 == now
    ensures !r.0 ==> r.1 == last
  {
    if now - last < delay then (false, last) else (true, now)
  }

  /** Two accepted calls are at least `delay` apart. */
  lemma ThrottleSpacing(last: int, t1: int, t2: int, delay: int)
    requires Throttle(last, t1, delay).0
    requires Throttle(Throttle(last, t1, delay).1, t2, delay).0
    ensures t2 - t1 >= delay
  {
  }

  // ---------------------------------------------------------------------
  // Tab indicators

  datatype Indicator = Empty | InProgress | Done

  /** A form field that exists and holds more than spaces. */
  predicate Filled(field: Option<string>) {
    field.Some? && Trim(field.value) != ""
  }

  /** How many elements of `s` pass `f`. */
  function CountWhere<T>(s: seq<T>, f: T -> bool): (r: nat)
    ensures r <= |s|
    decreases |s|
  {
    if |s| == 0 then 0 else (if f(s[0]) then 1 else 0) + CountWhere(s[1..], f)
  }

  /** The count is zero exactly when nothing passes, and full exactly when
      everything does. */
  lemma {:induction false} CountWhereBounds<T>(s: seq<T>, f: T -> bool)
    ensures CountWhere(s, f) == 0 <==> forall i :: 0 <= i < |s| ==> !f(s[i])
    ensures CountWhere(s, f) == |s| <==> forall i :: 0 <= i < |s| ==> f(s[i])
    decreases |s|
  {
    if |s| > 0 {
      var rest := s[1..];
      CountWhereBounds(rest, f);
      assert forall i :: 0 <= i < |rest| ==> rest[i] == s[i + 1];
    }
  }

  function CountFilled(fields: seq<Option<string>>): (r: nat)
    ensures r <= |fields|
    ensures r == 0 <==> forall i :: 0 <= i < |fields| ==> !Filled(fields[i])
    ensures r == |fields| <==> forall i :: 0 <= i < |fields| ==> Filled(fields[i])
  {
    CountWhereBounds(fields, Filled);
    CountWhere(fields, Filled)
  }

  /** `updateTabIndicators` for one tab: done when every required field is
      filled (for a tab with required fields) or some optional field is
      (for a tab without); in progress when anything is filled; empty
      otherwise. */
  function TabIndicator(required: seq<Option<string>>, optional: seq<Option<string>>): (r: Indicator)
    ensures r == Done <==> ((|required| > 0 && forall i :: 0 <= i < |required| ==> Filled(required[i]))
                            || (|required| == 0 && exists i :: 0 <= i < |optional| && Filled(optional[i])))
    ensures r == Empty <==> ((forall i :: 0 <= i < |required| ==> !Filled(required[i]))
                             && (forall i :: 0 <= i < |optional| ==> !Filled(optional[i])))
  {
    var req, opt := CountFilled(required), CountFilled(optional);
    if |required| > 0 && req == |required| then Done
    else if |required| == 0 && opt > 0 then Done
    else if opt > 0 || req > 0 then InProgress
    else Empty
  }

  function Rank(i: Indicator): nat {
    match i
    case Empty => 0
    case InProgress => 1
    case Done => 2
  }

  /** Filling in more fields never lowers a tab's mark. */
  lemma TabIndicatorMonotone(required: seq<Option<string>>, optional: seq<Option<string>>,
                             required2: seq<Option<string>>, optional2: seq<Option<string>>)
    requires |required2| == |required| && |optional2| == |optional|
    requires forall i :: 0 <= i < |required| && Filled(required[i]) ==> Filled(required2[i])
    requires forall i :: 0 <= i < |optional| && Filled(optional[i]) ==> Filled(optional2[i])
    ensures Rank(TabIndicator(required, optional)) <= Rank(TabIndicator(required2, optional2))
  {
  }
}
