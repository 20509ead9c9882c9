/** A PPI (process performance indicator) record as the PPI stores keep it,
    and the partial records that `updatePPI` spreads over it. */
module PpiModel {
  import opened Common

  /** `measureDefinition`: the measure kind ("time", "count", …) and its
      text. */
  datatype Measure = Measure(kind: string, definition: string)

  /** A value of the `bpmnLink` object. The PPI panel stores the bare element
      id under a link type; the PPI manager stores a record keyed by the
      element id. */
  datatype LinkEntry =
    | ElementRef(element: string)
    | LinkRecord(linkType: string, elementId: string, linkedAt: int)

  /** One PPI. `elementId` is the id of the PPINOT:Ppi shape the record is
      bound to ("" when unbound); `kind` is the record's `type` field;
      `origin` is the `__source` property that the panel's update leaves on a
      record. Timestamps are clock values. */
  datatype Ppi = Ppi(
    id: string,
    title: string,
    description: string,
    process: string,
    businessObjective: string,
    measure: Option<Measure>,
    target: string,
    scope: string,
    source: string,
    responsible: string,
    informed: seq<string>,
    comments: string,
    elementId: string,
    kind: string,
    bpmnLink: map<string, LinkEntry>,
    origin: string,
    createdAt: int,
    updatedAt: int)

  /** The fields a caller passes to `updatePPI`; None means the key is not
      present in the object, so the record's value survives the spread. */
  datatype Patch = Patch(
    title: Option<string>,
    description: Option<string>,
    process: Option<string>,
    businessObjective: Option<string>,
    measure: Option<Measure>,
    target: Option<string>,
    scope: Option<string>,
    source: Option<string>,
    responsible: Option<string>,
    informed: Option<seq<string>>,
    comments: Option<string>,
    elementId: Option<string>,
    kind: Option<string>,
    origin: Option<string>,
    createdAt: Option<int>)

  const EmptyPatch: Patch :=
    Patch(None, None, None, None, None, None, None, None, None, None, None, None, None, None, None)

  /** One key of a spread: the object's value when the key is present, the
      record's value otherwise. */
  predicate Spread<T(==)>(before: T, key: Option<T>, after: T) {
    if key.Some? then after == key.value else after == before
  }

  /** Every key the patch can carry, other than `__source`, is spread. */
  predicate SpreadFields(p: Ppi, d: Patch, r: Ppi) {
    Spread(p.title, d.title, r.title) && Spread(p.description, d.description, r.description)
    && Spread(p.process, d.process, r.process)
    && Spread(p.businessObjective, d.businessObjective, r.businessObjective)
    && (if d.measure.Some? then r.measure == d.measure else r.measure == p.measure)
    && Spread(p.target, d.target, r.target) && Spread(p.scope, d.scope, r.scope)
    && Spread(p.source, d.source, r.source) && Spread(p.responsible, d.responsible, r.responsible)
    && Spread(p.informed, d.informed, r.informed) && Spread(p.comments, d.comments, r.comments)
    && Spread(p.elementId, d.elementId, r.elementId) && Spread(p.kind, d.kind, r.kind)
    && Spread(p.createdAt, d.createdAt, r.createdAt)
  }

  /** `{...p, ...d}`: every key present in `d` replaces the record's value;
      the keys a patch cannot carry keep theirs. */
  function Overlay(p: Ppi, d: Patch): (r: Ppi)
    ensures SpreadFields(p, d, r) && Spread(p.origin, d.origin, r.origin)
    ensures r.id == p.id && r.bpmnLink == p.bpmnLink && r.updatedAt == p.updatedAt
  {
    p.(title := d.title.GetOr(p.title),
       description := d.description.GetOr(p.description),
       process := d.process.GetOr(p.process),
       businessObjective := d.businessObjective.GetOr(p.businessObjective),
       measure := if d.measure.Some? then d.measure else p.measure,
       target := d.target.GetOr(p.target),
       scope := d.scope.GetOr(p.scope),
       source := d.source.GetOr(p.source),
       responsible := d.responsible.GetOr(p.responsible),
       informed := d.informed.GetOr(p.informed),
       comments := d.comments.GetOr(p.comments),
       elementId := d.elementId.GetOr(p.elementId),
       kind := d.kind.GetOr(p.kind),
       origin := d.origin.GetOr(p.origin),
       createdAt := d.createdAt.GetOr(p.createdAt))
  }

  function PickLatest<T>(a: Option<T>, b: Option<T>): Option<T> {
    if b.Some? then b else a
  }

  /** The patch equivalent to spreading `a` and then `b`. */
  function Then(a: Patch, b: Patch): Patch {
    Patch(PickLatest(a.title, b.title), PickLatest(a.description, b.description),
          PickLatest(a.process, b.process),
          PickLatest(a.businessObjective, b.businessObjective), PickLatest(a.measure, b.measure),
          PickLatest(a.target, b.target), PickLatest(a.scope, b.scope),
          PickLatest(a.source, b.source), PickLatest(a.responsible, b.responsible),
          PickLatest(a.informed, b.informed), PickLatest(a.comments, b.comments),
          PickLatest(a.elementId, b.elementId), PickLatest(a.kind, b.kind),
          PickLatest(a.origin, b.origin), PickLatest(a.createdAt, b.createdAt))
  }

  /** Spreading nothing changes nothing. */
  lemma OverlayEmpty(p: Ppi)
    ensures Overlay(p, EmptyPatch) == p
  {
  }

  /** Spreading the same object twice is the same as spreading it once. */
  lemma OverlayIdempotent(p: Ppi, d: Patch)
    ensures Overlay(Overlay(p, d), d) == Overlay(p, d)
  {
  }

  /** Two successive spreads are one spread of the combined object. */
  lemma OverlayThen(p: Ppi, a: Patch, b: Patch)
    ensures Overlay(Overlay(p, a), b) == Overlay(p, Then(a, b))
  {
  }
}
