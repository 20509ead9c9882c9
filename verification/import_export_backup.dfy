/** The older import/export manager kept as a backup: which parent-child
    pairs of PPINOT and RALph shapes are worth keeping, the relations
    guessed from proximity, the BPMN shapes added to an exported diagram
    for children that have none, and the order in which PPINOT shapes are
    recreated. */
module ImportExportBackup {
  import opened Common
  import opened Diagram

  // ---------------------------------------------------------------------
  // Significant relations

  /** `isSignificantParentChildRelationship(child, parent)` on the two
      types ("" for a missing type). */
  predicate IsSignificant(child: string, parent: string) {
    (Truthy(child) && Contains(child, "PPINOT:") && Truthy(parent) && Contains(parent, "PPINOT:Ppi"))
    || (Truthy(child) && Contains(child, "Target") && Truthy(parent) && Contains(parent, "PPINOT:"))
    || (Truthy(child) && Contains(child, "Scope") && Truthy(parent) && Contains(parent, "PPINOT:"))
    || (Truthy(child) && Contains(child, "BaseMeasure") && Truthy(parent) && Contains(parent, "PPINOT:"))
    || (Truthy(child) && Contains(child, "AggregatedMeasure") && Truthy(parent) && Contains(parent, "PPINOT:"))
    || (Truthy(child) && Contains(child, "DerivedMeasure") && Truthy(parent) && Contains(parent, "PPINOT:"))
    || (Truthy(child) && Contains(child, "RALPH") && Truthy(parent) && !Contains(parent, "Process"))
    || (child == "label" && Truthy(parent) && (Contains(parent, "PPINOT") || Contains(parent, "RALPH")))
    || (Truthy(child) && Truthy(parent) && Contains(child, "PPINOT:") && Contains(parent, "PPINOT:")
        && !Contains(parent, "Process") && !Contains(parent, "Ppi"))
  }

  /** Outside the two notations nothing is significant: a parent whose type
      names neither PPINOT nor RALPH keeps only RALPH children. */
  lemma OnlyNotationRelationsAreSignificant(child: string, parent: string)
    requires !Contains(parent, "PPINOT") && !Contains(parent, "RALPH") && !Contains(child, "RALPH")
    ensures !IsSignificant(child, parent)
  {
    forall rest: string | Contains(parent, "PPINOT" + rest) ensures false {
      ContainsPrefixOf(parent, "PPINOT", rest);
    }
    assert "PPINOT:" == "PPINOT" + ":";
    assert "PPINOT:Ppi" == "PPINOT" + ":Ppi";
  }

  /** A relation is significant only when both ends have a type, and a
      parent whose type is empty keeps nothing. */
  lemma SignificantNeedsParentType(child: string)
    ensures !IsSignificant(child, "")
    ensures !IsSignificant("", "PPINOT:Ppi")
  {
    assert !Contains("", "label");
  }

  /** Every PPINOT shape directly under a PPI is kept. */
  lemma PpinotUnderPpiIsSignificant(child: string)
    requires Contains(child, "PPINOT:")
    ensures IsSignificant(child, PpiType)
  {
    assert PpiType[..|"PPINOT:Ppi"|] == "PPINOT:Ppi";
    assert IndexOf(child, "PPINOT:").Some?;
  }

  // ---------------------------------------------------------------------
  // Relations guessed from proximity

  /** A stored relation: the child, the parent and, when known, where the
      child was drawn. */
  datatype Bounds = Bounds(x: int, y: int, width: int, height: int)
  datatype Relationship = Relationship(childId: string, parentId: string, position: Option<Bounds>)

  /** Some relation already names `id` as its child. */
  predicate Related(rels: seq<Relationship>, id: string) {
    exists k :: 0 <= k < |rels| && rels[k].childId == id
  }

  /** The shapes `captureProximityRelationships` looks at: PPINOT shapes
      that are neither PPIs nor labels. */
  predicate ProximityChild(e: Element) {
    Truthy(e.kind) && Contains(e.kind, "PPINOT:") && !Contains(e.kind, "PPINOT:Ppi") && e.kind != "label"
  }

  /** One child of the proximity pass: a child that already has a relation
      (including one added earlier in the pass) is skipped; otherwise, when
      some PPI is closest to it, a relation to that PPI is added. `closest`
      is the choice `findClosestPPI` makes. */
  function Step(rels: seq<Relationship>, c: Element, closest: Element -> Option<string>): (r: seq<Relationship>)
    ensures Related(rels, c.id) || closest(c).None? ==> r == rels
    ensures !Related(rels, c.id) && closest(c).Some? ==>
              r == rels + [Relationship(c.id, closest(c).value, Some(Bounds(c.x, c.y, c.width, c.height)))]
  {
    if Related(rels, c.id) then rels
    else match closest(c)
      case None => rels
      case Some(pid) => rels + [Relationship(c.id, pid, Some(Bounds(c.x, c.y, c.width, c.height)))]
  }

  /** The proximity pass over `children` in order. */
  function Capture(children: seq<Element>, rels: seq<Relationship>, closest: Element -> Option<string>): (r: seq<Relationship>)
    ensures |rels| <= |r| && r[..|rels|] == rels
    decreases |children|
  {
    if |children| == 0 then rels
    else
      var next := Step(rels, children[0], closest);
      var r := Capture(children[1..], next, closest);
      assert r[..|rels|] == next[..|rels|];
      r
  }

  /** What the pass adds: only children without an earlier relation, each
      related to its closest PPI, and every child with a closest PPI ends
      up related. */
  lemma {:induction false} CaptureFacts(children: seq<Element>, rels: seq<Relationship>, closest: Element -> Option<string>)
    ensures var r := Capture(children, rels, closest);
            (forall j :: |rels| <= j < |r| ==> !Related(r[..j], r[j].childId))
            && (forall j :: |rels| <= j < |r| ==>
                  exists c :: c in children && c.id == r[j].childId && closest(c) == Some(r[j].parentId))
            && (forall c :: c in children && closest(c).Some? ==> Related(r, c.id))
    decreases |children|
  {
    if |children| > 0 {
      var c := children[0];
      var next := Step(rels, c, closest);
      CaptureFacts(children[1..], next, closest);
      var r := Capture(children, rels, closest);
      assert r == Capture(children[1..], next, closest);
      RelatedGrows(next, r);
      forall j | |rels| <= j < |next|
        ensures !Related(r[..j], r[j].childId)
        ensures c in children && c.id == r[j].childId && closest(c) == Some(r[j].parentId)
      {
        assert j == |rels| && r[..j] == rels && r[j] == next[j];
      }
      assert Related(next, c.id) || closest(c).None? by {
        if !Related(rels, c.id) && closest(c).Some? { assert next[|rels|].childId == c.id; }
      }
      assert forall x :: x in children[1..] ==> x in children;
      assert forall x :: x in children ==> x == c || x in children[1..];
    }
  }

  lemma RelatedGrows(a: seq<Relationship>, b: seq<Relationship>)
    requires |a| <= |b| && b[..|a|] == a
    ensures forall id :: Related(a, id) ==> Related(b, id)
  {
    forall id | Related(a, id) ensures Related(b, id) {
      var k :| 0 <= k < |a| && a[k].childId == id;
      assert b[k] == a[k];
    }
  }

  /** `captureProximityRelationships`: the proximity pass over the PPINOT
      children of the canvas. */
  function CaptureProximity(all: Registry, rels: seq<Relationship>, closest: Element -> Option<string>): (r: seq<Relationship>)
    ensures |rels| <= |r| && r[..|rels|] == rels
  {
    Capture(Filter(all, ProximityChild), rels, closest)
  }

  /** The proximity pass never adds a second relation for a child: a child
      related before keeps its relations, and children related afterwards
      have exactly one. */
  lemma ProximitySkipsRelated(all: Registry, rels: seq<Relationship>, closest: Element -> Option<string>)
    ensures var r := CaptureProximity(all, rels, closest);
            (forall j :: |rels| <= j < |r| ==> !Related(rels, r[j].childId))
            && (forall i, j :: |rels| <= i < j < |r| ==> r[i].childId != r[j].childId)
            && (forall j :: |rels| <= j < |r| ==> exists c :: c in all && ProximityChild(c) && c.id == r[j].childId)
            && (forall c :: c in all && ProximityChild(c) && closest(c).Some? ==> Related(r, c.id))
  {
    var children := Filter(all, ProximityChild);
    var r := CaptureProximity(all, rels, closest);
    CaptureFacts(children, rels, closest);
    assert r == Capture(children, rels, closest);
    forall j | |rels| <= j < |r|
      ensures !Related(rels, r[j].childId)
      ensures exists c :: c in all && ProximityChild(c) && c.id == r[j].childId
    {
      RelatedGrows(rels, r[..j]);
      var c :| c in children && c.id == r[j].childId && closest(c) == Some(r[j].parentId);
      assert c in all && ProximityChild(c);
    }
    forall i, j | |rels| <= i < j < |r| ensures r[i].childId != r[j].childId {
      assert r[..j][i] == r[i];
    }
    forall c | c in all && ProximityChild(c) && closest(c).Some? ensures Related(r, c.id) {
      assert c in children;
    }
  }

  // ---------------------------------------------------------------------
  // Missing BPMN shapes

  /** An exported diagram, seen through the plane the regular expression
      of `addMissingBPMNShapes` finds: the text before the plane, the
      plane's opening tag and content, and the text after the closing tag.
      A diagram without a plane is the text `head + tail`. */
  datatype Plane = Plane(open: string, content: string)
  datatype Document = Document(head: string, plane: Option<Plane>, tail: string)

  const PlaneClose: string := "</bpmndi:BPMNPlane>"

  function Text(d: Document): string {
    match d.plane
    case None => d.head + d.tail
    case Some(p) => d.head + p.open + p.content + PlaneClose + d.tail
  }

  /** A number as a template literal writes it. */
  function IntText(i: int): string {
    if i < 0 then "-" + NatToString(-i) else NatToString(i)
  }

  /** The id the diagram interchange gives the shape of `id`. */
  function ShapeId(id: string): string {
    id + "_di"
  }

  /** A child needs a shape when the diagram does not mention its shape id
      and its position is known. */
  predicate NeedsShape(xml: string, rel: Relationship) {
    !Contains(xml, ShapeId(rel.childId)) && rel.position.Some?
  }

  /** The `BPMNShape` written for a child at a known position. */
  function ShapeXml(rel: Relationship): (r: string)
    requires rel.position.Some?
    ensures Contains(r, ShapeId(rel.childId))
  {
    var b := rel.position.value;
    var before := "\n      <bpmndi:BPMNShape id=\"";
    var after := "\" bpmnElement=\"" + rel.childId + "\">\n        <dc:Bounds x=\"" + IntText(b.x)
                 + "\" y=\"" + IntText(b.y) + "\" width=\"" + IntText(b.width) + "\" height=\""
                 + IntText(b.height) + "\" />\n      </bpmndi:BPMNShape>";
    ContainsAt(before + ShapeId(rel.childId) + after, ShapeId(rel.childId), |before|);
    before + ShapeId(rel.childId) + after
  }

  /** The shapes added, in the order of the relations. */
  function NewShapes(xml: string, rels: seq<Relationship>): (r: string)
    ensures r == "" <==> forall rel :: rel in rels ==> !NeedsShape(xml, rel)
    ensures forall rel :: rel in rels && NeedsShape(xml, rel) ==> Contains(r, ShapeId(rel.childId))
    decreases |rels|
  {
    if |rels| == 0 then ""
    else
      var rest := NewShapes(xml, rels[1..]);
      assert forall rel :: rel in rels <==> rel == rels[0] || rel in rels[1..];
      if NeedsShape(xml, rels[0]) then
        var s := ShapeXml(rels[0]);
        assert forall rel :: rel in rels[1..] && NeedsShape(xml, rel) ==> Contains(s + rest, ShapeId(rel.childId)) by {
          forall rel | rel in rels[1..] && NeedsShape(xml, rel) ensures Contains(s + rest, ShapeId(rel.childId)) {
            ContainsInConcat(s, rest, ShapeId(rel.childId));
          }
        }
        ContainsInConcat(rest, s, ShapeId(rels[0].childId));
        s + rest
      else rest
  }

  /** `addMissingBPMNShapes`: without a plane the diagram is returned as it
      is; otherwise the shapes of the children that need one are appended
      to the plane's content and nothing else changes. */
  function AddMissingShapes(d: Document, rels: seq<Relationship>): (r: Document)
    ensures d.plane.None? ==> r == d
    ensures (forall rel :: rel in rels ==> !NeedsShape(Text(d), rel)) ==> r == d
    ensures r.head == d.head && r.tail == d.tail && r.plane.Some? == d.plane.Some?
    ensures d.plane.Some? ==> r.plane.value.open == d.plane.value.open
                              && StartsWith(r.plane.value.content, d.plane.value.content)
    ensures d.plane.Some? ==> forall rel :: rel in rels && NeedsShape(Text(d), rel) ==> Contains(Text(r), ShapeId(rel.childId))
  {
    match d.plane
    case None => d
    case Some(p) =>
      var added := NewShapes(Text(d), rels);
      if added == "" then d
      else
        var r := Document(d.head, Some(Plane(p.open, p.content + added)), d.tail);
        assert (p.content + added)[..|p.content|] == p.content;
        forall rel | rel in rels && NeedsShape(Text(d), rel) ensures Contains(Text(r), ShapeId(rel.childId)) {
          AddedTextKept(d.head, p.open, p.content, added, d.tail, ShapeId(rel.childId));
        }
        r
  }

  /** Text added at the end of the plane's content is in the document. */
  lemma AddedTextKept(head: string, open: string, content: string, added: string, tail: string, w: string)
    requires Contains(added, w)
    ensures Contains(head + open + (content + added) + PlaneClose + tail, w)
  {
    ContainsInConcat(head + open + content, added, w);
    ContainsInConcat(PlaneClose + tail, head + open + content + added, w);
    assert head + open + (content + added) + PlaneClose + tail == (head + open + content + added) + (PlaneClose + tail);
  }

  /** Adding the missing shapes a second time adds nothing, as long as no
      child id holds a `<` (which could make the added text cut an existing
      shape id in two). */
  lemma AddMissingShapesIdempotent(d: Document, rels: seq<Relationship>)
    requires forall rel :: rel in rels ==> '<' !in rel.childId
    ensures AddMissingShapes(AddMissingShapes(d, rels), rels) == AddMissingShapes(d, rels)
  {
    if d.plane.Some? {
      var r := AddMissingShapes(d, rels);
      forall rel | rel in rels ensures !NeedsShape(Text(r), rel) {
        ShapeKept(d, rels, rel);
      }
    }
  }

  /** Once a diagram with a plane has had its shapes added, every child
      with a known position has a shape in it. */
  lemma ShapeKept(d: Document, rels: seq<Relationship>, rel: Relationship)
    requires d.plane.Some? && rel in rels && '<' !in rel.childId
    ensures !NeedsShape(Text(AddMissingShapes(d, rels)), rel)
  {
    var r := AddMissingShapes(d, rels);
    var w := ShapeId(rel.childId);
    if rel.position.None? {
    } else if NeedsShape(Text(d), rel) {
      assert Contains(Text(r), w);
    } else {
      var p := d.plane.value;
      var before, after := d.head + p.open + p.content, PlaneClose + d.tail;
      var added := r.plane.value.content[|p.content|..];
      assert r.plane.value.content == p.content + added;
      assert Contains(before + after, w) by {
        assert Text(d) == before + after;
      }
      assert '<' !in w;
      ContainsAfterInsert(before, added, after, w);
      var q := r.plane.value;
      assert Text(r) == d.head + q.open + q.content + PlaneClose + d.tail;
      assert q.open == p.open && q.content == p.content + added;
      Regroup(d.head, p.open, p.content, added, PlaneClose, d.tail);
    }
  }

  lemma Regroup(a: string, b: string, c: string, n: string, e: string, f: string)
    ensures a + b + (c + n) + e + f == (a + b + c) + n + (e + f)
  {
  }

  // ---------------------------------------------------------------------
  // Restoring PPINOT shapes

  predicate IsPpi(e: Element) {
    e.kind == PpiType
  }

  predicate NotPpi(e: Element) {
    e.kind != PpiType
  }

  /** The stable sort of `restorePPINOTElements`: PPIs before every other
      shape. */
  function PpisFirst(elements: seq<Element>): (r: seq<Element>)
    ensures forall i, j :: 0 <= i < j < |r| && IsPpi(r[j]) ==> IsPpi(r[i])
  {
    Filter(elements, IsPpi) + Filter(elements, NotPpi)
  }

  /** The sort is stable: the PPIs, and the other shapes, keep their stored
      order. */
  lemma PpisFirstIsStable(elements: seq<Element>)
    ensures Filter(PpisFirst(elements), IsPpi) == Filter(elements, IsPpi)
    ensures Filter(PpisFirst(elements), NotPpi) == Filter(elements, NotPpi)
  {
    var ppis, others := Filter(elements, IsPpi), Filter(elements, NotPpi);
    FilterConcat(ppis, others, IsPpi);
    FilterConcat(ppis, others, NotPpi);
    assert Filter(ppis, IsPpi) == ppis by {
      assert forall i :: 0 <= i < |ppis| ==> ppis[i] in ppis;
    }
    assert Filter(others, NotPpi) == others by {
      assert forall i :: 0 <= i < |others| ==> others[i] in others;
    }
    EmptyIfNoMember(Filter(others, IsPpi));
    EmptyIfNoMember(Filter(ppis, NotPpi));
  }

  /** The sort neither adds nor drops a shape. */
  lemma PpisFirstIsPermutation(elements: seq<Element>)
    ensures multiset(PpisFirst(elements)) == multiset(elements)
  {
    FilterMultiset(elements, IsPpi, NotPpi);
  }
}
