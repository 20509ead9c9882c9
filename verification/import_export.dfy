/** The import side of the import/export manager: telling the file formats
    apart, the fixed order in which the parts of a unified project are
    restored, the merge of RALph connection geometry kept with the BPMN part
    into the RALph part, and the fallbacks used when reading an element. */
module ImportExport {
  import opened Common

  // ---------------------------------------------------------------------
  // Formats

  /** What `importAllProjectData` receives: a text, or a parsed object. For
      an object: whether its `diagram` is an array, and whether it nests
      the project under `data`. */
  datatype Payload =
    | Text(text: string)
    | Object(diagramIsArray: bool, nested: Option<ProjectData>, top: ProjectData)

  /** The parts of a unified project that are present (truthy). */
  datatype ProjectData = ProjectData(bpmn: bool, ppi: bool, rasci: bool, ralph: bool)

  const NoParts: ProjectData := ProjectData(false, false, false, false)

  datatype Format =
    | Skipped
    | BpmnXml(xml: string)
    | Cbpmn
    | Unified(data: ProjectData)

  /** `importAllProjectData`: nothing right after a restore from storage;
      text holding `<?xml` is a BPMN file; an object whose `diagram` is an
      array is a CBPMN file; anything else is a unified project, taken from
      `data` when present. A text without `<?xml` has none of the parts. */
  function DetectFormat(p: Payload, recentlyRestored: bool): (r: Format)
    ensures recentlyRestored <==> r == Skipped
    ensures r.BpmnXml? <==> !recentlyRestored && p.Text? && Contains(p.text, "<?xml")
    ensures r.Cbpmn? <==> !recentlyRestored && p.Object? && p.diagramIsArray
    ensures r.Unified? && p.Object? && p.nested.Some? ==> r.data == p.nested.value
    ensures r.Unified? && p.Text? ==> r.data == NoParts
  {
    if recentlyRestored then Skipped
    else match p
      case Text(s) => if Contains(s, "<?xml") then BpmnXml(s) else Unified(NoParts)
      case Object(isArray, nested, top) =>
        if isArray then Cbpmn
        else Unified(if nested.Some? then nested.value else top)
  }

  /** The restore order of `importProjectData`. */
  const ImportOrder: seq<string> := ["bpmn", "ppi", "rasci", "ralph"]

  predicate Present(p: ProjectData, key: string) {
    (key == "bpmn" && p.bpmn) || (key == "ppi" && p.ppi) || (key == "rasci" && p.rasci) || (key == "ralph" && p.ralph)
  }

  /** The restore steps `importProjectData` runs: the present parts, in the
      fixed order. */
  function ImportSteps(p: ProjectData): (r: seq<string>)
    ensures IsSubsequence(r, ImportOrder)
    ensures forall k :: k in r <==> k in ImportOrder && Present(p, k)
  {
    Filter(ImportOrder, (k: string) => Present(p, k))
  }

  /** The BPMN part is restored before every other part, and RALph last. */
  lemma BpmnFirstRalphLast(p: ProjectData)
    ensures p.bpmn ==> |ImportSteps(p)| > 0 && ImportSteps(p)[0] == "bpmn"
    ensures p.ralph ==> |ImportSteps(p)| > 0 && ImportSteps(p)[|ImportSteps(p)| - 1] == "ralph"
  {
    var f := (k: string) => Present(p, k);
    assert ImportOrder == ["bpmn"] + ImportOrder[1..];
    assert ImportOrder == ImportOrder[..3] + ["ralph"];
    FilterConcat(ImportOrder[..3], ["ralph"], f);
    assert Filter(["ralph"], f) == (if p.ralph then ["ralph"] else []);
  }

  // ---------------------------------------------------------------------
  // The RALph geometry merge

  datatype Point = Point(x: int, y: int)

  /** A RALph element as exported: its id, its geometry and the rest of its
      properties, kept as they are. "" is an absent id, source or target. */
  datatype RalphElement = RalphElement(
    id: string,
    waypoints: Option<seq<Point>>,
    source: string,
    target: string,
    rest: string)

  /** `waypointsMap[id]`: the waypoints of the last element of the BPMN part
      with that id and waypoints. */
  function WaypointsFor(bpmn: seq<RalphElement>, id: string): (r: Option<seq<Point>>)
    ensures r.Some? ==> exists e :: e in bpmn && e.id == id && e.waypoints == r && Truthy(id)
    ensures r.None? <==> !Truthy(id) || forall e :: e in bpmn && e.id == id ==> e.waypoints.None?
    ensures r.Some? ==> exists i :: (0 <= i < |bpmn| && bpmn[i].id == id && bpmn[i].waypoints == r
                                     && forall j :: i < j < |bpmn| ==> !(bpmn[j].id == id && bpmn[j].waypoints.Some?))
    decreases |bpmn|
  {
    if |bpmn| == 0 then None
    else
      var last := bpmn[|bpmn| - 1];
      assert forall e :: e in bpmn <==> e in bpmn[..|bpmn| - 1] || e == last by {
        assert bpmn == bpmn[..|bpmn| - 1] + [last];
      }
      if Truthy(id) && last.id == id && last.waypoints.Some? then last.waypoints
      else WaypointsFor(bpmn[..|bpmn| - 1], id)
  }

  /** `sourceTargetMap[id]`: the ends of the last element of the BPMN part
      with that id and both ends. */
  function EndsFor(bpmn: seq<RalphElement>, id: string): (r: Option<(string, string)>)
    ensures r.Some? ==> Truthy(r.value.0) && Truthy(r.value.1) && Truthy(id)
    ensures r.Some? ==> exists e :: e in bpmn && e.id == id && (e.source, e.target) == r.value
    ensures r.None? <==> !Truthy(id) || forall e :: e in bpmn && e.id == id ==> !Truthy(e.source) || !Truthy(e.target)
    ensures r.Some? ==> exists i :: (0 <= i < |bpmn| && bpmn[i].id == id && (bpmn[i].source, bpmn[i].target) == r.value
                                     && forall j :: i < j < |bpmn| ==> !(bpmn[j].id == id && Truthy(bpmn[j].source) && Truthy(bpmn[j].target)))
    decreases |bpmn|
  {
    if |bpmn| == 0 then None
    else
      var last := bpmn[|bpmn| - 1];
      assert forall e :: e in bpmn <==> e in bpmn[..|bpmn| - 1] || e == last by {
        assert bpmn == bpmn[..|bpmn| - 1] + [last];
      }
      if Truthy(id) && last.id == id && Truthy(last.source) && Truthy(last.target) then Some((last.source, last.target))
      else EndsFor(bpmn[..|bpmn| - 1], id)
  }

  /** One RALph element with the geometry the BPMN part keeps for its id. */
  function MergeOne(e: RalphElement, bpmn: seq<RalphElement>): (r: RalphElement)
    ensures r.id == e.id && r.rest == e.rest
    ensures r.waypoints == (if WaypointsFor(bpmn, e.id).Some? then WaypointsFor(bpmn, e.id) else e.waypoints)
    ensures EndsFor(bpmn, e.id).Some? ==> (r.source, r.target) == EndsFor(bpmn, e.id).value
    ensures EndsFor(bpmn, e.id).None? ==> r.source == e.source && r.target == e.target
  {
    var w := WaypointsFor(bpmn, e.id);
    var withWaypoints := if w.Some? then e.(waypoints := w) else e;
    match EndsFor(bpmn, e.id)
    case Some((s, t)) => withWaypoints.(source := s, target := t)
    case None => withWaypoints
  }

  /** The RALph import with the BPMN part's geometry merged in: as many
      elements as before, in order, each keeping its id and its other
      properties. */
  function MergeRalph(ralph: seq<RalphElement>, bpmn: seq<RalphElement>): (r: seq<RalphElement>)
    ensures |r| == |ralph|
    ensures forall i :: 0 <= i < |r| ==> r[i] == MergeOne(ralph[i], bpmn)
    ensures forall i :: 0 <= i < |r| ==> r[i].id == ralph[i].id && r[i].rest == ralph[i].rest
  {
    seq(|ralph|, i requires 0 <= i < |ralph| => MergeOne(ralph[i], bpmn))
  }

  /** An element no BPMN entry speaks for is left as it is. */
  lemma UnmatchedUnchanged(ralph: seq<RalphElement>, bpmn: seq<RalphElement>, i: nat)
    requires i < |ralph|
    requires forall e :: e in bpmn ==> e.id != ralph[i].id
    ensures MergeRalph(ralph, bpmn)[i] == ralph[i]
  {
  }

  /** Merging a second time changes nothing. */
  lemma MergeIdempotent(ralph: seq<RalphElement>, bpmn: seq<RalphElement>)
    ensures MergeRalph(MergeRalph(ralph, bpmn), bpmn) == MergeRalph(ralph, bpmn)
  {
    var once := MergeRalph(ralph, bpmn);
    var twice := MergeRalph(once, bpmn);
    forall i | 0 <= i < |ralph| ensures twice[i] == once[i] {
      assert once[i].id == ralph[i].id;
    }
  }

  /** The RALph data restored: merged only when the BPMN part carries RALph
      elements; otherwise the RALph part as it came. */
  function RalphToRestore(ralph: seq<RalphElement>, bpmnRalph: Option<seq<RalphElement>>): (r: seq<RalphElement>)
    ensures bpmnRalph.None? ==> r == ralph
    ensures |r| == |ralph|
  {
    if bpmnRalph.Some? then MergeRalph(ralph, bpmnRalph.value) else ralph
  }

  // ---------------------------------------------------------------------
  // Reading an element

  /** An element as the helpers read it: optional coordinates and the three
      places a name may sit ("" when absent). */
  datatype ElementView = ElementView(
    x: Option<int>, y: Option<int>, width: Option<int>, height: Option<int>,
    businessName: string, name: string, id: string)

  datatype Box = Box(x: int, y: int, width: int, height: int)

  function OrZero(v: Option<int>): int {
    if v.Some? then v.value else 0
  }

  /** `getElementPosition`: every missing coordinate or size is zero, and so
      is everything for a missing element. */
  function ElementPosition(e: Option<ElementView>): (r: Box)
    ensures e.None? ==> r == Box(0, 0, 0, 0)
    ensures e.Some? ==> (e.value.x.Some? ==> r.x == e.value.x.value) && (e.value.x.None? ==> r.x == 0)
    ensures e.Some? ==> (e.value.y.Some? ==> r.y == e.value.y.value) && (e.value.y.None? ==> r.y == 0)
    ensures e.Some? ==> (e.value.width.Some? ==> r.width == e.value.width.value) && (e.value.width.None? ==> r.width == 0)
    ensures e.Some? ==> (e.value.height.Some? ==> r.height == e.value.height.value) && (e.value.height.None? ==> r.height == 0)
  {
    if e.None? then Box(0, 0, 0, 0)
    else Box(OrZero(e.value.x), OrZero(e.value.y), OrZero(e.value.width), OrZero(e.value.height))
  }

  /** `getElementName`: the business object's name, else the element's name,
      else its id, else "". */
  function ElementName(e: Option<ElementView>): (r: string)
    ensures e.None? ==> r == ""
    ensures e.Some? ==> r in {e.value.businessName, e.value.name, e.value.id}
    ensures e.Some? && Truthy(e.value.businessName) ==> r == e.value.businessName
    ensures e.Some? && Truthy(r) ==> (r == e.value.businessName || !Truthy(e.value.businessName))
    ensures e.Some? ==> (r == "" <==> !Truthy(e.value.businessName) && !Truthy(e.value.name) && !Truthy(e.value.id))
  {
    if e.None? then ""
    else if Truthy(e.value.businessName) then e.value.businessName
    else if Truthy(e.value.name) then e.value.name
    else e.value.id
  }
}
