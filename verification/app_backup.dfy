/** The application shell's backup helpers: cleaning a connection's
    waypoints, dropping stored parent-child relations whose shapes are
    gone, telling a project file from a BPMN file, and finding the BPMN
    diagram inside an imported project. */
module AppBackup {
  import opened Common
  import opened Diagram

  // ---------------------------------------------------------------------
  // Waypoints

  /** A stored waypoint as read back: each coordinate a number or not. */
  datatype RawPoint = RawPoint(x: Option<int>, y: Option<int>)

  datatype Point = Point(x: int, y: int)

  /** The waypoints with two numeric coordinates, in order (null entries and
      entries with a non-numeric coordinate are dropped). */
  function NumericPoints(raw: seq<Option<RawPoint>>): (r: seq<Point>)
    ensures |r| <= |raw|
    ensures forall p :: p in r <==> Some(RawPoint(Some(p.x), Some(p.y))) in raw
    ensures |r| == |Filter(raw, IsNumeric)|
    ensures forall i :: 0 <= i < |r| ==> Filter(raw, IsNumeric)[i] == Some(RawPoint(Some(r[i].x), Some(r[i].y)))
    decreases |raw|
  {
    if |raw| == 0 then []
    else
      var rest := NumericPoints(raw[1..]);
      var tail := Filter(raw[1..], IsNumeric);
      assert forall q :: q in raw <==> q == raw[0] || q in raw[1..];
      match raw[0]
      case Some(RawPoint(Some(x), Some(y))) =>
        assert Filter(raw, IsNumeric) == [raw[0]] + tail;
        var r := [Point(x, y)] + rest;
        assert forall i :: 0 < i < |r| ==> r[i] == rest[i - 1] && Filter(raw, IsNumeric)[i] == tail[i - 1];
        r
      case _ =>
        assert Filter(raw, IsNumeric) == tail;
        rest
  }

  /** A stored entry with two numeric coordinates. */
  predicate IsNumeric(o: Option<RawPoint>) {
    o.Some? && o.value.x.Some? && o.value.y.Some?
  }

  predicate NoRepeats(v: seq<Point>) {
    forall i :: 0 < i < |v| ==> v[i] != v[i - 1]
  }

  /** The points of `v` from index `k` on that the source's filter keeps:
      the first point, and every point that differs from the one before it
      in `v`. */
  function KeptFrom(v: seq<Point>, k: nat): seq<Point>
    requires k <= |v|
    decreases |v| - k
  {
    if k == |v| then []
    else (if k == 0 || v[k] != v[k - 1] then [v[k]] else []) + KeptFrom(v, k + 1)
  }

  /** Every point that equals the point before it is dropped; the others
      stay, in order. */
  function DropRepeats(v: seq<Point>): (r: seq<Point>)
    ensures NoRepeats(r)
    ensures forall p :: p in r <==> p in v
    ensures |r| <= |v| && (|v| > 0 ==> |r| > 0 && r[|r| - 1] == v[|v| - 1] && r[0] == v[0])
    ensures r == KeptFrom(v, 0)
    decreases |v|
  {
    if |v| <= 1 then v
    else
      var front := DropRepeats(v[..|v| - 1]);
      assert forall p :: p in v <==> p in v[..|v| - 1] || p == v[|v| - 1] by {
        assert v == v[..|v| - 1] + [v[|v| - 1]];
      }
      KeptFromLast(v, 0);
      if v[|v| - 1] == v[|v| - 2] then
        assert v[|v| - 2] in v[..|v| - 1];
        front
      else front + [v[|v| - 1]]
  }

  /** Keeping from `k` on splits into the points before the last and the
      verdict on the last one. */
  lemma {:induction false} KeptFromLast(v: seq<Point>, k: nat)
    requires k < |v|
    ensures KeptFrom(v, k) == KeptFrom(v[..|v| - 1], k)
              + (if |v| - 1 == 0 || v[|v| - 1] != v[|v| - 2] then [v[|v| - 1]] else [])
    decreases |v| - k
  {
    var w := v[..|v| - 1];
    if k < |v| - 1 {
      KeptFromLast(v, k + 1);
      assert w[k] == v[k];
      assert k > 0 ==> w[k - 1] == v[k - 1];
    }
  }

  /** A run without repeats is left alone, so dropping repeats twice is
      dropping them once. */
  lemma {:induction false} DropRepeatsFixed(v: seq<Point>)
    requires NoRepeats(v)
    ensures DropRepeats(v) == v
    decreases |v|
  {
    if |v| > 1 {
      DropRepeatsFixed(v[..|v| - 1]);
      assert v[..|v| - 1] + [v[|v| - 1]] == v;
    }
  }

  /** `validateAndSanitizeWaypoints`: no array gives none; otherwise the
      numeric points without repeats, or none when fewer than two remain. */
  function SanitizeWaypoints(raw: Option<seq<Option<RawPoint>>>): (r: seq<Point>)
    ensures r == [] || |r| >= 2
    ensures raw.None? ==> r == []
    ensures NoRepeats(r)
    ensures raw.Some? && r != [] ==> forall p :: p in r <==> Some(RawPoint(Some(p.x), Some(p.y))) in raw.value
    ensures raw.Some? && r != [] ==> r == KeptFrom(NumericPoints(raw.value), 0)
    ensures raw.Some? && |DropRepeats(NumericPoints(raw.value))| >= 2 ==> r != []
  {
    if raw.None? then []
    else
      var unique := DropRepeats(NumericPoints(raw.value));
      if |unique| >= 2 then unique else []
  }

  /** The points handed back are accepted again unchanged. */
  lemma SanitizeIdempotent(raw: Option<seq<Option<RawPoint>>>)
    ensures var r := SanitizeWaypoints(raw);
            SanitizeWaypoints(Some(seq(|r|, i requires 0 <= i < |r| => Some(RawPoint(Some(r[i].x), Some(r[i].y)))))) == r
  {
    var r := SanitizeWaypoints(raw);
    var back := seq(|r|, i requires 0 <= i < |r| => Some(RawPoint(Some(r[i].x), Some(r[i].y))));
    NumericOfNumeric(r, back);
    DropRepeatsFixed(r);
  }

  lemma {:induction false} NumericOfNumeric(r: seq<Point>, back: seq<Option<RawPoint>>)
    requires |back| == |r| && forall i :: 0 <= i < |r| ==> back[i] == Some(RawPoint(Some(r[i].x), Some(r[i].y)))
    ensures NumericPoints(back) == r
    decreases |r|
  {
    if |r| > 0 {
      NumericOfNumeric(r[1..], back[1..]);
      assert r == [r[0]] + r[1..];
    }
  }

  // ---------------------------------------------------------------------
  // Parent-child relations

  /** A stored relation: the parent of the child it is keyed by. */
  datatype Relation = Relation(parentId: string)

  datatype Cleaned = Cleaned(valid: map<string, Relation>, orphaned: map<string, Relation>)

  /** The ids of the elements on the canvas. */
  function Ids(reg: Registry): (r: set<string>)
    ensures forall id :: id in r <==> Has(reg, id)
  {
    set e | e in reg :: e.id
  }

  /** Both the child and the parent of a relation are on the canvas. */
  predicate Attached(reg: Registry, child: string, rel: Relation) {
    Has(reg, child) && Has(reg, rel.parentId)
  }

  /** `cleanOrphanedRelations`: a relation is valid when both its child and
      its parent are on the canvas, and orphaned otherwise. */
  function CleanOrphanedRelations(relations: map<string, Relation>, reg: Registry): (r: Cleaned)
    ensures r.valid.Keys + r.orphaned.Keys == relations.Keys
    ensures r.valid.Keys * r.orphaned.Keys == {}
    ensures |r.valid| + |r.orphaned| == |relations|
    ensures forall c :: c in r.valid ==> r.valid[c] == relations[c] && Attached(reg, c, relations[c])
    ensures forall c :: c in r.orphaned ==> r.orphaned[c] == relations[c] && !Attached(reg, c, relations[c])
  {
    SplitByIds(relations, Ids(reg))
  }

  /** The relations whose child and parent are both among `ids`, and the
      rest. */
  function SplitByIds(relations: map<string, Relation>, ids: set<string>): (r: Cleaned)
    ensures r.valid.Keys + r.orphaned.Keys == relations.Keys
    ensures r.valid.Keys * r.orphaned.Keys == {}
    ensures |r.valid| + |r.orphaned| == |relations|
    ensures forall c :: c in r.valid ==> r.valid[c] == relations[c] && c in ids && relations[c].parentId in ids
    ensures forall c :: c in r.orphaned ==> r.orphaned[c] == relations[c] && !(c in ids && relations[c].parentId in ids)
  {
    var valid := map c | c in relations && c in ids && relations[c].parentId in ids :: relations[c];
    var orphaned := map c | c in relations && !(c in ids && relations[c].parentId in ids) :: relations[c];
    assert relations.Keys == valid.Keys + orphaned.Keys;
    assert |relations.Keys| == |valid.Keys| + |orphaned.Keys| by {
      DisjointUnionSize(valid.Keys, orphaned.Keys);
    }
    Cleaned(valid, orphaned)
  }

  lemma DisjointUnionSize(a: set<string>, b: set<string>)
    requires a * b == {}
    ensures |a + b| == |a| + |b|
  {
  }

  /** What is written back: the valid relations, or nothing when none is
      left (the stored entry is removed). */
  function StoredRelations(relations: map<string, Relation>, reg: Registry): (r: Option<map<string, Relation>>)
    ensures r.None? <==> forall c :: c in relations ==> !Attached(reg, c, relations[c])
    ensures r.Some? ==> r.value == CleanOrphanedRelations(relations, reg).valid
  {
    var c := CleanOrphanedRelations(relations, reg);
    if |c.valid| > 0 then Some(c.valid)
    else
      assert c.valid == map[];
      None
  }

  /** Cleaning the cleaned relations finds no more orphans. */
  lemma CleanIdempotent(relations: map<string, Relation>, reg: Registry)
    ensures var v := CleanOrphanedRelations(relations, reg).valid;
            CleanOrphanedRelations(v, reg) == Cleaned(v, map[])
  {
    AllAttachedKept(CleanOrphanedRelations(relations, reg).valid, reg);
  }

  lemma AllAttachedKept(v: map<string, Relation>, reg: Registry)
    requires forall k :: k in v ==> Attached(reg, k, v[k])
    ensures CleanOrphanedRelations(v, reg) == Cleaned(v, map[])
  {
    var ids := Ids(reg);
    assert forall k :: k in v ==> k in ids && v[k].parentId in ids;
    SplitAllInside(v, ids);
  }

  /** When every relation has both ends among `ids`, all are valid. */
  lemma SplitAllInside(v: map<string, Relation>, ids: set<string>)
    requires forall k :: k in v ==> k in ids && v[k].parentId in ids
    ensures SplitByIds(v, ids) == Cleaned(v, map[])
  {
    var c := SplitByIds(v, ids);
    assert c.orphaned.Keys == {};
    assert c.valid.Keys == v.Keys;
    assert c.valid == v;
  }

  // ---------------------------------------------------------------------
  // Opening a file

  /** `handleFileSelect`: a project when the name ends in `.mmproject` or
      `.json`, or the content, spaces trimmed, opens a JSON object. */
  predicate IsProjectFile(name: string, content: string) {
    EndsWith(name, ".mmproject") || EndsWith(name, ".json") || StartsWith(Trim(content), "{")
  }

  /** A `.bpmn` file holding XML is read as a diagram, not a project. */
  lemma XmlFileIsNotProject(name: string, content: string)
    requires EndsWith(name, ".bpmn")
    requires |Trim(content)| > 0 && Trim(content)[0] == '<'
    ensures !IsProjectFile(name, content)
  {
    var t := Trim(content);
    assert t[..1] == ['<'];
    assert name[|name| - 5..] == ".bpmn";
    assert name[|name| - 2] == 'm' && name[|name| - 1] == 'n';
  }

  /** The places a project keeps its diagram; "" where a key is missing. */
  datatype Project = Project(bpmnDiagram: string, panelsBpmnDiagram: string, diagram: string)

  /** The diagram `importProject` loads: `bpmnDiagram`, else
      `panels.bpmn.diagram`, else `diagram`. */
  function FindDiagram(p: Project): (r: Option<string>)
    ensures r.None? <==> !Truthy(p.bpmnDiagram) && !Truthy(p.panelsBpmnDiagram) && !Truthy(p.diagram)
    ensures r.Some? ==> Truthy(r.value) && r.value in {p.bpmnDiagram, p.panelsBpmnDiagram, p.diagram}
    ensures Truthy(p.bpmnDiagram) ==> r == Some(p.bpmnDiagram)
    ensures !Truthy(p.bpmnDiagram) && Truthy(p.panelsBpmnDiagram) ==> r == Some(p.panelsBpmnDiagram)
    ensures !Truthy(p.bpmnDiagram) && !Truthy(p.panelsBpmnDiagram) ==> r == (if Truthy(p.diagram) then Some(p.diagram) else None)
  {
    if Truthy(p.bpmnDiagram) then Some(p.bpmnDiagram)
    else if Truthy(p.panelsBpmnDiagram) then Some(p.panelsBpmnDiagram)
    else if Truthy(p.diagram) then Some(p.diagram)
    else None
  }
}
