/** The RASCI-to-RALph mapping of `app/js/panels/rasci-mapping-consolidated.js`:
    which roles a task's row assigns to which kind of RALph construct, the
    role shapes' grid placement, the chain of special elements ("Consultar
    X", "Aprobar X", "Informar X") inserted after a task, and the search
    for the task that follows in the original flow. Here a row is the
    sequence of its (role, value) entries in key order, and the matrix the
    sequence of its (task, row) entries. */
module RasciMapping {
  import opened Common
  import opened Diagram

  /** A row's entries in key order: (role, cell value). */
  type Entries = seq<(string, string)>

  /** The matrix's entries in key order: (task, row). */
  type Table = seq<(string, Entries)>

  // ---------------------------------------------------------------------
  // Names

  /** `getElementName(element)`: the business-object name, else the id,
      else "unnamed"; a missing element gives the string "undefined". The
      code's middle step, a `name` on the shape itself, is left out: a
      diagram-js shape keeps its name on its business object only. */
  function GetElementName(e: Option<Element>): (r: string)
    ensures Truthy(r)
    ensures e.Some? && Truthy(e.value.name) ==> r == e.value.name
    ensures e.Some? && !Truthy(e.value.name) && Truthy(e.value.id) ==> r == e.value.id
    ensures e.Some? && !Truthy(e.value.name) && !Truthy(e.value.id) ==> r == "unnamed"
    ensures e.None? ==> r == "undefined"
  {
    match e
    case None => "undefined"
    case Some(x) => if Truthy(x.name) then x.name else if Truthy(x.id) then x.id else "unnamed"
  }

  /** The name of a special element: a verb, a space and the role. */
  function SpecialName(verb: string, role: string): string {
    verb + " " + role
  }

  /** Names the mapping treats as its own special elements. */
  predicate IsSpecialName(name: string) {
    StartsWith(name, "Aprobar ") || StartsWith(name, "Consultar ") || StartsWith(name, "Informar ")
  }

  // ---------------------------------------------------------------------
  // Classification of a row

  /** The roles whose cell holds exactly `letter`, in key order. */
  function RolesWith(row: Entries, letter: string): (r: seq<string>)
    ensures |r| <= |row|
    ensures forall x :: x in r <==> exists i :: 0 <= i < |row| && row[i] == (x, letter)
    decreases |row|
  {
    if |row| == 0 then []
    else
      var front := row[..|row| - 1];
      var e := row[|row| - 1];
      assert forall i :: 0 <= i < |front| ==> front[i] == row[i];
      RolesWith(front, letter) + (if e.1 == letter then [e.0] else [])
  }

  /** The lists `handleRolesAndAssignments` and the C/A/I pass build. */
  datatype Classes = Classes(
    responsible: seq<string>,
    support: seq<string>,
    approve: seq<string>,
    consult: seq<string>,
    inform: seq<string>)

  /** The cells the mapping skips: undefined, "-", empty or blank. */
  predicate Skipped(v: string) {
    !Truthy(v) || v == "-" || Trim(v) == ""
  }

  function Classify(row: Entries): Classes {
    Classes(RolesWith(row, "R"), RolesWith(row, "S"), RolesWith(row, "A"),
            RolesWith(row, "C"), RolesWith(row, "I"))
  }

  /** The skip test never hides a letter, so classification by exact
      letter is the same with or without it. */
  lemma LettersAreNotSkipped(v: string)
    requires v == "R" || v == "S" || v == "A" || v == "C" || v == "I"
    ensures !Skipped(v)
  {
    assert v == [v[0]];
    SingleNotSkipped(v[0]);
  }

  lemma SingleNotSkipped(c: char)
    requires !IsSpace(c) && c != '-'
    ensures !Skipped([c])
  {
    assert Trimmed([c]);
    TrimmedIsFixed([c]);
  }

  /** Keys of a row are distinct (a JavaScript object). */
  predicate UniqueKeys(row: Entries) {
    forall i, j :: 0 <= i < |row| && 0 <= j < |row| && row[i].0 == row[j].0 ==> i == j
  }

  /** With distinct keys a role lands in at most one list. */
  lemma ClassesDisjoint(row: Entries, x: string, a: string, b: string)
    requires UniqueKeys(row) && a != b
    requires x in RolesWith(row, a)
    ensures x !in RolesWith(row, b)
  {
    var i :| 0 <= i < |row| && row[i] == (x, a);
    forall j | 0 <= j < |row| ensures row[j] != (x, b) {
      if row[j].0 == x {
        assert j == i;
      }
    }
  }

  /** How R and S roles are wired to the task. */
  datatype Wiring =
    | NoGate                    // any AND gate of the task is removed
    | Direct(role: string)      // a resource arc from the task to the role
    | AndGate(roles: seq<string>) // an AND gate over the R roles, then the S roles

  /** The R/S branch of `handleRolesAndAssignments`. */
  function Wire(c: Classes): (r: Wiring)
    ensures r.NoGate? <==> |c.responsible| == 0 && |c.support| == 0
    ensures r.Direct? <==> |c.responsible| == 1 && |c.support| == 0
    ensures r.Direct? ==> r.role == c.responsible[0]
    ensures r.AndGate? ==> r.roles == c.responsible + c.support && |r.roles| >= 1
                           && (|c.support| > 0 || |c.responsible| >= 2)
  {
    if |c.responsible| == 0 && |c.support| == 0 then NoGate
    else if |c.responsible| == 1 && |c.support| == 0 then Direct(c.responsible[0])
    else AndGate(c.responsible + c.support)
  }

  /** Two different cells hold the letter. */
  predicate TwoWith(row: Entries, letter: string) {
    exists i, j :: 0 <= i < j < |row| && row[i].1 == letter && row[j].1 == letter
  }

  /** `findResponsibleRoleForTask`: the role when exactly one cell is R,
      nothing when there is no R, two R cells or no row. */
  function FindResponsibleRole(row: Option<Entries>): (r: Option<string>)
    ensures row.None? ==> r.None?
    ensures r.Some? ==> exists i :: 0 <= i < |row.value| && row.value[i] == (r.value, "R")
    ensures r.Some? ==> !TwoWith(row.value, "R")
    ensures row.Some? && r.None? ==>
              TwoWith(row.value, "R") || forall i :: 0 <= i < |row.value| ==> row.value[i].1 != "R"
  {
    match row
    case None => None
    case Some(entries) =>
      var rs := RolesWith(entries, "R");
      NoneIffEmpty(entries, "R");
      TwoIffMany(entries, "R");
      if |rs| == 1 then
        assert rs[0] in rs;
        Some(rs[0])
      else None
  }

  /** Two or more roles are listed exactly when two cells hold the letter. */
  lemma {:induction false} TwoIffMany(row: Entries, letter: string)
    ensures |RolesWith(row, letter)| >= 2 <==> TwoWith(row, letter)
    decreases |row|
  {
    if |row| > 0 {
      var n := |row| - 1;
      var front := row[..n];
      TwoIffMany(front, letter);
      NoneIffEmpty(front, letter);
      TwoWithSnoc(row, letter);
      assert |RolesWith(row, letter)| == |RolesWith(front, letter)| + (if row[n].1 == letter then 1 else 0);
    }
  }

  /** Two cells of a non-empty row hold the letter exactly when two cells
      of its front do, or its last cell and one cell of its front do. */
  lemma TwoWithSnoc(row: Entries, letter: string)
    requires |row| > 0
    ensures var front := row[..|row| - 1];
            TwoWith(row, letter) <==>
              TwoWith(front, letter)
              || (row[|row| - 1].1 == letter && !(forall i :: 0 <= i < |front| ==> front[i].1 != letter))
  {
    var n := |row| - 1;
    var front := row[..n];
    assert forall i :: 0 <= i < n ==> front[i] == row[i];
    if TwoWith(row, letter) {
      var i, j :| 0 <= i < j < |row| && row[i].1 == letter && row[j].1 == letter;
      if j < n {
        assert front[i].1 == letter && front[j].1 == letter;
      } else {
        assert front[i].1 == letter;
      }
    }
    if TwoWith(front, letter) {
      var i, j :| 0 <= i < j < |front| && front[i].1 == letter && front[j].1 == letter;
      assert row[i].1 == letter && row[j].1 == letter;
    }
    if row[n].1 == letter && !(forall i :: 0 <= i < |front| ==> front[i].1 != letter) {
      var i :| 0 <= i < n && front[i].1 == letter;
      assert row[i].1 == letter;
    }
  }

  /** No role is listed exactly when no cell holds the letter. */
  lemma {:induction false} NoneIffEmpty(row: Entries, letter: string)
    ensures |RolesWith(row, letter)| == 0 <==> forall i :: 0 <= i < |row| ==> row[i].1 != letter
    decreases |row|
  {
    if |row| > 0 {
      var front := row[..|row| - 1];
      NoneIffEmpty(front, letter);
      assert forall i :: 0 <= i < |front| ==> front[i] == row[i];
    }
  }

  // ---------------------------------------------------------------------
  // The chain of special elements after a task

  /** A special element to create: its BPMN type and its name. */
  datatype Special = Special(kind: string, name: string)

  function Consultation(role: string): Special {
    Special("bpmn:IntermediateThrowEvent", SpecialName("Consultar", role))
  }

  function Approval(role: string): Special {
    Special("bpmn:UserTask", SpecialName("Aprobar", role))
  }

  function Information(role: string): Special {
    Special("bpmn:IntermediateThrowEvent", SpecialName("Informar", role))
  }

  /** The element made for one role of `[...consult, ...approve, ...inform]`:
      the first list that includes the role decides its kind. */
  function SpecialFor(role: string, consult: seq<string>, approve: seq<string>): Special {
    if role in consult then Consultation(role)
    else if role in approve then Approval(role)
    else Information(role)
  }

  /** The elements of `createSequentialSpecialElements`, in chain order. */
  function Chain(consult: seq<string>, approve: seq<string>, inform: seq<string>): (r: seq<Special>)
    ensures |r| == |consult| + |approve| + |inform|
  {
    var all := consult + approve + inform;
    seq(|all|, k requires 0 <= k < |all| => SpecialFor(all[k], consult, approve))
  }

  function MapSpecial(roles: seq<string>, f: string -> Special): (r: seq<Special>)
    ensures |r| == |roles|
  {
    seq(|roles|, k requires 0 <= k < |roles| => f(roles[k]))
  }

  /** When no role is in two lists, the chain is every consultation, then
      every approval, then every information, each list in its own order. */
  lemma ChainOrder(consult: seq<string>, approve: seq<string>, inform: seq<string>)
    requires forall x :: x in consult ==> x !in approve && x !in inform
    requires forall x :: x in approve ==> x !in inform
    ensures Chain(consult, approve, inform)
            == MapSpecial(consult, Consultation) + MapSpecial(approve, Approval) + MapSpecial(inform, Information)
  {
    var all := consult + approve + inform;
    var c := Chain(consult, approve, inform);
    var d := MapSpecial(consult, Consultation) + MapSpecial(approve, Approval) + MapSpecial(inform, Information);
    forall k | 0 <= k < |all| ensures c[k] == d[k] {
      if k < |consult| {
        assert all[k] == consult[k];
      } else if k < |consult| + |approve| {
        assert all[k] == approve[k - |consult|];
      } else {
        assert all[k] == inform[k - |consult| - |approve|];
      }
    }
  }

  /** The chain a row produces. */
  function RowChain(row: Entries): seq<Special> {
    var c := Classify(row);
    Chain(c.consult, c.approve, c.inform)
  }

  // ---------------------------------------------------------------------
  // What the matrix says should exist

  /** A non-empty cell that is not "-". */
  predicate Assigned(v: string) {
    Truthy(v) && v != "-"
  }

  /** `activeRoles` of `cleanupOrphanedElements`. */
  function ActiveRoles(t: Table): (r: set<string>)
    ensures forall x :: x in r <==> exists i, j :: 0 <= i < |t| && 0 <= j < |t[i].1| && t[i].1[j].0 == x && Assigned(t[i].1[j].1)
  {
    set i, j | 0 <= i < |t| && 0 <= j < |t[i].1| && Assigned(t[i].1[j].1) :: t[i].1[j].0
  }

  /** `expectedApprovalTasks` of `handleRolesAndAssignments`. */
  function ExpectedApprovalTasks(t: Table): (r: set<string>)
    ensures forall x :: x in r <==> exists i, j :: 0 <= i < |t| && 0 <= j < |t[i].1| && t[i].1[j].1 == "A"
                                                    && x == SpecialName("Aprobar", t[i].1[j].0)
  {
    set i, j | 0 <= i < |t| && 0 <= j < |t[i].1| && t[i].1[j].1 == "A" :: SpecialName("Aprobar", t[i].1[j].0)
  }

  /** Every expected approval task belongs to an active role. */
  lemma ApprovalsBelongToActiveRoles(t: Table)
    ensures forall x :: x in ExpectedApprovalTasks(t) ==>
              exists role :: role in ActiveRoles(t) && x == SpecialName("Aprobar", role)
  {
    forall x | x in ExpectedApprovalTasks(t)
      ensures exists role :: role in ActiveRoles(t) && x == SpecialName("Aprobar", role)
    {
      var i, j :| 0 <= i < |t| && 0 <= j < |t[i].1| && t[i].1[j].1 == "A" && x == SpecialName("Aprobar", t[i].1[j].0);
      assert t[i].1[j].0 in ActiveRoles(t);
    }
  }

  /** The verb a cell value asks for, if any. */
  function VerbOf(v: string): Option<string> {
    if v == "C" then Some("Consultar")
    else if v == "A" then Some("Aprobar")
    else if v == "I" then Some("Informar")
    else None
  }

  /** `shouldExist` of `cleanupOrphanedElements`: some assigned cell asks
      for a special element of exactly this name. */
  predicate ShouldExist(t: Table, name: string) {
    exists i, j :: 0 <= i < |t| && 0 <= j < |t[i].1| && Assigned(t[i].1[j].1)
                   && VerbOf(t[i].1[j].1).Some? && name == SpecialName(VerbOf(t[i].1[j].1).value, t[i].1[j].0)
  }

  /** The clean-up never removes an element the chain of a task creates. */
  lemma ChainElementsSurviveCleanup(t: Table, i: nat, k: nat)
    requires i < |t| && k < |RowChain(t[i].1)|
    ensures ShouldExist(t, RowChain(t[i].1)[k].name)
  {
    var row := t[i].1;
    var c := Classify(row);
    var all := c.consult + c.approve + c.inform;
    var role := all[k];
    var s := RowChain(row)[k];
    assert s == SpecialFor(role, c.consult, c.approve);
    if role in c.consult {
      var j :| 0 <= j < |row| && row[j] == (role, "C");
      assert Assigned(t[i].1[j].1) && VerbOf(t[i].1[j].1) == Some("Consultar");
    } else if role in c.approve {
      var j :| 0 <= j < |row| && row[j] == (role, "A");
      assert Assigned(t[i].1[j].1) && VerbOf(t[i].1[j].1) == Some("Aprobar");
    } else {
      assert role in c.inform;
      var j :| 0 <= j < |row| && row[j] == (role, "I");
      assert Assigned(t[i].1[j].1) && VerbOf(t[i].1[j].1) == Some("Informar");
    }
  }

  // ---------------------------------------------------------------------
  // Placing a new role shape

  /** The two RALph role types `createRalphRole` looks for. */
  predicate IsRoleShape(e: Element) {
    e.kind == "RALph:RoleRALph" || e.kind == "ralph:Role"
  }

  /** The grid cell for the n-th role: five per row, 200 apart horizontally
      (width 150 plus margin 50) and 130 apart vertically (height 80 plus
      margin 50), starting at (100, 100). */
  function GridStart(n: nat): (int, int) {
    (100 + 200 * (n % 5), 100 + 130 * (n / 5))
  }

  /** A role shape lies closer than 200 to the point (compared on squared
      distances, which is exact on integer coordinates). */
  predicate Occupied(roles: seq<Element>, p: (int, int)) {
    exists i :: 0 <= i < |roles| && (roles[i].x - p.0) * (roles[i].x - p.0) + (roles[i].y - p.1) * (roles[i].y - p.1) < 200 * 200
  }

  /** One move of the search: 200 to the right, wrapping to the start of the
      next grid row past x = 1100. */
  function Step(p: (int, int)): (int, int) {
    if p.0 + 200 > 1100 then (100, p.1 + 130) else (p.0 + 200, p.1)
  }

  /** The position reached after `k` moves. */
  function Probe(p: (int, int), k: nat): (int, int) {
    if k == 0 then p else Step(Probe(p, k - 1))
  }

  /** `r` is the `k`-th probe from `start`, every probe from `from` up to
      it was taken, and it is free unless the search gave up at 20. */
  predicate FirstFree(roles: seq<Element>, start: (int, int), from: nat, k: nat, r: (int, int)) {
    from <= k <= 20 && r == Probe(start, k)
    && (k < 20 ==> !Occupied(roles, r))
    && (forall j :: from <= j < k ==> Occupied(roles, Probe(start, j)))
  }

  /** A taken probe at `from` extends the run of taken probes by one. */
  lemma FirstFreeExtends(roles: seq<Element>, start: (int, int), from: nat, next: nat, r: (int, int))
    requires next == from + 1 && Occupied(roles, Probe(start, from))
    requires exists k :: FirstFree(roles, start, next, k, r)
    ensures exists k :: FirstFree(roles, start, from, k, r)
  {
    var k :| FirstFree(roles, start, next, k, r);
    assert FirstFree(roles, start, from, k, r);
  }

  /** The search loop: at most 20 moves, stopping at the first free point. */
  function Settle(roles: seq<Element>, start: (int, int), attempts: nat): (r: (int, int))
    requires attempts <= 20
    requires 100 <= start.0 <= 1100 && (start.0 - 100) % 200 == 0
    ensures 100 <= r.0 <= 1100 && (r.0 - 100) % 200 == 0 && r.1 >= start.1
    ensures exists k :: FirstFree(roles, start, attempts, k, r)
    decreases 20 - attempts
  {
    var p := Probe(start, attempts);
    ProbeOnGrid(start, attempts);
    if attempts == 20 || !Occupied(roles, p) then
      assert FirstFree(roles, start, attempts, attempts, p);
      p
    else
      var r := Settle(roles, start, attempts + 1);
      FirstFreeExtends(roles, start, attempts, attempts + 1, r);
      r
  }

  /** Moves keep x on the grid columns 100, 300, …, 1100 and never move up. */
  lemma {:induction false} ProbeOnGrid(p: (int, int), k: nat)
    requires 100 <= p.0 <= 1100 && (p.0 - 100) % 200 == 0
    ensures var q := Probe(p, k); 100 <= q.0 <= 1100 && (q.0 - 100) % 200 == 0 && q.1 >= p.1
  {
    if k > 0 {
      ProbeOnGrid(p, k - 1);
    }
  }

  /** Where `createRalphRole` puts a new role shape, given the role shapes
      already on the canvas. */
  function RolePosition(roles: seq<Element>): (r: (int, int))
    ensures |roles| == 0 ==> r == (100, 100)
    ensures 100 <= r.0 <= 1100 && (r.0 - 100) % 200 == 0
    ensures |roles| > 0 ==> r.1 >= GridStart(|roles|).1
    ensures |roles| > 0 ==> exists k :: FirstFree(roles, GridStart(|roles|), 0, k, r)
  {
    if |roles| == 0 then (100, 100)
    else
      var start := GridStart(|roles|);
      GridStartOnGrid(|roles|);
      Settle(roles, start, 0)
  }

  /** Every grid cell sits on one of the columns 100, 300, …, 900. */
  lemma GridStartOnGrid(n: nat)
    ensures var p := GridStart(n); 100 <= p.0 <= 1100 && (p.0 - 100) % 200 == 0
  {
    var c := n % 5;
    assert 0 <= c < 5;
    assert GridStart(n).0 - 100 == 200 * c;
  }

  /** What `createRalphRole` does for a role name. */
  datatype RoleShape = Reused(element: Element) | Placed(x: int, y: int)

  /** The first role shape carrying that name. */
  function FindRoleShape(reg: Registry, name: string): (r: Option<Element>)
    ensures r.Some? ==> r.value in reg && IsRoleShape(r.value) && r.value.name == name
    ensures r.None? ==> forall i :: 0 <= i < |reg| && IsRoleShape(reg[i]) ==> reg[i].name != name
    decreases |reg|
  {
    if |reg| == 0 then None
    else if IsRoleShape(reg[0]) && reg[0].name == name then Some(reg[0])
    else FindRoleShape(reg[1..], name)
  }

  /** `createRalphRole`: an existing role shape of that name is reused;
      otherwise a new one is placed on the grid. */
  function CreateRalphRole(reg: Registry, name: string): (r: RoleShape)
    ensures r.Reused? <==> exists i :: 0 <= i < |reg| && IsRoleShape(reg[i]) && reg[i].name == name
    ensures r.Reused? ==> r.element.name == name && IsRoleShape(r.element)
    ensures r.Placed? ==> (r.x, r.y) == RolePosition(Filter(reg, IsRoleShape))
  {
    match FindRoleShape(reg, name)
    case Some(e) => Reused(e)
    case None =>
      var p := RolePosition(Filter(reg, IsRoleShape));
      Placed(p.0, p.1)
  }

  // ---------------------------------------------------------------------
  // The next task in the original flow

  /** The ids of the registry's elements. */
  function Ids(reg: Registry): set<string> {
    set i | 0 <= i < |reg| :: reg[i].id
  }

  function FlowsFrom(id: string): Element -> bool {
    (c: Element) => c.kind == SequenceFlowType && c.source == id
  }

  /** The sequence flows leaving element `id`, in registry order. */
  function Outgoing(reg: Registry, id: string): seq<Element> {
    Filter(reg, FlowsFrom(id))
  }

  /** Marking an unvisited element visited shrinks the unvisited part. */
  lemma VisitShrinks(reg: Registry, visited: set<string>, id: string)
    requires id in Ids(reg) && id !in visited
    ensures |Ids(reg) - (visited + {id})| < |Ids(reg) - visited|
  {
    var a := Ids(reg) - (visited + {id});
    assert Ids(reg) - visited == a + {id};
  }

  /** Visiting more never enlarges the unvisited part. */
  lemma MoreVisitedNoLarger(reg: Registry, visited: set<string>, more: set<string>)
    requires visited <= more
    ensures |Ids(reg) - more| <= |Ids(reg) - visited|
  {
    SubsetNoLarger(Ids(reg) - more, Ids(reg) - visited);
  }

  /** A flow target the search walks through: a special element (by its
      name) or a gateway that is not task-typed. */
  predicate PassesThrough(e: Element) {
    IsSpecialName(GetElementName(Some(e))) || (!IsTaskType(e.kind) && Contains(e.kind, "Gateway"))
  }

  /** A flow target the search stops at: a task-typed element that is not
      a special element. */
  predicate EndsSearch(e: Element) {
    !PassesThrough(e) && IsTaskType(e.kind)
  }

  /** The outgoing flows of every id in `done` lead to no element the
      search stops at, and every element they lead to that it walks
      through is in `seen`. */
  ghost predicate Scanned(reg: Registry, done: set<string>, seen: set<string>) {
    forall x, c :: x in done && c in Outgoing(reg, x) && Has(reg, c.target) ==>
      !EndsSearch(Get(reg, c.target).value)
      && (PassesThrough(Get(reg, c.target).value) ==> c.target in seen)
  }

  /** `findNextTaskRecursive(task, visited)`: nothing when the task was seen
      before, otherwise the scan of its outgoing flows. The visited set is
      shared by all calls, so it is threaded through and returned. */
  function Visit(reg: Registry, task: Element, visited: set<string>): (r: (Option<Element>, set<string>))
    requires task.id in Ids(reg)
    ensures visited <= r.1
    ensures r.0.Some? ==> r.0.value in reg && IsTaskType(r.0.value.kind)
    ensures r.0.None? ==> task.id in r.1 && Scanned(reg, r.1 - visited, r.1)
    decreases |Ids(reg) - visited|, 0, 0
  {
    if task.id in visited then (None, visited)
    else
      VisitShrinks(reg, visited, task.id);
      var more := visited + {task.id};
      var r := Scan(reg, Outgoing(reg, task.id), more);
      if r.0.None? then
        ScannedJoin(reg, task.id, r.1 - more, r.1);
        assert r.1 - visited == (r.1 - more) + {task.id};
        r
      else r
  }

  /** The outgoing flows of `id` were followed: adding `id` to the
      explored part keeps it explored. */
  lemma ScannedJoin(reg: Registry, id: string, done: set<string>, seen: set<string>)
    requires Scanned(reg, done, seen)
    requires forall c :: c in Outgoing(reg, id) && Has(reg, c.target) ==>
               !EndsSearch(Get(reg, c.target).value)
               && (PassesThrough(Get(reg, c.target).value) ==> c.target in seen)
    ensures Scanned(reg, done + {id}, seen)
  {
  }

  /** The loop over the outgoing flows: special elements and gateways are
      passed through, the first task-typed target is the answer, anything
      else is skipped. */
  function Scan(reg: Registry, flows: seq<Element>, visited: set<string>): (r: (Option<Element>, set<string>))
    ensures visited <= r.1
    ensures r.0.Some? ==> r.0.value in reg && IsTaskType(r.0.value.kind)
    ensures r.0.None? ==>
              (forall c :: c in flows && Has(reg, c.target) ==>
                 !EndsSearch(Get(reg, c.target).value)
                 && (PassesThrough(Get(reg, c.target).value) ==> c.target in r.1))
              && Scanned(reg, r.1 - visited, r.1)
    decreases |Ids(reg) - visited|, 1, |flows|
  {
    if |flows| == 0 then (None, visited)
    else
      match Get(reg, flows[0].target)
      case None => Scan(reg, flows[1..], visited)
      case Some(target) =>
        assert target.id in Ids(reg) by {
          var i :| 0 <= i < |reg| && reg[i] == target;
        }
        if PassesThrough(target) then
          var sub := Visit(reg, target, visited);
          if sub.0.Some? then sub
          else
            MoreVisitedNoLarger(reg, visited, sub.1);
            var rest := Scan(reg, flows[1..], sub.1);
            if rest.0.None? then
              ScannedChain(reg, visited, sub.1, rest.1);
              assert forall c :: c in flows ==> c == flows[0] || c in flows[1..];
              rest
            else rest
        else if IsTaskType(target.kind) then (Some(target), visited)
        else Scan(reg, flows[1..], visited)
  }

  /** Two explored stretches one after the other are one explored stretch. */
  lemma ScannedChain(reg: Registry, visited: set<string>, mid: set<string>, seen: set<string>)
    requires visited <= mid <= seen
    requires Scanned(reg, mid - visited, mid) && Scanned(reg, seen - mid, seen)
    ensures Scanned(reg, seen - visited, seen)
  {
  }

  /** `findNextTaskInOriginalFlow(currentTask)`: the answer is a task-typed
      element of the registry, or nothing. */
  function FindNextTask(reg: Registry, current: Element): (r: Option<Element>)
    ensures r.Some? ==> r.value in reg && IsTaskType(r.value.kind)
  {
    Scan(reg, Outgoing(reg, current.id), {current.id}).0
  }

  /** A task reached directly by the first outgoing flow is the answer. */
  lemma DirectSuccessor(reg: Registry, current: Element, target: Element)
    requires |Outgoing(reg, current.id)| > 0
    requires Get(reg, Outgoing(reg, current.id)[0].target) == Some(target)
    requires IsTaskType(target.kind) && !IsSpecialName(GetElementName(Some(target)))
    ensures FindNextTask(reg, current) == Some(target)
  {
  }

  /** `b` is the target of an outgoing flow of `a` and a registered
      element. */
  predicate FlowStep(reg: Registry, a: string, b: string) {
    Has(reg, b) && exists c :: c in Outgoing(reg, a) && c.target == b
  }

  /** A chain of flows from `p[0]` whose inner elements are all walked
      through and whose last element stops the search. */
  predicate TaskChain(reg: Registry, p: seq<string>) {
    |p| >= 2
    && (forall j :: 0 <= j < |p| - 1 ==> FlowStep(reg, p[j], p[j + 1]))
    && (forall j :: 0 < j < |p| - 1 ==> Get(reg, p[j]).Some? && PassesThrough(Get(reg, p[j]).value))
    && Get(reg, p[|p| - 1]).Some? && EndsSearch(Get(reg, p[|p| - 1]).value)
  }

  /** Along a chain, every element before the last one is visited by a
      search that explored everything it visited. */
  lemma {:induction false} ScannedHoldsChain(reg: Registry, seen: set<string>, p: seq<string>, k: nat)
    requires Scanned(reg, seen, seen) && TaskChain(reg, p) && p[0] in seen
    requires k < |p| - 1
    ensures p[k] in seen
  {
    if k > 0 {
      ScannedHoldsChain(reg, seen, p, k - 1);
      var c :| c in Outgoing(reg, p[k - 1]) && c.target == p[k];
    }
  }

  /** `findNextTaskInOriginalFlow` finds a task whenever one follows the
      current task through special elements and gateways; equivalently, no
      answer means no such task exists. */
  lemma ChainedTaskIsFound(reg: Registry, current: Element, p: seq<string>)
    requires TaskChain(reg, p) && p[0] == current.id
    ensures FindNextTask(reg, current).Some?
  {
    var r := Scan(reg, Outgoing(reg, current.id), {current.id});
    if r.0.None? {
      assert Scanned(reg, r.1, r.1);
      ScannedHoldsChain(reg, r.1, p, |p| - 2);
    }
  }
}
