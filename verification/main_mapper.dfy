/** The modular RASCI → RALph mapper: the sets of roles and special
    elements a matrix calls for (used by the selective clean-up), the
    R/S/A classification of a task's row, the role name recovered from an
    approval task's name, and the backward reachability test between two
    elements. */
module MainMapper {
  import opened Common
  import opened Diagram
  import opened RasciMapping

  // ---------------------------------------------------------------------
  // The roles the matrix still calls for

  /** The roles of one row whose cell is assigned (the loop body of
      `performSelectiveCleanup`). */
  function RowRoles(row: Entries): set<string>
    decreases |row|
  {
    if |row| == 0 then {}
    else (if Assigned(row[0].1) then {row[0].0} else {}) + RowRoles(row[1..])
  }

  /** `expectedRoles`: the union over all rows. */
  function ExpectedRoles(t: Table): set<string>
    decreases |t|
  {
    if |t| == 0 then {} else RowRoles(t[0].1) + ExpectedRoles(t[1..])
  }

  lemma {:induction false} RowRolesMembers(row: Entries, x: string)
    ensures x in RowRoles(row) <==> exists j :: 0 <= j < |row| && row[j].0 == x && Assigned(row[j].1)
    decreases |row|
  {
    if |row| > 0 {
      RowRolesMembers(row[1..], x);
      assert forall j :: 0 < j < |row| ==> row[1..][j - 1] == row[j];
      if exists j :: 0 <= j < |row| && row[j].0 == x && Assigned(row[j].1) {
        var j :| 0 <= j < |row| && row[j].0 == x && Assigned(row[j].1);
        if j > 0 {
          assert row[1..][j - 1] == row[j];
        }
      }
    }
  }

  lemma {:induction false} ExpectedRolesMembers(t: Table, x: string)
    ensures x in ExpectedRoles(t) <==>
              exists i, j :: 0 <= i < |t| && 0 <= j < |t[i].1| && t[i].1[j].0 == x && Assigned(t[i].1[j].1)
    decreases |t|
  {
    if |t| > 0 {
      ExpectedRolesMembers(t[1..], x);
      RowRolesMembers(t[0].1, x);
      assert forall i :: 0 < i < |t| ==> t[1..][i - 1] == t[i];
      if exists i, j :: 0 <= i < |t| && 0 <= j < |t[i].1| && t[i].1[j].0 == x && Assigned(t[i].1[j].1) {
        var i, j :| 0 <= i < |t| && 0 <= j < |t[i].1| && t[i].1[j].0 == x && Assigned(t[i].1[j].1);
        if i > 0 {
          assert t[1..][i - 1] == t[i];
        }
      }
    }
  }

  /** The selective clean-up keeps exactly the roles that the consolidated
      mapping counts as active: a role is expected iff one of its cells is
      neither empty nor '-'. */
  lemma ExpectedRolesAreActive(t: Table)
    ensures ExpectedRoles(t) == ActiveRoles(t)
  {
    forall x
      ensures x in ExpectedRoles(t) <==> x in ActiveRoles(t)
    {
      ExpectedRolesMembers(t, x);
    }
  }

  // ---------------------------------------------------------------------
  // The special elements the matrix still calls for

  /** "Aprobar <role> para <task>". */
  function ApprovalFor(role: string, task: string): string {
    "Aprobar " + role + " para " + task
  }

  /** The names one cell keeps alive: an approval keeps three spellings,
      a consultation and an information one each. */
  function CellSpecials(task: string, role: string, v: string): (r: set<string>)
    ensures v == "A" ==> r == {SpecialName("Aprobar", task), ApprovalFor(role, task), SpecialName("Aprobar", role)}
    ensures v == "C" ==> r == {SpecialName("Consultar", role)}
    ensures v == "I" ==> r == {SpecialName("Informar", role)}
    ensures v != "A" && v != "C" && v != "I" ==> r == {}
  {
    if !Assigned(v) then {}
    else if v == "A" then {SpecialName("Aprobar", task), ApprovalFor(role, task), SpecialName("Aprobar", role)}
    else if v == "C" then {SpecialName("Consultar", role)}
    else if v == "I" then {SpecialName("Informar", role)}
    else {}
  }

  function RowSpecials(task: string, row: Entries): set<string>
    decreases |row|
  {
    if |row| == 0 then {}
    else CellSpecials(task, row[0].0, row[0].1) + RowSpecials(task, row[1..])
  }

  /** `expectedSpecialElements` of `performSelectiveCleanup`. */
  function ExpectedSpecialElements(t: Table): set<string>
    decreases |t|
  {
    if |t| == 0 then {} else RowSpecials(t[0].0, t[0].1) + ExpectedSpecialElements(t[1..])
  }

  lemma {:induction false} RowSpecialsMembers(task: string, row: Entries, x: string)
    ensures x in RowSpecials(task, row) <==>
              exists j :: 0 <= j < |row| && x in CellSpecials(task, row[j].0, row[j].1)
    decreases |row|
  {
    if |row| > 0 {
      RowSpecialsMembers(task, row[1..], x);
      assert forall j :: 0 < j < |row| ==> row[1..][j - 1] == row[j];
      if exists j :: 0 <= j < |row| && x in CellSpecials(task, row[j].0, row[j].1) {
        var j :| 0 <= j < |row| && x in CellSpecials(task, row[j].0, row[j].1);
        if j > 0 {
          assert row[1..][j - 1] == row[j];
        }
      }
    }
  }

  lemma {:induction false} ExpectedSpecialsMembers(t: Table, x: string)
    ensures x in ExpectedSpecialElements(t) <==>
              exists i, j :: 0 <= i < |t| && 0 <= j < |t[i].1| && x in CellSpecials(t[i].0, t[i].1[j].0, t[i].1[j].1)
    decreases |t|
  {
    if |t| > 0 {
      ExpectedSpecialsMembers(t[1..], x);
      RowSpecialsMembers(t[0].0, t[0].1, x);
      assert forall i :: 0 < i < |t| ==> t[1..][i - 1] == t[i];
      if exists i, j :: 0 <= i < |t| && 0 <= j < |t[i].1| && x in CellSpecials(t[i].0, t[i].1[j].0, t[i].1[j].1) {
        var i, j :| 0 <= i < |t| && 0 <= j < |t[i].1| && x in CellSpecials(t[i].0, t[i].1[j].0, t[i].1[j].1);
        if i > 0 {
          assert t[1..][i - 1] == t[i];
        }
      }
    }
  }

  /** An 'A' cell keeps all three approval spellings alive. */
  lemma ApprovalVariantsExpected(t: Table, i: nat, j: nat)
    requires i < |t| && j < |t[i].1| && t[i].1[j].1 == "A"
    ensures var task := t[i].0; var role := t[i].1[j].0;
            SpecialName("Aprobar", task) in ExpectedSpecialElements(t)
            && ApprovalFor(role, task) in ExpectedSpecialElements(t)
            && SpecialName("Aprobar", role) in ExpectedSpecialElements(t)
  {
    var task := t[i].0;
    var role := t[i].1[j].0;
    ExpectedSpecialsMembers(t, SpecialName("Aprobar", task));
    ExpectedSpecialsMembers(t, ApprovalFor(role, task));
    ExpectedSpecialsMembers(t, SpecialName("Aprobar", role));
  }

  /** Every name the consolidated clean-up keeps is kept here too. */
  lemma ShouldExistIsExpected(t: Table, name: string)
    requires ShouldExist(t, name)
    ensures name in ExpectedSpecialElements(t)
  {
    var i, j :| 0 <= i < |t| && 0 <= j < |t[i].1| && Assigned(t[i].1[j].1)
                && VerbOf(t[i].1[j].1).Some? && name == SpecialName(VerbOf(t[i].1[j].1).value, t[i].1[j].0);
    assert name in CellSpecials(t[i].0, t[i].1[j].0, t[i].1[j].1);
    ExpectedSpecialsMembers(t, name);
  }

  /** The selective clean-up never removes an element of a task's chain of
      consultations, approvals and informations. */
  lemma ChainSurvivesSelectiveCleanup(t: Table, i: nat, k: nat)
    requires i < |t| && k < |RowChain(t[i].1)|
    ensures RowChain(t[i].1)[k].name in ExpectedSpecialElements(t)
  {
    ChainElementsSurviveCleanup(t, i, k);
    ShouldExistIsExpected(t, RowChain(t[i].1)[k].name);
  }

  /** The names expected by the consolidated mapping are among these. */
  lemma ApprovalTasksExpected(t: Table)
    ensures ExpectedApprovalTasks(t) <= ExpectedSpecialElements(t)
  {
    forall x | x in ExpectedApprovalTasks(t)
      ensures x in ExpectedSpecialElements(t)
    {
      var i, j :| 0 <= i < |t| && 0 <= j < |t[i].1| && t[i].1[j].1 == "A"
                  && x == SpecialName("Aprobar", t[i].1[j].0);
      ApprovalVariantsExpected(t, i, j);
    }
  }

  // ---------------------------------------------------------------------
  // The selective clean-up

  function StaleRole(expected: set<string>): Element -> bool {
    (e: Element) => IsRoleShape(e) && Truthy(e.name) && e.name !in expected
  }

  function StaleSpecial(expected: set<string>): Element -> bool {
    (e: Element) => Truthy(e.name) && IsSpecialName(e.name) && e.name !in expected
  }

  /** `modeling.removeElements(gone)` takes `e` away: it is one of them, or
      a connection that starts or ends at one of them. */
  predicate RemovedWith(gone: set<string>, e: Element) {
    e.id in gone || (Truthy(e.source) && e.source in gone) || (Truthy(e.target) && e.target in gone)
  }

  function Survives(gone: set<string>): Element -> bool {
    (e: Element) => !RemovedWith(gone, e)
  }

  /** The registry after `modeling.removeElements(gone)`: the removed
      elements and the connections attached to them are gone, the rest
      keeps its order. */
  function RemoveElements(reg: Registry, gone: seq<Element>): (r: Registry)
    ensures forall e :: e in r <==> e in reg && !RemovedWith(Ids(gone), e)
    ensures IsSubsequence(r, reg)
    ensures forall e :: e in gone ==> e !in r
  {
    assert forall e :: e in gone ==> e.id in Ids(gone) by {
      forall e | e in gone ensures e.id in Ids(gone) {
        var k :| 0 <= k < |gone| && gone[k] == e;
      }
    }
    Filter(reg, Survives(Ids(gone)))
  }

  /** A RALph resource arc or an association whose source or target is
      missing or no longer registered. */
  predicate IsOrphan(reg: Registry, c: Element) {
    (c.kind == "RALph:ResourceArc" || c.kind == "bpmn:Association")
    && (!Truthy(c.source) || !Truthy(c.target) || !Has(reg, c.source) || !Has(reg, c.target))
  }

  function Orphaned(reg: Registry): Element -> bool {
    (c: Element) => IsOrphan(reg, c)
  }

  /** What the selective clean-up removes at each step, the registry it
      leaves, and the number `elementsRemoved` it reports. */
  datatype Cleanup = Cleanup(roles: seq<Element>, specials: seq<Element>, orphans: seq<Element>,
                             remaining: Registry, count: nat)

  /** `performSelectiveCleanup`: (1) named role shapes whose name no cell
      assigns, (2) then, in what is left, special elements whose name no
      cell asks for, (3) then, in what is left, orphaned arcs and
      associations. Each step removes its elements with their attached
      connections, and the count adds the elements each step selected. */
  function SelectiveCleanup(reg: Registry, t: Table): (r: Cleanup)
    ensures r.count == |r.roles| + |r.specials| + |r.orphans|
    ensures forall e :: e in r.roles <==>
              e in reg && IsRoleShape(e) && Truthy(e.name) && !(exists i, j :: 0 <= i < |t| && 0 <= j < |t[i].1| && t[i].1[j].0 == e.name && Assigned(t[i].1[j].1))
    ensures forall e :: e in r.specials <==>
              e in RemoveElements(reg, r.roles) && Truthy(e.name) && IsSpecialName(e.name) && e.name !in ExpectedSpecialElements(t)
    ensures var left := RemoveElements(RemoveElements(reg, r.roles), r.specials);
            (forall e :: e in r.orphans <==> e in left && IsOrphan(left, e))
            && r.remaining == RemoveElements(left, r.orphans)
    ensures forall e :: e in r.specials ==> e !in r.roles
    ensures forall e :: e in r.orphans ==> e !in r.roles && e !in r.specials
  {
    var expected := ExpectedRoles(t);
    forall x ensures x in expected <==> exists i, j :: 0 <= i < |t| && 0 <= j < |t[i].1| && t[i].1[j].0 == x && Assigned(t[i].1[j].1) {
      ExpectedRolesMembers(t, x);
    }
    var roles := Filter(reg, StaleRole(expected));
    var afterRoles := RemoveElements(reg, roles);
    var specials := Filter(afterRoles, StaleSpecial(ExpectedSpecialElements(t)));
    var left := RemoveElements(afterRoles, specials);
    var orphans := Filter(left, Orphaned(left));
    Cleanup(roles, specials, orphans, RemoveElements(left, orphans), |roles| + |specials| + |orphans|)
  }

  /** After the clean-up every named role shape left is assigned by some
      cell, every special element left is expected, and no element left was
      counted. */
  lemma CleanupLeavesOnlyExpected(reg: Registry, t: Table)
    ensures var r := SelectiveCleanup(reg, t);
            forall e :: e in r.remaining ==>
              e in reg && e !in r.roles && e !in r.specials && e !in r.orphans
              && (IsRoleShape(e) && Truthy(e.name) ==> e.name in ExpectedRoles(t))
              && (Truthy(e.name) && IsSpecialName(e.name) ==> e.name in ExpectedSpecialElements(t))
  {
    var r := SelectiveCleanup(reg, t);
    var afterRoles := RemoveElements(reg, r.roles);
    var left := RemoveElements(afterRoles, r.specials);
    forall e | e in r.remaining
      ensures e in reg && e !in r.roles && e !in r.specials && e !in r.orphans
      ensures IsRoleShape(e) && Truthy(e.name) ==> e.name in ExpectedRoles(t)
      ensures Truthy(e.name) && IsSpecialName(e.name) ==> e.name in ExpectedSpecialElements(t)
    {
      assert e in left && e in afterRoles;
      if IsRoleShape(e) && Truthy(e.name) {
        var i, j :| 0 <= i < |t| && 0 <= j < |t[i].1| && t[i].1[j].0 == e.name && Assigned(t[i].1[j].1);
        ExpectedRolesMembers(t, e.name);
      }
    }
  }

  /** A stale role shape whose name also reads as a special element's is
      removed by step 1 only, and so counted once. */
  lemma StaleRoleCountedOnce(e: Element)
    requires IsRoleShape(e) && Truthy(e.name) && IsSpecialName(e.name)
    ensures var r := SelectiveCleanup([e], []);
            r.roles == [e] && r.specials == [] && r.orphans == [] && r.count == 1
  {
    var r := SelectiveCleanup([e], []);
    assert e in r.roles;
    assert RemoveElements([e], r.roles) == [];
    assert RemoveElements(RemoveElements([e], r.roles), r.specials) == [];
  }

  // ---------------------------------------------------------------------
  // Classification in `handleRolesAndAssignments`

  /** The R, S and A lists of a row, built as the mapper does it: skip
      empty, '-' and blank cells, then switch on the letter. */
  function SortRow(row: Entries): (r: (seq<string>, seq<string>, seq<string>))
    decreases |row|
  {
    if |row| == 0 then ([], [], [])
    else
      var rest := SortRow(row[..|row| - 1]);
      var e := row[|row| - 1];
      if Skipped(e.1) then rest
      else if e.1 == "R" then (rest.0 + [e.0], rest.1, rest.2)
      else if e.1 == "S" then (rest.0, rest.1 + [e.0], rest.2)
      else if e.1 == "A" then (rest.0, rest.1, rest.2 + [e.0])
      else rest
  }

  /** The skip test changes nothing: the mapper's lists are the
      consolidated mapping's R, S and A lists. */
  lemma {:induction false} SortRowIsClassify(row: Entries)
    ensures var c := Classify(row);
            SortRow(row) == (c.responsible, c.support, c.approve)
    decreases |row|
  {
    if |row| > 0 {
      var front := row[..|row| - 1];
      var e := row[|row| - 1];
      SortRowIsClassify(front);
      var rest := SortRow(front);
      if e.1 == "R" || e.1 == "S" || e.1 == "A" {
        LettersAreNotSkipped(e.1);
      }
      assert SortRow(row) == if Skipped(e.1) then rest
                             else if e.1 == "R" then (rest.0 + [e.0], rest.1, rest.2)
                             else if e.1 == "S" then (rest.0, rest.1 + [e.0], rest.2)
                             else if e.1 == "A" then (rest.0, rest.1, rest.2 + [e.0])
                             else rest;
      assert SortRow(row).0 == RolesWith(row, "R");
      assert SortRow(row).1 == RolesWith(row, "S");
      assert SortRow(row).2 == RolesWith(row, "A");
      assert RolesWith(row, "R") == RolesWith(front, "R") + (if e.1 == "R" then [e.0] else []);
      assert RolesWith(row, "S") == RolesWith(front, "S") + (if e.1 == "S" then [e.0] else []);
      assert RolesWith(row, "A") == RolesWith(front, "A") + (if e.1 == "A" then [e.0] else []);
    }
  }

  // ---------------------------------------------------------------------
  // The role named by an approval task

  const Para: string := " para "

  /** `removeAssociatedRole`: the role is taken from "Aprobar X para Y" or
      from "Aprobar X". */
  function ApprovalRole(name: string): string {
    var stripped := ReplaceFirst(name, "Aprobar ", "");
    if Contains(name, Para) then SplitHead(stripped, Para) else stripped
  }

  /** On a name that starts with "Aprobar ", the role is read from the
      rest of the name. */
  lemma ApprovalRoleOf(rest: string)
    ensures ApprovalRole("Aprobar " + rest) ==
              if Contains("Aprobar " + rest, Para) then SplitHead(rest, Para) else rest
  {
    StripPrefix("Aprobar ", rest);
  }

  /** Replacing a leading pattern by nothing removes it. */
  lemma StripPrefix(p: string, rest: string)
    ensures ReplaceFirst(p + rest, p, "") == rest
  {
    var s := p + rest;
    assert s[..|p|] == p;
    assert IndexOf(s, p) == Some(0);
    assert s[|p|..] == rest;
  }

  /** No occurrence of `sep` starts inside `x` when `x` followed by the
      first character of `sep` holds none, provided that character occurs
      nowhere else in `sep` but at its end. */
  lemma NoEarlyOccurrence(x: string, sep: string, y: string, j: nat)
    requires |sep| >= 2 && sep[|sep| - 1] == sep[0]
    requires forall d :: 0 < d < |sep| - 1 ==> sep[d] != sep[0]
    requires j < |x| && !Contains(x + [sep[0]], sep)
    ensures !StartsWith((x + sep + y)[j..], sep)
  {
    var s := x + sep + y;
    var u := x + [sep[0]];
    var n := |sep|;
    if j + n <= |u| {
      OccurrenceContained(u, sep, j);
      assert s[j..j + n] == u[j..j + n];
    } else {
      var d := |x| - j;
      assert 0 < d < n - 1;
      assert s[j..][d] == sep[0];
    }
  }

  /** In `x + sep + y` the first occurrence of `sep` follows `x`. */
  lemma OccurrenceAfter(x: string, sep: string, y: string)
    requires |sep| >= 2 && sep[|sep| - 1] == sep[0]
    requires forall d :: 0 < d < |sep| - 1 ==> sep[d] != sep[0]
    requires !Contains(x + [sep[0]], sep)
    ensures SplitHead(x + sep + y, sep) == x
  {
    var s := x + sep + y;
    assert s[|x|..|x| + |sep|] == sep;
    ContainsAt(s, sep, |x|);
    forall j | 0 <= j < |x|
      ensures !StartsWith(s[j..], sep)
    {
      NoEarlyOccurrence(x, sep, y, j);
    }
    assert StartsWith(s[|x|..], sep);
  }

  /** What a string holds, any extension of it holds. */
  lemma {:induction false} ContainsExtended(s: string, tail: string, sub: string)
    ensures Contains(s, sub) ==> Contains(s + tail, sub)
    decreases |s|
  {
    if Contains(s, sub) {
      if StartsWith(s, sub) {
        assert (s + tail)[..|sub|] == s[..|sub|];
      } else {
        ContainsExtended(s[1..], tail, sub);
        assert (s + tail)[1..] == s[1..] + tail;
      }
    }
  }

  /** " para " begins and ends with its only blanks. */
  lemma ParaShape()
    ensures |Para| >= 2 && Para[|Para| - 1] == Para[0] == ' '
    ensures forall d :: 0 < d < |Para| - 1 ==> Para[d] != Para[0]
  {
  }

  /** The role is recovered from the three-part approval spelling provided
      the role's name, followed by a blank, holds no " para " (a role
      ending in " para" is cut short). */
  lemma ApprovalRoleRoundTrip(role: string, task: string)
    requires !Contains(role + " ", Para)
    ensures ApprovalRole(ApprovalFor(role, task)) == role
  {
    var rest := role + Para + task;
    assert ApprovalFor(role, task) == "Aprobar " + rest;
    ApprovalRoleOf(rest);
    ParaShape();
    OccurrenceAfter(role, Para, task);
    OccurrenceContained(rest, Para, |role|);
    assert rest[|role|..|role| + |Para|] == Para;
    ContainsExtended("Aprobar ", rest, Para);
    SuffixContains("Aprobar ", rest, Para);
  }

  /** The role is recovered from the two-part spelling "Aprobar X". */
  lemma ApprovalRoleRoundTripShort(role: string)
    requires !Contains(role + " ", Para)
    ensures ApprovalRole(SpecialName("Aprobar", role)) == role
  {
    assert SpecialName("Aprobar", role) == "Aprobar " + role;
    ApprovalRoleOf(role);
    ContainsExtended(role, " ", Para);
  }

  /** What a suffix holds, the whole string holds. */
  lemma {:induction false} SuffixContains(p: string, s: string, sub: string)
    ensures Contains(s, sub) ==> Contains(p + s, sub)
    decreases |p|
  {
    if |p| > 0 {
      SuffixContains(p[1..], s, sub);
      assert (p + s)[1..] == p[1..] + s;
    } else {
      assert p + s == s;
    }
  }

  // ---------------------------------------------------------------------
  // Backward reachability over sequence flows

  /** A sequence flow leads from `a` to `b`. */
  predicate Flow(reg: Registry, a: string, b: string) {
    exists i :: 0 <= i < |reg| && reg[i].kind == SequenceFlowType && reg[i].source == a && reg[i].target == b
  }

  /** A chain of sequence flows leads from `a` to `b`. */
  ghost predicate Connects(reg: Registry, a: string, b: string) {
    exists p: seq<string> :: |p| >= 1 && p[0] == a && p[|p| - 1] == b
                             && forall k :: 0 <= k < |p| - 1 ==> Flow(reg, p[k], p[k + 1])
  }

  lemma ConnectsSelf(reg: Registry, a: string)
    ensures Connects(reg, a, a)
  {
    assert [a][0] == a;
  }

  lemma ConnectsStep(reg: Registry, a: string, m: string, b: string)
    requires Connects(reg, a, m) && Flow(reg, m, b)
    ensures Connects(reg, a, b)
  {
    var p: seq<string> :| |p| >= 1 && p[0] == a && p[|p| - 1] == m
                         && forall k :: 0 <= k < |p| - 1 ==> Flow(reg, p[k], p[k + 1]);
    var q := p + [b];
    assert forall k :: 0 <= k < |q| - 1 ==> q[k] == p[k];
    assert q[|q| - 1] == b;
  }

  function FlowsInto(id: string): Element -> bool {
    (c: Element) => c.kind == SequenceFlowType && Truthy(c.target) && c.target == id
  }

  /** The sequence flows entering element `id`, in registry order. */
  function Incoming(reg: Registry, id: string): seq<Element> {
    Filter(reg, FlowsInto(id))
  }

  /** Every registered predecessor of a node of `done` is in `seen`: the
      nodes of `done` have had all their incoming flows followed. */
  ghost predicate Explored(reg: Registry, done: set<string>, seen: set<string>) {
    forall x, c :: x in done && c in Incoming(reg, x) && Has(reg, c.source) ==> c.source in seen
  }

  /** `isConnectedToTask(source, target, visited)`: a missing element or one
      seen before gives false, the target itself gives true, otherwise the
      sources of the incoming sequence flows are tried in order. The
      visited set is shared by all calls, so it is threaded through;
      `scope` holds every id the search may mark (the registry's and the
      starting element's). A true answer means the target reaches the
      source along sequence flows. */
  function Connected(reg: Registry, source: Option<Element>, target: Option<Element>,
                     visited: set<string>, scope: set<string>): (r: (bool, set<string>))
    requires Ids(reg) <= scope
    requires source.Some? ==> source.value.id in scope
    ensures visited <= r.1
    ensures source.None? || target.None? ==> !r.0
    ensures r.0 ==> source.Some? && target.Some? && Connects(reg, target.value.id, source.value.id)
    ensures !r.0 && source.Some? && target.Some? ==>
              source.value.id in r.1 && Explored(reg, r.1 - visited, r.1)
              && target.value.id !in r.1 - visited
    decreases |scope - visited|, 0, 0
  {
    match (source, target)
    case (Some(s), Some(t)) =>
      if s.id in visited then (false, visited)
      else if s.id == t.id then
        ConnectsSelf(reg, t.id);
        (true, visited)
      else
        var more := visited + {s.id};
        assert scope - visited == (scope - more) + {s.id};
        IncomingAreFlows(reg, s.id);
        TryIncoming(reg, s.id, Incoming(reg, s.id), t, more, scope)
    case _ => (false, visited)
  }

  /** The loop over the incoming flows of `here`. */
  function TryIncoming(reg: Registry, here: string, conns: seq<Element>, target: Element,
                       visited: set<string>, scope: set<string>): (r: (bool, set<string>))
    requires Ids(reg) <= scope
    requires forall c :: c in conns ==> c in reg && Flow(reg, c.source, here)
    ensures visited <= r.1
    ensures r.0 ==> Connects(reg, target.id, here)
    ensures !r.0 ==> (forall c :: c in conns && Has(reg, c.source) ==> c.source in r.1)
                     && Explored(reg, r.1 - visited, r.1) && target.id !in r.1 - visited
    decreases |scope - visited|, 1, |conns|
  {
    if |conns| == 0 then (false, visited)
    else
      var src := Get(reg, conns[0].source);
      assert src.Some? ==> src.value.id in Ids(reg) by {
        if src.Some? {
          var i :| 0 <= i < |reg| && reg[i] == src.value;
        }
      }
      var sub := Connected(reg, src, Some(target), visited, scope);
      if sub.0 then
        ConnectsStep(reg, target.id, src.value.id, here);
        (true, sub.1)
      else
        SubsetNoLarger(scope - sub.1, scope - visited);
        TryIncoming(reg, here, conns[1..], target, sub.1, scope)
  }

  /** The flows `Incoming` lists are flows into that element. */
  lemma IncomingAreFlows(reg: Registry, id: string)
    ensures forall c :: c in Incoming(reg, id) ==> c in reg && Flow(reg, c.source, id)
  {
    forall c | c in Incoming(reg, id)
      ensures c in reg && Flow(reg, c.source, id)
    {
      var i :| 0 <= i < |reg| && reg[i] == c;
    }
  }

  /** The first call, with an empty visited set. */
  function IsConnectedToTask(reg: Registry, source: Option<Element>, target: Option<Element>): (r: bool)
    ensures r ==> source.Some? && target.Some? && Connects(reg, target.value.id, source.value.id)
    ensures source.Some? && target.Some? && source.value.id == target.value.id ==> r
  {
    var scope := Ids(reg) + (if source.Some? then {source.value.id} else {});
    Connected(reg, source, target, {}, scope).0
  }

  /** A registry as the canvas keeps it: every sequence flow has a target
      and its source is a registered element. */
  predicate WellWired(reg: Registry) {
    forall i :: 0 <= i < |reg| && reg[i].kind == SequenceFlowType ==>
      Truthy(reg[i].target) && Has(reg, reg[i].source)
  }

  /** A flow between two elements is among the incoming flows the search
      follows back from its target. */
  lemma FlowIsIncoming(reg: Registry, a: string, b: string)
    requires WellWired(reg) && Flow(reg, a, b)
    ensures exists c :: c in Incoming(reg, b) && c.source == a && Has(reg, c.source)
  {
    var i :| 0 <= i < |reg| && reg[i].kind == SequenceFlowType && reg[i].source == a && reg[i].target == b;
    assert reg[i] in reg && FlowsInto(b)(reg[i]);
  }

  /** A set closed under registered predecessors that holds the end of a
      chain of flows holds its start. */
  lemma {:induction false} ExploredHoldsChain(reg: Registry, seen: set<string>, p: seq<string>, k: nat)
    requires WellWired(reg) && Explored(reg, seen, seen)
    requires |p| >= 1 && p[|p| - 1] in seen && k < |p|
    requires forall j :: 0 <= j < |p| - 1 ==> Flow(reg, p[j], p[j + 1])
    ensures p[k] in seen
    decreases |p| - k
  {
    if k < |p| - 1 {
      ExploredHoldsChain(reg, seen, p, k + 1);
      FlowIsIncoming(reg, p[k], p[k + 1]);
    }
  }

  /** On a well-wired registry the search is complete: whenever the target
      reaches the source along sequence flows, `isConnectedToTask` answers
      true. */
  lemma IsConnectedToTaskComplete(reg: Registry, source: Option<Element>, target: Option<Element>)
    requires WellWired(reg) && source.Some? && target.Some?
    requires Connects(reg, target.value.id, source.value.id)
    ensures IsConnectedToTask(reg, source, target)
  {
    var scope := Ids(reg) + {source.value.id};
    var r := Connected(reg, source, target, {}, scope);
    if !r.0 {
      assert r.1 - {} == r.1;
      var p: seq<string> :| |p| >= 1 && p[0] == target.value.id && p[|p| - 1] == source.value.id
                            && forall k :: 0 <= k < |p| - 1 ==> Flow(reg, p[k], p[k + 1]);
      ExploredHoldsChain(reg, r.1, p, 0);
    }
  }
}
