/** The RASCI matrix of `app/modules/rasci/core/matrix-manager.js`: for each
    BPMN task, the responsibility letter (R, A, S, C or I) of each role.
    Rows and the matrix are JavaScript objects; their key order matters
    only for display, so they are maps here. The diagram is the element
    registry; `None` stands for a missing BPMN modeller. */
module RasciMatrix {
  import opened Common
  import opened Diagram

  /** One task's row: role name to cell value ("" for an empty cell). */
  type Row = map<string, string>

  /** Task name to row. */
  type Matrix = map<string, Row>

  /** The five responsibility letters. */
  predicate IsLetter(v: string) {
    v == "R" || v == "A" || v == "S" || v == "C" || v == "I"
  }

  /** A task's row, or `{}` when the task has none. */
  function RowOf(m: Matrix, task: string): Row {
    if task in m then m[task] else map[]
  }

  // ---------------------------------------------------------------------
  // Preserving and restoring responsibilities

  /** `preserveRasciValues`: every task keeps a (possibly empty) entry, and
      only the cells holding one of the five letters survive. */
  function Preserve(m: Matrix): (r: Matrix)
    ensures r.Keys == m.Keys
    ensures forall t :: t in r ==> r[t].Keys == (set role | role in m[t] && IsLetter(m[t][role]))
    ensures forall t, role :: t in r && role in r[t] ==> r[t][role] == m[t][role] && IsLetter(r[t][role])
  {
    map t | t in m :: map role | role in m[t] && IsLetter(m[t][role]) :: m[t][role]
  }

  /** The cells `restoreRasciValues` writes back: preserved cells whose task
      has a row and whose role has a key in it. */
  function Restorable(preserved: Matrix, m: Matrix): set<(string, string)> {
    set t, role | t in preserved && role in preserved[t] && t in m && role in m[t] :: (t, role)
  }

  datatype Restored = Restored(matrix: Matrix, count: nat)

  /** `restoreRasciValues(preserved)`: the matrix with the restorable cells
      overwritten, and how many cells that was. No key is added. */
  function Restore(preserved: Matrix, m: Matrix): (r: Restored)
    ensures r.matrix.Keys == m.Keys
    ensures forall t :: t in m ==> r.matrix[t].Keys == m[t].Keys
    ensures forall t, role :: t in m && role in m[t] && (t, role) in Restorable(preserved, m) ==>
              r.matrix[t][role] == preserved[t][role]
    ensures forall t, role :: t in m && role in m[t] && (t, role) !in Restorable(preserved, m) ==>
              r.matrix[t][role] == m[t][role]
    ensures r.count == |Restorable(preserved, m)|
  {
    var matrix := map t | t in m ::
      if t in preserved then
        map role | role in m[t] :: if role in preserved[t] then preserved[t][role] else m[t][role]
      else m[t];
    Restored(matrix, |Restorable(preserved, m)|)
  }

  /** Restoring what was just preserved puts back what was already there:
      the matrix is unchanged and every lettered cell is counted. */
  lemma RestorePreservedIsIdentity(m: Matrix)
    ensures Restore(Preserve(m), m).matrix == m
    ensures Restorable(Preserve(m), m) == set t, role | t in m && role in m[t] && IsLetter(m[t][role]) :: (t, role)
  {
    var p := Preserve(m);
    var r := Restore(p, m).matrix;
    forall t | t in m ensures r[t] == m[t] {
      forall role | role in m[t] ensures r[t][role] == m[t][role] {
        if (t, role) in Restorable(p, m) {
          assert r[t][role] == p[t][role];
        }
      }
    }
  }

  /** Preserving twice is preserving once. */
  lemma PreserveIdempotent(m: Matrix)
    ensures Preserve(Preserve(m)) == Preserve(m)
  {
    var p := Preserve(m);
    forall t | t in p ensures Preserve(p)[t] == p[t] {
      assert Preserve(p)[t].Keys == p[t].Keys;
    }
  }

  // ---------------------------------------------------------------------
  // Tasks and roles from the diagram

  /** The names of the wanted elements in registry order, skipping empty
      names and names already collected (`if (name && !list.includes(name))
      list.push(name)`). */
  function CollectNames(reg: Registry, wanted: Element -> bool, nameOf: Element -> string): (r: seq<string>)
    ensures NoDup(r)
    ensures forall n :: n in r <==> Truthy(n) && exists i :: 0 <= i < |reg| && wanted(reg[i]) && nameOf(reg[i]) == n
    decreases |reg|
  {
    if |reg| == 0 then []
    else
      var front := reg[..|reg| - 1];
      var e := reg[|reg| - 1];
      var names := CollectNames(front, wanted, nameOf);
      assert forall i :: 0 <= i < |front| ==> front[i] == reg[i];
      if wanted(e) && Truthy(nameOf(e)) && nameOf(e) !in names then names + [nameOf(e)] else names
  }

  predicate IsTask(e: Element) {
    IsTaskType(e.kind)
  }

  /** `businessObject.name || element.id`. */
  function TaskName(e: Element): string {
    if Truthy(e.name) then e.name else e.id
  }

  /** `getBpmnTasks()`: the distinct names of the task-typed elements. */
  function GetBpmnTasks(reg: Registry): (r: seq<string>)
    ensures NoDup(r)
    ensures forall n :: n in r <==> Truthy(n) && exists i :: 0 <= i < |reg| && IsTask(reg[i]) && TaskName(reg[i]) == n
  {
    CollectNames(reg, IsTask, TaskName)
  }

  /** The role types `detectRalphRolesFromCanvas` accepts. */
  predicate IsRalphRole(e: Element) {
    e.kind == "RALph:RoleRALph" || e.kind == "ralph:Role" || e.kind == "RALph:Role"
    || e.kind == "ralph:RoleRALph" || (Contains(e.kind, "RALph") && Contains(e.kind, "Role"))
  }

  /** The name of a detected role: its name, else its id, else a placeholder. */
  function RoleLabel(e: Element): (r: string)
    ensures Truthy(r)
  {
    if Truthy(e.name) then e.name else if Truthy(e.id) then e.id else "Rol sin nombre"
  }

  /** `detectRalphRolesFromCanvas()`. */
  function DetectRalphRoles(reg: Registry): (r: seq<string>)
    ensures NoDup(r)
    ensures forall n :: n in r <==> exists i :: 0 <= i < |reg| && IsRalphRole(reg[i]) && RoleLabel(reg[i]) == n
  {
    CollectNames(reg, IsRalphRole, RoleLabel)
  }

  /** The roles known to the matrix followed by the detected roles that are
      not yet among them. */
  function MergeRoles(roles: seq<string>, detected: seq<string>): (r: seq<string>)
    ensures |r| >= |roles| && r[..|roles|] == roles
    ensures forall x :: x in r <==> x in roles || x in detected
    ensures NoDup(roles) ==> NoDup(r)
    decreases |detected|
  {
    if |detected| == 0 then roles
    else
      var front := detected[..|detected| - 1];
      var d := detected[|detected| - 1];
      var merged := MergeRoles(roles, front);
      assert forall x :: x in front ==> x in detected;
      if d in merged then merged else merged + [d]
  }

  // ---------------------------------------------------------------------
  // Rebuilding the matrix

  /** A new task's row: an empty cell for every role. */
  function EmptyRow(roles: seq<string>): (r: Row)
    ensures r.Keys == set role | role in roles
    ensures forall role :: role in r ==> r[role] == ""
  {
    map role | role in roles :: ""
  }

  /** The non-import branch of `forceReloadMatrix`: one row per current
      task, one key per role, keeping each cell's old value when it is
      non-empty. */
  function Rebuild(m: Matrix, roles: seq<string>, tasks: seq<string>): Matrix {
    map t | t in tasks :: map role | role in roles ::
      if t in m && role in m[t] && Truthy(m[t][role]) then m[t][role] else ""
  }

  /** The import branch of `forceReloadMatrix`: rows are added for tasks that
      have none and existing rows are left alone. */
  function AddMissingRows(m: Matrix, roles: seq<string>, tasks: seq<string>): Matrix {
    map t | t in m.Keys + (set x | x in tasks) :: if t in m then m[t] else EmptyRow(roles)
  }

  /** `forceReloadMatrix()`: rebuild (or, while a project is being imported,
      extend) the matrix for the current tasks, then write the preserved
      letters back. */
  function ForceReload(m: Matrix, roles: seq<string>, tasks: Option<seq<string>>, importing: bool): (r: Matrix)
    ensures tasks.None? ==> r == m
    ensures tasks.Some? && !importing ==>
              r.Keys == (set t | t in tasks.value)
              && (forall t :: t in r ==> r[t].Keys == set role | role in roles)
    ensures tasks.Some? && !importing ==>
              forall t, role :: t in r && role in r[t] && t in m && role in m[t] && IsLetter(m[t][role]) ==>
                r[t][role] == m[t][role]
    ensures tasks.Some? && !importing ==>
              forall t, role :: t in r && role in r[t] ==>
                r[t][role] == "" || (t in m && role in m[t] && r[t][role] == m[t][role])
    ensures tasks.Some? && !importing ==>
              forall t, role :: t in r && role in r[t] ==>
                r[t][role] == (if t in m && role in m[t] && Truthy(m[t][role]) then m[t][role] else "")
    ensures tasks.Some? && importing ==>
              r.Keys == m.Keys + (set t | t in tasks.value)
              && (forall t :: t in m ==> r[t] == m[t])
              && (forall t :: t in r && t !in m ==> r[t] == EmptyRow(roles))
  {
    match tasks
    case None => m
    case Some(ts) =>
      var base := if importing then AddMissingRows(m, roles, ts) else Rebuild(m, roles, ts);
      var p := Preserve(m);
      var restored := Restore(p, base);
      RestoreIntoCopy(m, base);
      restored.matrix
  }

  /** Writing the preserved letters into a matrix whose lettered cells
      already agree with the old matrix changes nothing. */
  lemma RestoreIntoCopy(m: Matrix, base: Matrix)
    requires forall t, role :: t in base && role in base[t] && t in m && role in m[t] && IsLetter(m[t][role]) ==>
               base[t][role] == m[t][role]
    ensures Restore(Preserve(m), base).matrix == base
  {
    var p := Preserve(m);
    var r := Restore(p, base).matrix;
    forall t | t in base ensures r[t] == base[t] {
      forall role | role in base[t] ensures r[t][role] == base[t][role] {
        if (t, role) in Restorable(p, base) {
          assert r[t][role] == p[t][role];
        }
      }
    }
  }

  /** Every existing row gains an empty cell for each role it lacks. */
  function FillRow(row: Row, roles: seq<string>): (r: Row)
    ensures r.Keys == row.Keys + (set role | role in roles)
    ensures forall role :: role in row ==> r[role] == row[role]
    ensures forall role :: role in r && role !in row ==> r[role] == ""
  {
    map role | role in row.Keys + (set x | x in roles) :: if role in row then row[role] else ""
  }

  /** Rows for the new tasks, and the missing roles in the existing rows. */
  function FillRows(m: Matrix, roles: seq<string>, tasks: seq<string>): (r: Matrix)
    ensures r.Keys == m.Keys + (set t | t in tasks)
    ensures forall t :: t in m ==> r[t] == FillRow(m[t], roles)
    ensures forall t :: t in r && t !in m ==> r[t] == EmptyRow(roles)
  {
    map t | t in m.Keys + (set x | x in tasks) :: if t in m then FillRow(m[t], roles) else EmptyRow(roles)
  }

  /** The rows of the listed tasks; the others are deleted. */
  function KeepTasks(m: Matrix, tasks: seq<string>): (r: Matrix)
    ensures r.Keys == m.Keys * (set t | t in tasks)
    ensures forall t :: t in r ==> r[t] == m[t]
  {
    map t | t in m && t in tasks :: m[t]
  }

  datatype Update = Update(matrix: Matrix, roles: seq<string>)

  /** `updateMatrixFromDiagram()`: the role list grows by the RALph roles on
      the canvas, new tasks get an empty row, existing rows gain the missing
      roles, the preserved letters are written back, and rows of tasks no
      longer in the diagram are deleted. */
  function UpdateMatrixFromDiagram(m: Matrix, roles: seq<string>, canvas: Option<Registry>): (r: Update)
    ensures canvas.None? ==> r == Update(m, roles)
    ensures canvas.Some? ==> r.roles == MergeRoles(roles, DetectRalphRoles(canvas.value))
    ensures canvas.Some? ==> r.matrix.Keys == set t | t in GetBpmnTasks(canvas.value)
    ensures canvas.Some? ==> forall t, role :: t in r.matrix && role in r.roles ==> role in r.matrix[t]
    ensures canvas.Some? ==>
              forall t, role :: t in r.matrix && t in m && role in m[t] ==> role in r.matrix[t] && r.matrix[t][role] == m[t][role]
    ensures canvas.Some? ==> forall t :: t in r.matrix && t !in m ==> r.matrix[t] == EmptyRow(r.roles)
    ensures canvas.Some? ==> forall t :: t in r.matrix && t in m ==> r.matrix[t] == FillRow(m[t], r.roles)
  {
    match canvas
    case None => Update(m, roles)
    case Some(reg) =>
      var tasks := GetBpmnTasks(reg);
      var current := MergeRoles(roles, DetectRalphRoles(reg));
      var filled := FillRows(m, current, tasks);
      RestoreIntoCopy(m, filled);
      var restored := Restore(Preserve(m), filled).matrix;
      Update(KeepTasks(restored, tasks), current)
  }

  // ---------------------------------------------------------------------
  // Editing a cell from the keyboard

  /** `e.key.toUpperCase()` when it is one of the five letters. Upper-casing
      also turns the long s (U+017F) into S and the dotless i (U+0131) into
      I. */
  function KeyLetter(key: string): (r: Option<string>)
    ensures r.Some? ==> IsLetter(r.value)
    ensures r.Some? ==> |key| == 1
  {
    if key == "R" || key == "r" then Some("R")
    else if key == "A" || key == "a" then Some("A")
    else if key == "S" || key == "s" || key == "\U{017F}" then Some("S")
    else if key == "C" || key == "c" then Some("C")
    else if key == "I" || key == "i" || key == "\U{0131}" then Some("I")
    else None
  }

  /** The keys that clear a cell (compared without upper-casing). */
  predicate IsClearKey(key: string) {
    key == "-" || key == "Delete" || key == "Backspace" || key == "Escape"
  }

  /** Some cell of the row mentions `letter`. */
  predicate RowHas(row: Row, letter: string) {
    exists role :: role in row && Contains(row[role], letter)
  }

  /** The guard: a second R, or a second A, in the same task is refused. */
  predicate Refuses(m: Matrix, task: string, letter: string) {
    (letter == "R" && RowHas(RowOf(m, task), "R")) || (letter == "A" && RowHas(RowOf(m, task), "A"))
  }

  /** The `keydown` handler of the cell (`task`, `role`). */
  function KeyDown(m: Matrix, task: string, role: string, key: string): (r: Matrix)
    ensures KeyLetter(key).Some? && !Refuses(m, task, KeyLetter(key).value) ==>
              r.Keys == m.Keys + {task} && role in r[task] && r[task][role] == KeyLetter(key).value
              && r[task].Keys == RowOf(m, task).Keys + {role}
              && (forall x :: x in r[task] && x != role ==> r[task][x] == m[task][x])
              && (forall t :: t in m && t != task ==> r[t] == m[t])
    ensures KeyLetter(key).Some? && Refuses(m, task, KeyLetter(key).value) ==> r == m
    ensures KeyLetter(key).None? && IsClearKey(key) ==>
              r.Keys == m.Keys && !(role in RowOf(r, task) && Truthy(RowOf(r, task)[role]))
              && (forall t :: t in m && t != task ==> r[t] == m[t])
              && (forall x :: x in RowOf(m, task) && x != role ==> x in r[task] && r[task][x] == m[task][x])
    ensures KeyLetter(key).None? && IsClearKey(key) && task in m && role in m[task] && !Truthy(m[task][role]) ==> r == m
    ensures KeyLetter(key).None? && !IsClearKey(key) ==> r == m
  {
    match KeyLetter(key)
    case Some(letter) =>
      if Refuses(m, task, letter) then m
      else m[task := RowOf(m, task)[role := letter]]
    case None =>
      if IsClearKey(key) && task in m && role in m[task] && Truthy(m[task][role]) then
        m[task := m[task] - {role}]
      else m
  }

  /** At most one cell of the row mentions `letter`. */
  predicate Single(row: Row, letter: string) {
    forall a, b :: a in row && b in row && Contains(row[a], letter) && Contains(row[b], letter) ==> a == b
  }

  /** No task has two R cells or two A cells. */
  predicate AtMostOneRA(m: Matrix) {
    forall t :: t in m ==> Single(m[t], "R") && Single(m[t], "A")
  }

  /** A letter mentions another letter only when they are the same. */
  lemma LetterMentions(v: string, letter: string)
    requires IsLetter(v) && (letter == "R" || letter == "A")
    ensures Contains(v, letter) <==> v == letter
  {
    assert Contains(v, letter) <==> StartsWith(v, letter) || Contains(v[1..], letter);
    assert v[1..] == "";
    assert !Contains("", letter);
  }

  /** The guard keeps the matrix free of a second R and a second A. */
  lemma KeyDownKeepsAtMostOneRA(m: Matrix, task: string, role: string, key: string)
    requires AtMostOneRA(m)
    ensures AtMostOneRA(KeyDown(m, task, role, key))
  {
    var r := KeyDown(m, task, role, key);
    if KeyLetter(key).Some? && !Refuses(m, task, KeyLetter(key).value) {
      var letter := KeyLetter(key).value;
      var row := RowOf(m, task);
      var nrow := row[role := letter];
      assert r[task] == nrow;
      LetterMentions(letter, "R");
      LetterMentions(letter, "A");
      assert Single(row, "R") && Single(row, "A");
      SingleAfterWrite(row, role, letter, "R");
      SingleAfterWrite(row, role, letter, "A");
    } else if KeyLetter(key).None? && IsClearKey(key) && task in m && role in m[task] && Truthy(m[task][role]) {
      assert r[task] == m[task] - {role};
      assert Single(m[task], "R") && Single(m[task], "A");
    }
  }

  /** Writing one cell keeps a letter single when either the new value does
      not mention it or no other cell did. */
  lemma SingleAfterWrite(row: Row, role: string, v: string, letter: string)
    requires Single(row, letter)
    requires Contains(v, letter) ==> !RowHas(row, letter)
    ensures Single(row[role := v], letter)
  {
    var nrow := row[role := v];
    forall a, b | a in nrow && b in nrow && Contains(nrow[a], letter) && Contains(nrow[b], letter)
      ensures a == b
    {
      if a != role && b != role {
        assert Contains(row[a], letter) && Contains(row[b], letter);
      }
    }
  }

  // ---------------------------------------------------------------------
  // Adding a role

  /** The name `addNewRole` gives the k-th role. */
  function RoleName(k: nat): string {
    "Rol " + NatToString(k)
  }

  /** `addNewRole()` as written: the new role is named after the list's
      length plus one. */
  function AddNewRoleAsWritten(roles: seq<string>): (r: seq<string>)
    ensures |r| == |roles| + 1 && r[..|roles|] == roles
    ensures r[|roles|] == RoleName(|roles| + 1)
  {
    roles + [RoleName(|roles| + 1)]
  }

  /** After "Rol 1" is deleted from ["Rol 1", "Rol 2"], adding a role
      creates a second "Rol 2". */
  lemma AddNewRoleDuplicates()
    ensures NoDup(["Rol 2"])
    ensures !NoDup(AddNewRoleAsWritten(["Rol 2"]))
  {
    assert NatToString(2) == "2";
    assert RoleName(2) == "Rol 2";
    assert AddNewRoleAsWritten(["Rol 2"]) == ["Rol 2", "Rol 2"];
  }

  /** Role names for different numbers differ. */
  lemma RoleNameInjective(a: nat, b: nat)
    requires RoleName(a) == RoleName(b)
    ensures a == b
  {
    assert RoleName(a)[4..] == NatToString(a);
    assert RoleName(b)[4..] == NatToString(b);
    NatToStringInjective(a, b);
  }

  /** A sequence has no more distinct members than elements. */
  lemma {:induction false} DistinctMembers(s: seq<string>)
    ensures |set x | x in s| <= |s|
    decreases |s|
  {
    if |s| > 0 {
      DistinctMembers(s[1..]);
      assert (set x | x in s) == (set x | x in s[1..]) + {s[0]};
    }
  }

  /** The names of the numbers `a` up to `b - 1` are `b - a` distinct names. */
  lemma {:induction false} NameRangeSize(a: nat, b: nat)
    requires a <= b
    ensures |set k | a <= k < b :: RoleName(k)| == b - a
    decreases b - a
  {
    if a < b {
      NameRangeSize(a, b - 1);
      var front := set k | a <= k < b - 1 :: RoleName(k);
      assert (set k | a <= k < b :: RoleName(k)) == front + {RoleName(b - 1)};
      if RoleName(b - 1) in front {
        var k :| a <= k < b - 1 && RoleName(k) == RoleName(b - 1);
        RoleNameInjective(k, b - 1);
      }
    }
  }

  /** A larger set has a member outside a smaller one. */
  lemma OutsideSmaller(a: set<string>, b: set<string>) returns (x: string)
    requires |a| > |b|
    ensures x in a && x !in b
  {
    SubsetNoLarger(a * b, b);
    assert a == (a - b) + (a * b);
    assert (a - b) * (a * b) == {};
    x :| x in a - b;
  }

  /** Among the names for |roles| + 1 up to 2|roles| + 1 one is free. */
  lemma FreeNameExists(roles: seq<string>)
    ensures exists j :: |roles| + 1 <= j <= 2 * |roles| + 1 && RoleName(j) !in roles
  {
    var n := |roles|;
    var names := set k | n + 1 <= k < 2 * n + 2 :: RoleName(k);
    var taken := set x | x in roles;
    NameRangeSize(n + 1, 2 * n + 2);
    DistinctMembers(roles);
    var x := OutsideSmaller(names, taken);
    var j :| n + 1 <= j < 2 * n + 2 && RoleName(j) == x;
  }

  /** The first free role name from number `k` on. */
  function FreeNameFrom(roles: seq<string>, k: nat, limit: nat): (r: string)
    requires exists j :: k <= j <= limit && RoleName(j) !in roles
    ensures r !in roles
    ensures exists j :: k <= j <= limit && r == RoleName(j)
    ensures RoleName(k) !in roles ==> r == RoleName(k)
    decreases limit - k
  {
    if RoleName(k) !in roles then RoleName(k)
    else FreeNameFrom(roles, k + 1, limit)
  }

  /** `addNewRole()` with the intended behaviour: the first role name from
      "Rol |roles|+1" on that is not taken. */
  function AddNewRole(roles: seq<string>): (r: seq<string>)
    ensures |r| == |roles| + 1 && r[..|roles|] == roles
    ensures r[|roles|] !in roles
    ensures NoDup(roles) ==> NoDup(r)
    ensures RoleName(|roles| + 1) !in roles ==> r == AddNewRoleAsWritten(roles)
  {
    FreeNameExists(roles);
    roles + [FreeNameFrom(roles, |roles| + 1, 2 * |roles| + 1)]
  }
}
