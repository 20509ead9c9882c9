# MultiModeler core, modelled in Dafny

MultiModeler is a browser modeller. It combines BPMN process diagrams with
PPINOT process performance indicators (PPIs), RALph resource assignments
and a RASCI responsibility matrix. Most of the program is canvas, DOM and
storage plumbing. This project models the sequential rules underneath that
plumbing as pure Dafny functions over immutable records, and proves what
those rules promise.

The element registry of the canvas is a sequence of elements, searched
first to last, with id, type, name, parent, ends and box (`Diagram`). The
modelled areas are:

- **The PPI record store** (`PpiModel`, `PpiCore`, `PpiPanel`, `PpiManager`,
  `PpiUi`): adding with one record per element, updating and deleting,
  purging orphans, filtering, measure-type detection, form and text
  parsing, SMART validation, BPMN link maps, and list and card
  de-duplication.
- **The RASCI matrix** (`RasciMatrix`): preserve and restore, the rebuild,
  the guard that allows at most one R and one A per task, task collection
  from the diagram, and naming of new roles.
- **The RASCI to RALph mapping** (`RasciMapping`, `MainMapper`):
  - role classification and the direct-or-AND-gate decision;
  - special element names and chains;
  - expected and active role sets;
  - the grid placement of new roles;
  - the bounded searches over sequence flows.
- **Small state machines**:
  - the two autosave managers (`LocalAutosave`, `AutosaveService`);
  - the PPI list refresh circuit breaker and the creation cooldown
    (`PpiManager`);
  - the PPINOT restoration coordinator (`PpinotCoordination`);
  - the queue of pending PPI sync changes (`PpiSync`).
- **List and record utilities**:
  - panel layouts, toggling and reordering (`PanelManager`, `PanelLoader`);
  - the backup application's waypoint sanitiser, relation clean-up, file
    type test and diagram lookup (`AppBackup`);
  - the import format detection, import order, RALph geometry merge and
    element fallbacks (`ImportExport`, `ImportExportBackup`);
  - the RALph label-editing guards (`RalphLabelEditing`).

Time, storage, the canvas and asynchronous completion never appear as
effects. They are parameters:
- a clock value `now`;
- the stored entry;
- the registry;
- the outcome of an asynchronous step.

A timer firing, or an awaited step finishing, is a separate function
applied to the state. `Common` holds the string and sequence helpers the
JavaScript built-ins need:
- `includes`, `split`, `join` and `trim`;
- `toLowerCase` on ASCII and on the Latin-1 capitals (U+00C0 to U+00DE except U+00D7); other scripts are left as they are;
- stable filtering, first-wins de-duplication;
- `splice` moves.

Where a comment in the code and the code disagree, the model follows the
code.

## Model

| member | source | states |
|---|---|---|
| AppBackup.NumericPoints | app/app-backup.js:135 | the points are, in order and one for one, the entries with two numeric coordinates; no other point appears |
| AppBackup.DropRepeats | app/app-backup.js:136 | exactly the points the index filter keeps: the first, and each one that differs from its predecessor in the input, in order; so no point equals the one before it, and the first and last stay |
| AppBackup.KeptFromLast | app/app-backup.js:136 | the filter over a list is the filter over all but its last point plus the verdict on the last point |
| AppBackup.DropRepeatsFixed | app/app-backup.js:136 | a run without repeats passes unchanged |
| AppBackup.SanitizeWaypoints | app/app-backup.js:133-138 | no waypoints give the empty list; otherwise the result is empty or has at least two points; when not empty, it is exactly the numeric points in order with every point equal to its predecessor dropped; it is non-empty whenever at least two such points remain |
| AppBackup.SanitizeIdempotent | app/app-backup.js:133-138 | sanitising the sanitised points returns them unchanged |
| AppBackup.NumericOfNumeric | app/app-backup.js:135 | points that are all numeric are all kept |
| AppBackup.Ids | app/app-backup.js:679-680 | exactly the ids of the elements on the canvas |
| AppBackup.CleanOrphanedRelations | app/app-backup.js:690-701 | the valid and orphaned relations split the stored ones: disjoint keys that cover them and counts that sum to the original; valid exactly when child and parent both exist |
| AppBackup.StoredRelations | app/app-backup.js:705-712 | nothing is stored exactly when every relation is orphaned; otherwise the valid relations |
| AppBackup.CleanIdempotent | app/app-backup.js:690-701 | cleaning the valid relations again finds no orphan |
| AppBackup.AllAttachedKept | app/app-backup.js:690-701 | relations whose ends all exist are all kept and none is orphaned |
| AppBackup.IsProjectFile | app/app-backup.js:1011-1013 | a project when the name ends in `.mmproject` or `.json`, or the trimmed content opens with `{` |
| AppBackup.XmlFileIsNotProject | app/app-backup.js:1011-1013 | a `.bpmn` file whose content starts with `<` is read as a diagram, not a project |
| AppBackup.FindDiagram | app/app-backup.js:1105-1121 | `bpmnDiagram` when set; else `panels.bpmn.diagram` when set; else `diagram` when set; else none |
| PpiModel.OverlayEmpty | app/modules/ppis/core/ppi-core.js:80-85 | spreading an update with no keys leaves a record as it was |
| PpiModel.OverlayIdempotent | app/modules/ppis/core/ppi-core.js:80-85 | spreading the same update twice equals spreading it once |
| PpiModel.OverlayThen | app/modules/ppis/core/ppi-core.js:80-85 | two successive spreads equal one spread of the combined update, later keys winning |
| PpiCore.IndexOfId | app/modules/ppis/core/ppi-core.js:78 | the index found holds the id and no earlier record does; none exactly when no record has the id |
| PpiCore.IndexOfElement | app/modules/ppis/core/ppi-core.js:66 | the index found is the first record bound to the element; none exactly when no record is bound to it |
| PpiCore.ForElement | app/modules/ppis/core/ppi-core.js:300-302 | exactly the records bound to the element, in their stored order |
| PpiCore.AddPpi | app/modules/ppis/core/ppi-core.js:64-75 | the new record ends up last; an unbound record is simply appended; the list keeps its length exactly when an earlier record was bound to the same element; no record bound elsewhere is lost and nothing else is added |
| PpiCore.AddKeepsBindingsUnique | app/modules/ppis/core/ppi-core.js:64-75 | adding preserves "at most one record per canvas element", and the new record is then the only one bound to its element |
| PpiCore.ForElementOnly | app/modules/ppis/core/ppi-core.js:300-302 | a list whose last record is the only one bound to its element answers exactly that record for the element |
| PpiCore.RenameFirstChild | app/modules/ppis/core/ppi-core.js:98-127 | only the first Target (or Scope) child of the PPI shape, in canvas order, is renamed; every other element is unchanged; without such a child nothing changes |
| PpiCore.HasFirstChild | app/modules/ppis/core/ppi-core.js:98-127 | when the shape has a Target (or Scope) child, there is a first one in canvas order |
| PpiCore.RenameKeepsFirstChild | app/modules/ppis/core/ppi-core.js:98-127 | renaming an element does not change which element is the first Target (or Scope) child of any shape, so the two renames of the form sync do not interfere |
| PpiCore.SyncFormToCanvas | app/modules/ppis/core/ppi-core.js:87-128 | ids, types and parents of the canvas never change; an update that does not come from the form, or whose PPI is not on the canvas, leaves the canvas untouched; otherwise the first Target child of the PPI shape takes the form's target and the first Scope child takes its scope, and no other element is renamed |
| PpiCore.Merged | app/modules/ppis/core/ppi-core.js:80-85 | every field the update carries (id, binding link, origin and update time aside) replaces the stored one and every field it omits keeps its value; id, binding link and origin stay; the update time becomes the clock reading |
| PpiCore.UpdatePpi | app/modules/ppis/core/ppi-core.js:77-139 | found exactly when some record has the id; an unknown id changes neither the list nor the canvas; otherwise the first record with the id becomes the merged record, the others stay as they were, and the canvas is the form-to-canvas sync for that record's element |
| PpiCore.FormUpdateRenamesTarget | app/modules/ppis/core/ppi-core.js:77-128 | a form update with a target, for a PPI whose shape has a Target child, gives the first such child the new target as its name |
| PpiCore.RemoveFromCanvas | app/modules/ppis/core/ppi-core.js:166-290 | the PPI shape is gone, together with exactly its Scope, Target, Measure and Condition children; every other element stays |
| PpiCore.Purge | app/modules/ppis/core/ppi-core.js:304-317 | an order-preserving subsequence holding exactly the records that are unbound or whose element is on the canvas; the list is unchanged exactly when every record is kept |
| PpiCore.PurgeIdempotent | app/modules/ppis/core/ppi-core.js:304-317 | purging twice equals purging once |
| PpiCore.DeletePpi | app/modules/ppis/core/ppi-core.js:142-164 | found exactly when some record has the id; an absent id changes nothing; without a canvas exactly the first record with the id is removed; with one the canvas loses that record's shape and children, and the list is the rest, in order, minus exactly the records orphaned by that removal |
| PpiCore.AddThenDeleteRestores | app/modules/ppis/core/ppi-core.js:64-164 | deleting an unbound record just added under a fresh id gives the old list back |
| PpiCore.DeleteUnbindsElement | app/modules/ppis/core/ppi-core.js:142-164 | after deleting a bound record no record is bound to its element any more |
| PpiCore.FilterPpis | app/modules/ppis/core/ppi-core.js:1297-1317 | an order-preserving subsequence holding exactly the records that match the search text, the type and the status; 'linked' means a truthy element id |
| PpiCore.LinkedUnlinkedSplit | app/modules/ppis/core/ppi-core.js:1307-1311 | the 'linked' and 'unlinked' views together count every record once |
| PpiCore.DetectMeasureType | app/modules/ppis/core/ppi-core.js:1341-1353 | the first of time, count, data, state and aggregated that the lower-cased id or type contains, in that order, else derived; stated as one if-and-only-if per result |
| PpiCore.DetectIgnoresCase | app/modules/ppis/core/ppi-core.js:1341-1353 | lower-casing the id and type first gives the same answer |
| PpiCore.GetStatistics | app/modules/ppis/core/ppi-core.js:1400-1410 | the total is the list length; the linked and time counts never exceed it; the linked count is zero exactly when no record has an element id, the time count exactly when no record's measure is of type time |
| PpiCore.StatisticsMatchFilter | app/modules/ppis/core/ppi-core.js:1297-1410 | the linked count equals the size of the 'linked' filter view and the time count the size of the 'time' type view |
| PpiCore.TruncateText | app/modules/ppis/core/ppi-core.js:1457-1460 | falsy text gives ""; text that fits comes back unchanged; longer text keeps its first maxLength characters and gains "...", for a length of maxLength+3 |
| PpiCore.CollectEntries | app/modules/ppis/core/ppi-core.js:1438-1440 | one key per submitted entry key, every value trimmed |
| PpiCore.CollectEntriesLast | app/modules/ppis/core/ppi-core.js:1438-1440 | each collected value is the trimmed value of the last entry with that key |
| PpiCore.SplitItems | app/modules/ppis/core/ppi-core.js:1450-1452 | one item per comma-separated piece of the value, in order, each the trimmed piece; none holds a comma or surrounding spaces |
| PpiCore.SplitItemsJoin | app/modules/ppis/core/ppi-core.js:1450-1452 | trimmed, comma-free items joined with commas split back into the same items |
| PpiCore.FoldMeasure | app/modules/ppis/core/ppi-core.js:1442-1448 | with a non-empty measure type and definition, the two fold into one definition record and the type key goes; otherwise nothing changes |
| PpiCore.ParseFormData | app/modules/ppis/core/ppi-core.js:1436-1455 | every submitted key survives except a folded measure type; the measure definition becomes a definition record exactly when both it and the measure type are non-empty; a non-empty informed value becomes its split items; every other value is the trimmed last value of its key |
| PpiCore.ParseFormFolds | app/modules/ppis/core/ppi-core.js:1436-1455 | a form with a non-empty, trimmed measure type and measure definition reads back as the one key `measureDefinition` holding both |
| PpiCore.ParseFormInformed | app/modules/ppis/core/ppi-core.js:1436-1455 | a form with only a non-blank `informed` value reads back as the one key `informed` holding the split items of the trimmed value |
| PpiPanel.ValidateSmart | app/js/panels/ppi/index.js:296-323 | valid exactly when the definition has at least 10 characters, target and source are set, a responsible is named, the business objective has at least 10 characters and a scope is set |
| PpiPanel.ValidateSmartReportsFirstFailure | app/js/panels/ppi/index.js:296-323 | an invalid verdict carries the message of the first failing criterion in the order specific, measurable, achievable, relevant, time-bound |
| PpiPanel.InferMeasureType | app/js/panels/ppi/index.js:940-958 | the first of the time, count, state, data, derived and aggregated keyword lists that the lower-cased definition hits, in that order, and time when none is hit; stated as one if-and-only-if per result |
| PpiPanel.InferIgnoresCase | app/js/panels/ppi/index.js:940-958 | lower-casing the definition first gives the same answer |
| PpiPanel.InferPrefersStateOverData | app/js/panels/ppi/index.js:946-949 | a definition mentioning state and data but no time or count word is a state measure for the panel while the core's detection calls it a data measure |
| PpiPanel.FieldOfKey | app/js/panels/ppi/index.js:902-930 | a recognised line key names the field whose label it is |
| PpiPanel.ParseLine | app/js/panels/ppi/index.js:897-901 | a reading exists only when the text before the first ':' is non-empty and, trimmed and lower-cased, is a known key; its field is that key's and its value the trimmed rest after that ':'; no reading means no such key before the first ':' |
| PpiPanel.ParseLines | app/js/panels/ppi/index.js:893-896 | one reading per line, every value trimmed |
| PpiPanel.Collect | app/js/panels/ppi/index.js:896-932 | a field is set exactly when some line sets it, and every value is trimmed |
| PpiPanel.CollectTakesLastLine | app/js/panels/ppi/index.js:896-932 | each set field holds the value of the last line that sets it |
| PpiPanel.ParseTextContent | app/js/panels/ppi/index.js:892-938 | succeeds exactly when some line sets the measure definition (otherwise the source throws); the measure type is inferred from that definition; every value is trimmed |
| PpiPanel.ParseRenderLine | app/js/panels/ppi/index.js:897-901 | a `key: value` line written for a field reads back as that field and value |
| PpiPanel.CollectAllParsed | app/js/panels/ppi/index.js:896-932 | lines that all parse give the map of their entries, later lines winning |
| PpiPanel.RenderedSplits | app/js/panels/ppi/index.js:893 | text written one field per line splits back into exactly those lines |
| PpiPanel.CollectRendered | app/js/panels/ppi/index.js:892-932 | reading written lines recovers the map of the written fields |
| PpiPanel.ParseRenderRoundTrip | app/js/panels/ppi/index.js:892-938 | writing fields as text and importing the text gives back exactly those fields, with the type inferred from the definition |
| PpiPanel.SpecificKeys | app/js/panels/ppi/index.js:349-379 | some keys exactly for the six known measure types, at most three for each |
| PpiPanel.GetMeasureSpecificData | app/js/panels/ppi/index.js:349-379 | exactly the selected type's keys, each holding the form's value or undefined; an unknown type gives an empty object |
| PpiPanel.UpdatePpi | app/js/panels/ppi/index.js:391-400 | true exactly when a record has the id; otherwise the list is unchanged; the length never changes and only the first record with the id is replaced by the spread |
| PpiPanel.DeletePpi | app/js/panels/ppi/index.js:402-411 | true exactly when a record has the id; otherwise the list is unchanged; else exactly the first record with the id is removed |
| PpiPanel.PpisForElement | app/js/panels/ppi/index.js:1021-1025 | an order-preserving subsequence of exactly the records that link to the element under some link type |
| PpiPanel.CleanupBpmnLinks | app/js/panels/ppi/index.js:975-987 | every record keeps its place and loses exactly the link entries whose value is the element; no record links to it afterwards |
| PpiPanel.CleanupUnlinks | app/js/panels/ppi/index.js:975-987 | after the clean-up no record is found for the element, and a second clean-up changes nothing |
| PpiPanel.LinkToBpmnElement | app/js/panels/ppi/index.js:1010-1019 | true exactly when a record has the id; otherwise nothing changes; else only the first record with the id changes, and it links to the element under the link type |
| PpiPanel.LinkThenFound | app/js/panels/ppi/index.js:1010-1025 | after linking, the record is among those found for the element |
| RasciMatrix.Preserve | app/modules/rasci/core/matrix-manager.js:1440-1458 | every task keeps an entry, holding exactly the cells whose value is one of R, A, S, C, I, with that value |
| RasciMatrix.Restore | app/modules/rasci/core/matrix-manager.js:1461-1480 | no task or role key is added; exactly the preserved cells whose task row exists and whose cell is defined are overwritten, the rest keep their value; the count is the number of cells written |
| RasciMatrix.RestorePreservedIsIdentity | app/modules/rasci/core/matrix-manager.js:1440-1480 | restoring what was just preserved leaves the matrix unchanged and counts exactly its lettered cells |
| RasciMatrix.PreserveIdempotent | app/modules/rasci/core/matrix-manager.js:1440-1458 | preserving the preserved cells changes nothing |
| RasciMatrix.CollectNames | app/modules/rasci/core/matrix-manager.js:699-718 | no name twice, and exactly the non-empty names of the wanted elements |
| RasciMatrix.GetBpmnTasks | app/modules/rasci/core/matrix-manager.js:691-721 | no name twice, and exactly the non-empty names (name, else id) of the elements of the ten task types |
| RasciMatrix.RoleLabel | app/modules/rasci/core/matrix-manager.js:1514-1516 | a detected role always has a non-empty label |
| RasciMatrix.DetectRalphRoles | app/modules/rasci/core/matrix-manager.js:1483-1535 | no label twice, and exactly the labels of the RALph role shapes on the canvas |
| RasciMatrix.MergeRoles | app/modules/rasci/core/matrix-manager.js:739-751 | the known roles stay first and in order, the result holds exactly the known and detected roles, and it has no repeats when the known list has none |
| RasciMatrix.EmptyRow | app/modules/rasci/core/matrix-manager.js:1389-1395 | a new task's row has exactly one empty cell per role |
| RasciMatrix.ForceReload | app/modules/rasci/core/matrix-manager.js:1334-1437 | without a modeller nothing changes; outside an import the rows are exactly the current tasks with a cell per role, and each cell holds the old non-empty value of that task and role, or is empty when there was none; during an import existing rows stay as they were and only missing tasks gain an empty row |
| RasciMatrix.RestoreIntoCopy | app/modules/rasci/core/matrix-manager.js:1415-1425 | writing the preserved letters into a matrix that already agrees on them changes nothing |
| RasciMatrix.FillRow | app/modules/rasci/core/matrix-manager.js:764-776 | an existing row keeps its cells and gains an empty cell for each missing role |
| RasciMatrix.FillRows | app/modules/rasci/core/matrix-manager.js:753-778 | new tasks get an empty row, existing rows gain the missing roles, and no other row is added |
| RasciMatrix.KeepTasks | app/modules/rasci/core/matrix-manager.js:790-797 | exactly the rows of the listed tasks remain, unchanged |
| RasciMatrix.UpdateMatrixFromDiagram | app/modules/rasci/core/matrix-manager.js:724-797 | without a modeller nothing changes; otherwise the roles grow by the detected RALph roles, the rows are exactly the diagram's tasks, a task that had a row keeps every old cell and gains an empty cell for each new role, and a new task gets an empty row |
| RasciMatrix.KeyLetter | app/modules/rasci/core/matrix-manager.js:536-538 | a key is taken as a letter only when it is one character that upper-cases to one of R, A, S, C, I |
| RasciMatrix.KeyDown | app/modules/rasci/core/matrix-manager.js:535-646 | a letter key writes the letter into the cell and nothing else, unless it is a second R or A for the task, which changes nothing; a clear key removes a filled cell and nothing else; any other key changes nothing |
| RasciMatrix.LetterMentions | app/modules/rasci/core/matrix-manager.js:546-547 | a single letter mentions R (or A) exactly when it is that letter |
| RasciMatrix.KeyDownKeepsAtMostOneRA | app/modules/rasci/core/matrix-manager.js:541-571 | from a matrix where no task has two R or two A cells, every key keeps it so |
| RasciMatrix.SingleAfterWrite | app/modules/rasci/core/matrix-manager.js:541-585 | writing one cell keeps a letter single when the new value does not mention it or no other cell did |
| RasciMatrix.AddNewRoleAsWritten | app/modules/rasci/core/matrix-manager.js:844-850 | the old roles stay, in order, and one role named after the list's length plus one is appended |
| RasciMatrix.AddNewRoleDuplicates | app/modules/rasci/core/matrix-manager.js:844-850 | starting from ["Rol 2"], which has no repeats, the source's naming appends a second "Rol 2" |
| RasciMatrix.RoleNameInjective | app/modules/rasci/core/matrix-manager.js:848 | different numbers give different role names |
| RasciMatrix.FreeNameExists | app/modules/rasci/core/matrix-manager.js:848 | among the numbers from |roles|+1 to 2|roles|+1 one gives a name not yet taken |
| RasciMatrix.FreeNameFrom | app/modules/rasci/core/matrix-manager.js:848 | a role name not taken, numbered within the bound; the first candidate itself when it is free |
| RasciMatrix.AddNewRole | app/modules/rasci/core/matrix-manager.js:844-850 | the old roles stay, in order, and the appended role is not among them, so a list without repeats keeps none; it agrees with the source whenever the source's name is free |
| RasciMapping.GetElementName | app/js/panels/rasci-mapping-consolidated.js:6-12 | the business-object name when there is one, else the id when there is one, else "unnamed"; a missing element gives "undefined" |
| RasciMapping.RolesWith | app/js/panels/rasci-mapping-consolidated.js:1093-1112 | exactly the roles whose cell holds that letter, no more of them than cells |
| RasciMapping.LettersAreNotSkipped | app/js/panels/rasci-mapping-consolidated.js:1096-1099 | the empty-or-"-" skip never hides one of the five letters |
| RasciMapping.SingleNotSkipped | app/js/panels/rasci-mapping-consolidated.js:1096-1099 | a single non-space character other than "-" is never skipped |
| RasciMapping.ClassesDisjoint | app/js/panels/rasci-mapping-consolidated.js:1093-1112 | with distinct role keys a role lands in at most one of the R, S and A lists |
| RasciMapping.Wire | app/js/panels/rasci-mapping-consolidated.js:1115-1179 | nothing is wired exactly when there is no R and no S role; a direct assignment exactly when there is one R role and no S role, to that role; otherwise an AND gate over the R roles followed by the S roles |
| RasciMapping.FindResponsibleRole | app/js/panels/rasci-mapping-consolidated.js:3182-3197 | nothing for a task without a row; a role only when its cell is R and no second cell is R; nothing exactly when no cell or two cells are R |
| RasciMapping.TwoIffMany | app/js/panels/rasci-mapping-consolidated.js:3189-3196 | two or more roles are listed exactly when two cells hold the letter |
| RasciMapping.NoneIffEmpty | app/js/panels/rasci-mapping-consolidated.js:3189-3196 | no role is listed exactly when no cell holds the letter |
| RasciMapping.Chain | app/js/panels/rasci-mapping-consolidated.js:787-799 | one special element per listed role, consultations, approvals and informations together |
| RasciMapping.ChainOrder | app/js/panels/rasci-mapping-consolidated.js:787-799 | when no role is in two lists, the chain is every "Consultar" event, then every "Aprobar" user task, then every "Informar" event, each in its list's order |
| RasciMapping.ActiveRoles | app/js/panels/rasci-mapping-consolidated.js:345-357 | exactly the roles with some non-empty cell other than "-" |
| RasciMapping.ExpectedApprovalTasks | app/js/panels/rasci-mapping-consolidated.js:1011-1020 | exactly "Aprobar <role>" for every cell holding A |
| RasciMapping.ApprovalsBelongToActiveRoles | app/js/panels/rasci-mapping-consolidated.js:345-357 | every expected approval task is named after an active role |
| RasciMapping.ChainElementsSurviveCleanup | app/js/panels/rasci-mapping-consolidated.js:375-400 | every special element the chain of a task creates is one the clean-up finds it should keep |
| RasciMapping.Settle | app/js/panels/rasci-mapping-consolidated.js:103-124 | at most 20 moves from the start; the point stays on the grid columns and never moves up |
| RasciMapping.ProbeOnGrid | app/js/panels/rasci-mapping-consolidated.js:116-121 | each move keeps x on the columns 100, 300, ..., 1100 and never decreases y |
| RasciMapping.GridStartOnGrid | app/js/panels/rasci-mapping-consolidated.js:94-100 | the grid cell for n existing roles lies on one of the columns |
| RasciMapping.RolePosition | app/js/panels/rasci-mapping-consolidated.js:82-124 | the first role goes to (100, 100); every role lands on a grid column, no higher than its grid cell, reached within 20 moves |
| RasciMapping.FindRoleShape | app/js/panels/rasci-mapping-consolidated.js:66-69 | a role shape with that name, or none exactly when no role shape carries it |
| RasciMapping.CreateRalphRole | app/js/panels/rasci-mapping-consolidated.js:61-124 | an existing role shape is reused exactly when one carries the name; otherwise the new shape is placed where the grid search puts it |
| RasciMapping.Visit | app/js/panels/rasci-mapping-consolidated.js:649-692 | the visited set only grows and any answer is a task-typed element of the registry; without an answer the element is visited and every element visited in the call had all its outgoing flows followed |
| RasciMapping.Scan | app/js/panels/rasci-mapping-consolidated.js:660-689 | the visited set only grows and any answer is a task-typed element of the registry; without an answer no listed flow leads to a task the search stops at and every walk-through target it leads to is visited |
| RasciMapping.FindNextTask | app/js/panels/rasci-mapping-consolidated.js:644-699 | the answer, if any, is a task-typed element of the registry |
| RasciMapping.DirectSuccessor | app/js/panels/rasci-mapping-consolidated.js:660-680 | a task reached by the first outgoing flow, and not itself a special element, is the answer |
| RasciMapping.ScannedHoldsChain | app/js/panels/rasci-mapping-consolidated.js:649-692 | along a chain of walk-through elements, every element before the last is visited by a search that followed the flows of everything it visited |
| RasciMapping.ChainedTaskIsFound | app/js/panels/rasci-mapping-consolidated.js:644-699 | whenever a chain of flows leads from the current task through special elements and gateways to a task that is not a special element, some next task is found; so no answer means no such chain exists |
| MainMapper.RowRolesMembers | app/modules/rasci/mapping/main-mapper.js:159-163 | a row contributes exactly the roles of its non-empty cells other than "-" |
| MainMapper.ExpectedRoles | app/modules/rasci/mapping/main-mapper.js:155-176 | the roles with some cell that is non-empty and not "-"; its membership is stated by ExpectedRolesMembers |
| MainMapper.ExpectedRolesMembers | app/modules/rasci/mapping/main-mapper.js:155-176 | a role is expected exactly when some task's cell for it is non-empty and not "-" |
| MainMapper.ExpectedRolesAreActive | app/modules/rasci/mapping/main-mapper.js:155-176 | the selective clean-up expects exactly the roles the consolidated mapping counts as active |
| MainMapper.CellSpecials | app/modules/rasci/mapping/main-mapper.js:165-173 | an A cell keeps "Aprobar <task>", "Aprobar <role> para <task>" and "Aprobar <role>"; a C cell keeps "Consultar <role>"; an I cell keeps "Informar <role>"; any other value keeps nothing |
| MainMapper.RowSpecialsMembers | app/modules/rasci/mapping/main-mapper.js:159-174 | a row keeps exactly the names its assigned cells ask for |
| MainMapper.ExpectedSpecialElements | app/modules/rasci/mapping/main-mapper.js:155-176 | the special names the assigned cells ask for; its membership is stated by ExpectedSpecialsMembers |
| MainMapper.ExpectedSpecialsMembers | app/modules/rasci/mapping/main-mapper.js:155-176 | a special name is expected exactly when some assigned cell of some task asks for it |
| MainMapper.ApprovalVariantsExpected | app/modules/rasci/mapping/main-mapper.js:165-168 | an A cell keeps all three approval spellings alive |
| MainMapper.ShouldExistIsExpected | app/modules/rasci/mapping/main-mapper.js:155-176 | every special name the consolidated clean-up keeps is kept by the selective clean-up too |
| MainMapper.ChainSurvivesSelectiveCleanup | app/modules/rasci/mapping/main-mapper.js:196-208 | the selective clean-up never removes an element of a task's chain of consultations, approvals and informations |
| MainMapper.ApprovalTasksExpected | app/modules/rasci/mapping/main-mapper.js:165-168 | every approval task the consolidated mapping expects is expected here |
| MainMapper.SelectiveCleanup | app/modules/rasci/mapping/main-mapper.js:147-236 | step 1 selects exactly the named role shapes no assigned cell names; step 2 selects, among the elements left after step 1, exactly the special elements whose name is not expected; step 3 selects, among those left after step 2, exactly the arcs and associations with a missing end; each removal also drops the attached connections; the count is the number of selected elements, and no element is selected twice |
| MainMapper.RemoveElements | app/modules/rasci/mapping/main-mapper.js:188-192 | an element survives `removeElements` exactly when it is not removed and not attached to a removed element, in its old order, and no removed element remains |
| MainMapper.CleanupLeavesOnlyExpected | app/modules/rasci/mapping/main-mapper.js:147-236 | after the clean-up every element left was in the registry and was not counted, every named role shape left is assigned by a cell, and every special element left is expected |
| MainMapper.StaleRoleCountedOnce | app/modules/rasci/mapping/main-mapper.js:178-215 | a stale role shape whose name reads as a special element's is removed in step 1 only and counted once |
| MainMapper.SortRow | app/modules/rasci/mapping/main-mapper.js:268-287 | the R, S and A lists of a row; SortRowIsClassify states that they equal the consolidated mapping's |
| MainMapper.SortRowIsClassify | app/modules/rasci/mapping/main-mapper.js:268-287 | the mapper's R, S and A lists equal the consolidated mapping's, cell for cell and in order |
| MainMapper.ApprovalRole | app/modules/rasci/mapping/main-mapper.js:1039-1048 | the role named by an approval task; ApprovalRoleOf and the two round-trip lemmas state what it reads |
| MainMapper.ApprovalRoleOf | app/modules/rasci/mapping/main-mapper.js:1039-1048 | on "Aprobar <rest>" the role is the text of the rest before " para " when the name holds " para ", else the whole rest |
| MainMapper.ApprovalRoleRoundTrip | app/modules/rasci/mapping/main-mapper.js:1039-1048 | the role is read back from "Aprobar <role> para <task>" |
| MainMapper.ApprovalRoleRoundTripShort | app/modules/rasci/mapping/main-mapper.js:1046-1047 | the role is read back from "Aprobar <role>" |
| MainMapper.IncomingAreFlows | app/modules/rasci/mapping/main-mapper.js:48-51 | the listed connections are sequence flows entering the element |
| MainMapper.TryIncoming | app/modules/rasci/mapping/main-mapper.js:53-57 | the visited set only grows; true only when a chain of flows leads from the target to the element; on false every listed flow's registered source is visited, every element the loop visited had all its incoming flows followed, and the target was not visited |
| MainMapper.Connected | app/modules/rasci/mapping/main-mapper.js:36-60 | a missing element gives false; the visited set only grows; true only when a chain of sequence flows leads from the target to the source; on false the source is visited, every element visited in the call had all its registered predecessors visited, and the target was not visited |
| MainMapper.IsConnectedToTask | app/modules/rasci/mapping/main-mapper.js:36-60 | true only along a chain of sequence flows from the target to the source, and always for an element and itself |
| MainMapper.FlowIsIncoming | app/modules/rasci/mapping/main-mapper.js:46-51 | on a registry whose flows have targets and registered sources, every flow is among the incoming flows of its target |
| MainMapper.ExploredHoldsChain | app/modules/rasci/mapping/main-mapper.js:36-60 | a set holding the registered predecessors of each of its elements and the end of a chain of flows holds the chain's start |
| MainMapper.IsConnectedToTaskComplete | app/modules/rasci/mapping/main-mapper.js:36-60 | on a registry whose flows have targets and registered sources, the answer is true whenever a chain of sequence flows leads from the target to the source |
| LocalAutosave.LoadFromStorage | app/modules/ui/managers/localstorage-autosave-manager.js:312-347 | a draft comes back exactly when one is stored, it is at most three hours old and it has content (non-blank XML, some indicator or some role), and it comes back unchanged; an expired entry is removed from storage, any other stays |
| LocalAutosave.SaveThenLoad | app/modules/ui/managers/localstorage-autosave-manager.js:296-347 | a draft with content saved at t loads back unchanged at any time up to three hours later |
| LocalAutosave.ExpiredStaysExpired | app/modules/ui/managers/localstorage-autosave-manager.js:322-327 | once an entry has expired and been removed, no later load returns it |
| LocalAutosave.LoadState | app/modules/ui/managers/localstorage-autosave-manager.js:412-435 | true exactly when a draft loads and carries metadata, which implies it has not expired |
| LocalAutosave.SaveState | app/modules/ui/managers/localstorage-autosave-manager.js:362-410 | saved exactly when not suspended, at least 2000 ms after the last successful save, and the capture and the write succeed; the last-save time moves only on success; suspension never changes |
| LocalAutosave.SavesAreSpaced | app/modules/ui/managers/localstorage-autosave-manager.js:371-374 | two successive successful saves are at least 2000 ms apart |
| LocalAutosave.FailedSaveKeepsThrottle | app/modules/ui/managers/localstorage-autosave-manager.js:394-398 | a failed save leaves the last-save time where it was |
| LocalAutosave.ForceRestore | app/modules/ui/managers/localstorage-autosave-manager.js:1070-1088 | nothing changes when no draft loads; otherwise the result is the restore's outcome, saving is resumed afterwards, and the metadata's last-save time becomes the loaded draft's; the throttle's last save time is untouched |
| LocalAutosave.SaveThenRestore | app/modules/ui/managers/localstorage-autosave-manager.js:412-420 | restoring a draft within three hours of saving it brings back the last-save time it was stored with |
| LocalAutosave.SaveAfterRestore | app/modules/ui/managers/localstorage-autosave-manager.js:1070-1088 | after a restore that loaded a draft, the next save past the throttle succeeds when capture and write do |
| LocalAutosave.HoursFromMinutes | app/modules/ui/managers/localstorage-autosave-manager.js:210-211 | flooring minutes to hours equals flooring milliseconds to hours |
| LocalAutosave.DaysFromHours | app/modules/ui/managers/localstorage-autosave-manager.js:211-212 | flooring hours to days equals flooring milliseconds to days |
| LocalAutosave.TimeAgo | app/modules/ui/managers/localstorage-autosave-manager.js:207-223 | the largest whole unit elapsed: days when at least one day has passed, else hours (1 to 23), else minutes (1 to 59), else less than a minute |
| LocalAutosave.Counted | app/modules/ui/managers/localstorage-autosave-manager.js:214-220 | the count's decimal digits, a space, the unit, and a final "s" exactly when the count is above one |
| LocalAutosave.CountedInjective | app/modules/ui/managers/localstorage-autosave-manager.js:214-220 | two wordings of one unit are equal only for equal counts, so the count can be read back |
| LocalAutosave.GetTimeAgo | app/modules/ui/managers/localstorage-autosave-manager.js:207-223 | "menos de 1 minuto" exactly below one minute; otherwise the count of whole days, else hours, else minutes, worded with "día", "hora" or "minuto" |
| LocalAutosave.OneDay | app/modules/ui/managers/localstorage-autosave-manager.js:207-223 | the wording is "1 día" exactly when at least one and under two days have passed |
| LocalAutosave.OneHour | app/modules/ui/managers/localstorage-autosave-manager.js:207-223 | the wording is "1 hora" exactly when at least one and under two hours have passed |
| LocalAutosave.OneMinute | app/modules/ui/managers/localstorage-autosave-manager.js:207-223 | the wording is "1 minuto" exactly when at least one and under two minutes have passed |
| LocalAutosave.KeptPpis | app/modules/ui/managers/localstorage-autosave-manager.js:947-957 | exactly the stored PPIs that are present, bound and whose element exists (or that cannot be checked), never more than stored |
| LocalAutosave.AddPpiBinds | app/modules/ppis/core/ppi-core.js:64-75 | adding a record keeps every element binding and adds the new record's |
| LocalAutosave.AddAll | app/modules/ui/managers/localstorage-autosave-manager.js:951-956 | the store only gains records from the input, keeps one record per element, and binds every element the store or the input bound |
| LocalAutosave.RestorePpiState | app/modules/ui/managers/localstorage-autosave-manager.js:936-964 | the store holds only bound records that were stored, one per element, and binds every surviving element; the stored list is kept when no bound entry was dropped and otherwise becomes exactly the kept records, in order |
| AutosaveService.MarkAsChanged | app/services/autosave-manager.js:42-59 | the project becomes dirty; a timer is armed only when autosave is enabled, not suspended and no timer handle is held; nothing else changes |
| AutosaveService.BeginAutosave | app/services/autosave-manager.js:61-70 | a save is refused, leaving the state untouched, exactly while a save runs ("Already saving"), while suspended ("Suspended") or with nothing to save ("no changes"), in that priority; otherwise it starts and the timer handle is dropped |
| AutosaveService.FinishAutosave | app/services/autosave-manager.js:88-127 | whatever the outcome the save is no longer running; the dirty flag survives only a failed save |
| AutosaveService.TimerFires | app/services/autosave-manager.js:56-70 | the pending callback is consumed; when the save it triggers is refused the timer handle is kept as it was |
| AutosaveService.Suspend | app/services/autosave-manager.js:766-772 | suspended with no timer pending or held; the dirty, saving and enabled flags are kept |
| AutosaveService.Resume | app/services/autosave-manager.js:774-779 | no longer suspended; an enabled autosaver with pending changes has a timer armed again, any other only loses its suspension |
| AutosaveService.ChangeDuringSaveIsForgotten | app/services/autosave-manager.js:42-90 | a change made while a save runs is no longer marked dirty after that save succeeds |
| AutosaveService.StaleHandleStopsAutosave | app/services/autosave-manager.js:56-70 | a concrete run in which the timer fires during a save, is refused and keeps its handle, after which a new change on an enabled, unsuspended autosaver arms no timer |
| AutosaveService.TimerFiresCorrected | app/services/autosave-manager.js:56-70 | with the handle dropped as the callback fires, no timer is pending or held afterwards and the save is started or refused exactly as a direct save would be |
| AutosaveService.CorrectedStaysHealthy | app/services/autosave-manager.js:42-70 | with the corrected callback every operation keeps "a held handle means a pending callback", so a change on an enabled, unsuspended autosaver always arms a timer |
| AutosaveService.ForceRestore | app/services/autosave-manager.js:513-590 | a missing draft, one older than the time-to-live or one without a project gives false and leaves the autosaver alone; true only when the restore itself succeeded; autosave is resumed after any restore that went ahead |
| AutosaveService.RestoreReschedules | app/services/autosave-manager.js:513-590 | a restore that goes ahead on an enabled, dirty autosaver ends unsuspended with a save scheduled |
| AutosaveService.VisualType | app/services/autosave-manager.js:236-245 | an id with a known PPINOT prefix gets the type of a prefix it starts with |
| AutosaveService.Nearest | app/services/autosave-manager.js:260-284 | a parent found by proximity is a PPI shape closer than 500 and no other PPI shape is closer |
| AutosaveService.Closest | app/services/autosave-manager.js:262-278 | some PPI shape is closest exactly when there is one, and none is nearer than it |
| AutosaveService.CaptureVisual | app/services/autosave-manager.js:236-305 | the entry keeps the element's id and box and takes the type of its id prefix; its name is the first truthy of the business-object name, its body and its first label's body, else its id; its parent is its own parent shape, else its semantic parent, else a PPI shape within 500 (none when no PPI shape is that near); it is not marked as a main PPI |
| AutosaveService.NearbyPpiBecomesParent | app/services/autosave-manager.js:247-284 | an element with neither kind of parent and a PPI shape within 500 gets as parent a PPI shape that no other PPI shape is nearer to |
| AutosaveService.CapturePpi | app/services/autosave-manager.js:311-320 | the entry keeps the shape's id, type and box, takes its name or else its id, has no parent and is a main PPI |
| AutosaveService.CapturePpinot | app/services/autosave-manager.js:173-369 | the captured list is the visual PPINOT elements followed by the PPI shapes, with every entry after the first of its id dropped: it is a subsequence of that list, has no repeated id, keeps exactly the first entry of each id, and every such element of the canvas has an entry with its id; no non-main entry is a label |
| AutosaveService.CaptureBoth | app/services/autosave-manager.js:231-354 | the list before de-duplication, built from the canvas's visual PPINOT elements and PPI shapes: one entry per visual PPINOT element, in canvas order, then one per PPI shape, in canvas order |
| AutosaveService.VisualWinsOverPpi | app/services/autosave-manager.js:356-369 | a PPI shape's entry survives de-duplication only when no visual PPINOT element shares its id |
| PpiManager.RefreshPpiList | app/modules/ppis/ppi-manager.js:1332-1384 | an open circuit refuses every call for ten seconds after the last refresh; a refresh closer than 100 ms to the last is refused without any change; a refresh that goes through needed a mounted list, stamps the clock, and hands its attempt back |
| PpiManager.RefreshKeepsBreakerOk | app/modules/ppis/ppi-manager.js:1332-1358 | every call keeps the attempt counter between 0 and one over the limit of ten, with the circuit open exactly when it is over |
| PpiManager.EleventhAttemptOpens | app/modules/ppis/ppi-manager.js:1351-1358 | the call that makes the eleventh outstanding attempt opens the circuit and refreshes nothing, and every call in the next ten seconds is refused |
| PpiManager.RefreshesAreSpaced | app/modules/ppis/ppi-manager.js:1346-1351 | two refreshes that go through one after the other are at least 100 ms apart |
| PpiManager.MarkDeleted | app/modules/ppis/ppi-manager.js:278-284 | the removed element is stamped with the clock; every other element keeps its stamp |
| PpiManager.NewPpi | app/modules/ppis/ppi-manager.js:737-768 | the new record is bound to the element, has the fresh id, and is titled after the element's trimmed name or, when that is blank, the element id |
| PpiManager.CreatePpiFromElement | app/modules/ppis/ppi-manager.js:729-775 | nothing happens while deleting or within 1500 ms of the element's removal; otherwise the store gains, at its end, a record bound to the element with the fresh id |
| PpiManager.NoRecreationWithinCooldown | app/modules/ppis/ppi-manager.js:729-736 | a shape removed at t gets no new record at any time before t + 1500 ms |
| PpiManager.CheckForOrphanedPpis | app/modules/ppis/ppi-manager.js:510-521 | a record stays exactly when it is unbound or its element is on the canvas |
| PpiManager.OrphanCheckIsPurge | app/modules/ppis/ppi-manager.js:510-521 | the manager's orphan check removes exactly what the store's purge removes |
| PpiManager.RemovePpiFromList | app/modules/ppis/ppi-manager.js:942-1000 | nothing while the key is being removed; else the first record bound to element key goes with every record sharing its id; else the record with id key is deleted through the store, which shrinks it; else orphans are purged when a canvas is at hand |
| PpiManager.RemoveUnbindsElement | app/modules/ppis/ppi-manager.js:942-965 | when each element has at most one record, removing an element's record leaves no record bound to it |
| PpiManager.PpisForElement | app/modules/ppis/ppi-manager.js:1400-1415 | exactly the records bound to the element or holding a truthy link under its id, in store order |
| PpiManager.LinkToBpmnElement | app/modules/ppis/ppi-manager.js:1584-1605 | true exactly when a record has the id; only then is that record given a link under the element's id, and the store keeps its length |
| PpiManager.LinkThenFound | app/modules/ppis/ppi-manager.js:1584-1605 | a record just linked to an element is among the records found for that element |
| PpiManager.CleanupBpmnLinks | app/modules/ppis/ppi-manager.js:1607-1620 | every record keeps its place and every field but its links; it keeps each link to another element with the same value; no record keeps a truthy link to the element; and a record changes exactly when it had one |
| PpiManager.CleanupLeavesBoundOnly | app/modules/ppis/ppi-manager.js:1400-1620 | after the clean-up an element is found only through records bound to it |
| PpiSync.QueueSync | app/modules/ppis/ppi-sync-manager.js:337-347 | during a sync the change is appended to the queue in arrival order; otherwise its id joins the pending set and nothing else in the set changes |
| PpiSync.QueueSyncDeduplicates | app/modules/ppis/ppi-sync-manager.js:343-345 | outside a sync, queueing the same change twice leaves the same state as queueing it once |
| PpiSync.DecodeAsWritten | app/modules/ppis/ppi-sync-manager.js:398 | the decoded type holds no underscore, nor does the decoded data; an id without underscore decodes to itself with no data |
| PpiSync.ProcessPendingAsWritten | app/modules/ppis/ppi-sync-manager.js:392-455 | at most one dispatched change per pending id, and only changes of the eight handled types are dispatched |
| PpiSync.PendingChangesAreDropped | app/modules/ppis/ppi-sync-manager.js:392-455 | when every pending id was built from a change of a handled type, none of them is dispatched |
| PpiSync.PpiChangeDecodesToPpi | app/modules/ppis/ppi-sync-manager.js:344-398 | the id of a ppi_change for Task_1 decodes to the type "ppi" |
| PpiSync.DecodeChangeId | app/modules/ppis/ppi-sync-manager.js:344 | a decoded change re-encodes to the id it came from and has a two-word type; no decoding only for ids with fewer than two underscores |
| PpiSync.ChangeIdRoundTrip | app/modules/ppis/ppi-sync-manager.js:344 | every change whose type is two underscore-free words joined by one underscore decodes from its id unchanged |
| PpiSync.ProcessPending | app/modules/ppis/ppi-sync-manager.js:392-455 | with the corrected decoding each dispatched change has a handled type and its id was pending |
| PpiSync.PendingChangesAreProcessed | app/modules/ppis/ppi-sync-manager.js:392-455 | with the corrected decoding every pending change of a handled type is dispatched, in order, with its own data |
| PpiSync.ParentOf | app/modules/ppis/ppi-sync-manager.js:567-583 | a parent found is in the registry under the element's truthy parent id |
| PpiSync.PpiAbove | app/modules/ppis/ppi-sync-manager.js:567-611 | the walk up the parent chain returns the first ancestor, within its bound, that is a PPI shape, and finds none exactly when no ancestor within the bound is one |
| PpiSync.HasPpiParent | app/modules/ppis/ppi-sync-manager.js:588-611 | true exactly when some ancestor, no further up than the registry has shapes, is a PPI shape |
| PpiSync.FindParentPpi | app/modules/ppis/ppi-sync-manager.js:567-585 | a record found belongs to the store and is bound to a PPI shape above the element; nothing is found when no PPI shape is above it |
| PpiSync.FindParentPpiIffRecord | app/modules/ppis/ppi-sync-manager.js:567-585 | for an element under a PPI shape, a record is found exactly when the nearest such shape has a record bound to it |
| PpiSync.SyncMeasureType | app/modules/ppis/ppi-sync-manager.js:708-717 | the first of Time, Count, Data, Condition, Derived and Aggregated that the element type contains, giving time, count, data, state, derived or aggregated, and derived when it contains none; stated as one if-and-only-if per result |
| PpiSync.SyncTimeIsCoreTime | app/modules/ppis/ppi-sync-manager.js:708-717 | whatever this mapping calls a time measure the core's detection calls one too, whatever the id |
| PpiSync.ChildPatch | app/modules/ppis/ppi-sync-manager.js:621-637 | a Target, Scope or Condition child's name (or id) goes to the target, scope or business objective; a Measure child's to a measure definition of the detected type; any other child changes no field |
| PpiSync.MeasureChildIsDerived | app/modules/ppis/ppi-sync-manager.js:628-632 | a Measure child always yields a derived measure definition |
| PpiSync.NotInMeasure | app/modules/ppis/ppi-sync-manager.js:708-716 | none of the six keywords occurs in PPINOT:Measure |
| PpiSync.UpdateWithChildInfo | app/modules/ppis/ppi-sync-manager.js:613-640 | nothing changes when the child shape or a record bound to the parent is missing; otherwise that record is updated through the store with the child's contribution, and the store keeps its length |
| PpiSync.TargetChildSetsTarget | app/modules/ppis/ppi-sync-manager.js:613-640 | a Target child's name lands in the target of a record |
| PpiSync.ClearChildInfo | app/modules/ppis/ppi-sync-manager.js:642-683 | nothing changes without the child shape; otherwise exactly the records whose target (for a Target child) or scope (for a Scope child) holds the child's name or id have that field emptied, and each record is either unchanged or differs from its old self only in target, scope and update time |
| PpiSync.ClearLeavesNoReference | app/modules/ppis/ppi-sync-manager.js:642-683 | after clearing a Target child no record's target names it by name or id |
| PpinotCoordination.CanRestore | app/modules/ui/managers/ppinot-coordination-manager.js:257-270 | a restoration may start exactly when the modeller is ready, the data is loaded, none is running, none has succeeded and some trigger was recorded |
| PpinotCoordination.AttemptRestoration | app/modules/ui/managers/ppinot-coordination-manager.js:194-213 | refused without any change exactly when restoration is not allowed (modeller or data not ready, an attempt running, already restored, or no trigger); otherwise the attempt is counted, stamped and marked running |
| PpinotCoordination.AttemptNeverAlreadyRestored | app/modules/ui/managers/ppinot-coordination-manager.js:194-209 | the already-restored answer is never given, because the permission check already excludes a restored state |
| PpinotCoordination.FinishRestoration | app/modules/ui/managers/ppinot-coordination-manager.js:219-249 | the running flag is always cleared; the state is restored after a success, which also forgets the triggers; count, stamp and readiness are kept |
| PpinotCoordination.TriggerRestoration | app/modules/ui/managers/ppinot-coordination-manager.js:156-190 | ignored when the clock is behind the last attempt, after three attempts, while an attempt runs or for a source already registered; a started attempt registers the source and keeps the count at most three; only the source can join the triggers |
| PpinotCoordination.TriggerStartsIff | app/modules/ui/managers/ppinot-coordination-manager.js:156-270 | a trigger starts an attempt exactly when the clock has not gone back, the source is new, fewer than three attempts were made, nothing is running or restored, and the modeller and the data are ready |
| PpinotCoordination.TriggersBoundAttempts | app/modules/ui/managers/ppinot-coordination-manager.js:167-190 | triggers never push the attempt count past three |
| PpinotCoordination.RestoredStaysQuiet | app/modules/ui/managers/ppinot-coordination-manager.js:156-270 | after a success no trigger starts an attempt and the state stays restored |
| PpinotCoordination.ModelerReady | app/modules/ui/managers/ppinot-coordination-manager.js:43-52 | only the first time the modeller is seen ready is the flag set and an attempt made |
| PpinotCoordination.DataLoaded | app/modules/ui/managers/ppinot-coordination-manager.js:66-75 | only the first time stored elements are seen is the flag set and an attempt made; with no elements nothing changes |
| PpinotCoordination.Reset | app/modules/ui/managers/ppinot-coordination-manager.js:508-519 | nothing running, restored or ready, no attempts and no triggers, so restoration is not allowed |
| PpinotCoordination.ForceRestoration | app/modules/ui/managers/ppinot-coordination-manager.js:532-538 | the success, the count and the triggers are forgotten, and a new attempt starts exactly when nothing runs, the modeller and data are ready and the clock has not gone back |
| PpinotCoordination.ForceStartsFresh | app/modules/ui/managers/ppinot-coordination-manager.js:532-538 | with nothing running and everything ready, forcing starts the first attempt of a fresh count with manual.force as the only trigger, even after a success |
| PanelManager.LayoutForActive | app/modules/ui/managers/panel-manager.js:1292-1304 | no layout for zero open panels; "1", "2v" and "3v" for one, two and three; "4v" for four or more |
| PanelManager.LayoutForVisible | app/modules/ui/managers/panel-manager.js:1762-1773 | no layout for zero visible panels; "1", "2v" and "3v" for one, two and three; the "4" grid for four or more |
| PanelManager.LayoutsDifferFromFour | app/modules/ui/managers/panel-manager.js:1292-1773 | the two layout choices agree exactly below four panels |
| PanelManager.AdjustLayout | app/modules/ui/managers/panel-manager.js:1762-1775 | with no visible panel the current layout stays; otherwise it becomes the one the visible count selects |
| PanelManager.TogglePanel | app/modules/ui/managers/panel-manager.js:1207-1219 | the clicked panel's membership flips and no other panel's does; a closed panel is opened at the end; closing keeps the other panels in their order; a list without repeats keeps none |
| PanelManager.ToggleTwiceRestores | app/modules/ui/managers/panel-manager.js:1207-1219 | opening a closed panel and closing it again gives the old list back |
| PanelManager.ReorderPanels | app/modules/ui/managers/panel-manager.js:1923-1934 | nothing changes unless both panels are open; the list is always a permutation of the old one, and the dragged panel stands where the target stood with the others in their old order |
| PanelManager.ReorderKeepsPanels | app/modules/ui/managers/panel-manager.js:1923-1934 | a list without repeats keeps none and holds the same panels after a reorder |
| PanelManager.GeneratePanelOrder | app/modules/ui/managers/panel-manager.js:1270-1286 | no rows with fewer than two open panels; otherwise one row per open panel, numbered by its one-based position, blank exactly for an unknown panel |
| PanelManager.OrderNumbersFollowReorder | app/modules/ui/managers/panel-manager.js:1270-1934 | after a reorder the dragged panel is shown with the number of the place it was dropped on |
| ImportExport.DetectFormat | app/modules/ui/managers/import-export/ImportExportManager.js:372-404 | nothing is imported exactly when storage was restored recently; otherwise a text is a BPMN file exactly when it holds the XML declaration, an object is a CBPMN file exactly when its diagram is an array, and a unified project is taken from the nested data when there is some; a text without the declaration yields no parts |
| ImportExport.ImportSteps | app/modules/ui/managers/import-export/ImportExportManager.js:283-331 | the restore steps are a subsequence of BPMN, PPI, RASCI, RALph and hold exactly the parts present |
| ImportExport.BpmnFirstRalphLast | app/modules/ui/managers/import-export/ImportExportManager.js:283-331 | a present BPMN part is restored first and a present RALph part last |
| ImportExport.WaypointsFor | app/modules/ui/managers/import-export/ImportExportManager.js:304-308 | the waypoints found for an id are those of the last BPMN-side element with that truthy id and with waypoints; none are found exactly when the id is empty or no such element has waypoints |
| ImportExport.EndsFor | app/modules/ui/managers/import-export/ImportExportManager.js:304-311 | the ends found for an id are both truthy and come from the last BPMN-side element with that truthy id and both ends; none exactly when the id is empty or no such element has both ends |
| ImportExport.MergeOne | app/modules/ui/managers/import-export/ImportExportManager.js:315-324 | the element keeps its id and other properties, takes the BPMN side's waypoints and ends for its id when there are some, and keeps its own otherwise |
| ImportExport.MergeRalph | app/modules/ui/managers/import-export/ImportExportManager.js:315-325 | one merged element per RALph element, in order, each with its id and other properties kept |
| ImportExport.UnmatchedUnchanged | app/modules/ui/managers/import-export/ImportExportManager.js:315-324 | an element no BPMN-side element shares an id with is left as it is |
| ImportExport.MergeIdempotent | app/modules/ui/managers/import-export/ImportExportManager.js:295-328 | merging a second time changes nothing |
| ImportExport.RalphToRestore | app/modules/ui/managers/import-export/ImportExportManager.js:292-331 | the RALph part is restored as it came when the BPMN part has no RALph elements, and always with as many elements |
| ImportExport.ElementPosition | app/modules/ui/managers/import-export/ImportExportManager.js:819-827 | each coordinate and size is the element's own when it has one and zero otherwise, and all are zero for a missing element |
| ImportExport.ElementName | app/modules/ui/managers/import-export/ImportExportManager.js:803-810 | the business name when truthy, else the element's name when truthy, else its id; empty exactly when all three are, and for a missing element |
| ImportExportBackup.IsSignificant | app/modules/ui/managers/import-export-manager-backup.js:373-446 | a child-parent pair of types is kept by one of the listed PPINOT and RALph rules; OnlyNotationRelationsAreSignificant, SignificantNeedsParentType and PpinotUnderPpiIsSignificant state its consequences |
| ImportExportBackup.OnlyNotationRelationsAreSignificant | app/modules/ui/managers/import-export-manager-backup.js:373-446 | a pair is never significant when the parent's type names neither PPINOT nor RALPH and the child's type does not name RALPH |
| ImportExportBackup.SignificantNeedsParentType | app/modules/ui/managers/import-export-manager-backup.js:373-446 | a parent without a type keeps no child, and a child without a type is not kept under a PPI |
| ImportExportBackup.PpinotUnderPpiIsSignificant | app/modules/ui/managers/import-export-manager-backup.js:375-379 | every PPINOT shape directly under a PPI is significant |
| ImportExportBackup.Step | app/modules/ui/managers/import-export-manager-backup.js:276-298 | a child that already has a relation, or has no closest PPI, adds nothing; any other adds one relation to its closest PPI with its position |
| ImportExportBackup.Capture | app/modules/ui/managers/import-export-manager-backup.js:276-298 | the pass only appends to the relations it was given |
| ImportExportBackup.CaptureFacts | app/modules/ui/managers/import-export-manager-backup.js:276-298 | each added relation is for a child not related before it, to that child's closest PPI, and every child with a closest PPI ends up related |
| ImportExportBackup.CaptureProximity | app/modules/ui/managers/import-export-manager-backup.js:265-300 | the relations already captured are kept as a prefix |
| ImportExportBackup.ProximitySkipsRelated | app/modules/ui/managers/import-export-manager-backup.js:265-300 | no relation is added for a child related before, no child is added twice, every added child is a PPINOT shape of the canvas that is not a PPI or label, and every such child with a closest PPI ends up related |
| ImportExportBackup.ShapeXml | app/modules/ui/managers/import-export-manager-backup.js:1549-1553 | the written shape carries the child's shape id |
| ImportExportBackup.NewShapes | app/modules/ui/managers/import-export-manager-backup.js:1545-1557 | no text is added exactly when no relation needs a shape, and every relation that needs one gets its shape id into the text |
| ImportExportBackup.AddMissingShapes | app/modules/ui/managers/import-export-manager-backup.js:1532-1580 | a diagram without a plane, or with no child that needs a shape, is returned as it is; otherwise only the plane's content grows, and every child that needed a shape has one |
| ImportExportBackup.AddMissingShapesIdempotent | app/modules/ui/managers/import-export-manager-backup.js:1532-1580 | adding the missing shapes a second time adds nothing, when no child id holds a '<' |
| ImportExportBackup.ShapeKept | app/modules/ui/managers/import-export-manager-backup.js:1532-1580 | after the addition, no child with a known position still needs a shape |
| ImportExportBackup.PpisFirst | app/modules/ui/managers/import-export-manager-backup.js:2031-2035 | every PPI comes before every other shape |
| ImportExportBackup.PpisFirstIsStable | app/modules/ui/managers/import-export-manager-backup.js:2031-2035 | the PPIs, and the other shapes, each keep their stored order |
| ImportExportBackup.PpisFirstIsPermutation | app/modules/ui/managers/import-export-manager-backup.js:2031-2035 | no shape is added or dropped |
| PpiUi.ListPpis | app/modules/ppis/ui/ppi-ui.js:549-558 | the cards are the PPI records of the reference pass `AcceptAll` over the source, in the order of their ids; every card is a PPI record of the source with an id; no two cards share an id, nor a truthy element; and every PPI record that shares neither its id nor its element with another record is shown |
| PpiUi.AcceptAll | app/modules/ppis/ui/ppi-ui.js:549-556 | the state after the pass keeps ids without repeats, holds under each id a record of the source with that id, and claims the element of every record it holds |
| PpiUi.LastAcceptedWins | app/modules/ppis/ui/ppi-ui.js:549-556 | for each id, the record held is the last record with that id that the pass accepted, as `Map.set` overwrites |
| PpiUi.OrderOnlyGrows | app/modules/ppis/ui/ppi-ui.js:549-558 | the order of ids after any prefix is a prefix of the final order, so each id stays where it was first inserted, as a `Map` keeps insertion order |
| PpiUi.LaterDuplicateIsShown | app/modules/ppis/ui/ppi-ui.js:549-558 | two PPI records with one id on different elements show only the later one |
| PpiUi.KeepFirstCards | app/modules/ppis/ui/ppi-ui.js:562-575 | the first card of each PPI id stays, in order: every id that had a card still has one, and none has two |
| PpiUi.ValidatePpi | app/modules/ppis/ui/ppi-ui.js:922-960 | nothing exactly for a missing record or one without an id; otherwise every filled title, description, target, scope, business objective and measure is kept, and each empty one gets its default; missing creation and update times become the clock; every other field, including responsible, informed, comments, source and process, is kept |
| PpiUi.ValidateIdempotent | app/modules/ppis/ui/ppi-ui.js:922-960 | a validated record passes validation unchanged |
| PpiUi.CompletedFields | app/modules/ppis/ui/ppi-ui.js:74 | at most four, and zero exactly when title, target, scope and responsible are all empty |
| PpiUi.IsComplete | app/modules/ppis/ui/ppi-ui.js:74-76 | complete exactly when title, target, scope and responsible are all filled |
| PpiUi.ValidatedCompleteIffResponsible | app/modules/ppis/ui/ppi-ui.js:922-960 | a validated record is complete exactly when it has a responsible |
| PpiUi.Throttle | app/modules/ppis/ui/ppi-ui.js:3365-3375 | a call is accepted exactly when at least the delay has passed since the last accepted one, which then becomes the clock |
| PpiUi.ThrottleSpacing | app/modules/ppis/ui/ppi-ui.js:3365-3375 | two accepted calls in a row are at least the delay apart |
| PpiUi.CountFilled | app/modules/ppis/ui/ppi-ui.js:2147-2164 | the count is zero exactly when no field is filled, and all of them exactly when every field is |
| PpiUi.TabIndicator | app/modules/ppis/ui/ppi-ui.js:2176-2195 | done exactly when a tab with required fields has them all filled or a tab without has some optional field filled; empty exactly when nothing is filled; in progress otherwise |
| PpiUi.TabIndicatorMonotone | app/modules/ppis/ui/ppi-ui.js:2147-2195 | filling in more fields never lowers a tab's mark |
| PanelLoader.IsPanelHidden | app/modules/ui/components/panel-loader.js:611-619 | hidden by display none, visibility hidden, being moved off-screen, or a zero flex, width, height or opacity; RestoredIsVisible is its partner |
| PanelLoader.RestoreVisibility | app/modules/ui/components/panel-loader.js:622-645 | every hiding property is cleared and the panel is shown as a flexible, visible, opaque, relatively placed box |
| PanelLoader.RestoredIsVisible | app/modules/ui/components/panel-loader.js:611-645 | a restored panel is not hidden by any of the seven checks, and restoring twice is restoring once |
| PanelLoader.ExpectedId | app/modules/ui/components/panel-loader.js:38 | a configured panel type gets its configured id, any other type its name followed by "-panel" |
| PanelLoader.FallbackPanel | app/modules/ui/components/panel-loader.js:35-58 | the stand-in panel has the expected id and the type and is not hidden |
| PanelLoader.LoadPanel | app/modules/ui/components/panel-loader.js:15-33 | nothing exactly for an unknown type; a cached panel is returned from the cache unchanged; a failed fetch gives the stand-in panel and caches nothing; only the requested type can enter the cache, and no other entry changes |
| PanelLoader.LoadPanelCaches | app/modules/ui/components/panel-loader.js:15-33 | after a successful fetch, later loads of that type return the same panel whatever a new fetch would give |
| PanelLoader.Existing | app/modules/ui/components/panel-loader.js:62-64 | when some panel has the expected id, the first such panel in document order; otherwise the first panel of the type; none exactly when no panel has either |
| PanelLoader.CreatePanel | app/modules/ui/components/panel-loader.js:60-112 | an existing panel is returned, shown again, and no other panel changes; otherwise a loaded panel of the type is appended and nothing is appended for an unknown type; whenever a panel is returned, the container holds one of its type |
| PanelLoader.CreateTwiceNoDuplicate | app/modules/ui/components/panel-loader.js:60-112 | a second creation of the same type adds no panel |
| PanelLoader.ReorderPanel | app/modules/ui/components/panel-loader.js:931-958 | the list is unchanged when the panel is detached, already at the target, untyped, without a panel manager or not listed; otherwise it is a permutation with the panel's type at the target index, or last when the index is past the end, and the others in their old order |
| PanelLoader.ReorderBack | app/modules/ui/components/panel-loader.js:931-958 | in a list without repeats, dragging the panel back to where its type stood restores the list |
| RalphLabelEditing.IsNonEditable | app/modules/multinotationModeler/notations/ralph/RALphLabelEditingProvider.js:943-967 | a missing shape or one without type is flagged; a dual-label connection or a type mentioning "instance" in any case is not; otherwise the listed shapes and every gateway are; its consequences are stated by the lemmas below |
| RalphLabelEditing.CanActivate | app/modules/multinotationModeler/notations/ralph/RALphLabelEditingProvider.js:1005-1049 | the six history shapes are refused; the two history-instance shapes, the dual-label connections and their external labels are accepted; anything else exactly when its type is one of the directly editable RALph types; its consequences are stated by DualLabelsAreEditable, HistoryInstancesAreEditable and HistoryRefusedButNotFlagged |
| RalphLabelEditing.GetValue | app/modules/multinotationModeler/notations/ralph/RALphLabelEditingProvider.js:179-201 | empty for every shape but a dual-label connection; for one, its inner text when defined; any text shown is the inner text or, when that is undefined, the name |
| RalphLabelEditing.DualTypesAreRalph | app/modules/multinotationModeler/notations/ralph/RALphLabelEditingProvider.js:187 | every dual-label type carries the RALph prefix, so the prefix test decides nothing |
| RalphLabelEditing.Update | app/modules/multinotationModeler/notations/ralph/RALphLabelEditingProvider.js:1419-1446 | the external label of a dual-label connection gets the text as its name, the connection itself as its inner text, both only with a business object; type and label target never change; every other shape is left to the default update |
| RalphLabelEditing.UpdateThenGetValue | app/modules/multinotationModeler/notations/ralph/RALphLabelEditingProvider.js:179-1446 | editing a dual-label connection and reopening the editor shows the text just entered |
| RalphLabelEditing.DualLabelsAreEditable | app/modules/multinotationModeler/notations/ralph/RALphLabelEditingProvider.js:943-1039 | both guards let a dual-label connection be edited |
| RalphLabelEditing.HistoryInstancesAreEditable | app/modules/multinotationModeler/notations/ralph/RALphLabelEditingProvider.js:943-1030 | both guards let the history instance shapes be edited, because their type mentions instance |
| RalphLabelEditing.ListedTypesAreNotGateways | app/modules/multinotationModeler/notations/ralph/RALphLabelEditingProvider.js:943-967 | no dual-label, history or label type mentions a gateway |
| RalphLabelEditing.GatewaysAreNotEditable | app/modules/multinotationModeler/notations/ralph/RALphLabelEditingProvider.js:943-1049 | a gateway type that does not mention instance is flagged by the input guard and, unless listed as editable, refused by canActivate |
| RalphLabelEditing.HistoryRefusedButNotFlagged | app/modules/multinotationModeler/notations/ralph/RALphLabelEditingProvider.js:943-1026 | the listed history shapes are refused by canActivate although the input guard does not flag them |
| RalphLabelEditing.HistoryIsNotListed | app/modules/multinotationModeler/notations/ralph/RALphLabelEditingProvider.js:948-957 | no listed history shape appears in the input guard's list, which spells history in lower case |
| RalphLabelEditing.FlaggedIsListedOrGateway | app/modules/multinotationModeler/notations/ralph/RALphLabelEditingProvider.js:963-966 | a shape with a type is flagged only when it is listed or a gateway |

## Left out

- Canvas and DOM work is not modelled: bpmn-js shape creation, connection, removal, XML import and export, the cascade removal of labels and children, styles, modals, notifications and drag handling. The registry and the stored entries are plain values instead.
- Timers, `setTimeout` retries, debouncing and concurrency are not modelled. Each timer callback or awaited completion is its own function, with the clock and the outcome as parameters. Interleavings other than the ones the lemmas spell out are not explored.
- localStorage, `fetch`, file reading and JSON parsing are not modelled. A stored entry is a value, and a parse failure is not represented.
- Floating-point geometry is not modelled. Coordinates, distances and sizes are integers, and distances are compared as squares.
- Exceptions the code would raise on a missing field (a TypeError on `undefined`) are not modelled, except where the model returns an `Err` value for the one the code documents (`PpiPanel.ParseTextContent`).
- Timestamps are integers (milliseconds), not ISO strings. A missing `createdAt` in the PPI list is `0`, and the validation replaces it with `now`.
- AutosaveService.ForceRestore: the restore itself is the `restored` parameter. The recently-restored guard of the import (`ImportExport.DetectFormat`) is a parameter too.
- AutosaveService.Nearest: the distance is the integer square of the Euclidean one.
- ImportExportBackup.CaptureProximity: the choice `findClosestPPI` makes is the `closest` parameter, so its distance limit is not restated.
- ImportExportBackup.AddMissingShapes: the regular expression that finds the plane is modelled as a document already split around its first plane. Two relations for the same child both add a shape, as the code does, because the test reads the original text.
- PanelLoader.LoadPanel: the fetch and the node cloning are the `fetched` parameter. A missing container in `createPanel` is not modelled.
- PanelLoader.Existing: the container's panels are a flat list in document order, not a nested DOM tree.
- RalphLabelEditing.CanActivate: the editable RALph types (`directEdit`) are a parameter, because the types file that lists them is not part of this model. `isAny` is modelled as exact membership of the element's type.
- RalphLabelEditing.Update: the default label update of other shapes is only the `Default` outcome.
- PpiSync.HasPpiParent: the parent walk is bounded by the registry's size. An acyclic parent chain never exceeds that bound, and cyclic chains are not modelled.
- PpiSync.ClearChildInfo: a cleared target or scope is `""`, not `null`, and the update is applied to each record in place rather than through a separate store call.
- PpiUi.ValidatePpi: the record's `measureDefinition` is also filled in on the input object; that mutation of the argument is not modelled.
- PpiUi.KeepFirstCards: the cards are modelled by their PPI ids only.
- PpiUi.TabIndicator: the icons and colours of the indicator are not modelled, only its three states.
- PpiUi.Throttle: the throttle's closure and its timer are the `last` state passed in and out.
- PpiManager.RefreshPpiList: the up to three retries for an unmounted list are collapsed into the `ready` parameter.
- PpiPanel.UpdatePpi: an update that carries an `id` field would overwrite the record's id; updates are modelled without one.
- PpinotCoordination.ForceRestoration: the code resets only the success flag, the count and the triggers, not the readiness flags, and the model follows it.
- PpinotCoordination.FinishRestoration: the suspension and resumption of the local autosave around a restoration is not modelled here (it is `LocalAutosave.ForceRestore`).
- ImportExport.ImportSteps: the clearing of stored state before an import, the RALph namespace normalisation, the project-name update after it and the restore calls themselves are not modelled.
- LocalAutosave.SaveState: `savedAt` is an integer clock reading, and the `preventOverwriteExistingValues` flag of the capture is not modelled.
- MainMapper.ApprovalRoleRoundTrip: it needs a role name without the " para " separator, which the approval name cannot tell apart from the task.
- PpiCore.TruncateText: lengths count characters (code points), while JavaScript's `length` and `substring` count UTF-16 units, so text outside the Basic Multilingual Plane is cut at a different place.
- PpiPanel.ValidateSmart: the two ten-character minimums count code points, not UTF-16 units, for the same reason.
- PpiCore.Merged: the update is a fixed record of the form's fields (title, description, process, business objective, measure definition, target, scope, source, responsible, informed, comments, element id, type, origin, creation time). Keys outside that list, a `measureType` key and a measure definition given as a plain string are not represented. An `updatedAt` in the update is not represented either, as the code overwrites it with the clock reading anyway.
- PpiCore.UpdatePpi: it inherits the limits of `PpiCore.Merged` on what an update can carry.
- PpiCore.GetStatistics: a record without a measure definition counts as not a time measure; the code would throw a TypeError on it.
- ImportExport.RalphToRestore: the RALph part is modelled by its element list only. When the BPMN part carries RALph elements the code restores an object holding only `elements`, so every other key of the RALph part is lost; that loss is not represented.
- MainMapper.IsConnectedToTaskComplete: completeness is proved for registries whose sequence flows all have a target and a registered source, as the canvas keeps them; a flow whose source id names no element is followed by the code through its object and by the model not at all.
- RasciMapping.ChainedTaskIsFound: it says that some task is found, not which one; with several chains the first found in registry order wins, as the code's depth-first loop does.
- The `getElementName` copy in the PPI store is not modelled; the import/export and mapping copies are.
- Older copies of the same managers elsewhere in the repository are not modelled. Neither are the renderers and the replace-connection behaviour, which are SVG drawing and float geometry.
- PpiSync.ProcessPending and PpiSync.ProcessPendingAsWritten: the pending `Set` is given as the sequence of its ids in insertion order, which is the order in which the loop visits it; the `Set` itself, and its merging of repeated additions, are not modelled.
- MainMapper.SelectiveCleanup: a removal takes away the selected elements and the connections attached to them, one level deep. The labels and children that bpmn-js also removes, and connections attached to a removed connection, are not modelled. A `removeElements` call that throws (caught, with its elements left uncounted) is not modelled either.
- RasciMapping.GetElementName: the code's `element.name` step is not modelled, because a diagram-js shape keeps its name on its business object only.
- Common.LowerChar: it lower-cases ASCII and the Latin-1 capitals U+00C0 to U+00DE except U+00D7. `toLowerCase` covers all of Unicode; other scripts stay as they are here.

## Findings

| source | as written | input that shows it | evidently intended | confidence | as-written member | corrected member |
|---|---|---|---|---|---|---|
| app/modules/rasci/core/matrix-manager.js:844-850 | a new role is named "Rol n+1", with n the current number of roles | roles ["Rol 2"] after "Rol 1" was deleted: the new role is a second "Rol 2" | a new role gets a name no existing role has | not executed | RasciMatrix.AddNewRoleDuplicates | RasciMatrix.AddNewRole |
| app/services/autosave-manager.js:56-70 | the timer callback does not clear `autosaveTimer`, and a save refused with "Already saving" keeps it | a change arms a timer, the timer fires while a save runs, the save then completes, and a later change schedules nothing, because the stale handle blocks `markAsChanged` | the handle is dropped when the timer fires, so every change on an enabled, unsuspended manager leaves a save pending | not executed | AutosaveService.StaleHandleStopsAutosave | AutosaveService.CorrectedStaysHealthy |
| app/modules/ppis/ppi-sync-manager.js:392-455 | a pending change id `${type}_${data}` is decoded with `split('_', 2)`, whose first piece is the text before the first underscore | `queueSync('ppi_change', 'Task_1')` decodes to type "ppi", which no case of `processChange` handles; every handled type contains an underscore, so no pending change is ever handled | the type is recovered from the id, so each pending change reaches its handler with its data | not executed | PpiSync.PendingChangesAreDropped | PpiSync.PendingChangesAreProcessed |
