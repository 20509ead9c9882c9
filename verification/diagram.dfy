/** The diagram-js element registry, as the modeller's rules see it: every
    canvas element (BPMN, PPINOT or RALph shape, connection or label) with
    its id, its type, its business-object name, the id of its parent shape
    and, for connections, the ids of its source and target. A PPINOT shape
    also carries its business object's `body` text, the `body` of its first
    label's business object, and the id of its business object's `$parent`
    in the semantic model. The registry
    iterates in insertion order, so it is a sequence; `get(id)` answers the
    first element with that id. An empty string stands for an absent id or
    name. */
module Diagram {
  import opened Common

  datatype Element = Element(
    id: string,
    kind: string,
    name: string,
    parent: string,
    source: string,
    target: string,
    x: int,
    y: int,
    width: int,
    height: int,
    body: string,
    labelBody: string,
    semanticParent: string)

  type Registry = seq<Element>

  /** `elementRegistry.get(id)` finds an element. */
  predicate Has(reg: Registry, id: string) {
    exists i :: 0 <= i < |reg| && reg[i].id == id
  }

  /** `elementRegistry.get(id)`. */
  function Get(reg: Registry, id: string): (r: Option<Element>)
    ensures r.Some? ==> r.value in reg && r.value.id == id
    ensures r.None? <==> !Has(reg, id)
    decreases |reg|
  {
    if |reg| == 0 then None
    else if reg[0].id == id then Some(reg[0])
    else
      var r := Get(reg[1..], id);
      assert Has(reg[1..], id) ==> Has(reg, id) by {
        if Has(reg[1..], id) {
          var i :| 0 <= i < |reg[1..]| && reg[1..][i].id == id;
          assert reg[i + 1].id == id;
        }
      }
      r
  }

  /** The ten BPMN activity types that the RASCI matrix and the RALph
      mapping treat as tasks. */
  const TaskTypes: seq<string> := [
    "bpmn:Task", "bpmn:UserTask", "bpmn:ServiceTask", "bpmn:ScriptTask",
    "bpmn:ManualTask", "bpmn:BusinessRuleTask", "bpmn:SendTask",
    "bpmn:ReceiveTask", "bpmn:CallActivity", "bpmn:SubProcess"]

  predicate IsTaskType(kind: string) {
    kind in TaskTypes
  }

  const PpiType: string := "PPINOT:Ppi"
  const SequenceFlowType: string := "bpmn:SequenceFlow"
}
