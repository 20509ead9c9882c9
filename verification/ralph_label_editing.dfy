/** Label editing for RALph shapes: which shapes may be edited, which text
    the editor opens with, and which property an edit writes. The four
    "dual-label" connections (reports and delegates, directly or
    transitively) carry two texts: an inner `text` on the connection and a
    `name` on its external label. */
module RalphLabelEditing {
  import opened Common

  /** The connections with two labels. */
  const DualLabelTypes: seq<string> := [
    "RALph:reportsDirectly", "RALph:reportsTransitively",
    "RALph:delegatesDirectly", "RALph:delegatesTransitively"]

  /** The shapes `isNonEditable` lists by name. */
  const NonEditableTypes: seq<string> := [
    "RALph:history", "RALph:historyStart", "RALph:historyEnd",
    "bpmn:ExclusiveGateway", "bpmn:InclusiveGateway", "bpmn:ParallelGateway",
    "bpmn:ComplexGateway", "bpmn:EventBasedGateway"]

  /** The history shapes `canActivate` refuses. */
  const HistoryNoEditTypes: seq<string> := [
    "RALph:History-Same", "RALph:History-Any", "RALph:History-Any-Red",
    "RALph:History-Any-Green", "RALph:History-Same-Green", "RALph:History-Same-Red"]

  /** The history shapes `canActivate` always accepts. */
  const HistoryInstanceTypes: seq<string> := [
    "RALph:History-AnyInstanceInTime-Green", "RALph:History-AnyInstanceInTime-Red"]

  /** The texts of a shape's business object; `None` where a property is
      undefined. */
  datatype BusinessObject = BusinessObject(text: Option<string>, name: Option<string>)

  /** A shape as the editor sees it: its type ("" for none), the type of
      the shape it labels (for an external label) and its business object. */
  datatype Shape = Shape(kind: string, labelTarget: Option<string>, bo: Option<BusinessObject>)

  /** An external label of a dual-label connection. */
  predicate IsDualExternalLabel(e: Shape) {
    e.kind == "label" && e.labelTarget.Some? && e.labelTarget.value in DualLabelTypes
  }

  /** `isNonEditable(element)`: no shape or no type is not editable; a
      dual-label connection and any shape whose type mentions "instance" in
      any case are editable; otherwise the listed shapes and every gateway
      are not. */
  predicate IsNonEditable(e: Option<Shape>) {
    e.None? || !Truthy(e.value.kind)
    || (e.value.kind !in DualLabelTypes && !Contains(ToLower(e.value.kind), "instance")
        && (e.value.kind in NonEditableTypes || Contains(e.value.kind, "Gateway")))
  }

  /** `canActivate(element)`: the listed history shapes are refused, the
      history instance shapes, the dual-label connections and their
      external labels accepted, and anything else accepted when its type
      is one of `directEdit` (the editable RALph types). */
  predicate CanActivate(e: Shape, directEdit: seq<string>) {
    if e.kind in HistoryNoEditTypes then false
    else if e.kind in HistoryInstanceTypes then true
    else if e.kind in DualLabelTypes then true
    else if IsDualExternalLabel(e) then true
    else e.kind in directEdit
  }

  /** The text the editor opens with: for a dual-label connection its inner
      text when defined, else its name when defined, else nothing; for any
      other shape nothing. */
  function GetValue(e: Shape): (r: string)
    ensures e.kind !in DualLabelTypes ==> r == ""
    ensures e.kind in DualLabelTypes && e.bo.Some? && e.bo.value.text.Some? ==> r == e.bo.value.text.value
    ensures r != "" ==> e.bo.Some? && (Some(r) == e.bo.value.text || (e.bo.value.text.None? && Some(r) == e.bo.value.name))
  {
    if StartsWith(e.kind, "RALph:") && e.kind in DualLabelTypes then
      if e.bo.Some? && e.bo.value.text.Some? then e.bo.value.text.value
      else if e.bo.Some? && e.bo.value.name.Some? then e.bo.value.name.value
      else ""
    else ""
  }

  /** Every dual-label type starts with the RALph prefix, so the prefix
      test in `getValue` never decides anything. */
  lemma DualTypesAreRalph()
    ensures forall t :: t in DualLabelTypes ==> StartsWith(t, "RALph:")
  {
    forall t | t in DualLabelTypes ensures StartsWith(t, "RALph:") {
      assert t[..6] == "RALph:";
    }
  }

  /** Where an edit goes. */
  datatype Edit = SetName(name: string) | SetText(text: string) | Default(text: string) | Nothing

  /** `update(element, text)`: the external label of a dual-label
      connection gets the text as its name, the connection itself as its
      inner text, in both cases only when there is a business object;
      every other shape is left to the standard label update. */
  function Update(e: Shape, text: string): (r: (Edit, Shape))
    ensures IsDualExternalLabel(e) && e.bo.Some? ==> r.1.bo == Some(e.bo.value.(name := Some(text)))
    ensures e.kind in DualLabelTypes && e.bo.Some? ==> r.1.bo == Some(e.bo.value.(text := Some(text)))
    ensures r.1.kind == e.kind && r.1.labelTarget == e.labelTarget
    ensures e.bo.None? ==> r.1 == e
    ensures !IsDualExternalLabel(e) && e.kind !in DualLabelTypes ==> r == (Default(text), e)
  {
    if IsDualExternalLabel(e) then
      if e.bo.Some? then (SetName(text), e.(bo := Some(e.bo.value.(name := Some(text))))) else (Nothing, e)
    else if e.kind in DualLabelTypes then
      if e.bo.Some? then (SetText(text), e.(bo := Some(e.bo.value.(text := Some(text))))) else (Nothing, e)
    else (Default(text), e)
  }

  /** Editing a dual-label connection and reopening the editor shows the
      text just entered. */
  lemma UpdateThenGetValue(e: Shape, text: string)
    requires e.kind in DualLabelTypes && e.bo.Some?
    ensures GetValue(Update(e, text).1) == text
  {
    DualTypesAreRalph();
  }

  /** The two editing guards agree on the dual-label connections: they may
      be edited, and the editor's input is not removed. */
  lemma DualLabelsAreEditable(e: Shape, directEdit: seq<string>)
    requires e.kind in DualLabelTypes
    ensures CanActivate(e, directEdit) && !IsNonEditable(Some(e))
  {
  }

  /** The history instance shapes are editable by both guards: their type
      mentions "instance". */
  lemma HistoryInstancesAreEditable(e: Shape, directEdit: seq<string>)
    requires e.kind in HistoryInstanceTypes
    ensures CanActivate(e, directEdit) && !IsNonEditable(Some(e))
  {
    var lower := ToLower(e.kind);
    assert e.kind[17..25] == "Instance";
    assert lower[17..25] == "instance" by {
      forall k | 17 <= k < 25 ensures lower[k] == LowerChar(e.kind[k]) { }
    }
    ContainsAt(lower, "instance", 17);
  }

  /** No type the editor lists by name mentions a gateway, except the
      gateways themselves: none of them holds a `w`. */
  lemma ListedTypesAreNotGateways(t: string)
    requires t in DualLabelTypes || t in HistoryInstanceTypes || t in HistoryNoEditTypes || t == "label"
    ensures !Contains(t, "Gateway")
  {
    assert 'w' !in t;
    if Contains(t, "Gateway") {
      ContainsChar(t, "Gateway", 4);
    }
  }

  /** Gateways are refused by the input guard, and by `canActivate` unless
      they are listed as editable. */
  lemma GatewaysAreNotEditable(e: Shape, directEdit: seq<string>)
    requires Contains(e.kind, "Gateway") && !Contains(ToLower(e.kind), "instance")
    requires e.kind !in directEdit
    ensures IsNonEditable(Some(e)) && !CanActivate(e, directEdit)
  {
    if e.kind in DualLabelTypes || e.kind in HistoryInstanceTypes || e.kind in HistoryNoEditTypes || e.kind == "label" {
      ListedTypesAreNotGateways(e.kind);
    }
  }

  /** The listed history shapes are refused by `canActivate` although the
      input guard does not flag them: they are neither listed there (its
      list spells `RALph:history` in lower case) nor gateways. */
  lemma HistoryRefusedButNotFlagged(e: Shape, directEdit: seq<string>)
    requires e.kind in HistoryNoEditTypes
    ensures !CanActivate(e, directEdit) && !IsNonEditable(Some(e))
  {
    ListedTypesAreNotGateways(e.kind);
    HistoryIsNotListed(e.kind);
    FlaggedIsListedOrGateway(e);
  }

  lemma HistoryIsNotListed(t: string)
    requires t in HistoryNoEditTypes
    ensures t !in NonEditableTypes && Truthy(t)
  {
    assert t[6] == 'H';
  }

  /** A shape with a type is flagged only when it is listed or a gateway. */
  lemma FlaggedIsListedOrGateway(e: Shape)
    requires Truthy(e.kind)
    ensures IsNonEditable(Some(e)) ==> e.kind in NonEditableTypes || Contains(e.kind, "Gateway")
  {
  }
}
