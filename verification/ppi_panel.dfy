/** The PPI panel (`app/js/panels/ppi/index.js`): SMART validation of the
    creation form, the plain-text import format, measure-type inference, the
    type-specific measure fields, the panel's own update/delete, and the
    `bpmnLink` object that maps a link type to a BPMN element id. */
module PpiPanel {
  import opened Common
  import opened PpiModel
  import PpiCore

  // ---------------------------------------------------------------------
  // SMART validation

  /** The form values `validateSMART` looks at ("" when a value is absent). */
  datatype SmartInput = SmartInput(
    measureDefinition: string,
    target: string,
    source: string,
    responsible: string,
    businessObjective: string,
    scope: string)

  datatype Verdict = Valid | Invalid(message: string)

  const MsgSpecific: string := "La definición de medida debe ser específica"
  const MsgMeasurable: string := "El objetivo debe ser medible y tener una fuente de datos"
  const MsgAchievable: string := "Debe especificar un responsable"
  const MsgRelevant: string := "El objetivo de negocio debe ser relevante"
  const MsgTimeBound: string := "Debe especificar el alcance temporal"

  /** The five SMART criteria, in the order the panel checks them, each with
      whether it holds and the message reported when it does not. */
  function SmartChecks(d: SmartInput): seq<(bool, string)> {
    [ (|d.measureDefinition| >= 10, MsgSpecific),
      (Truthy(d.target) && Truthy(d.source), MsgMeasurable),
      (Truthy(d.responsible), MsgAchievable),
      (|d.businessObjective| >= 10, MsgRelevant),
      (Truthy(d.scope), MsgTimeBound) ]
  }

  /** The message of the first failing check, if any. */
  function FirstFailure(checks: seq<(bool, string)>): Option<string> {
    if |checks| == 0 then None
    else if !checks[0].0 then Some(checks[0].1)
    else FirstFailure(checks[1..])
  }

  /** `validateSMART(data)`. */
  function ValidateSmart(d: SmartInput): (r: Verdict)
    ensures r.Valid? <==> (|d.measureDefinition| >= 10 && Truthy(d.target) && Truthy(d.source)
                           && Truthy(d.responsible) && |d.businessObjective| >= 10 && Truthy(d.scope))
  {
    if |d.measureDefinition| < 10 then Invalid(MsgSpecific)
    else if !Truthy(d.target) || !Truthy(d.source) then Invalid(MsgMeasurable)
    else if !Truthy(d.responsible) then Invalid(MsgAchievable)
    else if |d.businessObjective| < 10 then Invalid(MsgRelevant)
    else if !Truthy(d.scope) then Invalid(MsgTimeBound)
    else Valid
  }

  /** The verdict reports exactly the first failing criterion. */
  lemma ValidateSmartReportsFirstFailure(d: SmartInput)
    ensures ValidateSmart(d) == (match FirstFailure(SmartChecks(d))
                                 case None => Valid
                                 case Some(m) => Invalid(m))
  {
    var c := SmartChecks(d);
    assert FirstFailure(c[5..]) == None;
    assert FirstFailure(c[4..]) == if !c[4].0 then Some(c[4].1) else None;
    assert FirstFailure(c[3..]) == if !c[3].0 then Some(c[3].1) else FirstFailure(c[4..]) by { assert c[3..][1..] == c[4..]; }
    assert FirstFailure(c[2..]) == if !c[2].0 then Some(c[2].1) else FirstFailure(c[3..]) by { assert c[2..][1..] == c[3..]; }
    assert FirstFailure(c[1..]) == if !c[1].0 then Some(c[1].1) else FirstFailure(c[2..]) by { assert c[1..][1..] == c[2..]; }
  }

  // ---------------------------------------------------------------------
  // Measure type inference

  predicate MentionsAny(text: string, words: seq<string>) {
    exists i :: 0 <= i < |words| && Contains(text, words[i])
  }

  /** The measure types the panel knows. */
  const MeasureKinds: set<string> := {"time", "count", "state", "data", "derived", "aggregated"}

  const TimeWords: seq<string> := ["tiempo", "time", "duración"]
  const CountWords: seq<string> := ["contar", "count", "número"]
  const StateWords: seq<string> := ["estado", "state", "condición"]
  const DataWords: seq<string> := ["datos", "data", "campo"]
  const DerivedWords: seq<string> := ["calculado", "derived", "fórmula"]
  const AggregatedWords: seq<string> := ["agregado", "aggregated", "suma"]

  /** `inferMeasureType(definition)`: the first keyword group the lower-cased
      text mentions decides; "time" by default. */
  function InferMeasureType(definition: string): (r: string)
    ensures r in MeasureKinds
    ensures var t := ToLower(definition);
      (r == "count" <==> !MentionsAny(t, TimeWords) && MentionsAny(t, CountWords))
      && (r == "state" <==> !MentionsAny(t, TimeWords) && !MentionsAny(t, CountWords) && MentionsAny(t, StateWords))
      && (r == "data" <==> !MentionsAny(t, TimeWords) && !MentionsAny(t, CountWords) && !MentionsAny(t, StateWords)
                           && MentionsAny(t, DataWords))
      && (r == "derived" <==> !MentionsAny(t, TimeWords) && !MentionsAny(t, CountWords) && !MentionsAny(t, StateWords)
                              && !MentionsAny(t, DataWords) && MentionsAny(t, DerivedWords))
      && (r == "aggregated" <==> !MentionsAny(t, TimeWords) && !MentionsAny(t, CountWords) && !MentionsAny(t, StateWords)
                                 && !MentionsAny(t, DataWords) && !MentionsAny(t, DerivedWords) && MentionsAny(t, AggregatedWords))
      && (r == "time" <==> MentionsAny(t, TimeWords)
                           || !(MentionsAny(t, CountWords) || MentionsAny(t, StateWords) || MentionsAny(t, DataWords)
                                || MentionsAny(t, DerivedWords) || MentionsAny(t, AggregatedWords)))
  {
    var t := ToLower(definition);
    if MentionsAny(t, TimeWords) then "time"
    else if MentionsAny(t, CountWords) then "count"
    else if MentionsAny(t, StateWords) then "state"
    else if MentionsAny(t, DataWords) then "data"
    else if MentionsAny(t, DerivedWords) then "derived"
    else if MentionsAny(t, AggregatedWords) then "aggregated"
    else "time"
  }

  /** The inference ignores case: lower-casing the definition first changes
      nothing. */
  lemma InferIgnoresCase(definition: string)
    ensures InferMeasureType(ToLower(definition)) == InferMeasureType(definition)
  {
    ToLowerIdempotent(definition);
  }

  // ---------------------------------------------------------------------
  // Plain-text import

  /** The fields the text format can set, with their Spanish line keys. */
  datatype Field =
    | Process | BusinessObjective | MeasureDefinition | Target | Scope
    | Source | Responsible | Informed | Comments

  function Label(f: Field): string {
    match f
    case Process => "proceso"
    case BusinessObjective => "objetivo de negocio"
    case MeasureDefinition => "definición de medida"
    case Target => "objetivo"
    case Scope => "alcance"
    case Source => "fuente"
    case Responsible => "responsable"
    case Informed => "informado"
    case Comments => "comentarios"
  }

  /** The `switch (key)` of `parseTextContent`. */
  function FieldOfKey(key: string): (r: Option<Field>)
    ensures r.Some? ==> Label(r.value) == key
  {
    if key == "proceso" then Some(Process)
    else if key == "objetivo de negocio" then Some(BusinessObjective)
    else if key == "definición de medida" then Some(MeasureDefinition)
    else if key == "objetivo" then Some(Target)
    else if key == "alcance" then Some(Scope)
    else if key == "fuente" then Some(Source)
    else if key == "responsable" then Some(Responsible)
    else if key == "informado" then Some(Informed)
    else if key == "comentarios" then Some(Comments)
    else None
  }

  /** One line: a key before the first ':' (which must not be the first
      character), trimmed and lower-cased, and the trimmed rest. */
  function ParseLine(line: string): (r: Option<(Field, string)>)
    ensures r.Some? ==> Trimmed(r.value.1) && Contains(line, ":")
    ensures r.Some? ==> exists ci :: FirstColon(line, ci) && ci > 0
                          && FieldOfKey(ToLower(Trim(line[..ci]))) == Some(r.value.0) && r.value.1 == Trim(line[ci + 1..])
    ensures r.None? ==> forall ci :: FirstColon(line, ci) && ci > 0 ==> FieldOfKey(ToLower(Trim(line[..ci]))).None?
  {
    match IndexOf(line, ":")
    case None =>
      forall ci | FirstColon(line, ci) ensures false {
        ContainsAt(line, ":", ci);
      }
      None
    case Some(ci) =>
      assert FirstColon(line, ci) by {
        forall j | 0 <= j < ci ensures line[j] != ':' {
          assert !StartsWith(line[j..], ":");
        }
      }
      assert forall c :: FirstColon(line, c) ==> c == ci;
      if ci == 0 then None
      else match FieldOfKey(ToLower(Trim(line[..ci])))
        case None => None
        case Some(f) =>
          TrimmedIsFixed(line[ci + 1..]);
          Some((f, Trim(line[ci + 1..])))
  }

  /** Position `ci` holds the first ':' of the line. */
  predicate FirstColon(line: string, ci: int) {
    0 <= ci < |line| && line[ci] == ':' && ':' !in line[..ci]
  }

  /** Each line of the text, read on its own. */
  function ParseLines(lines: seq<string>): (r: seq<Option<(Field, string)>>)
    ensures |r| == |lines|
    ensures forall i :: 0 <= i < |r| && r[i].Some? ==> Trimmed(r[i].value.1)
  {
    seq(|lines|, i requires 0 <= i < |lines| => ParseLine(lines[i]))
  }

  /** Some line of the text sets field `f`. */
  predicate Sets(parsed: seq<Option<(Field, string)>>, f: Field) {
    exists i :: 0 <= i < |parsed| && parsed[i].Some? && parsed[i].value.0 == f
  }

  /** Reading the lines in order, a later line for a field overwrites an
      earlier one. */
  function Collect(parsed: seq<Option<(Field, string)>>): (r: map<Field, string>)
    requires forall i :: 0 <= i < |parsed| && parsed[i].Some? ==> Trimmed(parsed[i].value.1)
    ensures forall f :: f in r <==> Sets(parsed, f)
    ensures forall f :: f in r ==> Trimmed(r[f])
    decreases |parsed|
  {
    if |parsed| == 0 then map[]
    else
      var init := parsed[..|parsed| - 1];
      assert forall i :: 0 <= i < |init| ==> init[i] == parsed[i];
      var m := Collect(init);
      match parsed[|parsed| - 1]
      case None => m
      case Some(kv) => m[kv.0 := kv.1]
  }

  /** Line `i` is the last line that sets field `f`. */
  predicate LastLineFor(parsed: seq<Option<(Field, string)>>, f: Field, i: int) {
    0 <= i < |parsed| && parsed[i].Some? && parsed[i].value.0 == f
    && forall j :: i < j < |parsed| ==> !(parsed[j].Some? && parsed[j].value.0 == f)
  }

  /** Every value of `m` is the value of the last line setting its field. */
  ghost predicate FromLastLine(parsed: seq<Option<(Field, string)>>, m: map<Field, string>) {
    forall f :: f in m ==> exists i :: LastLineFor(parsed, f, i) && m[f] == parsed[i].value.1
  }

  /** Each collected field holds the value of the last line that sets it. */
  lemma {:induction false} CollectTakesLastLine(parsed: seq<Option<(Field, string)>>)
    requires forall i :: 0 <= i < |parsed| && parsed[i].Some? ==> Trimmed(parsed[i].value.1)
    ensures FromLastLine(parsed, Collect(parsed))
    decreases |parsed|
  {
    if |parsed| > 0 {
      var init := parsed[..|parsed| - 1];
      assert forall i :: 0 <= i < |init| ==> init[i] == parsed[i];
      CollectTakesLastLine(init);
      CollectStep(parsed, init, Collect(init));
    }
  }

  lemma CollectStep(parsed: seq<Option<(Field, string)>>, init: seq<Option<(Field, string)>>, m: map<Field, string>)
    requires |parsed| > 0 && init == parsed[..|parsed| - 1]
    requires FromLastLine(init, m)
    ensures var last := parsed[|parsed| - 1];
            FromLastLine(parsed, if last.Some? then m[last.value.0 := last.value.1] else m)
  {
    var last := parsed[|parsed| - 1];
    var r := if last.Some? then m[last.value.0 := last.value.1] else m;
    forall f | f in r ensures exists i :: LastLineFor(parsed, f, i) && r[f] == parsed[i].value.1 {
      if last.Some? && f == last.value.0 {
        assert LastLineFor(parsed, f, |parsed| - 1);
      } else {
        var i :| LastLineFor(init, f, i) && m[f] == init[i].value.1;
        forall j | i < j < |parsed| ensures !(parsed[j].Some? && parsed[j].value.0 == f) {
          if j < |init| { assert init[j] == parsed[j]; }
        }
        assert init[i] == parsed[i];
        assert LastLineFor(parsed, f, i);
      }
    }
  }

  /** The record `parseTextContent` returns: the fields read and the inferred
      measure type. */
  datatype TextPpi = TextPpi(fields: map<Field, string>, measureType: string)

  /** `parseTextContent(content)`. Without a measure-definition line the
      source calls `toLowerCase` on `undefined` and throws. */
  function ParseTextContent(content: string): (r: Result<TextPpi>)
    ensures var parsed := ParseLines(Split(content, '\n'));
      r.Ok? <==> Sets(parsed, MeasureDefinition)
    ensures r.Ok? ==> MeasureDefinition in r.value.fields
                      && r.value.measureType == InferMeasureType(r.value.fields[MeasureDefinition])
    ensures r.Ok? ==> forall f :: f in r.value.fields ==> Trimmed(r.value.fields[f])
  {
    var parsed := ParseLines(Split(content, '\n'));
    var m := Collect(parsed);
    if MeasureDefinition in m then Ok(TextPpi(m, InferMeasureType(m[MeasureDefinition])))
    else Err("TypeError: Cannot read properties of undefined (reading 'toLowerCase')")
  }

  /** The text one field contributes: `<key>: <value>`. */
  function RenderLine(e: (Field, string)): string {
    Label(e.0) + ": " + e.1
  }

  function RenderLines(entries: seq<(Field, string)>): (r: seq<string>)
    ensures |r| == |entries|
    ensures forall i :: 0 <= i < |entries| ==> r[i] == RenderLine(entries[i])
  {
    seq(|entries|, i requires 0 <= i < |entries| => RenderLine(entries[i]))
  }

  /** The map of fields a sequence of entries describes, later entries
      winning. */
  function ToMap(entries: seq<(Field, string)>): map<Field, string>
    decreases |entries|
  {
    if |entries| == 0 then map[]
    else ToMap(entries[..|entries| - 1])[entries[|entries| - 1].0 := entries[|entries| - 1].1]
  }

  /** A value the text format can carry: one line, no white space at its
      ends. */
  predicate Representable(v: string) {
    '\n' !in v && Trimmed(v)
  }

  lemma LowerFixed(s: string)
    requires forall i :: 0 <= i < |s| ==> LowerChar(s[i]) == s[i]
    ensures ToLower(s) == s
  {
  }

  lemma LabelFixed(f: Field)
    ensures ToLower(Trim(Label(f))) == Label(f)
    ensures ':' !in Label(f) && '\n' !in Label(f)
    ensures FieldOfKey(Label(f)) == Some(f)
  {
    LabelTrimmed(f);
    TrimmedIsFixed(Label(f));
    LabelLower(f);
    LabelPlain(f);
    LabelKey(f);
  }

  lemma LabelTrimmed(f: Field)
    ensures Trimmed(Label(f))
  {
  }

  lemma LabelPlain(f: Field)
    ensures ':' !in Label(f) && '\n' !in Label(f)
  {
  }

  lemma LabelLower(f: Field)
    ensures ToLower(Label(f)) == Label(f)
  {
    match f
    case Process => LowerFixed("proceso");
    case BusinessObjective => LowerFixed("objetivo de negocio");
    case MeasureDefinition => LowerFixed("definición de medida");
    case Target => LowerFixed("objetivo");
    case Scope => LowerFixed("alcance");
    case Source => LowerFixed("fuente");
    case Responsible => LowerFixed("responsable");
    case Informed => LowerFixed("informado");
    case Comments => LowerFixed("comentarios");
  }

  lemma LabelKey(f: Field)
    ensures FieldOfKey(Label(f)) == Some(f)
  {
  }

  lemma TrimLeadingSpace(v: string)
    requires Trimmed(v)
    ensures Trim(" " + v) == v
  {
    assert (" " + v)[1..] == v;
    assert TrimStart(" " + v) == TrimStart(v);
    TrimmedIsFixed(v);
    if |v| > 0 {
      assert TrimStart(v) == v;
    }
  }

  lemma ParseRenderLine(e: (Field, string))
    requires Representable(e.1)
    ensures ParseLine(RenderLine(e)) == Some(e)
  {
    var l := Label(e.0);
    var line := RenderLine(e);
    LabelFixed(e.0);
    assert line[..|l|] == l;
    assert line[|l|] == ':';
    FirstCharAt(line, ':', |l|);
    assert |l| > 0;
    assert line[|l| + 1..] == " " + e.1;
    TrimLeadingSpace(e.1);
  }

  /** Lines that all parse, read in order, give the map of their entries. */
  lemma {:induction false} CollectAllParsed(parsed: seq<Option<(Field, string)>>, entries: seq<(Field, string)>)
    requires |parsed| == |entries|
    requires forall i :: 0 <= i < |entries| ==> parsed[i] == Some(entries[i]) && Trimmed(entries[i].1)
    ensures Collect(parsed) == ToMap(entries)
    decreases |entries|
  {
    if |entries| > 0 {
      var n := |entries| - 1;
      CollectAllParsed(parsed[..n], entries[..n]);
    }
  }

  lemma CollectRendered(entries: seq<(Field, string)>)
    requires forall i :: 0 <= i < |entries| ==> Representable(entries[i].1)
    ensures Collect(ParseLines(RenderLines(entries))) == ToMap(entries)
  {
    var parsed := ParseLines(RenderLines(entries));
    forall i | 0 <= i < |entries|
      ensures parsed[i] == Some(entries[i]) && Trimmed(entries[i].1)
    {
      ParseRenderLine(entries[i]);
    }
    CollectAllParsed(parsed, entries);
  }

  /** Writing fields as `key: value` lines and importing the text reads back
      exactly those fields, with the measure type inferred from the
      definition. */
  lemma ParseRenderRoundTrip(entries: seq<(Field, string)>)
    requires |entries| >= 1
    requires forall i :: 0 <= i < |entries| ==> Representable(entries[i].1)
    requires MeasureDefinition in ToMap(entries)
    ensures ParseTextContent(Join(RenderLines(entries), '\n'))
            == Ok(TextPpi(ToMap(entries), InferMeasureType(ToMap(entries)[MeasureDefinition])))
  {
    var lines := RenderLines(entries);
    RenderedSplits(entries);
    CollectRendered(entries);
    ReadsCollected(Join(lines, '\n'));
  }

  /** The rendered text splits back into its lines. */
  lemma RenderedSplits(entries: seq<(Field, string)>)
    requires |entries| >= 1
    requires forall i :: 0 <= i < |entries| ==> Representable(entries[i].1)
    ensures Split(Join(RenderLines(entries), '\n'), '\n') == RenderLines(entries)
  {
    var lines := RenderLines(entries);
    forall k | 0 <= k < |lines| ensures '\n' !in lines[k] {
      LabelPlain(entries[k].0);
    }
    SplitJoin(lines, '\n');
  }

  /** Whenever the text defines a measure, the import is the collected
      fields. */
  lemma ReadsCollected(content: string)
    ensures var m := Collect(ParseLines(Split(content, '\n')));
      MeasureDefinition in m ==> ParseTextContent(content) == Ok(TextPpi(m, InferMeasureType(m[MeasureDefinition])))
  {
  }

  /** The text format and the core disagree on precedence: a text that
      mentions a state and data, and nothing about time or counting, is a
      state measure for the panel and a data measure for the core. */
  lemma InferPrefersStateOverData(definition: string)
    requires Contains(ToLower(definition), "state") && Contains(ToLower(definition), "data")
    requires !MentionsAny(ToLower(definition), TimeWords) && !MentionsAny(ToLower(definition), CountWords)
    ensures InferMeasureType(definition) == "state"
    ensures PpiCore.DetectMeasureType(definition, "") == "data"
  {
    var t := ToLower(definition);
    assert Contains(t, StateWords[1]);
    assert !Contains(t, TimeWords[1]) && !Contains(t, CountWords[1]);
    assert ToLower("") == "";
  }

  // ---------------------------------------------------------------------
  // Type-specific measure data

  /** The form keys each measure type copies into its definition. */
  function SpecificKeys(measureType: string): (r: set<string>)
    ensures r != {} <==> measureType in MeasureKinds
    ensures measureType in MeasureKinds ==> |r| <= 3
  {
    if measureType == "time" then {"fromEvent", "toEvent", "timeUnit"}
    else if measureType == "count" then {"countElement"}
    else if measureType == "state" then {"stateCondition"}
    else if measureType == "data" then {"dataField", "dataSource"}
    else if measureType == "derived" then {"formula", "dependencies"}
    else if measureType == "aggregated" then {"aggregationType", "groupBy"}
    else {}
  }

  /** `getMeasureSpecificData(data)`: exactly the selected type's keys, each
      present even when the form left it undefined. */
  function GetMeasureSpecificData(data: map<string, string>, measureType: string): (r: map<string, Option<string>>)
    ensures r.Keys == SpecificKeys(measureType)
    ensures forall k :: k in r ==> r[k] == (if k in data then Some(data[k]) else None)
  {
    map k | k in SpecificKeys(measureType) :: if k in data then Some(data[k]) else None
  }

  // ---------------------------------------------------------------------
  // The panel's record list

  /** The panel's `updatePPI`: unlike the core, it spreads the whole update,
      `__source` included. */
  function UpdatePpi(ppis: seq<Ppi>, id: string, d: Patch, now: int): (r: (bool, seq<Ppi>))
    ensures r.0 <==> exists j :: 0 <= j < |ppis| && ppis[j].id == id
    ensures !r.0 ==> r.1 == ppis
    ensures |r.1| == |ppis|
    ensures r.0 ==> exists i :: (0 <= i < |ppis| && ppis[i].id == id
                                && (forall j :: 0 <= j < i ==> ppis[j].id != id)
                                && r.1[i] == Overlay(ppis[i], d).(updatedAt := now)
                                && forall j :: 0 <= j < |ppis| && j != i ==> r.1[j] == ppis[j])
  {
    match PpiCore.IndexOfId(ppis, id)
    case None => (false, ppis)
    case Some(i) => (true, ppis[i := Overlay(ppis[i], d).(updatedAt := now)])
  }

  /** The panel's `deletePPI`: removes the first record with that id and
      nothing else. */
  function DeletePpi(ppis: seq<Ppi>, id: string): (r: (bool, seq<Ppi>))
    ensures r.0 <==> exists j :: 0 <= j < |ppis| && ppis[j].id == id
    ensures !r.0 ==> r.1 == ppis
    ensures r.0 ==> exists i :: 0 <= i < |ppis| && ppis[i].id == id
                                && (forall j :: 0 <= j < i ==> ppis[j].id != id)
                                && r.1 == PpiCore.RemoveAt(ppis, i)
  {
    match PpiCore.IndexOfId(ppis, id)
    case None => (false, ppis)
    case Some(i) => (true, PpiCore.RemoveAt(ppis, i))
  }

  // ---------------------------------------------------------------------
  // BPMN links

  /** The record links to element `e` under some link type. */
  predicate LinksTo(p: Ppi, e: string) {
    exists k :: k in p.bpmnLink && p.bpmnLink[k] == ElementRef(e)
  }

  /** The panel's `getPPIsForElement(e)`. */
  function PpisForElement(ppis: seq<Ppi>, e: string): (r: seq<Ppi>)
    ensures IsSubsequence(r, ppis)
    ensures forall p :: p in r <==> p in ppis && LinksTo(p, e)
  {
    Filter(ppis, (p: Ppi) => LinksTo(p, e))
  }

  function DropLinksTo(link: map<string, LinkEntry>, e: string): (r: map<string, LinkEntry>)
    ensures forall k :: k in r <==> k in link && link[k] != ElementRef(e)
    ensures forall k :: k in r ==> r[k] == link[k]
  {
    map k | k in link && link[k] != ElementRef(e) :: link[k]
  }

  /** `cleanupBpmnLinks(e)`: every link entry whose value is `e` goes. */
  function CleanupBpmnLinks(ppis: seq<Ppi>, e: string): (r: seq<Ppi>)
    ensures |r| == |ppis|
    ensures forall i :: 0 <= i < |ppis| ==> r[i] == ppis[i].(bpmnLink := DropLinksTo(ppis[i].bpmnLink, e))
    ensures forall i :: 0 <= i < |r| ==> !LinksTo(r[i], e)
  {
    var r := seq(|ppis|, i requires 0 <= i < |ppis| => ppis[i].(bpmnLink := DropLinksTo(ppis[i].bpmnLink, e)));
    assert forall i :: 0 <= i < |r| ==> !LinksTo(r[i], e) by {
      forall i | 0 <= i < |r| ensures !LinksTo(r[i], e) {
        var link := r[i].bpmnLink;
        assert forall k :: k in link ==> link[k] != ElementRef(e);
      }
    }
    r
  }

  /** After the clean-up no record is found for the element, and cleaning up
      again changes nothing. */
  lemma CleanupUnlinks(ppis: seq<Ppi>, e: string)
    ensures PpisForElement(CleanupBpmnLinks(ppis, e), e) == []
    ensures CleanupBpmnLinks(CleanupBpmnLinks(ppis, e), e) == CleanupBpmnLinks(ppis, e)
  {
    var r := CleanupBpmnLinks(ppis, e);
    var f := PpisForElement(r, e);
    assert forall k :: 0 <= k < |f| ==> f[k] in f;
    assert forall k :: 0 <= k < |r| ==> r[k] in r;
    forall i | 0 <= i < |r| ensures DropLinksTo(r[i].bpmnLink, e) == r[i].bpmnLink {
    }
  }

  /** `linkToBpmnElement(id, e, linkType)`: the first record with that id
      links to `e` under `linkType`. */
  function LinkToBpmnElement(ppis: seq<Ppi>, id: string, e: string, linkType: string): (r: (bool, seq<Ppi>))
    ensures r.0 <==> exists j :: 0 <= j < |ppis| && ppis[j].id == id
    ensures !r.0 ==> r.1 == ppis
    ensures |r.1| == |ppis|
    ensures r.0 ==> exists i :: (0 <= i < |ppis| && ppis[i].id == id
                                && (forall j :: 0 <= j < i ==> ppis[j].id != id)
                                && r.1 == ppis[i := ppis[i].(bpmnLink := ppis[i].bpmnLink[linkType := ElementRef(e)])])
  {
    match PpiCore.IndexOfId(ppis, id)
    case None => (false, ppis)
    case Some(i) => (true, ppis[i := ppis[i].(bpmnLink := ppis[i].bpmnLink[linkType := ElementRef(e)])])
  }

  /** A linked record is found for its element. */
  lemma LinkThenFound(ppis: seq<Ppi>, id: string, e: string, linkType: string)
    requires exists j :: 0 <= j < |ppis| && ppis[j].id == id
    ensures exists p :: p in PpisForElement(LinkToBpmnElement(ppis, id, e, linkType).1, e) && p.id == id
  {
    var r := LinkToBpmnElement(ppis, id, e, linkType).1;
    var i :| 0 <= i < |ppis| && ppis[i].id == id
             && r == ppis[i := ppis[i].(bpmnLink := ppis[i].bpmnLink[linkType := ElementRef(e)])];
    assert r[i] in r;
    assert r[i].bpmnLink[linkType] == ElementRef(e);
  }
}
