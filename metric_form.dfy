/** The metric editor (pages/ManageMetrics.tsx): the formula builder's
    key pad, the form's initial state, what a save sends to the store, the
    two toggles of the metric list, and the survey questions a metric can
    be linked to. */
module MetricForm {
  import opened Seqs
  import opened Types
  import Store

  /** The calculator's text: every key appends its text, `C` clears it and
      `⌫` drops its last character. */
  class FormulaBuilder {
    var formula: string

    /** `useState(metric?.formula || '')` */
    constructor (initial: Option<string>)
      ensures formula == if Truthy(initial) then initial.value else ""
    {
      formula := if Truthy(initial) then initial.value else "";
    }

    /** `handleFormulaButtonClick`: a digit, an operator or a `[Name]` button. */
    method Press(value: string)
      modifies this
      ensures formula == old(formula) + value
    {
      formula := formula + value;
    }

    /** `handleFormulaControl`: the keys `(`, `)`, `C` and `⌫`. */
    method Control(action: string)
      modifies this
      ensures formula == Controlled(old(formula), action)
    {
      if action == "C" {
        formula := "";
      } else if action == "⌫" {
        formula := if |formula| == 0 then formula else formula[..|formula| - 1];
      } else {
        Press(action);
      }
    }
  }

  /** The formula after a control key: `C` empties it, `⌫` is `slice(0, -1)`,
      any other key is appended. */
  function Controlled(f: string, action: string): (r: string)
    ensures action == "C" ==> r == ""
    ensures action == "⌫" ==> |r| == if |f| == 0 then 0 else |f| - 1
    ensures action == "⌫" ==> r == f[..|r|]
    ensures action != "C" && action != "⌫" ==> r == f + action
  {
    if action == "C" then ""
    else if action == "⌫" then (if |f| == 0 then f else f[..|f| - 1])
    else f + action
  }

  /** `⌫` undoes the key that appended one character, and leaves the empty formula empty. */
  lemma BackspaceUndoes(f: string, c: char)
    ensures Controlled(f + [c], "⌫") == f
    ensures Controlled("", "⌫") == ""
  {
    assert (f + [c])[..|f|] == f;
  }

  /** The keys of the pad, in screen order; the first four go through `Control`. */
  const ControlKeys: seq<string> := ["(", ")", "C", "⌫"]
  const PadKeys: seq<string> := ["7", "8", "9", "/", "4", "5", "6", "*", "1", "2", "3", "-", "0", ".", "+"]

  /** Every pad key and the two parenthesis keys append exactly one
      character of the formula grammar. */
  lemma PadKeysAppendOneToken(k: string, f: string)
    requires k in PadKeys || k == "(" || k == ")"
    ensures |Controlled(f, k)| == |f| + 1
    ensures Controlled(f, k)[|f|] in "0123456789.+-*/()"
  {
    assert |k| == 1;
    assert Controlled(f, k)[|f|] == k[0];
  }

  /** The metric buttons: one per active Manual metric, in registry order. */
  function MetricButtons(all: seq<Metric>): (r: seq<Metric>)
    ensures forall m :: m in r <==> m in all && m.inputType == Manual && m.isActive
  {
    var f := Filter(all, (m: Metric) => m.inputType == Manual && m.isActive);
    assert forall m :: m in f ==> exists i :: 0 <= i < |f| && f[i] == m;
    assert forall m :: m in all ==> exists i :: 0 <= i < |all| && all[i] == m;
    f
  }

  /** The text a metric button appends: its name in brackets. */
  function ButtonText(m: Metric): (s: string)
    ensures |s| == |m.name| + 2 && s[0] == '[' && s[|s| - 1] == ']' && s[1..|s| - 1] == m.name
  {
    "[" + m.name + "]"
  }

  /** The questions a Survey metric can read from: active and not free text. */
  function QuestionChoices(questions: seq<SurveyQuestion>): (r: seq<SurveyQuestion>)
    ensures forall q :: q in r <==> q in questions && q.isActive && q.questionType != TextareaQuestion
  {
    var f := Filter(questions, (q: SurveyQuestion) => q.isActive && q.questionType != TextareaQuestion);
    assert forall q :: q in f ==> exists i :: 0 <= i < |f| && f[i] == q;
    assert forall q :: q in questions ==> exists i :: 0 <= i < |questions| && questions[i] == q;
    f
  }

  /** The editor's fields. */
  datatype Form = Form(name: string, unit: string, inputType: MetricInputType, formula: string,
                       surveyQuestionKey: string, showInRadar: bool)

  function OrEmpty(s: Option<string>): string
  {
    if Truthy(s) then s.value else ""
  }

  /** The initial fields: those of the edited metric, or the defaults of a new one. */
  function InitialForm(metric: Option<Metric>): (f: Form)
    ensures metric.None? ==> f == Form("", "kg", Manual, "", "", false)
    ensures metric.Some? ==> f.name == metric.value.name && f.inputType == metric.value.inputType &&
                             f.showInRadar == (metric.value.showInRadar == Some(true))
    ensures metric.Some? ==> f.unit == if metric.value.unit != "" then metric.value.unit else "kg"
    ensures metric.Some? ==> f.formula == if Truthy(metric.value.formula) then metric.value.formula.value else ""
    ensures metric.Some? ==> f.surveyQuestionKey ==
                               if Truthy(metric.value.surveyQuestionKey) then metric.value.surveyQuestionKey.value else ""
  {
    match metric
    case None => Form("", "kg", Manual, "", "", false)
    case Some(m) =>
      Form(m.name, if m.unit != "" then m.unit else "kg", m.inputType, OrEmpty(m.formula),
           OrEmpty(m.surveyQuestionKey), m.showInRadar == Some(true))
  }

  /** `metricData`: the formula is kept only for a Calculated metric and the
      question key only for a Survey metric; otherwise they are sent empty. */
  function SavedFormula(f: Form): string
  {
    if f.inputType == Calculated then f.formula else ""
  }

  function SavedKey(f: Form): string
  {
    if f.inputType == Survey then f.surveyQuestionKey else ""
  }

  /** What `addMetric` receives: the fields, created active. */
  function NewMetricInput(f: Form): Metric
  {
    Metric("", f.name, f.unit, f.inputType, Some(SavedFormula(f)), Some(SavedKey(f)), true, Some(f.showInRadar))
  }

  /** What `updateMetric` receives: every field of the form, not `isActive`. */
  function EditPatch(f: Form): Store.MetricPatch
  {
    Store.MetricPatch(Some(f.name), Some(f.unit), Some(f.inputType), Some(Some(SavedFormula(f))),
                      Some(Some(SavedKey(f))), None, Some(Some(f.showInRadar)))
  }

  /** A metric created from the form is active, shows in the radar as
      chosen, and carries a formula or a question key only when its type uses one. */
  lemma CreatedMetric(f: Form, now: nat)
    ensures var m := Store.NewMetric(NewMetricInput(f), now);
            m.isActive && m.name == f.name && m.inputType == f.inputType &&
            m.showInRadar == Some(f.showInRadar) &&
            (f.inputType != Calculated ==> m.formula == Some("")) &&
            (f.inputType != Survey ==> m.surveyQuestionKey == Some("")) &&
            (f.inputType == Calculated ==> m.formula == Some(f.formula)) &&
            (f.inputType == Survey ==> m.surveyQuestionKey == Some(f.surveyQuestionKey))
  {
  }

  /** Saving an edit keeps the metric's id and active flag and takes every field from the form. */
  lemma EditedMetric(m: Metric, f: Form)
    ensures var r := Store.PatchingMetric(EditPatch(f))(m);
            r.id == m.id && r.isActive == m.isActive &&
            r.name == f.name && r.unit == f.unit && r.inputType == f.inputType &&
            r.formula == Some(SavedFormula(f)) && r.surveyQuestionKey == Some(SavedKey(f)) &&
            r.showInRadar == Some(f.showInRadar)
  {
  }

  datatype ToggleField = IsActiveField | ShowInRadarField

  /** `handleToggle`: `{ [field]: !metric[field] }`, an absent radar flag reading as false. */
  function TogglePatch(m: Metric, field: ToggleField): Store.MetricPatch
  {
    match field
    case IsActiveField => Store.MetricPatch(None, None, None, None, None, Some(!m.isActive), None)
    case ShowInRadarField => Store.MetricPatch(None, None, None, None, None, None, Some(Some(m.showInRadar != Some(true))))
  }

  /** A toggle flips exactly its own field and nothing else. */
  lemma ToggleFlipsOne(m: Metric, field: ToggleField)
    ensures var r := Store.PatchingMetric(TogglePatch(m, field))(m);
            match field
            case IsActiveField => r == m.(isActive := !m.isActive)
            case ShowInRadarField =>
              r == m.(showInRadar := r.showInRadar) &&
              (r.showInRadar == Some(true) <==> m.showInRadar != Some(true))
  {
  }
}
