/**
 * The `form_struct` attribute macro of the procedural-macro crate: what its
 * generated `setup` builds (field configuration, the form's markers, the
 * action row) and how its generated `submit`, `btn_submit` and
 * `get_form_data` systems route events. The schema checks and the field
 * configuration it shares with the derive variant live in `FieldSchema`.
 */
module FormStruct {
  import opened Wrappers
  import opened FieldSchema
  import Button
  import FormActions
  import FormWorld
  import TabOrder

  /** The attribute's arguments: the action enum (by path) and the cancel and submit button texts. */
  datatype FormOpts = FormOpts(actions: Option<string>, submit: Option<string>, cancel: Option<string>)

  // ---------------------------------------------------------------------
  // Setup

  /**
   * The form entity after setup: `Form` and `FormValid` are inserted, and
   * the field entities and then the action row are appended to its
   * children, after any it already had; nothing else changes.
   */
  function SetupForm(n: FormWorld.Node, fieldEntities: seq<Entity>, row: Entity): (r: FormWorld.Node)
    ensures r.isForm && r.formValid
    ensures r.children == Some((if n.children.Some? then n.children.value else []) + fieldEntities + [row])
    ensures r == n.(isForm := true, formValid := true, children := r.children)
  {
    var existing := if n.children.Some? then n.children.value else [];
    n.(isForm := true, formValid := true, children := Some(existing + fieldEntities + [row]))
  }

  /**
   * A form set up by this macro carries `FormValid`, so with the validity
   * passes it always carries one of the two validity markers; in
   * particular, whenever it has no `FormInvalid` it is `FormValid`.
   */
  lemma SetupFormMarked(m: map<Entity, FormWorld.Node>, f: Entity, fieldEntities: seq<Entity>, row: Entity, added: seq<Entity>)
    requires FormWorld.Marked(m) && f in m
    ensures var m' := m[f := SetupForm(m[f], fieldEntities, row)];
      && FormWorld.Marked(m')
      && FormWorld.Marked(FormWorld.InvalidResult(m', added))
      && FormWorld.Marked(FormWorld.ValidResult(m', added))
  {
    var m' := m[f := SetupForm(m[f], fieldEntities, row)];
    FormWorld.MarkersPersist(m', added);
  }

  /** One way an action-row button is produced. */
  datatype ActionStep = CancelButton(text: string) | SubmitButton(text: string) | EnumButtons(actionsPath: string)

  /** Where a step sits in the row. */
  function Rank(s: ActionStep): nat
  {
    match s
    case CancelButton(_) => 0
    case SubmitButton(_) => 1
    case EnumButtons(_) => 2
  }

  /** The steps the arguments ask for. */
  predicate Requested(opts: FormOpts, s: ActionStep)
  {
    match s
    case CancelButton(t) => opts.cancel == Some(t)
    case SubmitButton(t) => opts.submit == Some(t)
    case EnumButtons(p) => opts.actions == Some(p)
  }

  /**
   * `generate_actions_setup`: one step for each requested button kind and
   * nothing else, the cancel button first, then the submit button, then the
   * action enum's buttons.
   */
  method GenerateActionsSetup(opts: FormOpts) returns (steps: seq<ActionStep>)
    ensures forall s :: s in steps <==> Requested(opts, s)
    ensures forall i, j :: 0 <= i < j < |steps| ==> Rank(steps[i]) < Rank(steps[j])
  {
    steps := [];
    if opts.cancel.Some? {
      steps := steps + [CancelButton(opts.cancel.value)];
    }
    if opts.submit.Some? {
      steps := steps + [SubmitButton(opts.submit.value)];
    }
    if opts.actions.Some? {
      steps := steps + [EnumButtons(opts.actions.value)];
    }
  }

  /** A spawned action-row button: its bundle and its `FormActionId`, if it has one. */
  datatype SpawnedButton = SpawnedButton(bundle: Button.FormButtonBundle, actionId: Option<nat>)

  /** The buttons one step spawns for form `form`, given the action enum's variants. */
  function StepButtons(s: ActionStep, form: Entity, variants: seq<FormActions.ActionVariant>): (r: seq<SpawnedButton>)
    ensures forall b :: b in r ==> b.bundle.button.form == Some(form)
    ensures s.EnumButtons? ==> |r| == |variants|
    ensures !s.EnumButtons? ==> |r| == 1 && r[0].actionId.None? && r[0].bundle.button.text == s.text
  {
    match s
    case CancelButton(t) => [SpawnedButton(Button.FormButtonBundle.New(t).WithForm(form).WithRole(Button.Cancel), None)]
    case SubmitButton(t) => [SpawnedButton(Button.FormButtonBundle.New(t).WithForm(form).WithRole(Button.Submit), None)]
    case EnumButtons(_) =>
      var bundles := FormActions.GetButtonBundles(variants, form);
      seq(|bundles|, i requires 0 <= i < |bundles| => SpawnedButton(bundles[i], Some(i)))
  }

  /**
   * The action row, step after step. Every button belongs to `form`; a
   * button without an id is a cancel or submit button with the configured
   * text; the button with id `i` is the enum's `i`-th bundle.
   */
  function ActionRow(steps: seq<ActionStep>, form: Entity, variants: seq<FormActions.ActionVariant>): (r: seq<SpawnedButton>)
    ensures forall b :: b in r ==> b.bundle.button.form == Some(form)
    ensures forall b :: b in r && b.actionId.Some? ==>
      b.actionId.value < |variants| && b.bundle == FormActions.GetButtonBundles(variants, form)[b.actionId.value]
    ensures forall b :: b in r && b.actionId.None? ==>
      || (b.bundle.role == Button.Cancel && CancelButton(b.bundle.button.text) in steps)
      || (b.bundle.role == Button.Submit && SubmitButton(b.bundle.button.text) in steps)
  {
    if steps == [] then []
    else
      var rest := ActionRow(steps[1..], form, variants);
      assert forall s :: s in steps[1..] ==> s in steps;
      StepButtons(steps[0], form, variants) + rest
  }

  /** The row of a concatenation of steps is the concatenation of their rows. */
  lemma {:induction false} ActionRowConcat(a: seq<ActionStep>, b: seq<ActionStep>, form: Entity, variants: seq<FormActions.ActionVariant>)
    ensures ActionRow(a + b, form, variants) == ActionRow(a, form, variants) + ActionRow(b, form, variants)
  {
    if a == [] {
      assert a + b == b;
    } else {
      assert (a + b)[1..] == a[1..] + b;
      ActionRowConcat(a[1..], b, form, variants);
    }
  }

  /** Two step lists in strictly increasing rank with the same members are equal. */
  lemma {:induction false} RankSortedUnique(a: seq<ActionStep>, b: seq<ActionStep>)
    requires forall i, j :: 0 <= i < j < |a| ==> Rank(a[i]) < Rank(a[j])
    requires forall i, j :: 0 <= i < j < |b| ==> Rank(b[i]) < Rank(b[j])
    requires forall s :: s in a <==> s in b
    ensures a == b
  {
    if a != [] {
      assert a[0] in a && b[0] in b;
      var k :| 0 <= k < |b| && b[k] == a[0];
      var l :| 0 <= l < |a| && a[l] == b[0];
      assert k == 0;
      forall s
        ensures s in a[1..] <==> s in b[1..]
      {
        if s in a[1..] {
          var i :| 1 <= i < |a| && a[i] == s;
          assert Rank(a[0]) < Rank(a[i]);
          assert s in a && s in b;
          var j :| 0 <= j < |b| && b[j] == s;
          assert j != 0;
          assert b[1..][j - 1] == s;
        }
        if s in b[1..] {
          var i :| 1 <= i < |b| && b[i] == s;
          assert Rank(b[0]) < Rank(b[i]);
          assert s in b && s in a;
          var j :| 0 <= j < |a| && a[j] == s;
          assert j != 0;
          assert a[1..][j - 1] == s;
        }
      }
      RankSortedUnique(a[1..], b[1..]);
      assert a == [a[0]] + a[1..] && b == [b[0]] + b[1..];
    }
  }

  /** The steps the arguments ask for, in rank order. */
  function RequestedSteps(opts: FormOpts): seq<ActionStep>
  {
    (if opts.cancel.Some? then [CancelButton(opts.cancel.value)] else [])
    + (if opts.submit.Some? then [SubmitButton(opts.submit.value)] else [])
    + (if opts.actions.Some? then [EnumButtons(opts.actions.value)] else [])
  }

  /** Any steps meeting what `GenerateActionsSetup` promises are exactly the requested steps in rank order. */
  lemma StepsAreRequested(opts: FormOpts, steps: seq<ActionStep>)
    requires forall s :: s in steps <==> Requested(opts, s)
    requires forall i, j :: 0 <= i < j < |steps| ==> Rank(steps[i]) < Rank(steps[j])
    ensures steps == RequestedSteps(opts)
  {
    RequestedStepsSorted(opts);
    RankSortedUnique(steps, RequestedSteps(opts));
  }

  /** The requested steps in rank order are what `GenerateActionsSetup` promises. */
  lemma RequestedStepsSorted(opts: FormOpts)
    ensures forall s :: s in RequestedSteps(opts) <==> Requested(opts, s)
    ensures var canon := RequestedSteps(opts);
      forall i, j :: 0 <= i < j < |canon| ==> Rank(canon[i]) < Rank(canon[j])
  {
    var cs := if opts.cancel.Some? then [CancelButton(opts.cancel.value)] else [];
    var ss := if opts.submit.Some? then [SubmitButton(opts.submit.value)] else [];
    var es := if opts.actions.Some? then [EnumButtons(opts.actions.value)] else [];
    assert RequestedSteps(opts) == cs + ss + es;
    forall s
      ensures s in cs + ss + es <==> Requested(opts, s)
    {
    }
  }

  /** The buttons of the requested steps, part by part. */
  lemma RequestedRow(opts: FormOpts, form: Entity, variants: seq<FormActions.ActionVariant>)
    ensures ActionRow(RequestedSteps(opts), form, variants) ==
      (if opts.cancel.Some? then [SpawnedButton(Button.FormButtonBundle.New(opts.cancel.value).WithForm(form).WithRole(Button.Cancel), None)] else [])
      + (if opts.submit.Some? then [SpawnedButton(Button.FormButtonBundle.New(opts.submit.value).WithForm(form).WithRole(Button.Submit), None)] else [])
      + (if opts.actions.Some? then StepButtons(EnumButtons(opts.actions.value), form, variants) else [])
  {
    var cs := if opts.cancel.Some? then [CancelButton(opts.cancel.value)] else [];
    var ss := if opts.submit.Some? then [SubmitButton(opts.submit.value)] else [];
    var es := if opts.actions.Some? then [EnumButtons(opts.actions.value)] else [];
    ActionRowConcat(cs + ss, es, form, variants);
    ActionRowConcat(cs, ss, form, variants);
    assert ActionRow(cs, form, variants) == if opts.cancel.Some? then StepButtons(cs[0], form, variants) else [];
    assert ActionRow(ss, form, variants) == if opts.submit.Some? then StepButtons(ss[0], form, variants) else [];
    assert ActionRow(es, form, variants) == if opts.actions.Some? then StepButtons(es[0], form, variants) else [];
  }

  /** The enum step spawns the enum's bundles in order, the `i`-th carrying id `i`. */
  lemma EnumStepButtons(path: string, form: Entity, variants: seq<FormActions.ActionVariant>)
    ensures var r, bundles := StepButtons(EnumButtons(path), form, variants), FormActions.GetButtonBundles(variants, form);
      |r| == |variants| && forall i :: 0 <= i < |variants| ==> r[i] == SpawnedButton(bundles[i], Some(i))
  {
  }

  /**
   * The whole action row of `generate_actions_setup`: the cancel button if
   * a cancel text is given, then the submit button if a submit text is
   * given, then, if an action enum is named, one button per variant in
   * declaration order, the `i`-th carrying `FormActionId(i)`; nothing else.
   */
  lemma ActionRowLayout(opts: FormOpts, steps: seq<ActionStep>, form: Entity, variants: seq<FormActions.ActionVariant>)
    requires forall s :: s in steps <==> Requested(opts, s)
    requires forall i, j :: 0 <= i < j < |steps| ==> Rank(steps[i]) < Rank(steps[j])
    ensures ActionRow(steps, form, variants) ==
      (if opts.cancel.Some? then [SpawnedButton(Button.FormButtonBundle.New(opts.cancel.value).WithForm(form).WithRole(Button.Cancel), None)] else [])
      + (if opts.submit.Some? then [SpawnedButton(Button.FormButtonBundle.New(opts.submit.value).WithForm(form).WithRole(Button.Submit), None)] else [])
      + (if opts.actions.Some? then
           seq(|variants|, i requires 0 <= i < |variants| => SpawnedButton(FormActions.GetButtonBundles(variants, form)[i], Some(i)))
         else [])
  {
    StepsAreRequested(opts, steps);
    RequestedRow(opts, form, variants);
    if opts.actions.Some? {
      EnumStepButtons(opts.actions.value, form, variants);
    }
  }

  /**
   * Every enum button of the row is dispatched back to its own variant: the
   * generated `from_id_and_data` rebuilds variant `i` from `FormActionId(i)`
   * (given data when the variant carries data), and the button shows that
   * variant's role and text.
   */
  lemma ActionRowRoundTrip(steps: seq<ActionStep>, form: Entity, variants: seq<FormActions.ActionVariant>, b: SpawnedButton, data: Option<FormData>)
    requires b in ActionRow(steps, form, variants) && b.actionId.Some?
    requires variants[b.actionId.value].hasFields ==> data.Some?
    ensures var i := b.actionId.value;
      && b.bundle.role == FormActions.RoleOf(variants[i].action)
      && b.bundle.button.text == FormActions.ButtonText(variants[i])
      && FormActions.FromIdAndData(variants, i, data) == Ok(FormActions.ActionValue(i, if variants[i].hasFields then data else None))
  {
    FormActions.ButtonIdRoundTrip(variants, form, b.actionId.value, data);
  }

  /** The ordered children of a form whose children are the fields and then anything without an order. */
  lemma {:induction false} OrderedFieldChildren(m: map<Entity, FormWorld.Node>, ents: seq<Entity>, rest: seq<Entity>, k: nat)
    requires forall i :: 0 <= i < |ents| ==> ents[i] in m && m[ents[i]].order == Some(k + i)
    requires forall c :: c in rest && c in m ==> m[c].order.None?
    ensures var r := FormWorld.OrderedChildren(m, ents + rest);
      |r| == |ents| && forall i :: 0 <= i < |ents| ==> r[i] == TabOrder.Slot(ents[i], k + i)
  {
    if ents == [] {
      assert ents + rest == rest;
      NoOrderedChildren(m, rest);
    } else {
      var tail := ents[1..];
      assert (ents + rest)[1..] == tail + rest;
      assert (ents + rest)[0] == ents[0];
      forall i | 0 <= i < |tail|
        ensures tail[i] in m && m[tail[i]].order == Some(k + 1 + i)
      {
        assert tail[i] == ents[i + 1];
      }
      OrderedFieldChildren(m, tail, rest, k + 1);
      var rec := FormWorld.OrderedChildren(m, tail + rest);
      assert FormWorld.OrderedChildren(m, ents + rest) == [TabOrder.Slot(ents[0], k)] + rec;
    }
  }

  lemma {:induction false} NoOrderedChildren(m: map<Entity, FormWorld.Node>, rest: seq<Entity>)
    requires forall c :: c in rest && c in m ==> m[c].order.None?
    ensures FormWorld.OrderedChildren(m, rest) == []
  {
    if rest != [] {
      NoOrderedChildren(m, rest[1..]);
    }
  }

  /**
   * Tab in a generated form targets the fields in declaration order: when
   * the field entities carry the orders setup gives them, the form's other
   * children carry none, and field `j` is the one focused element, Tab adds
   * focus to field `j + 1`, wrapping around to the first after the last.
   */
  lemma TabFollowsDeclarationOrder(m: map<Entity, FormWorld.Node>, f: Entity, fields: seq<FormField>, ents: seq<Entity>, rest: seq<Entity>, j: nat)
    requires |ents| == |fields| && j < |fields|
    requires f in m && m[f].children == Some(ents + rest)
    requires forall i :: 0 <= i < |ents| ==> ents[i] in m && m[ents[i]].order == Some(FieldSetups(fields)[i].order)
    requires forall c :: c in rest && c in m ==> m[c].order.None?
    requires FormWorld.Focused(m) == {ents[j]}
    ensures var next := ents[if j + 1 < |ents| then j + 1 else 0];
      FormWorld.Focused(FormWorld.TabResult(m, f)) == {ents[j], next}
  {
    OrderedFieldChildren(m, ents, rest, 0);
    var slots := FormWorld.OrderedChildren(m, ents + rest);
    assert FormWorld.FocusOrder(m) == j;
    TabOrder.TabOnConsecutive(slots, j);
    FormWorld.WithFocusSpec(m, TabOrder.TabTarget(slots, j));
  }

  // ---------------------------------------------------------------------
  // The generated systems

  /**
   * The form events the generated code sends and reads: `Submit` with the
   * struct, `Cancel` naming the form, and `Custom` with a button's role
   * name and the form data, if any.
   */
  datatype RoutedEvent<T> = Submit(data: T) | Cancel(form: Entity) | Custom(form: Entity, name: string, payload: Option<T>)

  /**
   * The generated `get_form_data`: with exactly one marker entity that is
   * `FormValid`, reads every field through the field resource (panicking
   * when the resource is missing or a required field has no value);
   * otherwise gives no data.
   */
  function GetFormData(fields: seq<FormField>, view: FormView): (r: Run<Option<FormData>>)
    requires Fits(fields, view)
    ensures |ValidForms(view.forms)| != 1 ==> r == Done(None)
    ensures |ValidForms(view.forms)| == 1 && view.fieldEntities.None? ==> r == Panicked(UnwrapNone)
    ensures r.Done? && r.value.Some? <==>
      |ValidForms(view.forms)| == 1 && view.fieldEntities.Some? && ReadFields(fields, view.fieldEntities.value, view.values).Done?
    ensures r.Done? && r.value.Some? ==> r.value.value == FormData(ReadFields(fields, view.fieldEntities.value, view.values).value)
  {
    if |ValidForms(view.forms)| != 1 then Done(None)
    else if view.fieldEntities.None? then Panicked(UnwrapNone)
    else
      match ReadFields(fields, view.fieldEntities.value, view.values)
      case Panicked(m) => Panicked(m)
      case Done(vs) => Done(Some(FormData(vs)))
  }

  /** The generated `submit` for one generic form event. */
  function SubmitStep(fields: seq<FormField>, view: FormView, ev: RoutedEvent<Entity>): (r: Run<seq<RoutedEvent<FormData>>>)
    requires Fits(fields, view)
    ensures r.Done? ==> |r.value| <= 1
  {
    match ev
    case Submit(_) =>
      if |view.forms| != 1 then Done([])
      else (
        match GetFormData(fields, view)
        case Panicked(m) => Panicked(m)
        case Done(None) => Panicked(UnwrapNone)
        case Done(Some(d)) => Done([Submit(d)]))
    case Cancel(e) => Done([Cancel(e)])
    case Custom(_, _, _) => Done([])
  }

  /**
   * How `submit` routes one event. Cancel is forwarded as it is; Custom is
   * dropped; Submit is dropped unless exactly one entity carries the
   * marker, and then the data of that form is sent whichever entity the
   * event names; if that form is not `FormValid` the unwrap of the missing
   * data panics.
   */
  lemma SubmitStepSpec(fields: seq<FormField>, view: FormView, ev: RoutedEvent<Entity>, ev': RoutedEvent<Entity>)
    requires Fits(fields, view)
    ensures ev.Cancel? ==> SubmitStep(fields, view, ev) == Done([Cancel(ev.form)])
    ensures ev.Custom? ==> SubmitStep(fields, view, ev) == Done([])
    ensures ev.Submit? && |view.forms| != 1 ==> SubmitStep(fields, view, ev) == Done([])
    ensures ev.Submit? && ev'.Submit? ==> SubmitStep(fields, view, ev) == SubmitStep(fields, view, ev')
    ensures ev.Submit? && |view.forms| == 1 && !view.forms[0].valid ==> SubmitStep(fields, view, ev) == Panicked(UnwrapNone)
    ensures ev.Submit? && |view.forms| == 1 && view.forms[0].valid && view.fieldEntities.Some? ==>
      var read := ReadFields(fields, view.fieldEntities.value, view.values);
      SubmitStep(fields, view, ev) == if read.Done? then Done([Submit(FormData(read.value))]) else Panicked(UnwrapErr)
  {
    if |view.forms| == 1 {
      assert view.forms == [view.forms[0]];
      assert view.forms[1..] == [];
      assert ValidForms(view.forms) == if view.forms[0].valid then [view.forms[0]] else [];
    }
  }

  /** The generated `submit` over the events of a frame, stopping at the first panic. */
  function SubmitAll(fields: seq<FormField>, view: FormView, events: seq<RoutedEvent<Entity>>): (r: Run<seq<RoutedEvent<FormData>>>)
    requires Fits(fields, view)
    ensures r.Done? ==> |r.value| <= |events|
  {
    if events == [] then Done([])
    else
      match SubmitAll(fields, view, events[..|events| - 1])
      case Panicked(m) => Panicked(m)
      case Done(out) =>
        match SubmitStep(fields, view, events[|events| - 1])
        case Panicked(m) => Panicked(m)
        case Done(o) => Done(out + o)
  }

  /** Cancel events pass through `submit` one for one and in order. */
  lemma {:induction false} SubmitAllCancels(fields: seq<FormField>, view: FormView, events: seq<RoutedEvent<Entity>>)
    requires Fits(fields, view)
    requires forall i :: 0 <= i < |events| ==> events[i].Cancel?
    ensures var r := SubmitAll(fields, view, events);
      r.Done? && |r.value| == |events| && forall i :: 0 <= i < |events| ==> r.value[i] == Cancel(events[i].form)
  {
    if events != [] {
      var init := events[..|events| - 1];
      SubmitAllCancels(fields, view, init);
      var last := events[|events| - 1];
      assert SubmitStep(fields, view, last) == Done([Cancel(last.form)]);
      var r := SubmitAll(fields, view, events);
      assert forall i :: 0 <= i < |init| ==> init[i] == events[i];
    }
  }

  /** The generated `submit` system: the events of the frame, in order. */
  method SubmitSystem(fields: seq<FormField>, view: FormView, events: seq<RoutedEvent<Entity>>) returns (r: Run<seq<RoutedEvent<FormData>>>)
    requires Fits(fields, view)
    ensures r == SubmitAll(fields, view, events)
  {
    var sent: seq<RoutedEvent<FormData>> := [];
    var i := 0;
    while i < |events|
      invariant 0 <= i <= |events|
      invariant SubmitAll(fields, view, events[..i]) == Done(sent)
    {
      assert events[..i + 1][..i] == events[..i];
      var step := SubmitStep(fields, view, events[i]);
      if step.Panicked? {
        assert SubmitAll(fields, view, events[..i + 1]) == step;
        PanicSticks(fields, view, events, i + 1);
        return step;
      }
      sent := sent + step.value;
      i := i + 1;
    }
    assert events[..i] == events;
    r := Done(sent);
  }

  /** Once the events up to `k` panic, so do all the events. */
  lemma {:induction false} PanicSticks(fields: seq<FormField>, view: FormView, events: seq<RoutedEvent<Entity>>, k: nat)
    requires Fits(fields, view) && k <= |events|
    requires SubmitAll(fields, view, events[..k]).Panicked?
    decreases |events| - k
    ensures SubmitAll(fields, view, events) == SubmitAll(fields, view, events[..k])
  {
    if k < |events| {
      assert events[..k + 1][..k] == events[..k];
      PanicSticks(fields, view, events, k + 1);
    } else {
      assert events[..k] == events;
    }
  }

  /** The components `btn_submit` looks up on a pressed button: its role and its `FormActionId`. */
  datatype ButtonComponents = ButtonComponents(role: Option<Button.ButtonRole>, actionId: Option<nat>)

  /** What `btn_submit` sends: a form event, or a value of the action enum. */
  datatype Sent = FormSent(event: RoutedEvent<FormData>) | ActionSent(action: FormActions.ActionValue<FormData>)

  /** The single marker entity, when there is exactly one. */
  function SingleForm(view: FormView): (r: Option<Entity>)
    ensures r.Some? <==> |view.forms| == 1
    ensures r.Some? ==> r.value == view.forms[0].entity
  {
    if |view.forms| == 1 then Some(view.forms[0].entity) else None
  }

  /**
   * The generated `btn_submit` for one press. `actions` is the action
   * enum's variants when the attribute names one.
   */
  function BtnStep(fields: seq<FormField>, view: FormView, buttons: map<Entity, ButtonComponents>,
                   actions: Option<seq<FormActions.ActionVariant>>, ev: Button.ButtonPressEvent): (r: Run<seq<Sent>>)
    requires Fits(fields, view)
    ensures r.Done? ==> |r.value| <= 1
  {
    var form := SingleForm(view);
    if form.None? || ev.button.form != form then Done([])
    else if actions.Some? && ev.entity in buttons && buttons[ev.entity].actionId.Some? then
      match GetFormData(fields, view)
      case Panicked(m) => Panicked(m)
      case Done(data) =>
        match FormActions.FromIdAndData(actions.value, buttons[ev.entity].actionId.value, data)
        case Err(msg) => Panicked(UnwrapErr + ": " + msg)
        case Ok(a) => Done([ActionSent(a)])
    else if ev.entity in buttons && buttons[ev.entity].actionId.None? && buttons[ev.entity].role.Some? then
      match GetFormData(fields, view)
      case Panicked(m) => Panicked(m)
      case Done(data) =>
        match buttons[ev.entity].role.value
        case Submit => if data.Some? then Done([FormSent(Submit(data.value))]) else Done([])
        case Cancel => Done([FormSent(Cancel(form.value))])
        case Custom(name) => Done([FormSent(Custom(form.value, name, data))])
        case Apply => Done([])
    else Done([])
  }

  /**
   * Presses that `btn_submit` ignores: when there is not exactly one form
   * entity, when the button names no form or another form, and when the
   * button has neither a role nor (with an action enum) an id.
   */
  lemma BtnIgnores(fields: seq<FormField>, view: FormView, buttons: map<Entity, ButtonComponents>,
                   actions: Option<seq<FormActions.ActionVariant>>, ev: Button.ButtonPressEvent)
    requires Fits(fields, view)
    requires || |view.forms| != 1
             || ev.button.form != Some(view.forms[0].entity)
             || ev.entity !in buttons
             || (buttons[ev.entity].actionId.Some? && actions.None?)
             || (buttons[ev.entity].actionId.None? && buttons[ev.entity].role.None?)
    ensures BtnStep(fields, view, buttons, actions, ev) == Done([])
  {
  }

  /**
   * A press of an action button of the single form goes to the action enum
   * and never to the form events. When the form data can be read, an id
   * naming a variant that carries no data, or one that carries data while
   * there is some, sends that variant with the data as its payload exactly
   * when the variant carries data; a data-carrying variant without data
   * panics with the "Expected entity" message, and an id past the last
   * variant panics with the "Unknown action id" message naming the id. A
   * panic while reading the data is passed on.
   */
  lemma BtnActionRoute(fields: seq<FormField>, view: FormView, buttons: map<Entity, ButtonComponents>,
                       variants: seq<FormActions.ActionVariant>, ev: Button.ButtonPressEvent)
    requires Fits(fields, view)
    requires |view.forms| == 1 && ev.button.form == Some(view.forms[0].entity)
    requires ev.entity in buttons && buttons[ev.entity].actionId.Some?
    ensures var r, id, data := BtnStep(fields, view, buttons, Some(variants), ev), buttons[ev.entity].actionId.value,
        GetFormData(fields, view);
      && (data.Panicked? ==> r == Panicked(data.message))
      && (data.Done? && id < |variants| && (!variants[id].hasFields || data.value.Some?) ==>
            r == Done([ActionSent(FormActions.ActionValue(id, if variants[id].hasFields then data.value else None))]))
      && (data.Done? && id < |variants| && variants[id].hasFields && data.value.None? ==>
            r == Panicked(UnwrapErr + ": " + FormActions.ExpectedEntity))
      && (data.Done? && id >= |variants| ==>
            r == Panicked(UnwrapErr + ": " + FormActions.UnknownActionId + FormActions.Decimal(id)))
  {
  }

  /**
   * A press of a role button of the single form. Submit sends the form data
   * exactly when there is some, which takes the form to be `FormValid`, and
   * otherwise sends nothing; Cancel sends `Cancel(form)`; a custom role
   * sends its name with the data if any; Apply sends nothing. A panic while
   * reading the data is passed on. When no single form is `FormValid` no
   * data is read, so nothing panics and Cancel and Custom always go out.
   */
  lemma BtnRoleRoute(fields: seq<FormField>, view: FormView, buttons: map<Entity, ButtonComponents>,
                     actions: Option<seq<FormActions.ActionVariant>>, ev: Button.ButtonPressEvent)
    requires Fits(fields, view)
    requires |view.forms| == 1 && ev.button.form == Some(view.forms[0].entity)
    requires ev.entity in buttons && buttons[ev.entity].actionId.None? && buttons[ev.entity].role.Some?
    ensures var r, role, form, data := BtnStep(fields, view, buttons, actions, ev), buttons[ev.entity].role.value,
        view.forms[0].entity, GetFormData(fields, view);
      && (data.Panicked? ==> r == Panicked(data.message))
      && (role.Submit? && data.Done? && data.value.Some? ==> r == Done([FormSent(Submit(data.value.value))]))
      && (role.Submit? && data.Done? && data.value.None? ==> r == Done([]))
      && (role.Submit? && r.Done? && r.value != [] ==> |ValidForms(view.forms)| == 1 && view.forms[0].valid)
      && (role.Cancel? && data.Done? ==> r == Done([FormSent(Cancel(form))]))
      && (role.Custom? && data.Done? ==> r == Done([FormSent(Custom(form, role.name, data.value))]))
      && (role.Apply? && data.Done? ==> r == Done([]))
      && (!view.forms[0].valid ==> data == Done(None))
  {
    assert view.forms[1..] == [];
    assert ValidForms(view.forms) == if view.forms[0].valid then [view.forms[0]] else [];
  }

  /** The generated `btn_submit` over the presses of a frame, stopping at the first panic. */
  function BtnAll(fields: seq<FormField>, view: FormView, buttons: map<Entity, ButtonComponents>,
                  actions: Option<seq<FormActions.ActionVariant>>, presses: seq<Button.ButtonPressEvent>): (r: Run<seq<Sent>>)
    requires Fits(fields, view)
    ensures r.Done? ==> |r.value| <= |presses|
  {
    if presses == [] then Done([])
    else
      match BtnAll(fields, view, buttons, actions, presses[..|presses| - 1])
      case Panicked(m) => Panicked(m)
      case Done(out) =>
        match BtnStep(fields, view, buttons, actions, presses[|presses| - 1])
        case Panicked(m) => Panicked(m)
        case Done(o) => Done(out + o)
  }

  /** The generated `btn_submit` system: the presses of the frame, in order. */
  method BtnSubmit(fields: seq<FormField>, view: FormView, buttons: map<Entity, ButtonComponents>,
                   actions: Option<seq<FormActions.ActionVariant>>, presses: seq<Button.ButtonPressEvent>) returns (r: Run<seq<Sent>>)
    requires Fits(fields, view)
    ensures r == BtnAll(fields, view, buttons, actions, presses)
  {
    var sent: seq<Sent> := [];
    var i := 0;
    while i < |presses|
      invariant 0 <= i <= |presses|
      invariant BtnAll(fields, view, buttons, actions, presses[..i]) == Done(sent)
    {
      assert presses[..i + 1][..i] == presses[..i];
      var step := BtnStep(fields, view, buttons, actions, presses[i]);
      if step.Panicked? {
        BtnPanicSticks(fields, view, buttons, actions, presses, i + 1);
        return step;
      }
      sent := sent + step.value;
      i := i + 1;
    }
    assert presses[..i] == presses;
    r := Done(sent);
  }

  /** Once the presses up to `k` panic, so do all the presses. */
  lemma {:induction false} BtnPanicSticks(fields: seq<FormField>, view: FormView, buttons: map<Entity, ButtonComponents>,
                                          actions: Option<seq<FormActions.ActionVariant>>, presses: seq<Button.ButtonPressEvent>, k: nat)
    requires Fits(fields, view) && k <= |presses|
    requires BtnAll(fields, view, buttons, actions, presses[..k]).Panicked?
    decreases |presses| - k
    ensures BtnAll(fields, view, buttons, actions, presses) == BtnAll(fields, view, buttons, actions, presses[..k])
  {
    if k < |presses| {
      assert presses[..k + 1][..k] == presses[..k];
      BtnPanicSticks(fields, view, buttons, actions, presses, k + 1);
    } else {
      assert presses[..k] == presses;
    }
  }
}
