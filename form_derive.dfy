/**
 * The older `form_struct` of the derive crate. It applies the same schema
 * checks as the attribute macro but panics instead of reporting an error,
 * configures the fields the same way, gives the form entity only `Form`
 * (no `FormValid`, no action row), and its generated `submit` reads the
 * core's generic form events directly.
 */
module FormDerive {
  import opened Wrappers
  import opened FieldSchema
  import FormWorld
  import FormStruct

  /** The expansion: the struct's paired fields, or a panic with the refusal's message. */
  function Expand(item: ItemDecl): (r: Run<seq<FormField>>)
    ensures item.OtherItem? ==> r == Panicked("Expected struct")
    ensures item.StructItem? && !AllPublic(item.fields) ==> r == Panicked("All fields must be public")
    ensures item.StructItem? && AllPublic(item.fields) && !AllNamed(item.fields) ==> r == Panicked(UnwrapNone)
    ensures r.Done? ==> item.StructItem? && |r.value| == |item.fields|
  {
    match CheckSchema(item)
    case Err(e) => Panicked(Message(e))
    case Ok(fields) => Done(fields)
  }

  /**
   * Both variants accept the same structs with the same fields and compute
   * the same `FieldSetup` for each field; where the attribute macro reports
   * an error the derive panics with the same message, a missing `text_box`
   * included, and a tuple struct with fields panics on the unwrap of a
   * field name in both. The tokens emitted from those setups differ for an
   * optional field: see `ExpandOptionalDoesNotCompile`.
   */
  lemma ExpandAgreesWithAttribute(item: ItemDecl)
    requires item.StructItem? ==> DistinctIdents(item.fields)
    ensures Expand(item).Done? <==> CheckSchema(item).Ok?
    ensures Expand(item).Done? ==> FieldSetups(Expand(item).value) == FieldSetups(CheckSchema(item).value)
    ensures item.StructItem? && AllPublic(item.fields) && AllNamed(item.fields) && !AllTextBoxes(item.fields) ==>
      Expand(item) == Panicked("All fields must have an associated input field")
  {
    if item.StructItem? {
      CheckSchemaAccepts(item);
    }
  }

  /**
   * The spawn tuple of the derive's `generate_input_field_setup` as written:
   * `FormElementOptional` is spliced in with no comma after it, so it runs
   * into the `FormElementOrder` that follows.
   */
  function DeriveSpawnTokens(s: FieldSetup): (r: seq<Token>)
    ensures !s.optionalMarker ==> r == SpawnTokens(s)
    ensures |r| == if s.optionalMarker then 7 else 6
    ensures s.optionalMarker ==> r[4] == Component("FormElementOptional") && r[5] == Component("FormElementOrder")
  {
    Item("NodeBundle") + Item("TextInputBundle")
    + (if s.optionalMarker then [Component("FormElementOptional")] else [])
    + Item("FormElementOrder")
  }

  /**
   * The derive's spawn tuple is well formed exactly when the field is not
   * optional; then it is the attribute macro's tuple, with its components.
   */
  lemma DeriveSpawnMalformed(s: FieldSetup)
    ensures WellFormedTuple(DeriveSpawnTokens(s)) <==> !s.optionalMarker
    ensures !s.optionalMarker ==>
      Components(DeriveSpawnTokens(s)) == ["NodeBundle", "TextInputBundle", "FormElementOrder"]
  {
    if s.optionalMarker {
      var ts := DeriveSpawnTokens(s);
      assert !ts[4].Comma? && !ts[5].Comma?;
    } else {
      SpawnTokensSpec(s);
    }
  }

  /**
   * An accepted struct with an explicitly optional field does not give a
   * compilable setup: that field's spawn tuple is malformed.
   */
  lemma ExpandOptionalDoesNotCompile(item: ItemDecl, i: nat)
    requires Expand(item).Done? && i < |Expand(item).value| && Expand(item).value[i].opts.optional == Some(true)
    ensures !WellFormedTuple(DeriveSpawnTokens(FieldSetups(Expand(item).value)[i]))
  {
    DeriveSpawnMalformed(FieldSetups(Expand(item).value)[i]);
  }

  /**
   * The form entity after setup: `Form` is inserted and the field entities
   * are appended to its children, after any it already had; no validity
   * marker is inserted and nothing else changes.
   */
  function SetupForm(n: FormWorld.Node, fieldEntities: seq<Entity>): (r: FormWorld.Node)
    ensures r.isForm && r.formValid == n.formValid && r.formInvalid == n.formInvalid
    ensures r.children == Some((if n.children.Some? then n.children.value else []) + fieldEntities)
    ensures r == n.(isForm := true, children := r.children)
  {
    var existing := if n.children.Some? then n.children.value else [];
    n.(isForm := true, children := Some(existing + fieldEntities))
  }

  /** The generated `submit` for one generic form event. */
  function SubmitStep(fields: seq<FormField>, view: FormView, ev: FormWorld.FormEvent<Entity>): (r: Run<seq<FormWorld.FormEvent<FormData>>>)
    requires Fits(fields, view)
    ensures r.Done? ==> |r.value| <= 1
  {
    match ev
    case Submit(form) =>
      if view.fieldEntities.Some? && FormEntity(form, true) in view.forms then
        match ReadFields(fields, view.fieldEntities.value, view.values)
        case Panicked(m) => Panicked(m)
        case Done(vs) => Done([FormWorld.Submit(FormData(vs))])
      else Done([])
    case Cancel => Done([FormWorld.Cancel])
  }

  /**
   * How `submit` routes one event: Cancel is forwarded unconditionally;
   * Submit sends the typed struct exactly when the field resource exists
   * and the named form carries the marker and `FormValid` (and every
   * required field has a value), and is silently dropped when either is
   * missing.
   */
  lemma SubmitStepSpec(fields: seq<FormField>, view: FormView, ev: FormWorld.FormEvent<Entity>)
    requires Fits(fields, view)
    ensures ev.Cancel? ==> SubmitStep(fields, view, ev) == Done([FormWorld.Cancel])
    ensures ev.Submit? && (view.fieldEntities.None? || FormEntity(ev.data, true) !in view.forms) ==>
      SubmitStep(fields, view, ev) == Done([])
    ensures ev.Submit? && view.fieldEntities.Some? && FormEntity(ev.data, true) in view.forms ==>
      var read := ReadFields(fields, view.fieldEntities.value, view.values);
      SubmitStep(fields, view, ev) == if read.Done? then Done([FormWorld.Submit(FormData(read.value))]) else Panicked(UnwrapErr)
  {
  }

  /**
   * A form just set up by the derive has no `FormValid` (its node had none
   * and `Form` alone is inserted), so when the marker entities the view
   * lists carry `FormValid` as the arena says, a Submit naming it sends
   * nothing.
   */
  lemma FreshFormNotSubmitted(fields: seq<FormField>, view: FormView, m: map<Entity, FormWorld.Node>, f: Entity, ents: seq<Entity>)
    requires Fits(fields, view) && f in m && !m[f].formValid
    requires var m' := m[f := SetupForm(m[f], ents)];
      forall x :: x in view.forms ==> x.entity in m' && x.valid == m'[x.entity].formValid
    ensures SubmitStep(fields, view, FormWorld.Submit(f)) == Done([])
  {
    var m' := m[f := SetupForm(m[f], ents)];
    assert !m'[f].formValid;
    assert FormEntity(f, true) !in view.forms;
  }

  /**
   * Where both variants send the struct they send the same one: with a
   * single, `FormValid` marker entity `f` and the field resource present, a
   * Submit naming `f` gives the same data from either generated `submit`.
   */
  lemma SubmitAgreesWithAttribute(fields: seq<FormField>, view: FormView, f: Entity)
    requires Fits(fields, view) && view.fieldEntities.Some?
    requires view.forms == [FormEntity(f, true)]
    ensures var d, a := SubmitStep(fields, view, FormWorld.Submit(f)), FormStruct.SubmitStep(fields, view, FormStruct.Submit(f));
      && (d.Done? <==> a.Done?)
      && (d.Done? ==> |d.value| == 1 == |a.value| && d.value[0].data == a.value[0].data)
  {
    FormStruct.SubmitStepSpec(fields, view, FormStruct.Submit(f), FormStruct.Submit(f));
  }

  /** The generated `submit` over the events of a frame, stopping at the first panic. */
  function SubmitAll(fields: seq<FormField>, view: FormView, events: seq<FormWorld.FormEvent<Entity>>): (r: Run<seq<FormWorld.FormEvent<FormData>>>)
    requires Fits(fields, view)
    ensures r.Done? ==> |r.value| <= |events|
    ensures (forall i :: 0 <= i < |events| ==> events[i].Cancel?) ==>
      r.Done? && |r.value| == |events| && forall i :: 0 <= i < |events| ==> r.value[i] == FormWorld.Cancel
  {
    if events == [] then Done([])
    else
      var init := events[..|events| - 1];
      assert forall i :: 0 <= i < |init| ==> init[i] == events[i];
      match SubmitAll(fields, view, init)
      case Panicked(m) => Panicked(m)
      case Done(out) =>
        match SubmitStep(fields, view, events[|events| - 1])
        case Panicked(m) => Panicked(m)
        case Done(o) => Done(out + o)
  }
}
