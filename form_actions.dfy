/**
 * The `FormActions` derive: from an enum whose variants are a form's extra
 * actions, it generates `get_button_bundles`, one button per variant, and
 * `from_id_and_data`, which rebuilds the variant from the index the button
 * was spawned with. The model states what the generated code does, over
 * an abstract form of the enum.
 */
module FormActions {
  import opened Wrappers
  import Button

  /** The `action` a variant declares; `Submit` when it declares none. */
  datatype Action = Submit | Apply | Cancel | Custom(name: string)

  /** One variant: its name, whether it carries data, its action and its optional `text`. */
  datatype ActionVariant = ActionVariant(ident: string, hasFields: bool, action: Action, text: Option<string>)

  /** The item the derive is applied to. */
  datatype DeriveInput =
    | EnumInput(ident: string, variants: seq<ActionVariant>, formType: Option<string>)
    | OtherInput(ident: string)

  /** The generated `impl FormActions`: the associated form type and the variants it dispatches on. */
  datatype FormActionsImpl = FormActionsImpl(enumIdent: string, formEntity: string, variants: seq<ActionVariant>)

  /** Why the derive produced no impl. */
  datatype DeriveError = NotAnEnum

  /**
   * The derive accepts enums only; the generated impl keeps the variants in
   * declaration order and its form type is `form_type`, `Entity` when absent.
   */
  function Derive(input: DeriveInput): (r: Result<FormActionsImpl, DeriveError>)
    ensures r.Ok? <==> input.EnumInput?
    ensures r.Ok? ==> r.value.enumIdent == input.ident && r.value.variants == input.variants
    ensures r.Ok? && input.formType.None? ==> r.value.formEntity == "Entity"
    ensures r.Ok? && input.formType.Some? ==> r.value.formEntity == input.formType.value
  {
    match input
    case EnumInput(ident, variants, formType) => Ok(FormActionsImpl(ident, formType.GetOr("Entity"), variants))
    case OtherInput(_) => Err(NotAnEnum)
  }

  /** A variant's button text: its `text`, or its name when it has none. */
  function ButtonText(v: ActionVariant): string
  {
    v.text.GetOr(v.ident)
  }

  /** The button role of a declared action: each fixed action gives the role of the same name. */
  function RoleOf(a: Action): (r: Button.ButtonRole)
    ensures a.Submit? <==> r == Button.Submit
    ensures a.Apply? <==> r == Button.Apply
    ensures a.Cancel? <==> r == Button.Cancel
    ensures a.Custom? <==> r.Custom?
    ensures a.Custom? ==> r.name == a.name
  {
    match a
    case Submit => Button.Submit
    case Apply => Button.Apply
    case Cancel => Button.Cancel
    case Custom(name) => Button.Custom(name)
  }

  /** Distinct actions give distinct roles. */
  lemma RoleOfInjective(a: Action, b: Action)
    requires RoleOf(a) == RoleOf(b)
    ensures a == b
  {
  }

  /**
   * The generated `get_button_bundles(form)`: exactly one button per
   * variant, in declaration order, each bound to `form`, with the variant's
   * text and role.
   */
  function GetButtonBundles(variants: seq<ActionVariant>, form: Button.Entity): (r: seq<Button.FormButtonBundle>)
    ensures |r| == |variants|
    ensures forall i :: 0 <= i < |r| ==>
      && r[i].button.text == ButtonText(variants[i])
      && r[i].button.form == Some(form)
      && r[i].role == RoleOf(variants[i].action)
  {
    seq(|variants|, i requires 0 <= i < |variants| =>
      Button.FormButtonBundle.New(ButtonText(variants[i])).WithRole(RoleOf(variants[i].action)).WithForm(form))
  }

  /** A value of the action enum: which variant, and the data it carries. */
  datatype ActionValue<D> = ActionValue(variant: nat, payload: Option<D>)

  const UnknownActionId := "Unknown action id: "
  const ExpectedEntity := "Expected entity for action variant"

  /** The decimal text of `n`, as `format!("{}", n)` writes it. */
  function Decimal(n: nat): (s: string)
    ensures s != [] && forall i :: 0 <= i < |s| ==> '0' <= s[i] <= '9'
  {
    var d := ['0' + (n % 10) as char];
    if n < 10 then d else Decimal(n / 10) + d
  }

  /** The number a string of decimal digits denotes. */
  function DecimalValue(s: string): nat
    requires forall i :: 0 <= i < |s| ==> '0' <= s[i] <= '9'
  {
    if s == [] then 0 else 10 * DecimalValue(s[..|s| - 1]) + (s[|s| - 1] - '0') as nat
  }

  /** The id in the "unknown action" message reads back as the id. */
  lemma {:induction false} DecimalRoundTrip(n: nat)
    ensures DecimalValue(Decimal(n)) == n
  {
    var s := Decimal(n);
    assert s[..|s| - 1] == if n < 10 then [] else Decimal(n / 10);
    if n >= 10 {
      DecimalRoundTrip(n / 10);
    }
  }

  /**
   * The generated `from_id_and_data(id, data)`: succeeds exactly when `id`
   * names a variant and that variant either carries no data or `data` is
   * present; the value built is variant `id`, with `data` as payload when
   * the variant carries data. An id past the last variant fails with the
   * "Unknown action id" message naming the id; a data-carrying variant
   * without data fails with the "Expected entity" message.
   */
  function FromIdAndData<D>(variants: seq<ActionVariant>, id: nat, data: Option<D>): (r: Result<ActionValue<D>, string>)
    ensures r.Ok? <==> id < |variants| && (!variants[id].hasFields || data.Some?)
    ensures r.Ok? ==> r.value.variant == id
    ensures r.Ok? ==> r.value.payload == if variants[id].hasFields then data else None
    ensures id >= |variants| ==> r == Err(UnknownActionId + Decimal(id))
    ensures id < |variants| && r.Err? ==> r.error == ExpectedEntity
  {
    if id < |variants| then
      if !variants[id].hasFields then Ok(ActionValue(id, None))
      else match data
        case Some(d) => Ok(ActionValue(id, Some(d)))
        case None => Err(ExpectedEntity)
    else Err(UnknownActionId + Decimal(id))
  }

  /**
   * The two generated functions agree on the variant index: the `i`-th
   * button has variant `i`'s role and text, and `from_id_and_data(i, _)`
   * builds variant `i` (given data when the variant needs it).
   */
  lemma ButtonIdRoundTrip<D>(variants: seq<ActionVariant>, form: Button.Entity, i: nat, data: Option<D>)
    requires i < |variants|
    requires variants[i].hasFields ==> data.Some?
    ensures var b := GetButtonBundles(variants, form)[i];
      && b.role == RoleOf(variants[i].action)
      && b.button.text == ButtonText(variants[i])
      && FromIdAndData(variants, i, data).Ok?
      && FromIdAndData(variants, i, data).value.variant == i
  {
  }
}
