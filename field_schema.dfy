/**
 * What the two form macros (`form_struct` in the procedural-macro crate and
 * its older variant in the derive crate) share: the abstract form
 * of an annotated struct, the pairing of each field with its `text_box`
 * attribute, the configuration each field is spawned with, and the way the
 * generated code reads a field's value back at submit time.
 *
 * Attribute parsing and token emission are not modelled: a field arrives
 * with its attributes already parsed (or marked malformed), and the
 * generated code is described by what it does.
 */
module FieldSchema {
  import opened Wrappers

  type Entity = nat

  /** The `form_field` attribute; `order` is accepted but unused by the macros. */
  datatype FormFieldOpts = FormFieldOpts(optional: Option<bool>, order: Option<nat>, labelText: Option<string>, active: Option<bool>)

  /** What a field without a usable `form_field` attribute gets (`FormFieldOpts::new`). */
  const NoFieldOpts := FormFieldOpts(None, None, None, None)

  /** The `text_box` attribute; `textStyle` stands for the style expression, if one is given. */
  datatype TextBoxOpts = TextBoxOpts(placeholder: Option<string>, mask: Option<char>, textStyle: Option<string>, defaultValue: Option<string>)

  /** An attribute on a field: not written, written but not parsable, or parsed. */
  datatype Attr<T> = Absent | Malformed | Parsed(opts: T)

  /** One field of the annotated struct; a field of a tuple struct has no name. */
  datatype FieldDecl = FieldDecl(ident: Option<string>, isPublic: bool, formField: Attr<FormFieldOpts>, textBox: Attr<TextBoxOpts>)

  /** The item a form macro is applied to. */
  datatype ItemDecl = StructItem(ident: string, fields: seq<FieldDecl>) | OtherItem(ident: string)

  /** A field paired with its text box options. */
  datatype FormField = FormField(ident: Option<string>, opts: FormFieldOpts, textBox: TextBoxOpts)

  /** Named fields have unique names, as in any Rust struct. */
  ghost predicate DistinctIdents(fields: seq<FieldDecl>)
  {
    forall i, j :: 0 <= i < j < |fields| && fields[i].ident.Some? ==> fields[i].ident != fields[j].ident
  }

  /** Every field has a name: the fields are not those of a tuple struct. */
  predicate AllNamed(fields: seq<FieldDecl>)
  {
    forall i :: 0 <= i < |fields| ==> fields[i].ident.Some?
  }

  predicate AllPublic(fields: seq<FieldDecl>)
  {
    forall i :: 0 <= i < |fields| ==> fields[i].isPublic
  }

  predicate AllTextBoxes(fields: seq<FieldDecl>)
  {
    forall i :: 0 <= i < |fields| ==> fields[i].textBox.Parsed?
  }

  /** The `form_field` options of a field: parsed ones, else none set. */
  function FieldOpts(f: FieldDecl): FormFieldOpts
  {
    if f.formField.Parsed? then f.formField.opts else NoFieldOpts
  }

  /** The parsed `text_box` attributes, with their field's name, in field order. */
  function TextBoxes(fields: seq<FieldDecl>): (r: seq<(Option<string>, TextBoxOpts)>)
    ensures forall t :: t in r <==> exists i :: 0 <= i < |fields| && fields[i].textBox.Parsed? && t == (fields[i].ident, fields[i].textBox.opts)
  {
    if fields == [] then []
    else
      (if fields[0].textBox.Parsed? then [(fields[0].ident, fields[0].textBox.opts)] else [])
      + TextBoxes(fields[1..])
  }

  /** The first text box options recorded for `ident` (`Iterator::find`). */
  function FindTextBox(tbs: seq<(Option<string>, TextBoxOpts)>, ident: Option<string>): (r: Option<TextBoxOpts>)
    ensures r.None? <==> forall t :: t in tbs ==> t.0 != ident
    ensures r.Some? ==> (ident, r.value) in tbs
  {
    if tbs == [] then None
    else if tbs[0].0 == ident then Some(tbs[0].1)
    else FindTextBox(tbs[1..], ident)
  }

  /** The fields of `fs` that find text box options in `tbs`, paired with them, in order. */
  function PairWith(fs: seq<FieldDecl>, tbs: seq<(Option<string>, TextBoxOpts)>): (r: seq<FormField>)
    ensures |r| <= |fs|
  {
    if fs == [] then []
    else
      var rest := PairWith(fs[1..], tbs);
      match FindTextBox(tbs, fs[0].ident)
      case Some(tb) => [FormField(fs[0].ident, FieldOpts(fs[0]), tb)] + rest
      case None => rest
  }

  /** The macro's pairing: every field, looked up among all parsed text boxes. */
  function PairFields(fields: seq<FieldDecl>): (r: seq<FormField>)
    ensures |r| <= |fields|
  {
    PairWith(fields, TextBoxes(fields))
  }

  /** With unique names, a named field finds exactly its own `text_box` options, if parsed. */
  lemma FindOwnTextBox(fields: seq<FieldDecl>, i: nat)
    requires DistinctIdents(fields) && i < |fields| && fields[i].ident.Some?
    ensures FindTextBox(TextBoxes(fields), fields[i].ident) ==
      if fields[i].textBox.Parsed? then Some(fields[i].textBox.opts) else None
  {
    var tbs := TextBoxes(fields);
    if fields[i].textBox.Parsed? {
      assert (fields[i].ident, fields[i].textBox.opts) in tbs;
    }
    var r := FindTextBox(tbs, fields[i].ident);
    if r.Some? {
      var j :| 0 <= j < |fields| && fields[j].textBox.Parsed? && (fields[i].ident, r.value) == (fields[j].ident, fields[j].textBox.opts);
      assert i == j;
    }
  }

  /** Pairing a suffix of the fields against a fixed table of text boxes. */
  lemma {:induction false} PairWithSuffix(fields: seq<FieldDecl>, k: nat)
    requires DistinctIdents(fields) && AllNamed(fields) && k <= |fields|
    decreases |fields| - k
    ensures |PairWith(fields[k..], TextBoxes(fields))| == |fields| - k <==>
      forall i :: k <= i < |fields| ==> fields[i].textBox.Parsed?
    ensures (forall i :: k <= i < |fields| ==> fields[i].textBox.Parsed?) ==> forall i :: k <= i < |fields| ==>
      PairWith(fields[k..], TextBoxes(fields))[i - k] == FormField(fields[i].ident, FieldOpts(fields[i]), fields[i].textBox.opts)
  {
    if k < |fields| {
      PairWithSuffix(fields, k + 1);
      FindOwnTextBox(fields, k);
      assert fields[k..][1..] == fields[k + 1..];
      assert fields[k..][0] == fields[k];
    }
  }

  /**
   * The pairing keeps a field for each field exactly when every field has a
   * parsable `text_box` attribute; then the paired fields are the declared
   * fields, in declaration order, each with its own options.
   */
  lemma PairFieldsSpec(fields: seq<FieldDecl>)
    requires DistinctIdents(fields) && AllNamed(fields)
    ensures |PairFields(fields)| == |fields| <==> AllTextBoxes(fields)
    ensures AllTextBoxes(fields) ==> forall i :: 0 <= i < |fields| ==>
      PairFields(fields)[i] == FormField(fields[i].ident, FieldOpts(fields[i]), fields[i].textBox.opts)
  {
    PairWithSuffix(fields, 0);
    assert fields[0..] == fields;
  }

  // ---------------------------------------------------------------------
  // Schema checks

  const UnwrapNone := "called `Option::unwrap()` on a `None` value"

  /**
   * Why a struct is refused; both macro variants refuse for the same
   * reasons in this order. `UnnamedField` is the panic of the default
   * `form_field` options, which unwrap the field's name for every field
   * (the argument of `unwrap_or` is evaluated whether or not it is used),
   * so a tuple struct with fields is refused by a panic in both variants.
   */
  datatype SchemaError = ExpectedStruct | FieldsNotPublic | UnnamedField | MissingInputField

  /** The message each refusal carries. */
  function Message(e: SchemaError): string
  {
    match e
    case ExpectedStruct => "Expected struct"
    case FieldsNotPublic => "All fields must be public"
    case UnnamedField => UnwrapNone
    case MissingInputField => "All fields must have an associated input field"
  }

  /**
   * The checks: a struct is required, then every field must be public, then
   * every field must have a name, then every field must have been paired
   * with text box options. An accepted struct yields its paired fields.
   */
  function CheckSchema(item: ItemDecl): (r: Result<seq<FormField>, SchemaError>)
    ensures item.OtherItem? ==> r == Err(ExpectedStruct)
    ensures item.StructItem? && !AllPublic(item.fields) ==> r == Err(FieldsNotPublic)
    ensures item.StructItem? && AllPublic(item.fields) && !AllNamed(item.fields) ==> r == Err(UnnamedField)
    ensures r.Ok? ==> item.StructItem? && AllPublic(item.fields) && AllNamed(item.fields) && |r.value| == |item.fields|
  {
    match item
    case OtherItem(_) => Err(ExpectedStruct)
    case StructItem(_, fields) =>
      if !AllPublic(fields) then Err(FieldsNotPublic)
      else if !AllNamed(fields) then Err(UnnamedField)
      else
        var paired := PairFields(fields);
        if |paired| != |fields| then Err(MissingInputField) else Ok(paired)
  }

  /**
   * For a struct (whose field names are unique) the checks pass exactly when
   * every field is public, named and has a parsable `text_box` attribute; the
   * resulting fields are the declared ones, in declaration order, each with
   * its own `form_field` and `text_box` options.
   */
  lemma CheckSchemaAccepts(item: ItemDecl)
    requires item.StructItem? && DistinctIdents(item.fields)
    ensures CheckSchema(item).Ok? <==> AllPublic(item.fields) && AllNamed(item.fields) && AllTextBoxes(item.fields)
    ensures AllPublic(item.fields) && AllNamed(item.fields) && !AllTextBoxes(item.fields) ==>
      CheckSchema(item) == Err(MissingInputField)
    ensures CheckSchema(item).Ok? ==> forall i :: 0 <= i < |item.fields| ==>
      CheckSchema(item).value[i] == FormField(item.fields[i].ident, FieldOpts(item.fields[i]), item.fields[i].textBox.opts)
  {
    if AllNamed(item.fields) {
      PairFieldsSpec(item.fields);
    }
  }

  // ---------------------------------------------------------------------
  // Field configuration

  /** `TextInputSettings` as the macros fill them. */
  datatype TextInputSettings = TextInputSettings(maskCharacter: Option<char>, retainOnSubmit: bool)

  /** What one field entity is spawned with. */
  datatype FieldSetup = FieldSetup(
    ident: Option<string>,
    order: nat,
    placeholder: Option<string>,
    settings: TextInputSettings,
    defaultValue: Option<string>,
    active: Option<bool>,
    optionalMarker: bool,
    textStyle: Option<string>)

  /** A field is optional only when its `optional` option is explicitly true. */
  predicate IsOptional(o: FormFieldOpts)
  {
    o.optional == Some(true)
  }

  /** `generate_input_field_settings`: the mask as given, and the value always kept on submit. */
  function InputFieldSettings(tb: TextBoxOpts): (s: TextInputSettings)
    ensures s.maskCharacter == tb.mask && s.retainOnSubmit
  {
    TextInputSettings(tb.mask, true)
  }

  /**
   * `generate_input_field_setup` for the field at position `order`: it gets
   * `FormElementOrder(order)`; its placeholder is the text box placeholder,
   * else the field's label, else none; the settings above; the default
   * value, active flag and text style as given; and `FormElementOptional`
   * only when `optional` is explicitly true.
   */
  function InputFieldSetup(f: FormField, order: nat): (r: FieldSetup)
    ensures r.ident == f.ident && r.order == order
    ensures f.textBox.placeholder.Some? ==> r.placeholder == f.textBox.placeholder
    ensures f.textBox.placeholder.None? ==> r.placeholder == f.opts.labelText
    ensures r.settings.maskCharacter == f.textBox.mask && r.settings.retainOnSubmit
    ensures r.defaultValue == f.textBox.defaultValue && r.active == f.opts.active
    ensures r.optionalMarker <==> f.opts.optional == Some(true)
  {
    FieldSetup(
      f.ident,
      order,
      if f.textBox.placeholder.Some? then f.textBox.placeholder else f.opts.labelText,
      InputFieldSettings(f.textBox),
      f.textBox.defaultValue,
      f.opts.active,
      IsOptional(f.opts),
      f.textBox.textStyle)
  }

  /** The setups of all fields: the `i`-th field is configured with order `i`. */
  function FieldSetups(fields: seq<FormField>): (r: seq<FieldSetup>)
    ensures |r| == |fields|
    ensures forall i :: 0 <= i < |r| ==> r[i] == InputFieldSetup(fields[i], i)
  {
    seq(|fields|, i requires 0 <= i < |fields| => InputFieldSetup(fields[i], i))
  }

  /**
   * A token of the component tuple a field entity is spawned with: a comma,
   * or one component expression (builder chains and the order's value are
   * part of the expression).
   */
  datatype Token = Comma | Component(name: string)

  /** A tuple's tokens are well formed when no two component expressions are adjacent. */
  predicate WellFormedTuple(ts: seq<Token>)
  {
    forall i :: 0 <= i < |ts| - 1 ==> ts[i].Comma? || ts[i + 1].Comma?
  }

  /** The component expressions of a token list, in order. */
  function Components(ts: seq<Token>): (r: seq<string>)
    ensures |r| <= |ts|
  {
    if ts == [] then []
    else (if ts[0].Comma? then [] else [ts[0].name]) + Components(ts[1..])
  }

  /** One component expression followed by its comma. */
  function Item(name: string): seq<Token>
  {
    [Component(name), Comma]
  }

  /**
   * The spawn tuple of `generate_input_field_setup` in the attribute macro:
   * the node, the text input, `FormElementOptional` when the field is
   * optional, and its `FormElementOrder`, each followed by a comma.
   */
  function SpawnTokens(s: FieldSetup): (r: seq<Token>)
    ensures Component("FormElementOptional") in r <==> s.optionalMarker
  {
    Item("NodeBundle") + Item("TextInputBundle")
    + (if s.optionalMarker then Item("FormElementOptional") else [])
    + Item("FormElementOrder")
  }

  /** The attribute macro's spawn tuple is well formed and holds exactly the field's components, in order. */
  lemma SpawnTokensSpec(s: FieldSetup)
    ensures WellFormedTuple(SpawnTokens(s))
    ensures Components(SpawnTokens(s)) ==
      ["NodeBundle", "TextInputBundle"] + (if s.optionalMarker then ["FormElementOptional"] else []) + ["FormElementOrder"]
  {
    var opt := if s.optionalMarker then Item("FormElementOptional") else [];
    assert Components(opt) == if s.optionalMarker then ["FormElementOptional"] else [] by {
      if s.optionalMarker {
        ItemComponents("FormElementOptional");
      }
    }
    ItemComponents("NodeBundle");
    ItemComponents("TextInputBundle");
    ItemComponents("FormElementOrder");
    ComponentsConcat(Item("NodeBundle"), Item("TextInputBundle"));
    ComponentsConcat(Item("NodeBundle") + Item("TextInputBundle"), opt);
    ComponentsConcat(Item("NodeBundle") + Item("TextInputBundle") + opt, Item("FormElementOrder"));
  }

  /** An item's only component is its own. */
  lemma ItemComponents(name: string)
    ensures Components(Item(name)) == [name]
  {
    assert Item(name)[1..] == [Comma];
    assert Components([Comma]) == [];
  }

  /** The components of a concatenation are the concatenated components. */
  lemma {:induction false} ComponentsConcat(a: seq<Token>, b: seq<Token>)
    ensures Components(a + b) == Components(a) + Components(b)
  {
    if a == [] {
      assert a + b == b;
    } else {
      assert (a + b)[1..] == a[1..] + b;
      ComponentsConcat(a[1..], b);
    }
  }

  // ---------------------------------------------------------------------
  // Reading the fields back at submit time

  /** What running generated code produces: a value, or a panic with its message. */
  datatype Run<T> = Done(value: T) | Panicked(message: string)

  const UnwrapErr := "called `Result::unwrap()` on an `Err` value"

  /** A field of the submitted struct: a required field's text, an optional field's text if any. */
  datatype FieldValue = Text(text: string) | MaybeText(maybe: Option<string>)

  /** The submitted struct, one value per field in declaration order. */
  datatype FormData = FormData(values: seq<FieldValue>)

  /**
   * The generated readers: field `i` is read from text input entity
   * `entities[i]` (the entity the generated resource records for it); an
   * optional field reads as present or absent, a required one is unwrapped
   * and the code panics when its entity has no text input value.
   */
  function ReadFields(fields: seq<FormField>, entities: seq<Entity>, values: map<Entity, string>): (r: Run<seq<FieldValue>>)
    requires |entities| == |fields|
    ensures r.Done? <==> forall i :: 0 <= i < |fields| && !IsOptional(fields[i].opts) ==> entities[i] in values
    ensures r.Done? ==> |r.value| == |fields|
    ensures r.Done? ==> forall i :: 0 <= i < |fields| ==>
      r.value[i] == if IsOptional(fields[i].opts)
        then MaybeText(if entities[i] in values then Some(values[entities[i]]) else None)
        else Text(values[entities[i]])
    ensures r.Panicked? ==> r.message == UnwrapErr
  {
    if fields == [] then Done([])
    else
      var e := entities[0];
      var head :=
        if IsOptional(fields[0].opts) then Done(MaybeText(if e in values then Some(values[e]) else None))
        else if e in values then Done(Text(values[e]))
        else Panicked(UnwrapErr);
      match head
      case Panicked(m) => Panicked(m)
      case Done(v) =>
        match ReadFields(fields[1..], entities[1..], values)
        case Panicked(m) => Panicked(m)
        case Done(vs) => Done([v] + vs)
  }

  /** A marker-carrying form entity seen by the generated systems, and whether it has `FormValid`. */
  datatype FormEntity = FormEntity(entity: Entity, valid: bool)

  /**
   * What the generated systems can query: the entities carrying the form's
   * marker (in query order), the generated resource mapping each field to
   * its text input entity (once setup inserted it), and the text input
   * values.
   */
  datatype FormView = FormView(forms: seq<FormEntity>, fieldEntities: Option<seq<Entity>>, values: map<Entity, string>)

  /** The view fits the struct: the resource, when present, has one entity per field. */
  predicate Fits(fields: seq<FormField>, view: FormView)
  {
    view.fieldEntities.Some? ==> |view.fieldEntities.value| == |fields|
  }

  /** The marker entities that also carry `FormValid`. */
  function ValidForms(forms: seq<FormEntity>): (r: seq<FormEntity>)
    ensures forall x :: x in r <==> x in forms && x.valid
  {
    if forms == [] then []
    else (if forms[0].valid then [forms[0]] else []) + ValidForms(forms[1..])
  }
}
