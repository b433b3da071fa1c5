# bevy_ui_forms: a Dafny model of the form core

bevy_ui_forms adds forms to the Bevy engine. A form is an entity carrying
`Form`; its children are form elements (text inputs) and buttons. Elements
report that they turned invalid (`FormElementInvalid` with a
`FormValidationError`) or valid, and the form keeps a `FormInvalid` list of
causes or a `FormValid` marker. The keyboard submits, cancels, or gives
focus to the next element by `FormElementOrder` (focus is added, never
taken away). Buttons carry a role and
send `ButtonPressEvent`s. Two macro variants turn an annotated struct into a
form plugin: the `form_struct` attribute of the procedural-macro crate,
together with the `FormActions` derive for extra action buttons, and the
older `form_struct` of the derive crate.

The model has these modules:

- `TabOrder` (`tab_order.dfy`): how Tab picks the next element. The candidates
  are the ordered children with an order above the focused one; with none,
  all ordered children. The pick is the first child of least order, as Rust's
  `min_by_key` picks.
- `FormWorld` (`form_world.dfy`): the entities as an arena
  `map<Entity, Node>` held by class `World`, whose methods are the systems of
  `form.rs`. These are touched marking, the invalid and valid passes, and
  `form_keyboard`. `form_element_keyboard` from `form_element.rs` is a method
  too. `FormElementPlugin` registers its own four systems
  (`form_element.rs:11-19`): touched, invalid and valid passes written like
  those of `form.rs` (`form_element.rs:73-125`) and `form_element_keyboard`
  in place of `form_keyboard`. They act on `form_element.rs`'s own element
  components (`FormElementFocus`, `FormElementInvalid`, `FormElementValid`,
  `FormElementTouched`, `FormElementOrder`, declared at
  `form_element.rs:28-58`, distinct types from those of `form.rs`) and share
  only `Form`, `FormInvalid`, `FormValid` and `FormValidationError` with
  `form.rs`. The passes of the model serve for either plugin: one `World`
  holds the element components of one plugin, not of both at once. Each pass reads the entities as they were when it started,
  because the structural changes it makes through `Commands` are deferred to
  the schedule's next sync point. The model applies them when the pass ends,
  so two passes are composed as if a sync point lay between them (see "Left
  out"). Pure functions specify the passes, and lemmas about those functions
  state the properties.
- `Button` (`button.dfy`): `ButtonRole` parsing, the `FormButtonBundle`
  builders, the `Interaction` conversion and the `interact` system.
- `FormActions` (`form_actions.dfy`): what the `FormActions` derive generates,
  namely `get_button_bundles` and `from_id_and_data`.
- `FieldSchema` (`field_schema.dfy`): what both macro variants share. This is
  the annotated struct in abstract form (every field has a name, unless it
  belongs to a tuple struct, a visibility and its parsed `form_field` and `text_box`
  attributes), the pairing of fields with text
  boxes, the schema checks, the per-field configuration, and the generated
  field readers.
- `FormStruct` (`form_struct.dfy`): the attribute macro's generated `setup`,
  the action row, and the generated `submit`, `btn_submit` and
  `get_form_data`.
- `FormDerive` (`form_derive.dfy`): the derive-crate variant. It panics where
  the attribute macro reports errors, and its setup gives the form only
  `Form`. Its generated `submit` reads the core's `FormEvent` directly.

The generated systems are modelled over a `FormView`. A `FormView` lists the
entities that carry the form's marker (with whether each has `FormValid`),
the generated field resource, and the text input values. Running generated
code gives a `Run`: a value, or a panic with its message.

Three behaviours of the code are worth stating plainly, since the model
follows them:

- Tab only inserts `FormElementFocus` on the target (`form.rs:223`,
  `form_element.rs:154`), and nothing in these files removes it, so focus
  only grows. `FormWorld.WithFocusSpec` states this. After one Tab two
  elements are focused, `get_single` on the focused elements fails, and the
  next Tab starts from order 0 again: `FormWorld.RepeatedTabSticks` shows a
  form whose order-2 field is never reached.
- `form_keyboard` reacts to Escape *pressed* and sends the parameterless
  `FormEvent::Cancel` of `form.rs:97-102`.
- The attribute macro's generated code matches and sends
  `FormEvent::Cancel(e)` and `FormEvent::Custom(..)` (`form_struct.rs:502`,
  `form_struct.rs:597`), variants that the `FormEvent` of `form.rs` does not
  have. The generated routing therefore has its own event type,
  `FormStruct.RoutedEvent`.

## Model

| member | source | states |
|---|---|---|
| `TabOrder.FirstMinIndex` | crates/core/src/form.rs:217-222 | the index of the first slot of least order: no earlier slot has the same or a smaller order, and no later slot has a smaller one |
| `TabOrder.FirstMinUnique` | crates/core/src/form.rs:217-222 | only one index is the first minimum |
| `TabOrder.Above` | crates/core/src/form.rs:217-220 | a slot is kept exactly when its order is above the current order |
| `TabOrder.TabTargetSpec` | crates/core/src/form.rs:206-222 | there is no target only when there are no ordered children; the target is one of them; with a child above the current order, the target is the least such child; otherwise it is a child of least order overall |
| `TabOrder.TabTarget` | crates/core/src/form.rs:211-222 | the slot Tab picks from a current order: there is one iff there are ordered children, and it is one of them |
| `TabOrder.TabVisitsByOrder` | crates/core/src/form.rs:211-222 | for children with orders 0, 2, 1, each single Tab step targets by order, not by child position: from current order 0 the order-1 child, from 1 the order-2 child, from 2 (wrapping) the order-0 child |
| `TabOrder.TabOnConsecutive` | crates/core/src/form.rs:211-222 | when child `i` has order `i`, Tab from `k` goes to `k + 1`, and from the last child wraps to the first |
| `FormWorld.TouchResult` | crates/core/src/form.rs:126-134 | the arena after touched marking: the same entities |
| `FormWorld.TouchResultSpec` | crates/core/src/form.rs:126-134 | after touched marking, an element is touched iff it was touched or focused; nothing else changes |
| `FormWorld.NewErrorsSpec` | crates/core/src/form.rs:142-145 | a cause reaches form `f` iff a newly invalid child of `f` carries it; there are at most as many causes as newly invalid elements |
| `FormWorld.InvalidResult` | crates/core/src/form.rs:136-154 | the arena after the invalid pass: the same entities, each form updated from the causes its newly invalid children report |
| `FormWorld.InvalidResultSpec` | crates/core/src/form.rs:136-154 | a form with a list gets every new cause appended in order; a form without one gets a one-element list holding the last cause reported in the pass and loses `FormValid`; a form with no report, and every non-form, is unchanged |
| `FormWorld.InvalidResultCoherent` | crates/core/src/form.rs:143-151 | the invalid pass keeps every `FormInvalid` list non-empty and never beside `FormValid` |
| `FormWorld.InvalidPassKeepsOnlyLastInsert` | crates/core/src/form.rs:146-150 | a list-less form whose two children both turn invalid in one pass ends with only the second cause |
| `FormWorld.Without` | crates/core/src/form.rs:164-168 | `retain` keeps exactly the causes that name none of the given elements, whatever the variant, and never grows the list |
| `FormWorld.WithoutConcat` | crates/core/src/form.rs:164-168 | retaining distributes over concatenation, so the order of the kept causes is preserved |
| `FormWorld.WithoutTwice` | crates/core/src/form.rs:164-168 | two successive retains equal one retain of both element sets |
| `FormWorld.WithoutKeepsOthers` | crates/core/src/form.rs:164-168 | a list naming none of the elements is left as it is |
| `FormWorld.ValidatedSpec` | crates/core/src/form.rs:159-163 | an element counts as newly valid for `f` iff it was reported valid and its parent is `f` |
| `FormWorld.ValidResult` | crates/core/src/form.rs:156-178 | the arena after the valid pass: the same entities, each form updated from its newly valid children |
| `FormWorld.ValidResultSpec` | crates/core/src/form.rs:156-178 | for a form with a list and a newly valid child, the causes naming such children are removed and all others stay; the form becomes `FormValid` without a list iff nothing remains; other nodes are unchanged |
| `FormWorld.ValidResultCoherent` | crates/core/src/form.rs:170-175 | the valid pass keeps every list non-empty and never beside `FormValid` |
| `FormWorld.InvalidThenValid` | crates/core/src/form.rs:136-178 | a child that turns invalid (with a cause naming itself) and then valid leaves its form's list as before; a form that had no list ends `FormValid` |
| `FormWorld.MarkersPersist` | crates/core/src/form.rs:136-178 | touched marking and both validity passes keep every form carrying `FormValid` or `FormInvalid`; `FormValid` is gained only by emptying a list |
| `FormWorld.SoleForm` | crates/core/src/form.rs:189-192 | there is a form only when exactly one `Form` entity has children, and then it is that entity |
| `FormWorld.FocusOrder` | crates/core/src/form.rs:206-209 | the order of the single focused element (0 when it has none), and 0 unless exactly one element is focused |
| `FormWorld.OrderedChildren` | crates/core/src/form.rs:211-215 | exactly the existing children that carry an order, each with that order |
| `FormWorld.WithFocusSpec` | crates/core/src/form.rs:222-224 | Tab adds focus to the target and removes it from nobody; nothing else changes |
| `FormWorld.TabResult` | crates/core/src/form.rs:204-225 | the arena after Tab on a form: the same entities, and every element focused before is still focused |
| `FormWorld.RepeatedTabSticks` | crates/core/src/form.rs:204-225 | children with orders 0, 2, 1, the order-0 one focused: the first Tab focuses the order-1 child too; the second Tab starts from order 0 (two elements focused) and changes nothing, so the order-2 child is never focused |
| `FormWorld.World.TouchPass` | crates/core/src/form.rs:126-134 | the loop leaves exactly the touched-marking result |
| `FormWorld.World.InvalidPass` | crates/core/src/form.rs:136-154 | the loop (in-place push, or deferred insert decided on the pass-start state) leaves exactly the invalid-pass result |
| `FormWorld.World.ValidPass` | crates/core/src/form.rs:156-178 | the loop (in-place retain, then deferred marker swap) leaves exactly the valid-pass result |
| `FormWorld.World.FocusNext` | crates/core/src/form.rs:204-225 | focus is added to the Tab target of the form's ordered children |
| `FormWorld.World.FormKeyboard` | crates/core/src/form.rs:180-226 | with exactly one form with children: Enter released sends `Submit(form)` iff the form has no `FormInvalid`; else Escape pressed sends `Cancel`; else Tab pressed adds focus to the Tab target; at most one of these happens, and with no single form nothing happens |
| `FormWorld.World.ElementKeyboard` | crates/core/src/form_element.rs:127-158 | on Tab released, with exactly one form with children, the arena becomes the Tab result (focus added to the target, none removed); otherwise nothing changes |
| `Button.RoleFromStr` | crates/core/src/form_elements/button.rs:110-119 | the three exact lower-case names give the fixed roles; any other text becomes a custom role carrying that text |
| `Button.RoleTextOfParsed` | crates/core/src/form_elements/button.rs:110-125 | a parsed role is written back as the text it came from |
| `Button.ParseRoleText` | crates/core/src/form_elements/button.rs:110-119 | every role but a custom one named like a fixed role parses back from its text |
| `Button.FormButtonBundle.New` | crates/core/src/form_elements/button.rs:27-37 | a new bundle has the given text, no form and the default `Submit` role |
| `Button.FormButtonBundle.WithRole` | crates/core/src/form_elements/button.rs:39-44 | sets the role and leaves the button as it was |
| `Button.FormButtonBundle.WithForm` | crates/core/src/form_elements/button.rs:46-51 | binds the button to the form and keeps its text and role |
| `Button.BuildersCommute` | crates/core/src/form_elements/button.rs:39-51 | the two builders commute, and repeating one replaces the earlier call |
| `Button.ToFormInteraction` | crates/core/src/form_elements/button.rs:86-94 | maps each interaction state to the variant of the same name |
| `Button.InteractionBijection` | crates/core/src/form_elements/button.rs:86-94 | the conversion is one-to-one and onto |
| `Button.PressEvents` | crates/core/src/form_elements/button.rs:148-157 | the events of the changed buttons: at most one per button |
| `Button.PressEventsConcat` | crates/core/src/form_elements/button.rs:148-157 | events follow button order: the events of a concatenation are the concatenated events |
| `Button.PressEventsSpec` | crates/core/src/form_elements/button.rs:143-158 | an event is sent exactly for each pressed button, carrying its entity, button and role; hovered and idle buttons send none |
| `Button.Interact` | crates/core/src/form_elements/button.rs:143-158 | the loop sends exactly the press events, in order |
| `FormActions.Derive` | crates/macros/form_proc/src/form_actions.rs:34-43 | only an enum is accepted; the variants keep declaration order and the form type defaults to `Entity` |
| `FormActions.RoleOf` | crates/macros/form_proc/src/form_actions.rs:48-61 | `Submit`, `Apply` and `Cancel` give exactly the roles `Submit`, `Apply` and `Cancel`; a custom action, and only a custom action, gives a custom role with the same name |
| `FormActions.RoleOfInjective` | crates/macros/form_proc/src/form_actions.rs:48-61 | distinct actions give distinct roles |
| `FormActions.GetButtonBundles` | crates/macros/form_proc/src/form_actions.rs:45-62 | one bundle per variant in order, each bound to the form, with the variant's text (its name if no text is given) and its role |
| `FormActions.Decimal` | crates/macros/form_proc/src/form_actions.rs:112 | an id is written as a non-empty string of decimal digits |
| `FormActions.DecimalRoundTrip` | crates/macros/form_proc/src/form_actions.rs:112 | the digits in the "Unknown action id" message read back as the id |
| `FormActions.FromIdAndData` | crates/macros/form_proc/src/form_actions.rs:64-114 | succeeds iff the id names a variant that carries no data or gets data; builds that variant with the data as its payload; an unknown id fails with a message naming it; missing data fails with "Expected entity for action variant" |
| `FormActions.ButtonIdRoundTrip` | crates/macros/form_proc/src/form_actions.rs:45-94 | the `i`-th button has variant `i`'s role and text, and id `i` rebuilds variant `i` |
| `FieldSchema.TextBoxes` | crates/macros/form_proc/src/form_struct.rs:139-143 | holds exactly the fields with a parsed `text_box` attribute, each with its options |
| `FieldSchema.FindTextBox` | crates/macros/form_proc/src/form_struct.rs:148-150 | finds options recorded under the name iff any are recorded |
| `FieldSchema.FindOwnTextBox` | crates/macros/form_proc/src/form_struct.rs:145-151 | with unique field names, a field finds its own `text_box` options, and none when it has no parsed `text_box` |
| `FieldSchema.PairFields` | crates/macros/form_proc/src/form_struct.rs:139-158 | each field looked up among the parsed `text_box` attributes by name; at most one pair per field |
| `FieldSchema.PairFieldsSpec` | crates/macros/form_proc/src/form_struct.rs:145-164 | one field is paired per declared field iff every field has a parsed `text_box`; then the pairs are the fields in declaration order, each with its own options |
| `FieldSchema.CheckSchema` | crates/macros/form_proc/src/form_struct.rs:119-164 | a non-struct is refused first, then any non-public field, then a field without a name (the panic of the eager `unwrap` in the default options); an accepted struct yields one paired field per field |
| `FieldSchema.CheckSchemaAccepts` | crates/macros/form_proc/src/form_struct.rs:119-164 | a struct is accepted iff all fields are public, named and have a parsed `text_box`; one with a missing `text_box` is refused with the "associated input field" error; the accepted fields keep declaration order and their options |
| `FieldSchema.InputFieldSettings` | crates/macros/form_proc/src/form_struct.rs:375-389 | the mask passes through unchanged and `retain_on_submit` is always true |
| `FieldSchema.InputFieldSetup` | crates/macros/form_proc/src/form_struct.rs:313-373 | the field gets `FormElementOrder(order)`; its placeholder is the text box placeholder, else the label, else none; `FormElementOptional` only when `optional` is explicitly true; default value, active flag and mask as given |
| `FieldSchema.FieldSetups` | crates/macros/form_proc/src/form_struct.rs:269-277 | the `i`-th field is configured with order `i` |
| `FieldSchema.ReadFields` | crates/macros/form_proc/src/form_struct.rs:450-471 | reading succeeds iff every required field's entity has a value; optional fields read as present or absent, required ones as their text; otherwise the unwrap panics |
| `FieldSchema.ValidForms` | crates/macros/form_proc/src/form_struct.rs:511-515 | exactly the marker entities that carry `FormValid` |
| `FormStruct.SetupForm` | crates/macros/form_proc/src/form_struct.rs:303-307 | setup gives the form `Form` and `FormValid`, keeps its existing children and appends the field entities and then the action row; nothing else changes |
| `FormStruct.SetupFormMarked` | crates/macros/form_proc/src/form_struct.rs:303-307 | a form set up this way carries a validity marker, and keeps one through both validity passes |
| `FormStruct.GenerateActionsSetup` | crates/macros/form_proc/src/form_struct.rs:391-437 | one step per requested button kind and no other; cancel, then submit, then the enum's buttons |
| `FormStruct.StepButtons` | crates/macros/form_proc/src/form_struct.rs:393-427 | the buttons one step spawns: all bound to the form; one untagged button with the configured text for cancel or submit, one per variant for the enum |
| `FormStruct.ActionRow` | crates/macros/form_proc/src/form_struct.rs:393-427 | every row button belongs to the form; a button with `FormActionId(i)` is the enum's `i`-th bundle; a button without an id is the configured cancel or submit button |
| `FormStruct.StepsAreRequested` | crates/macros/form_proc/src/form_struct.rs:391-437 | any step list with what `GenerateActionsSetup` promises is exactly: cancel if asked, then submit if asked, then the enum if named |
| `FormStruct.ActionRowLayout` | crates/macros/form_proc/src/form_struct.rs:391-437 | the whole row, as one equation: the cancel button (text, form, `Cancel` role) if requested, then the submit button likewise, then the enum's bundle `i` tagged `FormActionId(i)` for every variant `i` in order, and nothing else |
| `FormStruct.ActionRowRoundTrip` | crates/macros/form_proc/src/form_struct.rs:419-427 | an enum button's id is dispatched back to its own variant, whose role and text it shows |
| `FormStruct.OrderedFieldChildren` | crates/macros/form_proc/src/form_struct.rs:303-307 | with the field entities first among the children, ordered `k`, `k + 1`, ..., and the other children unordered, the ordered children are the fields in declaration order |
| `FormStruct.TabFollowsDeclarationOrder` | crates/macros/form_proc/src/form_struct.rs:269-277 | in a generated form whose only focused element is field `j`, Tab adds focus to field `j + 1`, and from the last field to the first |
| `FormStruct.GetFormData` | crates/macros/form_proc/src/form_struct.rs:510-527 | gives data iff exactly one marker entity is `FormValid`, the field resource exists and every required field has a value; no single valid form gives no data; a missing resource panics |
| `FormStruct.SubmitStep` | crates/macros/form_proc/src/form_struct.rs:492-505 | the generated `submit` for one event: at most one event out |
| `FormStruct.SubmitStepSpec` | crates/macros/form_proc/src/form_struct.rs:492-505 | Cancel is forwarded; Custom is dropped; Submit is dropped without a single marker entity, and otherwise sends that form's data whatever entity the event names; a single form without `FormValid` panics on the unwrap |
| `FormStruct.SubmitAll` | crates/macros/form_proc/src/form_struct.rs:483-506 | `submit` over a frame's events, stopping at the first panic: at most one event out per event in |
| `FormStruct.SubmitAllCancels` | crates/macros/form_proc/src/form_struct.rs:502 | Cancel events pass one for one, in order |
| `FormStruct.SubmitSystem` | crates/macros/form_proc/src/form_struct.rs:483-506 | the loop sends exactly what the per-event routing sends, in order, and stops at the first panic |
| `FormStruct.SingleForm` | crates/macros/form_proc/src/form_struct.rs:575-579 | there is a form exactly when one entity carries the marker |
| `FormStruct.BtnStep` | crates/macros/form_proc/src/form_struct.rs:574-602 | the generated `btn_submit` for one press: at most one event or action out |
| `FormStruct.BtnIgnores` | crates/macros/form_proc/src/form_struct.rs:575-583 | presses are ignored without a single form, for buttons of no form or of another form, and for buttons with neither a usable id nor a role |
| `FormStruct.BtnActionRoute` | crates/macros/form_proc/src/form_struct.rs:548-555 | with readable form data, a known id sends `ActionValue(id, data if the variant carries data, else none)`; a data-carrying variant without data panics with "Expected entity for action variant"; an unknown id panics naming it; a panic reading the data is passed on |
| `FormStruct.BtnRoleRoute` | crates/macros/form_proc/src/form_struct.rs:584-600 | Submit sends `Submit(data)` iff there is data (and then the form is `FormValid`), else nothing; Cancel sends `Cancel(form)`; Custom sends its name and the data if any; Apply sends nothing; a panic reading the data is passed on; with no valid form no data is read |
| `FormStruct.BtnAll` | crates/macros/form_proc/src/form_struct.rs:574-602 | at most one event per press |
| `FormStruct.BtnSubmit` | crates/macros/form_proc/src/form_struct.rs:563-603 | the loop sends exactly what the per-press routing sends, in order, and stops at the first panic |
| `FormDerive.Expand` | crates/macros/form_derive/src/lib.rs:94-135 | panics with "Expected struct" on a non-struct, with "All fields must be public" on a non-public field, and on the unwrap of a missing field name; an accepted struct yields one field per field |
| `FormDerive.ExpandAgreesWithAttribute` | crates/macros/form_derive/src/lib.rs:94-135 | the derive accepts the same structs as the attribute macro, and the same `FieldSetup` values are computed for their fields; a missing `text_box` panics with "All fields must have an associated input field" (the tokens emitted for an optional field differ: `FormDerive.ExpandOptionalDoesNotCompile`) |
| `FieldSchema.SpawnTokens` | crates/macros/form_proc/src/form_struct.rs:341-371 | the attribute macro's field spawn tuple holds `FormElementOptional` exactly when the field is optional |
| `FieldSchema.SpawnTokensSpec` | crates/macros/form_proc/src/form_struct.rs:341-371 | that tuple is well formed (every component followed by a comma) and its components are the node, the text input, `FormElementOptional` if optional, and `FormElementOrder`, in order |
| `FormDerive.DeriveSpawnTokens` | crates/macros/form_derive/src/lib.rs:301-327 | the derive's tuple as written: the attribute macro's tuple for a non-optional field; for an optional one, `FormElementOptional` directly followed by `FormElementOrder` |
| `FormDerive.DeriveSpawnMalformed` | crates/macros/form_derive/src/lib.rs:301-327 | the derive's tuple is well formed iff the field is not optional, and then has the attribute macro's components |
| `FormDerive.ExpandOptionalDoesNotCompile` | crates/macros/form_derive/src/lib.rs:301-327 | every explicitly optional field of a struct the derive accepts gets a malformed spawn tuple |
| `FormDerive.SetupForm` | crates/macros/form_derive/src/lib.rs:266-268 | setup gives the form `Form`, keeps its existing children and appends the field entities; no validity marker is added and nothing else changes |
| `FormDerive.SubmitStep` | crates/macros/form_derive/src/lib.rs:389-405 | the generated `submit` for one generic event: at most one event out |
| `FormDerive.SubmitStepSpec` | crates/macros/form_derive/src/lib.rs:389-405 | Cancel is forwarded unconditionally; Submit sends the struct iff the field resource exists and the named form has the marker and `FormValid`, and reads the fields when it does |
| `FormDerive.FreshFormNotSubmitted` | crates/macros/form_derive/src/lib.rs:266-268 | a form just set up by the derive from a node without `FormValid` is not submitted, when the view's validity flags are the arena's |
| `FormDerive.SubmitAgreesWithAttribute` | crates/macros/form_derive/src/lib.rs:389-402 | for a single valid form, both variants' `submit` send the same struct, or both panic |
| `FormDerive.SubmitAll` | crates/macros/form_derive/src/lib.rs:389-405 | at most one event out per event in; a frame of Cancel events is forwarded one for one |

## Left out

- The text-input editing engine (cursor, masking while rendering, blink, paste). Its source is not part of this model. A field's current text is an input (`FormView.values`).
- The OS and browser clipboard (`clipboard.rs`): foreign I/O and async plumbing.
- Styling and UI construction: `FormInputTextStyle`, `FormElementStyle`, `NodeBundle` and `ButtonBundle` layout, the button's `TextBundle` child, the entity `Name`s, and the focus example's border colours.
- Plugin registration and macro entry points (`lib.rs` files, the generated plugin and its event registration). Also left out are the generated identifiers (`{Name}Form`, `{Name}FormFields`, ...) and the struct re-emission.
- Attribute parsing by darling and syn, and `quote!` token emission (except the field spawn tuple, modelled as a list of component and comma tokens). Fields arrive with their attributes parsed or marked malformed. An unparsable attribute-macro argument list (`form_struct.rs:110-117`) is not modelled.
- Ordering within a frame. The four systems of `form.rs:12-20` run unordered, and so do those of `form_element.rs:11-19`; the two plugins' passes also meet on the shared `FormInvalid` and `FormValid` of a form. Within one frame, each pass sees the others' in-place `push` and `retain` at once but their deferred marker changes only at the next sync point. So when the valid pass empties a list in place and the invalid pass then pushes a new cause into that still-present list, the deferred swap to `FormValid` drops the new cause, and the form ends valid with an invalid child. The model composes passes with a sync point between them (`FormWorld.InvalidThenValid`, `FormWorld.MarkersPersist`) and does not capture this loss.
- Bevy scheduling, change detection (`Added`, `Changed`), hierarchy internals and event buses. Each pass gets explicit inputs instead: the newly invalid or valid elements, key flags, changed buttons, press events and the query results in `FormView`.
- Logging (`error!`, `warn!`) in the generated code.
- `FormActions.RoleOf`: a custom action's role is the name as written. The generated code wraps the name in `stringify!`, which keeps a string literal's quotes and yields a `&str` where `ButtonRole::Custom` takes a `String`. The model does not reproduce that quirk.
- `FieldSchema.ReadFields`: the panic message is the fixed prefix of `Result::unwrap`, without the query error's formatted details.
- `FormStruct.BtnActionRoute`: both panics of `from_id_and_data` ("Unknown action id: …" and "Expected entity for action variant") reach the message through `Result::unwrap`, whose `Debug` formatting puts the error string in quotes (and escapes it); the model's messages hold the error text without those quotes.
- `FormStruct.SubmitStepSpec`: the generated code's richer `FormEvent` (`Cancel(form)`, `Custom(..)`) is `FormStruct.RoutedEvent`. The generated code does not match the `FormEvent` declared in `form.rs`, and the model does not reconcile the two.
- `FormDerive.ExpandAgreesWithAttribute`: the agreement is over the `FieldSetup` values both variants compute. The derive's emitted setup for a field with `optional = true` does not compile (`crates/macros/form_derive/src/lib.rs:306`, see "Findings"), so for such structs only the attribute macro yields a working form.

## Findings

| source | as written | input that shows it | evidently intended | confidence | as-written member | corrected member |
|---|---|---|---|---|---|---|
| crates/macros/form_derive/src/lib.rs:306 | `FormElementOptional` is emitted without a trailing comma and spliced directly before `FormElementOrder(#order),`, so the spawn tuple reads `FormElementOptional FormElementOrder(0)` | any struct field with `#[form_field(optional = true)]` and a `text_box` attribute | `FormElementOptional,` with its comma, as the attribute macro emits (`crates/macros/form_proc/src/form_struct.rs:345`) | not executed; high (token-level reading of the macro) | `FormDerive.DeriveSpawnMalformed` | `FieldSchema.SpawnTokensSpec` |
