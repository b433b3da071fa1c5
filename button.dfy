/**
 * Form buttons: their role, the builder that assembles a button bundle,
 * the conversion of the engine's interaction state, and the system that
 * turns presses into `ButtonPressEvent`s.
 */
module Button {
  import opened Wrappers

  type Entity = nat

  /** The role a button plays in its form; `Submit` is the default. */
  datatype ButtonRole = Submit | Cancel | Apply | Custom(name: string)

  /** The three role names that are not custom. */
  const Reserved: set<string> := {"submit", "cancel", "apply"}

  /**
   * `ButtonRole::from(&str)`: the exact lower-case names select the three
   * fixed roles, any other text (other capitalisations included) becomes a
   * custom role carrying that text. `From<String>` goes through `as_str`,
   * so with strings modelled as one type this function covers both.
   */
  function RoleFromStr(s: string): (r: ButtonRole)
    ensures r == Submit <==> s == "submit"
    ensures r == Cancel <==> s == "cancel"
    ensures r == Apply <==> s == "apply"
    ensures r.Custom? <==> s !in Reserved
    ensures r.Custom? ==> r.name == s
  {
    if s == "submit" then Submit
    else if s == "cancel" then Cancel
    else if s == "apply" then Apply
    else Custom(s)
  }

  /** The text a role is written as. */
  function RoleText(r: ButtonRole): string
  {
    match r
    case Submit => "submit"
    case Cancel => "cancel"
    case Apply => "apply"
    case Custom(name) => name
  }

  /** Parsing keeps the text: writing a parsed role gives back the text. */
  lemma RoleTextOfParsed(s: string)
    ensures RoleText(RoleFromStr(s)) == s
  {
  }

  /** Every role but a custom one named like a fixed role is parsed back from its text. */
  lemma ParseRoleText(r: ButtonRole)
    requires r.Custom? ==> r.name !in Reserved
    ensures RoleFromStr(RoleText(r)) == r
  {
  }

  /** The `FormButton` component: the button's text and the form it belongs to. */
  datatype FormButton = FormButton(text: string, form: Option<Entity>)

  /**
   * `FormButtonBundle`, without the engine's `ButtonBundle` (layout and
   * style), which the builders never change.
   */
  datatype FormButtonBundle = FormButtonBundle(button: FormButton, role: ButtonRole)
  {
    /** `FormButtonBundle::new(text)`. */
    static function New(text: string): (b: FormButtonBundle)
      ensures b.button.text == text && b.button.form.None? && b.role == Submit
    {
      FormButtonBundle(FormButton(text, Option.None), Submit)
    }

    /** `with_role`: sets the role and nothing else. */
    function WithRole(role: ButtonRole): (b: FormButtonBundle)
      ensures b.role == role && b.button == button
    {
      this.(role := role)
    }

    /** `with_form`: binds the button to `form` and changes nothing else. */
    function WithForm(form: Entity): (b: FormButtonBundle)
      ensures b.button.form == Some(form) && b.button.text == button.text && b.role == role
    {
      this.(button := button.(form := Some(form)))
    }
  }

  /**
   * The two builders touch different parts, so their order does not
   * matter, and a second call of either replaces the first.
   */
  lemma BuildersCommute(b: FormButtonBundle, r: ButtonRole, r': ButtonRole, f: Entity, f': Entity)
    ensures b.WithRole(r).WithForm(f) == b.WithForm(f).WithRole(r)
    ensures b.WithRole(r).WithRole(r') == b.WithRole(r')
    ensures b.WithForm(f).WithForm(f') == b.WithForm(f')
  {
  }

  /** The engine's `Interaction` state of a button. */
  datatype Interaction = None | Hovered | Pressed

  /** The plugin's own copy of it, usable as a hash key. */
  datatype FormInteraction = None | Hovered | Pressed

  /** `From<&Interaction> for FormInteraction`: variant for variant. */
  function ToFormInteraction(i: Interaction): (r: FormInteraction)
    ensures r.None? <==> i.None?
    ensures r.Hovered? <==> i.Hovered?
    ensures r.Pressed? <==> i.Pressed?
  {
    match i
    case None => FormInteraction.None
    case Hovered => FormInteraction.Hovered
    case Pressed => FormInteraction.Pressed
  }

  /** The reverse mapping. */
  function ToInteraction(r: FormInteraction): Interaction
  {
    match r
    case None => Interaction.None
    case Hovered => Interaction.Hovered
    case Pressed => Interaction.Pressed
  }

  /** The conversion is one-to-one and onto. */
  lemma InteractionBijection(i: Interaction, r: FormInteraction)
    ensures ToInteraction(ToFormInteraction(i)) == i
    ensures ToFormInteraction(ToInteraction(r)) == r
  {
  }

  /** `ButtonPressEvent`: the pressed button's entity, a copy of its `FormButton`, and its role. */
  datatype ButtonPressEvent = ButtonPressEvent(entity: Entity, button: FormButton, role: ButtonRole)

  /** A button whose `Interaction` changed this frame, with the components the system reads. */
  datatype ChangedButton = ChangedButton(entity: Entity, button: FormButton, role: ButtonRole, interaction: Interaction)

  function EventOf(c: ChangedButton): ButtonPressEvent
  {
    ButtonPressEvent(c.entity, c.button, c.role)
  }

  /** The events the `interact` system sends for `changed`, in iteration order. */
  function PressEvents(changed: seq<ChangedButton>): (r: seq<ButtonPressEvent>)
    ensures |r| <= |changed|
  {
    if changed == [] then []
    else
      var c := changed[|changed| - 1];
      PressEvents(changed[..|changed| - 1]) + (if c.interaction.Pressed? then [EventOf(c)] else [])
  }

  /** Events follow the buttons' order: the events of a concatenation are concatenated. */
  lemma {:induction false} PressEventsConcat(a: seq<ChangedButton>, b: seq<ChangedButton>)
    ensures PressEvents(a + b) == PressEvents(a) + PressEvents(b)
  {
    if b == [] {
      assert a + b == a;
    } else {
      assert (a + b)[..|a + b| - 1] == a + b[..|b| - 1];
      PressEventsConcat(a, b[..|b| - 1]);
    }
  }

  /**
   * One event per pressed button and none for a hovered or idle one: an
   * event is sent exactly for the changed buttons whose interaction is
   * `Pressed`, and carries that button's entity, button and role.
   */
  lemma {:induction false} PressEventsSpec(changed: seq<ChangedButton>, e: ButtonPressEvent)
    ensures |PressEvents(changed)| <= |changed|
    ensures e in PressEvents(changed) <==>
      exists i :: 0 <= i < |changed| && changed[i].interaction.Pressed? && e == EventOf(changed[i])
    ensures (forall i :: 0 <= i < |changed| ==> !changed[i].interaction.Pressed?) ==> PressEvents(changed) == []
  {
    if changed != [] {
      var init := changed[..|changed| - 1];
      PressEventsSpec(init, e);
      assert forall i :: 0 <= i < |init| ==> init[i] == changed[i];
      if exists i :: 0 <= i < |changed| && changed[i].interaction.Pressed? && e == EventOf(changed[i]) {
        var i :| 0 <= i < |changed| && changed[i].interaction.Pressed? && e == EventOf(changed[i]);
        if i < |init| {
          assert init[i] == changed[i];
        }
      }
    }
  }

  /** The `interact` system: one `ButtonPressEvent` per pressed button, in order. */
  method Interact(changed: seq<ChangedButton>) returns (events: seq<ButtonPressEvent>)
    ensures events == PressEvents(changed)
  {
    events := [];
    var i := 0;
    while i < |changed|
      invariant 0 <= i <= |changed|
      invariant events == PressEvents(changed[..i])
    {
      assert changed[..i + 1][..i] == changed[..i];
      if changed[i].interaction == Interaction.Pressed {
        events := events + [ButtonPressEvent(changed[i].entity, changed[i].button, changed[i].role)];
      }
      i := i + 1;
    }
    assert changed[..i] == changed;
  }
}
