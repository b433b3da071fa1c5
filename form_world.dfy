/**
 * The form plugin's entity state and its per-frame passes.
 *
 * The engine stores components on entities; here the entities a form
 * touches live in one arena, a map from entity id to a `Node` that holds
 * the components these passes read or write. `World` owns the arena and
 * has one method per system: `TouchPass` (`form_element_touched`),
 * `InvalidPass` (`form_element_invalid`), `ValidPass`
 * (`form_element_valid`), `FormKeyboard` (`form_keyboard`) and
 * `ElementKeyboard` (`form_element_keyboard`). The first three systems
 * exist twice in the source, identically, once in each of the form and the
 * form element plugins; one method models both copies.
 *
 * Change detection (`Added<...>`) and the key state are inputs of the
 * passes. Structural changes made through deferred commands take effect
 * when the pass ends; a pass therefore decides whether a component is
 * present from the state it started with.
 */
module FormWorld {
  import opened Wrappers
  import TabOrder

  type Entity = nat

  /** Why an element is invalid; every cause names the element it is about. */
  datatype FormValidationError =
    | Required(entity: Entity)
    | Invalid(entity: Entity)
    | Custom(entity: Entity, message: string)

  /** Event of the core plugin: `Submit` carries the form entity, `Cancel` nothing. */
  datatype FormEvent<T> = Submit(data: T) | Cancel

  /** Key transitions observed this frame. */
  datatype Keys = Keys(enterReleased: bool, escapePressed: bool, tabPressed: bool, tabReleased: bool)

  /**
   * The components of one entity that the form systems use:
   * `Parent`, `Children`, the `Form`, `FormValid` and `FormInvalid` markers of
   * a form, and the `FormElementInvalid`, `FormElementFocus`,
   * `FormElementTouched` and `FormElementOrder` components of an element.
   */
  datatype Node = Node(
    parent: Option<Entity>,
    children: Option<seq<Entity>>,
    isForm: bool,
    formValid: bool,
    formInvalid: Option<seq<FormValidationError>>,
    elementInvalid: Option<FormValidationError>,
    focus: bool,
    touched: bool,
    order: Option<nat>)

  /** A form carrying `FormInvalid` has a non-empty error list and no `FormValid`. */
  ghost predicate Coherent(m: map<Entity, Node>)
  {
    forall f :: f in m && m[f].formInvalid.Some? ==> m[f].formInvalid.value != [] && !m[f].formValid
  }

  /** Every field of `n` but the form's validity markers equals that of `o`. */
  ghost predicate SameElementState(n: Node, o: Node)
  {
    n == o.(formValid := n.formValid, formInvalid := n.formInvalid)
  }

  // ---------------------------------------------------------------------
  // Touched marking

  function AfterTouch(n: Node): Node
  {
    if n.focus && !n.touched then n.(touched := true) else n
  }

  function TouchResult(m: map<Entity, Node>): (r: map<Entity, Node>)
    ensures r.Keys == m.Keys
  {
    map e | e in m :: AfterTouch(m[e])
  }

  /**
   * Touched marking gives `FormElementTouched` to every focused element,
   * never takes it away, and changes nothing else.
   */
  lemma TouchResultSpec(m: map<Entity, Node>, e: Entity)
    requires e in m
    ensures e in TouchResult(m)
    ensures TouchResult(m)[e].touched <==> m[e].touched || m[e].focus
    ensures TouchResult(m)[e] == m[e].(touched := TouchResult(m)[e].touched)
  {
  }

  // ---------------------------------------------------------------------
  // An element turns invalid

  /** The cause that child `c` reports to form `f`, if `c` is an invalid child of `f`. */
  function Reported(m: map<Entity, Node>, c: Entity, f: Entity): seq<FormValidationError>
  {
    if c in m && m[c].parent == Some(f) && m[c].elementInvalid.Some? then [m[c].elementInvalid.value] else []
  }

  /** The causes reported to form `f` by the newly invalid `added`, in iteration order. */
  function NewErrors(m: map<Entity, Node>, added: seq<Entity>, f: Entity): seq<FormValidationError>
  {
    if added == [] then []
    else NewErrors(m, added[..|added| - 1], f) + Reported(m, added[|added| - 1], f)
  }

  /**
   * Form node `n` after a pass that reported `errs` to it: an existing list
   * grows in place; without a list, each report inserts a fresh one-element
   * list through a deferred command, so the last insert wins and `FormValid`
   * is removed.
   */
  function AfterInvalid(n: Node, errs: seq<FormValidationError>): Node
  {
    if !n.isForm || errs == [] then n
    else if n.formInvalid.Some? then n.(formInvalid := Some(n.formInvalid.value + errs))
    else n.(formInvalid := Some([errs[|errs| - 1]]), formValid := false)
  }

  function InvalidResult(m: map<Entity, Node>, added: seq<Entity>): (r: map<Entity, Node>)
    ensures r.Keys == m.Keys
  {
    map f | f in m :: AfterInvalid(m[f], NewErrors(m, added, f))
  }

  /** A cause reaches form `f` exactly when some newly invalid child of `f` carries it. */
  lemma {:induction false} NewErrorsSpec(m: map<Entity, Node>, added: seq<Entity>, f: Entity, e: FormValidationError)
    ensures |NewErrors(m, added, f)| <= |added|
    ensures e in NewErrors(m, added, f) <==>
      exists i :: 0 <= i < |added| && added[i] in m && m[added[i]].parent == Some(f) && m[added[i]].elementInvalid == Some(e)
  {
    if added != [] {
      var init := added[..|added| - 1];
      NewErrorsSpec(m, init, f, e);
      if e in NewErrors(m, added, f) && e !in NewErrors(m, init, f) {
        assert added[|added| - 1] in m;
      }
      if exists i :: 0 <= i < |added| && added[i] in m && m[added[i]].parent == Some(f) && m[added[i]].elementInvalid == Some(e) {
        var i :| 0 <= i < |added| && added[i] in m && m[added[i]].parent == Some(f) && m[added[i]].elementInvalid == Some(e);
        if i < |added| - 1 {
          assert init[i] == added[i];
        }
      }
    }
  }

  /**
   * The invalid pass: a form that had `FormInvalid` ends with its old list
   * followed by every cause reported to it, in order; a form without one
   * that received reports ends with the LAST cause alone and without
   * `FormValid` (earlier inserts of the same pass are replaced); parents that
   * are not forms and forms that received nothing keep their state. Only the
   * forms' validity markers change.
   */
  lemma InvalidResultSpec(m: map<Entity, Node>, added: seq<Entity>, f: Entity)
    requires f in m
    ensures f in InvalidResult(m, added)
    ensures SameElementState(InvalidResult(m, added)[f], m[f])
    ensures var r, errs := InvalidResult(m, added)[f], NewErrors(m, added, f);
      && (!m[f].isForm || errs == [] ==> r == m[f])
      && (m[f].isForm && m[f].formInvalid.Some? ==>
            r.formInvalid == Some(m[f].formInvalid.value + errs) && r.formValid == m[f].formValid)
      && (m[f].isForm && m[f].formInvalid.None? && errs != [] ==>
            r.formInvalid == Some([errs[|errs| - 1]]) && !r.formValid)
  {
    var errs := NewErrors(m, added, f);
    assert InvalidResult(m, added)[f] == AfterInvalid(m[f], errs);
    if m[f].formInvalid.Some? {
      assert m[f].formInvalid.value + [] == m[f].formInvalid.value;
    }
  }

  /** The invalid pass keeps `Coherent`: a list it creates or extends is never empty. */
  lemma InvalidResultCoherent(m: map<Entity, Node>, added: seq<Entity>)
    requires Coherent(m)
    ensures Coherent(InvalidResult(m, added))
  {
    var r := InvalidResult(m, added);
    forall f | f in r && r[f].formInvalid.Some?
      ensures r[f].formInvalid.value != [] && !r[f].formValid
    {
      assert r[f] == AfterInvalid(m[f], NewErrors(m, added, f));
    }
  }

  /**
   * Two fields of a form without `FormInvalid` turn invalid in the same
   * frame: the form ends up listing only the second cause. Not every cause
   * reported in one pass survives it.
   */
  lemma InvalidPassKeepsOnlyLastInsert()
    ensures var form := Node(None, Some([1, 2]), true, true, None, None, false, false, None);
      var a := Node(Some(0), None, false, false, None, Some(Required(1)), false, false, Some(0));
      var b := Node(Some(0), None, false, false, None, Some(Required(2)), false, false, Some(1));
      var r := InvalidResult(map[0 := form, 1 := a, 2 := b], [1, 2]);
      r[0].formInvalid == Some([Required(2)]) && Required(1) !in r[0].formInvalid.value
  {
    var form := Node(None, Some([1, 2]), true, true, None, None, false, false, None);
    var a := Node(Some(0), None, false, false, None, Some(Required(1)), false, false, Some(0));
    var b := Node(Some(0), None, false, false, None, Some(Required(2)), false, false, Some(1));
    var m := map[0 := form, 1 := a, 2 := b];
    assert [1, 2][..1] == [1];
    assert NewErrors(m, [1], 0) == [Required(1)];
    assert NewErrors(m, [1, 2], 0) == [Required(1), Required(2)];
  }

  // ---------------------------------------------------------------------
  // An element turns valid

  /** `errs` without the causes that name an entity of `gone`, order kept (`Vec::retain`). */
  function Without(errs: seq<FormValidationError>, gone: set<Entity>): (r: seq<FormValidationError>)
    ensures forall e :: e in r <==> e in errs && e.entity !in gone
    ensures |r| <= |errs|
  {
    if errs == [] then []
    else (if errs[0].entity in gone then [] else [errs[0]]) + Without(errs[1..], gone)
  }

  /** Removal works element by element, so the kept causes keep their relative order. */
  lemma {:induction false} WithoutConcat(a: seq<FormValidationError>, b: seq<FormValidationError>, gone: set<Entity>)
    ensures Without(a + b, gone) == Without(a, gone) + Without(b, gone)
  {
    if a != [] {
      assert (a + b)[0] == a[0];
      assert (a + b)[1..] == a[1..] + b;
      WithoutConcat(a[1..], b, gone);
      var head := if a[0].entity in gone then [] else [a[0]];
      calc {
        Without(a + b, gone);
        head + Without(a[1..] + b, gone);
        head + (Without(a[1..], gone) + Without(b, gone));
        (head + Without(a[1..], gone)) + Without(b, gone);
        Without(a, gone) + Without(b, gone);
      }
    } else {
      assert a + b == b;
    }
  }

  /** Removing for one set of entities, then another, removes for both at once. */
  lemma {:induction false} WithoutTwice(errs: seq<FormValidationError>, g1: set<Entity>, g2: set<Entity>)
    ensures Without(Without(errs, g1), g2) == Without(errs, g1 + g2)
  {
    if errs != [] {
      WithoutTwice(errs[1..], g1, g2);
      WithoutConcat(if errs[0].entity in g1 then [] else [errs[0]], Without(errs[1..], g1), g2);
    }
  }

  /** Causes that name none of `gone` are all kept, unchanged. */
  lemma {:induction false} WithoutKeepsOthers(errs: seq<FormValidationError>, gone: set<Entity>)
    requires forall e :: e in errs ==> e.entity !in gone
    ensures Without(errs, gone) == errs
  {
    if errs != [] {
      WithoutKeepsOthers(errs[1..], gone);
    }
  }

  /** The newly valid children of form `f` among `added`. */
  function Validated(m: map<Entity, Node>, added: seq<Entity>, f: Entity): set<Entity>
  {
    if added == [] then {}
    else
      var c := added[|added| - 1];
      Validated(m, added[..|added| - 1], f) + (if c in m && m[c].parent == Some(f) then {c} else {})
  }

  /** A child counts as validated for `f` exactly when it is among `added` and `f` is its parent. */
  lemma {:induction false} ValidatedSpec(m: map<Entity, Node>, added: seq<Entity>, f: Entity, c: Entity)
    ensures c in Validated(m, added, f) <==> c in added && c in m && m[c].parent == Some(f)
  {
    if added != [] {
      var init := added[..|added| - 1];
      ValidatedSpec(m, init, f, c);
      assert added == init + [added[|added| - 1]];
    }
  }

  /**
   * Form node `n` after a pass in which the children `gone` turned valid:
   * a form with `FormInvalid` loses every cause naming one of them; an
   * emptied list is replaced by `FormValid`.
   */
  function AfterValid(n: Node, gone: set<Entity>): Node
  {
    if !n.isForm || n.formInvalid.None? || gone == {} then n
    else
      var kept := Without(n.formInvalid.value, gone);
      if kept == [] then n.(formInvalid := None, formValid := true) else n.(formInvalid := Some(kept))
  }

  function ValidResult(m: map<Entity, Node>, added: seq<Entity>): (r: map<Entity, Node>)
    ensures r.Keys == m.Keys
  {
    map f | f in m :: AfterValid(m[f], Validated(m, added, f))
  }

  /**
   * The valid pass: for a form with `FormInvalid` and some newly valid
   * child, no remaining cause names such a child whatever its variant, every
   * other cause stays, and the form is `FormValid` exactly when nothing
   * remains; a non-empty remainder leaves the markers as they were. Forms
   * without `FormInvalid`, forms no child reported to, and non-forms are
   * unchanged.
   */
  lemma ValidResultSpec(m: map<Entity, Node>, added: seq<Entity>, f: Entity)
    requires f in m
    ensures f in ValidResult(m, added)
    ensures SameElementState(ValidResult(m, added)[f], m[f])
    ensures var r, gone := ValidResult(m, added)[f], Validated(m, added, f);
      && (!m[f].isForm || m[f].formInvalid.None? || gone == {} ==> r == m[f])
      && (m[f].isForm && m[f].formInvalid.Some? && gone != {} ==>
            var kept := Without(m[f].formInvalid.value, gone);
            && (kept == [] ==> r.formInvalid.None? && r.formValid)
            && (kept != [] ==> r.formInvalid == Some(kept) && r.formValid == m[f].formValid))
  {
  }

  /** The valid pass keeps `Coherent`. */
  lemma ValidResultCoherent(m: map<Entity, Node>, added: seq<Entity>)
    requires Coherent(m)
    ensures Coherent(ValidResult(m, added))
  {
    var r := ValidResult(m, added);
    forall f | f in r && r[f].formInvalid.Some?
      ensures r[f].formInvalid.value != [] && !r[f].formValid
    {
      assert r[f] == AfterValid(m[f], Validated(m, added, f));
    }
  }

  /**
   * A field that turns invalid with a cause naming itself and then turns
   * valid leaves its form's error list as it was before; a form that had no
   * list ends up `FormValid`.
   */
  lemma InvalidThenValid(m: map<Entity, Node>, f: Entity, c: Entity)
    requires Coherent(m) && f in m && m[f].isForm && c in m && c != f
    requires m[c].parent == Some(f) && m[c].elementInvalid.Some? && m[c].elementInvalid.value.entity == c
    requires m[f].formInvalid.Some? ==> forall e :: e in m[f].formInvalid.value ==> e.entity != c
    ensures var r := ValidResult(InvalidResult(m, [c]), [c])[f];
      && r.formInvalid == m[f].formInvalid
      && (m[f].formInvalid.Some? ==> r.formValid == m[f].formValid)
      && (m[f].formInvalid.None? ==> r.formValid)
  {
    var err := m[c].elementInvalid.value;
    var mid := InvalidResult(m, [c]);
    assert [c][..0] == [];
    assert NewErrors(m, [c], f) == [err];
    assert mid[c] == m[c] by {
      assert mid[c] == AfterInvalid(m[c], NewErrors(m, [c], c));
    }
    assert Validated(mid, [c], f) == {c};
    if m[f].formInvalid.Some? {
      var l := m[f].formInvalid.value;
      WithoutConcat(l, [err], {c});
      WithoutKeepsOthers(l, {c});
      assert Without([err], {c}) == [];
      assert mid[f] == m[f].(formInvalid := Some(l + [err]));
      assert Without(l + [err], {c}) == l;
    }
  }

  /** Every form carries one of the two validity markers, `FormValid` or `FormInvalid`. */
  ghost predicate Marked(m: map<Entity, Node>)
  {
    forall f :: f in m && m[f].isForm ==> m[f].formValid || m[f].formInvalid.Some?
  }

  /**
   * Touched marking and both validity passes keep every form marked, and
   * `FormValid` is only ever gained by a form whose `FormInvalid` list the
   * valid pass empties.
   */
  lemma MarkersPersist(m: map<Entity, Node>, added: seq<Entity>)
    requires Marked(m)
    ensures Marked(TouchResult(m)) && Marked(InvalidResult(m, added)) && Marked(ValidResult(m, added))
    ensures forall f :: f in m && !m[f].formValid ==> !InvalidResult(m, added)[f].formValid
    ensures forall f :: f in m && !m[f].formValid && ValidResult(m, added)[f].formValid ==>
      m[f].formInvalid.Some? && ValidResult(m, added)[f].formInvalid.None?
  {
    var inv, val := InvalidResult(m, added), ValidResult(m, added);
    forall f | f in m
      ensures m[f].isForm ==> inv[f].formValid || inv[f].formInvalid.Some?
      ensures m[f].isForm ==> val[f].formValid || val[f].formInvalid.Some?
      ensures !m[f].formValid ==> !inv[f].formValid
      ensures !m[f].formValid && val[f].formValid ==> m[f].formInvalid.Some? && val[f].formInvalid.None?
    {
      assert inv[f] == AfterInvalid(m[f], NewErrors(m, added, f));
      assert val[f] == AfterValid(m[f], Validated(m, added, f));
    }
    assert Marked(TouchResult(m));
  }

  // ---------------------------------------------------------------------
  // Keyboard

  /** The forms that have children: what `Query<&Children, With<Form>>` matches. */
  function FormsWithChildren(m: map<Entity, Node>): set<Entity>
  {
    set e | e in m && m[e].isForm && m[e].children.Some?
  }

  /** The form `get_single` returns: present only when exactly one form has children. */
  ghost function SoleForm(m: map<Entity, Node>): (r: Option<Entity>)
    ensures r.Some? <==> |FormsWithChildren(m)| == 1
    ensures r.Some? ==> FormsWithChildren(m) == {r.value}
    ensures r.Some? ==> r.value in m && m[r.value].isForm && m[r.value].children.Some?
  {
    var fs := FormsWithChildren(m);
    if |fs| == 1 then
      var f :| f in fs;
      SingletonIs(fs, f);
      Some(f)
    else None
  }

  /** The elements carrying `FormElementFocus`. */
  function Focused(m: map<Entity, Node>): set<Entity>
  {
    set e | e in m && m[e].focus
  }

  /**
   * The order Tab starts from: that of the single focused element, 0 when
   * it has none, and 0 when no element or several elements are focused.
   */
  ghost function FocusOrder(m: map<Entity, Node>): (r: nat)
    ensures |Focused(m)| != 1 ==> r == 0
    ensures forall e :: Focused(m) == {e} ==> r == m[e].order.GetOr(0)
  {
    var fs := Focused(m);
    if |fs| == 1 then
      var e :| e in fs;
      SingletonIs(fs, e);
      m[e].order.GetOr(0)
    else 0
  }

  /** The children that exist and carry an order, with that order, in child order. */
  function OrderedChildren(m: map<Entity, Node>, children: seq<Entity>): (r: seq<TabOrder.Slot>)
    ensures forall x :: x in r ==> x.entity in children && x.entity in m && m[x.entity].order == Some(x.order)
    ensures forall c :: c in children && c in m && m[c].order.Some? ==> TabOrder.Slot(c, m[c].order.value) in r
  {
    if children == [] then []
    else
      var c := children[0];
      (if c in m && m[c].order.Some? then [TabOrder.Slot(c, m[c].order.value)] else [])
      + OrderedChildren(m, children[1..])
  }

  /** The arena after inserting `FormElementFocus` on the chosen slot's entity, if any. */
  function WithFocus(m: map<Entity, Node>, target: Option<TabOrder.Slot>): map<Entity, Node>
  {
    if target.Some? && target.value.entity in m then
      var e := target.value.entity;
      m[e := m[e].(focus := true)]
    else m
  }

  /**
   * Tab only adds focus: the target gains `FormElementFocus`, an element
   * focused before stays focused, and nothing else changes.
   */
  lemma WithFocusSpec(m: map<Entity, Node>, target: Option<TabOrder.Slot>)
    ensures WithFocus(m, target).Keys == m.Keys
    ensures Focused(WithFocus(m, target)) ==
      Focused(m) + (if target.Some? && target.value.entity in m then {target.value.entity} else {})
    ensures forall e :: e in m ==> WithFocus(m, target)[e] == m[e].(focus := WithFocus(m, target)[e].focus)
  {
  }

  /** The arena after Tab on form `f`: focus goes to the target chosen from `f`'s children. */
  ghost function TabResult(m: map<Entity, Node>, f: Entity): (r: map<Entity, Node>)
    requires f in m && m[f].children.Some?
    ensures r.Keys == m.Keys
    ensures Focused(m) <= Focused(r)
  {
    WithFocus(m, TabOrder.TabTarget(OrderedChildren(m, m[f].children.value), FocusOrder(m)))
  }

  /** Tab from order 0 on a form whose children carry the orders 0, 2, 1 adds focus to the order-1 child. */
  lemma TabFromZero(m: map<Entity, Node>)
    requires 1 in m && m[1].children == Some([10, 11, 12])
    requires 10 in m && 11 in m && 12 in m
    requires m[10].order == Some(0) && m[11].order == Some(2) && m[12].order == Some(1)
    requires FocusOrder(m) == 0
    ensures TabResult(m, 1) == WithFocus(m, Some(TabOrder.Slot(12, 1)))
  {
    var slots := [TabOrder.Slot(10, 0), TabOrder.Slot(11, 2), TabOrder.Slot(12, 1)];
    assert OrderedChildren(m, m[1].children.value) == slots by {
      OrderedThree(m);
    }
    assert TabOrder.TabTarget(slots, 0) == Some(TabOrder.Slot(12, 1)) by {
      TabOrder.TabVisitsByOrder();
    }
  }

  /** The ordered children of that form, in child order. */
  lemma OrderedThree(m: map<Entity, Node>)
    requires 10 in m && 11 in m && 12 in m
    requires m[10].order == Some(0) && m[11].order == Some(2) && m[12].order == Some(1)
    ensures OrderedChildren(m, [10, 11, 12]) == [TabOrder.Slot(10, 0), TabOrder.Slot(11, 2), TabOrder.Slot(12, 1)]
  {
    assert [10, 11, 12][1..] == [11, 12];
    assert [11, 12][1..] == [12];
    assert [12][1..] == [];
    assert OrderedChildren(m, [12]) == [TabOrder.Slot(12, 1)];
  }

  /**
   * Since Tab only adds focus, repeated presses do not walk the fields: on
   * a form whose children carry the orders 0, 2, 1, with only the order-0
   * child focused, the first Tab focuses the order-1 child as well; with two
   * elements focused the next Tab starts from order 0 again and picks the
   * same child, so the world no longer changes and the order-2 child is
   * never reached.
   */
  lemma RepeatedTabSticks(m: map<Entity, Node>)
    requires 1 in m && m[1].children == Some([10, 11, 12])
    requires 10 in m && 11 in m && 12 in m
    requires m[10].order == Some(0) && m[11].order == Some(2) && m[12].order == Some(1)
    requires Focused(m) == {10}
    ensures Focused(TabResult(m, 1)) == {10, 12}
    ensures TabResult(TabResult(m, 1), 1) == TabResult(m, 1)
    ensures 11 !in Focused(TabResult(TabResult(m, 1), 1))
  {
    var target := Some(TabOrder.Slot(12, 1));
    assert FocusOrder(m) == 0 by {
      assert Focused(m) == {10};
    }
    TabFromZero(m);
    WithFocusSpec(m, target);
    TabAgain(WithFocus(m, target));
  }

  /** With the order-0 and order-1 children both focused, Tab changes nothing. */
  lemma TabAgain(m: map<Entity, Node>)
    requires 1 in m && m[1].children == Some([10, 11, 12])
    requires 10 in m && 11 in m && 12 in m
    requires m[10].order == Some(0) && m[11].order == Some(2) && m[12].order == Some(1)
    requires Focused(m) == {10, 12}
    ensures TabResult(m, 1) == m
  {
    assert FocusOrder(m) == 0 by {
      assert |Focused(m)| == 2;
    }
    TabFromZero(m);
    assert m[12].focus;
    assert m[12 := m[12].(focus := true)] == m;
  }

  /** Two members of a one-element set are that set's element. */
  lemma SingletonIs(s: set<Entity>, a: Entity)
    requires |s| == 1 && a in s
    ensures s == {a}
  {
    assert |s - {a}| == 0;
  }

  /** Extending the pass by child `added[i]` extends the reports by that child's own. */
  lemma NewErrorsStep(m: map<Entity, Node>, added: seq<Entity>, i: nat, f: Entity)
    requires i < |added|
    ensures NewErrors(m, added[..i + 1], f) == NewErrors(m, added[..i], f) + Reported(m, added[i], f)
  {
    assert added[..i + 1][..i] == added[..i];
  }

  /** Extending the pass by child `added[i]` adds it to the validated children of its parent. */
  lemma ValidatedStep(m: map<Entity, Node>, added: seq<Entity>, i: nat, f: Entity)
    requires i < |added|
    ensures Validated(m, added[..i + 1], f) ==
      Validated(m, added[..i], f) + (if added[i] in m && m[added[i]].parent == Some(f) then {added[i]} else {})
  {
    assert added[..i + 1][..i] == added[..i];
  }

  /** Form `g` of `m` before and after the pass reaches child `added[i]`. */
  lemma InvalidNodeStep(m: map<Entity, Node>, added: seq<Entity>, i: nat, g: Entity)
    requires i < |added| && g in m
    ensures var cur, rep := AfterInvalid(m[g], NewErrors(m, added[..i], g)), Reported(m, added[i], g);
      AfterInvalid(m[g], NewErrors(m, added[..i + 1], g)) ==
        if !m[g].isForm || rep == [] then cur
        else if m[g].formInvalid.Some? then cur.(formInvalid := Some(cur.formInvalid.value + rep))
        else cur.(formInvalid := Some(rep), formValid := false)
  {
    NewErrorsStep(m, added, i, g);
    var rep := Reported(m, added[i], g);
    if m[g].isForm && rep != [] {
      AfterInvalidStep(m[g], NewErrors(m, added[..i], g), rep[0]);
    } else if rep == [] {
      assert NewErrors(m, added[..i], g) + rep == NewErrors(m, added[..i], g);
    }
  }

  /** One more report of invalidity to form `n`, as the pass applies it. */
  lemma AfterInvalidStep(n: Node, errs: seq<FormValidationError>, err: FormValidationError)
    requires n.isForm
    ensures var cur := AfterInvalid(n, errs);
      AfterInvalid(n, errs + [err]) ==
        if n.formInvalid.Some? then cur.(formInvalid := Some(cur.formInvalid.value + [err]))
        else cur.(formInvalid := Some([err]), formValid := false)
  {
    if n.formInvalid.Some? {
      assert n.formInvalid.value + [] == n.formInvalid.value;
      assert n.formInvalid.value + errs + [err] == n.formInvalid.value + (errs + [err]);
    }
  }

  /**
   * One more newly valid child `c` of form `n`, as the pass applies it: the
   * retain runs on the current list, which is empty once an earlier child
   * of the same pass emptied it.
   */
  lemma AfterValidStep(n: Node, gone: set<Entity>, c: Entity)
    requires n.isForm && n.formInvalid.Some?
    ensures var cur := AfterValid(n, gone);
      var live := if cur.formInvalid.Some? then cur.formInvalid.value else [];
      var kept := Without(live, {c});
      AfterValid(n, gone + {c}) ==
        if kept == [] then cur.(formInvalid := None, formValid := true) else cur.(formInvalid := Some(kept))
  {
    WithoutTwice(n.formInvalid.value, gone, {c});
    if gone == {} {
      assert gone + {c} == {c};
      WithoutKeepsOthers(n.formInvalid.value, {});
    }
  }

  class World {
    var nodes: map<Entity, Node>

    constructor (initial: map<Entity, Node>)
      ensures nodes == initial
    {
      nodes := initial;
    }

    /** `form_element_touched`: every focused, untouched element gains `FormElementTouched`. */
    method TouchPass()
      modifies this
      ensures nodes == TouchResult(old(nodes))
    {
      ghost var snap := nodes;
      var todo := nodes.Keys;
      while todo != {}
        invariant todo <= snap.Keys && nodes.Keys == snap.Keys
        invariant forall e :: e in nodes ==> nodes[e] == if e in todo then snap[e] else AfterTouch(snap[e])
        decreases todo
      {
        var e :| e in todo;
        if nodes[e].focus && !nodes[e].touched {
          nodes := nodes[e := nodes[e].(touched := true)];
        }
        todo := todo - {e};
      }
    }

    /**
     * `form_element_invalid`: each newly invalid child in `added` reports
     * its cause to its parent form.
     */
    method InvalidPass(added: seq<Entity>)
      modifies this
      ensures nodes == InvalidResult(old(nodes), added)
    {
      var snap := nodes;
      var i := 0;
      while i < |added|
        invariant 0 <= i <= |added|
        invariant nodes.Keys == snap.Keys
        invariant forall f :: f in nodes ==> nodes[f] == AfterInvalid(snap[f], NewErrors(snap, added[..i], f))
      {
        var c := added[i];
        ghost var prev := nodes;
        if c in snap && snap[c].parent.Some? && snap[c].elementInvalid.Some? {
          var f, err := snap[c].parent.value, snap[c].elementInvalid.value;
          if f in nodes && nodes[f].isForm {
            if snap[f].formInvalid.Some? {
              // the list exists: push in place
              nodes := nodes[f := nodes[f].(formInvalid := Some(nodes[f].formInvalid.value + [err]))];
            } else {
              // deferred insert of a one-element list; a later insert in this pass replaces it
              nodes := nodes[f := nodes[f].(formInvalid := Some([err]), formValid := false)];
            }
          }
        }
        forall g | g in nodes
          ensures nodes[g] == AfterInvalid(snap[g], NewErrors(snap, added[..i + 1], g))
        {
          InvalidNodeStep(snap, added, i, g);
        }
        i := i + 1;
      }
      assert added[..i] == added;
    }

    /**
     * `form_element_valid`: each newly valid child in `added` removes the
     * causes naming it from its parent form; an emptied list turns the form
     * valid.
     */
    method ValidPass(added: seq<Entity>)
      modifies this
      ensures nodes == ValidResult(old(nodes), added)
    {
      var snap := nodes;
      var i := 0;
      while i < |added|
        invariant 0 <= i <= |added|
        invariant nodes.Keys == snap.Keys
        invariant forall f :: f in nodes ==> nodes[f] == AfterValid(snap[f], Validated(snap, added[..i], f))
      {
        var c := added[i];
        ghost var prev := nodes;
        if c in snap && snap[c].parent.Some? {
          var f := snap[c].parent.value;
          if f in nodes && nodes[f].isForm && snap[f].formInvalid.Some? {
            // removing an emptied `FormInvalid` is deferred: until the pass
            // ends the form still carries it, with an empty list
            var live := if nodes[f].formInvalid.Some? then nodes[f].formInvalid.value else [];
            var kept := Without(live, {c});
            if kept == [] {
              nodes := nodes[f := nodes[f].(formInvalid := None, formValid := true)];
            } else {
              nodes := nodes[f := nodes[f].(formInvalid := Some(kept))];
            }
          }
        }
        forall g | g in nodes
          ensures nodes[g] == AfterValid(snap[g], Validated(snap, added[..i + 1], g))
        {
          ValidatedStep(snap, added, i, g);
          if c in snap && snap[c].parent == Some(g) {
            if snap[g].isForm && snap[g].formInvalid.Some? {
              AfterValidStep(snap[g], Validated(snap, added[..i], g), c);
            } else {
              assert nodes[g] == prev[g];
            }
          } else {
            assert nodes[g] == prev[g];
            assert Validated(snap, added[..i + 1], g) == Validated(snap, added[..i], g);
          }
        }
        i := i + 1;
      }
      assert added[..i] == added;
    }

    /** Adds focus to the Tab target among form `f`'s children. */
    method FocusNext(f: Entity)
      requires f in nodes && nodes[f].children.Some?
      modifies this
      ensures nodes == TabResult(old(nodes), f)
    {
      var focused := Focused(nodes);
      var current := 0;
      if |focused| == 1 {
        var e :| e in focused;
        SingletonIs(focused, e);
        current := nodes[e].order.GetOr(0);
      }
      var target := TabOrder.TabTarget(OrderedChildren(nodes, nodes[f].children.value), current);
      if target.Some? && target.value.entity in nodes {
        var e := target.value.entity;
        nodes := nodes[e := nodes[e].(focus := true)];
      }
    }

    /**
     * `form_keyboard`: needs exactly one form with children. Enter released
     * submits it unless it carries `FormInvalid`; otherwise Escape pressed
     * cancels; otherwise Tab pressed adds focus to the Tab target. At most
     * one of the three happens in a frame.
     */
    method FormKeyboard(keys: Keys) returns (events: seq<FormEvent<Entity>>)
      modifies this
      ensures SoleForm(old(nodes)).None? ==> events == [] && nodes == old(nodes)
      ensures SoleForm(old(nodes)).Some? && keys.enterReleased ==>
        var f := SoleForm(old(nodes)).value;
        nodes == old(nodes) && events == (if old(nodes)[f].formInvalid.None? then [Submit(f)] else [])
      ensures SoleForm(old(nodes)).Some? && !keys.enterReleased && keys.escapePressed ==>
        nodes == old(nodes) && events == [Cancel]
      ensures SoleForm(old(nodes)).Some? && !keys.enterReleased && !keys.escapePressed && keys.tabPressed ==>
        events == [] && nodes == TabResult(old(nodes), SoleForm(old(nodes)).value)
      ensures !keys.enterReleased && !keys.escapePressed && !keys.tabPressed ==>
        events == [] && nodes == old(nodes)
    {
      var forms := FormsWithChildren(nodes);
      events := [];
      if |forms| != 1 {
        return;
      }
      var form :| form in forms;
      SingletonIs(forms, form);
      if keys.enterReleased {
        if nodes[form].formInvalid.None? {
          events := [Submit(form)];
        }
      } else if keys.escapePressed {
        events := [Cancel];
      } else if keys.tabPressed {
        FocusNext(form);
      }
    }

    /**
     * `form_element_keyboard`: on Tab released, with exactly one form with
     * children, adds focus to the next ordered child; otherwise nothing.
     */
    method ElementKeyboard(keys: Keys)
      modifies this
      ensures !keys.tabReleased || SoleForm(old(nodes)).None? ==> nodes == old(nodes)
      ensures keys.tabReleased && SoleForm(old(nodes)).Some? ==>
        nodes == TabResult(old(nodes), SoleForm(old(nodes)).value)
    {
      if keys.tabReleased {
        var forms := FormsWithChildren(nodes);
        if |forms| == 1 {
          var form :| form in forms;
          SingletonIs(forms, form);
          FocusNext(form);
        }
      }
    }
  }
}
