/**
 * The pure part of Tab navigation: which ordered child receives focus.
 *
 * The source collects the form's children that carry a `FormElementOrder`,
 * keeps those whose order is strictly greater than the focused element's,
 * and takes `min_by_key` on the order; when nothing is greater it takes
 * `min_by_key` over all of them. Rust's `min_by_key` returns the FIRST of
 * several equal minima, which `FirstMinIndex` reproduces.
 */
module TabOrder {
  import opened Wrappers

  type Entity = nat

  /** A child of the form together with its declared `FormElementOrder`. */
  datatype Slot = Slot(entity: Entity, order: nat)

  /** `i` is the position of the first slot of least order in `s`. */
  ghost predicate IsFirstMin(s: seq<Slot>, i: int)
  {
    && 0 <= i < |s|
    && (forall j :: 0 <= j < |s| ==> s[i].order <= s[j].order)
    && (forall j :: 0 <= j < i ==> s[i].order < s[j].order)
  }

  /** Position of the first minimum, as `Iterator::min_by_key` picks it. */
  function FirstMinIndex(s: seq<Slot>): (i: nat)
    requires s != []
    ensures IsFirstMin(s, i)
  {
    if |s| == 1 then 0
    else
      var k := FirstMinIndex(s[1..]);
      if s[0].order <= s[1 + k].order then 0 else 1 + k
  }

  /** There is only one first minimum. */
  lemma FirstMinUnique(s: seq<Slot>, i: int, j: int)
    requires IsFirstMin(s, i) && IsFirstMin(s, j)
    ensures i == j
  {
    assert s[i].order == s[j].order;
  }

  /** The slots whose order is strictly greater than `current`, in their original order. */
  function Above(s: seq<Slot>, current: nat): (r: seq<Slot>)
    ensures forall x :: x in r <==> x in s && x.order > current
    ensures |r| <= |s|
  {
    if s == [] then []
    else (if s[0].order > current then [s[0]] else []) + Above(s[1..], current)
  }

  /**
   * The slot that Tab gives focus to from an element of order `current`:
   * the first slot of least order above `current`, else (wrap-around) the
   * first slot of least order overall, else nothing.
   */
  function TabTarget(s: seq<Slot>, current: nat): (r: Option<Slot>)
    ensures r.None? <==> s == []
    ensures r.Some? ==> r.value in s
  {
    var above := Above(s, current);
    if above != [] then Some(above[FirstMinIndex(above)])
    else if s != [] then Some(s[FirstMinIndex(s)])
    else None
  }

  /**
   * What Tab promises: no target exactly when there are no ordered children;
   * when some child lies above `current` the target is the least of those;
   * otherwise the target is the least overall. The target is always one of
   * the ordered children.
   */
  lemma TabTargetSpec(s: seq<Slot>, current: nat)
    ensures TabTarget(s, current).None? <==> s == []
    ensures TabTarget(s, current).Some? ==> TabTarget(s, current).value in s
    ensures (exists x :: x in s && x.order > current) ==>
      var t := TabTarget(s, current).value;
      t.order > current && forall x :: x in s && x.order > current ==> t.order <= x.order
    ensures (forall x :: x in s ==> x.order <= current) && s != [] ==>
      forall x :: x in s ==> TabTarget(s, current).value.order <= x.order
  {
    var above := Above(s, current);
    if above != [] {
      var i := FirstMinIndex(above);
      assert above[i] in above;
      forall x | x in s && x.order > current
        ensures above[i].order <= x.order
      {
        assert x in above;
        var j :| 0 <= j < |above| && above[j] == x;
      }
    } else if s != [] {
      var i := FirstMinIndex(s);
      forall x | x in s ensures s[i].order <= x.order {
        var j :| 0 <= j < |s| && s[j] == x;
      }
    }
  }

  /**
   * Three fields spawned in the order [0, 2, 1]: each single Tab step
   * targets by order, whatever the position among the children: from
   * order 0 the order-1 field, from 1 the order-2 field, and from 2 (the
   * highest) the order-0 field.
   */
  lemma TabVisitsByOrder()
    ensures var s := [Slot(10, 0), Slot(11, 2), Slot(12, 1)];
      && TabTarget(s, 0) == Some(Slot(12, 1))
      && TabTarget(s, 1) == Some(Slot(11, 2))
      && TabTarget(s, 2) == Some(Slot(10, 0))
  {
    var s := [Slot(10, 0), Slot(11, 2), Slot(12, 1)];
    assert Above(s, 0) == [Slot(11, 2), Slot(12, 1)];
    assert Above(s, 1) == [Slot(11, 2)];
    assert Above(s, 2) == [];
  }

  /** The children spawned by a form macro: child `i` carries order `i`. */
  ghost predicate Consecutive(s: seq<Slot>)
  {
    forall i :: 0 <= i < |s| ==> s[i].order == i
  }

  /**
   * On consecutively ordered children, Tab from child `k` moves to child
   * `k + 1`, and from the last child wraps to the first.
   */
  lemma {:induction false} TabOnConsecutive(s: seq<Slot>, k: nat)
    requires Consecutive(s) && k < |s|
    ensures TabTarget(s, k) == Some(if k + 1 < |s| then s[k + 1] else s[0])
  {
    TabTargetSpec(s, k);
    var t := TabTarget(s, k).value;
    var j :| 0 <= j < |s| && s[j] == t;
    if k + 1 < |s| {
      assert s[k + 1] in s;
      assert j == k + 1;
    } else {
      forall x | x in s ensures x.order <= k {
        var m :| 0 <= m < |s| && s[m] == x;
      }
      assert s[0] in s;
      assert j == 0;
    }
  }
}
