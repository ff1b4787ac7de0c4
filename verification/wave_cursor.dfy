/**
  The custom wave cursor: a visibility flag driven by pointer move, enter and
  leave; a hover flag driven by mouse-over and mouse-out on interactive
  elements; and a list of click ripples, each appended on a click under a
  fresh id and removed again by a deferred callback keyed on that id.
 */
module WaveCursor {

  /** A click ripple at (x, y). */
  datatype Ripple = Ripple(id: nat, x: real, y: real)

  /** Ids strictly increase along the list, so no two ripples share an id. */
  predicate IdsIncreasing(rs: seq<Ripple>) {
    forall i, j :: 0 <= i < j < |rs| ==> rs[i].id < rs[j].id
  }

  /** Every ripple's id is below `bound`. */
  predicate IdsBelow(rs: seq<Ripple>, bound: nat) {
    forall i :: 0 <= i < |rs| ==> rs[i].id < bound
  }

  /** The ripple list after removing every ripple whose id is `id` (`prev.filter((r) => r.id !== id)`). */
  function RemoveId(rs: seq<Ripple>, id: nat): (r: seq<Ripple>)
    ensures |r| <= |rs|
  {
    if rs == [] then []
    else if rs[0].id != id then [rs[0]] + RemoveId(rs[1..], id)
    else RemoveId(rs[1..], id)
  }

  /** A ripple survives a removal exactly when it was there and carries another id. */
  lemma {:induction false} RemoveIdMembership(rs: seq<Ripple>, id: nat, q: Ripple)
    ensures q in RemoveId(rs, id) <==> q in rs && q.id != id
  {
    if rs != [] {
      RemoveIdMembership(rs[1..], id, q);
      assert rs == [rs[0]] + rs[1..];
    }
  }

  /** Removing an id that no ripple carries leaves the list as it is. */
  lemma {:induction false} RemoveAbsentIdIsNoop(rs: seq<Ripple>, id: nat)
    requires forall i :: 0 <= i < |rs| ==> rs[i].id != id
    ensures RemoveId(rs, id) == rs
  {
    if rs != [] {
      RemoveAbsentIdIsNoop(rs[1..], id);
      assert rs == [rs[0]] + rs[1..];
    }
  }

  /** Removal distributes over concatenation, so the survivors keep their order. */
  lemma {:induction false} RemoveIdAppend(a: seq<Ripple>, b: seq<Ripple>, id: nat)
    ensures RemoveId(a + b, id) == RemoveId(a, id) + RemoveId(b, id)
  {
    if a == [] {
      assert a + b == b;
    } else {
      assert (a + b)[0] == a[0];
      assert (a + b)[1..] == a[1..] + b;
      RemoveIdAppend(a[1..], b, id);
    }
  }

  /**
    On a list with increasing ids, removing the id of the ripple at position
    `k` deletes exactly that ripple and keeps all the others in order.
   */
  lemma RemoveIdDeletesExactlyOne(rs: seq<Ripple>, k: nat)
    requires IdsIncreasing(rs) && k < |rs|
    ensures RemoveId(rs, rs[k].id) == rs[..k] + rs[k + 1..]
  {
    var before, after := rs[..k], rs[k + 1..];
    SplitAround(rs, k);
    IdsAroundDiffer(rs, k, before, after);
    RemoveOnlyCarrier(before, rs[k], after);
  }

  /** A list is what comes before position `k`, the element at `k`, and what comes after. */
  lemma SplitAround(rs: seq<Ripple>, k: nat)
    requires k < |rs|
    ensures rs == rs[..k] + ([rs[k]] + rs[k + 1..])
  {
  }

  /** Removing the id of a ripple that no neighbour shares leaves exactly the neighbours. */
  lemma RemoveOnlyCarrier(before: seq<Ripple>, r: Ripple, after: seq<Ripple>)
    requires forall i :: 0 <= i < |before| ==> before[i].id != r.id
    requires forall i :: 0 <= i < |after| ==> after[i].id != r.id
    ensures RemoveId(before + ([r] + after), r.id) == before + after
  {
    RemoveIdAppend(before, [r] + after, r.id);
    RemoveIdSkipsCarrier(r, after);
    RemoveAbsentIdIsNoop(before, r.id);
    RemoveAbsentIdIsNoop(after, r.id);
  }

  /** A leading ripple that carries the removed id is dropped. */
  lemma RemoveIdSkipsCarrier(r: Ripple, after: seq<Ripple>)
    ensures RemoveId([r] + after, r.id) == RemoveId(after, r.id)
  {
    assert ([r] + after)[1..] == after;
  }

  /** With increasing ids, no ripple before or after position `k` carries the id of the one at `k`. */
  lemma IdsAroundDiffer(rs: seq<Ripple>, k: nat, before: seq<Ripple>, after: seq<Ripple>)
    requires IdsIncreasing(rs) && k < |rs|
    requires before == rs[..k] && after == rs[k + 1..]
    ensures forall i :: 0 <= i < |before| ==> before[i].id != rs[k].id
    ensures forall i :: 0 <= i < |after| ==> after[i].id != rs[k].id
  {
    forall i | 0 <= i < |before| ensures before[i].id != rs[k].id {
      assert before[i] == rs[i];
    }
    forall i | 0 <= i < |after| ensures after[i].id != rs[k].id {
      assert after[i] == rs[k + 1 + i];
    }
  }

  /** Removal keeps ids increasing. */
  lemma {:induction false} RemoveIdKeepsIncreasing(rs: seq<Ripple>, id: nat)
    requires IdsIncreasing(rs)
    ensures IdsIncreasing(RemoveId(rs, id))
  {
    if rs != [] {
      RemoveIdKeepsIncreasing(rs[1..], id);
      var tail := RemoveId(rs[1..], id);
      forall q | q in tail ensures rs[0].id < q.id {
        RemoveIdMembership(rs[1..], id, q);
        var j :| 0 <= j < |rs[1..]| && rs[1..][j] == q;
        assert rs[j + 1] == q;
      }
    }
  }

  /** A click followed by the removal of its own ripple restores the list. */
  lemma ClickThenExpireRestores(rs: seq<Ripple>, next: nat, x: real, y: real)
    requires IdsBelow(rs, next)
    ensures RemoveId(rs + [Ripple(next, x, y)], next) == rs
  {
    RemoveIdAppend(rs, [Ripple(next, x, y)], next);
    RemoveAbsentIdIsNoop(rs, next);
    assert RemoveId([Ripple(next, x, y)], next) == [];
  }

  // ---------------------------------------------------------------------------
  // Hover flag
  // ---------------------------------------------------------------------------

  /** The hover flag after mouse-over on a target: set on an interactive target, else kept. */
  function AfterHoverStart(h: bool, isInteractive: bool): (r: bool)
    ensures isInteractive ==> r
    ensures !isInteractive ==> r == h
  {
    isInteractive || h
  }

  /** The hover flag after mouse-out from a target: cleared on a non-interactive target, else kept. */
  function AfterHoverEnd(h: bool, isInteractive: bool): (r: bool)
    ensures !isInteractive ==> !r
    ensures isInteractive ==> r == h
  {
    isInteractive && h
  }

  /**
    The hover flag after the pointer crosses from one element to another: the
    browser fires mouse-out on the element left, then mouse-over on the
    element entered.
   */
  function CrossAsWritten(h: bool, fromInteractive: bool, toInteractive: bool): (r: bool)
    ensures toInteractive ==> r
    ensures !h || !fromInteractive ==> r == toInteractive
  {
    AfterHoverStart(AfterHoverEnd(h, fromInteractive), toInteractive)
  }

  /**
    As written, a crossing leaves the flag disagreeing with the element
    entered exactly when the pointer leaves an interactive element for a plain
    one while hovering: the flag stays set.
   */
  lemma CrossAsWrittenKeepsStaleHover(h: bool, fromInteractive: bool, toInteractive: bool)
    ensures CrossAsWritten(h, fromInteractive, toInteractive) != toInteractive <==>
              h && fromInteractive && !toInteractive
    ensures CrossAsWritten(true, true, false)
  {
  }

  /** The mouse-out handler as evidently intended: leaving any element clears the flag. */
  function AfterHoverEndIntended(h: bool, isInteractive: bool): (r: bool)
    ensures !r
  {
    false
  }

  /** With the intended mouse-out handler the flag always tells whether the element entered is interactive. */
  lemma CrossIntendedTracksTarget(h: bool, fromInteractive: bool, toInteractive: bool)
    ensures AfterHoverStart(AfterHoverEndIntended(h, fromInteractive), toInteractive) == toInteractive
  {
  }

  // ---------------------------------------------------------------------------
  // Rendering sizes and opacities
  // ---------------------------------------------------------------------------

  /** What the flags select for the drawn layers (sizes in px). */
  datatype Look = Look(
    ringSize: nat, ringBorder: nat, dotSize: nat, dotScale: real,
    ringOpacity: real, dotOpacity: real, trail1Opacity: real, trail2Opacity: real,
    particles: bool)

  /** The layers' sizes and opacities for the given hover and visibility flags. */
  function LookOf(isHovering: bool, isVisible: bool): (l: Look)
    ensures l.dotSize < l.ringSize
    ensures isHovering <==> l.ringBorder == 2
    ensures isVisible <==> l.particles
    ensures !isVisible <==> l.ringOpacity == l.dotOpacity == l.trail1Opacity == l.trail2Opacity == 0.0
  {
    Look(
      if isHovering then 50 else 32,
      if isHovering then 2 else 1,
      if isHovering then 10 else 6,
      if isHovering then 1.2 else 1.0,
      if isVisible then 1.0 else 0.0,
      if isVisible then 1.0 else 0.0,
      if isVisible then 0.8 else 0.0,
      if isVisible then 0.6 else 0.0,
      isVisible)
  }

  /** Hovering enlarges both the ring and the dot; visibility never changes a size. */
  lemma HoverEnlarges(v: bool, w: bool)
    ensures LookOf(true, v).ringSize == 50 && LookOf(false, v).ringSize == 32
    ensures LookOf(true, v).dotSize == 10 && LookOf(false, v).dotSize == 6
    ensures LookOf(false, v).ringBorder == 1
    ensures LookOf(true, v).ringSize > LookOf(false, w).ringSize
    ensures LookOf(true, v).dotSize > LookOf(false, w).dotSize
    ensures forall h :: LookOf(h, v).ringSize == LookOf(h, w).ringSize && LookOf(h, v).dotSize == LookOf(h, w).dotSize
  {
  }

  // ---------------------------------------------------------------------------
  // The component state
  // ---------------------------------------------------------------------------

  /** The state of one wave cursor. */
  class WaveCursorState {
    var cursorX: real
    var cursorY: real
    var isVisible: bool
    var isHovering: bool
    var ripples: seq<Ripple>
    /** The ripple id counter (`rippleIdRef.current`). */
    var nextRippleId: nat

    /** Ripple ids increase along the list and are all below the counter. */
    ghost predicate Valid()
      reads this
    {
      IdsIncreasing(ripples) && IdsBelow(ripples, nextRippleId)
    }

    constructor ()
      ensures Valid()
      ensures cursorX == -100.0 && cursorY == -100.0
      ensures !isVisible && !isHovering && ripples == [] && nextRippleId == 0
    {
      cursorX, cursorY := -100.0, -100.0;
      isVisible, isHovering := false, false;
      ripples, nextRippleId := [], 0;
    }

    /** The pointer-move handler: the cursor follows the pointer and becomes visible. */
    method Move(x: real, y: real)
      modifies this
      ensures cursorX == x && cursorY == y && isVisible
      ensures isHovering == old(isHovering) && ripples == old(ripples)
      ensures nextRippleId == old(nextRippleId)
    {
      cursorX, cursorY := x, y;
      isVisible := true;
    }

    /** The pointer entered the document. */
    method Enter()
      modifies this
      ensures isVisible
      ensures cursorX == old(cursorX) && cursorY == old(cursorY)
      ensures isHovering == old(isHovering) && ripples == old(ripples)
      ensures nextRippleId == old(nextRippleId)
    {
      isVisible := true;
    }

    /** The pointer left the document. */
    method Leave()
      modifies this
      ensures !isVisible
      ensures cursorX == old(cursorX) && cursorY == old(cursorY)
      ensures isHovering == old(isHovering) && ripples == old(ripples)
      ensures nextRippleId == old(nextRippleId)
    {
      isVisible := false;
    }

    /**
      Mouse-over: sets the hover flag when the target lies inside a button,
      link, input or element with the button role, and otherwise leaves it.
     */
    method HoverStart(isInteractive: bool)
      modifies this
      ensures isHovering == AfterHoverStart(old(isHovering), isInteractive)
      ensures isVisible == old(isVisible)
      ensures cursorX == old(cursorX) && cursorY == old(cursorY)
      ensures ripples == old(ripples) && nextRippleId == old(nextRippleId)
    {
      if isInteractive {
        isHovering := true;
      }
    }

    /**
      Mouse-out: clears the hover flag only when the target is NOT inside an
      interactive element, and otherwise leaves it.
     */
    method HoverEnd(isInteractive: bool)
      modifies this
      ensures isHovering == AfterHoverEnd(old(isHovering), isInteractive)
      ensures isVisible == old(isVisible)
      ensures cursorX == old(cursorX) && cursorY == old(cursorY)
      ensures ripples == old(ripples) && nextRippleId == old(nextRippleId)
    {
      if !isInteractive {
        isHovering := false;
      }
    }

    /** The click handler: appends a ripple at the click under the next id. */
    method Click(x: real, y: real) returns (id: nat)
      requires Valid()
      modifies this
      ensures Valid()
      ensures id == old(nextRippleId) && nextRippleId == old(nextRippleId) + 1
      ensures ripples == old(ripples) + [Ripple(id, x, y)]
      ensures isVisible == old(isVisible) && isHovering == old(isHovering)
      ensures cursorX == old(cursorX) && cursorY == old(cursorY)
    {
      id := nextRippleId;
      nextRippleId := nextRippleId + 1;
      ripples := ripples + [Ripple(id, x, y)];
    }

    /** The removal a click schedules 800 ms later, run for ripple `id`. */
    method Expire(id: nat)
      requires Valid()
      modifies this
      ensures Valid()
      ensures ripples == RemoveId(old(ripples), id)
      ensures forall k :: 0 <= k < |old(ripples)| && old(ripples)[k].id == id ==>
                ripples == old(ripples)[..k] + old(ripples)[k + 1..]
      ensures (forall k :: 0 <= k < |old(ripples)| ==> old(ripples)[k].id != id) ==>
                ripples == old(ripples)
      ensures nextRippleId == old(nextRippleId)
      ensures isVisible == old(isVisible) && isHovering == old(isHovering)
      ensures cursorX == old(cursorX) && cursorY == old(cursorY)
    {
      ghost var before := ripples;
      ripples := RemoveId(ripples, id);
      RemoveIdKeepsIncreasing(before, id);
      forall k | 0 <= k < |before| && before[k].id == id
        ensures ripples == before[..k] + before[k + 1..]
      {
        RemoveIdDeletesExactlyOne(before, k);
      }
      if forall k :: 0 <= k < |before| ==> before[k].id != id {
        RemoveAbsentIdIsNoop(before, id);
      }
    }
  }
}
