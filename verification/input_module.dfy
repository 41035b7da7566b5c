/** The input module's per-frame event processing for the new input system:
    frame press state, pointer movement (hover enter/exit), press, release and
    click counting, dragging, scrolling, and the control-method lookup. The
    engine's `ExecuteEvents` handler lookups are inputs and the handlers it
    runs are recorded in an event log. */
module InputModule {
  import opened Unity
  import opened Wrappers
  import opened ControlMethods
  import Hierarchy
  import GazeControlMethod

  // ---------------------------------------------------------------- press state

  datatype FramePressState = Pressed | Released | PressedAndReleased | NotChanged

  /** `GetFramePressedState`: an edge of the button compared with last frame. */
  function GetFramePressedState(pressedDown: bool, pressedLastFrame: bool): (r: FramePressState)
    ensures r == Pressed <==> pressedDown && !pressedLastFrame
    ensures r == Released <==> !pressedDown && pressedLastFrame
    ensures r == NotChanged <==> pressedDown == pressedLastFrame
    ensures r != PressedAndReleased
  {
    if pressedDown && !pressedLastFrame then Pressed
    else if !pressedDown && pressedLastFrame then Released
    else NotChanged
  }

  /** The press states of successive frames: each frame ends by remembering
      its button state as "last frame". */
  function PressStates(pressedLastFrame: bool, downs: seq<bool>): (r: seq<FramePressState>)
    ensures |r| == |downs|
    decreases |downs|
  {
    if |downs| == 0 then [] else [GetFramePressedState(downs[0], pressedLastFrame)] + PressStates(downs[0], downs[1..])
  }

  /** Frame i compares its button with frame i - 1 (the initial state for frame 0). */
  lemma {:induction false} PressStatesAt(pressedLastFrame: bool, downs: seq<bool>)
    ensures forall i :: 0 <= i < |downs| ==>
              PressStates(pressedLastFrame, downs)[i] ==
              GetFramePressedState(downs[i], if i == 0 then pressedLastFrame else downs[i - 1])
    decreases |downs|
  {
    if |downs| > 0 {
      PressStatesAt(downs[0], downs[1..]);
      var r := PressStates(pressedLastFrame, downs);
      forall i | 0 <= i < |downs|
        ensures r[i] == GetFramePressedState(downs[i], if i == 0 then pressedLastFrame else downs[i - 1])
      {
        if i > 0 {
          assert r[i] == PressStates(downs[0], downs[1..])[i - 1];
          assert downs[1..][i - 1] == downs[i];
          assert i - 1 > 0 ==> downs[1..][i - 2] == downs[i - 1];
        }
      }
    }
  }

  /** A button held for n frames from released reports Pressed once and then
      NotChanged. */
  lemma HeldButton(n: nat)
    requires n >= 1
    ensures PressStates(false, seq(n, _ => true)) == [Pressed] + seq(n - 1, _ => NotChanged)
  {
    var downs := seq(n, _ => true);
    PressStatesAt(false, downs);
    var r := PressStates(false, downs);
    var e := [Pressed] + seq(n - 1, _ => NotChanged);
    forall i | 0 <= i < n ensures r[i] == e[i] {
      if i > 0 {
        assert downs[i] && downs[i - 1];
      }
    }
  }

  /** Between two Pressed frames there is a Released frame. */
  lemma PressedTwiceReleasedBetween(pressedLastFrame: bool, downs: seq<bool>, i: int, j: int)
    requires 0 <= i < j < |downs|
    requires PressStates(pressedLastFrame, downs)[i] == Pressed && PressStates(pressedLastFrame, downs)[j] == Pressed
    ensures exists k :: i < k < j && PressStates(pressedLastFrame, downs)[k] == Released
  {
    PressStatesAt(pressedLastFrame, downs);
    var r := PressStates(pressedLastFrame, downs);
    assert r[i] == GetFramePressedState(downs[i], if i == 0 then pressedLastFrame else downs[i - 1]);
    assert r[j] == GetFramePressedState(downs[j], downs[j - 1]);
    assert downs[i] && !downs[j - 1];
    ReleaseBetween(pressedLastFrame, downs, i, j - 1);
  }

  lemma {:induction false} ReleaseBetween(pressedLastFrame: bool, downs: seq<bool>, i: int, j: int)
    requires 0 <= i < j < |downs| && downs[i] && !downs[j]
    requires forall k :: 0 <= k < |downs| ==>
               PressStates(pressedLastFrame, downs)[k] ==
               GetFramePressedState(downs[k], if k == 0 then pressedLastFrame else downs[k - 1])
    ensures exists k :: i < k <= j && PressStates(pressedLastFrame, downs)[k] == Released
    decreases j - i
  {
    if !downs[i + 1] {
      assert PressStates(pressedLastFrame, downs)[i + 1] == Released;
    } else {
      ReleaseBetween(pressedLastFrame, downs, i + 1, j);
    }
  }

  // ---------------------------------------------------------------- pointer data

  /** The `PointerEventData` fields the module reads and writes.
      `currentRaycast` is the object of `pointerCurrentRaycast`. */
  datatype PointerData = PointerData(
    position: Vec2,
    delta: Vec2,
    pressPosition: Vec2,
    scrollDelta: Vec2,
    useDragThreshold: bool,
    dragging: bool,
    eligibleForClick: bool,
    pointerPress: Option<Obj>,
    lastPress: Option<Obj>,
    rawPointerPress: Option<Obj>,
    pointerDrag: Option<Obj>,
    clickCount: int,
    clickTime: real,
    pointerEnter: Option<Obj>,
    hovered: seq<Obj>,
    currentRaycast: Option<Obj>)

  /** The engine's `pointerPress` setter: assigning a different object moves
      the previous one to `lastPress`. */
  function SetPointerPress(d: PointerData, v: Option<Obj>): (r: PointerData)
    ensures r.pointerPress == v
    ensures d.pointerPress != v ==> r.lastPress == d.pointerPress
    ensures d.pointerPress == v ==> r == d
    ensures r == d.(pointerPress := r.pointerPress, lastPress := r.lastPress)
  {
    if d.pointerPress == v then d else d.(lastPress := d.pointerPress, pointerPress := v)
  }

  /** The handlers run, in order. */
  datatype Event =
    | PointerExit(o: Obj)
    | PointerEnter(o: Obj)
    | PointerDown(o: Obj)
    | PointerUp(o: Obj)
    | PointerClick(o: Obj)
    | Drop(o: Obj)
    | InitializePotentialDrag(o: Obj)
    | BeginDrag(o: Obj)
    | Drag(o: Obj)
    | EndDrag(o: Obj)
    | Scroll(o: Obj)
    | Deselect

  /** `ExecuteEvents.GetEventHandler<T>` per handler kind: the nearest object
      from the given one up the hierarchy that handles T. `pointerDown` is also
      what `ExecuteHierarchy` returns after running the down handler there. */
  datatype Handlers = Handlers(
    select: Option<Obj> -> Option<Obj>,
    pointerDown: Option<Obj> -> Option<Obj>,
    pointerClick: Option<Obj> -> Option<Obj>,
    drag: Option<Obj> -> Option<Obj>,
    drop: Option<Obj> -> Option<Obj>,
    scroll: Option<Obj> -> Option<Obj>)

  /** The data after a processing step, the selected object and the handlers run. */
  datatype Step = Step(data: PointerData, selected: Option<Obj>, events: seq<Event>)

  /** The window within which a second press on the same object counts as a
      multi-click, in seconds of unscaled time. */
  const ClickWindow: real := 0.28

  // ---------------------------------------------------------------- button

  /** The Pressed branch of `ProcessButton`. */
  function Press(d: PointerData, selected: Option<Obj>, h: Handlers, now: real): (r: Step)
    ensures var down := h.pointerDown(d.currentRaycast);
            r.data.clickCount == (if down == d.lastPress && now - d.clickTime < ClickWindow then d.clickCount + 1 else 1)
    ensures r.data.clickTime == now
    ensures r.data.pointerPress == (if h.pointerDown(d.currentRaycast).Some? then h.pointerDown(d.currentRaycast)
                                    else h.pointerClick(d.currentRaycast))
    ensures r.data.rawPointerPress == d.currentRaycast && r.data.pointerDrag == h.drag(d.currentRaycast)
    ensures r.data.eligibleForClick && !r.data.dragging && r.data.pressPosition == d.position && r.data.delta == Zero2
    ensures r.data.pointerPress != d.pointerPress ==> r.data.lastPress == d.pointerPress
    ensures r.selected == None || r.selected == selected
    ensures r.data.position == d.position && r.data.hovered == d.hovered && r.data.pointerEnter == d.pointerEnter
  {
    var target := d.currentRaycast;
    var d1 := d.(delta := Zero2, dragging := false, pressPosition := d.position, eligibleForClick := true);
    var sel := h.select(target);
    var deselect := sel.Some? && sel != selected;
    var down := h.pointerDown(target);
    var count := if down == d1.lastPress && now - d1.clickTime < ClickWindow then d1.clickCount + 1 else 1;
    var pressed := if down.None? then h.pointerClick(target) else down;
    var d2 := SetPointerPress(d1.(clickCount := count, clickTime := now), pressed).(rawPointerPress := target);
    var drag := h.drag(target);
    Step(d2.(pointerDrag := drag),
         if deselect then None else selected,
         (if deselect then [Deselect] else []) +
         (if down.Some? then [PointerDown(down.value)] else []) +
         (if drag.Some? then [InitializePotentialDrag(drag.value)] else []))
  }

  /** Whether the release clicks: the pressed object is the click handler
      under the pointer now and the press is still eligible. */
  predicate ReleaseClicks(d: PointerData, h: Handlers)
  {
    d.pointerPress.Some? && d.pointerPress == h.pointerClick(d.currentRaycast) && d.eligibleForClick
  }

  /** The Released branch of `ProcessButton`: pointer-up on the pressed object,
      then a click or a drop, then every press and drag field is cleared. */
  function Release(d: PointerData, selected: Option<Obj>, h: Handlers): (r: Step)
    ensures !r.data.eligibleForClick && r.data.pointerPress.None? && r.data.rawPointerPress.None?
    ensures !r.data.dragging && r.data.pointerDrag.None?
    ensures d.pointerPress.Some? ==> r.data.lastPress == d.pointerPress
    ensures d.pointerPress.None? ==> r.data.lastPress == d.lastPress
    ensures (exists o :: PointerClick(o) in r.events) <==> ReleaseClicks(d, h)
    ensures ReleaseClicks(d, h) ==> r.events == [PointerUp(d.pointerPress.value), PointerClick(d.pointerPress.value)] +
                                                (if d.dragging && d.pointerDrag.Some? then [EndDrag(d.pointerDrag.value)] else [])
    ensures (exists o :: EndDrag(o) in r.events) <==> d.dragging && d.pointerDrag.Some?
    ensures r.selected == selected && r.data.clickCount == d.clickCount && r.data.clickTime == d.clickTime
    ensures r.data.position == d.position && r.data.hovered == d.hovered && r.data.pointerEnter == d.pointerEnter
  {
    var target := d.currentRaycast;
    var upEvents := if d.pointerPress.Some? then [PointerUp(d.pointerPress.value)] else [];
    var clickOrDrop :=
      if d.pointerPress == h.pointerClick(target) && d.eligibleForClick then
        (if d.pointerPress.Some? then [PointerClick(d.pointerPress.value)] else [])
      else if d.dragging && d.pointerDrag.Some? then
        (var dropTarget := h.drop(target); if dropTarget.Some? then [Drop(dropTarget.value)] else [])
      else [];
    var endDrag := if d.dragging && d.pointerDrag.Some? then [EndDrag(d.pointerDrag.value)] else [];
    var d1 := SetPointerPress(d.(eligibleForClick := false), None).(rawPointerPress := None);
    var events := upEvents + clickOrDrop + endDrag;
    assert ReleaseClicks(d, h) ==> PointerClick(d.pointerPress.value) in events;
    Step(d1.(dragging := false, pointerDrag := None), selected, events)
  }

  /** `ProcessButton`: only the Pressed and Released edges do anything. */
  function ProcessButton(d: PointerData, state: FramePressState, selected: Option<Obj>, h: Handlers, now: real): (r: Step)
    ensures state == Pressed ==> r == Press(d, selected, h, now)
    ensures state == Released ==> r == Release(d, selected, h)
    ensures state != Pressed && state != Released ==> r == Step(d, selected, [])
  {
    match state
    case Pressed => Press(d, selected, h, now)
    case Released => Release(d, selected, h)
    case _ => Step(d, selected, [])
  }

  /** Press, release, press again on the same down handler within the window:
      the click count goes up by one. Too late, or on another handler, it
      restarts at 1. */
  lemma DoubleClick(d: PointerData, selected: Option<Obj>, h: Handlers, t0: real, t1: real, second: Option<Obj>)
    requires h.pointerDown(d.currentRaycast).Some?
    ensures var p1 := Press(d, selected, h, t0);
            var r := Release(p1.data, p1.selected, h);
            var p2 := Press(r.data.(currentRaycast := second), r.selected, h, t1);
            (h.pointerDown(second) == h.pointerDown(d.currentRaycast) && t1 - t0 < ClickWindow ==>
               p2.data.clickCount == p1.data.clickCount + 1) &&
            (h.pointerDown(second) != h.pointerDown(d.currentRaycast) || t1 - t0 >= ClickWindow ==>
               p2.data.clickCount == 1)
  {
  }

  /** Releasing again after a release changes nothing and runs no handler. */
  lemma ReleaseTwice(d: PointerData, selected: Option<Obj>, h: Handlers)
    ensures var r := Release(d, selected, h);
            Release(r.data, r.selected, h) == Step(r.data, r.selected, [])
  {
  }

  // ---------------------------------------------------------------- drag

  /** `ShouldStartDrag`: always without a threshold, otherwise once the pointer
      is at least `threshold` away from where it was pressed. */
  predicate ShouldStartDrag(pressPos: Vec2, currentPos: Vec2, threshold: real, useDragThreshold: bool): (r: bool)
    ensures !useDragThreshold ==> r
    ensures useDragThreshold ==> (r <==> SqrMagnitude2(Sub2(currentPos, pressPos)) >= threshold * threshold)
    ensures threshold == 0.0 ==> r
  {
    DistanceSymmetric(pressPos, currentPos);
    SqrMagnitudeNonNeg(Sub2(pressPos, currentPos));
    !useDragThreshold || SqrMagnitude2(Sub2(pressPos, currentPos)) >= threshold * threshold
  }

  lemma DistanceSymmetric(a: Vec2, b: Vec2)
    ensures SqrMagnitude2(Sub2(a, b)) == SqrMagnitude2(Sub2(b, a))
  {
    assert (a.x - b.x) * (a.x - b.x) == (b.x - a.x) * (b.x - a.x);
    assert (a.y - b.y) * (a.y - b.y) == (b.y - a.y) * (b.y - a.y);
  }

  /** A zero threshold starts a drag at once, and a pointer inside the
      threshold circle does not start one when the threshold is used. */
  lemma ShouldStartDragLaws(pressPos: Vec2, currentPos: Vec2, threshold: real)
    ensures ShouldStartDrag(pressPos, currentPos, 0.0, true)
    ensures SqrMagnitude2(Sub2(pressPos, currentPos)) < threshold * threshold ==>
              !ShouldStartDrag(pressPos, currentPos, threshold, true)
  {
    SqrMagnitudeNonNeg(Sub2(pressPos, currentPos));
  }

  lemma SqrMagnitudeNonNeg(v: Vec2)
    ensures SqrMagnitude2(v) >= 0.0 * 0.0
  {
    SquareNonNeg(v.x);
    SquareNonNeg(v.y);
  }

  lemma SquareNonNeg(x: real)
    ensures x * x >= 0.0
    ensures x != 0.0 ==> x * x > 0.0
  {
    if x < 0.0 {
      assert x * x == (-x) * (-x);
    }
  }

  /** `IsPointerMoving`: a non-zero delta this frame. */
  predicate IsPointerMoving(d: PointerData)
  {
    SqrMagnitude2(d.delta) > 0.0
  }

  /** `ProcessDrag` with the event system's integer pixel threshold. */
  function ProcessDrag(d: PointerData, selected: Option<Obj>, pixelDragThreshold: int): (r: Step)
    ensures d.pointerDrag.None? || !IsPointerMoving(d) ==> r == Step(d, selected, [])
    ensures r.data.dragging <==>
              d.dragging || (d.pointerDrag.Some? && IsPointerMoving(d) &&
                             ShouldStartDrag(d.pressPosition, d.position, pixelDragThreshold as real, d.useDragThreshold))
    ensures r.data.dragging && d.pointerDrag.Some? && IsPointerMoving(d) && d.pointerPress != d.pointerDrag ==>
              r.data.pointerPress.None? && r.data.rawPointerPress.None? && !r.data.eligibleForClick
    ensures r.data.dragging && d.pointerDrag.Some? && IsPointerMoving(d) ==>
              r.data.pointerPress.None? || r.data.pointerPress == r.data.pointerDrag
    ensures r.data.pointerDrag == d.pointerDrag && r.selected == selected
    ensures (exists o :: BeginDrag(o) in r.events) <==> !d.dragging && r.data.dragging
  {
    if d.pointerDrag.None? || !IsPointerMoving(d) then Step(d, selected, [])
    else
      var start := !d.dragging && ShouldStartDrag(d.pressPosition, d.position, pixelDragThreshold as real, d.useDragThreshold);
      var d1 := if start then d.(dragging := true) else d;
      var begin := if start then [BeginDrag(d.pointerDrag.value)] else [];
      if !d1.dragging then Step(d1, selected, begin)
      else
        var moveAway := d1.pointerPress != d1.pointerDrag;
        var up := if moveAway && d1.pointerPress.Some? then [PointerUp(d1.pointerPress.value)] else [];
        var d2 := if moveAway then SetPointerPress(d1.(eligibleForClick := false), None).(rawPointerPress := None) else d1;
        var events := begin + up + [Drag(d.pointerDrag.value)];
        assert start ==> BeginDrag(d.pointerDrag.value) in events;
        assert forall e :: e in up + [Drag(d.pointerDrag.value)] ==> !e.BeginDrag?;
        Step(d2, selected, events)
  }

  // ---------------------------------------------------------------- move

  /** The first occurrence of `x` taken out (`List.Remove`). */
  function RemoveFirst(s: seq<Obj>, x: Obj): (r: seq<Obj>)
    ensures x !in s ==> r == s
    ensures x in s ==> |r| == |s| - 1
    ensures multiset(r) == multiset(s) - multiset{x}
  {
    if |s| == 0 then []
    else
      assert s == [s[0]] + s[1..];
      if s[0] == x then s[1..] else [s[0]] + RemoveFirst(s[1..], x)
  }

  function RemoveEach(s: seq<Obj>, objs: seq<Obj>): (r: seq<Obj>)
    ensures multiset(r) <= multiset(s)
    decreases |objs|
  {
    if |objs| == 0 then s else RemoveEach(RemoveFirst(s, objs[0]), objs[1..])
  }

  function ExitEvents(objs: seq<Obj>): (r: seq<Event>)
    ensures |r| == |objs| && forall i :: 0 <= i < |objs| ==> r[i] == PointerExit(objs[i])
  {
    if |objs| == 0 then [] else [PointerExit(objs[0])] + ExitEvents(objs[1..])
  }

  function EnterEvents(objs: seq<Obj>): (r: seq<Event>)
    ensures |r| == |objs| && forall i :: 0 <= i < |objs| ==> r[i] == PointerEnter(objs[i])
  {
    if |objs| == 0 then [] else [PointerEnter(objs[0])] + EnterEvents(objs[1..])
  }

  /** The chain walked up to, and not including, `root`. */
  function ChainBelow(c: seq<Obj>, root: Option<Obj>): (r: seq<Obj>)
    ensures |r| <= |c| && r == c[..|r|]
    ensures root.Some? ==> root.value !in r
    ensures root.Some? && root.value in c ==> |r| < |c| && c[|r|] == root.value
    ensures root.None? ==> r == c
  {
    if |c| == 0 then []
    else if root == Some(c[0]) then []
    else
      var rest := ChainBelow(c[1..], root);
      assert [c[0]] + rest == c[..|rest| + 1];
      [c[0]] + rest
  }

  datatype MoveStep = MoveStep(data: PointerData, events: seq<Event>)

  /** `ProcessMove`: pointer-exit up the chain of the object left and
      pointer-enter up the chain of the object entered, both stopping below
      their common root; without a target everything hovered is exited. */
  function ProcessMove(scene: Hierarchy.Scene, d: PointerData, target: Option<Obj>): (r: MoveStep)
    requires Hierarchy.Valid(scene)
    ensures target.None? ==> r == MoveStep(d.(hovered := [], pointerEnter := None), ExitEvents(d.hovered))
    ensures target.Some? && d.pointerEnter == target ==> r == MoveStep(d, [])
    ensures r.data.pointerEnter == target
    ensures r.data == d.(pointerEnter := r.data.pointerEnter, hovered := r.data.hovered)
  {
    var lost := target.None? || d.pointerEnter.None?;
    var events0 := if lost then ExitEvents(d.hovered) else [];
    var d0 := if lost then d.(hovered := []) else d;
    if target.None? then MoveStep(d0.(pointerEnter := None), events0)
    else if d0.pointerEnter == target then MoveStep(d0, events0)
    else
      var root := Hierarchy.CommonRoot(scene, d0.pointerEnter, target);
      var exiting := if d0.pointerEnter.Some? then ChainBelow(Hierarchy.Chain(scene, d0.pointerEnter.value), root) else [];
      var entering := ChainBelow(Hierarchy.Chain(scene, target.value), root);
      MoveStep(d0.(pointerEnter := target, hovered := RemoveEach(d0.hovered, exiting) + entering),
               events0 + ExitEvents(exiting) + EnterEvents(entering))
  }

  /** Moving onto a new target ends with the target's chain below the common
      root appended to `hovered`, and enter events for exactly those objects,
      nearest first, as the last events; the target itself is among them
      unless it is an ancestor of the object left. Coming from no object, all
      hovered objects are exited first and the whole chain is entered. Coming
      from another object, the first events exit that object's chain below
      the common root, nearest first, and those objects leave `hovered`. The
      common root itself is neither exited nor entered. */
  lemma MoveEntersChain(scene: Hierarchy.Scene, d: PointerData, target: Obj)
    requires Hierarchy.Valid(scene) && d.pointerEnter != Some(target)
    ensures var r := ProcessMove(scene, d, Some(target));
            var root := Hierarchy.CommonRoot(scene, d.pointerEnter, Some(target));
            var entered := ChainBelow(Hierarchy.Chain(scene, target), root);
            |entered| <= |r.data.hovered| && |entered| <= |r.events| &&
            r.data.hovered[|r.data.hovered| - |entered|..] == entered &&
            r.events[|r.events| - |entered|..] == EnterEvents(entered) &&
            (root != Some(target) ==> target in entered)
    ensures d.pointerEnter.None? ==>
              var r := ProcessMove(scene, d, Some(target));
              |d.hovered| <= |r.events| && r.events[..|d.hovered|] == ExitEvents(d.hovered) &&
              r.data.hovered == Hierarchy.Chain(scene, target)
  {
    var r := ProcessMove(scene, d, Some(target));
    var root := Hierarchy.CommonRoot(scene, d.pointerEnter, Some(target));
    var c := Hierarchy.Chain(scene, target);
    var entered := ChainBelow(c, root);
    var lost := d.pointerEnter.None?;
    var events0 := if lost then ExitEvents(d.hovered) else [];
    var h0 := if lost then [] else d.hovered;
    var exiting := if d.pointerEnter.Some? then ChainBelow(Hierarchy.Chain(scene, d.pointerEnter.value), root) else [];
    assert r.data.hovered == RemoveEach(h0, exiting) + entered;
    assert r.events == events0 + ExitEvents(exiting) + EnterEvents(entered);
    assert r.data.hovered[|r.data.hovered| - |entered|..] == entered;
    assert r.events[|r.events| - |entered|..] == EnterEvents(entered);
    if root != Some(target) {
      assert c[0] == target;
    }
    if lost {
      assert root.None?;
      assert r.events[..|d.hovered|] == ExitEvents(d.hovered);
    }
  }

  /** A move from one object to another, in full: the old chain below the
      common root is exited and leaves `hovered`, then the new chain below it
      is entered and appended. */
  lemma MoveBetween(scene: Hierarchy.Scene, d: PointerData, target: Obj)
    requires Hierarchy.Valid(scene) && d.pointerEnter.Some? && d.pointerEnter != Some(target)
    ensures var root := Hierarchy.CommonRoot(scene, d.pointerEnter, Some(target));
            var exited := ChainBelow(Hierarchy.Chain(scene, d.pointerEnter.value), root);
            var entered := ChainBelow(Hierarchy.Chain(scene, target), root);
            var r := ProcessMove(scene, d, Some(target));
            r.data.hovered == RemoveEach(d.hovered, exited) + entered &&
            r.events == ExitEvents(exited) + EnterEvents(entered)
  {
    var r := ProcessMove(scene, d, Some(target));
    var root := Hierarchy.CommonRoot(scene, d.pointerEnter, Some(target));
    var entered := ChainBelow(Hierarchy.Chain(scene, target), root);
    var lost := d.pointerEnter.None?;
    var events0 := if lost then ExitEvents(d.hovered) else [];
    var h0 := if lost then [] else d.hovered;
    var exiting := if d.pointerEnter.Some? then ChainBelow(Hierarchy.Chain(scene, d.pointerEnter.value), root) else [];
    assert r.data.hovered == RemoveEach(h0, exiting) + entered;
    assert r.events == events0 + ExitEvents(exiting) + EnterEvents(entered);
    assert events0 == [];
    var exits := ExitEvents(exiting);
    AppendEmptyFront(exits);
  }

  lemma AppendEmptyFront<T>(s: seq<T>)
    ensures [] + s == s
  {
  }

  /** Moving from one object to another first exits the old object's chain
      below the common root, nearest first; those objects leave `hovered`,
      and the new chain below the root takes their place at the end. */
  lemma MoveExitsChain(scene: Hierarchy.Scene, d: PointerData, target: Obj)
    requires Hierarchy.Valid(scene) && d.pointerEnter.Some? && d.pointerEnter != Some(target)
    ensures var r := ProcessMove(scene, d, Some(target));
            var root := Hierarchy.CommonRoot(scene, d.pointerEnter, Some(target));
            var exited := ChainBelow(Hierarchy.Chain(scene, d.pointerEnter.value), root);
            |exited| <= |r.events| && r.events[..|exited|] == ExitEvents(exited) &&
            r.data.hovered == RemoveEach(d.hovered, exited) + ChainBelow(Hierarchy.Chain(scene, target), root)
  {
    var root := Hierarchy.CommonRoot(scene, d.pointerEnter, Some(target));
    var exited := ChainBelow(Hierarchy.Chain(scene, d.pointerEnter.value), root);
    var entered := ChainBelow(Hierarchy.Chain(scene, target), root);
    MoveBetween(scene, d, target);
    var events := ExitEvents(exited) + EnterEvents(entered);
    assert events[..|exited|] == ExitEvents(exited);
  }

  lemma NotExited(x: Obj, objs: seq<Obj>)
    requires x !in objs
    ensures PointerExit(x) !in ExitEvents(objs)
  {
  }

  lemma NotEntered(x: Obj, objs: seq<Obj>)
    requires x !in objs
    ensures PointerEnter(x) !in EnterEvents(objs)
  {
  }

  /** The common root of the objects left and entered stays hovered: it gets
      neither a pointer-exit nor a pointer-enter. */
  lemma MoveSkipsCommonRoot(scene: Hierarchy.Scene, d: PointerData, target: Obj)
    requires Hierarchy.Valid(scene) && d.pointerEnter.Some? && d.pointerEnter != Some(target)
    ensures var r := ProcessMove(scene, d, Some(target));
            var root := Hierarchy.CommonRoot(scene, d.pointerEnter, Some(target));
            root.Some? ==> PointerExit(root.value) !in r.events && PointerEnter(root.value) !in r.events
  {
    var root := Hierarchy.CommonRoot(scene, d.pointerEnter, Some(target));
    var exited := ChainBelow(Hierarchy.Chain(scene, d.pointerEnter.value), root);
    var entered := ChainBelow(Hierarchy.Chain(scene, target), root);
    MoveBetween(scene, d, target);
    if root.Some? {
      NotExited(root.value, exited);
      NotEntered(root.value, entered);
      assert PointerEnter(root.value) !in ExitEvents(exited);
      assert PointerExit(root.value) !in EnterEvents(entered);
    }
  }

  // ---------------------------------------------------------------- scroll

  /** `float.Epsilon`, the smallest positive single-precision value. */
  const FloatEpsilon: real := 1.401298 / 1000000000000000000000000000000000000000000000.0

  /** `Mathf.Approximately`: equal within a millionth of the larger magnitude,
      or within 8 * `float.Epsilon`. */
  predicate Approximately(a: real, b: real): (r: bool)
    ensures Abs(b - a) < FloatEpsilon * 8.0 ==> r
    ensures a == b ==> r
  {
    Abs(b - a) < Max(0.000001 * Max(Abs(a), Abs(b)), FloatEpsilon * 8.0)
  }

  /** The comparison does not depend on the order of its arguments. */
  lemma ApproximatelySymmetric(a: real, b: real)
    ensures Approximately(a, b) <==> Approximately(b, a)
  {
    assert Abs(b - a) == Abs(a - b);
  }

  /** A non-negative value is approximately zero exactly when it is below
      8 * `float.Epsilon`. */
  lemma ApproximatelyZero(x: real)
    requires x >= 0.0
    ensures Approximately(x, 0.0) <==> x < FloatEpsilon * 8.0
  {
  }

  /** `ProcessScroll`: a scroll this frame goes to the scroll handler above
      the entered object. */
  function ProcessScroll(d: PointerData, h: Handlers): (events: seq<Event>)
    ensures events != [] <==> SqrMagnitude2(d.scrollDelta) >= FloatEpsilon * 8.0 && h.scroll(d.pointerEnter).Some?
    ensures events != [] ==> events == [Scroll(h.scroll(d.pointerEnter).value)]
  {
    SqrMagnitudeNonNeg(d.scrollDelta);
    ApproximatelyZero(SqrMagnitude2(d.scrollDelta));
    if Approximately(SqrMagnitude2(d.scrollDelta), 0.0) then []
    else
      var handler := h.scroll(d.pointerEnter);
      if handler.Some? then [Scroll(handler.value)] else []
  }

  // ---------------------------------------------------------------- control methods

  /** The `ControlMethod` enum's values. */
  function ControlMethodCode(k: ControlMethodKind): int
  {
    match k
    case Mouse => 0
    case Gaze => 1
    case CustomRay => 3
    case MetaXR => 5
    case SteamVR => 8
    case UnityXR => 9
  }

  /** The control-method dictionary, keyed by enum value. */
  const ControlMethodsDict: map<int, ControlMethodKind> :=
    map[0 := Mouse, 1 := Gaze, 9 := UnityXR, 5 := MetaXR, 8 := SteamVR, 3 := CustomRay]

  /** `GetActiveControlMethodSettings`: the dictionary entry for the stored
      enum value, the mouse method for any other value. */
  function GetActiveControlMethodSettings(controlMethod: int): (k: ControlMethodKind)
    ensures controlMethod !in ControlMethodsDict ==> k == Mouse
    ensures controlMethod in ControlMethodsDict ==> k == ControlMethodsDict[controlMethod]
  {
    if controlMethod in ControlMethodsDict then ControlMethodsDict[controlMethod] else Mouse
  }

  /** Every method is found under its own enum value, and every key of the
      dictionary is the value of the method stored under it. */
  lemma ControlMethodLookupInvertsCode(k: ControlMethodKind, code: int)
    ensures GetActiveControlMethodSettings(ControlMethodCode(k)) == k
    ensures code in ControlMethodsDict ==> ControlMethodCode(ControlMethodsDict[code]) == code
    ensures code !in {0, 1, 3, 5, 8, 9} ==> GetActiveControlMethodSettings(code) == Mouse
  {
  }

  /** `GetEventRay`: the pointer-transform override wins; otherwise the active
      method's ray for the used hand, from the given camera or, when there is
      none, the main event camera. The methods' own rays are an input. */
  function GetEventRay(pointerTransformOverride: Option<Pose>, eventCam: Option<Camera>, mainEventCamera: Option<Camera>,
                       controlMethod: int, usedHand: Hand, methodRay: (ControlMethodKind, Hand, Option<Camera>) -> Ray): (r: Ray)
    ensures pointerTransformOverride.Some? ==>
              r == Ray(pointerTransformOverride.value.position, pointerTransformOverride.value.forward)
    ensures pointerTransformOverride.None? && eventCam.Some? ==>
              r == methodRay(GetActiveControlMethodSettings(controlMethod), usedHand, eventCam)
    ensures pointerTransformOverride.None? && eventCam.None? ==>
              r == methodRay(GetActiveControlMethodSettings(controlMethod), usedHand, mainEventCamera)
  {
    match pointerTransformOverride
    case Some(pose) => Ray(pose.position, pose.forward)
    case None =>
      var cam := if eventCam.Some? then eventCam else mainEventCamera;
      methodRay(GetActiveControlMethodSettings(controlMethod), usedHand, cam)
  }

  /** A missing camera behaves exactly as the main event camera passed
      explicitly, and a given camera makes the main event camera irrelevant. */
  lemma MissingCameraIsMainCamera(pointerTransformOverride: Option<Pose>, eventCam: Option<Camera>,
                                  mainEventCamera: Option<Camera>, otherMain: Option<Camera>, controlMethod: int,
                                  usedHand: Hand, methodRay: (ControlMethodKind, Hand, Option<Camera>) -> Ray)
    ensures GetEventRay(pointerTransformOverride, None, mainEventCamera, controlMethod, usedHand, methodRay) ==
              GetEventRay(pointerTransformOverride, mainEventCamera, mainEventCamera, controlMethod, usedHand, methodRay)
    ensures eventCam.Some? ==>
              GetEventRay(pointerTransformOverride, eventCam, mainEventCamera, controlMethod, usedHand, methodRay) ==
              GetEventRay(pointerTransformOverride, eventCam, otherMain, controlMethod, usedHand, methodRay)
  {
  }

  /** Under the gaze method and without an override, the ray is the forward
      ray of the given camera, else of the main event camera, else the
      default ray. */
  lemma GazeEventRay(eventCam: Option<Camera>, mainEventCamera: Option<Camera>, usedHand: Hand,
                     methodRay: (ControlMethodKind, Hand, Option<Camera>) -> Ray)
    requires forall hand, cam :: methodRay(Gaze, hand, cam) == GazeControlMethod.GetEventRay(hand, cam)
    ensures var r := GetEventRay(None, eventCam, mainEventCamera, 1, usedHand, methodRay);
            (eventCam.Some? ==> r == eventCam.value.forwardRay) &&
            (eventCam.None? && mainEventCamera.Some? ==> r == mainEventCamera.value.forwardRay) &&
            (eventCam.None? && mainEventCamera.None? ==> r == DefaultRay)
  {
    var cam := if eventCam.Some? then eventCam else mainEventCamera;
    assert methodRay(Gaze, usedHand, cam) == GazeControlMethod.GetEventRay(usedHand, cam);
  }

  // ---------------------------------------------------------------- frame

  /** The module's own fields: the button now and last frame, the position at
      the last valid raycast, the object reported as pointed at, the event
      system's selection, and the stored pointer data. */
  datatype ModuleState = ModuleState(
    pressedDown: bool,
    pressedLastFrame: bool,
    lastEventDataPosition: Vec2,
    currentPointedAt: Option<Obj>,
    selected: Option<Obj>,
    data: PointerData)

  /** What `RaycastAll` leaves behind: the raycasters may rewrite the position
      and press position; `target` and `valid` describe the first hit. */
  datatype FrameRaycast = FrameRaycast(position: Vec2, pressPosition: Vec2, target: Option<Obj>, valid: bool)

  /** Per-frame inputs: what the active control method reported (if
      anything), the mouse position and the unscaled time. */
  datatype FrameInput = FrameInput(args: Option<ControlArgs>, mousePosition: Vec2, now: real)

  datatype Frame = Frame(state: ModuleState, buttonState: FramePressState, events: seq<Event>)

  /** `Process` for the new input system: read the control method, build the
      event data, raycast, then move, button, drag and scroll, and remember the
      button for the next frame. */
  function Process(st: ModuleState, input: FrameInput, raycastAll: (Vec2, Vec2) -> FrameRaycast,
                   scene: Hierarchy.Scene, h: Handlers, pixelDragThreshold: int): (r: Frame)
    requires Hierarchy.Valid(scene)
    ensures r.state.pressedDown == (if input.args.Some? then input.args.value.buttonState else st.pressedDown)
    ensures r.state.pressedLastFrame == r.state.pressedDown
    ensures r.buttonState == GetFramePressedState(r.state.pressedDown, st.pressedLastFrame)
    ensures r.state.currentPointedAt == st.data.currentRaycast
    ensures r.state.data.currentRaycast == raycastAll(input.mousePosition,
              if r.buttonState == Pressed then input.mousePosition else st.data.pressPosition).target
    ensures r.state.data.pointerEnter == r.state.data.currentRaycast
    ensures r.state.data.useDragThreshold
    ensures var rc := raycastAll(input.mousePosition, if r.buttonState == Pressed then input.mousePosition else st.data.pressPosition);
            r.state.lastEventDataPosition == (if rc.valid then rc.position else st.lastEventDataPosition)
    ensures r.buttonState == Released ==>
              !r.state.data.eligibleForClick && r.state.data.pointerPress.None? && !r.state.data.dragging &&
              r.state.data.pointerDrag.None? && r.state.data.rawPointerPress.None?
    ensures r.buttonState == Pressed ==> r.state.data.clickTime == input.now
  {
    var pressedDown := if input.args.Some? then input.args.value.buttonState else st.pressedDown;
    var bs := GetFramePressedState(pressedDown, st.pressedLastFrame);
    var d0 := st.data.(useDragThreshold := true, position := input.mousePosition);
    var d1 := if bs == Pressed then d0.(pressPosition := d0.position) else d0;
    var pointedAt := d1.currentRaycast;
    var rc := raycastAll(d1.position, d1.pressPosition);
    var d2 := d1.(position := rc.position, pressPosition := rc.pressPosition, currentRaycast := rc.target);
    var d3 := if rc.valid then d2.(delta := Sub2(st.lastEventDataPosition, d2.position)) else d2;
    var lastPosition := if rc.valid then d2.position else st.lastEventDataPosition;
    var m := ProcessMove(scene, d3, d3.currentRaycast);
    var b := ProcessButton(m.data, bs, st.selected, h, input.now);
    var g := ProcessDrag(b.data, b.selected, pixelDragThreshold);
    var events := m.events + b.events + g.events + ProcessScroll(g.data, h);
    Frame(ModuleState(pressedDown, pressedDown, lastPosition, pointedAt, g.selected, g.data), bs, events)
  }

  /** Under the gaze method the button is never down, so no frame is Pressed. */
  lemma GazeNeverPresses(st: ModuleState, input: FrameInput, usedHand: Hand, mainEventCamera: Option<Camera>,
                         raycastAll: (Vec2, Vec2) -> FrameRaycast, scene: Hierarchy.Scene, h: Handlers, pixelDragThreshold: int)
    requires Hierarchy.Valid(scene) && !st.pressedDown
    requires input.args == Some(GazeControlMethod.Process(usedHand, mainEventCamera))
    ensures Process(st, input, raycastAll, scene, h, pixelDragThreshold).buttonState != Pressed
    ensures !Process(st, input, raycastAll, scene, h, pixelDragThreshold).state.pressedDown
  {
  }

  /** The button states of a run of frames. */
  function RunStates(st: ModuleState, inputs: seq<FrameInput>, raycastAll: (Vec2, Vec2) -> FrameRaycast,
                     scene: Hierarchy.Scene, h: Handlers, pixelDragThreshold: int): (r: seq<FramePressState>)
    requires Hierarchy.Valid(scene)
    ensures |r| == |inputs|
    decreases |inputs|
  {
    if |inputs| == 0 then []
    else
      var f := Process(st, inputs[0], raycastAll, scene, h, pixelDragThreshold);
      [f.buttonState] + RunStates(f.state, inputs[1..], raycastAll, scene, h, pixelDragThreshold)
  }

  /** The button each frame holds: the reported one, or the previous frame's
      when the method reports nothing. */
  function Downs(pressedDown: bool, inputs: seq<FrameInput>): (r: seq<bool>)
    ensures |r| == |inputs|
    decreases |inputs|
  {
    if |inputs| == 0 then []
    else
      var down := if inputs[0].args.Some? then inputs[0].args.value.buttonState else pressedDown;
      [down] + Downs(down, inputs[1..])
  }

  /** Because every frame ends by remembering its button, a run of `Process`
      reports exactly the edge sequence of its buttons. */
  lemma {:induction false} RunIsPressStates(st: ModuleState, inputs: seq<FrameInput>, raycastAll: (Vec2, Vec2) -> FrameRaycast,
                                            scene: Hierarchy.Scene, h: Handlers, pixelDragThreshold: int)
    requires Hierarchy.Valid(scene)
    ensures RunStates(st, inputs, raycastAll, scene, h, pixelDragThreshold) ==
            PressStates(st.pressedLastFrame, Downs(st.pressedDown, inputs))
    decreases |inputs|
  {
    if |inputs| > 0 {
      var f := Process(st, inputs[0], raycastAll, scene, h, pixelDragThreshold);
      RunIsPressStates(f.state, inputs[1..], raycastAll, scene, h, pixelDragThreshold);
    }
  }
}
