/** The raycaster's gaze timed click: while the selectables under the gaze
    stay the same for longer than the delay plus the timer, they are clicked
    once. The engine's clock, the objects under the pointer and the
    "is an interactable selectable" test are inputs. */
module GazeClick {
  import opened Unity
  import opened ExtensionMethods
  import opened GazeControlMethod

  /** The raycaster fields the gaze click reads and writes. */
  datatype GazeState = GazeState(
    pointingAtCanvasLastFrame: bool,
    underGaze: seq<Obj>,
    underGazeLastFrame: seq<Obj>,
    lastChangeTime: real,
    clickExecuted: bool)

  /** One frame's outcome: the new state, whether `Click` ran, and whether the
      timer was reset at least once. */
  datatype GazeFrame = GazeFrame(state: GazeState, clicked: bool, reset: bool)

  /** The selection changed when last frame's list is empty, the lengths
      differ, or some position holds a different object. */
  predicate SelectionChanged(last: seq<Obj>, current: seq<Obj>)
  {
    |last| == 0 || |last| != |current| || exists i :: 0 <= i < |last| && i < |current| && last[i] != current[i]
  }

  /** The comparison loop of `ProcessGazeTimedClick`. */
  method SelectionDiffers(last: seq<Obj>, current: seq<Obj>) returns (changed: bool)
    ensures changed <==> SelectionChanged(last, current)
    ensures !changed ==> last == current && |last| > 0
  {
    if |last| == 0 || |last| != |current| {
      return true;
    }
    var i := 0;
    while i < |last| && i < |current|
      invariant 0 <= i <= |last| == |current|
      invariant forall j :: 0 <= j < i ==> last[j] == current[j]
    {
      if last[i] != current[i] {
        return true;
      }
      i := i + 1;
    }
    return false;
  }

  /** `ResetGazeTimedClick`: restart the timer now and allow a new click. */
  function Reset(st: GazeState, now: real): (r: GazeState)
    ensures r.lastChangeTime == now && !r.clickExecuted
    ensures r.underGaze == st.underGaze && r.underGazeLastFrame == st.underGazeLastFrame
    ensures r.pointingAtCanvasLastFrame == st.pointingAtCanvasLastFrame
  {
    st.(lastChangeTime := now, clickExecuted := false)
  }

  /** `ProcessGazeTimedClick`. */
  function ProcessTimedClick(st: GazeState, now: real, settings: GazeSettings): (f: GazeFrame)
    ensures SelectionChanged(st.underGazeLastFrame, st.underGaze) ==> f == GazeFrame(Reset(st, now), false, true)
    ensures f.clicked <==>
              !SelectionChanged(st.underGazeLastFrame, st.underGaze) && !st.clickExecuted &&
              now > st.lastChangeTime + settings.clickTimer + settings.clickTimerDelay
    ensures f.clicked ==> f.state == st.(clickExecuted := true) && !f.reset
    ensures !f.clicked && !f.reset ==> f.state == st
  {
    if SelectionChanged(st.underGazeLastFrame, st.underGaze) then GazeFrame(Reset(st, now), false, true)
    else if !st.clickExecuted && now > st.lastChangeTime + settings.clickTimer + settings.clickTimerDelay then
      GazeFrame(st.(clickExecuted := true), true, false)
    else GazeFrame(st, false, false)
  }

  /** The objects under the pointer that are interactable selectables, in order. */
  function Selectables(objects: seq<Obj>, isInteractableSelectable: Obj -> bool): (r: seq<Obj>)
    ensures |r| <= |objects|
    ensures forall o :: o in r <==> o in objects && isInteractableSelectable(o)
    ensures objects == [] ==> r == []
    ensures |objects| == 1 ==> r == (if isInteractableSelectable(objects[0]) then objects else [])
  {
    if |objects| == 0 then []
    else Selectables(objects[..|objects| - 1], isInteractableSelectable) +
         (if isInteractableSelectable(objects[|objects| - 1]) then [objects[|objects| - 1]] else [])
  }

  /** The filter works element by element and keeps the order and the
      repetitions of what it keeps: filtering a concatenation concatenates the
      filtered parts. With the one-element cases above this pins the result
      down as the ordered sublist of accepted objects, which matters because
      `SelectionDiffers` compares the lists position by position. */
  lemma {:induction false} SelectablesAppend(a: seq<Obj>, b: seq<Obj>, isInteractableSelectable: Obj -> bool)
    ensures Selectables(a + b, isInteractableSelectable) ==
              Selectables(a, isInteractableSelectable) + Selectables(b, isInteractableSelectable)
    decreases |b|
  {
    if |b| == 0 {
      assert a + b == a;
    } else {
      var f := isInteractableSelectable;
      var c := a + b;
      var front, last := b[..|b| - 1], b[|b| - 1];
      var kept := if f(last) then [last] else [];
      assert c[..|c| - 1] == a + front && c[|c| - 1] == last;
      assert Selectables(c, f) == Selectables(a + front, f) + kept;
      assert Selectables(b, f) == Selectables(front, f) + kept;
      SelectablesAppend(a, front, f);
      AppendAssoc(Selectables(a, f), Selectables(front, f), kept);
    }
  }

  lemma AppendAssoc(x: seq<Obj>, y: seq<Obj>, z: seq<Obj>)
    ensures (x + y) + z == x + (y + z)
  {
  }

  /** The gaze part of `Update`, given whether this frame's raycast pointed at
      the canvas. Entering the canvas resets the timer before the check;
      leaving it resets the timer. While pointing, the selection lists shift by
      one frame after the check. */
  function Update(st: GazeState, gazeTimedClickActive: bool, settings: GazeSettings, pointingAtCanvas: bool,
                  objectsUnderPointer: seq<Obj>, isInteractableSelectable: Obj -> bool, now: real): (f: GazeFrame)
    ensures f.state.pointingAtCanvasLastFrame == pointingAtCanvas
    ensures !gazeTimedClickActive ==> f == GazeFrame(st.(pointingAtCanvasLastFrame := pointingAtCanvas), false, false)
    ensures gazeTimedClickActive && pointingAtCanvas ==>
              f.state.underGazeLastFrame == st.underGaze &&
              f.state.underGaze == Selectables(objectsUnderPointer, isInteractableSelectable)
    ensures gazeTimedClickActive && pointingAtCanvas && !st.pointingAtCanvasLastFrame ==> f.reset
    ensures gazeTimedClickActive && !pointingAtCanvas && st.pointingAtCanvasLastFrame ==>
              f == GazeFrame(Reset(st, now).(pointingAtCanvasLastFrame := false), false, true)
    ensures !pointingAtCanvas ==> !f.clicked
    ensures f.clicked ==> f.state.clickExecuted
    ensures f.clicked ==> f.reset || !st.clickExecuted
    ensures !f.reset && !f.clicked ==> f.state.clickExecuted == st.clickExecuted
    ensures f.reset && !f.clicked ==> !f.state.clickExecuted
  {
    if !gazeTimedClickActive then GazeFrame(st.(pointingAtCanvasLastFrame := pointingAtCanvas), false, false)
    else if pointingAtCanvas then
      var entered := if !st.pointingAtCanvasLastFrame then Reset(st, now) else st;
      var p := ProcessTimedClick(entered, now, settings);
      var shifted := p.state.(underGazeLastFrame := p.state.underGaze,
                              underGaze := Selectables(objectsUnderPointer, isInteractableSelectable),
                              pointingAtCanvasLastFrame := pointingAtCanvas);
      GazeFrame(shifted, p.clicked, p.reset || !st.pointingAtCanvasLastFrame)
    else if st.pointingAtCanvasLastFrame then GazeFrame(Reset(st, now).(pointingAtCanvasLastFrame := false), false, true)
    else GazeFrame(st.(pointingAtCanvasLastFrame := false), false, false)
  }

  /** With non-negative timers a click never happens in the frame that
      restarted the timer. */
  lemma NoClickOnReset(st: GazeState, settings: GazeSettings, pointingAtCanvas: bool,
                       objectsUnderPointer: seq<Obj>, isInteractableSelectable: Obj -> bool, now: real)
    requires Valid(settings)
    ensures var f := Update(st, true, settings, pointingAtCanvas, objectsUnderPointer, isInteractableSelectable, now);
            f.reset ==> !f.clicked
  {
  }

  lemma DivAtLeastOne(x: real, t: real)
    requires t != 0.0
    ensures t > 0.0 && x >= t ==> x / t >= 1.0
  {
    if t > 0.0 && x >= t {
      var q := x / t;
      assert q * t == x;
    }
  }

  /** The gaze progress image's fill: 0 until the delay has passed, then rising
      linearly to 1 when the timer has run out. */
  function ProgressFill(st: GazeState, now: real, settings: GazeSettings): (r: real)
    requires settings.clickTimer != 0.0
    ensures 0.0 <= r <= 1.0
    ensures settings.clickTimer > 0.0 && now - st.lastChangeTime <= settings.clickTimerDelay ==> r == 0.0
    ensures settings.clickTimer > 0.0 && now - st.lastChangeTime >= settings.clickTimer + settings.clickTimerDelay ==> r == 1.0
  {
    var d := settings.clickTimerDelay;
    var e := now - st.lastChangeTime;
    var r := RemapAndClamp(e, d, settings.clickTimer + d, 0.0, 1.0);
    assert settings.clickTimer > 0.0 && e <= d ==> (e - d) / settings.clickTimer <= 0.0;
    DivAtLeastOne(e - d, settings.clickTimer);
    r
  }

  // ---------------------------------------------------------------- runs

  /** The per-frame inputs: the raycast's verdict, the objects under the
      pointer and the clock. */
  datatype FrameInput = FrameInput(pointingAtCanvas: bool, objectsUnderPointer: seq<Obj>, now: real)

  datatype RunResult = RunResult(state: GazeState, clicks: nat, resets: nat)

  function Run(st: GazeState, gazeTimedClickActive: bool, settings: GazeSettings,
               isInteractableSelectable: Obj -> bool, frames: seq<FrameInput>): (r: RunResult)
    decreases |frames|
  {
    if |frames| == 0 then RunResult(st, 0, 0)
    else
      var f := Update(st, gazeTimedClickActive, settings, frames[0].pointingAtCanvas,
                      frames[0].objectsUnderPointer, isInteractableSelectable, frames[0].now);
      var rest := Run(f.state, gazeTimedClickActive, settings, isInteractableSelectable, frames[1..]);
      RunResult(rest.state, rest.clicks + (if f.clicked then 1 else 0), rest.resets + (if f.reset then 1 else 0))
  }

  function Available(st: GazeState): nat { if st.clickExecuted then 0 else 1 }

  /** At most one click between two resets: over any run, the clicks plus a
      final pending click never exceed the resets plus an initially pending
      one. In particular there are at most resets + 1 clicks. */
  lemma {:induction false} ClickAtMostOncePerReset(st: GazeState, gazeTimedClickActive: bool, settings: GazeSettings,
                                                   isInteractableSelectable: Obj -> bool, frames: seq<FrameInput>)
    ensures var r := Run(st, gazeTimedClickActive, settings, isInteractableSelectable, frames);
            r.clicks + Available(r.state) <= r.resets + Available(st)
    ensures Run(st, gazeTimedClickActive, settings, isInteractableSelectable, frames).clicks <=
            Run(st, gazeTimedClickActive, settings, isInteractableSelectable, frames).resets + 1
    decreases |frames|
  {
    if |frames| > 0 {
      var f := Update(st, gazeTimedClickActive, settings, frames[0].pointingAtCanvas,
                      frames[0].objectsUnderPointer, isInteractableSelectable, frames[0].now);
      ClickAtMostOncePerReset(f.state, gazeTimedClickActive, settings, isInteractableSelectable, frames[1..]);
    }
  }
}
