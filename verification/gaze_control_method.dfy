/** Settings and per-frame processing of the gaze control method. */
module GazeControlMethod {
  import opened Unity
  import opened Wrappers
  import opened ControlMethods

  /** The serialized settings: timed click on or off, the click timer and the
      delay before the timer starts, both in seconds. */
  datatype GazeSettings = GazeSettings(useTimedClick: bool, clickTimer: real, clickTimerDelay: real)

  /** The timers are kept non-negative by their setters. */
  predicate Valid(s: GazeSettings)
  {
    s.clickTimer >= 0.0 && s.clickTimerDelay >= 0.0
  }

  /** Serialized defaults: no timed click, a 2 s timer after a 1 s delay. */
  function Defaults(): (s: GazeSettings)
    ensures Valid(s)
    ensures !s.useTimedClick && s.clickTimer == 2.0 && s.clickTimerDelay == 1.0
  {
    GazeSettings(false, 2.0, 1.0)
  }

  /** The `GazeClickTimer` setter: negative values are stored as 0. */
  function SetGazeClickTimer(s: GazeSettings, value: real): (r: GazeSettings)
    ensures r.clickTimer >= 0.0
    ensures value >= 0.0 ==> r.clickTimer == value
    ensures value < 0.0 ==> r.clickTimer == 0.0
    ensures r.useTimedClick == s.useTimedClick && r.clickTimerDelay == s.clickTimerDelay
  {
    s.(clickTimer := Max(value, 0.0))
  }

  /** The `GazeClickTimerDelay` setter: negative values are stored as 0. */
  function SetGazeClickTimerDelay(s: GazeSettings, value: real): (r: GazeSettings)
    ensures r.clickTimerDelay >= 0.0
    ensures value >= 0.0 ==> r.clickTimerDelay == value
    ensures value < 0.0 ==> r.clickTimerDelay == 0.0
    ensures r.useTimedClick == s.useTimedClick && r.clickTimer == s.clickTimer
  {
    s.(clickTimerDelay := Max(value, 0.0))
  }

  /** The `GazeUseTimedClick` setter. */
  function SetGazeUseTimedClick(s: GazeSettings, value: bool): (r: GazeSettings)
    ensures r.useTimedClick == value
    ensures r.clickTimer == s.clickTimer && r.clickTimerDelay == s.clickTimerDelay
  {
    s.(useTimedClick := value)
  }

  /** Every setter keeps the settings valid, a clamping setter applied twice
      with the same value is the same as once, and reading back a value just
      written gives max(value, 0). */
  lemma SettersKeepValid(s: GazeSettings, v: real, w: real, b: bool)
    requires Valid(s)
    ensures Valid(SetGazeClickTimer(s, v))
    ensures Valid(SetGazeClickTimerDelay(s, v))
    ensures Valid(SetGazeUseTimedClick(s, b))
    ensures SetGazeClickTimer(SetGazeClickTimer(s, v), v) == SetGazeClickTimer(s, v)
    ensures SetGazeClickTimerDelay(SetGazeClickTimerDelay(s, v), v) == SetGazeClickTimerDelay(s, v)
    ensures SetGazeClickTimer(SetGazeClickTimerDelay(s, w), v) == SetGazeClickTimerDelay(SetGazeClickTimer(s, v), w)
  {
  }

  /** The gaze ray: the event camera's forward ray, or an all-zero ray when
      there is no camera (the source logs an error in that case). */
  function GetEventRay(usedHand: Hand, eventCam: Option<Camera>): (r: Ray)
    ensures eventCam.None? ==> r == DefaultRay
    ensures eventCam.Some? ==> r == eventCam.value.forwardRay
  {
    if eventCam.None? then DefaultRay else eventCam.value.forwardRay
  }

  /** Gaze never reports a pressed button: gaze clicks only come from the
      timed click driven by the raycaster. */
  function Process(usedHand: Hand, mainEventCamera: Option<Camera>): (args: ControlArgs)
    ensures !args.buttonState
    ensures args.ray == GetEventRay(usedHand, mainEventCamera)
  {
    ControlArgs(GetEventRay(usedHand, mainEventCamera), false)
  }
}
