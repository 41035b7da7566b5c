/** Types shared by the control methods and the input module. */
module ControlMethods {
  import opened Unity

  /** Which hand may interact with the canvas. */
  datatype Hand = Any | Right | Left

  /** The control methods that have settings objects. */
  datatype ControlMethodKind = Mouse | Gaze | UnityXR | MetaXR | SteamVR | CustomRay

  /** What a control method reports each frame: where it points and whether its button is down. */
  datatype ControlArgs = ControlArgs(ray: Ray, buttonState: bool)
}
