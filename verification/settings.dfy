/** The per-canvas curving settings that the raycaster reads. The settings
    component itself is not part of this model; its fields are inputs. */
module Settings {
  import opened Unity

  datatype Shape = Cylinder | CylinderVertical | Ring | Sphere

  /** Angles are whole degrees; `angle` may be negative (bend the other way). */
  datatype CanvasSettings = CanvasSettings(
    shape: Shape,
    angle: int,
    verticalAngle: int,
    enabled: bool,
    interactable: bool,
    blocksRaycasts: bool,
    useMeshCollider: bool,
    preserveAspect: bool,
    ringFill: real,
    ringExternalDiameter: int,
    ringFlipVertical: bool,
    baseCircleSegments: int)

  /** Custom raycasting and curving are active only for a non-zero angle on an
      enabled component. */
  predicate Curved(s: CanvasSettings)
  {
    s.angle != 0 && s.enabled
  }
}
