/**
 * The host engine's transform state, as far as the snapshot tool touches it.
 * Vectors and rotations are only ever copied, never computed with, so their
 * components are carried as plain reals.
 */
module Engine {

  datatype Vector3 = Vector3(x: real, y: real, z: real)

  datatype Quaternion = Quaternion(x: real, y: real, z: real, w: real)

  /** The three transform components a snap records. */
  datatype Pose = Pose(position: Vector3, rotation: Quaternion, scale: Vector3)

  /** A scene object's transform; the engine and the user change it in place. */
  class Transform {
    var position: Vector3
    var rotation: Quaternion
    var localScale: Vector3

    constructor (p: Pose)
      ensures Values() == p
    {
      position, rotation, localScale := p.position, p.rotation, p.scale;
    }

    /** The current position, rotation and scale. */
    function Values(): Pose
      reads this
    {
      Pose(position, rotation, localScale)
    }

    /** An edit made in the editor (moving, rotating or scaling the object). */
    method Set(p: Pose)
      modifies this
      ensures Values() == p
    {
      position, rotation, localScale := p.position, p.rotation, p.scale;
    }
  }
}
