/**
 * One captured transform (Snap.cs): the id of the object it belongs to and
 * that object's position, rotation and scale at capture time. The fields are
 * never written after construction.
 */
module Snaps {
  import opened Engine
  import opened Identity

  class Snap {
    const id: string
    const position: Vector3
    const rotation: Quaternion
    const scale: Vector3

    /** Capture: copies the id verbatim and the transform's three components. */
    constructor (id_: string, tf: Transform)
      ensures id == id_
      ensures Recorded() == tf.Values()
    {
      id := id_;
      position := tf.position;
      rotation := tf.rotation;
      scale := tf.localScale;
    }

    /** The recorded values, in the shape of a transform's. */
    function Recorded(): Pose
    {
      Pose(position, rotation, scale)
    }

    /** The transform of the object registered under this snap's id. */
    function GetTransform(reg: IdRegistry): (tf: Transform)
      reads reg
      requires id in reg.idToObj
    {
      reg.idToObj[id].transform
    }

    /**
     * Writes the recorded values back into the registered object's transform;
     * the values there before do not matter, so restoring twice is restoring once.
     */
    method Restore(reg: IdRegistry)
      requires id in reg.idToObj
      modifies GetTransform(reg)
      ensures GetTransform(reg).Values() == Recorded()
    {
      var tf := reg.idToObj[id].transform;
      tf.position := position;
      tf.rotation := rotation;
      tf.localScale := scale;
    }
  }

  /** Capture, any edit of the object, then restore: the object is back where it was captured. */
  method CaptureEditRestore(reg: IdRegistry, id: string, edit: Pose) returns (s: Snap)
    requires id in reg.idToObj
    modifies reg.idToObj[id].transform
    ensures s.id == id && s.Recorded() == old(reg.idToObj[id].transform.Values())
    ensures reg.idToObj[id].transform.Values() == old(reg.idToObj[id].transform.Values())
  {
    var tf := reg.idToObj[id].transform;
    s := new Snap(id, tf);
    tf.Set(edit);
    s.Restore(reg);
  }
}
