/**
 * The identity layer (SnapshotId.cs): a component that tags a scene object
 * with a persistent string id, and the process-wide registry from ids to
 * the objects that carry them. The static dictionary of the source is an
 * IdRegistry object that every operation is handed explicitly.
 */
module Identity {
  import opened Optional
  import opened Engine

  /** A scene object: its transform and the SnapshotId component it carries, if any. */
  class GameObject {
    const transform: Transform
    var tag: SnapshotId?

    constructor (tf: Transform)
      ensures transform == tf && tag == null
    {
      transform := tf;
      tag := null;
    }
  }

  /** The key Awake works on: the component's own id, or the fresh one it assigns when it has none. */
  function AwakeKey(id: Option<string>, newId: string): string
  {
    if id.Some? then id.value else newId
  }

  /**
   * The registry after a component with id `id` on `go` wakes up: a fresh id
   * is registered to `go`, and so is an id not registered yet. A component
   * whose id is already registered is destroyed at once, and its OnDestroy
   * removes the id, even when the entry belongs to another object (the
   * original whose duplicate this component is).
   */
  function AfterAwake(m: map<string, GameObject>, id: Option<string>, go: GameObject, newId: string)
    : (r: map<string, GameObject>)
    ensures id.Some? && id.value in m ==> r.Keys == m.Keys - {id.value}
    ensures !(id.Some? && id.value in m) ==> r.Keys == m.Keys + {AwakeKey(id, newId)} && r[AwakeKey(id, newId)] == go
    ensures forall k :: k in m && k != AwakeKey(id, newId) ==> k in r && r[k] == m[k]
  {
    match id
    case None => m[newId := go]
    case Some(i) => if i in m then AfterDestroy(m, id) else m[i := go]
  }

  /** The registry after OnDestroy: the component's id is dropped whoever owns it; nothing else changes. */
  function AfterDestroy(m: map<string, GameObject>, id: Option<string>): (r: map<string, GameObject>)
    ensures id.Some? ==> r.Keys == m.Keys - {id.value}
    ensures id.None? ==> r == m
    ensures forall k :: k in r ==> k in m && r[k] == m[k]
  {
    if id.Some? then m - {id.value} else m
  }

  /**
   * The registry after the startup scan registers every component found, in
   * order (a later component with the same id overwrites an earlier one).
   */
  function RegisterAll(m: map<string, GameObject>, found: seq<SnapshotId>): (r: map<string, GameObject>)
    reads set c | c in found
    requires forall k :: 0 <= k < |found| ==> found[k].id.Some?
    ensures m.Keys <= r.Keys
    ensures forall k :: 0 <= k < |found| ==> found[k].id.value in r
    decreases |found|
  {
    if found == [] then m
    else
      var last := found[|found| - 1];
      var r := RegisterAll(m, found[..|found| - 1]);
      r[last.id.value := last.gameObject]
  }

  /** After the scan the registered ids are the previous ones and those of the found components. */
  lemma {:induction false} RegisterAllKeys(m: map<string, GameObject>, found: seq<SnapshotId>, i: string)
    requires forall k :: 0 <= k < |found| ==> found[k].id.Some?
    ensures i in RegisterAll(m, found) <==> i in m || exists k :: 0 <= k < |found| && found[k].id == Some(i)
    decreases |found|
  {
    if found != [] {
      var n := |found| - 1;
      var init := found[..n];
      RegisterAllKeys(m, init, i);
      if exists k :: 0 <= k < n && init[k].id == Some(i) {
        var k :| 0 <= k < n && init[k].id == Some(i);
        assert found[k].id == Some(i);
      }
      if exists k :: 0 <= k < |found| && found[k].id == Some(i) {
        var k :| 0 <= k < |found| && found[k].id == Some(i);
        if k < n {
          assert init[k].id == Some(i);
        }
      }
    }
  }

  /** The last component found with a given id owns it after the scan. */
  lemma {:induction false} RegisterAllLastWins(m: map<string, GameObject>, found: seq<SnapshotId>, k: nat)
    requires forall j :: 0 <= j < |found| ==> found[j].id.Some?
    requires k < |found|
    requires forall j :: k < j < |found| ==> found[j].id != found[k].id
    ensures found[k].id.value in RegisterAll(m, found)
    ensures RegisterAll(m, found)[found[k].id.value] == found[k].gameObject
    decreases |found|
  {
    if k < |found| - 1 {
      var init := found[..|found| - 1];
      assert init[k] == found[k];
      RegisterAllLastWins(m, init, k);
    }
  }

  /** An id that no found component carries keeps its previous owner. */
  lemma {:induction false} RegisterAllKeepsOthers(m: map<string, GameObject>, found: seq<SnapshotId>, i: string)
    requires forall j :: 0 <= j < |found| ==> found[j].id.Some?
    requires i in m
    requires forall j :: 0 <= j < |found| ==> found[j].id != Some(i)
    ensures i in RegisterAll(m, found) && RegisterAll(m, found)[i] == m[i]
    decreases |found|
  {
    if found != [] {
      var init := found[..|found| - 1];
      assert forall j :: 0 <= j < |init| ==> init[j] == found[j];
      RegisterAllKeepsOthers(m, init, i);
    }
  }

  /** The process-wide map from ids to the objects that carry them (SnapshotId.idToObj). */
  class IdRegistry {
    var idToObj: map<string, GameObject>

    constructor ()
      ensures idToObj == map[]
    {
      idToObj := map[];
    }

    /** The tag components of the registered objects. */
    ghost function Tags(): set<SnapshotId>
      reads this, idToObj.Values
    {
      set o | o in idToObj.Values && o.tag != null :: o.tag
    }

    /** Every registered object carries a tag whose id is the key it is registered under. */
    ghost predicate Coherent()
      reads this, idToObj.Values, Tags()
    {
      forall i :: i in idToObj ==>
        && idToObj[i].tag != null
        && idToObj[i].tag.gameObject == idToObj[i]
        && idToObj[i].tag.id == Some(i)
    }
  }

  /** The identity component (SnapshotId). `id` is null until Awake assigns one. */
  class SnapshotId {
    var id: Option<string>
    const gameObject: GameObject
    var destroyed: bool

    /** A component as AddComponent creates it, before its Awake runs. */
    constructor (go: GameObject)
      ensures gameObject == go && id == None && !destroyed
    {
      gameObject := go;
      id := None;
      destroyed := false;
    }

    /**
     * Awake: a component without an id takes the fresh `newId` (the GUID of
     * NewId, unique by assumption) and registers its object; a component whose
     * id is already registered is destroyed at once (see AfterAwake for what
     * that does to the registry); any other id is registered to this object.
     */
    method Awake(reg: IdRegistry, newId: string)
      requires gameObject.tag == this && !destroyed
      requires id.None? ==> newId !in reg.idToObj
      modifies this`id, this`destroyed, gameObject`tag, reg`idToObj
      ensures reg.idToObj == AfterAwake(old(reg.idToObj), old(id), gameObject, newId)
      ensures id == Some(AwakeKey(old(id), newId))
      ensures destroyed <==> old(id).Some? && old(id).value in old(reg.idToObj)
      ensures gameObject.tag == (if destroyed then null else this)
      ensures old(reg.Coherent()) ==> reg.Coherent()
    {
      if id.None? {
        id := Some(newId);
        reg.idToObj := reg.idToObj[newId := gameObject];
      } else if id.value in reg.idToObj {
        DestroyImmediate(this, reg);
      } else {
        reg.idToObj := reg.idToObj[id.value := gameObject];
      }
    }

    /** What DestroyImmediate does to the component itself: it leaves its object and is marked destroyed. */
    method Detach()
      modifies this`destroyed, gameObject`tag
      ensures destroyed
      ensures gameObject.tag == (if old(gameObject.tag) == this then null else old(gameObject.tag))
    {
      destroyed := true;
      if gameObject.tag == this {
        gameObject.tag := null;
      }
    }

    /**
     * OnDestroy: the component's id is removed from the registry even when the
     * registry maps it to another object. Removing a null key throws in the
     * source before anything changes, so a component without an id changes nothing.
     */
    method OnDestroy(reg: IdRegistry)
      modifies reg`idToObj
      ensures reg.idToObj == AfterDestroy(old(reg.idToObj), id)
    {
      if id.Some? {
        reg.idToObj := reg.idToObj - {id.value};
      }
    }
  }

  /** DestroyImmediate on a component: it is detached, and the engine runs its OnDestroy at once. */
  method DestroyImmediate(c: SnapshotId, reg: IdRegistry)
    modifies c`destroyed, c.gameObject`tag, reg`idToObj
    ensures c.destroyed
    ensures c.gameObject.tag == (if old(c.gameObject.tag) == c then null else old(c.gameObject.tag))
    ensures reg.idToObj == AfterDestroy(old(reg.idToObj), c.id)
    ensures (old(reg.Coherent()) && c.id.Some? && c.id.value in old(reg.idToObj)
             && old(reg.idToObj[c.id.value].tag) == c) ==> reg.Coherent()
  {
    c.Detach();
    c.OnDestroy(reg);
  }

  /**
   * The object's SnapshotId, added (and so woken up at once) when the object
   * has none.
   */
  method GetOrAddComponent(obj: GameObject, reg: IdRegistry, newId: string) returns (c: SnapshotId)
    requires newId !in reg.idToObj
    modifies obj`tag, reg`idToObj
    ensures old(reg.Coherent()) ==> reg.Coherent()
    ensures obj.tag == c
    ensures old(obj.tag) != null ==> c == old(obj.tag) && reg.idToObj == old(reg.idToObj)
    ensures old(obj.tag) == null ==>
              && fresh(c) && c.id == Some(newId) && c.gameObject == obj && !c.destroyed
              && reg.idToObj == old(reg.idToObj)[newId := obj]
  {
    if obj.tag != null {
      c := obj.tag;
    } else {
      c := new SnapshotId(obj);
      obj.tag := c;
      c.Awake(reg, newId);
    }
  }
}
