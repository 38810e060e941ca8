/**
 * The bookkeeping of the snapshots window (SnapshotsWindow.cs): the ordered
 * catalog of snapshots, the per-id reference counts, and the create, delete,
 * restore and start-up operations that keep them, the identity registry and
 * the scene's transforms in step. Widgets, persistence and undo are outside
 * the model.
 */
module Window {
  import opened Optional
  import opened Engine
  import opened Identity
  import opened Snaps
  import opened Snapshots
  import opened Counting
  import opened Deletion

  /** The title of a new snapshot: the raw text, or "Untitled" when that is null or empty. */
  function TitleFor(raw: Option<string>): (title: string)
    ensures title != ""
    ensures raw.Some? && raw.value != "" ==> title == raw.value
    ensures title == "Untitled" <==> raw.None? || raw.value == "" || raw.value == "Untitled"
  {
    if raw.None? || raw.value == "" then "Untitled" else raw.value
  }

  /** The transforms the snaps resolve to through the registry (GetTransform of each), in order. */
  function Targets(reg: IdRegistry, snaps: seq<Snap>): (ts: seq<Transform>)
    reads reg
    requires forall k :: 0 <= k < |snaps| ==> snaps[k].id in reg.idToObj
    ensures |ts| == |snaps|
    ensures forall k :: 0 <= k < |snaps| ==> ts[k] == reg.idToObj[snaps[k].id].transform
  {
    seq(|snaps|, k requires 0 <= k < |snaps| && snaps[k].id in reg.idToObj reads reg =>
                  snaps[k].GetTransform(reg))
  }

  /**
   * The values of transform `t` after each snap has been written, in order,
   * to its target: the last snap aimed at `t` wins, and `t` keeps `before`
   * when none is.
   */
  function Replayed(snaps: seq<Snap>, targets: seq<Transform>, t: Transform, before: Pose): (p: Pose)
    requires |snaps| == |targets|
    ensures t !in targets ==> p == before
    ensures p == before || exists k :: 0 <= k < |snaps| && targets[k] == t && p == snaps[k].Recorded()
    decreases |snaps|
  {
    if snaps == [] then before
    else if targets[|targets| - 1] == t then snaps[|snaps| - 1].Recorded()
    else Replayed(snaps[..|snaps| - 1], targets[..|targets| - 1], t, before)
  }

  /** The last snap aimed at a transform decides its values. */
  lemma {:induction false} ReplayedLastWins(snaps: seq<Snap>, targets: seq<Transform>, t: Transform, before: Pose, k: nat)
    requires |snaps| == |targets| && k < |snaps| && targets[k] == t
    requires forall j :: k < j < |snaps| ==> targets[j] != t
    ensures Replayed(snaps, targets, t, before) == snaps[k].Recorded()
    decreases |snaps|
  {
    if k < |snaps| - 1 {
      var n := |snaps| - 1;
      assert targets[..n][k] == t;
      ReplayedLastWins(snaps[..n], targets[..n], t, before, k);
    }
  }

  /** Replaying one more snap: it decides its own target and leaves every other transform as it was. */
  lemma ReplayedNext(snaps: seq<Snap>, targets: seq<Transform>, k: nat, t: Transform, before: Pose)
    requires |snaps| == |targets| && k < |snaps|
    ensures Replayed(snaps[..k + 1], targets[..k + 1], t, before) ==
              if targets[k] == t then snaps[k].Recorded() else Replayed(snaps[..k], targets[..k], t, before)
  {
    assert snaps[..k + 1][..k] == snaps[..k];
    assert targets[..k + 1][..k] == targets[..k];
  }

  /** Restoring a snapshot twice in succession leaves every transform as restoring it once. */
  lemma {:induction false} ReplayedIdempotent(snaps: seq<Snap>, targets: seq<Transform>, t: Transform, before: Pose)
    requires |snaps| == |targets|
    ensures Replayed(snaps, targets, t, Replayed(snaps, targets, t, before)) == Replayed(snaps, targets, t, before)
  {
    if t in targets {
      var k := LastIndex(targets, t);
      ReplayedLastWins(snaps, targets, t, before, k);
      ReplayedLastWins(snaps, targets, t, Replayed(snaps, targets, t, before), k);
    }
  }

  /** The position of the last occurrence of `t`. */
  function LastIndex(targets: seq<Transform>, t: Transform): (k: nat)
    requires t in targets
    ensures k < |targets| && targets[k] == t
    ensures forall j :: k < j < |targets| ==> targets[j] != t
    decreases |targets|
  {
    if targets[|targets| - 1] == t then |targets| - 1
    else
      assert t in targets[..|targets| - 1];
      LastIndex(targets[..|targets| - 1], t)
  }

  /**
   * Capture then restore: when every snap recorded its target's values at one
   * moment (`captured`), replaying them puts each target back to those values,
   * whatever it held in between.
   */
  lemma {:induction false} ReplayedRoundTrip(snaps: seq<Snap>, targets: seq<Transform>, captured: map<Transform, Pose>, t: Transform, before: Pose)
    requires |snaps| == |targets|
    requires forall k :: 0 <= k < |snaps| ==> targets[k] in captured && snaps[k].Recorded() == captured[targets[k]]
    requires t in targets
    ensures Replayed(snaps, targets, t, before) == captured[t]
  {
    var k := LastIndex(targets, t);
    ReplayedLastWins(snaps, targets, t, before, k);
  }

  /** No element of `s` occurs twice. */
  ghost predicate Distinct<T>(s: seq<T>)
  {
    forall i, j :: 0 <= i < j < |s| ==> Apart(s, i, j)
  }

  /** In a sequence without repetitions, the element at `i` occurs nowhere else. */
  lemma DistinctAt<T>(s: seq<T>, i: nat)
    requires Distinct(s) && i < |s|
    ensures forall k :: 0 <= k < |s| && k != i ==> s[k] != s[i]
  {
    forall k | 0 <= k < |s| && k != i
      ensures s[k] != s[i]
    {
      if k < i {
        assert Apart(s, k, i);
      } else {
        assert Apart(s, i, k);
      }
    }
  }

  /** Positions `i` and `j` of `s` hold different elements. */
  ghost predicate Apart<T>(s: seq<T>, i: int, j: int)
    requires 0 <= i < |s| && 0 <= j < |s|
  {
    s[i] != s[j]
  }

  /** The tags the objects carry, in order. */
  function TagsOf(objs: seq<GameObject>): seq<SnapshotId?>
    reads objs
  {
    seq(|objs|, k requires 0 <= k < |objs| reads objs => objs[k].tag)
  }

  /**
   * The registry and the selection's tags once the objects before
   * `|snaps|` are captured into `snaps`: the registry is coherent and as
   * Registered says; every object not yet reached, or tagged before, keeps
   * its tag; and every captured object carries a tag with its snap's id,
   * its own new tag under its fresh id if it had none.
   */
  ghost predicate Tagged(reg: IdRegistry, selected: seq<GameObject>, m0: map<string, GameObject>,
                         tags: seq<SnapshotId?>, poses: seq<Pose>, newIds: seq<string>, snaps: seq<Snap>)
    requires |tags| == |selected| == |poses| == |newIds| && |snaps| <= |selected|
    reads reg, reg.idToObj.Values, reg.Tags(), selected, set o | o in selected && o.tag != null :: o.tag
  {
    && reg.Coherent()
    && reg.idToObj == Registered(m0, selected, tags, newIds, |snaps|)
    && (forall k :: 0 <= k < |selected| && (|snaps| <= k || tags[k] != null) ==> selected[k].tag == tags[k])
    && (forall k :: 0 <= k < |snaps| ==>
          && selected[k].tag != null
          && selected[k].tag.id == Some(snaps[k].id)
          && snaps[k].Recorded() == poses[k]
          && (tags[k] == null ==> selected[k].tag.gameObject == selected[k] && snaps[k].id == newIds[k]))
  }

  /** The transform values of the objects, in order. */
  function PosesOf(objs: seq<GameObject>): seq<Pose>
    reads set o | o in objs :: o.transform
  {
    seq(|objs|, k requires 0 <= k < |objs| reads set o | o in objs :: o.transform => objs[k].transform.Values())
  }

  /**
   * The registry after the first `n` objects are tagged in order: an object
   * that had no tag (`tags[k] == null`) is registered under its fresh id
   * `ids[k]`; an object that had one leaves the registry as it was.
   */
  function Registered(m: map<string, GameObject>, objs: seq<GameObject>, tags: seq<SnapshotId?>, ids: seq<string>,
                      n: nat): (r: map<string, GameObject>)
    requires |objs| == |tags| == |ids| && n <= |objs|
    ensures m.Keys <= r.Keys
  {
    if n == 0 then m
    else
      var prev := Registered(m, objs, tags, ids, n - 1);
      if tags[n - 1] == null then prev[ids[n - 1] := objs[n - 1]] else prev
  }

  /** The keys after tagging: the old keys and the fresh ids of the untagged objects, nothing else. */
  lemma {:induction false} RegisteredKeys(m: map<string, GameObject>, objs: seq<GameObject>, tags: seq<SnapshotId?>,
                                          ids: seq<string>, n: nat, i: string)
    requires |objs| == |tags| == |ids| && n <= |objs|
    ensures i in Registered(m, objs, tags, ids, n) <==>
              i in m || exists k :: 0 <= k < n && tags[k] == null && ids[k] == i
  {
    if n > 0 {
      RegisteredKeys(m, objs, tags, ids, n - 1, i);
    }
  }

  /** An id that was not registered and is none of the fresh ids stays unregistered. */
  lemma {:induction false} RegisteredFresh(m: map<string, GameObject>, objs: seq<GameObject>, tags: seq<SnapshotId?>,
                                           ids: seq<string>, n: nat, i: string)
    requires |objs| == |tags| == |ids| && n <= |objs|
    requires i !in m && forall k :: 0 <= k < n ==> ids[k] != i
    ensures i !in Registered(m, objs, tags, ids, n)
  {
    if n > 0 {
      RegisteredFresh(m, objs, tags, ids, n - 1, i);
    }
  }

  /** A key that was registered and is none of the fresh ids keeps its object. */
  lemma {:induction false} RegisteredKeeps(m: map<string, GameObject>, objs: seq<GameObject>, tags: seq<SnapshotId?>,
                                           ids: seq<string>, n: nat, i: string)
    requires |objs| == |tags| == |ids| && n <= |objs|
    requires i in m && forall k :: 0 <= k < n ==> ids[k] != i
    ensures i in Registered(m, objs, tags, ids, n) && Registered(m, objs, tags, ids, n)[i] == m[i]
  {
    if n > 0 {
      RegisteredKeeps(m, objs, tags, ids, n - 1, i);
    }
  }

  /** With distinct fresh ids, each untagged object is registered under its own id. */
  lemma {:induction false} RegisteredNew(m: map<string, GameObject>, objs: seq<GameObject>, tags: seq<SnapshotId?>,
                                         ids: seq<string>, n: nat, k: nat)
    requires |objs| == |tags| == |ids| && n <= |objs|
    requires Distinct(ids)
    requires k < n && tags[k] == null
    ensures ids[k] in Registered(m, objs, tags, ids, n) && Registered(m, objs, tags, ids, n)[ids[k]] == objs[k]
  {
    if k < n - 1 {
      assert Apart(ids, k, n - 1);
      RegisteredNew(m, objs, tags, ids, n - 1, k);
    }
  }

  /**
   * The registered object's tag (GetComponent) destroyed at once
   * (DestroyImmediate): the object loses its tag and the id its entry, and
   * the registry stays coherent.
   */
  method DestroyTagOf(reg: IdRegistry, id: string)
    requires reg.Coherent() && id in reg.idToObj
    modifies {reg.idToObj[id]}`tag, {reg.idToObj[id].tag}`destroyed, reg`idToObj
    ensures reg.Coherent()
    ensures reg.idToObj == old(reg.idToObj) - {id}
    ensures old(reg.idToObj)[id].tag == null && old(reg.idToObj[id].tag).destroyed
  {
    var gameObj := reg.idToObj[id];
    var snapshotId := gameObj.tag;
    DestroyImmediate(snapshotId, reg);
  }

  /**
   * The registry part-way through a deletion that started from `m0`, whose
   * objects then carried the tags `t0` (among `tags0`): it is coherent, what is still
   * registered is as it was, and every object whose id has gone has lost its
   * tag, which was destroyed.
   */
  ghost predicate Unwound(reg: IdRegistry, m0: map<string, GameObject>, t0: map<string, SnapshotId?>,
                          tags0: set<SnapshotId>)
    reads reg, m0.Values, tags0
  {
    && m0.Keys == t0.Keys
    && (forall id :: id in t0 && t0[id] != null ==> t0[id] in tags0)
    && reg.idToObj.Keys <= m0.Keys
    && (forall id :: id in reg.idToObj ==> reg.idToObj[id] == m0[id] && m0[id].tag == t0[id])
    && (forall id :: id in m0 && id !in reg.idToObj ==> m0[id].tag == null && t0[id] != null && t0[id].destroyed)
    && (forall id :: id in reg.idToObj ==> t0[id] != null && t0[id].gameObject == m0[id] && t0[id].id == Some(id))
  }

  /** Destroys the tag of one registered id during a deletion, keeping the registry unwound. */
  method Unregister(reg: IdRegistry, id: string, ghost m0: map<string, GameObject>, ghost t0: map<string, SnapshotId?>,
                    ghost tags0: set<SnapshotId>)
    requires Unwound(reg, m0, t0, tags0) && id in reg.idToObj
    modifies {m0[id]}`tag, {t0[id]}`destroyed, reg`idToObj
    ensures Unwound(reg, m0, t0, tags0)
    ensures reg.idToObj == old(reg.idToObj) - {id}
  {
    forall other | other in m0 && other != id
      ensures m0[other] != m0[id]
    {
      if other in reg.idToObj {
        assert reg.idToObj[other].tag.id == Some(other);
      }
    }
    DestroyTagOf(reg, id);
  }

  /** Registers one component found by the startup scan under its id. */
  method RegisterFound(reg: IdRegistry, c: SnapshotId)
    requires c.id.Some?
    modifies reg`idToObj
    ensures reg.idToObj == old(reg.idToObj)[c.id.value := c.gameObject]
    ensures old(reg.Coherent()) && c.gameObject.tag == c ==> reg.Coherent()
  {
    reg.idToObj := reg.idToObj[c.id.value := c.gameObject];
  }

  class SnapshotsWindow {
    /** The catalog, in creation order (the database's list). */
    var snapshots: seq<Snapshot>
    /** How many snap records in the catalog carry each id. */
    var idToNumSnapshots: map<string, int>

    ghost predicate Valid()
      reads this
    {
      Tallies(snapshots, idToNumSnapshots)
    }

    /** Opening the window on a stored catalog: the counts are recomputed from it. */
    constructor (stored: seq<Snapshot>)
      ensures snapshots == stored
      ensures idToNumSnapshots == Tally(stored)
      ensures Valid()
    {
      snapshots := stored;
      idToNumSnapshots := map[];
      new;
      InitializeSnapshotCounter();
    }

    /** A missing id counts as zero; the id's count goes up by one and no other key changes. */
    method IncrementSnapshotCount(snap: Snap)
      modifies this`idToNumSnapshots
      ensures idToNumSnapshots == Incremented(old(idToNumSnapshots), snap.id)
    {
      var count := CountOf(idToNumSnapshots, snap.id);
      idToNumSnapshots := idToNumSnapshots[snap.id := count + 1];
    }

    /** The id must already be counted; its count goes down by one and no other key changes. */
    method DecrementSnapshotCount(snap: Snap)
      requires snap.id in idToNumSnapshots
      modifies this`idToNumSnapshots
      ensures idToNumSnapshots == Decremented(old(idToNumSnapshots), snap.id)
    {
      idToNumSnapshots := idToNumSnapshots[snap.id := idToNumSnapshots[snap.id] - 1];
    }

    /** Recounts every snap of every snapshot from an empty dictionary. */
    method InitializeSnapshotCounter()
      modifies this`idToNumSnapshots
      ensures idToNumSnapshots == Tally(snapshots)
      ensures Valid()
    {
      idToNumSnapshots := map[];
      for i := 0 to |snapshots|
        invariant idToNumSnapshots == Tally(snapshots[..i])
      {
        var snaps := snapshots[i].snaps;
        for j := 0 to |snaps|
          invariant idToNumSnapshots == TallySnaps(Tally(snapshots[..i]), snaps[..j])
        {
          IncrementSnapshotCount(snaps[j]);
          assert snaps[..j + 1][..j] == snaps[..j];
        }
        assert snaps[..|snaps|] == snaps;
        assert snapshots[..i + 1][..i] == snapshots[..i];
      }
      assert snapshots[..|snapshots|] == snapshots;
    }

    /**
     * Registers every SnapshotId component found in the loaded scenes (the
     * engine's enumeration, in its order) under its id. A component whose id
     * is still null makes the dictionary throw, which ends the scan there.
     */
    method InitializeSnapshotIdMap(reg: IdRegistry, found: seq<SnapshotId>) returns (ok: bool)
      modifies reg`idToObj
      ensures ok <==> forall k :: 0 <= k < |found| ==> found[k].id.Some?
      ensures ok ==> reg.idToObj == RegisterAll(old(reg.idToObj), found)
      ensures !ok ==> exists p :: 0 <= p < |found| && found[p].id.None?
                        && (forall q :: 0 <= q < p ==> found[q].id.Some?)
                        && reg.idToObj == RegisterAll(old(reg.idToObj), found[..p])
      ensures (ok && old(reg.Coherent()) && forall k :: 0 <= k < |found| ==> found[k].gameObject.tag == found[k])
              ==> reg.Coherent()
    {
      ghost var attached := forall k :: 0 <= k < |found| ==> found[k].gameObject.tag == found[k];
      ghost var wasCoherent := reg.Coherent();
      for i := 0 to |found|
        invariant forall q :: 0 <= q < i ==> found[q].id.Some?
        invariant reg.idToObj == RegisterAll(old(reg.idToObj), found[..i])
        invariant attached && wasCoherent ==> reg.Coherent()
      {
        var c := found[i];
        if c.id.None? {
          ok := false;
          return;
        }
        RegisterFound(reg, c);
        assert found[..i + 1][..i] == found[..i];
      }
      assert found[..|found|] == found;
      ok := true;
    }

    /**
     * Uncounts one snap during a deletion (one Step of the walk): decrements
     * its id's count, and at zero destroys the tag of the id's object and
     * removes the count. `stop` reports a missing count or registry entry.
     */
    method ReleaseSnap(reg: IdRegistry, snap: Snap, ghost m0: map<string, GameObject>, ghost t0: map<string, SnapshotId?>,
                       ghost tags0: set<SnapshotId>)
      returns (stop: bool)
      requires Unwound(reg, m0, t0, tags0)
      modifies this`idToNumSnapshots, reg`idToObj, m0.Values`tag, tags0`destroyed
      ensures Release(idToNumSnapshots, reg.idToObj, !stop)
                == Step(Release(old(idToNumSnapshots), old(reg.idToObj), true), snap.id)
      ensures Unwound(reg, m0, t0, tags0)
    {
      if snap.id !in idToNumSnapshots {
        return true;
      }
      DecrementSnapshotCount(snap);
      if idToNumSnapshots[snap.id] == 0 {
        stop := Forget(reg, snap.id, m0, t0, tags0);
      } else {
        stop := false;
      }
    }

    /**
     * The end of an id whose count has reached zero: its object's tag is
     * destroyed (which unregisters it) and its count removed. `stop` reports
     * an id that was not registered, where the lookup throws.
     */
    method Forget(reg: IdRegistry, id: string, ghost m0: map<string, GameObject>, ghost t0: map<string, SnapshotId?>,
                  ghost tags0: set<SnapshotId>)
      returns (stop: bool)
      requires Unwound(reg, m0, t0, tags0)
      modifies this`idToNumSnapshots, reg`idToObj, m0.Values`tag, tags0`destroyed
      ensures stop <==> id !in old(reg.idToObj)
      ensures stop ==> idToNumSnapshots == old(idToNumSnapshots) && reg.idToObj == old(reg.idToObj)
      ensures !stop ==> idToNumSnapshots == old(idToNumSnapshots) - {id} && reg.idToObj == old(reg.idToObj) - {id}
      ensures Unwound(reg, m0, t0, tags0)
    {
      if id !in reg.idToObj {
        return true;
      }
      Unregister(reg, id, m0, t0, tags0);
      idToNumSnapshots := idToNumSnapshots - {id};
      stop := false;
    }

    /** Restores the snaps in order into their resolved transforms. */
    method RestoreEach(reg: IdRegistry, snaps: seq<Snap>, transforms: seq<Transform>)
      requires forall k :: 0 <= k < |snaps| ==> snaps[k].id in reg.idToObj
      requires transforms == Targets(reg, snaps)
      modifies transforms
      ensures forall t :: t in transforms ==> t.Values() == Replayed(snaps, transforms, t, old(t.Values()))
    {
      ghost var before := map t | t in transforms :: t.Values();
      for k := 0 to |snaps|
        invariant forall t :: t in transforms ==> t.Values() == Replayed(snaps[..k], transforms[..k], t, before[t])
      {
        label L:
        assert snaps[k].GetTransform(reg) == transforms[k];
        snaps[k].Restore(reg);
        forall t | t in transforms
          ensures t.Values() == Replayed(snaps[..k + 1], transforms[..k + 1], t, before[t])
        {
          ReplayedNext(snaps, transforms, k, t, before[t]);
          assert t != transforms[k] ==> t.Values() == old@L(t.Values());
        }
      }
      assert snaps[..|snaps|] == snaps;
      assert transforms[..|transforms|] == transforms;
    }

    /**
     * Restores a snapshot: every snap's transform is looked up first (a
     * missing id throws there, before anything is written, and `ok` is
     * false), then the snaps are restored in order, so the last snap aimed at
     * a transform decides its values (see Replayed).
     */
    method RestoreSnapshot(reg: IdRegistry, snapshot: Snapshot) returns (ok: bool)
      modifies set s | s in snapshot.snaps && s.id in reg.idToObj :: reg.idToObj[s.id].transform
      ensures ok <==> forall k :: 0 <= k < |snapshot.snaps| ==> snapshot.snaps[k].id in reg.idToObj
      ensures !ok ==> forall s :: s in snapshot.snaps && s.id in reg.idToObj ==>
                        reg.idToObj[s.id].transform.Values() == old(reg.idToObj[s.id].transform.Values())
      ensures ok ==> forall t :: t in Targets(reg, snapshot.snaps) ==>
                       t.Values() == Replayed(snapshot.snaps, Targets(reg, snapshot.snaps), t, old(t.Values()))
    {
      var snaps := snapshot.snaps;
      if !forall k :: 0 <= k < |snaps| ==> snaps[k].id in reg.idToObj {
        return false;
      }
      var transforms := Targets(reg, snaps);
      RestoreEach(reg, snaps, transforms);
      ok := true;
    }

    /** Uncounts the snaps in turn (the walk Released), stopping at the first missing count or registry entry. */
    method ReleaseSnaps(reg: IdRegistry, snaps: seq<Snap>, ghost m0: map<string, GameObject>,
                        ghost t0: map<string, SnapshotId?>, ghost tags0: set<SnapshotId>)
      returns (ok: bool)
      requires Unwound(reg, m0, t0, tags0)
      modifies this`idToNumSnapshots, reg`idToObj, m0.Values`tag, tags0`destroyed
      ensures Release(idToNumSnapshots, reg.idToObj, ok) == Released(old(idToNumSnapshots), old(reg.idToObj), snaps, |snaps|)
      ensures Unwound(reg, m0, t0, tags0)
    {
      ghost var c0 := idToNumSnapshots;
      ghost var r0 := reg.idToObj;
      ghost var r := Release(idToNumSnapshots, reg.idToObj, true);
      ok := true;
      for j := 0 to |snaps|
        invariant r == Released(c0, r0, snaps, j) && r.ok
        invariant idToNumSnapshots == r.counts && reg.idToObj == r.registry
        invariant Unwound(reg, m0, t0, tags0)
      {
        r := Step(r, snaps[j].id);
        var stop := ReleaseSnap(reg, snaps[j], m0, t0, tags0);
        if stop {
          ok := false;
          ReleasedStops(c0, r0, snaps, j + 1, |snaps|);
          return;
        }
      }
    }

    /**
     * Deletes a snapshot: it leaves the catalog (List.Remove: the first equal
     * one, if any), then each of its snaps is uncounted in turn (see
     * Released); an id whose count reaches zero has its object's tag
     * destroyed, which also unregisters the id, and its count removed. A
     * count or registry entry that is missing throws in the source; the walk
     * stops there with `ok` false, keeping what it has done.
     */
    method DeleteSnapshot(reg: IdRegistry, snapshot: Snapshot) returns (ok: bool)
      requires reg.Coherent()
      modifies this`snapshots, this`idToNumSnapshots, reg`idToObj, reg.idToObj.Values`tag, reg.Tags()`destroyed
      ensures snapshots == if snapshot in old(snapshots) then Without(old(snapshots), snapshot) else old(snapshots)
      ensures Release(idToNumSnapshots, reg.idToObj, ok)
                == Released(old(idToNumSnapshots), old(reg.idToObj), snapshot.snaps, |snapshot.snaps|)
      ensures reg.Coherent()
      ensures forall id :: id in reg.idToObj ==>
                id in old(reg.idToObj) && reg.idToObj[id] == old(reg.idToObj)[id] && reg.idToObj[id].tag == old(reg.idToObj[id].tag)
      ensures forall id :: id in old(reg.idToObj) && id !in reg.idToObj ==>
                old(reg.idToObj)[id].tag == null && old(reg.idToObj[id].tag).destroyed
      ensures old(Valid()) && snapshot in old(snapshots) ==>
                && (ok <==> Dropped(old(snapshots), snapshot) <= old(reg.idToObj).Keys)
                && (ok ==> Valid() && reg.idToObj == old(reg.idToObj) - Dropped(old(snapshots), snapshot))
    {
      ghost var m0 := reg.idToObj;
      ghost var t0 := map id | id in m0 :: m0[id].tag;
      ghost var tags0 := reg.Tags();
      if snapshot in snapshots {
        snapshots := Without(snapshots, snapshot);
      }
      ok := ReleaseSnaps(reg, snapshot.snaps, m0, t0, tags0);
      assert reg.Coherent();
      if old(Valid()) && snapshot in old(snapshots) {
        DeleteReleases(old(snapshots), old(idToNumSnapshots), m0, snapshot);
      }
    }

    /**
     * Creates a snapshot of the selection. An empty selection changes nothing.
     * Otherwise the snapshot, titled from the raw text, holds one snap per
     * selected object (see CaptureSelection) and is appended to the catalog.
     */
    method CreateSnapshot(reg: IdRegistry, selected: seq<GameObject>, titleRaw: Option<string>, newIds: seq<string>)
      requires |newIds| == |selected|
      requires Distinct(selected)
      requires Distinct(newIds)
      requires forall i :: 0 <= i < |newIds| ==> newIds[i] !in reg.idToObj
      requires forall i :: 0 <= i < |selected| && selected[i].tag != null ==> selected[i].tag.id.Some?
      requires reg.Coherent()
      modifies this`snapshots, this`idToNumSnapshots, reg`idToObj, selected`tag
      ensures reg.Coherent()
      ensures old(Valid()) ==> Valid()
      ensures selected == [] ==>
                && snapshots == old(snapshots)
                && idToNumSnapshots == old(idToNumSnapshots)
                && reg.idToObj == old(reg.idToObj)
      ensures selected != [] ==>
                && |snapshots| == |old(snapshots)| + 1
                && snapshots[..|old(snapshots)|] == old(snapshots)
                && snapshots[|old(snapshots)|].title == TitleFor(titleRaw)
                && |snapshots[|old(snapshots)|].snaps| == |selected|
                && idToNumSnapshots == TallySnaps(old(idToNumSnapshots), snapshots[|old(snapshots)|].snaps)
                && Captured(selected, old(TagsOf(selected)), old(PosesOf(selected)), newIds, snapshots[|old(snapshots)|].snaps)
                && reg.idToObj == Registered(old(reg.idToObj), selected, old(TagsOf(selected)), newIds, |selected|)
    {
      if |selected| == 0 {
        return;
      }
      var title := TitleFor(titleRaw);
      var snaps := CaptureSelection(reg, selected, newIds);
      var snapshot := Snapshot(title, snaps);
      if old(Valid()) {
        AppendTallies(old(snapshots), old(idToNumSnapshots), snapshot);
      }
      AddSnapshot(snapshot);
    }

    /** Appends a snapshot to the catalog (List.Add). */
    method AddSnapshot(snapshot: Snapshot)
      modifies this`snapshots
      ensures snapshots == old(snapshots) + [snapshot]
    {
      snapshots := snapshots + [snapshot];
    }

    /**
     * What a captured snap list says about the selection, object by object,
     * given the tags and transform values the objects had before: the k-th
     * snap records the k-th object's values and carries the id of the tag the
     * object now has; a tag the object had is kept, and an untagged object now
     * carries a tag of its own whose id is `newIds[k]`.
     */
    ghost predicate Captured(selected: seq<GameObject>, tags: seq<SnapshotId?>, poses: seq<Pose>,
                             newIds: seq<string>, snaps: seq<Snap>)
      reads selected, set o | o in selected && o.tag != null :: o.tag
      requires |snaps| == |selected| == |tags| == |poses| == |newIds|
    {
      forall k :: 0 <= k < |selected| ==>
        && selected[k].tag != null
        && selected[k].tag.id == Some(snaps[k].id)
        && snaps[k].Recorded() == poses[k]
        && (tags[k] != null ==> selected[k].tag == tags[k])
        && (tags[k] == null ==> selected[k].tag.gameObject == selected[k] && snaps[k].id == newIds[k])
    }

    /**
     * The loop over the selection: tag each object if untagged, capture it,
     * and count its id. The registry gains the fresh ids of the objects that
     * were untagged (see Registered).
     */
    method CaptureSelection(reg: IdRegistry, selected: seq<GameObject>, newIds: seq<string>) returns (snaps: seq<Snap>)
      requires |newIds| == |selected|
      requires Distinct(selected)
      requires Distinct(newIds)
      requires forall i :: 0 <= i < |newIds| ==> newIds[i] !in reg.idToObj
      requires forall i :: 0 <= i < |selected| && selected[i].tag != null ==> selected[i].tag.id.Some?
      requires reg.Coherent()
      modifies this`idToNumSnapshots, reg`idToObj, selected`tag
      ensures |snaps| == |selected|
      ensures reg.Coherent()
      ensures idToNumSnapshots == TallySnaps(old(idToNumSnapshots), snaps)
      ensures Captured(selected, old(TagsOf(selected)), old(PosesOf(selected)), newIds, snaps)
      ensures reg.idToObj == Registered(old(reg.idToObj), selected, old(TagsOf(selected)), newIds, |selected|)
    {
      ghost var m0 := reg.idToObj;
      ghost var oldTags := TagsOf(selected);
      ghost var poses := PosesOf(selected);
      snaps := [];
      for i := 0 to |selected|
        invariant |snaps| == i
        invariant Tagged(reg, selected, m0, oldTags, poses, newIds, snaps)
        invariant idToNumSnapshots == TallySnaps(old(idToNumSnapshots), snaps)
        invariant PosesOf(selected) == poses
      {
        var snap := CaptureNext(reg, selected, newIds, i, m0, oldTags, poses, snaps);
        snaps := snaps + [snap];
        assert snaps[..i] == snaps[..|snaps| - 1];
      }
    }

    /** Captures the `i`-th selected object (see CaptureObject), keeping the capture loop's bookkeeping. */
    method CaptureNext(reg: IdRegistry, selected: seq<GameObject>, newIds: seq<string>, i: nat,
                       ghost m0: map<string, GameObject>, ghost tags: seq<SnapshotId?>, ghost poses: seq<Pose>,
                       ghost done: seq<Snap>)
      returns (snap: Snap)
      requires |tags| == |selected| == |newIds| && i == |done| < |selected|
      requires poses == PosesOf(selected)
      requires Distinct(selected) && Distinct(newIds)
      requires forall k :: 0 <= k < |newIds| ==> newIds[k] !in m0
      requires forall k :: 0 <= k < |selected| && tags[k] != null ==> tags[k].id.Some?
      requires Tagged(reg, selected, m0, tags, poses, newIds, done)
      modifies this`idToNumSnapshots, reg`idToObj, {selected[i]}`tag
      ensures Tagged(reg, selected, m0, tags, poses, newIds, done + [snap])
      ensures PosesOf(selected) == poses
      ensures idToNumSnapshots == Incremented(old(idToNumSnapshots), snap.id)
    {
      DistinctAt(selected, i);
      DistinctAt(newIds, i);
      RegisteredFresh(m0, selected, tags, newIds, i, newIds[i]);
      ghost var uniqueId;
      snap, uniqueId := CaptureObject(reg, selected[i], newIds[i]);
    }

    /** One step of the loop over the selection: tag the object if needed, capture it, count its id. */
    method CaptureObject(reg: IdRegistry, obj: GameObject, newId: string) returns (snap: Snap, ghost uniqueId: SnapshotId)
      requires newId !in reg.idToObj
      requires obj.tag != null ==> obj.tag.id.Some?
      requires reg.Coherent()
      modifies this`idToNumSnapshots, obj`tag, reg`idToObj
      ensures reg.Coherent()
      ensures fresh(snap) && snap.Recorded() == obj.transform.Values()
      ensures obj.tag == uniqueId && uniqueId.id == Some(snap.id)
      ensures idToNumSnapshots == Incremented(old(idToNumSnapshots), snap.id)
      ensures old(obj.tag) != null ==> uniqueId == old(obj.tag) && reg.idToObj == old(reg.idToObj)
      ensures old(obj.tag) == null ==> fresh(uniqueId) && snap.id == newId && reg.idToObj == old(reg.idToObj)[newId := obj]
    {
      var c := GetOrAddComponent(obj, reg, newId);
      uniqueId := c;
      snap := new Snap(c.id.value, obj.transform);
      IncrementSnapshotCount(snap);
    }
  }
}
