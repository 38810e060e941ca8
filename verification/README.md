# Snapshots: a Dafny model

The snapshots tool is a Unity editor extension that saves the position,
rotation and scale of the selected scene objects under a title, and puts them
back on request. This project models its core in Dafny and proves properties
of that model. The core consists of the following parts.

- **SnapshotId** (`snapshot_id.dfy`, module `Identity`). A component that tags
  a scene object with a persistent string id. A process-wide dictionary
  (`idToObj`) maps each id to the object that carries it. Awake assigns or
  registers the id, and OnDestroy unregisters it. The static dictionary is an
  `IdRegistry` object that each operation receives as a parameter.
- **Snap** (`snap.dfy`, module `Snaps`). One captured transform: an object id
  and three recorded values. It can write them back into the object that is
  registered under the id.
- **Snapshot** (`snapshot.dfy`, module `Snapshots`). A title, a list of snaps,
  and a one-line description.
- **SnapshotsWindow** (`snapshots_window.dfy`, module `Window`). The catalog of
  snapshots and a reference count per id (`idToNumSnapshots`), with these
  operations:
  - Create captures the selection.
  - Delete uncounts a snapshot's snaps. When an id's count reaches zero, it
    destroys that object's SnapshotId, which also unregisters the id.
  - Restore writes a snapshot's snaps back, in order.
  - Start-up rebuilds the registry and recounts the catalog.
- Two value-level modules specify the window's bookkeeping.
  - `Counting` (`counting.dfy`): the counts as a function of the catalog, and
    the invariant `Tallies`, which says every key's count equals the number of
    snaps in the catalog that carry it.
  - `Deletion` (`deletion.dfy`): the deletion walk as a fold (`Released`) and
    what it achieves (`DeleteReleases`).
- `engine.dfy` (module `Engine`) holds the transform state that the tool reads
  and writes.
- `optional.dfy` holds an `Option` type that stands for C#'s null.

Entities the source mutates in place are classes, and their operations are
methods with `modifies` clauses. Each method is proved against a value-level
function (`Incremented`, `Tally`, `Released`, `Registered`, `Replayed`,
`AfterAwake`, `RegisterAll`), and the properties of those functions are
lemmas.

The model has no exceptions. Where the source throws, the method returns
`ok == false`, or the case is excluded by a `requires`, as listed below. Five
places can throw in the source:
- a missing key in DeleteSnapshot (Editor/SnapshotsWindow.cs:63, 66);
- a missing key in RestoreSnapshot (Editor/SnapshotsWindow.cs:211);
- a null id in InitializeSnapshotIdMap (Editor/SnapshotsWindow.cs:205);
- `Remove(null)` in OnDestroy of a component without an id (SnapshotId.cs:33);
- `TryGetValue(null)` in IncrementSnapshotCount (Editor/SnapshotsWindow.cs:239),
  when a selected object's tag has no id.

In the first three, the model's method returns `ok == false`, and its contract
states exactly what had already changed when the source would have thrown.
The fourth changes nothing in the model (AfterDestroy of a null id), as in the
source, where the throw comes before any change. The fifth is excluded: a tag
always has an id once Awake has run, so CreateSnapshot requires that every tag
already present has one (see "## Left out").

## Model

| member | source | states |
|---|---|---|
| Identity.SnapshotId.constructor | SnapshotId.cs:10-11 | A newly added component is on its object, has a null id and is not destroyed. |
| Identity.IdRegistry.constructor | SnapshotId.cs:8 | The registry starts empty. |
| Identity.AfterAwake | SnapshotId.cs:13-29 | Three cases. A component without an id registers its fresh id to its object. A component whose id is not registered yet registers it to its object. A component whose id is already registered is destroyed, and the id loses its entry even when another object owns it. In every case, every other key keeps its object. |
| Identity.SnapshotId.Awake | SnapshotId.cs:13-29 | The registry becomes AfterAwake of the old registry. The component's id is its old id, or the fresh one if it had none. The component is destroyed and detached exactly when its id was already registered. In all three branches, waking keeps the registry coherent (every registered object carries a tag whose id is its key). |
| Identity.AfterDestroy | SnapshotId.cs:31-34 | OnDestroy removes the component's id whoever owns it, and leaves the other keys unchanged. A null id changes nothing, because the source throws before any change. |
| Identity.SnapshotId.OnDestroy | SnapshotId.cs:31-34 | The registry becomes AfterDestroy of the old registry. |
| Identity.SnapshotId.Detach | SnapshotId.cs:22 | A destroyed component is marked destroyed and is no longer its object's tag. |
| Identity.DestroyImmediate | Editor/SnapshotsWindow.cs:68 | Destroying a component detaches it and runs OnDestroy. Destroying the registered owner's own tag keeps the registry coherent. |
| Identity.GetOrAddComponent | Editor/SnapshotsWindow.cs:86-90 | An object's existing tag is returned, and the registry is unchanged. An untagged object gets a fresh component, already awake, with id `newId`, and the registry gains exactly `newId` mapped to that object. A coherent registry stays coherent. |
| Identity.RegisterAll | Editor/SnapshotsWindow.cs:200-207 | The registry after the start-up scan, each found component written in order. No previous id is lost, and every found id is registered. RegisterAllKeys, RegisterAllLastWins and RegisterAllKeepsOthers characterise it exactly. |
| Identity.RegisterAllKeys | Editor/SnapshotsWindow.cs:200-207 | After the start-up scan, the registered ids are exactly the previous ids plus the ids of the components found. |
| Identity.RegisterAllLastWins | Editor/SnapshotsWindow.cs:200-207 | When several components found share an id, the last one found owns it. |
| Identity.RegisterAllKeepsOthers | Editor/SnapshotsWindow.cs:200-207 | An id that no component found carries keeps its previous owner. |
| Snaps.Snap.constructor | Editor/Snap.cs:11-17 | A snap records the id verbatim, plus the transform's position, rotation and scale at capture time. |
| Snaps.Snap.Restore | Editor/Snap.cs:19-26 | Afterwards that transform holds exactly the recorded values, and nothing else is written. |
| Snaps.CaptureEditRestore | Editor/Snap.cs:11-26 | Capture, then any edit, then restore puts the object back to its values at capture time. |
| Snapshots.Snapshot.ToString | Editor/Snapshot.cs:15-18 | The text is `[Snapshot] `, then the title, then ` -- # Snaps: `, then exactly NatToDecimal of the number of snaps: the unpadded numeral, which reads back as the count. |
| Snapshots.NatToDecimal | Editor/Snapshot.cs:17 | A count's text is a nonempty string of digits with no leading zero. |
| Snapshots.DecimalRoundTrip | Editor/Snapshot.cs:17 | Reading a count's decimal text gives the count back. |
| Counting.Incremented | Editor/SnapshotsWindow.cs:237-241 | A missing id counts as zero, the id then holds one more, and every other key keeps its count. |
| Counting.Decremented | Editor/SnapshotsWindow.cs:243-246 | A counted id holds one less afterwards. No key is added or removed, and every other key keeps its count. |
| Counting.IndexOf | Editor/SnapshotsWindow.cs:57 | The position of the first snapshot equal to the given one. |
| Counting.Without | Editor/SnapshotsWindow.cs:57 | List.Remove shortens the catalog by one, and the catalog is the result plus exactly one copy of the removed snapshot (as multisets). The occurrence taken out is the first one (IndexOf), and every other snapshot keeps its relative order. |
| Counting.WithoutOccurrences | Editor/SnapshotsWindow.cs:57 | Removing a snapshot from the catalog removes exactly its own snaps from every id's number of occurrences. |
| Counting.TallySnaps | Editor/SnapshotsWindow.cs:230-233 | The counts after incrementing once per snap, in order. No key is lost; TallySnapsCounts gives each id's exact count. |
| Counting.TallySnapsCounts | Editor/SnapshotsWindow.cs:230-233 | Counting a run of snaps adds to each id the number of those snaps that carry it. The id is a key afterwards exactly when it was before or some snap carries it. |
| Counting.Tally | Editor/SnapshotsWindow.cs:225-235 | The recount of the whole catalog. It meets the counting invariant: an id is a key exactly when some snap in the catalog carries it, and its count is the number of such snaps, as Occurrences counts independently. |
| Counting.AppendTallies | Editor/SnapshotsWindow.cs:93-97 | Appending a snapshot and counting its snaps keeps the counts tallying the catalog. |
| Counting.TalliesUnique | Editor/SnapshotsWindow.cs:225-235 | Counts that tally a catalog are unique: the counts the window maintains equal a recount. |
| Deletion.Step | Editor/SnapshotsWindow.cs:63-69 | One pass of the deletion loop for one snap. It continues only from a running walk with the id counted. It never adds a key to the counts or the registry, and it leaves every other id's count and entry as they were. |
| Deletion.Released | Editor/SnapshotsWindow.cs:61-71 | The deletion loop over the first `n` snaps, stopping at the first throw. The registry only loses entries, keeps the objects of those it keeps, and keeps every id that none of those snaps carries. ReleasedStops, ReleasedSteps and DeleteReleases characterise it. |
| Deletion.Dropped | Editor/SnapshotsWindow.cs:61-71 | An id is dropped by a deletion exactly when the deleted snapshot carries it and no other snapshot in the catalog does. |
| Deletion.ReleasedStops | Editor/SnapshotsWindow.cs:61-71 | Once the deletion walk has stopped on a missing key, the later snaps change nothing. |
| Deletion.GoneStep | Editor/SnapshotsWindow.cs:61-71 | One step of the walk releases its snap's id exactly when no other snapshot and no later snap carries it, and releases nothing else. |
| Deletion.OwesStep | Editor/SnapshotsWindow.cs:63-69 | Decrementing a snap's count, and removing the key when the count reaches zero, keeps the counts equal to what the remaining catalog and the remaining snaps carry. |
| Deletion.ReleasedSteps | Editor/SnapshotsWindow.cs:61-71 | After each step, the walk is still running exactly when every id released so far was registered. While it runs, the counts are those still owed and the registry has lost exactly the released ids. |
| Deletion.DeleteReleases | Editor/SnapshotsWindow.cs:55-72 | Deleting a snapshot from counts that tally the catalog completes exactly when every dropped id is registered. In that case the counts tally the catalog without the snapshot, and the registry has lost exactly the dropped ids. |
| Window.TitleFor | Editor/SnapshotsWindow.cs:80-81 | The title is never empty. It is the raw text when that is non-empty, and "Untitled" exactly when the raw text is null, empty, or "Untitled" itself. |
| Window.Targets | Editor/SnapshotsWindow.cs:211 | The Select of GetTransform over the snaps: the transform of each snap's registered object, one per snap, in order. It needs every id registered, because the indexer throws otherwise. |
| Window.Replayed | Editor/SnapshotsWindow.cs:213-216 | A transform's values after the snaps are written in order. A transform no snap is aimed at keeps its old values; otherwise it holds the old values or the recorded values of some snap aimed at it. ReplayedLastWins pins down which one. |
| Window.ReplayedLastWins | Editor/SnapshotsWindow.cs:213-216 | After a restore, a transform holds the values of the last snap aimed at it. |
| Window.ReplayedIdempotent | Editor/SnapshotsWindow.cs:213-216 | Restoring a snapshot twice in succession gives every transform the same values as restoring it once. |
| Window.ReplayedRoundTrip | Editor/SnapshotsWindow.cs:209-217 | Suppose every snap recorded its target's values at one moment. Then restoring puts every target back to those values, whatever happened in between. |
| Window.Registered | Editor/SnapshotsWindow.cs:84-95 | The registry after the first `n` selected objects are tagged. No old id is lost; RegisteredKeys, RegisteredFresh, RegisteredKeeps and RegisteredNew characterise it. |
| Window.RegisteredKeys | Editor/SnapshotsWindow.cs:84-95 | Capturing the selection registers exactly the old ids plus the fresh ids of the objects that had no tag. |
| Window.RegisteredFresh | Editor/SnapshotsWindow.cs:84-95 | An id that was unregistered and is none of the fresh ids stays unregistered. |
| Window.RegisteredKeeps | Editor/SnapshotsWindow.cs:84-95 | A registered id that is none of the fresh ids keeps its object. |
| Window.RegisteredNew | Editor/SnapshotsWindow.cs:86-90 | When the fresh ids are distinct, each untagged object ends up registered under its own fresh id. |
| Window.DestroyTagOf | Editor/SnapshotsWindow.cs:66-68 | Looking up an id's object and destroying its tag removes the id from the registry. The object loses its tag, the tag is marked destroyed, and the registry stays coherent. |
| Window.Unregister | Editor/SnapshotsWindow.cs:66-68 | The same step in the middle of a deletion. The id leaves the registry, and everything still registered, with its tag, is as it was before the deletion. |
| Window.RegisterFound | Editor/SnapshotsWindow.cs:205 | The found component's id is mapped to its object. Coherence is kept when the component is its object's tag. |
| Window.SnapshotsWindow.constructor | Editor/SnapshotsWindow.cs:28-32 | On opening, the catalog is the stored one and the counts are its recount, so the counting invariant holds. |
| Window.SnapshotsWindow.IncrementSnapshotCount | Editor/SnapshotsWindow.cs:237-241 | The dictionary becomes Incremented of the old one. |
| Window.SnapshotsWindow.DecrementSnapshotCount | Editor/SnapshotsWindow.cs:243-246 | The dictionary becomes Decremented of the old one. It needs the id to be present, because the indexer throws otherwise. |
| Window.SnapshotsWindow.InitializeSnapshotCounter | Editor/SnapshotsWindow.cs:225-235 | The nested loop leaves the counts equal to the recount Tally of the catalog, so the counting invariant holds. |
| Window.SnapshotsWindow.InitializeSnapshotIdMap | Editor/SnapshotsWindow.cs:200-207 | The scan completes exactly when every component found has an id, and then the registry is RegisterAll of the components found. Otherwise it stops at the first null id, with the components before it registered. A complete scan of attached tags keeps coherence. |
| Window.SnapshotsWindow.ReleaseSnap | Editor/SnapshotsWindow.cs:61-71 | Handling one snap of a deletion performs one Step of the walk on the counts and the registry, and keeps the deletion's frame facts. |
| Window.SnapshotsWindow.Forget | Editor/SnapshotsWindow.cs:64-70 | At zero, it stops exactly when the id is unregistered (the lookup throws), and then nothing has changed. Otherwise the id leaves both the counts and the registry. |
| Window.SnapshotsWindow.RestoreEach | Editor/SnapshotsWindow.cs:213-216 | After the loop over the snaps, each resolved transform holds the values Replayed gives from its old values: those of the last snap aimed at it. |
| Window.SnapshotsWindow.RestoreSnapshot | Editor/SnapshotsWindow.cs:209-217 | The restore completes exactly when every snap's id is registered. If one is not, the lookup throws before the loop and no transform is written. Otherwise every target transform holds the Replayed values, so the last snap aimed at it wins and the restore is idempotent. |
| Window.SnapshotsWindow.ReleaseSnaps | Editor/SnapshotsWindow.cs:61-71 | The loop leaves the counts and the registry as the walk Released over all the snaps, including where it stops. |
| Window.SnapshotsWindow.DeleteSnapshot | Editor/SnapshotsWindow.cs:55-72 | The catalog loses the first equal snapshot, if any. The counts and the registry follow Released. Surviving entries, and their tags, are unchanged. Every removed id's object has lost its tag, and that tag is destroyed. From a valid window, the deletion completes exactly when every dropped id is registered, and then the counts again tally the catalog and the registry has lost exactly the dropped ids. |
| Window.SnapshotsWindow.CreateSnapshot | Editor/SnapshotsWindow.cs:74-100 | An empty selection changes nothing. Otherwise the catalog gains, at its end, one snapshot titled by TitleFor with one snap per selected object, and the counts add those snaps. The counting invariant and coherence are kept. The registry gains exactly the fresh ids of the untagged objects. |
| Window.SnapshotsWindow.AddSnapshot | Editor/SnapshotsWindow.cs:97 | The catalog gains the snapshot at its end. |
| Window.SnapshotsWindow.CaptureSelection | Editor/SnapshotsWindow.cs:83-95 | There is one snap per selected object, in order. Each records the object's values at capture time and carries the id of the tag the object now has. A tagged object keeps its tag, and an untagged one gets its own tag with its fresh id. The counts are incremented once per snap. |
| Window.SnapshotsWindow.CaptureNext | Editor/SnapshotsWindow.cs:84-95 | One pass of that loop extends what has been captured by the next object's snap, and leaves the other objects' tags and all transforms alone. |
| Window.SnapshotsWindow.CaptureObject | Editor/SnapshotsWindow.cs:86-94 | The snap is new and records the object's current values. Its id is that of the object's tag, which is either the tag it had (registry unchanged) or a fresh one with id `newId` (registry gains `newId`). The id's count goes up by one. |

## Left out

- The window's widgets are not modelled: OnEnable's UI set-up, the detail panels, selection info and toggles (Editor/SnapshotsWindow.cs:21-26, 33-52, 102-198), and the UI calls inside Create and Delete (59, 99). They only display state.
- OnEnable itself is not one member. Its two bookkeeping calls are `InitializeSnapshotIdMap` and the window constructor, which runs `InitializeSnapshotCounter`. Loading the database asset (31) becomes the constructor's `stored` parameter.
- SyncDatabase (219-223) and the SnapshotDatabase asset are not modelled. They are persistence, i.e. I/O.
- Undo.RecordObjects (212) is not modelled. It is the editor's undo history, and it changes no value the tool reads.
- Snap.ToString (Editor/Snap.cs:33-37) is not modelled. It formats floating-point vectors and converts a quaternion to Euler angles, and neither has an exact model over reals.
- Vector and rotation components are `real`. The tool only copies them between a snap and a transform, and the model treats that copy as exact. For an object with a parent, the engine converts the world position and rotation through the parent's transform in both directions, and that float rounding is not modelled.
- The scene hierarchy is not modelled. Each transform is an independent record. The engine derives a child's world position and rotation (the values Editor/Snap.cs:14-15 and 23-24 read and write) from its parent's transform.
- Window.SnapshotsWindow.RestoreSnapshot: its ensures (each target holds the Replayed values) hold only when no restored target is an ancestor of a target restored before it. Suppose the snaps are a child and then its moved parent. Restoring the parent afterwards drags the child away from its recorded values. The engine also moves the non-target descendants of every restored target in the world, although the method's `modifies` frame names only the targets. The model captures neither effect.
- Window.Replayed: "a transform no snap is aimed at keeps its old values" holds only for independent transforms. In the engine, restoring a target also moves its descendants in the world, including those no snap is aimed at. The values it gives each target hold only when no restored target is an ancestor of a target restored before it.
- Window.ReplayedLastWins: a target ends with the values of the last snap aimed at it only when no restored target is an ancestor of a target restored before it. With snaps [child, moved parent], the parent's restore drags the child away from its snap's values.
- Window.ReplayedIdempotent: idempotence holds only when no restored target is an ancestor of a target restored before it. With snaps [child, moved parent], the first restore leaves the child displaced by the parent's move, and a second restore puts it back at its recorded values, so restoring twice differs from restoring once.
- Window.SnapshotsWindow.RestoreEach: its ensures (each resolved transform holds the Replayed values) hold only when no restored target is an ancestor of a target restored before it, for the reason given under ReplayedLastWins.
- Window.ReplayedRoundTrip: the round trip is a property of independent transforms. In the engine it holds only when no target is an ancestor of a target restored before it, for the reason above.
- Counting.Incremented: the counts are C# `int` (Editor/SnapshotsWindow.cs:11, 240), which wraps at 2^31. The model uses unbounded integers. A count only reaches 2^31 with that many snaps carrying one id.
- NewId (SnapshotId.cs:36) draws a random GUID. Callers pass it in as `newId` or `newIds`. Those values are required to be unregistered and distinct, which stands for GUID uniqueness.
- Resources.FindObjectsOfTypeAll (202) is the `found` parameter, in the engine's order. Selection.gameObjects (76) is the `selected` parameter. The model requires `selected` to have no repeats, as Unity's selection has none.
- The editor attributes (`ExecuteInEditMode`, `ReadonlyInInspector`, `System.Serializable`) are not modelled. They only affect the inspector and serialization.
- Each object carries at most one SnapshotId (the `tag` field). GetComponent returns that one. An object with two SnapshotId components is not modelled.
- Snapshot is a value (a datatype), so List.Remove (57) compares snapshots by contents. The source compares them by reference, and two distinct snapshots with equal titles and the same snap objects would be told apart there. Sharing of the `snaps` list between a snapshot and its creator (Editor/Snapshot.cs:9-13) is not modelled either.
- Identity.SnapshotId.Awake: it requires the component to be its object's tag and not destroyed, as the engine guarantees when it wakes a component.
- Window.SnapshotsWindow.DeleteSnapshot: it requires a coherent registry. That is the world invariant every other operation keeps, and it stands in for the engine's guarantee that GetComponent finds the component that registered the id.
- Window.SnapshotsWindow.CreateSnapshot: it requires a coherent registry, and it requires that tags already present have an id (Awake gives every tag one). Its ensures does not state that the new snaps are fresh objects; only CaptureObject states that.
- Identity.GetOrAddComponent: AddComponent (Editor/SnapshotsWindow.cs:89) is modelled as running Awake at once, which the engine does only for an active object. Every selected object is assumed active. For an inactive one, Awake is deferred, the new tag's id is still null at line 92, and `TryGetValue(null)` at line 239 throws.
- Window.SnapshotsWindow.CreateSnapshot: it assumes every selected object is active (see GetOrAddComponent). With an inactive untagged object the source throws after counting the earlier snaps and before appending the snapshot, which leaves the counts out of step with the catalog. The model does not capture that case.
