/**
 * What deleting a snapshot does to the reference counts and to the identity
 * registry (DeleteSnapshot in SnapshotsWindow.cs), as values: each of the
 * deleted snapshot's snaps is uncounted in turn, and an id whose count
 * reaches zero loses its tag and its registry entry. Reading a missing key
 * throws in the source; here it ends the walk with `ok` false.
 */
module Deletion {
  import opened Identity
  import opened Snaps
  import opened Snapshots
  import opened Counting

  /** The ids whose count a deletion takes to zero: carried by the deleted snapshot and by no other. */
  function Dropped(catalog: seq<Snapshot>, s: Snapshot): (ids: set<string>)
    requires s in catalog
    ensures forall id :: id in ids <==> SnapsWith(s.snaps, id) > 0 && Occurrences(Without(catalog, s), id) == 0
  {
    var ids := set k | 0 <= k < |s.snaps| && Occurrences(Without(catalog, s), s.snaps[k].id) == 0 :: s.snaps[k].id;
    assert forall id :: SnapsWith(s.snaps, id) > 0 <==> exists k :: 0 <= k < |s.snaps| && s.snaps[k].id == id by {
      forall id ensures SnapsWith(s.snaps, id) > 0 <==> exists k :: 0 <= k < |s.snaps| && s.snaps[k].id == id {
        SnapsWithPositive(s.snaps, id);
      }
    }
    ids
  }

  /** The dropped ids none of whose snaps lies at or after position `n`: those released by the first `n` steps. */
  ghost function Gone(catalog: seq<Snapshot>, s: Snapshot, n: nat): set<string>
    requires s in catalog && n <= |s.snaps|
  {
    set id | id in Dropped(catalog, s) && SnapsWith(s.snaps[n..], id) == 0
  }

  /**
   * Counts still owed during the walk: an id is a key exactly when the
   * remaining catalog or the snaps not yet uncounted carry it, and its count
   * is the number of those snaps.
   */
  ghost predicate Owes(rest: seq<Snapshot>, pending: seq<Snap>, counts: map<string, int>)
  {
    && (forall id :: id in counts <==> Occurrences(rest, id) + SnapsWith(pending, id) > 0)
    && (forall id :: id in counts ==> counts[id] == Occurrences(rest, id) + SnapsWith(pending, id))
  }

  /** The counts and the registry part-way through the walk, and whether it is still running. */
  datatype Release = Release(counts: map<string, int>, registry: map<string, GameObject>, ok: bool)

  /**
   * One step of the walk, for a snap carrying `id`: decrement its count (a
   * missing key stops the walk); at zero, the id must be registered
   * (otherwise the walk stops), and then both the registry entry and the
   * count go. A stopped walk stays as it is.
   */
  function Step(r: Release, id: string): (next: Release)
    ensures next.ok ==> r.ok && id in r.counts
    ensures next.registry.Keys <= r.registry.Keys && next.counts.Keys <= r.counts.Keys
    ensures forall k :: k in next.registry ==> next.registry[k] == r.registry[k]
    ensures forall k :: k in r.registry && k != id ==> k in next.registry
    ensures forall k :: k in r.counts && k != id ==> k in next.counts && next.counts[k] == r.counts[k]
  {
    if !r.ok then r
    else if id !in r.counts then Release(r.counts, r.registry, false)
    else if r.counts[id] - 1 != 0 then Release(Decremented(r.counts, id), r.registry, true)
    else if id !in r.registry then Release(Decremented(r.counts, id), r.registry, false)
    else Release(Decremented(r.counts, id) - {id}, r.registry - {id}, true)
  }

  /** The walk over the first `n` snaps. */
  function Released(counts: map<string, int>, registry: map<string, GameObject>, snaps: seq<Snap>, n: nat)
    : (r: Release)
    requires n <= |snaps|
    ensures r.registry.Keys <= registry.Keys
    ensures forall k :: k in r.registry ==> r.registry[k] == registry[k]
    ensures forall k :: k in registry && (forall j :: 0 <= j < n ==> snaps[j].id != k) ==> k in r.registry
  {
    if n == 0 then Release(counts, registry, true)
    else Step(Released(counts, registry, snaps, n - 1), snaps[n - 1].id)
  }

  /** Once the walk has stopped, later snaps change nothing. */
  lemma {:induction false} ReleasedStops(counts: map<string, int>, registry: map<string, GameObject>, snaps: seq<Snap>,
                                         j: nat, n: nat)
    requires j <= n <= |snaps|
    requires !Released(counts, registry, snaps, j).ok
    ensures Released(counts, registry, snaps, n) == Released(counts, registry, snaps, j)
    decreases n
  {
    if n > j {
      ReleasedStops(counts, registry, snaps, j, n - 1);
    }
  }

  /** Before the walk nothing is released. */
  lemma GoneNone(catalog: seq<Snapshot>, s: Snapshot)
    requires s in catalog
    ensures Gone(catalog, s, 0) == {}
  {
    assert s.snaps[0..] == s.snaps;
  }

  /** After the whole walk every dropped id is released. */
  lemma GoneAll(catalog: seq<Snapshot>, s: Snapshot)
    requires s in catalog
    ensures Gone(catalog, s, |s.snaps|) == Dropped(catalog, s)
  {
    assert s.snaps[|s.snaps|..] == [];
  }

  /** Membership in the released set, one id at a time: see GoneStep. */
  lemma GoneMember(catalog: seq<Snapshot>, s: Snapshot, n: nat, x: string)
    requires s in catalog && 0 < n <= |s.snaps|
    ensures s.snaps[n - 1].id !in Gone(catalog, s, n - 1)
    ensures x in Gone(catalog, s, n) <==>
              || x in Gone(catalog, s, n - 1)
              || (x == s.snaps[n - 1].id && Occurrences(Without(catalog, s), x) + SnapsWith(s.snaps[n..], x) == 0)
  {
    var id := s.snaps[n - 1].id;
    SnapsWithFrom(s.snaps, n - 1, x);
    SnapsWithFrom(s.snaps, n - 1, id);
    if x == id {
      SnapsWithPositive(s.snaps, id);
      assert s.snaps[n - 1].id == id;
    }
  }

  /**
   * One step of the walk releases the step's id exactly when no other
   * snapshot and no later snap carries it, and releases nothing else.
   */
  lemma GoneStep(catalog: seq<Snapshot>, s: Snapshot, n: nat)
    requires s in catalog && 0 < n <= |s.snaps|
    ensures s.snaps[n - 1].id !in Gone(catalog, s, n - 1)
    ensures Gone(catalog, s, n) ==
              Gone(catalog, s, n - 1) +
              (if Occurrences(Without(catalog, s), s.snaps[n - 1].id) + SnapsWith(s.snaps[n..], s.snaps[n - 1].id) == 0
               then {s.snaps[n - 1].id} else {})
  {
    forall x
      ensures x in Gone(catalog, s, n) <==>
                || x in Gone(catalog, s, n - 1)
                || (x == s.snaps[n - 1].id && Occurrences(Without(catalog, s), x) + SnapsWith(s.snaps[n..], x) == 0)
    {
      GoneMember(catalog, s, n, x);
    }
    GoneMember(catalog, s, n, s.snaps[n - 1].id);
  }

  /** Uncounting one snap keeps the owed counts in step, whether or not the id's count reaches zero. */
  lemma OwesStep(rest: seq<Snapshot>, snaps: seq<Snap>, n: nat, counts: map<string, int>)
    requires 0 < n <= |snaps|
    requires Owes(rest, snaps[n - 1..], counts)
    ensures snaps[n - 1].id in counts
    ensures counts[snaps[n - 1].id] - 1 == Occurrences(rest, snaps[n - 1].id) + SnapsWith(snaps[n..], snaps[n - 1].id)
    ensures counts[snaps[n - 1].id] - 1 != 0 ==> Owes(rest, snaps[n..], Decremented(counts, snaps[n - 1].id))
    ensures counts[snaps[n - 1].id] - 1 == 0 ==>
              Owes(rest, snaps[n..], Decremented(counts, snaps[n - 1].id) - {snaps[n - 1].id})
  {
    var id := snaps[n - 1].id;
    SnapsWithFrom(snaps, n - 1, id);
    var next := if counts[id] - 1 != 0 then Decremented(counts, id) else Decremented(counts, id) - {id};
    forall x
      ensures x in next <==> Occurrences(rest, x) + SnapsWith(snaps[n..], x) > 0
      ensures x in next ==> next[x] == Occurrences(rest, x) + SnapsWith(snaps[n..], x)
    {
      SnapsWithFrom(snaps, n - 1, x);
    }
  }

  /**
   * The state of the walk after `n` steps, from counts that tally the
   * catalog: it is still running exactly when every id released so far was
   * registered; and while it runs, the counts are those still owed and the
   * registry has lost exactly the released ids.
   */
  ghost predicate Walked(catalog: seq<Snapshot>, counts: map<string, int>, registry: map<string, GameObject>,
                         s: Snapshot, n: nat)
    requires s in catalog && n <= |s.snaps|
  {
    var r := Released(counts, registry, s.snaps, n);
    && (r.ok <==> Gone(catalog, s, n) <= registry.Keys)
    && (r.ok ==> Owes(Without(catalog, s), s.snaps[n..], r.counts) && r.registry == registry - Gone(catalog, s, n))
  }

  /** The walk starts in step with the catalog without the snapshot. */
  lemma WalkedStart(catalog: seq<Snapshot>, counts: map<string, int>, registry: map<string, GameObject>, s: Snapshot)
    requires Tallies(catalog, counts) && s in catalog
    ensures Walked(catalog, counts, registry, s, 0)
  {
    GoneNone(catalog, s);
    assert s.snaps[0..] == s.snaps;
    forall id
      ensures Occurrences(Without(catalog, s), id) + SnapsWith(s.snaps, id) == Occurrences(catalog, id)
    {
      WithoutOccurrences(catalog, s, id);
    }
    assert registry - {} == registry;
  }

  /** Each step of the walk keeps it in step. */
  lemma WalkedStep(catalog: seq<Snapshot>, counts: map<string, int>, registry: map<string, GameObject>,
                   s: Snapshot, n: nat)
    requires s in catalog && 0 < n <= |s.snaps|
    requires Walked(catalog, counts, registry, s, n - 1)
    ensures Walked(catalog, counts, registry, s, n)
  {
    GoneStep(catalog, s, n);
    var r := Released(counts, registry, s.snaps, n - 1);
    var id := s.snaps[n - 1].id;
    if r.ok {
      OwesStep(Without(catalog, s), s.snaps, n, r.counts);
      if r.counts[id] - 1 == 0 {
        assert Gone(catalog, s, n) == Gone(catalog, s, n - 1) + {id};
        if id in r.registry {
          assert r.registry - {id} == registry - Gone(catalog, s, n);
        }
      } else {
        assert Gone(catalog, s, n) == Gone(catalog, s, n - 1);
      }
    }
  }

  /** The walk stays in step for all its steps. */
  lemma {:induction false} ReleasedSteps(catalog: seq<Snapshot>, counts: map<string, int>,
                                         registry: map<string, GameObject>, s: Snapshot, n: nat)
    requires Tallies(catalog, counts) && s in catalog && n <= |s.snaps|
    ensures Walked(catalog, counts, registry, s, n)
    decreases n
  {
    if n == 0 {
      WalkedStart(catalog, counts, registry, s);
    } else {
      ReleasedSteps(catalog, counts, registry, s, n - 1);
      WalkedStep(catalog, counts, registry, s, n);
    }
  }

  /**
   * The whole deletion, from counts that tally the catalog: it completes
   * exactly when every dropped id is registered, and then the counts tally
   * the catalog without the snapshot and the registry has lost exactly the
   * dropped ids.
   */
  lemma DeleteReleases(catalog: seq<Snapshot>, counts: map<string, int>, registry: map<string, GameObject>, s: Snapshot)
    requires Tallies(catalog, counts) && s in catalog
    ensures Released(counts, registry, s.snaps, |s.snaps|).ok <==> Dropped(catalog, s) <= registry.Keys
    ensures Released(counts, registry, s.snaps, |s.snaps|).ok ==>
              && Tallies(Without(catalog, s), Released(counts, registry, s.snaps, |s.snaps|).counts)
              && Released(counts, registry, s.snaps, |s.snaps|).registry == registry - Dropped(catalog, s)
  {
    ReleasedSteps(catalog, counts, registry, s, |s.snaps|);
    GoneAll(catalog, s);
    assert s.snaps[|s.snaps|..] == [];
  }
}
