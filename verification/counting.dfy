/**
 * The reference counts the snapshots window keeps (idToNumSnapshots), as
 * values: how many snap records carry an id, the dictionary updates, and the
 * invariant tying the counts to the catalog.
 */
module Counting {
  import opened Snaps
  import opened Snapshots

  /** Number of snaps in `snaps` that carry `id`. */
  function SnapsWith(snaps: seq<Snap>, id: string): nat
    decreases |snaps|
  {
    if snaps == [] then 0
    else SnapsWith(snaps[..|snaps| - 1], id) + (if snaps[|snaps| - 1].id == id then 1 else 0)
  }

  /** Number of snap records carrying `id` across the whole catalog. */
  function Occurrences(catalog: seq<Snapshot>, id: string): nat
    decreases |catalog|
  {
    if catalog == [] then 0
    else Occurrences(catalog[..|catalog| - 1], id) + SnapsWith(catalog[|catalog| - 1].snaps, id)
  }

  lemma {:induction false} SnapsWithAppend(a: seq<Snap>, b: seq<Snap>, id: string)
    ensures SnapsWith(a + b, id) == SnapsWith(a, id) + SnapsWith(b, id)
    decreases |b|
  {
    if b == [] {
      assert a + b == a;
    } else {
      var b' := b[..|b| - 1];
      assert (a + b)[..|a + b| - 1] == a + b';
      SnapsWithAppend(a, b', id);
    }
  }

  /** Splitting the snaps at the j-th one: it, plus the ones after it. */
  lemma SnapsWithFrom(snaps: seq<Snap>, j: nat, id: string)
    requires j < |snaps|
    ensures SnapsWith(snaps[j..], id) == (if snaps[j].id == id then 1 else 0) + SnapsWith(snaps[j + 1..], id)
  {
    assert snaps[j..] == [snaps[j]] + snaps[j + 1..];
    SnapsWithAppend([snaps[j]], snaps[j + 1..], id);
    assert [snaps[j]][..0] == [];
  }

  /** An id no snap carries is counted zero times; one that some snap carries, at least once. */
  lemma {:induction false} SnapsWithPositive(snaps: seq<Snap>, id: string)
    ensures SnapsWith(snaps, id) > 0 <==> exists k :: 0 <= k < |snaps| && snaps[k].id == id
    decreases |snaps|
  {
    if snaps != [] {
      var init := snaps[..|snaps| - 1];
      SnapsWithPositive(init, id);
      if SnapsWith(init, id) > 0 {
        var k :| 0 <= k < |init| && init[k].id == id;
        assert snaps[k].id == id;
      }
      if exists k :: 0 <= k < |snaps| && snaps[k].id == id {
        var k :| 0 <= k < |snaps| && snaps[k].id == id;
        if k < |init| {
          assert init[k].id == id;
        }
      }
    }
  }

  lemma {:induction false} OccurrencesAppend(a: seq<Snapshot>, b: seq<Snapshot>, id: string)
    ensures Occurrences(a + b, id) == Occurrences(a, id) + Occurrences(b, id)
    decreases |b|
  {
    if b == [] {
      assert a + b == a;
    } else {
      var b' := b[..|b| - 1];
      assert (a + b)[..|a + b| - 1] == a + b';
      OccurrencesAppend(a, b', id);
    }
  }

  /** The position of the first snapshot equal to `s`: the one List.Remove takes out. */
  function IndexOf(catalog: seq<Snapshot>, s: Snapshot): (k: nat)
    requires s in catalog
    ensures k < |catalog| && catalog[k] == s
    ensures forall j :: 0 <= j < k ==> catalog[j] != s
  {
    if catalog[0] == s then 0 else 1 + IndexOf(catalog[1..], s)
  }

  /** The catalog with the first snapshot equal to `s` removed, the others kept in order. */
  function Without(catalog: seq<Snapshot>, s: Snapshot): (r: seq<Snapshot>)
    requires s in catalog
    ensures |r| == |catalog| - 1
    ensures multiset(r) + multiset{s} == multiset(catalog)
    ensures forall j :: 0 <= j < |r| ==> r[j] == catalog[if j < IndexOf(catalog, s) then j else j + 1]
  {
    var k := IndexOf(catalog, s);
    var before, after := catalog[..k], catalog[k + 1..];
    assert multiset(before + after) + multiset{s} == multiset(catalog) by {
      assert catalog == before + [s] + after;
    }
    before + after
  }

  /** Removing a snapshot removes exactly its own snaps from every id's count. */
  lemma WithoutOccurrences(catalog: seq<Snapshot>, s: Snapshot, id: string)
    requires s in catalog
    ensures Occurrences(Without(catalog, s), id) + SnapsWith(s.snaps, id) == Occurrences(catalog, id)
  {
    var k := IndexOf(catalog, s);
    assert catalog == catalog[..k] + ([catalog[k]] + catalog[k + 1..]);
    OccurrencesAppend(catalog[..k], [catalog[k]] + catalog[k + 1..], id);
    OccurrencesAppend([catalog[k]], catalog[k + 1..], id);
    OccurrencesAppend(catalog[..k], catalog[k + 1..], id);
    assert [catalog[k]][..0] == [];
  }

  /** The count stored for `id`, a missing key read as zero (TryGetValue's default). */
  function CountOf(counts: map<string, int>, id: string): int
  {
    if id in counts then counts[id] else 0
  }

  /**
   * IncrementSnapshotCount on the dictionary: a missing id reads as zero, the
   * id then holds one more, and every other key keeps its count.
   */
  function Incremented(counts: map<string, int>, id: string): (r: map<string, int>)
    ensures r.Keys == counts.Keys + {id}
    ensures id in counts ==> r[id] == counts[id] + 1
    ensures id !in counts ==> r[id] == 1
    ensures forall k :: k in counts && k != id ==> r[k] == counts[k]
  {
    counts[id := CountOf(counts, id) + 1]
  }

  /**
   * DecrementSnapshotCount on the dictionary: the key must be there (the
   * indexer throws otherwise); it then holds one less, and no key is added,
   * removed or otherwise changed.
   */
  function Decremented(counts: map<string, int>, id: string): (r: map<string, int>)
    requires id in counts
    ensures r.Keys == counts.Keys
    ensures r[id] == counts[id] - 1
    ensures forall k :: k in counts && k != id ==> r[k] == counts[k]
  {
    counts[id := counts[id] - 1]
  }

  /**
   * The counting invariant: an id is a key exactly when some snap in the
   * catalog carries it, and its count is the number of such snaps.
   */
  ghost predicate Tallies(catalog: seq<Snapshot>, counts: map<string, int>)
  {
    && (forall id :: id in counts <==> Occurrences(catalog, id) > 0)
    && (forall id :: id in counts ==> counts[id] == Occurrences(catalog, id))
  }

  /** The counts after incrementing once per snap, in order. */
  function TallySnaps(counts: map<string, int>, snaps: seq<Snap>): (r: map<string, int>)
    ensures counts.Keys <= r.Keys
    decreases |snaps|
  {
    if snaps == [] then counts
    else Incremented(TallySnaps(counts, snaps[..|snaps| - 1]), snaps[|snaps| - 1].id)
  }

  /** Counting a run of snaps adds, to each id, the number of those snaps carrying it. */
  lemma {:induction false} TallySnapsCounts(counts: map<string, int>, snaps: seq<Snap>, id: string)
    ensures CountOf(TallySnaps(counts, snaps), id) == CountOf(counts, id) + SnapsWith(snaps, id)
    ensures id in TallySnaps(counts, snaps) <==> id in counts || SnapsWith(snaps, id) > 0
    decreases |snaps|
  {
    if snaps != [] {
      TallySnapsCounts(counts, snaps[..|snaps| - 1], id);
    }
  }

  /**
   * The counts InitializeSnapshotCounter computes: every snap of every
   * snapshot counted from empty. They meet the counting invariant.
   */
  function Tally(catalog: seq<Snapshot>): (r: map<string, int>)
    ensures Tallies(catalog, r)
    decreases |catalog|
  {
    if catalog == [] then map[]
    else
      var init := catalog[..|catalog| - 1];
      var last := catalog[|catalog| - 1];
      var r := TallySnaps(Tally(init), last.snaps);
      assert Tallies(catalog, r) by {
        forall id
          ensures id in r <==> Occurrences(catalog, id) > 0
          ensures id in r ==> r[id] == Occurrences(catalog, id)
        {
          TallySnapsCounts(Tally(init), last.snaps, id);
        }
      }
      r
  }

  /** Appending a snapshot and counting its snaps keeps the invariant. */
  lemma AppendTallies(catalog: seq<Snapshot>, counts: map<string, int>, s: Snapshot)
    requires Tallies(catalog, counts)
    ensures Tallies(catalog + [s], TallySnaps(counts, s.snaps))
  {
    var c := catalog + [s];
    assert c[..|c| - 1] == catalog;
    forall id
      ensures id in TallySnaps(counts, s.snaps) <==> Occurrences(c, id) > 0
      ensures id in TallySnaps(counts, s.snaps) ==> TallySnaps(counts, s.snaps)[id] == Occurrences(c, id)
    {
      TallySnapsCounts(counts, s.snaps, id);
    }
  }

  /** The invariant pins the counts down: the maintained counts equal a recount. */
  lemma TalliesUnique(catalog: seq<Snapshot>, c1: map<string, int>, c2: map<string, int>)
    requires Tallies(catalog, c1) && Tallies(catalog, c2)
    ensures c1 == c2
  {
    assert c1.Keys == c2.Keys;
  }
}
