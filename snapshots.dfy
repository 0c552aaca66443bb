/**
 * The in-memory snapshot store of index.js: a process-wide list `snapshots`
 * of saved view configurations, read by `Query.snapshots`, appended to by
 * `Mutation.saveSnapshot` and filtered by `Mutation.deleteSnapshot`.
 */
module Snapshots {
  import opened Base
  import opened Text

  /** A saved view configuration. `dateRange` and `customColors` are opaque strings. */
  datatype Snapshot = Snapshot(
    id: string,
    name: string,
    createdAt: string,
    activeSignalIds: seq<string>,
    hiddenSignalIds: seq<string>,
    dateRange: string,
    customColors: Option<string>)

  /** The id a snapshot saved at clock reading `now` (milliseconds) receives: `snap-${now}`. */
  function SnapshotId(now: nat): (id: string)
    ensures |id| > 5 && id[..5] == "snap-"
  {
    "snap-" + Decimal(now)
  }

  /** Snapshots saved at different clock readings get different ids. */
  lemma SnapshotIdInjective(a: nat, b: nat)
    ensures SnapshotId(a) == SnapshotId(b) <==> a == b
  {
    if SnapshotId(a) == SnapshotId(b) {
      assert Decimal(a) == SnapshotId(a)[5..];
      assert Decimal(b) == SnapshotId(b)[5..];
      DecimalInjective(a, b);
    }
  }

  /** The filter test `s.id !== id`. */
  function IdIsNot(id: string): Snapshot -> bool
  {
    (s: Snapshot) => s.id != id
  }

  /** The list left after deleting `id`: every snapshot with another id, in the same order. */
  function WithoutId(list: seq<Snapshot>, id: string): (r: seq<Snapshot>)
    ensures IsFilterOf(r, list, IdIsNot(id))
    ensures forall s :: s in r <==> s in list && s.id != id
  {
    Filter(list, IdIsNot(id))
  }

  /** Deleting shortens the list exactly when some snapshot carries the id. */
  lemma {:induction false} WithoutIdShorter(list: seq<Snapshot>, id: string)
    ensures |WithoutId(list, id)| < |list| <==> exists k :: 0 <= k < |list| && list[k].id == id
  {
    FilterShorter(list, IdIsNot(id));
  }

  /** Deleting the same id a second time removes nothing more. */
  lemma {:induction false} WithoutIdIdempotent(list: seq<Snapshot>, id: string)
    ensures WithoutId(WithoutId(list, id), id) == WithoutId(list, id)
    ensures forall k :: 0 <= k < |WithoutId(list, id)| ==> WithoutId(list, id)[k].id != id
  {
    FilterIdempotent(list, IdIsNot(id));
    var r := WithoutId(list, id);
    forall k | 0 <= k < |r| ensures r[k].id != id {
      assert r[k] in r;
    }
  }

  /** Deleting an id no snapshot carries leaves the list as it is. */
  lemma {:induction false} WithoutAbsentId(list: seq<Snapshot>, id: string)
    requires forall k :: 0 <= k < |list| ==> list[k].id != id
    ensures WithoutId(list, id) == list
    decreases |list|
  {
    if list != [] {
      WithoutAbsentId(list[1..], id);
      assert list == [list[0]] + list[1..];
    }
  }

  class SnapshotStore {
    /** The saved snapshots, oldest first. */
    var snapshots: seq<Snapshot>

    constructor ()
      ensures snapshots == []
    {
      snapshots := [];
    }

    /** `Query.snapshots`: the list as stored, in insertion order. */
    method Snapshots() returns (r: seq<Snapshot>)
      ensures r == snapshots
    {
      r := snapshots;
    }

    /**
     * `Mutation.saveSnapshot`: builds a record with id `snap-${now}` and the
     * given fields, appends it to the end of the list and returns it.
     * `now` is the clock in milliseconds and `createdAt` its ISO-8601 rendering.
     */
    method SaveSnapshot(name: string, activeSignalIds: seq<string>, hiddenSignalIds: seq<string>,
                        dateRange: string, customColors: Option<string>,
                        now: nat, createdAt: string)
      returns (saved: Snapshot)
      modifies this
      ensures saved.id == SnapshotId(now) && saved.name == name && saved.createdAt == createdAt
      ensures saved.activeSignalIds == activeSignalIds && saved.hiddenSignalIds == hiddenSignalIds
      ensures saved.dateRange == dateRange && saved.customColors == customColors
      ensures snapshots == old(snapshots) + [saved]
      ensures |snapshots| == |old(snapshots)| + 1 && snapshots[..|old(snapshots)|] == old(snapshots)
    {
      saved := Snapshot(SnapshotId(now), name, createdAt, activeSignalIds, hiddenSignalIds,
                        dateRange, customColors);
      snapshots := snapshots + [saved];
    }

    /**
     * `Mutation.deleteSnapshot`: keeps every snapshot whose id differs from
     * `id`, in order, and reports whether the list got shorter, which is
     * exactly when some snapshot carried `id`.
     */
    method DeleteSnapshot(id: string) returns (deleted: bool)
      modifies this
      ensures snapshots == WithoutId(old(snapshots), id)
      ensures deleted <==> |snapshots| < |old(snapshots)|
      ensures deleted <==> exists k :: 0 <= k < |old(snapshots)| && old(snapshots)[k].id == id
      ensures forall k :: 0 <= k < |snapshots| ==> snapshots[k].id != id
    {
      var initialLength := |snapshots|;
      WithoutIdShorter(snapshots, id);
      WithoutIdIdempotent(snapshots, id);
      snapshots := WithoutId(snapshots, id);
      deleted := |snapshots| < initialLength;
    }
  }
}
