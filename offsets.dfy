// `OffsetManager`: the last offset stored per partition, in memory. A store
// simply overwrites; there is no check that offsets only grow.
module Offsets {
  import opened Wrappers

  /** `TryGetValue`: the offset stored for `partition`, or null. */
  function Get(offsets: map<int, int>, partition: int): (r: Option<int>)
    ensures r.None? <==> partition !in offsets
    ensures r.Some? ==> r.value == offsets[partition]
  {
    if partition in offsets then Some(offsets[partition]) else None
  }

  /** A run of `StoreOffset(partition, offset)` calls, in order. */
  function StoreAll(offsets: map<int, int>, stores: seq<(int, int)>): map<int, int> {
    if stores == [] then offsets
    else
      var last := stores[|stores| - 1];
      StoreAll(offsets, stores[..|stores| - 1])[last.0 := last.1]
  }

  /** The reference: the offset of the last store to `partition`, scanning
      the stores from the end. */
  function LastStored(stores: seq<(int, int)>, partition: int): Option<int> {
    if stores == [] then None
    else if stores[|stores| - 1].0 == partition then Some(stores[|stores| - 1].1)
    else LastStored(stores[..|stores| - 1], partition)
  }

  /** After any run of stores, a partition reads the last offset stored to
      it, or what it read before when the run never stored to it. */
  lemma {:induction false} LastStoreWins(offsets: map<int, int>, stores: seq<(int, int)>, partition: int)
    ensures Get(StoreAll(offsets, stores), partition) ==
      if LastStored(stores, partition).Some? then LastStored(stores, partition) else Get(offsets, partition)
  {
    if stores != [] {
      LastStoreWins(offsets, stores[..|stores| - 1], partition);
    }
  }

  /** Storing to one partition leaves every other partition as it was. */
  lemma {:induction false} OtherPartitionsUntouched(offsets: map<int, int>, stores: seq<(int, int)>, partition: int)
    requires forall i :: 0 <= i < |stores| ==> stores[i].0 != partition
    ensures Get(StoreAll(offsets, stores), partition) == Get(offsets, partition)
  {
    LastStoreWins(offsets, stores, partition);
    if LastStored(stores, partition).Some? {
      LastStoredFrom(stores, partition);
    }
  }

  /** A found offset comes from a store to that partition. */
  lemma {:induction false} LastStoredFrom(stores: seq<(int, int)>, partition: int)
    requires LastStored(stores, partition).Some?
    ensures exists i :: 0 <= i < |stores| && stores[i] == (partition, LastStored(stores, partition).value)
  {
    if stores[|stores| - 1].0 != partition {
      var init := stores[..|stores| - 1];
      LastStoredFrom(init, partition);
      var i :| 0 <= i < |init| && init[i] == (partition, LastStored(init, partition).value);
      assert stores[i] == init[i];
    }
  }

  /** No monotonicity: a smaller offset stored later replaces a larger one. */
  lemma SmallerOffsetReplacesLarger(offsets: map<int, int>, partition: int, larger: int, smaller: int)
    requires smaller < larger
    ensures Get(StoreAll(offsets, [(partition, larger), (partition, smaller)]), partition) == Some(smaller)
  {
    LastStoreWins(offsets, [(partition, larger), (partition, smaller)], partition);
  }

  class OffsetManager {
    /** `_offsets`. */
    var offsets: map<int, int>
    /** The stores made so far, in order. */
    ghost var history: seq<(int, int)>

    /** The map is the result of replaying the stores on an empty map. */
    ghost predicate Valid()
      reads this
    {
      offsets == StoreAll(map[], history)
    }

    constructor()
      ensures Valid() && offsets == map[] && history == []
    {
      offsets := map[];
      history := [];
    }

    /** `StoreOffset`: overwrite the partition's entry. */
    method StoreOffset(partition: int, offset: int)
      requires Valid()
      modifies this
      ensures Valid()
      ensures offsets == old(offsets)[partition := offset]
      ensures history == old(history) + [(partition, offset)]
    {
      offsets := offsets[partition := offset];
      history := history + [(partition, offset)];
      assert history[..|history| - 1] == old(history);
    }

    /** `GetLastOffset`: the offset of the last `StoreOffset` to the
        partition, or null when it was never stored. */
    function GetLastOffset(partition: int): (r: Option<int>)
      requires Valid()
      reads this
      ensures r == LastStored(history, partition)
      ensures r.None? <==> partition !in offsets
    {
      ManagerReadsLastStore(offsets, history, partition);
      Get(offsets, partition)
    }
  }

  /** On a manager that has only ever been written through `StoreOffset`,
      `GetLastOffset(p)` is the offset of the last store to `p`, and null
      when `p` was never stored. */
  lemma ManagerReadsLastStore(offsets: map<int, int>, history: seq<(int, int)>, partition: int)
    requires offsets == StoreAll(map[], history)
    ensures Get(offsets, partition) == LastStored(history, partition)
  {
    LastStoreWins(map[], history, partition);
  }
}
