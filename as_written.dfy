/** Three places where the container, as written, dereferences a null
    pointer or leaves an unusable object behind. Each is modelled here as
    written and shown to go wrong on a concrete, reachable state; the rest of
    the model uses the corrected behaviour (`Resize`, `Moved`, and the
    `Equal`-guarded loop of `ShrinkToFit`). */
module AsWritten {
  import opened Links
  import opened Buckets
  import opened StorageState
  import opened Storage

  /** What one call of `resize` does: link `n` new buckets, or dereference
      a null `last_block_`. */
  datatype Growth = Added(n: nat) | NullDeref

  /** `resize` as written: the first branch is taken only while `time_` is
      0, that is before anything was ever inserted; afterwards a new bucket
      is linked after `last_block_` whenever the registry is empty, even when
      there is no last bucket. */
  function ResizeAsWritten(time: nat, lastBlock: Ptr, registryEmpty: bool): (g: Growth)
    ensures g.NullDeref? <==> 0 < time && registryEmpty && lastBlock.Null?
    ensures g.Added? ==> (g.n == 1 <==> time == 0 || registryEmpty)
  {
    if time == 0 then Added(1)
    else if !registryEmpty then Added(0)
    else if lastBlock.Null? then NullDeref
    else Added(1)
  }

  /** Every container that held elements and was emptied again (by `erase`
      or `clear`) has destroyed all its buckets but kept `time_ > 0`, so the
      next `insert` dereferences the null `last_block_` in `resize` as
      written. */
  lemma ResizeAfterEmptying<T>(s: Parts<T>, entries: map<nat, Link<nat>>)
    requires Core(s, entries) && Occupied(s.blocks, Null) && s.chain == [] && 0 < s.time
    ensures ResizeAsWritten(s.time, s.lastBlock, entries == map[]) == NullDeref
  {
    EmptyNoBuckets(s, entries);
  }

  /** Such a container is reachable: insert one element into a new
      container and erase it. The corrected `insert` then succeeds on it. */
  method InsertEraseInsert<T>(v: T, w: T) returns (c: BucketStorage<T>)
    ensures c.Valid() && c.Elements == [w]
  {
    c := new BucketStorage<T>(1);
    var it := c.Insert(v);
    var _ := c.Erase(it);
    ResizeAfterEmptying(c.State(), c.rows.nodes);
    assert ResizeAsWritten(c.time, c.lastBlock, c.rows.nodes == map[]) == NullDeref;
    var _ := c.Insert(w);
  }

  /** The moved-from container as the move constructor leaves it: the
      counters and `block_capacity_` are 0, and the sentinel `last_`,
      `first_`, both bucket-list ends and the registry are null. */
  datatype Husk = Husk(sz: nat, cap: nat, capacity: nat, time: nat, last: Ptr, first: Ptr,
                       firstBlock: Ptr, lastBlock: Ptr, registry: Ptr)

  /** The move constructor as written: the new container takes over the
      state of `other` unchanged, and `other` becomes a husk. */
  function MoveAsWritten<T>(other: Parts<T>): (r: (Parts<T>, Husk))
    ensures r.0 == other
    ensures r.1.sz == 0 && r.1.capacity == 0 && r.1.last.Null? && r.1.registry.Null?
  {
    (other, Husk(0, 0, 0, 0, Null, Null, Null, Null, Null))
  }

  /** Reusing the husk fails. On the first insert `resize` sees `time_ == 0`
      and builds a first bucket of `block_capacity_ == 0` slots, whose free
      stack is empty; `insert_element` pops that bucket from the registry and
      the bucket pops its empty free stack (`--arr_sz_` below zero), which is
      the first bad read. Had it got that far, the null sentinel's `prev_`
      would be read next. */
  lemma MovedFromUnusable<T>(other: Parts<T>)
    ensures MoveAsWritten(other).1.time == 0
    ensures FreshBucket<T>(MoveAsWritten(other).1.capacity).free == []
    ensures !FreshBucket<T>(MoveAsWritten(other).1.capacity).HasFreePlaces()
    ensures MoveAsWritten(other).1.last.Null?
  {
    FreshBucketValid<T>(0);
  }

  /** The loop guard `i < bs.end()` of `shrink_to_fit` and of the copy
      constructor as written: `operator<` reads both nodes' timestamps, so a
      null cursor cannot be compared. Where it can, it agrees with the
      null-safe guard `!(i == bs.end())`. */
  function ShrinkGuardAsWritten<T>(c: BucketStorage<T>, it: Iterator): (g: Option<bool>)
    reads c, c.rows
    requires c.Valid() && c.Points(it)
    ensures g.None? <==> it.node.Null?
    ensures g.Some? ==> (g.value <==> !c.Equal(it, c.End()))
  {
    if it.node.Null? then None else Some(c.Less(it, c.End()))
  }

  /** In a container nothing was ever inserted into, `begin()` is null: the
      guard as written dereferences it on the first test, while the
      corrected guard sees an empty container. */
  method NeverUsed<T>() returns (c: BucketStorage<T>)
    ensures c.Valid() && c.Elements == []
    ensures ShrinkGuardAsWritten(c, c.Begin()).None? && c.Equal(c.Begin(), c.End())
  {
    c := new BucketStorage<T>(1);
  }
}
