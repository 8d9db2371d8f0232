/** The container's state, taken apart: the chain of element nodes, the
    bucket list, the free-bucket registry and the slot ownership that ties
    elements to bucket slots, each stated over plain values, with the lemmas
    showing how each step of an operation keeps it. */
module StorageState {
  import opened Links
  import opened Buckets

  /** A chain node (`Node`): the sentinel that ends the chain, or an element
      with its bucket (`row_`), its slot in that bucket (`col_`) and its
      insertion timestamp (`time_`). */
  datatype ChainNode = Sentinel | Element(row: nat, col: nat, time: nat)

  /** An iterator is a cursor on one chain node, or null. */
  datatype Iterator = Iterator(node: Ptr)

  /** A node's timestamp as iterators compare it: the sentinel carries the
      largest value (`numeric_limits<size_type>::max()`), above every element. */
  datatype Time = At(t: nat) | Max

  predicate Before(x: Time, y: Time)
  {
    x.At? && (y.Max? || x.t < y.t)
  }

  /** The container's fields as one value: the counters `sz_`, `cap_`,
      `block_capacity_` and `time_`; the chain, as its node arena `nodes`, the
      ids of the live nodes in order `chain`, the sentinel `last_` and
      `first_`; the bucket list, as its arena `blocks`, the ids in creation
      order `blockOrder`, `first_block_` and `last_block_`; the next unused
      ids; and the ghost bookkeeping: which node owns which (bucket, slot),
      and the elements in insertion order. */
  datatype Parts<T> = Parts(sz: nat, cap: nat, capacity: nat, time: nat,
                            nodes: map<nat, ChainNode>, chain: seq<nat>, last: nat, first: Ptr, nextNode: nat,
                            blocks: map<nat, Bucket<T>>, blockOrder: seq<nat>, firstBlock: Ptr, lastBlock: Ptr, nextBucket: nat,
                            owner: map<(nat, nat), nat>, elements: seq<T>)

  /** The timestamp of node `k` (0 for an id that is not an element). */
  function StampOf(nodes: map<nat, ChainNode>, k: nat): nat
  {
    if k in nodes && nodes[k].Element? then nodes[k].time else 0
  }

  /** The bucket and slot of node `k`. */
  function PlaceOf(nodes: map<nat, ChainNode>, k: nat): (nat, nat)
  {
    if k in nodes && nodes[k].Element? then (nodes[k].row, nodes[k].col) else (0, 0)
  }

  /** The node after position `i` of the chain: the next live node, or the
      sentinel after the last one. */
  function After(chain: seq<nat>, last: nat, i: nat): Ptr
    requires i < |chain|
  {
    if i + 1 < |chain| then Ref(chain[i + 1]) else Ref(last)
  }

  /** A prefix one longer is the prefix followed by the next element. */
  lemma PrefixStep<X>(s: seq<X>, i: nat)
    requires i < |s|
    ensures s[..i + 1] == s[..i] + [s[i]]
  {
  }

  /** Where a cursor on `p` stands in the traversal: `i` on the `i`-th live
      node, `|chain|` past the last one (on the sentinel, or null). */
  function Position(chain: seq<nat>, p: Ptr): nat
  {
    if p.Ref? && p.id in chain then IndexOf(chain, p.id) else |chain|
  }

  /** The timestamp node `k` carries; the sentinel's is the largest. */
  function TimeOf(nodes: map<nat, ChainNode>, k: nat): Time
    requires k in nodes
  {
    if nodes[k].Sentinel? then Max else At(nodes[k].time)
  }

  /** The chain reads the live nodes `chain`, then the sentinel `last`; every
      live node is an element stamped below the next timestamp `time`, stamps
      grow along the chain, and `first_` is the first live node (null or the
      sentinel when there is none). Every id in use is below `nextNode`. */
  ghost predicate ChainOk(nodes: map<nat, ChainNode>, chain: seq<nat>, last: nat, first: Ptr, time: nat, nextNode: nat)
  {
    && Distinct(chain)
    && last in nodes && nodes[last] == Sentinel
    && (forall k :: k in nodes ==> k < nextNode)
    && StampsBelow(nodes, chain, time)
    && StampsGrow(nodes, chain)
    && (chain == [] ==> first == Null || first == Ref(last))
    && (chain != [] ==> first == Ref(chain[0]))
  }

  /** Every live node is an element stamped below `time`. */
  ghost predicate StampsBelow(nodes: map<nat, ChainNode>, chain: seq<nat>, time: nat)
  {
    forall i :: 0 <= i < |chain| ==> chain[i] in nodes && nodes[chain[i]].Element? && StampOf(nodes, chain[i]) < time
  }

  /** Stamps grow along the chain: an earlier live node has a smaller stamp. */
  ghost predicate StampsGrow(nodes: map<nat, ChainNode>, chain: seq<nat>)
  {
    forall i, j :: 0 <= i < j < |chain| ==> StampOf(nodes, chain[i]) < StampOf(nodes, chain[j])
  }

  /** The bucket list reads `blockOrder`, each bucket once, from
      `first_block_` to `last_block_`; every bucket is sound with `capacity`
      slots, and `cap_` is `capacity` times the number of buckets. */
  ghost predicate BucketsOk<T>(blocks: map<nat, Bucket<T>>, blockOrder: seq<nat>, firstBlock: Ptr, lastBlock: Ptr,
                               capacity: nat, cap: nat, nextBucket: nat)
  {
    && Distinct(blockOrder)
    && (forall j :: 0 <= j < |blockOrder| ==> blockOrder[j] in blocks)
    && (forall b :: b in blocks ==> b in blockOrder && b < nextBucket && blocks[b].Valid() && blocks[b].capacity == capacity)
    && firstBlock == Head(blockOrder)
    && lastBlock == Tail(blockOrder)
    && cap == |blockOrder| * capacity
  }

  /** The registry `rows_` holds exactly the buckets with a free slot: each
      entry of its arena `entries` names a bucket with a free slot that
      records that entry in `node_`, and every bucket with a free slot is
      named by the entry it records. */
  ghost predicate RegistryOk<T>(blocks: map<nat, Bucket<T>>, entries: map<nat, Link<nat>>)
  {
    && (forall e :: e in entries ==>
          && entries[e].data in blocks
          && blocks[entries[e].data].node == e
          && blocks[entries[e].data].size < blocks[entries[e].data].capacity)
    && (forall b :: b in blocks && blocks[b].size < blocks[b].capacity ==>
          blocks[b].node in entries && entries[blocks[b].node].data == b)
  }

  /** The live node `k` holds `v`: its slot stores `v` and is owned by `k`. */
  ghost predicate Holds<T>(nodes: map<nat, ChainNode>, blocks: map<nat, Bucket<T>>, owner: map<(nat, nat), nat>, k: nat, v: T)
  {
    var p := PlaceOf(nodes, k);
    && k in nodes && nodes[k].Element?
    && p.0 in blocks && p.1 < |blocks[p.0].slots|
    && blocks[p.0].slots[p.1] == Some(v)
    && p in owner && owner[p] == k
  }

  /** `owner` maps every occupied (bucket, slot) to the live node that points
      at it: a slot is occupied exactly when a live node owns it, and the
      `i`-th live node holds the `i`-th element. */
  ghost predicate OwnerOk<T>(nodes: map<nat, ChainNode>, chain: seq<nat>, blocks: map<nat, Bucket<T>>,
                             owner: map<(nat, nat), nat>, elements: seq<T>)
  {
    && |elements| == |chain|
    && (forall i :: 0 <= i < |chain| ==> Holds(nodes, blocks, owner, chain[i], elements[i]))
    && (forall p :: p in owner ==> owner[p] in chain && PlaceOf(nodes, owner[p]) == p)
    && (forall b: nat, c: nat :: b in blocks && c < |blocks[b].slots| ==> (blocks[b].slots[c].Some? <==> (b, c) in owner))
  }

  /** Every bucket, except possibly `except`, holds at least one element. */
  ghost predicate Occupied<T>(blocks: map<nat, Bucket<T>>, except: Ptr)
  {
    forall b :: b in blocks && Ref(b) != except ==> blocks[b].size > 0
  }

  /** Every bucket but the newest is full. */
  ghost predicate PackedOk<T>(blocks: map<nat, Bucket<T>>, blockOrder: seq<nat>, capacity: nat)
  {
    forall j :: 0 <= j < |blockOrder| - 1 ==> blockOrder[j] in blocks && blocks[blockOrder[j]].size == capacity
  }

  /** The container's invariant, given the registry's arena `entries`: its
      parts fit together. */
  ghost predicate Core<T>(s: Parts<T>, entries: map<nat, Link<nat>>)
  {
    && 0 < s.capacity
    && ChainOk(s.nodes, s.chain, s.last, s.first, s.time, s.nextNode)
    && BucketsOk(s.blocks, s.blockOrder, s.firstBlock, s.lastBlock, s.capacity, s.cap, s.nextBucket)
    && RegistryOk(s.blocks, entries)
    && OwnerOk(s.nodes, s.chain, s.blocks, s.owner, s.elements)
    && s.sz == |s.chain|
  }

  /** In a sound chain the sentinel is not live, and each live node stands
      at its own position. */
  lemma SentinelApart(nodes: map<nat, ChainNode>, chain: seq<nat>, last: nat, first: Ptr, time: nat, nextNode: nat)
    requires ChainOk(nodes, chain, last, first, time, nextNode)
    ensures last !in chain
    ensures forall i :: 0 <= i < |chain| ==> Position(chain, Ref(chain[i])) == i
  {
    forall i | 0 <= i < |chain|
      ensures chain[i] != last && Position(chain, Ref(chain[i])) == i
    {
      DistinctIndexOf(chain, i);
    }
  }

  /** Two cursors on live nodes or the sentinel stand at the same position
      exactly when they name the same node; null stands with the sentinel. */
  lemma SamePosition(nodes: map<nat, ChainNode>, chain: seq<nat>, last: nat, first: Ptr, time: nat, nextNode: nat,
                     a: Ptr, b: Ptr)
    requires ChainOk(nodes, chain, last, first, time, nextNode)
    requires a.Null? || a.id in chain || a.id == last
    requires b.Null? || b.id in chain || b.id == last
    ensures Position(chain, a) == Position(chain, b) <==> a == b || Position(chain, a) == |chain| == Position(chain, b)
    ensures a.Ref? ==> (Position(chain, a) == |chain| <==> a.id == last)
    ensures b.Ref? ==> (Position(chain, b) == |chain| <==> b.id == last)
    ensures a.Ref? ==> a.id in nodes && (TimeOf(nodes, a.id) == Max <==> a.id == last)
    ensures b.Ref? ==> b.id in nodes && (TimeOf(nodes, b.id) == Max <==> b.id == last)
  {
    SentinelApart(nodes, chain, last, first, time, nextNode);
    if a.Ref? && a.id in chain {
      assert nodes[chain[IndexOf(chain, a.id)]].Element?;
    }
    if b.Ref? && b.id in chain {
      assert nodes[chain[IndexOf(chain, b.id)]].Element?;
    }
  }

  /** Timestamps order the live nodes and the sentinel as the traversal
      does. */
  lemma StampOrder(nodes: map<nat, ChainNode>, chain: seq<nat>, last: nat, first: Ptr, time: nat, nextNode: nat,
                   a: nat, b: nat)
    requires ChainOk(nodes, chain, last, first, time, nextNode)
    requires a in chain || a == last
    requires b in chain || b == last
    ensures a in nodes && b in nodes
    ensures Before(TimeOf(nodes, a), TimeOf(nodes, b)) <==> Position(chain, Ref(a)) < Position(chain, Ref(b))
  {
    SentinelApart(nodes, chain, last, first, time, nextNode);
    if a in chain && b in chain {
      var i, j := IndexOf(chain, a), IndexOf(chain, b);
      assert StampOf(nodes, chain[i]) == nodes[a].time && StampOf(nodes, chain[j]) == nodes[b].time;
    }
  }

  /** Without a last bucket there is no bucket at all, no capacity and
      nothing registered. */
  lemma NoBuckets<T>(s: Parts<T>, entries: map<nat, Link<nat>>)
    requires Core(s, entries) && s.lastBlock.Null?
    ensures s.blockOrder == [] && s.blocks == map[] && s.cap == 0 && s.firstBlock == Null
    ensures entries == map[]
  {
    assert s.blocks.Keys == {} by {
      assert forall b :: b in s.blocks ==> b in s.blockOrder;
    }
    assert entries.Keys == {};
  }

  /** A container with no element has no bucket: every bucket holds an
      element, and every element has a live node. So `cap_` is zero and the
      registry is empty. */
  lemma EmptyNoBuckets<T>(s: Parts<T>, entries: map<nat, Link<nat>>)
    requires Core(s, entries) && Occupied(s.blocks, Null) && s.chain == []
    ensures s.blocks == map[] && s.blockOrder == [] && s.cap == 0
    ensures s.firstBlock == Null && s.lastBlock == Null && entries == map[]
  {
    assert forall e :: e in entries ==> entries[e].data in s.blocks;
    assert forall j :: 0 <= j < |s.blockOrder| ==> s.blockOrder[j] in s.blocks;
    assert s.blocks.Keys == {} by {
      NoOwnerNoBucket(s.nodes, s.chain, s.blocks, s.owner, s.elements);
    }
  }

  /** Without live nodes no slot has an owner, so no bucket holds an
      element. */
  lemma NoOwnerNoBucket<T>(nodes: map<nat, ChainNode>, chain: seq<nat>, blocks: map<nat, Bucket<T>>,
                           owner: map<(nat, nat), nat>, elements: seq<T>)
    requires OwnerOk(nodes, chain, blocks, owner, elements) && chain == []
    requires forall b :: b in blocks ==> blocks[b].Valid()
    ensures forall b :: b in blocks ==> blocks[b].size == 0
  {
    assert owner.Keys == {};
    forall b | b in blocks ensures blocks[b].size == 0 {
      UsedNone(blocks[b].slots);
    }
  }

  /** Bucket `b` joins the end of the bucket list under the next unused id,
      and `cap_` grows by one bucket's capacity. */
  function Linked<T>(s: Parts<T>, b: Bucket<T>): Parts<T>
  {
    s.(blocks := s.blocks[s.nextBucket := b],
       blockOrder := s.blockOrder + [s.nextBucket],
       firstBlock := if s.firstBlock.Null? then Ref(s.nextBucket) else s.firstBlock,
       lastBlock := Ref(s.nextBucket),
       cap := s.cap + s.capacity,
       nextBucket := s.nextBucket + 1)
  }

  /** `resize` with the registry empty: a new empty bucket, registered under
      entry `n`, joins the end of the bucket list. */
  function Grown<T>(s: Parts<T>, n: nat): Parts<T>
  {
    Linked(s, FreshBucket(s.capacity).(node := n))
  }

  /** When the registry is empty every bucket is full, so after `resize` the
      invariant holds with the new bucket as the registry's only entry and the
      only bucket that may be empty, every bucket before it is full, and no
      other bucket changes. */
  lemma GrownKeeps<T>(s: Parts<T>, n: nat, entries: map<nat, Link<nat>>)
    requires Core(s, map[]) && Occupied(s.blocks, Null)
    requires entries.Keys == {n} && entries[n].data == s.nextBucket
    ensures s.nextBucket !in s.blocks
    ensures Core(Grown(s, n), entries)
    ensures Occupied(Grown(s, n).blocks, Ref(s.nextBucket))
    ensures PackedOk(Grown(s, n).blocks, Grown(s, n).blockOrder, s.capacity)
    ensures forall b :: b in s.blocks ==> b in Grown(s, n).blocks && Grown(s, n).blocks[b] == s.blocks[b]
  {
    GrownBuckets(s, n);
    GrownRegistry(s, n, entries);
    GrownOwner(s, n);
    GrownPacked(s, n);
  }

  lemma GrownBuckets<T>(s: Parts<T>, n: nat)
    requires BucketsOk(s.blocks, s.blockOrder, s.firstBlock, s.lastBlock, s.capacity, s.cap, s.nextBucket)
    ensures s.nextBucket !in s.blocks
    ensures BucketsOk(Grown(s, n).blocks, Grown(s, n).blockOrder, Grown(s, n).firstBlock, Grown(s, n).lastBlock,
                      s.capacity, Grown(s, n).cap, Grown(s, n).nextBucket)
  {
    FreshEntry<T>(s.capacity, n);
    BucketsGrow(s.blocks, s.blockOrder, s.firstBlock, s.lastBlock, s.capacity, s.cap, s.nextBucket, FreshBucket<T>(s.capacity).(node := n));
  }

  lemma GrownRegistry<T>(s: Parts<T>, n: nat, entries: map<nat, Link<nat>>)
    requires 0 < s.capacity
    requires BucketsOk(s.blocks, s.blockOrder, s.firstBlock, s.lastBlock, s.capacity, s.cap, s.nextBucket)
    requires RegistryOk(s.blocks, map[])
    requires entries.Keys == {n} && entries[n].data == s.nextBucket
    ensures RegistryOk(Grown(s, n).blocks, entries)
  {
    FreshEntry<T>(s.capacity, n);
    AllFull(s.blocks, s.capacity);
  }

  lemma GrownOwner<T>(s: Parts<T>, n: nat)
    requires BucketsOk(s.blocks, s.blockOrder, s.firstBlock, s.lastBlock, s.capacity, s.cap, s.nextBucket)
    requires OwnerOk(s.nodes, s.chain, s.blocks, s.owner, s.elements)
    ensures OwnerOk(s.nodes, s.chain, Grown(s, n).blocks, s.owner, s.elements)
  {
    FreshEntry<T>(s.capacity, n);
    OwnerGrow(s.nodes, s.chain, s.blocks, s.owner, s.elements, s.nextBucket, FreshBucket<T>(s.capacity).(node := n));
  }

  lemma GrownPacked<T>(s: Parts<T>, n: nat)
    requires BucketsOk(s.blocks, s.blockOrder, s.firstBlock, s.lastBlock, s.capacity, s.cap, s.nextBucket)
    requires RegistryOk(s.blocks, map[]) && Occupied(s.blocks, Null)
    ensures Occupied(Grown(s, n).blocks, Ref(s.nextBucket))
    ensures PackedOk(Grown(s, n).blocks, Grown(s, n).blockOrder, s.capacity)
  {
    AllFull(s.blocks, s.capacity);
    PackedGrow(s.blocks, s.blockOrder, s.nextBucket, FreshBucket<T>(s.capacity).(node := n), s.capacity);
  }

  lemma FreshEntry<T>(capacity: nat, n: nat)
    ensures FreshBucket<T>(capacity).(node := n).Valid()
    ensures FreshBucket<T>(capacity).(node := n).size == 0
    ensures FreshBucket<T>(capacity).(node := n).capacity == capacity
    ensures forall c :: 0 <= c < |FreshBucket<T>(capacity).(node := n).slots| ==> FreshBucket<T>(capacity).(node := n).slots[c].None?
  {
    FreshBucketValid<T>(capacity);
  }

  /** With the registry empty every bucket is full. */
  lemma AllFull<T>(blocks: map<nat, Bucket<T>>, capacity: nat)
    requires forall b :: b in blocks ==> blocks[b].Valid() && blocks[b].capacity == capacity
    requires RegistryOk(blocks, map[])
    ensures forall b :: b in blocks ==> blocks[b].size == capacity
  {
  }

  /** A sound bucket `nb` with a new id joins the end of the bucket list. */
  lemma BucketsGrow<T>(blocks: map<nat, Bucket<T>>, blockOrder: seq<nat>, firstBlock: Ptr, lastBlock: Ptr,
                       capacity: nat, cap: nat, nb: nat, added: Bucket<T>)
    requires BucketsOk(blocks, blockOrder, firstBlock, lastBlock, capacity, cap, nb)
    requires added.Valid() && added.capacity == capacity
    ensures BucketsOk(blocks[nb := added], blockOrder + [nb], if firstBlock.Null? then Ref(nb) else firstBlock, Ref(nb),
                      capacity, cap + capacity, nb + 1)
  {
    var o := blockOrder + [nb];
    var r := blocks[nb := added];
    forall i, j | 0 <= i < j < |o| ensures o[i] != o[j] {
      assert o[i] == blockOrder[i];
      if j == |blockOrder| {
        assert blockOrder[i] in blocks;
      } else {
        assert o[j] == blockOrder[j];
      }
    }
    forall b | b in r ensures b in o && b < nb + 1 && r[b].Valid() && r[b].capacity == capacity {
      if b != nb {
        var j :| 0 <= j < |blockOrder| && blockOrder[j] == b;
        assert o[j] == b;
      } else {
        assert o[|blockOrder|] == nb;
      }
    }
    forall j | 0 <= j < |o| ensures o[j] in r {
      if j < |blockOrder| {
        assert o[j] == blockOrder[j];
      }
    }
    AppendEnds(blockOrder, nb);
    MulSucc(|blockOrder|, capacity);
  }

  lemma MulSucc(a: nat, c: nat)
    ensures (a + 1) * c == a * c + c
  {
  }

  /** A bucket list that gains a bucket `nb` with every slot empty, the others
      unchanged: every slot keeps its owner. */
  lemma OwnerGrow<T>(nodes: map<nat, ChainNode>, chain: seq<nat>, blocks: map<nat, Bucket<T>>,
                     owner: map<(nat, nat), nat>, elements: seq<T>, nb: nat, added: Bucket<T>)
    requires OwnerOk(nodes, chain, blocks, owner, elements) && nb !in blocks
    requires forall c :: 0 <= c < |added.slots| ==> added.slots[c].None?
    ensures OwnerOk(nodes, chain, blocks[nb := added], owner, elements)
  {
    var r := blocks[nb := added];
    forall p | p in owner ensures p.0 != nb {
      var i :| 0 <= i < |chain| && chain[i] == owner[p];
      assert Holds(nodes, blocks, owner, chain[i], elements[i]);
    }
    forall i | 0 <= i < |chain| ensures Holds(nodes, r, owner, chain[i], elements[i]) {
      assert Holds(nodes, blocks, owner, chain[i], elements[i]);
    }
  }

  /** A new bucket after full ones leaves the list packed. */
  lemma PackedGrow<T>(blocks: map<nat, Bucket<T>>, blockOrder: seq<nat>, nb: nat, added: Bucket<T>, capacity: nat)
    requires forall b :: b in blocks ==> blocks[b].size == capacity
    requires forall j :: 0 <= j < |blockOrder| ==> blockOrder[j] in blocks
    requires nb !in blocks
    ensures PackedOk(blocks[nb := added], blockOrder + [nb], capacity)
  {
    var o := blockOrder + [nb];
    forall j | 0 <= j < |o| - 1 ensures o[j] in blocks[nb := added] && blocks[nb := added][o[j]].size == capacity {
      assert o[j] == blockOrder[j];
    }
  }
}
