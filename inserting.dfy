/** `insert_element` on plain values: the element goes into the slot on top
    of the free stack of the bucket on top of the registry, and a new chain
    node for it is spliced in just before the sentinel. */
module Inserting {
  import opened Links
  import opened Buckets
  import opened StorageState

  /** A new node for slot `ind` of bucket `row`, stamped with the current
      `time_`, joins the end of the chain under the next unused id. */
  function AddedNode<T>(s: Parts<T>, row: nat, ind: nat): Parts<T>
  {
    s.(nodes := s.nodes[s.nextNode := Element(row, ind, s.time)],
       chain := s.chain + [s.nextNode],
       nextNode := s.nextNode + 1)
  }

  /** `time_` and `sz_` advance, and `first_` becomes node `k` when the
      container was empty. */
  function Counted<T>(s: Parts<T>, k: nat): Parts<T>
  {
    s.(time := s.time + 1,
       first := if s.sz == 0 then Ref(k) else s.first,
       sz := s.sz + 1)
  }

  /** Bucket `row` becomes `b`, node `k` owns slot `ind` of it, and `v` is
      the newest element. */
  function Stored<T>(s: Parts<T>, row: nat, ind: nat, b: Bucket<T>, v: T, k: nat): Parts<T>
  {
    s.(blocks := s.blocks[row := b],
       owner := s.owner[(row, ind) := k],
       elements := s.elements + [v])
  }

  /** The whole step: `v` stored in slot `ind` of bucket `row`, which becomes
      `b`, with a new node at the end of the chain. */
  function Placed<T>(s: Parts<T>, row: nat, ind: nat, b: Bucket<T>, v: T): Parts<T>
  {
    s.(nodes := s.nodes[s.nextNode := Element(row, ind, s.time)],
       chain := s.chain + [s.nextNode],
       nextNode := s.nextNode + 1,
       time := s.time + 1,
       first := if s.sz == 0 then Ref(s.nextNode) else s.first,
       sz := s.sz + 1,
       blocks := s.blocks[row := b],
       owner := s.owner[(row, ind) := s.nextNode],
       elements := s.elements + [v])
  }

  /** The three stages in turn make up the whole step. */
  lemma PlacedInStages<T>(s: Parts<T>, row: nat, ind: nat, b: Bucket<T>, v: T)
    ensures Stored(Counted(AddedNode(s, row, ind), s.nextNode), row, ind, b, v, s.nextNode) == Placed(s, row, ind, b, v)
  {
  }

  /** A placement leaves the sentinel and every node already there as they
      were, and the new node records the slot it fills and the old `time_`. */
  lemma PlacedNodes<T>(s: Parts<T>, row: nat, ind: nat, b: Bucket<T>, v: T, t: Parts<T>)
    requires t == Placed(s, row, ind, b, v) && s.nextNode !in s.nodes
    ensures t.last == s.last && t.nextNode - 1 == s.nextNode
    ensures forall k :: k in s.nodes ==> k in t.nodes && t.nodes[k] == s.nodes[k]
    ensures s.nextNode in t.nodes && t.nodes[s.nextNode] == Element(row, ind, s.time)
  {
  }

  /** An insertion into a bucket that `resize` has just added, with the new
      registry entry `n`, fills that bucket as it would fill a new one. */
  lemma FreshRowFilled<T>(b0: map<nat, Bucket<T>>, b1: map<nat, Bucket<T>>, b2: map<nat, Bucket<T>>,
                          row: nat, capacity: nat, n: nat, v: T)
    requires b1 == b0[row := FreshBucket<T>(capacity).(node := n)]
    requires b1[row].Valid() && b1[row].HasFreePlaces()
    requires row in b2 && b2 == b1[row := b1[row].InsertElement(v).0.(node := b2[row].node)]
    ensures FreshBucket<T>(capacity).Valid() && FreshBucket<T>(capacity).HasFreePlaces()
    ensures b2 == b0[row := FreshBucket<T>(capacity).InsertElement(v).0.(node := b2[row].node)]
  {
    FreshBucketValid<T>(capacity);
    InsertIgnoresNode(FreshBucket<T>(capacity), n, v);
    assert b1[row].InsertElement(v).0.(node := b2[row].node) == FreshBucket<T>(capacity).InsertElement(v).0.(node := b2[row].node);
  }

  /** The bucket a registry entry names exists and has a free slot. */
  lemma TopFree<T>(s: Parts<T>, e0: map<nat, Link<nat>>, top: nat)
    requires Core(s, e0) && top in e0
    ensures e0[top].data in s.blocks && s.blocks[e0[top].data].Valid() && s.blocks[e0[top].data].HasFreePlaces()
  {
  }

  /** How the registry's arena changes when the entry `top` of bucket `row`
      is popped and, while the bucket `b` it became still has a free slot,
      a new entry `b.node` for it is pushed: every other entry keeps its
      bucket, and no other entry appears. */
  ghost predicate Reregistered<T>(e0: map<nat, Link<nat>>, e2: map<nat, Link<nat>>, top: nat, row: nat, b: Bucket<T>)
  {
    && (forall x :: x in e0 && x != top ==> x in e2 && e2[x].data == e0[x].data)
    && (forall x :: x in e2 ==> (x in e0 && x != top) || (b.size < b.capacity && x == b.node))
    && (b.size < b.capacity ==> b.node in e2 && e2[b.node].data == row && (b.node !in e0 || b.node == top))
  }

  /** The registry's two steps in `insert_element` make up `Reregistered`:
      the top entry `top` of bucket `row` is popped (`e1`), then, while the
      bucket `b` still has a free slot, a new entry `b.node` is pushed (`e2`). */
  lemma ReregisteredSteps<T>(e0: map<nat, Link<nat>>, e1: map<nat, Link<nat>>, e2: map<nat, Link<nat>>,
                             top: nat, row: nat, b: Bucket<T>)
    requires top in e0 && e0[top].data == row
    requires e1.Keys == e0.Keys - {top} && forall x :: x in e1 ==> e1[x].data == e0[x].data
    requires b.size < b.capacity ==> b.node !in e1 && e2.Keys == e1.Keys + {b.node} && e2[b.node].data == row
    requires b.size < b.capacity ==> forall x :: x in e1 ==> e2[x].data == e1[x].data
    requires b.size >= b.capacity ==> e2 == e1
    ensures Reregistered(e0, e2, top, row, b)
  {
  }

  /** Inserting `v` keeps the invariant: the new node is the last live node,
      the bucket that received it is no longer empty, the registry still holds
      exactly the buckets with a free slot, and a list whose buckets were all
      full but the newest stays so. */
  lemma InsertKeeps<T>(s: Parts<T>, e0: map<nat, Link<nat>>, e2: map<nat, Link<nat>>, top: nat, row: nat,
                       ind: nat, b: Bucket<T>, v: T, t: Parts<T>)
    requires Core(s, e0) && Occupied(s.blocks, Ref(row))
    requires top in e0 && e0[top].data == row
    requires row in s.blocks && s.blocks[row].Valid() && s.blocks[row].HasFreePlaces()
    requires ind == s.blocks[row].InsertElement(v).1 && b == s.blocks[row].InsertElement(v).0.(node := b.node)
    requires Reregistered(e0, e2, top, row, b)
    requires t == Placed(s, row, ind, b, v)
    ensures Core(t, e2) && Occupied(t.blocks, Null)
    ensures PackedOk(s.blocks, s.blockOrder, s.capacity) ==> PackedOk(t.blocks, t.blockOrder, t.capacity)
  {
    assert b.Valid() && b.size == s.blocks[row].size + 1;
    PlacedChainPart(s, row, ind, b, v);
    PlacedBucketPart(s, e0, e2, top, row, ind, b, v);
  }

  /** The chain and the slot owners after inserting. */
  lemma PlacedChainPart<T>(s: Parts<T>, row: nat, ind: nat, b: Bucket<T>, v: T)
    requires ChainOk(s.nodes, s.chain, s.last, s.first, s.time, s.nextNode) && s.sz == |s.chain|
    requires OwnerOk(s.nodes, s.chain, s.blocks, s.owner, s.elements)
    requires row in s.blocks && ind < |s.blocks[row].slots| && s.blocks[row].slots[ind].None?
    requires b.slots == s.blocks[row].slots[ind := Some(v)]
    ensures var t := Placed(s, row, ind, b, v);
      && ChainOk(t.nodes, t.chain, t.last, t.first, t.time, t.nextNode) && t.sz == |t.chain|
      && OwnerOk(t.nodes, t.chain, t.blocks, t.owner, t.elements)
  {
    PlacedChain(s.nodes, s.chain, s.last, s.first, s.time, s.nextNode, row, ind);
    PlacedOwner(s.nodes, s.chain, s.blocks, s.owner, s.elements, s.time, s.nextNode, row, ind, b, v);
  }

  /** The bucket list and the registry after inserting. */
  lemma PlacedBucketPart<T>(s: Parts<T>, e0: map<nat, Link<nat>>, e2: map<nat, Link<nat>>, top: nat, row: nat,
                            ind: nat, b: Bucket<T>, v: T)
    requires BucketsOk(s.blocks, s.blockOrder, s.firstBlock, s.lastBlock, s.capacity, s.cap, s.nextBucket)
    requires RegistryOk(s.blocks, e0) && Occupied(s.blocks, Ref(row))
    requires top in e0 && e0[top].data == row && row in s.blocks
    requires 0 < s.capacity && b.Valid() && b.capacity == s.capacity && b.size > 0 && s.blocks[row].size < s.capacity
    requires Reregistered(e0, e2, top, row, b)
    ensures var t := Placed(s, row, ind, b, v);
      && BucketsOk(t.blocks, t.blockOrder, t.firstBlock, t.lastBlock, t.capacity, t.cap, t.nextBucket)
      && RegistryOk(t.blocks, e2) && Occupied(t.blocks, Null) && 0 < t.capacity
    ensures PackedOk(s.blocks, s.blockOrder, s.capacity) ==> PackedOk(Placed(s, row, ind, b, v).blocks, s.blockOrder, s.capacity)
  {
    PlacedBuckets(s.blocks, s.blockOrder, s.firstBlock, s.lastBlock, s.capacity, s.cap, s.nextBucket, row, b);
    PlacedRegistry(s.blocks, e0, e2, top, row, b);
    PlacedOccupied(s.blocks, row, b);
    PlacedPacked(s.blocks, s.blockOrder, s.capacity, row, b);
  }

  lemma PlacedOccupied<T>(blocks: map<nat, Bucket<T>>, row: nat, b: Bucket<T>)
    requires Occupied(blocks, Ref(row)) && b.size > 0
    ensures Occupied(blocks[row := b], Null)
  {
  }

  lemma PlacedChain(nodes: map<nat, ChainNode>, chain: seq<nat>, last: nat, first: Ptr, time: nat, k: nat, row: nat, ind: nat)
    requires ChainOk(nodes, chain, last, first, time, k)
    ensures k !in nodes && k !in chain
    ensures ChainOk(nodes[k := Element(row, ind, time)], chain + [k], last,
                    if chain == [] then Ref(k) else first, time + 1, k + 1)
  {
    var n := nodes[k := Element(row, ind, time)];
    var c := chain + [k];
    forall i | 0 <= i < |chain| ensures chain[i] != k {
      assert chain[i] in nodes;
    }
    AppendDistinct(chain, k);
    forall i | 0 <= i < |c| ensures c[i] in n && n[c[i]].Element? && StampOf(n, c[i]) < time + 1 {
      if i < |chain| {
        assert c[i] == chain[i] && chain[i] in nodes;
      }
    }
    forall i, j | 0 <= i < j < |c| ensures StampOf(n, c[i]) < StampOf(n, c[j]) {
      assert c[i] == chain[i] && chain[i] in nodes;
      if j < |chain| {
        assert c[j] == chain[j] && chain[j] in nodes;
      }
    }
    if chain != [] {
      assert c[0] == chain[0];
    }
  }

  lemma PlacedBuckets<T>(blocks: map<nat, Bucket<T>>, blockOrder: seq<nat>, firstBlock: Ptr, lastBlock: Ptr,
                         capacity: nat, cap: nat, nextBucket: nat, row: nat, b: Bucket<T>)
    requires BucketsOk(blocks, blockOrder, firstBlock, lastBlock, capacity, cap, nextBucket)
    requires row in blocks && b.Valid() && b.capacity == capacity
    ensures BucketsOk(blocks[row := b], blockOrder, firstBlock, lastBlock, capacity, cap, nextBucket)
  {
  }

  lemma PlacedRegistry<T>(blocks: map<nat, Bucket<T>>, e0: map<nat, Link<nat>>, e2: map<nat, Link<nat>>,
                          top: nat, row: nat, b: Bucket<T>)
    requires RegistryOk(blocks, e0) && top in e0 && e0[top].data == row && row in blocks
    requires b.capacity == blocks[row].capacity
    requires Reregistered(e0, e2, top, row, b)
    ensures RegistryOk(blocks[row := b], e2)
  {
    var r := blocks[row := b];
    forall x | x in e2 ensures e2[x].data in r && r[e2[x].data].node == x && r[e2[x].data].size < r[e2[x].data].capacity {
      if !(b.size < b.capacity && x == b.node) {
        assert e0[x].data != row;
      }
    }
    forall d | d in r && r[d].size < r[d].capacity ensures r[d].node in e2 && e2[r[d].node].data == d {
      if d != row {
        assert blocks[d].node != top;
      }
    }
  }

  lemma PlacedOwner<T>(nodes: map<nat, ChainNode>, chain: seq<nat>, blocks: map<nat, Bucket<T>>,
                       owner: map<(nat, nat), nat>, elements: seq<T>, time: nat, k: nat,
                       row: nat, ind: nat, b: Bucket<T>, v: T)
    requires OwnerOk(nodes, chain, blocks, owner, elements)
    requires k !in nodes && row in blocks && ind < |blocks[row].slots| && blocks[row].slots[ind].None?
    requires b.slots == blocks[row].slots[ind := Some(v)]
    ensures OwnerOk(nodes[k := Element(row, ind, time)], chain + [k], blocks[row := b], owner[(row, ind) := k], elements + [v])
  {
    var n := nodes[k := Element(row, ind, time)];
    var c := chain + [k];
    var r := blocks[row := b];
    var o := owner[(row, ind) := k];
    var es := elements + [v];
    assert (row, ind) !in owner;
    forall i | 0 <= i < |c| ensures Holds(n, r, o, c[i], es[i]) {
      if i < |chain| {
        assert c[i] == chain[i] && es[i] == elements[i];
        assert Holds(nodes, blocks, owner, chain[i], elements[i]);
        assert PlaceOf(nodes, chain[i]) != (row, ind);
      }
    }
    forall p | p in o ensures o[p] in c && PlaceOf(n, o[p]) == p {
      if p != (row, ind) {
        var i :| 0 <= i < |chain| && chain[i] == owner[p];
        assert Holds(nodes, blocks, owner, chain[i], elements[i]);
        assert c[i] == owner[p];
      } else {
        assert c[|chain|] == k;
      }
    }
  }

  lemma PlacedPacked<T>(blocks: map<nat, Bucket<T>>, blockOrder: seq<nat>, capacity: nat, row: nat, b: Bucket<T>)
    requires row in blocks && blocks[row].size < capacity
    ensures PackedOk(blocks, blockOrder, capacity) ==> PackedOk(blocks[row := b], blockOrder, capacity)
  {
  }
}
