/** `erase` on plain values: the node of the `i`-th element leaves the chain,
    its slot goes back on its bucket's free stack, and a bucket left empty is
    taken out of the bucket list and of the registry. */
module Erasing {
  import opened Links
  import opened Buckets
  import opened StorageState
  import opened Inserting

  /** What erasing the `i`-th live node needs of a state: the node, its
      element and the count exist, and a bucket that empties is in the list
      and counted in `cap_`. */
  ghost predicate ErasablePre<T>(s: Parts<T>, i: nat, b2: Bucket<T>)
  {
    && i < |s.chain| && i < |s.elements| && 0 < s.sz
    && (b2.size == 0 ==> PlaceOf(s.nodes, s.chain[i]).0 in s.blockOrder && s.capacity <= s.cap)
  }

  /** The whole step on the container's fields: node `k`, the `i`-th live
      node, is unlinked (`first_` moves on when it was `k`), the element and
      the slot's owner go, and the node's bucket becomes `b2`, or, when `b2`
      is empty, leaves the bucket list (`first_block_` and `last_block_`
      move past it when it was an end) and `cap_` shrinks by one bucket. */
  ghost function Erased<T>(s: Parts<T>, i: nat, b2: Bucket<T>): Parts<T>
    requires ErasablePre(s, i, b2)
  {
    var k := s.chain[i];
    var p := PlaceOf(s.nodes, k);
    var j := if b2.size == 0 then IndexOf(s.blockOrder, p.0) else 0;
    s.(nodes := s.nodes - {k},
       chain := RemoveAt(s.chain, i),
       first := if s.first == Ref(k) then After(s.chain, s.last, i) else s.first,
       sz := s.sz - 1,
       owner := s.owner - {p},
       elements := RemoveAt(s.elements, i),
       blocks := if b2.size == 0 then s.blocks - {p.0} else s.blocks[p.0 := b2],
       blockOrder := if b2.size == 0 then RemoveAt(s.blockOrder, j) else s.blockOrder,
       firstBlock := if b2.size == 0 && s.firstBlock == Ref(p.0) then NextOf(s.blockOrder, j) else s.firstBlock,
       lastBlock := if b2.size == 0 && s.lastBlock == Ref(p.0) then PrevOf(s.blockOrder, j) else s.lastBlock,
       cap := if b2.size == 0 then s.cap - s.capacity else s.cap)
  }

  /** How the registry's arena changes when an element leaves bucket `row`,
      which was `b0` and becomes `b2`: a full bucket is registered under a
      new entry `b2.node` first, an emptied bucket's entry `b2.node` is taken
      out, and every other entry keeps its bucket. */
  ghost predicate Deregistered<T>(e0: map<nat, Link<nat>>, e2: map<nat, Link<nat>>, row: nat, b0: Bucket<T>, b2: Bucket<T>)
  {
    && (b0.size < b0.capacity ==> b2.node == b0.node)
    && (b0.size >= b0.capacity ==> b2.node !in e0)
    && (forall x :: x in e0 && x != b2.node ==> x in e2 && e2[x].data == e0[x].data)
    && (forall x :: x in e2 ==> x in e0 || x == b2.node)
    && (b2.size > 0 ==> b2.node in e2 && e2[b2.node].data == row)
    && (b2.size == 0 ==> b2.node !in e2)
  }

  /** The registry's two steps in `erase` make up `Deregistered`: from
      `e0` a full bucket gains an entry (`e1`), then an emptied bucket loses
      its entry (`e2`). */
  lemma DeregisteredSteps<T>(e0: map<nat, Link<nat>>, e1: map<nat, Link<nat>>, e2: map<nat, Link<nat>>,
                             row: nat, b0: Bucket<T>, b: Bucket<T>, b2: Bucket<T>)
    requires b.node in e1 && e1[b.node].data == row && b2.node == b.node
    requires b0.size < b0.capacity ==> b.node == b0.node && e1 == e0
    requires b0.size >= b0.capacity ==> b.node !in e0 && e1.Keys == e0.Keys + {b.node}
    requires forall e :: e in e0 ==> e in e1 && e1[e].data == e0[e].data
    requires b2.size > 0 ==> e2 == e1
    requires b2.size == 0 ==> e2.Keys == e1.Keys - {b.node}
    requires forall e :: e in e2 ==> e2[e].data == e1[e].data
    ensures Deregistered(e0, e2, row, b0, b2)
  {
  }

  /** The slot of the `i`-th live node, and the facts about its bucket that
      `erase` relies on. */
  lemma SlotOf<T>(s: Parts<T>, e0: map<nat, Link<nat>>, i: nat)
    requires Core(s, e0) && i < |s.chain|
    ensures var p := PlaceOf(s.nodes, s.chain[i]);
      && p.0 in s.blocks && s.blocks[p.0].Valid() && p.1 < s.blocks[p.0].capacity
      && s.blocks[p.0].slots[p.1].Some?
      && (s.blocks[p.0].size < s.blocks[p.0].capacity ==> s.blocks[p.0].node in e0 && e0[s.blocks[p.0].node].data == p.0)
  {
    assert Holds(s.nodes, s.blocks, s.owner, s.chain[i], s.elements[i]);
  }

  /** Erasing keeps the invariant: the chain loses the node and nothing
      else, the owners and elements follow, the bucket list loses the bucket
      only when it emptied, and the registry still holds exactly the buckets
      with a free slot. */
  lemma EraseKeeps<T>(s: Parts<T>, e0: map<nat, Link<nat>>, e2: map<nat, Link<nat>>, i: nat, b2: Bucket<T>, t: Parts<T>)
    requires Core(s, e0) && Occupied(s.blocks, Null) && i < |s.chain|
    requires PlaceOf(s.nodes, s.chain[i]).0 in s.blocks && PlaceOf(s.nodes, s.chain[i]).1 < s.blocks[PlaceOf(s.nodes, s.chain[i]).0].capacity
    requires s.blocks[PlaceOf(s.nodes, s.chain[i]).0].Valid() && s.blocks[PlaceOf(s.nodes, s.chain[i]).0].slots[PlaceOf(s.nodes, s.chain[i]).1].Some?
    requires b2 == s.blocks[PlaceOf(s.nodes, s.chain[i]).0].(node := b2.node).Del(PlaceOf(s.nodes, s.chain[i]).1)
    requires Deregistered(e0, e2, PlaceOf(s.nodes, s.chain[i]).0, s.blocks[PlaceOf(s.nodes, s.chain[i]).0], b2)
    requires ErasablePre(s, i, b2) && t == Erased(s, i, b2)
    ensures Core(t, e2) && Occupied(t.blocks, Null)
  {
    ErasedChainPart(s, i, b2);
    ErasedBucketPart(s, e0, e2, i, b2);
  }

  /** `erase` may run: the state meets what `Erased` needs. */
  lemma ErasablePreHolds<T>(s: Parts<T>, e0: map<nat, Link<nat>>, i: nat, b2: Bucket<T>)
    requires Core(s, e0) && i < |s.chain|
    requires PlaceOf(s.nodes, s.chain[i]).0 in s.blocks
    ensures ErasablePre(s, i, b2)
  {
    var row := PlaceOf(s.nodes, s.chain[i]).0;
    assert row in s.blockOrder;
    var j :| 0 <= j < |s.blockOrder| && s.blockOrder[j] == row;
    MulPred(|s.blockOrder|, |s.blockOrder| - 1, s.capacity);
  }

  /** One bucket fewer: `cap_` drops by one bucket's capacity. */
  lemma MulPred(n: nat, m: nat, c: nat)
    requires n == m + 1
    ensures c <= n * c && n * c - c == m * c
  {
    MulSucc(m, c);
  }

  /** The chain and the slot owners after erasing. */
  lemma ErasedChainPart<T>(s: Parts<T>, i: nat, b2: Bucket<T>)
    requires ChainOk(s.nodes, s.chain, s.last, s.first, s.time, s.nextNode) && s.sz == |s.chain|
    requires OwnerOk(s.nodes, s.chain, s.blocks, s.owner, s.elements)
    requires ErasablePre(s, i, b2)
    requires PlaceOf(s.nodes, s.chain[i]).0 in s.blocks && b2.Valid()
    requires b2.slots == s.blocks[PlaceOf(s.nodes, s.chain[i]).0].slots[PlaceOf(s.nodes, s.chain[i]).1 := None]
    ensures var t := Erased(s, i, b2);
      && ChainOk(t.nodes, t.chain, t.last, t.first, t.time, t.nextNode) && t.sz == |t.chain|
      && OwnerOk(t.nodes, t.chain, t.blocks, t.owner, t.elements)
  {
    ErasedChain(s.nodes, s.chain, s.last, s.first, s.time, s.nextNode, i);
    ErasedOwner(s.nodes, s.chain, s.blocks, s.owner, s.elements, i, b2);
  }

  /** The bucket list and the registry after erasing. */
  lemma ErasedBucketPart<T>(s: Parts<T>, e0: map<nat, Link<nat>>, e2: map<nat, Link<nat>>, i: nat, b2: Bucket<T>)
    requires BucketsOk(s.blocks, s.blockOrder, s.firstBlock, s.lastBlock, s.capacity, s.cap, s.nextBucket)
    requires RegistryOk(s.blocks, e0) && Occupied(s.blocks, Null) && 0 < s.capacity
    requires ErasablePre(s, i, b2)
    requires PlaceOf(s.nodes, s.chain[i]).0 in s.blocks
    requires b2.Valid() && b2.capacity == s.capacity && b2.size < b2.capacity
    requires Deregistered(e0, e2, PlaceOf(s.nodes, s.chain[i]).0, s.blocks[PlaceOf(s.nodes, s.chain[i]).0], b2)
    ensures var t := Erased(s, i, b2);
      && BucketsOk(t.blocks, t.blockOrder, t.firstBlock, t.lastBlock, t.capacity, t.cap, t.nextBucket)
      && RegistryOk(t.blocks, e2) && Occupied(t.blocks, Null) && 0 < t.capacity
  {
    ErasedList(s, i, b2);
    ErasedRegistry(s.blocks, e0, e2, PlaceOf(s.nodes, s.chain[i]).0, b2);
  }

  lemma ErasedList<T>(s: Parts<T>, i: nat, b2: Bucket<T>)
    requires BucketsOk(s.blocks, s.blockOrder, s.firstBlock, s.lastBlock, s.capacity, s.cap, s.nextBucket)
    requires ErasablePre(s, i, b2)
    requires PlaceOf(s.nodes, s.chain[i]).0 in s.blocks && b2.Valid() && b2.capacity == s.capacity
    ensures var t := Erased(s, i, b2);
      BucketsOk(t.blocks, t.blockOrder, t.firstBlock, t.lastBlock, t.capacity, t.cap, t.nextBucket)
  {
    var row := PlaceOf(s.nodes, s.chain[i]).0;
    if b2.size == 0 {
      ErasedBucketsDropped(s.blocks, s.blockOrder, s.firstBlock, s.lastBlock, s.capacity, s.cap, s.nextBucket, row);
    } else {
      PlacedBuckets(s.blocks, s.blockOrder, s.firstBlock, s.lastBlock, s.capacity, s.cap, s.nextBucket, row, b2);
    }
  }

  lemma ErasedChain(nodes: map<nat, ChainNode>, chain: seq<nat>, last: nat, first: Ptr, time: nat, nextNode: nat, i: nat)
    requires ChainOk(nodes, chain, last, first, time, nextNode) && i < |chain|
    ensures ChainOk(nodes - {chain[i]}, RemoveAt(chain, i), last,
                    if first == Ref(chain[i]) then After(chain, last, i) else first, time, nextNode)
  {
    var k := chain[i];
    var n := nodes - {k};
    var c := RemoveAt(chain, i);
    RemoveAtDistinct(chain, i);
    assert nodes[k].Element?;
    forall j | 0 <= j < |c| ensures c[j] in n && n[c[j]].Element? && StampOf(n, c[j]) < time {
      var o := if j < i then j else j + 1;
      assert c[j] == chain[o] && chain[o] in nodes;
    }
    forall a, b | 0 <= a < b < |c| ensures StampOf(n, c[a]) < StampOf(n, c[b]) {
      var oa := if a < i then a else a + 1;
      var ob := if b < i then b else b + 1;
      assert c[a] == chain[oa] && c[b] == chain[ob];
    }
    if c != [] {
      if i == 0 {
        assert c[0] == chain[1];
      } else {
        assert c[0] == chain[0];
      }
    }
  }

  lemma ErasedOwner<T>(nodes: map<nat, ChainNode>, chain: seq<nat>, blocks: map<nat, Bucket<T>>,
                       owner: map<(nat, nat), nat>, elements: seq<T>, i: nat, b2: Bucket<T>)
    requires OwnerOk(nodes, chain, blocks, owner, elements) && Distinct(chain) && i < |chain|
    requires PlaceOf(nodes, chain[i]).0 in blocks && b2.Valid()
    requires b2.slots == blocks[PlaceOf(nodes, chain[i]).0].slots[PlaceOf(nodes, chain[i]).1 := None]
    ensures var p := PlaceOf(nodes, chain[i]);
      OwnerOk(nodes - {chain[i]}, RemoveAt(chain, i),
              if b2.size == 0 then blocks - {p.0} else blocks[p.0 := b2],
              owner - {p}, RemoveAt(elements, i))
  {
    ErasedHolds(nodes, chain, blocks, owner, elements, i, b2);
    ErasedOwners(nodes, chain, blocks, owner, elements, i);
    ErasedSlots(nodes, chain, blocks, owner, elements, i, b2);
  }

  /** Every remaining live node still holds its element. */
  lemma ErasedHolds<T>(nodes: map<nat, ChainNode>, chain: seq<nat>, blocks: map<nat, Bucket<T>>,
                       owner: map<(nat, nat), nat>, elements: seq<T>, i: nat, b2: Bucket<T>)
    requires OwnerOk(nodes, chain, blocks, owner, elements) && Distinct(chain) && i < |chain|
    requires PlaceOf(nodes, chain[i]).0 in blocks && b2.Valid()
    requires b2.slots == blocks[PlaceOf(nodes, chain[i]).0].slots[PlaceOf(nodes, chain[i]).1 := None]
    ensures var p := PlaceOf(nodes, chain[i]);
      forall j :: 0 <= j < |RemoveAt(chain, i)| ==>
        Holds(nodes - {chain[i]}, if b2.size == 0 then blocks - {p.0} else blocks[p.0 := b2],
              owner - {p}, RemoveAt(chain, i)[j], RemoveAt(elements, i)[j])
  {
    var k := chain[i];
    var p := PlaceOf(nodes, k);
    var n := nodes - {k};
    var c := RemoveAt(chain, i);
    var r := if b2.size == 0 then blocks - {p.0} else blocks[p.0 := b2];
    var o := owner - {p};
    var es := RemoveAt(elements, i);
    assert Holds(nodes, blocks, owner, k, elements[i]);
    UsedNone(b2.slots);
    forall j | 0 <= j < |c| ensures Holds(n, r, o, c[j], es[j]) {
      var x := if j < i then j else j + 1;
      assert c[j] == chain[x] && es[j] == elements[x];
      assert Holds(nodes, blocks, owner, chain[x], elements[x]);
      assert chain[x] != k;
      var q := PlaceOf(nodes, chain[x]);
      assert q != p && PlaceOf(n, c[j]) == q;
      if q.0 == p.0 {
        assert b2.slots[q.1].Some?;
      }
    }
  }

  /** Every remaining owner is a remaining live node pointing at its slot. */
  lemma ErasedOwners<T>(nodes: map<nat, ChainNode>, chain: seq<nat>, blocks: map<nat, Bucket<T>>,
                        owner: map<(nat, nat), nat>, elements: seq<T>, i: nat)
    requires OwnerOk(nodes, chain, blocks, owner, elements) && Distinct(chain) && i < |chain|
    ensures var p := PlaceOf(nodes, chain[i]);
      forall q :: q in owner - {p} ==>
        (owner - {p})[q] in RemoveAt(chain, i) && PlaceOf(nodes - {chain[i]}, (owner - {p})[q]) == q
  {
    var k := chain[i];
    var p := PlaceOf(nodes, k);
    assert Holds(nodes, blocks, owner, k, elements[i]);
    RemoveAtDistinct(chain, i);
    forall q | q in owner - {p} ensures owner[q] in RemoveAt(chain, i) && PlaceOf(nodes - {k}, owner[q]) == q {
      assert owner[q] != k;
    }
  }

  /** A slot of a remaining bucket is occupied exactly when it has an owner. */
  lemma ErasedSlots<T>(nodes: map<nat, ChainNode>, chain: seq<nat>, blocks: map<nat, Bucket<T>>,
                       owner: map<(nat, nat), nat>, elements: seq<T>, i: nat, b2: Bucket<T>)
    requires OwnerOk(nodes, chain, blocks, owner, elements) && i < |chain|
    requires PlaceOf(nodes, chain[i]).0 in blocks
    requires b2.slots == blocks[PlaceOf(nodes, chain[i]).0].slots[PlaceOf(nodes, chain[i]).1 := None]
    ensures var p := PlaceOf(nodes, chain[i]);
      var r := if b2.size == 0 then blocks - {p.0} else blocks[p.0 := b2];
      forall b: nat, d: nat :: b in r && d < |r[b].slots| ==> (r[b].slots[d].Some? <==> (b, d) in owner - {p})
  {
    var p := PlaceOf(nodes, chain[i]);
    var r := if b2.size == 0 then blocks - {p.0} else blocks[p.0 := b2];
    assert Holds(nodes, blocks, owner, chain[i], elements[i]);
    forall b: nat, d: nat | b in r && d < |r[b].slots| ensures r[b].slots[d].Some? <==> (b, d) in owner - {p} {
      if b == p.0 {
        assert r[b] == b2;
      }
    }
  }

  lemma ErasedBucketsDropped<T>(blocks: map<nat, Bucket<T>>, order: seq<nat>, firstBlock: Ptr, lastBlock: Ptr,
                                capacity: nat, cap: nat, nextBucket: nat, row: nat)
    requires BucketsOk(blocks, order, firstBlock, lastBlock, capacity, cap, nextBucket) && row in blocks
    ensures row in order && capacity <= cap
    ensures var j := IndexOf(order, row);
      BucketsOk(blocks - {row}, RemoveAt(order, j),
                if firstBlock == Ref(row) then NextOf(order, j) else firstBlock,
                if lastBlock == Ref(row) then PrevOf(order, j) else lastBlock,
                capacity, cap - capacity, nextBucket)
  {
    var j := IndexOf(order, row);
    var o := RemoveAt(order, j);
    RemoveAtDistinct(order, j);
    RemoveEnds(order, j);
    MulPred(|order|, |o|, capacity);
    forall x | 0 <= x < |o| ensures o[x] in blocks - {row} {
      var y := if x < j then x else x + 1;
      assert o[x] == order[y];
    }
  }

  lemma ErasedRegistry<T>(blocks: map<nat, Bucket<T>>, e0: map<nat, Link<nat>>, e2: map<nat, Link<nat>>, row: nat, b2: Bucket<T>)
    requires RegistryOk(blocks, e0) && Occupied(blocks, Null) && row in blocks
    requires b2.capacity == blocks[row].capacity && b2.size < b2.capacity
    requires Deregistered(e0, e2, row, blocks[row], b2)
    ensures RegistryOk(if b2.size == 0 then blocks - {row} else blocks[row := b2], e2)
    ensures Occupied(if b2.size == 0 then blocks - {row} else blocks[row := b2], Null)
  {
    var r := if b2.size == 0 then blocks - {row} else blocks[row := b2];
    forall x | x in e2 ensures e2[x].data in r && r[e2[x].data].node == x && r[e2[x].data].size < r[e2[x].data].capacity {
      if x != b2.node {
        assert e0[x].data != row;
      }
    }
    forall d | d in r && r[d].size < r[d].capacity ensures r[d].node in e2 && e2[r[d].node].data == d {
      if d != row {
        assert blocks[d].node in e0 && blocks[d].node != b2.node;
      }
    }
  }
}
