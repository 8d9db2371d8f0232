/** The container (`BucketStorage<T>`): elements live in the slots of
    fixed-capacity buckets, and a chain of nodes, one per element followed by a
    sentinel, records the insertion order that iterators walk. */
module Storage {
  import opened Links
  import opened Buckets
  import opened Registry
  import opened StorageState
  import opened Inserting
  import opened Erasing

  class BucketStorage<T> {
    var sz: nat                              // `sz_`
    var cap: nat                             // `cap_`
    var blockCapacity: nat                   // `block_capacity_`
    var time: nat                            // `time_`
    var nodes: map<nat, ChainNode>           // the chain's nodes
    var chain: seq<nat>                      // the live nodes, first to last
    var last: nat                            // `last_`, the sentinel
    var first: Ptr                           // `first_`
    var nextNode: nat
    var blocks: map<nat, Bucket<T>>          // the buckets
    var blockOrder: seq<nat>                 // the bucket list, oldest first
    var firstBlock: Ptr                      // `first_block_`
    var lastBlock: Ptr                       // `last_block_`
    var nextBucket: nat
    var rows: LinkedStack                    // `rows_`

    ghost var owner: map<(nat, nat), nat>    // which node owns each occupied slot
    ghost var Elements: seq<T>               // the elements in insertion order

    /** All fields as one value. */
    ghost function State(): Parts<T>
      reads this
    {
      Parts(sz, cap, blockCapacity, time, nodes, chain, last, first, nextNode,
            blocks, blockOrder, firstBlock, lastBlock, nextBucket, owner, Elements)
    }

    /** The container's invariant: its parts fit together and no bucket is
        empty (an emptied bucket is destroyed at once). */
    ghost predicate Valid()
      reads this, rows
    {
      rows.Valid() && Core(State(), rows.nodes) && Occupied(blocks, Null)
    }

    /** Every bucket but the newest is full. */
    ghost predicate Packed()
      reads this
    {
      PackedOk(blocks, blockOrder, blockCapacity)
    }

    /** `size`: the number of elements. */
    function Size(): (r: nat)
      reads this, rows
      requires Valid()
      ensures r == |Elements|
    {
      sz
    }

    /** `capacity`: `cap_` counts `block_capacity_` slots for every bucket
        in the list. */
    function Capacity(): (r: nat)
      reads this, rows
      requires Valid()
      ensures r == |blockOrder| * blockCapacity
    {
      cap
    }

    /** `empty`: no element is stored. */
    function Empty(): (r: bool)
      reads this, rows
      requires Valid()
      ensures r <==> Elements == []
    {
      sz == 0
    }

    /** `it` is null, or points at a live node or at the sentinel. */
    ghost predicate Points(it: Iterator)
      reads this
    {
      it.node.Null? || it.node.id in chain || it.node.id == last
    }

    /** Where a cursor stands in the traversal from `begin()` to `end()`. */
    ghost function Pos(it: Iterator): nat
      reads this
    {
      Position(chain, it.node)
    }

    /** The facts about the chain that the cursor operations rely on. */
    lemma ChainFacts()
      requires Valid()
      ensures ChainOk(nodes, chain, last, first, time, nextNode)
      ensures last !in chain && last in nodes && nodes[last].Sentinel?
    {
      SentinelApart(nodes, chain, last, first, time, nextNode);
    }

    /** `begin`: `first_`, standing at the first element, or at `end()`
        when there is none. */
    function Begin(): (it: Iterator)
      reads this, rows
      requires Valid()
      ensures Points(it) && Pos(it) == 0
    {
      Iterator(first)
    }

    /** `end`: the sentinel `last_`, past every element. */
    function End(): (it: Iterator)
      reads this, rows
      requires Valid()
      ensures it.node.Ref? && Points(it) && Pos(it) == |Elements|
      ensures it.node.id in nodes && TimeOf(nodes, it.node.id) == Max
    {
      ChainFacts();
      Iterator(Ref(last))
    }

    /** `operator*`: the element held by the slot of a live node. */
    function Get(it: Iterator): (v: T)
      reads this, rows
      requires Valid() && it.node.Ref? && it.node.id in chain
      ensures v == Elements[Pos(it)]
    {
      var i := IndexOf(chain, it.node.id);
      assert Holds(nodes, blocks, owner, chain[i], Elements[i]);
      var p := PlaceOf(nodes, it.node.id);
      blocks[p.0].slots[p.1].value
    }

    /** `operator++`: follows `next_`; past the sentinel there is nothing. */
    function Next(it: Iterator): (r: Iterator)
      reads this, rows
      requires Valid() && it.node.Ref? && Points(it)
      ensures Pos(it) < |chain| ==> r.node.Ref? && Points(r) && Pos(r) == Pos(it) + 1
      ensures it.node.id == last ==> r.node.Null?
    {
      if it.node.id in chain then
        var i := IndexOf(chain, it.node.id);
        if i + 1 < |chain| then
          DistinctIndexOf(chain, i + 1);
          Iterator(Ref(chain[i + 1]))
        else
          ChainFacts();
          Iterator(Ref(last))
      else
        ChainFacts();
        Iterator(Null)
    }

    /** `operator--`: follows `prev_`; the first element has none. */
    function Prev(it: Iterator): (r: Iterator)
      reads this, rows
      requires Valid() && it.node.Ref? && Points(it)
      ensures 0 < Pos(it) ==> r.node.Ref? && r.node.id in chain && Pos(r) == Pos(it) - 1
      ensures Pos(it) == 0 ==> r.node.Null?
    {
      if it.node.id in chain then
        var i := IndexOf(chain, it.node.id);
        if i == 0 then Iterator(Null)
        else
          DistinctIndexOf(chain, i - 1);
          Iterator(Ref(chain[i - 1]))
      else if chain == [] then Iterator(Null)
      else
        DistinctIndexOf(chain, |chain| - 1);
        Iterator(Ref(chain[|chain| - 1]))
    }

    /** `operator==`: two cursors are equal when both are null, when one is
        null and the other the sentinel, or when both name the same node.
        Null and the sentinel both stand past the last element. */
    function Equal(a: Iterator, b: Iterator): (r: bool)
      reads this, rows
      requires Valid() && Points(a) && Points(b)
      ensures r <==> Pos(a) == Pos(b)
    {
      SamePosition(nodes, chain, last, first, time, nextNode, a.node, b.node);
      (a.node.Null? && b.node.Null?)
      || (a.node.Null? && b.node.Ref? && TimeOf(nodes, b.node.id) == Max)
      || (a.node.Ref? && b.node.Null? && TimeOf(nodes, a.node.id) == Max)
      || (a.node.Ref? && b.node.Ref? && a.node == b.node)
    }

    /** `operator<`: compares timestamps, so it follows the traversal order
        and the sentinel comes after every element. */
    function Less(a: Iterator, b: Iterator): (r: bool)
      reads this, rows
      requires Valid() && a.node.Ref? && b.node.Ref? && Points(a) && Points(b)
      ensures r <==> Pos(a) < Pos(b)
    {
      StampOrder(nodes, chain, last, first, time, nextNode, a.node.id, b.node.id);
      Before(TimeOf(nodes, a.node.id), TimeOf(nodes, b.node.id))
    }

    /** `operator>`: the converse of `<`. */
    function Greater(a: Iterator, b: Iterator): (r: bool)
      reads this, rows
      requires Valid() && a.node.Ref? && b.node.Ref? && Points(a) && Points(b)
      ensures r <==> Pos(a) > Pos(b)
    {
      StampOrder(nodes, chain, last, first, time, nextNode, b.node.id, a.node.id);
      Before(TimeOf(nodes, b.node.id), TimeOf(nodes, a.node.id))
    }

    /** `operator<=`: equal or before. The `==` needs no node, so a null
        cursor may be compared with one equal to it. */
    function LessEq(a: Iterator, b: Iterator): (r: bool)
      reads this, rows
      requires Valid() && Points(a) && Points(b) && (Equal(a, b) || (a.node.Ref? && b.node.Ref?))
      ensures r <==> Pos(a) <= Pos(b)
    {
      Equal(a, b) || Less(a, b)
    }

    /** `operator>=`: equal or after; like `<=`, defined on a null cursor
        equal to the other. */
    function GreaterEq(a: Iterator, b: Iterator): (r: bool)
      reads this, rows
      requires Valid() && Points(a) && Points(b) && (Equal(a, b) || (a.node.Ref? && b.node.Ref?))
      ensures r <==> Pos(a) >= Pos(b)
    {
      Equal(a, b) || Greater(a, b)
    }

    /** A new container is empty: no bucket, no element, only the sentinel. */
    constructor (capacity: nat)
      requires capacity > 0
      ensures Valid() && fresh(rows)
      ensures Elements == [] && blockCapacity == capacity && cap == 0 && time == 0
      ensures Packed() && first == Null
    {
      sz, cap, blockCapacity, time := 0, 0, capacity, 0;
      nodes := map[0 := Sentinel];
      chain := [];
      last := 0;
      first := Null;
      nextNode := 1;
      blocks := map[];
      blockOrder := [];
      firstBlock, lastBlock := Null, Null;
      nextBucket := 0;
      rows := new LinkedStack();
      owner, Elements := map[], [];
    }

    /** The move constructor: takes over everything `other` holds, registry
        included, and leaves `other` empty and reusable with its own bucket
        size, a new sentinel and a new, empty registry. */
    constructor Moved(other: BucketStorage<T>)
      requires other.Valid()
      modifies other
      ensures Valid() && State() == old(other.State()) && rows == old(other.rows)
      ensures other.Valid() && fresh(other.rows) && other.Elements == [] && other.blockCapacity == old(other.blockCapacity)
      ensures other.cap == 0 && other.time == 0 && other.Packed()
    {
      sz, cap, blockCapacity, time := other.sz, other.cap, other.blockCapacity, other.time;
      nodes, chain, last, first, nextNode := other.nodes, other.chain, other.last, other.first, other.nextNode;
      blocks, blockOrder, firstBlock, lastBlock, nextBucket := other.blocks, other.blockOrder, other.firstBlock, other.lastBlock, other.nextBucket;
      rows := other.rows;
      owner, Elements := other.owner, other.Elements;
      new;
      other.Reset();
    }

    /** Empties the container into the state of a new one with the same
        bucket size: a new sentinel, no bucket and a new, empty registry. */
    method Reset()
      requires 0 < blockCapacity
      modifies this
      ensures Valid() && fresh(rows) && Elements == [] && blockCapacity == old(blockCapacity)
      ensures cap == 0 && time == 0 && Packed()
    {
      var empty := new BucketStorage<T>(blockCapacity);
      Swap(empty);
    }

    /** The bucket on top of the registry. */
    ghost function TopBlock(): nat
      reads this, rows
      requires rows.Valid() && rows.order != []
    {
      rows.nodes[rows.order[|rows.order| - 1]].data
    }

    /** An insertion of `v` went into bucket `row`, which was `b` and sat on
        top of the registry above the buckets `below`: the bucket took `v`
        into the slot on top of its free stack, no other bucket changed, and
        the registry holds `below` with the bucket on top again while it has
        a free slot left. */
    ghost predicate Refilled(blocks0: map<nat, Bucket<T>>, below: seq<nat>, row: nat, b: Bucket<T>, v: T)
      reads this, rows
    {
      && rows.Valid() && b.Valid() && b.HasFreePlaces() && row in blocks
      && blocks == blocks0[row := b.InsertElement(v).0.(node := blocks[row].node)]
      && rows.Blocks() == below + (if blocks[row].HasFreePlaces() then [row] else [])
      && (blocks[row].HasFreePlaces() ==> rows.order != [] && TopBlock() == row)
    }

    /** An element left slot `col` of bucket `row` of `blocks0`, while the
        registry held the buckets `stack0` under the entries `order0`: a
        bucket left with other elements has the slot back on top of its free
        stack and no other bucket changed, a bucket left empty is gone, and
        the registry changed as `Relisted` says. */
    ghost predicate Released(blocks0: map<nat, Bucket<T>>, stack0: seq<nat>, order0: seq<nat>, row: nat, col: nat)
      reads this, rows
    {
      && row in blocks0
      && var b := blocks0[row];
      && b.Valid() && col < b.capacity && b.slots[col].Some?
      && (b.size == 1 ==> blocks == blocks0 - {row})
      && (b.size != 1 ==> row in blocks && blocks == blocks0[row := b.Del(col).(node := blocks[row].node)])
      && Relisted(stack0, order0, row, b)
    }

    /** The registry after an element left bucket `b`, number `row`, while
        it held the buckets `stack0` under the entries `order0`: a full
        bucket that keeps elements goes on top, an emptied bucket that was
        registered leaves, and otherwise the registry is as it was. */
    ghost predicate Relisted(stack0: seq<nat>, order0: seq<nat>, row: nat, b: Bucket<T>)
      reads this`rows, rows
    {
      && rows.Valid() && b.Valid()
      && if b.size == 1 then
           && (!b.HasFreePlaces() ==> rows.Blocks() == stack0)
           && (b.HasFreePlaces() ==> b.node in order0 && IndexOf(order0, b.node) < |stack0|
                                     && rows.Blocks() == RemoveAt(stack0, IndexOf(order0, b.node)))
         else
           && rows.Blocks() == stack0 + (if b.HasFreePlaces() then [] else [row])
           && (!b.HasFreePlaces() ==> rows.order != [] && rows.nodes[rows.order[|rows.order| - 1]].data == row)
    }

    /** The registry names a bucket with a free slot. */
    ghost predicate HasNextSlot()
      reads this, rows
    {
      rows.Valid() && rows.order != [] && TopBlock() in blocks && blocks[TopBlock()].free != []
    }

    /** The bucket and the slot the next insertion fills: the bucket on top
        of the registry and the index on top of its free stack. */
    ghost function NextSlot(): (nat, nat)
      reads this, rows
      requires HasNextSlot()
    {
      (TopBlock(), blocks[TopBlock()].free[|blocks[TopBlock()].free| - 1])
    }

    /** Links bucket `b` in after the last bucket, under the next unused id,
        and counts its slots into `cap_`. */
    method LinkBucket(b: Bucket<T>) returns (id: nat)
      modifies this`blocks, this`blockOrder, this`firstBlock, this`lastBlock, this`cap, this`nextBucket
      ensures id == old(nextBucket)
      ensures State() == Linked(old(State()), b)
    {
      id := nextBucket;
      AppendBlock(b);
      SetEnds(id);
    }

    method AppendBlock(b: Bucket<T>)
      modifies this`blocks, this`blockOrder, this`nextBucket
      ensures State() == old(State()).(blocks := old(blocks)[old(nextBucket) := b], blockOrder := old(blockOrder) + [old(nextBucket)], nextBucket := old(nextBucket) + 1)
    {
      blocks, blockOrder, nextBucket := blocks[nextBucket := b], blockOrder + [nextBucket], nextBucket + 1;
    }

    method SetEnds(id: nat)
      modifies this`firstBlock, this`lastBlock, this`cap
      ensures State() == old(State()).(firstBlock := if old(firstBlock).Null? then Ref(id) else old(firstBlock), lastBlock := Ref(id), cap := old(cap) + blockCapacity)
    {
      firstBlock, lastBlock, cap := if firstBlock.Null? then Ref(id) else firstBlock, Ref(id), cap + blockCapacity;
    }

    /** A new empty bucket joins the end of the bucket list and becomes the
        registry's only entry, `n`. */
    method AddBucket() returns (n: nat)
      requires rows.Valid() && Core(State(), rows.nodes) && Occupied(blocks, Null) && rows.nodes == map[]
      modifies this`blocks, this`blockOrder, this`firstBlock, this`lastBlock, this`cap, this`nextBucket, rows
      ensures rows.Valid() && Core(State(), rows.nodes)
      ensures rows.order != [] && Occupied(blocks, Ref(TopBlock())) && Packed()
      ensures rows.order == old(rows.order) + [n] && n !in old(rows.nodes) && TopBlock() == old(nextBucket)
      ensures State() == Linked(old(State()), FreshBucket(blockCapacity).(node := n))
      ensures HasNextSlot() && NextSlot() == (old(nextBucket), 0)
      ensures rows.Blocks() == [old(nextBucket)]
    {
      var b := NewBucket(blockCapacity);
      n := rows.Push(nextBucket);
      assert rows.order[0] == n;
      GrownKeeps(old(State()), n, rows.nodes);
      var id := LinkBucket(b.(node := n));
      DescendingTop(blockCapacity);
    }

    /** `resize`: makes sure the registry names a bucket with a free slot,
        adding a new bucket at the end of the list when it names none. When
        no bucket exists the registry is empty too (`NoBuckets`), so the same
        step adds the first bucket; the source builds it in a branch of its
        own guarded by `time_ == 0` instead (see the findings). */
    method Resize()
      requires Valid()
      modifies this`blocks, this`blockOrder, this`firstBlock, this`lastBlock, this`cap, this`nextBucket, rows
      ensures rows == old(rows) && rows.Valid() && Core(State(), rows.nodes)
      ensures rows.order != [] && rows.order[|rows.order| - 1] in rows.nodes && Occupied(blocks, Ref(TopBlock()))
      ensures old(rows.nodes) != map[] ==> cap == old(cap)
      ensures old(rows.nodes) == map[] ==> cap == old(cap) + blockCapacity
      ensures State() == old(State()).(cap := cap, blocks := blocks, blockOrder := blockOrder, firstBlock := firstBlock, lastBlock := lastBlock, nextBucket := nextBucket)
      ensures old(rows.nodes) != map[] ==> State() == old(State()) && unchanged(rows)
      ensures HasNextSlot()
      ensures old(rows.nodes) != map[] ==> old(HasNextSlot()) && NextSlot() == old(NextSlot())
      ensures old(rows.nodes) != map[] ==> TopBlock() == old(TopBlock()) && rows.Blocks() == old(rows.Blocks()) && blocks == old(blocks)
      ensures old(rows.nodes) == map[] ==> NextSlot() == (old(nextBucket), 0)
      ensures old(rows.nodes) == map[] ==> rows.order == old(rows.order) + [rows.order[|rows.order| - 1]]
      ensures old(rows.nodes) == map[] ==> rows.order[|rows.order| - 1] !in old(rows.nodes) && TopBlock() == old(nextBucket)
      ensures old(rows.nodes) == map[] ==> State() == Linked(old(State()), FreshBucket(blockCapacity).(node := rows.order[|rows.order| - 1]))
      ensures old(rows.nodes) == map[] ==> rows.Blocks() == [old(nextBucket)]
      ensures old(Packed()) ==> Packed()
    {
      if !rows.IsEmpty() {
        TopFree(State(), rows.nodes, rows.order[|rows.order| - 1]);
        return;
      }
      var _ := AddBucket();
    }

    /** Takes the bucket on top of the registry, stores `v` in the slot on top
        of its free stack, and registers the bucket again while it still has a
        free slot. */
    method TakeSlot(v: T) returns (row: nat, ind: nat, b: Bucket<T>)
      requires rows.Valid() && rows.order != []
      requires TopBlock() in blocks && blocks[TopBlock()].Valid() && blocks[TopBlock()].HasFreePlaces()
      modifies rows
      ensures rows.Valid()
      ensures row == old(TopBlock()) && State() == old(State())
      ensures ind == blocks[row].InsertElement(v).1 && b == blocks[row].InsertElement(v).0.(node := b.node)
      ensures Reregistered(old(rows.nodes), rows.nodes, old(rows.order[|rows.order| - 1]), row, b)
      ensures rows.Blocks() == old(rows.Blocks())[..|old(rows.Blocks())| - 1] + (if b.HasFreePlaces() then [row] else [])
      ensures b.HasFreePlaces() ==> rows.order != [] && rows.order[|rows.order| - 1] == b.node
    {
      ghost var e0, top, stack0 := rows.nodes, rows.order[|rows.order| - 1], rows.Blocks();
      row := rows.Pop();
      ghost var e1, stack1 := rows.nodes, rows.Blocks();
      assert stack1 == stack0[..|stack0| - 1];
      var r := blocks[row].InsertElement(v);
      b, ind := r.0, r.1;
      if b.HasFreePlaces() {
        var e := rows.Push(row);
        b := b.(node := e);
      }
      ReregisteredSteps(e0, e1, rows.nodes, top, row, b);
    }

    /** A new node for slot `ind` of bucket `row`, stamped with `time_`,
        joins the chain just before the sentinel. */
    method AddNode(row: nat, ind: nat) returns (k: nat)
      modifies this`nodes, this`chain, this`nextNode
      ensures k == old(nextNode)
      ensures State() == AddedNode(old(State()), row, ind)
      ensures rows == old(rows) && unchanged(rows)
    {
      k := nextNode;
      nodes, chain, nextNode := nodes[k := Element(row, ind, time)], chain + [k], k + 1;
    }

    /** `time_` and `sz_` advance; `first_` becomes `k` when the container
        was empty. */
    method Count(k: nat)
      modifies this`time, this`first, this`sz
      ensures State() == Counted(old(State()), k)
      ensures rows == old(rows) && unchanged(rows)
    {
      time, first, sz := time + 1, if sz == 0 then Ref(k) else first, sz + 1;
    }

    /** Bucket `row` becomes `b`, and node `k` owns its slot `ind`, which
        holds `v`. */
    method Store(row: nat, ind: nat, b: Bucket<T>, v: T, k: nat)
      modifies this`blocks, this`owner, this`Elements
      ensures State() == Stored(old(State()), row, ind, b, v, k)
      ensures rows == old(rows) && unchanged(rows)
    {
      blocks := blocks[row := b];
      owner, Elements := owner[(row, ind) := k], Elements + [v];
    }

    /** Records `v`, stored in slot `ind` of bucket `row` (now `b`), under a
        new node at the end of the chain. */
    method Record(row: nat, ind: nat, b: Bucket<T>, v: T) returns (k: nat)
      modifies this`nodes, this`chain, this`nextNode, this`time, this`first, this`sz, this`blocks, this`owner, this`Elements
      ensures k == old(nextNode)
      ensures State() == Placed(old(State()), row, ind, b, v)
      ensures rows == old(rows) && unchanged(rows)
    {
      k := AddNode(row, ind);
      Count(k);
      Store(row, ind, b, v, k);
      PlacedInStages(old(State()), row, ind, b, v);
    }

    /** Stores `v` in a free slot of the bucket on top of the registry and
        records it under a new node at the end of the chain. */
    method Place(v: T) returns (k: nat, row: nat, ind: nat, b: Bucket<T>)
      requires rows.Valid() && rows.order != []
      requires TopBlock() in blocks && blocks[TopBlock()].Valid() && blocks[TopBlock()].HasFreePlaces()
      modifies this`nodes, this`chain, this`nextNode, this`time, this`first, this`sz, this`blocks, this`owner, this`Elements, rows
      ensures rows == old(rows) && rows.Valid()
      ensures row == old(TopBlock()) && row in old(blocks)
      ensures ind == old(blocks)[row].InsertElement(v).1 && b == old(blocks)[row].InsertElement(v).0.(node := b.node)
      ensures Reregistered(old(rows.nodes), rows.nodes, old(rows.order[|rows.order| - 1]), row, b)
      ensures k == old(nextNode) && State() == Placed(old(State()), row, ind, b, v)
      ensures sz == old(sz) + 1 && time == old(time) + 1 && Elements == old(Elements) + [v]
      ensures Refilled(old(blocks), old(rows.Blocks())[..|old(rows.Blocks())| - 1], old(TopBlock()), old(blocks)[old(TopBlock())], v)
    {
      row, ind, b := TakeSlot(v);
      k := Record(row, ind, b, v);
    }

    /** Places `v` once a bucket with a free slot is on top of the registry,
        and re-establishes the invariant for the state that results. */
    method Append(v: T) returns (it: Iterator)
      requires rows.Valid() && Core(State(), rows.nodes)
      requires rows.order != [] && rows.order[|rows.order| - 1] in rows.nodes && Occupied(blocks, Ref(TopBlock()))
      modifies this`nodes, this`chain, this`nextNode, this`time, this`first, this`sz, this`blocks, this`owner, this`Elements, rows
      ensures Valid() && rows == old(rows) && cap == old(cap) && blockCapacity == old(blockCapacity)
      ensures Elements == old(Elements) + [v]
      ensures sz == old(sz) + 1 && time == old(time) + 1
      ensures it.node.Ref? && chain == old(chain) + [it.node.id] && it.node.id !in old(nodes)
      ensures last == old(last) && forall k :: k in old(nodes) ==> k in nodes && nodes[k] == old(nodes)[k]
      ensures it.node.id in nodes && nodes[it.node.id].Element? && nodes[it.node.id].time == old(time)
      ensures old(HasNextSlot()) && (nodes[it.node.id].row, nodes[it.node.id].col) == old(NextSlot())
      ensures Refilled(old(blocks), old(rows.Blocks())[..|old(rows.Blocks())| - 1], old(TopBlock()), old(blocks)[old(TopBlock())], v)
      ensures old(Packed()) ==> Packed()
    {
      ghost var s := State();
      ghost var e0 := rows.nodes;
      ghost var top := rows.order[|rows.order| - 1];
      TopFree(s, e0, top);
      ghost var slot := NextSlot();
      var k, row, ind, b := Place(v);
      assert (row, ind) == slot;
      PlacedNodes(s, row, ind, b, v, State());
      InsertKeeps(s, e0, rows.nodes, top, row, ind, b, v, State());
      it := Iterator(Ref(k));
    }

    /** `insert`: `v` becomes the last element; the returned iterator points
        at its node, which ends the chain just before the sentinel, and every
        node already there is left as it was. */
    method Insert(v: T) returns (it: Iterator)
      requires Valid()
      modifies this, rows
      ensures Valid() && rows == old(rows)
      ensures Elements == old(Elements) + [v]
      ensures old(rows.nodes) != map[] ==> cap == old(cap)
      ensures old(rows.nodes) == map[] ==> cap == old(cap) + blockCapacity
      ensures sz == old(sz) + 1 && time == old(time) + 1 && blockCapacity == old(blockCapacity)
      ensures it.node.Ref? && chain == old(chain) + [it.node.id] && it.node.id !in old(nodes)
      ensures last == old(last) && forall k :: k in old(nodes) ==> k in nodes && nodes[k] == old(nodes)[k]
      ensures it.node.id in nodes && nodes[it.node.id].Element? && nodes[it.node.id].time == old(time)
      ensures old(rows.nodes) != map[] ==> old(HasNextSlot()) && (nodes[it.node.id].row, nodes[it.node.id].col) == old(NextSlot())
      ensures old(rows.nodes) == map[] ==> (nodes[it.node.id].row, nodes[it.node.id].col) == (old(nextBucket), 0)
      ensures old(rows.nodes) != map[] ==>
        old(HasNextSlot()) && Refilled(old(blocks), old(rows.Blocks())[..|old(rows.Blocks())| - 1], old(TopBlock()), old(blocks)[old(TopBlock())], v)
      ensures old(rows.nodes) == map[] ==> Refilled(old(blocks), [], old(nextBucket), FreshBucket<T>(blockCapacity), v)
      ensures old(Packed()) ==> Packed()
    {
      ghost var grows, blocks0, stack0 := rows.nodes == map[], blocks, rows.Blocks();
      ghost var top0 := if grows then nextBucket else TopBlock();
      Resize();
      ghost var blocks1, n := blocks, rows.order[|rows.order| - 1];
      assert !grows ==> blocks1 == blocks0 && rows.Blocks() == stack0 && TopBlock() == top0;
      it := Append(v);
      if grows {
        FreshRefilled(blocks0, blocks1, old(nextBucket), n, v);
      } else {
        assert Refilled(blocks0, stack0[..|stack0| - 1], top0, blocks0[top0], v);
      }
    }

    /** After an insertion into bucket `row`, while the bucket has a free
        slot left it is on top of the registry, and the next insertion takes
        the index below the one just used on its free stack. */
    lemma RefilledNext(blocks0: map<nat, Bucket<T>>, below: seq<nat>, row: nat, b: Bucket<T>, v: T)
      requires Refilled(blocks0, below, row, b, v) && blocks[row].HasFreePlaces()
      ensures 2 <= |b.free| && HasNextSlot() && NextSlot() == (row, b.free[|b.free| - 2])
    {
      assert blocks[row].free == b.free[..|b.free| - 1];
    }

    /** After an element leaves a full bucket that keeps others, the bucket
        is on top of the registry and the next insertion takes the slot just
        freed. */
    lemma ReleasedNext(blocks0: map<nat, Bucket<T>>, stack0: seq<nat>, order0: seq<nat>, row: nat, col: nat)
      requires Released(blocks0, stack0, order0, row, col)
      requires !blocks0[row].HasFreePlaces() && blocks0[row].size != 1
      ensures HasNextSlot() && NextSlot() == (row, col)
    {
      assert blocks[row].free == blocks0[row].free + [col];
    }

    /** The bucket `resize` has just added under registry entry `n` fills as
        a new bucket does. */
    lemma FreshRefilled(blocks0: map<nat, Bucket<T>>, blocks1: map<nat, Bucket<T>>, row: nat, n: nat, v: T)
      requires blocks1 == blocks0[row := FreshBucket<T>(blockCapacity).(node := n)]
      requires Refilled(blocks1, [], row, FreshBucket<T>(blockCapacity).(node := n), v)
      ensures Refilled(blocks0, [], row, FreshBucket<T>(blockCapacity), v)
    {
      FreshRowFilled(blocks0, blocks1, blocks, row, blockCapacity, n, v);
    }

    /** Frees slot `col` of bucket `row`: a full bucket is registered first
        (it is about to have a free slot), the slot goes back on the free
        stack, and a bucket left empty is taken out of the registry. The
        bucket list itself is left for the caller to update with `b2`. */
    method FreeSlot(row: nat, col: nat) returns (b2: Bucket<T>)
      requires rows.Valid() && row in blocks && blocks[row].Valid() && col < blocks[row].capacity
      requires blocks[row].slots[col].Some?
      requires blocks[row].size < blocks[row].capacity ==> blocks[row].node in rows.nodes && rows.nodes[blocks[row].node].data == row
      modifies rows
      ensures rows == old(rows) && rows.Valid() && State() == old(State())
      ensures b2 == blocks[row].(node := b2.node).Del(col)
      ensures Deregistered(old(rows.nodes), rows.nodes, row, blocks[row], b2)
      ensures Relisted(old(rows.Blocks()), old(rows.order), row, blocks[row])
    {
      ghost var order0, stack0 := rows.order, rows.Blocks();
      var b := Reopen(row);
      ghost var e1, order1, stack1 := rows.nodes, rows.order, rows.Blocks();
      b2 := Release(b, col);
      DeregisteredSteps(old(rows.nodes), e1, rows.nodes, row, blocks[row], b, b2);
      if b2.size == 0 && !blocks[row].HasFreePlaces() {
        assert IndexOf(order0 + [b.node], b.node) == |order0|;
      } else if b2.size == 0 {
        assert order1 == order0 && stack1 == stack0 && b.node == blocks[row].node;
      }
    }

    /** A full bucket `row` is about to have a free slot, so it is pushed on
        the registry and records its new entry; any other bucket is returned
        as it is, already registered. */
    method Reopen(row: nat) returns (b: Bucket<T>)
      requires rows.Valid() && row in blocks && blocks[row].Valid()
      requires blocks[row].size < blocks[row].capacity ==> blocks[row].node in rows.nodes && rows.nodes[blocks[row].node].data == row
      modifies rows
      ensures rows == old(rows) && rows.Valid() && State() == old(State())
      ensures b == blocks[row].(node := b.node)
      ensures b.node in rows.nodes && rows.nodes[b.node].data == row
      ensures blocks[row].size < blocks[row].capacity ==> b.node == blocks[row].node && rows.nodes == old(rows.nodes)
      ensures blocks[row].size >= blocks[row].capacity ==> b.node !in old(rows.nodes) && rows.nodes.Keys == old(rows.nodes).Keys + {b.node}
      ensures forall e :: e in old(rows.nodes) ==> e in rows.nodes && rows.nodes[e].data == old(rows.nodes)[e].data
      ensures rows.order == old(rows.order) + (if blocks[row].HasFreePlaces() then [] else [b.node])
      ensures rows.Blocks() == old(rows.Blocks()) + (if blocks[row].HasFreePlaces() then [] else [row])
    {
      b := blocks[row];
      if !b.HasFreePlaces() {
        var e := rows.Push(row);
        b := b.(node := e);
      }
    }

    /** `del` on bucket `b`: slot `col` goes back on its free stack, and the
        bucket's registry entry is taken out when it is left empty. */
    method Release(b: Bucket<T>, col: nat) returns (b2: Bucket<T>)
      requires rows.Valid() && b.Valid() && col < b.capacity && b.slots[col].Some? && b.node in rows.nodes
      modifies rows
      ensures rows == old(rows) && rows.Valid() && State() == old(State())
      ensures b2 == b.Del(col)
      ensures b2.size > 0 ==> rows.nodes == old(rows.nodes)
      ensures b2.size == 0 ==> rows.nodes.Keys == old(rows.nodes).Keys - {b.node}
      ensures forall e :: e in rows.nodes ==> rows.nodes[e].data == old(rows.nodes)[e].data
      ensures b2.size > 0 ==> rows.order == old(rows.order) && rows.Blocks() == old(rows.Blocks())
      ensures b2.size == 0 ==> b.node in old(rows.order) && rows.order == RemoveAt(old(rows.order), old(IndexOf(rows.order, b.node)))
      ensures b2.size == 0 ==> rows.Blocks() == RemoveAt(old(rows.Blocks()), old(IndexOf(rows.order, b.node)))
    {
      b2 := b.Del(col);
      if b2.IsEmpty() {
        rows.Remove(b2.node);
      }
    }

    /** Node `chain[i]` leaves the chain; `first_` moves to the node after it
        when it was the first. */
    method Detach(i: nat)
      requires i < |chain|
      modifies this`nodes, this`chain, this`first
      ensures State() == old(State()).(nodes := old(nodes) - {old(chain)[i]}, chain := RemoveAt(old(chain), i),
                                      first := if old(first) == Ref(old(chain)[i]) then After(old(chain), last, i) else old(first))
      ensures rows == old(rows) && unchanged(rows)
    {
      var k := chain[i];
      if first == Ref(k) {
        first := After(chain, last, i);
      }
      nodes, chain := nodes - {k}, RemoveAt(chain, i);
    }

    /** `sz_` drops, slot `p` loses its owner and the `i`-th element goes. */
    method Forget(i: nat, p: (nat, nat))
      requires i < |Elements| && 0 < sz
      modifies this`sz, this`owner, this`Elements
      ensures State() == old(State()).(sz := old(sz) - 1, owner := old(owner) - {p}, elements := RemoveAt(old(Elements), i))
      ensures rows == old(rows) && unchanged(rows)
    {
      sz := sz - 1;
      owner, Elements := owner - {p}, RemoveAt(Elements, i);
    }

    /** Bucket `row` becomes `b`. */
    method SetBucket(row: nat, b: Bucket<T>)
      modifies this`blocks
      ensures State() == old(State()).(blocks := old(blocks)[row := b])
      ensures rows == old(rows) && unchanged(rows)
    {
      blocks := blocks[row := b];
    }

    /** Bucket `row`, at position `j` of the list, is destroyed and `cap_`
        shrinks by one bucket. */
    method DropBucket(row: nat, j: nat)
      requires j < |blockOrder| && blockCapacity <= cap
      modifies this`blocks, this`blockOrder, this`cap
      ensures State() == old(State()).(blocks := old(blocks) - {row}, blockOrder := RemoveAt(old(blockOrder), j), cap := old(cap) - blockCapacity)
      ensures rows == old(rows) && unchanged(rows)
    {
      cap := cap - blockCapacity;
      blocks, blockOrder := blocks - {row}, RemoveAt(blockOrder, j);
    }

    /** `first_block_` and `last_block_` move past bucket `row`, at position
        `j` of the list `order`, when it was an end. */
    method SetBlockEnds(row: nat, order: seq<nat>, j: nat)
      requires j < |order|
      modifies this`firstBlock, this`lastBlock
      ensures State() == old(State()).(firstBlock := if old(firstBlock) == Ref(row) then NextOf(order, j) else old(firstBlock),
                                      lastBlock := if old(lastBlock) == Ref(row) then PrevOf(order, j) else old(lastBlock))
      ensures rows == old(rows) && unchanged(rows)
    {
      if firstBlock == Ref(row) {
        firstBlock := NextOf(order, j);
      }
      if lastBlock == Ref(row) {
        lastBlock := PrevOf(order, j);
      }
    }

    /** The `i`-th live node, its element and its slot leave the container;
        its bucket becomes `b2`, or is destroyed when `b2` is empty. */
    method Unrecord(i: nat, b2: Bucket<T>)
      requires ErasablePre(State(), i, b2)
      modifies this`nodes, this`chain, this`first, this`sz, this`owner, this`Elements,
               this`blocks, this`blockOrder, this`cap, this`firstBlock, this`lastBlock
      ensures State() == Erased(old(State()), i, b2)
      ensures rows == old(rows) && unchanged(rows)
    {
      var p := PlaceOf(nodes, chain[i]);
      Detach(i);
      Forget(i, p);
      if b2.size == 0 {
        var order := blockOrder;
        var j := IndexOf(order, p.0);
        DropBucket(p.0, j);
        SetBlockEnds(p.0, order, j);
      } else {
        SetBucket(p.0, b2);
      }
    }

    /** `erase`: the element `it` points at leaves the container, and the
        iterator to the node after it is returned. The other elements keep
        their order; the bucket that held it is destroyed when it empties,
        taking one bucket's capacity with it. */
    method Erase(it: Iterator) returns (next: Iterator)
      requires Valid() && it.node.Ref? && it.node.id in chain
      modifies this, rows
      ensures Valid() && rows == old(rows)
      ensures next == Iterator(old(After(chain, last, IndexOf(chain, it.node.id))))
      ensures chain == RemoveAt(old(chain), old(IndexOf(chain, it.node.id)))
      ensures Elements == RemoveAt(old(Elements), old(IndexOf(chain, it.node.id)))
      ensures nodes == old(nodes) - {it.node.id}
      ensures sz == old(sz) - 1 && time == old(time) && last == old(last) && blockCapacity == old(blockCapacity)
      ensures old(PlaceOf(nodes, it.node.id)).0 in blocks ==> cap == old(cap)
      ensures old(PlaceOf(nodes, it.node.id)).0 !in blocks ==> cap == old(cap) - blockCapacity
      ensures Released(old(blocks), old(rows.Blocks()), old(rows.order), old(PlaceOf(nodes, it.node.id)).0, old(PlaceOf(nodes, it.node.id)).1)
    {
      var i := IndexOf(chain, it.node.id);
      next := Iterator(After(chain, last, i));
      var p := PlaceOf(nodes, chain[i]);
      ghost var s := State();
      ghost var e0, order0, stack0 := rows.nodes, rows.order, rows.Blocks();
      SlotOf(s, e0, i);
      var b2 := FreeSlot(p.0, p.1);
      ErasablePreHolds(s, e0, i, b2);
      Unrecord(i, b2);
      EraseKeeps(s, e0, rows.nodes, i, b2, State());
      assert Released(s.blocks, stack0, order0, p.0, p.1);
    }

    /** `clear`: erases `begin()` once per element. Every bucket empties on
        the way and is destroyed, so nothing is left: no element, no bucket,
        no registered bucket and no capacity. */
    method Clear()
      requires Valid()
      modifies this, rows
      ensures Valid() && rows == old(rows)
      ensures Elements == [] && sz == 0 && cap == 0
      ensures blocks == map[] && blockOrder == [] && rows.nodes == map[]
      ensures blockCapacity == old(blockCapacity) && time == old(time) && last == old(last)
    {
      var i := sz;
      while i > 0
        invariant Valid() && rows == old(rows) && i == sz
        invariant blockCapacity == old(blockCapacity) && time == old(time) && last == old(last)
        decreases i
      {
        var next := Erase(Begin());
        i := i - 1;
      }
      EmptyNoBuckets(State(), rows.nodes);
    }

    /** `get_to_distance`: advances a cursor by `d` links, forwards with
        `++` when `d` is positive and backwards with `--` when it is
        negative. A walk may take one step past either end: `++` on the
        sentinel and `--` on the first element both give a null cursor. A
        null cursor cannot move. */
    method GetToDistance(it: Iterator, d: int) returns (r: Iterator)
      requires Valid() && Points(it)
      requires -1 <= Pos(it) + d <= |Elements| + 1
      requires d != 0 ==> it.node.Ref?
      ensures Points(r)
      ensures 0 <= Pos(it) + d <= |Elements| ==> Pos(r) == Pos(it) + d
      ensures it.node.Ref? && 0 <= Pos(it) + d <= |Elements| ==> r.node.Ref?
      ensures Pos(it) + d == -1 || Pos(it) + d == |Elements| + 1 ==> r.node.Null?
    {
      r := it;
      var k := d;
      while k > 0
        invariant Points(r)
        invariant r.node.Ref? ==> Pos(r) + k == Pos(it) + d
        invariant r.node.Null? ==> k == 0 && (r == it || Pos(it) + d == |Elements| + 1)
        invariant k < 0 ==> r == it
        decreases k
      {
        r := Next(r);
        k := k - 1;
      }
      while k < 0
        invariant Points(r)
        invariant r.node.Ref? ==> Pos(r) + k == Pos(it) + d
        invariant r.node.Null? ==> k == 0 && (r == it || Pos(it) + d == |Elements| + 1 || Pos(it) + d == -1)
        decreases -k
      {
        r := Prev(r);
        k := k + 1;
      }
    }

    /** `swap`: the two containers exchange everything they hold, the
        registry included. Swapping a container with itself changes
        nothing. */
    method Swap(other: BucketStorage<T>)
      modifies this, other
      ensures State() == old(other.State()) && rows == old(other.rows)
      ensures other.State() == old(State()) && other.rows == old(rows)
      ensures old(other.Valid()) ==> Valid()
      ensures old(Valid()) ==> other.Valid()
    {
      if this == other {
        return;
      }
      SwapFront(other);
      SwapBack(other);
    }

    /** Exchanges the counters and the chain of two distinct containers. */
    method SwapFront(other: BucketStorage<T>)
      requires this != other
      modifies this`sz, other`sz, this`cap, other`cap, this`blockCapacity, other`blockCapacity, this`time, other`time
      modifies this`nodes, other`nodes, this`chain, other`chain, this`last, other`last, this`first, other`first, this`nextNode, other`nextNode
      ensures sz == old(other.sz) && cap == old(other.cap) && blockCapacity == old(other.blockCapacity) && time == old(other.time)
      ensures other.sz == old(sz) && other.cap == old(cap) && other.blockCapacity == old(blockCapacity) && other.time == old(time)
      ensures nodes == old(other.nodes) && chain == old(other.chain) && last == old(other.last) && first == old(other.first) && nextNode == old(other.nextNode)
      ensures other.nodes == old(nodes) && other.chain == old(chain) && other.last == old(last) && other.first == old(first) && other.nextNode == old(nextNode)
    {
      SwapCounters(other);
      SwapChain(other);
    }

    /** Exchanges the bucket list, the registry and the ghost bookkeeping of
        two distinct containers. */
    method SwapBack(other: BucketStorage<T>)
      requires this != other
      modifies this`blocks, other`blocks, this`blockOrder, other`blockOrder, this`firstBlock, other`firstBlock, this`lastBlock, other`lastBlock, this`nextBucket, other`nextBucket
      modifies this`rows, other`rows, this`owner, other`owner, this`Elements, other`Elements
      ensures blocks == old(other.blocks) && blockOrder == old(other.blockOrder) && firstBlock == old(other.firstBlock) && lastBlock == old(other.lastBlock) && nextBucket == old(other.nextBucket)
      ensures other.blocks == old(blocks) && other.blockOrder == old(blockOrder) && other.firstBlock == old(firstBlock) && other.lastBlock == old(lastBlock) && other.nextBucket == old(nextBucket)
      ensures rows == old(other.rows) && owner == old(other.owner) && Elements == old(other.Elements)
      ensures other.rows == old(rows) && other.owner == old(owner) && other.Elements == old(Elements)
    {
      SwapBuckets(other);
      SwapRest(other);
    }

    /** Exchanges the counters of two distinct containers. */
    method SwapCounters(other: BucketStorage<T>)
      requires this != other
      modifies this`sz, other`sz, this`cap, other`cap, this`blockCapacity, other`blockCapacity, this`time, other`time
      ensures sz == old(other.sz) && other.sz == old(sz)
      ensures cap == old(other.cap) && other.cap == old(cap)
      ensures blockCapacity == old(other.blockCapacity) && other.blockCapacity == old(blockCapacity)
      ensures time == old(other.time) && other.time == old(time)
    {
      var sz0 := sz; sz := other.sz; other.sz := sz0;
      var cap0 := cap; cap := other.cap; other.cap := cap0;
      var blockCapacity0 := blockCapacity; blockCapacity := other.blockCapacity; other.blockCapacity := blockCapacity0;
      var time0 := time; time := other.time; other.time := time0;
    }

    /** Exchanges the chain of two distinct containers. */
    method SwapChain(other: BucketStorage<T>)
      requires this != other
      modifies this`nodes, other`nodes, this`chain, other`chain, this`last, other`last, this`first, other`first, this`nextNode, other`nextNode
      ensures nodes == old(other.nodes) && other.nodes == old(nodes)
      ensures chain == old(other.chain) && other.chain == old(chain)
      ensures last == old(other.last) && other.last == old(last)
      ensures first == old(other.first) && other.first == old(first)
      ensures nextNode == old(other.nextNode) && other.nextNode == old(nextNode)
    {
      var nodes0 := nodes; nodes := other.nodes; other.nodes := nodes0;
      var chain0 := chain; chain := other.chain; other.chain := chain0;
      var last0 := last; last := other.last; other.last := last0;
      var first0 := first; first := other.first; other.first := first0;
      var nextNode0 := nextNode; nextNode := other.nextNode; other.nextNode := nextNode0;
    }

    /** Exchanges the bucket list of two distinct containers. */
    method SwapBuckets(other: BucketStorage<T>)
      requires this != other
      modifies this`blocks, other`blocks, this`blockOrder, other`blockOrder, this`firstBlock, other`firstBlock, this`lastBlock, other`lastBlock, this`nextBucket, other`nextBucket
      ensures blocks == old(other.blocks) && other.blocks == old(blocks)
      ensures blockOrder == old(other.blockOrder) && other.blockOrder == old(blockOrder)
      ensures firstBlock == old(other.firstBlock) && other.firstBlock == old(firstBlock)
      ensures lastBlock == old(other.lastBlock) && other.lastBlock == old(lastBlock)
      ensures nextBucket == old(other.nextBucket) && other.nextBucket == old(nextBucket)
    {
      var blocks0 := blocks; blocks := other.blocks; other.blocks := blocks0;
      var blockOrder0 := blockOrder; blockOrder := other.blockOrder; other.blockOrder := blockOrder0;
      var firstBlock0 := firstBlock; firstBlock := other.firstBlock; other.firstBlock := firstBlock0;
      var lastBlock0 := lastBlock; lastBlock := other.lastBlock; other.lastBlock := lastBlock0;
      var nextBucket0 := nextBucket; nextBucket := other.nextBucket; other.nextBucket := nextBucket0;
    }

    /** Exchanges the registry and the ghost bookkeeping of two distinct containers. */
    method SwapRest(other: BucketStorage<T>)
      requires this != other
      modifies this`rows, other`rows, this`owner, other`owner, this`Elements, other`Elements
      ensures rows == old(other.rows) && other.rows == old(rows)
      ensures owner == old(other.owner) && other.owner == old(owner)
      ensures Elements == old(other.Elements) && other.Elements == old(Elements)
    {
      var rows0 := rows; rows := other.rows; other.rows := rows0;
      ghost var owner0 := owner; owner := other.owner; other.owner := owner0;
      ghost var Elements0 := Elements; Elements := other.Elements; other.Elements := Elements0;
    }

    /** `shrink_to_fit`: moves the contents into a fresh container with the
        same bucket size, then inserts them back one by one, from `begin()`
        to `end()`. The elements come back in the same order, and every
        bucket but the newest is full again. */
    method ShrinkToFit()
      requires Valid()
      modifies this, rows
      ensures Valid() && fresh(rows)
      ensures Elements == old(Elements) && blockCapacity == old(blockCapacity)
      ensures Packed() && time == |Elements|
    {
      var bs := MoveOut();
      var it := bs.Begin();
      ghost var src := old(Elements);
      ghost var i := 0;
      while !bs.Equal(it, bs.End())
        invariant Copying(bs, it, src, i) && fresh(rows) && blockCapacity == old(blockCapacity)
        decreases |src| - i
      {
        it := CopyFrom(bs, it, src, i);
        i := i + 1;
      }
    }

    /** The first step of `shrink_to_fit`: swaps the contents into a new
        container `bs` with the same bucket size, leaving this one empty. */
    method MoveOut() returns (bs: BucketStorage<T>)
      requires Valid()
      modifies this
      ensures fresh(bs) && bs.Valid() && bs.rows == old(rows) && bs.Elements == old(Elements)
      ensures Valid() && fresh(rows) && blockCapacity == old(blockCapacity)
      ensures Elements == [] && Packed() && time == 0
    {
      bs := new BucketStorage<T>(blockCapacity);
      bs.Swap(this);
    }

    /** While `shrink_to_fit` runs: `bs` holds the old contents `src`, this
        container holds their first `i` elements, packed and stamped
        `0 .. i - 1`, and `it` stands at the `i`-th element of `bs`. */
    ghost predicate Copying(bs: BucketStorage<T>, it: Iterator, src: seq<T>, i: nat)
      reads this, rows, bs, bs.rows
    {
      && Valid() && bs.Valid() && bs != this && bs.rows != rows
      && bs.Elements == src && bs.Points(it) && bs.Pos(it) == i <= |src|
      && Elements == src[..i] && Packed() && time == |Elements|
    }

    /** One step of `shrink_to_fit`: inserts the element under `it`, the
        `i`-th of the container `bs` being emptied, and moves `it` on. */
    method CopyFrom(bs: BucketStorage<T>, it: Iterator, ghost src: seq<T>, ghost i: nat) returns (next: Iterator)
      requires Copying(bs, it, src, i) && i < |src|
      modifies this, rows
      ensures Copying(bs, next, src, i + 1)
      ensures rows == old(rows) && blockCapacity == old(blockCapacity)
    {
      PrefixStep(src, i);
      assert bs as object != rows as object && bs.rows as object != this as object;
      var v := bs.Get(it);
      next := bs.Next(it);
      var _ := Insert(v);
    }
  }
}
