/** The free-bucket registry (`LinkedStack` over `BlockNode`s): a doubly
    linked list of bucket ids used as a stack. Each bucket keeps the id of its
    entry, so any bucket can be taken out in one step wherever it sits. */
module Registry {
  import opened Links

  /** The registry's fields describe the list `order`: the links are sound,
      `first` and `last` are its ends, `size` its length, and every id in use
      is below `nextId`. */
  ghost predicate StackShape(nodes: map<nat, Link<nat>>, order: seq<nat>, first: Ptr, last: Ptr, size: nat, nextId: nat)
  {
    && WellLinked(nodes, order)
    && first == Head(order)
    && last == Tail(order)
    && size == |order|
    && (forall k :: k in nodes ==> k < nextId)
  }

  /** Appending entry `nextId` on top keeps the shape and adds `block` on top. */
  lemma PushKeepsShape(nodes: map<nat, Link<nat>>, order: seq<nat>, first: Ptr, last: Ptr, size: nat, nextId: nat, block: nat)
    requires StackShape(nodes, order, first, last, size, nextId)
    ensures nextId !in nodes
    ensures StackShape(Append(nodes, last, nextId, block), order + [nextId],
                       if first.Null? then Ref(nextId) else first, Ref(nextId), size + 1, nextId + 1)
    ensures Payloads(Append(nodes, last, nextId, block), order + [nextId]) == Payloads(nodes, order) + [block]
  {
    AppendExtends(nodes, order, nextId, block);
    AppendEnds(order, nextId);
    PayloadsAppend(nodes, order, last, nextId, block);
  }

  /** Unlinking the entry at position `i` keeps the shape and removes the
      `i`-th block; `first` and `last` move past the entry when it was an end. */
  lemma RemoveKeepsShape(nodes: map<nat, Link<nat>>, order: seq<nat>, first: Ptr, last: Ptr, size: nat, nextId: nat, i: nat)
    requires StackShape(nodes, order, first, last, size, nextId) && i < |order|
    ensures order[i] in nodes
    ensures StackShape(Unlink(nodes, order[i]), RemoveAt(order, i),
                       if first == Ref(order[i]) then nodes[order[i]].next else first,
                       if last == Ref(order[i]) then nodes[order[i]].prev else last,
                       size - 1, nextId)
    ensures Payloads(Unlink(nodes, order[i]), RemoveAt(order, i)) == RemoveAt(Payloads(nodes, order), i)
  {
    UnlinkRemoves(nodes, order, i);
    PayloadsUnlink(nodes, order, i);
    RemoveEnds(order, i);
  }

  class LinkedStack {
    var nodes: map<nat, Link<nat>>  // the BlockNode arena; the payload is a bucket id
    var first: Ptr
    var last: Ptr
    var size: nat
    var nextId: nat
    ghost var order: seq<nat>  // entry ids, bottom first, top last

    ghost predicate Valid()
      reads this
    {
      StackShape(nodes, order, first, last, size, nextId)
    }

    /** The bucket ids on the stack, bottom first. */
    ghost function Blocks(): seq<nat>
      reads this
      requires Valid()
    {
      Payloads(nodes, order)
    }

    constructor ()
      ensures Valid() && Blocks() == [] && order == []
    {
      nodes := map[];
      first, last := Null, Null;
      size, nextId := 0, 0;
      order := [];
    }

    /** `is_empty`: the counter is zero exactly when no bucket is registered. */
    function IsEmpty(): (r: bool)
      reads this
      requires Valid()
      ensures r <==> Blocks() == []
      ensures r <==> nodes == map[]
    {
      assert forall k :: k in nodes <==> k in order;
      size == 0
    }

    /** `push`: appends `block` on top and returns the new entry's id, which
        the bucket records as its back-pointer. */
    method Push(block: nat) returns (node: nat)
      requires Valid()
      modifies this
      ensures Valid()
      ensures node !in old(nodes) && order == old(order) + [node]
      ensures nodes[node].data == block
      ensures Blocks() == old(Blocks()) + [block]
      ensures nodes.Keys == old(nodes).Keys + {node}
      ensures forall e :: e in old(nodes) ==> nodes[e].data == old(nodes)[e].data
    {
      node := nextId;
      AppendFacts(nodes, last, node, block);
      PushKeepsShape(nodes, order, first, last, size, nextId, block);
      size := size + 1;
      nextId := nextId + 1;
      nodes := Append(nodes, last, node, block);
      if first.Null? {
        first := Ref(node);
      }
      last := Ref(node);
      order := order + [node];
    }

    /** `remove`: detaches the entry `node`, wherever it is. */
    method Remove(node: nat)
      requires Valid() && node in nodes
      modifies this
      ensures Valid()
      ensures order == RemoveAt(old(order), old(IndexOf(order, node)))
      ensures Blocks() == RemoveAt(old(Blocks()), old(IndexOf(order, node)))
      ensures nextId == old(nextId)
      ensures nodes.Keys == old(nodes).Keys - {node}
      ensures forall e :: e in nodes ==> nodes[e].data == old(nodes)[e].data
    {
      ghost var i := IndexOf(order, node);
      UnlinkFacts(nodes, node);
      assert node == order[i];
      if first == Ref(node) {
        first := nodes[node].next;
      }
      if last == Ref(node) {
        last := nodes[node].prev;
      }
      nodes := Unlink(nodes, node);
      size := size - 1;
      order := RemoveAt(order, i);
      RemoveKeepsShape(old(nodes), old(order), old(first), old(last), old(size), nextId, i);
    }

    /** `pop`: detaches and returns the bucket on top. */
    method Pop() returns (block: nat)
      requires Valid() && size > 0
      modifies this
      ensures Valid()
      ensures block == old(Blocks())[|old(Blocks())| - 1]
      ensures Blocks() == old(Blocks())[..|old(Blocks())| - 1]
      ensures order == old(order)[..|old(order)| - 1]
      ensures nextId == old(nextId)
      ensures old(order)[|old(order)| - 1] in old(nodes)
      ensures block == old(nodes)[old(order)[|old(order)| - 1]].data
      ensures nodes.Keys == old(nodes).Keys - {old(order)[|old(order)| - 1]}
      ensures forall e :: e in nodes ==> nodes[e].data == old(nodes)[e].data
    {
      ghost var i := |order| - 1;
      assert last.id == order[i];
      block := nodes[last.id].data;
      DistinctIndexOf(order, i);
      RemoveLast(order);
      RemoveLast(Blocks());
      Remove(last.id);
    }
  }
}
