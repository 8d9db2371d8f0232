# Bucket storage

A Dafny model of `BucketStorage<T>` (`bucket_storage.hpp`), a container that
keeps its elements in fixed-size buckets and hands out stable iterators.

- **Buckets.** Every bucket has `C` slots (`block_capacity_`), a count of
  live elements, and a stack of free slot indices (`Stack<size_type>`).
- **Registry.** Buckets with a free slot are kept in a linked stack
  (`LinkedStack` of `BlockNode`s). Each bucket holds a back-pointer into it.
- **Chain.** A doubly linked chain of `Node`s records the insertion order.
  It has one node per element, then a sentinel `last_`. Each node is stamped
  with the container's running `time_`, and the sentinel with the largest
  stamp.
- **Iterators.** Iterators walk the chain. They compare by stamp.

The model is split into modules:

- `Links`: doubly linked lists as maps from ids to `prev`/`next` links,
  read in a given order. Only the registry is kept this way; the chain and
  the bucket list are kept as sequences of ids (see below).
- `SlotStacks`: the array-backed free-slot stack (`Stack<size_type>`), a
  class over an array that doubles when full. It stands on its own: a
  bucket records the same stack by its contents, the sequence `free`, and
  `Buckets.SeedStack` runs the bucket constructor's seeding loop on the
  class to show that its `Contents` come out as the `free` of a new
  bucket.
- `Buckets`: a bucket as a value: slots, live count, free stack, and its
  back-pointer into the registry.
- `Registry`: the registry, a class whose methods update its node map and
  ends in place.
- `StorageState`: the container's fields as one value `Parts`. It also
  holds the invariant `Core`, which ties the chain, the bucket list, the
  registry and the ghost record of which node owns which slot to each other.
- `Inserting` and `Erasing`: how one insertion and one erasure change
  `Parts`, with the proofs that `Core` is kept.
- `Storage`: the container, a class whose methods change its fields in
  place, proved against the functions and lemmas above.
- `AsWritten`: three places where the code as written goes wrong (see
  "Findings").

Pointers are ids into maps (`Ptr = Null | Ref(id)`). The chain is kept as the
sequence of live node ids; the `prev_`/`next_` links of a chain node are its
neighbours in that sequence. The bucket list (`first_block_`,
`last_block_` and each bucket's `prev_`/`next_`) is kept the same way, as the
sequence `blockOrder` of bucket ids. The ghost field `Elements` lists the stored
values in insertion order, which is the order iterators visit.

## Model

| member | source | states |
|---|---|---|
| SlotStacks.SlotStack.constructor | bucket_storage.hpp:408 | a new free-slot stack is empty, with room for one index |
| SlotStacks.SlotStack.Pop | bucket_storage.hpp:412-417 | returns the index on top and removes it; the other indices stay in order |
| SlotStacks.SlotStack.Push | bucket_storage.hpp:434-441 | puts the index on top; the array doubles exactly when it was full |
| SlotStacks.SlotStack.Resize | bucket_storage.hpp:443-457 | moves the indices into a fresh array twice as long, order and count unchanged |
| Buckets.NewBucket | bucket_storage.hpp:464-477 | a new bucket has every slot empty and the free stack `C-1, ..., 1, 0` with 0 on top; it is sound |
| Buckets.FreshBucketFillsInOrder | bucket_storage.hpp:475-476 | successive insertions into a new bucket take slots 0, 1, 2, … in that order |
| Buckets.SeedStack | bucket_storage.hpp:475-476 | the seeding loop run on the array-backed stack leaves in it exactly the free indices `C-1, ..., 1, 0` of a new bucket, 0 on top |
| Buckets.FreshBucketValid | bucket_storage.hpp:464-477 | a new bucket is sound: live count plus free indices is `C`, each free index names an empty slot once |
| Buckets.Bucket.HasFreePlaces | bucket_storage.hpp:487 | true exactly when the free stack is non-empty, and exactly when some slot is empty |
| Buckets.Bucket.IsEmpty | bucket_storage.hpp:488 | true exactly when every slot is empty |
| Buckets.Bucket.InsertElement | bucket_storage.hpp:516-530 | pops the free index on top, stores the value in that (empty) slot, and counts one more element; the bucket stays sound |
| Buckets.Bucket.Del | bucket_storage.hpp:490-495 | empties the slot, pushes its index on the free stack and counts one element less; the bucket stays sound |
| Buckets.UsedNone | bucket_storage.hpp:488 | a live count of 0 means that every slot is empty, and the converse |
| Buckets.UsedAll | bucket_storage.hpp:487 | a live count of `C` means that every slot is taken, and the converse |
| Registry.LinkedStack.constructor | bucket_storage.hpp:553 | a new registry holds no bucket |
| Registry.LinkedStack.IsEmpty | bucket_storage.hpp:598 | true exactly when no bucket is registered |
| Registry.LinkedStack.Push | bucket_storage.hpp:565-579 | registers the bucket under a new node at the end, returns that node as the bucket's back-pointer, leaves every other node's bucket unchanged |
| Registry.LinkedStack.Remove | bucket_storage.hpp:581-589 | unregisters that node; the other buckets stay registered, in the same order |
| Registry.LinkedStack.Pop | bucket_storage.hpp:591-596 | returns the most recently registered bucket and unregisters it |
| Registry.PushKeepsShape | bucket_storage.hpp:565-579 | pushing keeps the registry a well-linked list with `first_`/`last_` at its ends and `size_` its length, and its buckets read as before plus the new one |
| Registry.RemoveKeepsShape | bucket_storage.hpp:581-589 | removing any node keeps that shape, and its buckets read as before without that one |
| Links.UnlinkRemoves | bucket_storage.hpp:497-504 | unlinking an entry (its neighbours' links pointed past it) leaves a well-linked list that reads as before without it |
| Links.AppendExtends | bucket_storage.hpp:574-576 | linking a new entry after the tail leaves a well-linked list that reads as before plus the new entry |
| Storage.BucketStorage.constructor | bucket_storage.hpp:75-80 | a new container is sound and empty: no element, no bucket, capacity 0, `time_` 0, `first_` null |
| Storage.BucketStorage.Size | bucket_storage.hpp:239-243 | the number of stored elements |
| Storage.BucketStorage.Capacity | bucket_storage.hpp:245-249 | `C` times the number of buckets |
| Storage.BucketStorage.Empty | bucket_storage.hpp:233-237 | true exactly when no element is stored |
| Storage.BucketStorage.Begin | bucket_storage.hpp:299-303 | a cursor at position 0 of the traversal (the first element, or past the end when there is none) |
| Storage.BucketStorage.End | bucket_storage.hpp:281-285 | the sentinel: position `size()`, carrying the largest stamp |
| Storage.BucketStorage.Get | bucket_storage.hpp:175 | the element under a cursor on a live node is the element at its position in insertion order |
| Storage.BucketStorage.Next | bucket_storage.hpp:143-147 | from a live node, moves one position on (the last element moves to the sentinel); from the sentinel, gives null |
| Storage.BucketStorage.Prev | bucket_storage.hpp:149-153 | moves one position back to a live node; from the first element, gives null |
| Storage.BucketStorage.Equal | bucket_storage.hpp:162-167 | two cursors are equal exactly when they stand at the same position; null and the sentinel both stand past the end |
| Storage.BucketStorage.Less | bucket_storage.hpp:170 | comparing stamps is comparing positions: `a < b` exactly when `a` comes before `b` |
| Storage.BucketStorage.Greater | bucket_storage.hpp:172 | `a > b` exactly when `a` comes after `b` |
| Storage.BucketStorage.LessEq | bucket_storage.hpp:171 | `a <= b` exactly when `a` does not come after `b`; defined for a null cursor when the two are equal (`null <= end()`), since `==` needs no node |
| Storage.BucketStorage.GreaterEq | bucket_storage.hpp:173 | `a >= b` exactly when `a` does not come before `b`; defined for a null cursor when the two are equal (`end() >= null`) |
| StorageState.StampOrder | bucket_storage.hpp:170-172 | stamps grow along the chain, and the sentinel's stamp is above all: stamp order is traversal order |
| StorageState.SamePosition | bucket_storage.hpp:162-167 | two cursors stand at the same position exactly when they name the same node or both stand past the end, and the sentinel is the only node with the largest stamp |
| Storage.BucketStorage.GetToDistance | bucket_storage.hpp:317-322 | advancing by `d` links (`++` or `--`, `abs(d)` times) lands at position `pos + d` when that lies between `begin()` and `end()`, and from a non-null cursor that result is non-null (landing on `size()` gives the sentinel, which `--`, `<` and `>` accept); one step past either end (`++` on the sentinel, `--` on the first element) gives a null cursor |
| Storage.BucketStorage.AddBucket | bucket_storage.hpp:372-375 | a new bucket with every slot free is linked after the last bucket under the next id, counted into `cap_`, and pushed as the registry's entry, which then names its slot 0 |
| Storage.BucketStorage.Resize | bucket_storage.hpp:359-377 | when the registry names a bucket, nothing changes, the registry included; when it names none, exactly one new bucket (every slot free, free stack `C-1, ..., 0`) joins the end of the bucket list under the next id and becomes the registry's only entry, so capacity grows by `C`, and the next insertion goes to its slot 0; chain and elements untouched; packing kept |
| StorageState.NoBuckets | bucket_storage.hpp:359-368 | with no last bucket there is no bucket at all, no capacity and nothing registered |
| Storage.BucketStorage.Append | bucket_storage.hpp:343-356 | stores the value in the slot `NextSlot()` names, the index on top of the free stack of the bucket on top of the registry, under a new node before the sentinel stamped with the old `time_`; the elements read as before plus the value; the sentinel and every existing node keep their bucket, slot and stamp; `time_` and `size()` grow by one; capacity unchanged; and (`Refilled`) that bucket is its old self after `insert_element`, no other bucket changes, and the registry holds the buckets that were below it with the bucket back on top exactly when it still has a free slot |
| Storage.BucketStorage.Insert | bucket_storage.hpp:338-357 | the elements read as before plus the value, which the returned cursor names under a new node stamped with the old `time_`; the sentinel (so `end()`) and every existing node keep their bucket, slot and stamp, so no iterator is invalidated; the value goes to the slot `NextSlot()` named before the call, or, when no bucket had a free slot, to slot 0 of the new bucket; the buckets and the registry afterwards are stated by `Refilled`: the bucket on top of the registry, or a new bucket when none was registered, took the value and nothing else changed; capacity grows by `C` exactly when no bucket had a free slot; every bucket but the newest stays full |
| Storage.BucketStorage.RefilledNext | bucket_storage.hpp:343-356 | after an insertion, while the bucket that took the value has a free slot left it is on top of the registry and the next insertion takes the next index on its free stack; as a new bucket's stack holds `C-1, ..., 0` with 0 on top (`FreshBucketFillsInOrder`), successive insertions fill a bucket in slot order |
| Inserting.InsertKeeps | bucket_storage.hpp:338-357 | an insertion keeps the container's invariant: the registry holds exactly the buckets with a free slot, `size() == ` the number of live nodes, every bucket's count plus free slots is `C`, capacity is `C` times the number of buckets, every bucket is non-empty, stamps grow |
| Storage.BucketStorage.FreeSlot | bucket_storage.hpp:210-217 | a full bucket is registered before its slot is freed, and the freed bucket ends up registered exactly when it still holds an element; `Relisted` gives the registry's bucket sequence afterwards: a full bucket that keeps elements goes on top, an emptied registered bucket is removed from its place, otherwise nothing changes |
| Storage.BucketStorage.Erase | bucket_storage.hpp:204-231 | returns the successor of the erased node; the elements read as before without the erased one; `size()` drops by one; capacity drops by `C` exactly when the bucket emptied (and was destroyed); no other node changes; and (`Released`) the bucket becomes its old self after `del` of the slot, or is gone when it emptied, no other bucket changes, and the registry changes as `FreeSlot` states |
| Storage.BucketStorage.ReleasedNext | bucket_storage.hpp:210-217 | after an element leaves a full bucket that keeps other elements, that bucket is on top of the registry and the next insertion takes the slot just freed |
| Erasing.EraseKeeps | bucket_storage.hpp:204-231 | an erasure keeps the container's invariant, including that the registry holds exactly the buckets with a free slot and that no bucket is empty |
| StorageState.EmptyNoBuckets | bucket_storage.hpp:216-228 | a sound container with no element has no bucket, capacity 0, no bucket-list ends and an empty registry |
| Storage.BucketStorage.Clear | bucket_storage.hpp:260-265 | after erasing `begin()` once per element, no element, no bucket and no registered bucket remain, and the capacity is 0 |
| Storage.BucketStorage.Swap | bucket_storage.hpp:267-279 | the two containers exchange their whole state, registry included, and each is sound if the other was |
| Storage.BucketStorage.ShrinkToFit | bucket_storage.hpp:251-258 | the elements come back in the same order, every bucket but the newest is full, and `time_` restarts at the element count |
| Storage.BucketStorage.MoveOut | bucket_storage.hpp:253-254 | the contents move into a new container with the same `C`; this one is left sound and empty |
| Storage.BucketStorage.CopyFrom | bucket_storage.hpp:255-256 | one step of the re-insert loop: the next element of the moved-out container is appended and the cursor moves on |
| Storage.BucketStorage.Moved | bucket_storage.hpp:91-104 | the new container takes over the whole state; the moved-from one is left sound, empty, with its own `C` and a new registry |
| Storage.BucketStorage.Reset | bucket_storage.hpp:91-104 | a container is emptied into the state of a new one with the same `C` |
| AsWritten.ResizeAsWritten | bucket_storage.hpp:359-377 | as written, `resize` dereferences a null `last_block_` exactly when something was inserted before, no bucket is registered and there is no last bucket |
| AsWritten.ResizeAfterEmptying | bucket_storage.hpp:359-377 | every container that held elements and was emptied again reaches that null dereference on its next insert |
| AsWritten.InsertEraseInsert | bucket_storage.hpp:338-377 | inserting and erasing one element reaches that state; the corrected insert then stores the next element |
| AsWritten.MoveAsWritten | bucket_storage.hpp:91-104 | as written, the moved-from container keeps `C == 0`, a null sentinel and no registry |
| AsWritten.MovedFromUnusable | bucket_storage.hpp:91-104 | such a container cannot take an element: with `time_ == 0` the first insert builds a bucket of capacity 0, whose free stack is empty when `Stack::pop` is called on it (bucket_storage.hpp:414); its sentinel is null besides |
| AsWritten.ShrinkGuardAsWritten | bucket_storage.hpp:251-258 | the guard `i < bs.end()` cannot be evaluated on a null cursor, and where it can it agrees with the null-safe `!(i == bs.end())` |
| AsWritten.NeverUsed | bucket_storage.hpp:75-80 | in a container nothing was inserted into, `begin()` is null: the guard as written dereferences it, while the corrected guard sees an empty container |

## Left out

- Memory management is not modelled: allocation, `delete`, the destructor
  (bucket_storage.hpp:324-336), placement new and exceptions from a
  constructor of `T`. Ids into maps stand for pointers, and an erased node or
  destroyed bucket is removed from its map.
- `T`'s own semantics are not modelled: values are opaque, copies and moves
  of them are the same value, and `operator->` is not modelled.
- The copy constructor, copy assignment and move assignment
  (bucket_storage.hpp:82-121) are copy-and-swap code around `swap`, the
  move constructor and the re-insert loop. They are not modelled separately,
  though the copy constructor's loop guard is the one in "Findings".
- The const and non-const iterator twins, `cbegin`/`cend` and the postfix
  `++`/`--` are left out. Each behaves as the modelled prefix or non-const
  version.
- `size_type` is modelled as unbounded `nat`, so `time_` and the stamps
  never wrap. The sentinel's stamp `numeric_limits<size_type>::max()` is a
  separate value `Max` above every stamp.
- The bucket list is a sequence of bucket ids (`blockOrder`) with its ends
  `firstBlock`/`lastBlock`, not buckets with `prev_`/`next_` pointers. The
  relinking of `resize` (bucket_storage.hpp:372-374) and of `erase`
  (bucket_storage.hpp:219-226) becomes appending to and removing from that
  sequence; the pointer writes themselves are not modelled.
- The registry exists from construction. The source creates `rows_` lazily
  in the first `resize` (bucket_storage.hpp:362-368); every operation that
  reads it runs after that call.
- Storage.BucketStorage.ShrinkToFit: the capacity afterwards is not stated
  as `C * ceil(size() / C)`. The contract states the packing (every bucket
  but the newest full) from which that count follows.
- Storage.BucketStorage.Clear: the contract states the end state. It does
  not say that the elements are erased front to back.
- `get_to_distance` relies on `std::advance`, modelled as a walk of `abs(d)`
  links. One step past either end is defined and gives a null cursor (the
  sentinel's `next_` and the first node's `prev_` are null). A second step
  dereferences that null cursor, so walks going further are excluded by the
  precondition.
- Storage.BucketStorage.constructor requires `C > 0`. The source accepts
  `BucketStorage(0)` and goes wrong only at the first insert, when the
  bucket of capacity 0 pops its empty free stack; the model's invariant
  keeps `C > 0` instead of modelling that container. The default argument
  `block_capacity = 64` is not modelled: the capacity is always passed.

## Findings

| source | as written | input that shows it | evidently intended | confidence | as-written member | corrected member |
|---|---|---|---|---|---|---|
| bucket_storage.hpp:359-377 | `resize` creates the first bucket only while `time_ == 0`; later, with no bucket registered, it links a new bucket after `last_block_` | insert one element into a new container, erase it (or `clear()`), insert again: `time_` is 1, every bucket was destroyed and `last_block_` is null | create a bucket whenever there is none, that is, test for a missing last bucket | not executed; high | AsWritten.ResizeAfterEmptying | Storage.BucketStorage.Resize |
| bucket_storage.hpp:91-104 | the move constructor sets the moved-from container's `block_capacity_` to 0 and its sentinel `last_` and `rows_` to null | move from any container, then insert into the moved-from one: `resize` creates a bucket of capacity 0 and `Stack::pop` on its empty free stack (bucket_storage.hpp:414) reads below the array; `insert_element` would then read the null `last_->prev_` | the moved-from container stays empty and usable, with its own `C` | not executed; high | AsWritten.MovedFromUnusable | Storage.BucketStorage.Moved |
| bucket_storage.hpp:251-258 | the re-insert loop of `shrink_to_fit` (and of the copy constructor) tests `i < bs.end()`, and `operator<` reads both nodes' stamps | `shrink_to_fit()` on a container nothing was ever inserted into: `begin()` is the null `first_` | stop at `end()` by the null-safe `==` | not executed; high | AsWritten.NeverUsed | Storage.BucketStorage.ShrinkToFit |
