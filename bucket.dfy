/** One bucket (`Bucket`): a fixed number of storage slots, the count of
    live elements and the stack of free slot indices. */
module Buckets {
  import opened Links
  import opened SlotStacks

  datatype Option<T> = None | Some(value: T)

  /** `slots` are the bucket's storage places (`block_`), `capacity` its slot
      count (`capacity_`), `size` its live count (`size_`), `free` its
      free-slot stack with the top last (`st_`), and `node` the back-pointer
      into the free-bucket registry (`node_`). */
  datatype Bucket<T> = Bucket(slots: seq<Option<T>>, capacity: nat, size: nat, free: seq<nat>, node: nat)
  {
    /** The bucket has `capacity` slots, `size` of them hold an element, and
        the free stack lists each empty slot once: it holds no repeats, only
        empty slots, and as many indices as there are empty slots. */
    ghost predicate Valid()
    {
      && |slots| == capacity
      && size + |free| == capacity
      && Distinct(free)
      && (forall i :: 0 <= i < |free| ==> free[i] < capacity && slots[free[i]].None?)
      && Used(slots) == size
    }

    /** `has_free_places`: some slot is still unused. */
    function HasFreePlaces(): (r: bool)
      requires Valid()
      ensures r <==> free != []
      ensures r <==> exists s :: 0 <= s < capacity && slots[s].None?
    {
      if size < capacity then
        assert slots[free[|free| - 1]].None?;
        true
      else
        UsedAll(slots);
        false
    }

    /** `is_empty`: no slot holds an element. */
    function IsEmpty(): (r: bool)
      requires Valid()
      ensures r <==> forall s :: 0 <= s < capacity ==> slots[s].None?
    {
      UsedNone(slots);
      size == 0
    }

    /** `insert_element`: pops the slot on top of the free stack, stores `v`
        there and returns the updated bucket with the slot used. */
    function InsertElement(v: T): (r: (Bucket<T>, nat))
      requires Valid() && HasFreePlaces()
      ensures r.0.Valid()
      ensures r.1 == free[|free| - 1] && r.1 < capacity && slots[r.1].None?
      ensures r.0.slots == slots[r.1 := Some(v)]
      ensures r.0.free == free[..|free| - 1]
      ensures r.0.size == size + 1
      ensures r.0.capacity == capacity && r.0.node == node
    {
      var ind := free[|free| - 1];
      var b := this.(slots := slots[ind := Some(v)], size := size + 1, free := free[..|free| - 1]);
      UsedUpdate(slots, ind, Some(v));
      assert forall i :: 0 <= i < |b.free| ==> b.free[i] == free[i] && free[i] != ind;
      (b, ind)
    }

    /** `del`: the element in slot `ind` is destroyed and `ind` goes back on
        top of the free stack. */
    function Del(ind: nat): (r: Bucket<T>)
      requires Valid() && ind < capacity && slots[ind].Some?
      ensures r.Valid()
      ensures r.slots == slots[ind := None]
      ensures r.free == free + [ind]
      ensures r.size == size - 1
      ensures r.capacity == capacity && r.node == node
    {
      UsedUpdate(slots, ind, None);
      var b := this.(slots := slots[ind := None], size := size - 1, free := free + [ind]);
      assert forall i :: 0 <= i < |free| ==> b.free[i] == free[i] && free[i] != ind;
      assert b.free[|free|] == ind;
      b
    }
  }

  /** The number of slots of `slots` that hold an element. */
  function Used<T>(slots: seq<Option<T>>): (n: nat)
    ensures n <= |slots|
  {
    if slots == [] then 0
    else Used(slots[..|slots| - 1]) + (if slots[|slots| - 1].Some? then 1 else 0)
  }

  /** Storing `x` in slot `i` changes the count by that slot's change only. */
  lemma {:induction false} UsedUpdate<T>(slots: seq<Option<T>>, i: nat, x: Option<T>)
    requires i < |slots|
    ensures Used(slots[i := x]) == Used(slots) - (if slots[i].Some? then 1 else 0) + (if x.Some? then 1 else 0)
    decreases |slots|
  {
    var n := |slots| - 1;
    var t := slots[i := x];
    assert t[..n] == if i == n then slots[..n] else slots[..n][i := x];
    if i < n {
      UsedUpdate(slots[..n], i, x);
    }
  }

  /** No slot is used exactly when the count is zero. */
  lemma {:induction false} UsedNone<T>(slots: seq<Option<T>>)
    ensures Used(slots) == 0 <==> forall s :: 0 <= s < |slots| ==> slots[s].None?
    decreases |slots|
  {
    if slots != [] {
      var n := |slots| - 1;
      UsedNone(slots[..n]);
      assert forall s :: 0 <= s < n ==> slots[..n][s] == slots[s];
    }
  }

  /** Every slot is used exactly when the count is the length. */
  lemma {:induction false} UsedAll<T>(slots: seq<Option<T>>)
    ensures Used(slots) == |slots| <==> forall s :: 0 <= s < |slots| ==> slots[s].Some?
    decreases |slots|
  {
    if slots != [] {
      var n := |slots| - 1;
      UsedAll(slots[..n]);
      assert forall s :: 0 <= s < n ==> slots[..n][s] == slots[s];
    }
  }

  /** The seeded free stack of a new bucket: `n - 1` at the bottom, `0` on top. */
  function Descending(n: nat): (r: seq<nat>)
  {
    seq(n, j requires 0 <= j < n => n - 1 - j)
  }

  /** A bucket just built with `capacity` slots, all of them free. */
  function FreshBucket<T>(capacity: nat): Bucket<T>
  {
    Bucket(seq(capacity, _ => None), capacity, 0, Descending(capacity), 0)
  }

  /** The bucket constructor: pushes `capacity - 1`, ..., `1`, `0` on the
      free stack. */
  method NewBucket<T>(capacity: nat) returns (b: Bucket<T>)
    ensures b == FreshBucket(capacity)
    ensures b.Valid() && b.free[..] == Descending(capacity)
  {
    var free: seq<nat> := [];
    var i := 0;
    while i < capacity
      invariant 0 <= i <= capacity
      invariant |free| == i
      invariant forall j :: 0 <= j < i ==> free[j] == capacity - 1 - j
    {
      free := free + [capacity - i - 1];
      i := i + 1;
    }
    b := Bucket(seq(capacity, _ => None), capacity, 0, free, 0);
    FreshBucketValid<T>(capacity);
  }

  /** The constructor's seeding loop run on the array-backed stack itself:
      the stack ends up holding exactly the free indices of a new bucket, so
      `SlotStack.Contents` is what `Bucket.free` records. */
  method SeedStack(capacity: nat) returns (st: SlotStack)
    ensures fresh(st.Repr) && st.Valid()
    ensures st.Contents == FreshBucket<nat>(capacity).free
  {
    st := new SlotStack();
    var i := 0;
    while i < capacity
      invariant 0 <= i <= capacity
      invariant fresh(st.Repr) && st.Valid()
      invariant |st.Contents| == i
      invariant forall j :: 0 <= j < i ==> st.Contents[j] == capacity - 1 - j
    {
      st.Push(capacity - i - 1);
      i := i + 1;
    }
  }

  lemma FreshBucketValid<T>(capacity: nat)
    ensures FreshBucket<T>(capacity).Valid()
  {
    var b := FreshBucket<T>(capacity);
    UsedNone(b.slots);
  }

  /** The back-pointer plays no part in choosing a slot: a bucket that names
      another registry entry fills the same slot the same way. */
  lemma InsertIgnoresNode<T>(b: Bucket<T>, n: nat, v: T)
    requires b.Valid() && b.HasFreePlaces()
    ensures b.(node := n).Valid() && b.(node := n).HasFreePlaces()
    ensures b.(node := n).InsertElement(v) == (b.InsertElement(v).0.(node := n), b.InsertElement(v).1)
  {
  }

  /** The slots that inserting `vs` one after another uses, in order. */
  function FillSlots<T>(b: Bucket<T>, vs: seq<T>): seq<nat>
    requires b.Valid() && |vs| <= |b.free|
    decreases |vs|
  {
    if vs == [] then []
    else
      var (b', s) := b.InsertElement(vs[0]);
      [s] + FillSlots(b', vs[1..])
  }

  /** A new bucket hands out its slots in ascending order: 0, 1, 2, ... */
  lemma FreshBucketFillsInOrder<T>(capacity: nat, vs: seq<T>)
    requires |vs| <= capacity
    ensures FreshBucket<T>(capacity).Valid()
    ensures |FillSlots(FreshBucket<T>(capacity), vs)| == |vs|
    ensures forall j :: 0 <= j < |vs| ==> FillSlots(FreshBucket<T>(capacity), vs)[j] == j
  {
    FreshBucketValid<T>(capacity);
    assert Descending(capacity)[..capacity] == Descending(capacity);
    FillsFrom(FreshBucket<T>(capacity), vs, 0);
  }

  lemma {:induction false} FillsFrom<T>(b: Bucket<T>, vs: seq<T>, k: nat)
    requires b.Valid() && k <= b.capacity && |vs| <= b.capacity - k
    requires b.free == Descending(b.capacity)[..b.capacity - k]
    ensures |FillSlots(b, vs)| == |vs|
    ensures forall j :: 0 <= j < |vs| ==> FillSlots(b, vs)[j] == k + j
    decreases |vs|
  {
    if vs == [] {
      assert FillSlots(b, vs) == [];
    } else {
      var r := b.InsertElement(vs[0]);
      DescendingPrefixTop(b.capacity, k);
      FillsFrom(r.0, vs[1..], k + 1);
      var rest := FillSlots(r.0, vs[1..]);
      assert FillSlots(b, vs) == [k] + rest;
      forall j | 0 <= j < |vs| ensures FillSlots(b, vs)[j] == k + j {
        if j > 0 {
          assert FillSlots(b, vs)[j] == rest[j - 1];
        }
      }
    }
  }

  /** Slot 0 is on top of a new bucket's free stack. */
  lemma DescendingTop(n: nat)
    requires 0 < n
    ensures Descending(n)[n - 1] == 0
  {
  }

  /** After `k` pops, the top of a new bucket's stack is `k`. */
  lemma DescendingPrefixTop(n: nat, k: nat)
    requires k < n
    ensures Descending(n)[..n - k][n - k - 1] == k
    ensures Descending(n)[..n - k][..n - k - 1] == Descending(n)[..n - (k + 1)]
  {
  }
}
