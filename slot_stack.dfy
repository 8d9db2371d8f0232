/** The free-slot stack of one bucket (`Stack<size_type>`): indices kept in
    an array that doubles its capacity when a push finds it full. */
module SlotStacks {

  class SlotStack {
    var arr: array<nat>
    var size: nat
    ghost var Contents: seq<nat>  // bottom first, top last
    ghost var Repr: set<object>

    ghost predicate Valid()
      reads this, Repr
    {
      && Repr == {this, arr}
      && 0 < arr.Length
      && size <= arr.Length
      && Contents == arr[..size]
    }

    /** A new stack is empty with room for one index. */
    constructor ()
      ensures Valid() && fresh(Repr)
      ensures Contents == [] && arr.Length == 1
    {
      arr := new nat[1];
      size := 0;
      Contents := [];
      Repr := {this, arr};
    }

    /** Removes and returns the index on top. */
    method Pop() returns (x: nat)
      requires Valid() && Contents != []
      modifies this
      ensures Valid() && Repr == old(Repr) && arr == old(arr)
      ensures x == old(Contents)[|old(Contents)| - 1]
      ensures Contents == old(Contents)[..|old(Contents)| - 1]
    {
      size := size - 1;
      x := arr[size];
      Contents := Contents[..size];
    }

    /** Puts `x` on top, first doubling the array when it is full. */
    method Push(x: nat)
      requires Valid()
      modifies Repr
      ensures Valid() && fresh(Repr - old(Repr))
      ensures Contents == old(Contents) + [x]
      ensures arr.Length == if old(size) >= old(arr.Length) then 2 * old(arr.Length) else old(arr.Length)
    {
      if size >= arr.Length {
        Resize();
      }
      arr[size] := x;
      size := size + 1;
      Contents := Contents + [x];
    }

    /** Moves the indices into an array twice as long. */
    method Resize()
      requires Valid()
      modifies this
      ensures Valid() && fresh(arr)
      ensures Contents == old(Contents) && size == old(size)
      ensures arr.Length == 2 * old(arr.Length)
    {
      var newArr := new nat[2 * arr.Length];
      var i := 0;
      while i < size
        modifies newArr
        invariant 0 <= i <= size
        invariant newArr[..i] == arr[..i]
      {
        newArr[i] := arr[i];
        i := i + 1;
      }
      arr := newArr;
      Repr := {this, arr};
    }
  }
}
