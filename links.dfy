/** Doubly linked lists kept in an arena: every entry is addressed by a `nat`
    id, and `Null` stands for the null pointer. The free-bucket registry is
    such a list; the sequence helpers here also serve the container's chain
    and bucket list, which are kept as sequences of ids. */
module Links {

  /** A nullable reference into an arena. */
  datatype Ptr = Null | Ref(id: nat)

  /** One arena entry: its payload and its `prev_` / `next_` links. */
  datatype Link<D> = Link(data: D, prev: Ptr, next: Ptr)

  predicate Distinct(s: seq<nat>)
  {
    forall i, j :: 0 <= i < j < |s| ==> s[i] != s[j]
  }

  /** The first and the last entry of a list read in `order`. */
  function Head(order: seq<nat>): Ptr
  {
    if order == [] then Null else Ref(order[0])
  }

  function Tail(order: seq<nat>): Ptr
  {
    if order == [] then Null else Ref(order[|order| - 1])
  }

  /** What the `prev_` and `next_` links of the entry at position `i` must be. */
  function PrevOf(order: seq<nat>, i: nat): Ptr
    requires i < |order|
  {
    if i == 0 then Null else Ref(order[i - 1])
  }

  function NextOf(order: seq<nat>, i: nat): Ptr
    requires i < |order|
  {
    if i == |order| - 1 then Null else Ref(order[i + 1])
  }

  /** `order` lists, first to last, exactly the entries of `m`, each once, and
      every entry's links point at its neighbours in `order` (null at both ends). */
  ghost predicate WellLinked<D>(m: map<nat, Link<D>>, order: seq<nat>)
  {
    && Distinct(order)
    && (forall k :: k in m <==> k in order)
    && (order != [] ==> m[order[0]].prev == Null && m[order[|order| - 1]].next == Null)
    && (forall i, j :: 0 <= i < |order| && 0 <= j < |order| && j == i + 1 ==>
          m[order[i]].next == Ref(order[j]) && m[order[j]].prev == Ref(order[i]))
  }

  /** The payloads of the entries, read in `order`. */
  function Payloads<D>(m: map<nat, Link<D>>, order: seq<nat>): (r: seq<D>)
    requires forall k :: k in order ==> k in m
    ensures |r| == |order|
    ensures forall i {:trigger r[i]} :: 0 <= i < |order| ==> r[i] == m[order[i]].data
  {
    seq(|order|, i requires 0 <= i < |order| => m[order[i]].data)
  }

  /** The position of `x` in `s`. */
  function IndexOf(s: seq<nat>, x: nat): (i: nat)
    requires x in s
    ensures i < |s| && s[i] == x
    ensures forall j :: 0 <= j < i ==> s[j] != x
  {
    if s[0] == x then 0 else 1 + IndexOf(s[1..], x)
  }

  /** `s` without the element at position `i`. */
  function RemoveAt<X>(s: seq<X>, i: nat): (r: seq<X>)
    requires i < |s|
    ensures |r| == |s| - 1
    ensures forall j :: 0 <= j < i ==> r[j] == s[j]
    ensures forall j :: i <= j < |r| ==> r[j] == s[j + 1]
  {
    s[..i] + s[i + 1..]
  }

  /** Removing the last element is taking the prefix. */
  lemma RemoveLast<X>(s: seq<X>)
    requires s != []
    ensures RemoveAt(s, |s| - 1) == s[..|s| - 1]
  {
  }

  /** Detaches entry `k`: its successor's `prev_` and its predecessor's
      `next_` are pointed past it, and the entry itself is deleted. */
  function Unlink<D>(m: map<nat, Link<D>>, k: nat): (r: map<nat, Link<D>>)
    requires k in m
    ensures r.Keys == m.Keys - {k}
  {
    var n := m[k];
    var m1 := if n.next.Ref? && n.next.id in m then m[n.next.id := m[n.next.id].(prev := n.prev)] else m;
    var m2 := if n.prev.Ref? && n.prev.id in m1 then m1[n.prev.id := m1[n.prev.id].(next := n.next)] else m1;
    m2 - {k}
  }

  /** Adds a new entry `k` holding `d` after the entry `tail` (or as the only
      entry when `tail` is null). */
  function Append<D>(m: map<nat, Link<D>>, tail: Ptr, k: nat, d: D): (r: map<nat, Link<D>>)
    requires k !in m
    ensures r.Keys == m.Keys + {k}
    ensures r[k] == Link(d, tail, Null)
  {
    var m1 := if tail.Ref? && tail.id in m then m[tail.id := m[tail.id].(next := Ref(k))] else m;
    m1[k := Link(d, tail, Null)]
  }

  /** Unlinking touches only the two neighbours of `k`, and only their links. */
  lemma UnlinkFacts<D>(m: map<nat, Link<D>>, k: nat)
    requires k in m
    ensures forall j :: j in Unlink(m, k) ==> Unlink(m, k)[j].data == m[j].data
    ensures forall j :: j in Unlink(m, k) && Ref(j) != m[k].prev && Ref(j) != m[k].next ==> Unlink(m, k)[j] == m[j]
    ensures m[k].prev.Ref? && m[k].prev.id in Unlink(m, k) && m[k].prev != m[k].next ==>
              Unlink(m, k)[m[k].prev.id] == m[m[k].prev.id].(next := m[k].next)
    ensures m[k].next.Ref? && m[k].next.id in Unlink(m, k) && m[k].prev != m[k].next ==>
              Unlink(m, k)[m[k].next.id] == m[m[k].next.id].(prev := m[k].prev)
  {
  }

  /** Appending touches only the old tail, and only its `next_` link. */
  lemma AppendFacts<D>(m: map<nat, Link<D>>, tail: Ptr, k: nat, d: D)
    requires k !in m
    ensures forall j :: j in m ==> Append(m, tail, k, d)[j].data == m[j].data
    ensures forall j :: j in m && Ref(j) != tail ==> Append(m, tail, k, d)[j] == m[j]
    ensures tail.Ref? && tail.id in m ==> Append(m, tail, k, d)[tail.id] == m[tail.id].(next := Ref(k))
  {
  }

  /** Appending changes no payload: the payloads read as before, plus `d`. */
  lemma PayloadsAppend<D>(m: map<nat, Link<D>>, order: seq<nat>, tail: Ptr, k: nat, d: D)
    requires (forall x :: x in order ==> x in m) && k !in m
    ensures Payloads(Append(m, tail, k, d), order + [k]) == Payloads(m, order) + [d]
  {
    AppendFacts(m, tail, k, d);
    assert forall i :: 0 <= i < |order| ==> (order + [k])[i] == order[i] && order[i] in m;
  }

  /** Unlinking changes no payload: the payloads read as before, without the
      one of the entry removed. */
  lemma PayloadsUnlink<D>(m: map<nat, Link<D>>, order: seq<nat>, i: nat)
    requires WellLinked(m, order) && i < |order|
    ensures forall x :: x in RemoveAt(order, i) ==> x in Unlink(m, order[i])
    ensures Payloads(Unlink(m, order[i]), RemoveAt(order, i)) == RemoveAt(Payloads(m, order), i)
  {
    var r := Unlink(m, order[i]);
    var o := RemoveAt(order, i);
    assert forall x :: x in o ==> x in r by {
      RemoveAtDistinct(order, i);
    }
    assert forall x :: x in r ==> r[x].data == m[x].data by {
      UnlinkFacts(m, order[i]);
    }
    var p := Payloads(r, o);
    var q := RemoveAt(Payloads(m, order), i);
    forall j | 0 <= j < |p| ensures p[j] == q[j] {
      assert o[j] == order[if j < i then j else j + 1];
    }
    assert p == q;
  }

  lemma DistinctIndexOf(s: seq<nat>, i: nat)
    requires Distinct(s) && i < |s|
    ensures IndexOf(s, s[i]) == i
  {
  }

  /** Removing one element of a list without repeats keeps it without
      repeats and drops exactly that element. */
  lemma RemoveAtDistinct(order: seq<nat>, i: nat)
    requires Distinct(order) && i < |order|
    ensures Distinct(RemoveAt(order, i))
    ensures forall x :: x in RemoveAt(order, i) <==> x in order && x != order[i]
  {
    var o := RemoveAt(order, i);
    forall a, b | 0 <= a < b < |o| ensures o[a] != o[b] {
      var a' := if a < i then a else a + 1;
      var b' := if b < i then b else b + 1;
      assert o[a] == order[a'] && o[b] == order[b'];
    }
    forall x ensures x in o <==> x in order && x != order[i] {
      if x in o {
        var j :| 0 <= j < |o| && o[j] == x;
        assert x == order[if j < i then j else j + 1];
      }
      if x in order && x != order[i] {
        var j :| 0 <= j < |order| && order[j] == x;
        assert x == o[if j < i then j else j - 1];
      }
    }
  }

  /** Unlinking the entry at position `i` leaves a list that reads as `order`
      without that entry. */
  lemma UnlinkRemoves<D>(m: map<nat, Link<D>>, order: seq<nat>, i: nat)
    requires WellLinked(m, order) && i < |order|
    ensures WellLinked(Unlink(m, order[i]), RemoveAt(order, i))
  {
    var k := order[i];
    var o := RemoveAt(order, i);
    var r := Unlink(m, k);
    RemoveAtDistinct(order, i);
    forall j | 0 <= j < |o|
      ensures o[j] in r && r[o[j]].prev == PrevOf(o, j) && r[o[j]].next == NextOf(o, j)
    {
      UnlinkAt(m, order, i, j);
    }
    LinkedByPosition(r, o);
  }

  lemma UnlinkAt<D>(m: map<nat, Link<D>>, order: seq<nat>, i: nat, j: nat)
    requires WellLinked(m, order) && i < |order| && j < |order| - 1
    ensures RemoveAt(order, i)[j] in Unlink(m, order[i])
    ensures Unlink(m, order[i])[RemoveAt(order, i)[j]].prev == PrevOf(RemoveAt(order, i), j)
    ensures Unlink(m, order[i])[RemoveAt(order, i)[j]].next == NextOf(RemoveAt(order, i), j)
  {
    if j == i - 1 {
      UnlinkAtPred(m, order, i, j);
    } else if j == i {
      UnlinkAtSucc(m, order, i, j);
    } else {
      UnlinkAtOther(m, order, i, j);
    }
  }

  lemma UnlinkAtPred<D>(m: map<nat, Link<D>>, order: seq<nat>, i: nat, j: nat)
    requires WellLinked(m, order) && 0 < i < |order| && j == i - 1
    ensures RemoveAt(order, i)[j] in Unlink(m, order[i])
    ensures Unlink(m, order[i])[RemoveAt(order, i)[j]].prev == PrevOf(RemoveAt(order, i), j)
    ensures Unlink(m, order[i])[RemoveAt(order, i)[j]].next == NextOf(RemoveAt(order, i), j)
  {
    var o := RemoveAt(order, i);
    assert o[j] == order[i - 1];
    assert j > 0 ==> o[j - 1] == order[i - 2];
    assert i < |order| - 1 ==> o[j + 1] == order[i + 1];
    assert Unlink(m, order[i])[order[i - 1]] == m[order[i - 1]].(next := NextOf(order, i)) by {
      UnlinkPred(m, order, i);
    }
  }

  lemma UnlinkAtSucc<D>(m: map<nat, Link<D>>, order: seq<nat>, i: nat, j: nat)
    requires WellLinked(m, order) && i < |order| - 1 && j == i
    ensures RemoveAt(order, i)[j] in Unlink(m, order[i])
    ensures Unlink(m, order[i])[RemoveAt(order, i)[j]].prev == PrevOf(RemoveAt(order, i), j)
    ensures Unlink(m, order[i])[RemoveAt(order, i)[j]].next == NextOf(RemoveAt(order, i), j)
  {
    var o := RemoveAt(order, i);
    assert o[i] == order[i + 1];
    assert i > 0 ==> o[i - 1] == order[i - 1];
    assert i < |o| - 1 ==> o[i + 1] == order[i + 2];
    assert Unlink(m, order[i])[order[i + 1]] == m[order[i + 1]].(prev := PrevOf(order, i)) by {
      UnlinkSucc(m, order, i);
    }
  }

  lemma UnlinkAtOther<D>(m: map<nat, Link<D>>, order: seq<nat>, i: nat, j: nat)
    requires WellLinked(m, order) && i < |order| && j < |order| - 1 && j + 1 != i && j != i
    ensures RemoveAt(order, i)[j] in Unlink(m, order[i])
    ensures Unlink(m, order[i])[RemoveAt(order, i)[j]].prev == PrevOf(RemoveAt(order, i), j)
    ensures Unlink(m, order[i])[RemoveAt(order, i)[j]].next == NextOf(RemoveAt(order, i), j)
  {
    var o := RemoveAt(order, i);
    var j' := if j < i then j else j + 1;
    assert o[j] == order[j'] && (j > 0 ==> o[j - 1] == order[j' - 1]) && (j < |o| - 1 ==> o[j + 1] == order[j' + 1]);
    assert m[order[j']].prev == PrevOf(order, j') && m[order[j']].next == NextOf(order, j');
    assert order[j'] in Unlink(m, order[i]) && Unlink(m, order[i])[order[j']] == m[order[j']] by {
      UnlinkOther(m, order, i, j');
    }
  }

  /** Unlinking the entry at `i` points its predecessor's `next_` past it. */
  lemma UnlinkPred<D>(m: map<nat, Link<D>>, order: seq<nat>, i: nat)
    requires WellLinked(m, order) && 0 < i < |order|
    ensures order[i - 1] in Unlink(m, order[i])
    ensures Unlink(m, order[i])[order[i - 1]] == m[order[i - 1]].(next := NextOf(order, i))
  {
    var k := order[i];
    UnlinkFacts(m, k);
    assert m[k].prev == Ref(order[i - 1]);
    if i < |order| - 1 { assert order[i - 1] != order[i + 1]; }
    assert m[k].next == NextOf(order, i);
  }

  /** Unlinking the entry at `i` points its successor's `prev_` past it. */
  lemma UnlinkSucc<D>(m: map<nat, Link<D>>, order: seq<nat>, i: nat)
    requires WellLinked(m, order) && i < |order| - 1
    ensures order[i + 1] in Unlink(m, order[i])
    ensures Unlink(m, order[i])[order[i + 1]] == m[order[i + 1]].(prev := PrevOf(order, i))
  {
    var k := order[i];
    UnlinkFacts(m, k);
    assert m[k].next == Ref(order[i + 1]);
    if i > 0 { assert order[i - 1] != order[i + 1]; }
    assert m[k].prev == PrevOf(order, i);
  }

  /** Unlinking the entry at `i` leaves every entry other than its neighbours as it was. */
  lemma UnlinkOther<D>(m: map<nat, Link<D>>, order: seq<nat>, i: nat, j: nat)
    requires WellLinked(m, order) && i < |order| && j < |order|
    requires j != i && j + 1 != i && j != i + 1
    ensures order[j] in Unlink(m, order[i]) && Unlink(m, order[i])[order[j]] == m[order[j]]
  {
    var k := order[i];
    UnlinkFacts(m, k);
    assert order[j] != k;
    assert m[k].prev == PrevOf(order, i) && m[k].next == NextOf(order, i);
    if i > 0 { assert order[j] != order[i - 1]; }
    if i < |order| - 1 { assert order[j] != order[i + 1]; }
  }

  /** Appending a fresh entry after the tail extends `order` by that entry. */
  lemma AppendExtends<D>(m: map<nat, Link<D>>, order: seq<nat>, k: nat, d: D)
    requires WellLinked(m, order) && k !in m
    ensures WellLinked(Append(m, Tail(order), k, d), order + [k])
  {
    var o := order + [k];
    var r := Append(m, Tail(order), k, d);
    AppendDistinct(order, k);
    AppendKeys(m, order, k, d);
    forall j | 0 <= j < |o|
      ensures o[j] in r && r[o[j]].prev == PrevOf(o, j) && r[o[j]].next == NextOf(o, j)
    {
      if j < |order| {
        AppendAt(m, order, k, d, j);
      } else if j > 0 {
        assert o[j - 1] == order[|order| - 1];
      }
    }
    LinkedByPosition(r, o);
  }

  /** Links given position by position make a well-linked list. */
  lemma LinkedByPosition<D>(m: map<nat, Link<D>>, order: seq<nat>)
    requires Distinct(order) && (forall k :: k in m <==> k in order)
    requires forall j {:trigger m[order[j]]} :: 0 <= j < |order| ==>
               order[j] in m && m[order[j]].prev == PrevOf(order, j) && m[order[j]].next == NextOf(order, j)
    ensures WellLinked(m, order)
  {
    forall i, j | 0 <= i < |order| && 0 <= j < |order| && j == i + 1
      ensures m[order[i]].next == Ref(order[j]) && m[order[j]].prev == Ref(order[i])
    {
      assert NextOf(order, i) == Ref(order[j]);
      assert PrevOf(order, j) == Ref(order[i]);
    }
    if order != [] {
      assert PrevOf(order, 0) == Null;
      assert NextOf(order, |order| - 1) == Null;
    }
  }

  /** A list without repeats extended by a new element has none either. */
  lemma AppendDistinct(order: seq<nat>, k: nat)
    requires Distinct(order) && k !in order
    ensures Distinct(order + [k])
  {
    var o := order + [k];
    forall a, b | 0 <= a < b < |o| ensures o[a] != o[b] {
      assert o[a] == order[a];
      if b < |order| { assert o[b] == order[b]; }
    }
  }

  /** Appending `k` adds exactly `k` to both the keys and the list. */
  lemma AppendKeys<D>(m: map<nat, Link<D>>, order: seq<nat>, k: nat, d: D)
    requires (forall x :: x in m <==> x in order) && k !in m
    ensures forall x :: x in Append(m, Tail(order), k, d) <==> x in order + [k]
  {
    var o := order + [k];
    forall x ensures x in Append(m, Tail(order), k, d) <==> x in o {
      if x in order { assert x in o; }
      if x in o && x != k {
        var j :| 0 <= j < |o| && o[j] == x;
        assert x == order[j];
      }
    }
  }
  /** After appending `k`, the list ends at `k` and still starts where it did. */
  lemma AppendEnds(order: seq<nat>, k: nat)
    ensures Head(order + [k]) == if order == [] then Ref(k) else Head(order)
    ensures Tail(order + [k]) == Ref(k)
  {
    if order != [] { assert (order + [k])[0] == order[0]; }
  }

  /** Removing the entry at `i` moves the ends past it when it was one of them. */
  lemma RemoveEnds(order: seq<nat>, i: nat)
    requires Distinct(order) && i < |order|
    ensures Head(order) == Ref(order[i]) <==> i == 0
    ensures Tail(order) == Ref(order[i]) <==> i == |order| - 1
    ensures Head(RemoveAt(order, i)) == if i == 0 then NextOf(order, i) else Head(order)
    ensures Tail(RemoveAt(order, i)) == if i == |order| - 1 then PrevOf(order, i) else Tail(order)
  {
    if i != 0 { assert order[0] != order[i]; }
    if i != |order| - 1 { assert order[|order| - 1] != order[i]; }
  }

  lemma AppendAt<D>(m: map<nat, Link<D>>, order: seq<nat>, k: nat, d: D, j: nat)
    requires WellLinked(m, order) && k !in m && j < |order|
    ensures Append(m, Tail(order), k, d)[order[j]].prev == PrevOf(order + [k], j)
    ensures Append(m, Tail(order), k, d)[order[j]].next == NextOf(order + [k], j)
  {
    var o := order + [k];
    AppendFacts(m, Tail(order), k, d);
    assert o[j] == order[j];
    if j > 0 { assert o[j - 1] == order[j - 1]; }
    if j == |order| - 1 {
      assert Ref(order[j]) == Tail(order);
    } else {
      assert Ref(order[j]) != Tail(order) by { assert order[j] != order[|order| - 1]; }
      assert o[j + 1] == order[j + 1];
    }
  }
}
