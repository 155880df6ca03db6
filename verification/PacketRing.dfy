/**
 The intrusive doubly linked ring that holds packets in flight. The elements,
 in order, are a sequence; every operation on the pointers is the matching
 operation on that sequence. Scanning the ring from element to element and
 removing packets by their elements does to the packets, in order, what the
 handler does to a sequence.
 */
module PacketRing {
  import opened AckHistory
  import opened SentPackets
  import opened SentPacketBooks

  class PacketElement {
    var next: PacketElement?
    var prev: PacketElement?
    var list: PacketList?
    const value: Packet

    constructor (v: Packet)
      ensures next == null && prev == null && list == null && value == v
    {
      next, prev, list, value := null, null, null, v;
    }

    /** The element after this one, which has position i, or nothing at the end of the list. */
    method Next(ghost i: nat) returns (e: PacketElement?)
      requires list != null ==> list.Valid() && i < |list.elems| && list.elems[i] == this
      ensures e == if list != null && i + 1 < |list.elems| then list.elems[i + 1] else null
    {
      if list != null {
        list.Around(i);
        if next != list.root {
          return next;
        }
      }
      return null;
    }

    /** The element before this one, which has position i, or nothing at the start of the list. */
    method Prev(ghost i: nat) returns (e: PacketElement?)
      requires list != null ==> list.Valid() && i < |list.elems| && list.elems[i] == this
      ensures e == if list != null && i > 0 then list.elems[i - 1] else null
    {
      if list != null {
        list.Around(i);
        if prev != list.root {
          return prev;
        }
      }
      return null;
    }
  }

  /** Element i of the ring: the root, the elements in order, the root again. */
  ghost function At(root: PacketElement, elems: seq<PacketElement>, i: nat): PacketElement
    requires i <= |elems| + 1
  {
    if i == 0 || i == |elems| + 1 then root else elems[i - 1]
  }

  ghost predicate LinkAt(root: PacketElement, elems: seq<PacketElement>, i: nat)
    requires i <= |elems|
    reads root, elems
  {
    At(root, elems, i).next == At(root, elems, i + 1) && At(root, elems, i + 1).prev == At(root, elems, i)
  }

  ghost predicate Differ(root: PacketElement, elems: seq<PacketElement>, i: nat, j: nat)
    requires i <= |elems| && j <= |elems|
  {
    At(root, elems, i) != At(root, elems, j)
  }

  /** No element is in the ring twice. */
  ghost predicate Distinct(root: PacketElement, elems: seq<PacketElement>) {
    forall i: nat, j: nat {:trigger Differ(root, elems, i, j)} :: i < j <= |elems| ==> Differ(root, elems, i, j)
  }

  ghost predicate SameValue(added: seq<PacketElement>, was: seq<PacketElement>, i: nat, j: nat)
    requires j < |added| && i + j < |was|
  {
    added[j].value == was[i + j].value
  }

  /** The elements carry the values of the others from position i up to k. */
  ghost predicate Copies(added: seq<PacketElement>, was: seq<PacketElement>, i: nat, k: nat) {
    i <= k <= |was| && |added| == k - i &&
    forall j: nat {:trigger SameValue(added, was, i, j)} :: j < k - i ==> SameValue(added, was, i, j)
  }

  lemma CopiesNext(added: seq<PacketElement>, f: PacketElement, was: seq<PacketElement>, k: nat)
    requires k < |was| && Copies(added, was, 0, k) && f.value == was[k].value
    ensures Copies(added + [f], was, 0, k + 1)
  {
    forall j: nat | j < k + 1
      ensures SameValue(added + [f], was, 0, j)
    {
      assert j < k ==> SameValue(added, was, 0, j);
    }
  }

  lemma CopiesBefore(added: seq<PacketElement>, f: PacketElement, was: seq<PacketElement>, i: nat)
    requires 0 < i && Copies(added, was, i, |was|) && f.value == was[i - 1].value
    ensures Copies([f] + added, was, i - 1, |was|)
  {
    var front := i - 1;
    forall j: nat | j < |was| - front
      ensures SameValue([f] + added, was, front, j)
    {
      assert j > 0 ==> SameValue(added, was, i, j - 1);
    }
  }

  function InsertAt<T>(s: seq<T>, k: nat, x: T): seq<T>
    requires k <= |s|
  {
    s[..k] + [x] + s[k..]
  }

  function RemoveAt<T>(s: seq<T>, k: nat): seq<T>
    requires k < |s|
  {
    s[..k] + s[k + 1..]
  }

  /** Where the ring positions are after an insertion behind position k. */
  lemma AtInserted(root: PacketElement, elems: seq<PacketElement>, k: nat, e: PacketElement, i: nat)
    requires k <= |elems| && i <= |elems| + 2
    ensures At(root, InsertAt(elems, k, e), i) ==
            if i <= k then At(root, elems, i) else if i == k + 1 then e else At(root, elems, i - 1)
  {
  }

  lemma DistinctInserted(root: PacketElement, elems: seq<PacketElement>, k: nat, e: PacketElement)
    requires Distinct(root, elems) && k <= |elems| && e != root && e !in elems
    ensures Distinct(root, InsertAt(elems, k, e))
  {
    var s := InsertAt(elems, k, e);
    forall i: nat, j: nat | i < j <= |s|
      ensures Differ(root, s, i, j)
    {
      AtInserted(root, elems, k, e, i);
      AtInserted(root, elems, k, e, j);
      if i != k + 1 && j != k + 1 {
        assert Differ(root, elems, if i <= k then i else i - 1, if j <= k then j else j - 1);
      }
    }
  }

  class PacketList {
    const root: PacketElement
    var len: nat
    ghost var elems: seq<PacketElement>

    ghost predicate Valid()
      reads this, root, elems
    {
      && len == |elems| && root.list == null && Distinct(root, elems)
      && (forall e :: e in elems ==> e.list == this)
      && (root.next == null ==> elems == [])
      && (root.next != null ==> Ring())
    }

    ghost predicate Ring()
      reads this, root, elems
    {
      forall i: nat {:trigger LinkAt(root, elems, i)} :: i <= |elems| ==> LinkAt(root, elems, i)
    }

    /** The zero value is an empty list ready to use. */
    constructor Zero(zero: Packet)
      ensures Valid() && elems == [] && fresh(root)
    {
      root := new PacketElement(zero);
      len, elems := 0, [];
    }

    lemma Around(i: nat)
      requires Valid() && i < |elems|
      ensures elems[i].next == if i + 1 < |elems| then elems[i + 1] else root
      ensures elems[i].prev == if i > 0 then elems[i - 1] else root
      ensures root !in elems
    {
      assert LinkAt(root, elems, i) && LinkAt(root, elems, i + 1);
      forall j | 0 <= j < |elems|
        ensures elems[j] != root
      {
        assert Differ(root, elems, 0, j + 1);
      }
    }

    method Insert(e: PacketElement, at: PacketElement, ghost k: nat)
      requires Valid() && root.next != null && k <= |elems| && at == At(root, elems, k)
      requires e != root && e !in elems
      modifies this, at, at.next, e
      ensures Valid() && root.next != null && elems == InsertAt(old(elems), k, e)
    {
      assert LinkAt(root, elems, k);
      var n := at.next;
      at.next := e;
      e.prev := at;
      e.next := n;
      n.prev := e;
      e.list := this;
      len := len + 1;
      DistinctInserted(root, elems, k, e);
      elems := InsertAt(elems, k, e);
      forall i: nat | i <= |elems|
        ensures LinkAt(root, elems, i)
      {
        AtInserted(root, old(elems), k, e, i);
        AtInserted(root, old(elems), k, e, i + 1);
        if i < k {
          assert old(LinkAt(root, elems, i)) && Differ(root, old(elems), i, k);
          assert i > 0 ==> Differ(root, old(elems), 0, i);
        } else if i > k + 1 {
          assert old(LinkAt(root, elems, i - 1)) && Differ(root, old(elems), k, i - 1);
        }
      }
    }

    method InsertValue(v: Packet, at: PacketElement, ghost k: nat) returns (e: PacketElement)
      requires Valid() && root.next != null && k <= |elems| && at == At(root, elems, k)
      modifies this, at, at.next
      ensures Valid() && root.next != null && fresh(e) && e.value == v && elems == InsertAt(old(elems), k, e)
    {
      e := new PacketElement(v);
      Insert(e, at, k);
    }

    /** Takes the element at position k out of the ring. */
    method TakeOut(e: PacketElement, ghost k: nat)
      requires Valid() && k < |elems| && elems[k] == e
      modifies this, root, elems
      ensures Valid() && root.next != null && elems == RemoveAt(old(elems), k)
      ensures e.list == null && e.next == null && e.prev == null && e != root && e !in elems
    {
      assert LinkAt(root, elems, k) && LinkAt(root, elems, k + 1) && Differ(root, elems, 0, k + 1);
      e.prev.next := e.next;
      e.next.prev := e.prev;
      e.next := null;
      e.prev := null;
      e.list := null;
      len := len - 1;
      DistinctRemoved(root, elems, k);
      elems := RemoveAt(elems, k);
      forall i: nat | i <= |elems|
        ensures LinkAt(root, elems, i)
      {
        AtRemoved(root, old(elems), k, i);
        AtRemoved(root, old(elems), k, i + 1);
        if i < k {
          assert old(LinkAt(root, elems, i)) && Differ(root, old(elems), i, k) && Differ(root, old(elems), i, k + 1);
          assert i > 0 ==> Differ(root, old(elems), 0, i);
        } else if i > k {
          assert old(LinkAt(root, elems, i + 1)) && Differ(root, old(elems), k, i + 1)
                 && Differ(root, old(elems), k + 1, i + 1);
        }
      }
    }

    /** Clears the list. */
    method Init()
      requires root.list == null
      modifies this, root
      ensures Valid() && root.next != null && elems == []
    {
      root.next := root;
      root.prev := root;
      len := 0;
      elems := [];
    }

    method LazyInit()
      requires Valid()
      modifies this, root
      ensures Valid() && root.next != null && elems == old(elems)
    {
      if root.next == null {
        Init();
      }
    }

    method Front() returns (e: PacketElement?)
      requires Valid()
      ensures e == if elems == [] then null else elems[0]
    {
      if len == 0 {
        return null;
      }
      assert LinkAt(root, elems, 0);
      return root.next;
    }

    method Back() returns (e: PacketElement?)
      requires Valid()
      ensures e == if elems == [] then null else elems[|elems| - 1]
    {
      if len == 0 {
        return null;
      }
      assert LinkAt(root, elems, |elems|);
      return root.prev;
    }

    /** Removes the element if it is in this list, at position k; the value is returned either way. */
    method Remove(e: PacketElement, ghost k: nat) returns (v: Packet)
      requires Valid() && (e.list == this ==> k < |elems| && elems[k] == e)
      modifies this, root, elems
      ensures Valid() && v == e.value
      ensures elems == if old(e.list) == this then RemoveAt(old(elems), k) else old(elems)
      ensures old(e.list) == this ==> e.list == null && e.next == null && e.prev == null
    {
      if e.list == this {
        TakeOut(e, k);
      }
      return e.value;
    }

    method PushFront(v: Packet) returns (e: PacketElement)
      requires Valid()
      modifies this, root, elems
      ensures Valid() && fresh(e) && e.value == v && elems == [e] + old(elems)
    {
      LazyInit();
      assert LinkAt(root, elems, 0);
      e := InsertValue(v, root, 0);
    }

    method PushBack(v: Packet) returns (e: PacketElement)
      requires Valid()
      modifies this, root, elems
      ensures Valid() && root.next != null && fresh(e) && e.value == v && elems == old(elems) + [e]
    {
      LazyInit();
      assert LinkAt(root, elems, |elems|);
      e := InsertValue(v, root.prev, |elems|);
    }

    /** A new element in front of the mark, which has position k, unless the mark is not in this list. */
    method InsertBefore(v: Packet, mark: PacketElement, ghost k: nat) returns (e: PacketElement?)
      requires Valid() && (mark.list == this ==> k < |elems| && elems[k] == mark)
      modifies this, root, elems
      ensures Valid() && (e == null <==> old(mark.list) != this)
      ensures e == null ==> elems == old(elems)
      ensures e != null ==> fresh(e) && e.value == v && elems == InsertAt(old(elems), k, e)
    {
      if mark.list != this {
        return null;
      }
      assert LinkAt(root, elems, k);
      e := InsertValue(v, mark.prev, k);
    }

    /** A new element behind the mark, which has position k, unless the mark is not in this list. */
    method InsertAfter(v: Packet, mark: PacketElement, ghost k: nat) returns (e: PacketElement?)
      requires Valid() && (mark.list == this ==> k < |elems| && elems[k] == mark)
      modifies this, root, elems
      ensures Valid() && (e == null <==> old(mark.list) != this)
      ensures e == null ==> elems == old(elems)
      ensures e != null ==> fresh(e) && e.value == v && elems == InsertAt(old(elems), k + 1, e)
    {
      if mark.list != this {
        return null;
      }
      assert LinkAt(root, elems, k + 1);
      e := InsertValue(v, mark, k + 1);
    }

    method MoveToFront(e: PacketElement, ghost k: nat)
      requires Valid() && (e.list == this ==> k < |elems| && elems[k] == e)
      modifies this, root, elems
      ensures Valid() && elems == if old(e.list) == this then [e] + RemoveAt(old(elems), k) else old(elems)
    {
      if e.list != this || root.next == e {
        FirstStays(e, k);
        return;
      }
      TakeOut(e, k);
      assert LinkAt(root, elems, 0) && (|elems| > 0 ==> elems[0] in old(elems));
      Insert(e, root, 0);
    }

    method MoveToBack(e: PacketElement, ghost k: nat)
      requires Valid() && (e.list == this ==> k < |elems| && elems[k] == e)
      modifies this, root, elems
      ensures Valid() && elems == if old(e.list) == this then RemoveAt(old(elems), k) + [e] else old(elems)
    {
      if e.list != this || root.prev == e {
        LastStays(e, k);
        return;
      }
      TakeOut(e, k);
      assert LinkAt(root, elems, |elems|) && (|elems| > 0 ==> elems[|elems| - 1] in old(elems));
      Insert(e, root.prev, |elems|);
    }

    /** Moves the element at position k in front of the mark, which has position m. */
    method MoveBefore(e: PacketElement, mark: PacketElement, ghost k: nat, ghost m: nat)
      requires Valid() && (e.list == this ==> k < |elems| && elems[k] == e)
      requires mark.list == this ==> m < |elems| && elems[m] == mark
      modifies this, root, elems
      ensures Valid()
      ensures elems == if old(e.list) == this && old(mark.list) == this && e != mark
                       then InsertAt(RemoveAt(old(elems), k), if m < k then m else m - 1, e) else old(elems)
    {
      if e.list != this || e == mark || mark.list != this {
        return;
      }
      TakeOut(e, k);
      ghost var m' := if m < k then m else m - 1;
      assert elems[m'] == mark && LinkAt(root, elems, m');
      Insert(e, mark.prev, m');
    }

    /** Moves the element at position k behind the mark, which has position m. */
    method MoveAfter(e: PacketElement, mark: PacketElement, ghost k: nat, ghost m: nat)
      requires Valid() && (e.list == this ==> k < |elems| && elems[k] == e)
      requires mark.list == this ==> m < |elems| && elems[m] == mark
      modifies this, root, elems
      ensures Valid()
      ensures elems == if old(e.list) == this && old(mark.list) == this && e != mark
                       then InsertAt(RemoveAt(old(elems), k), if m < k then m + 1 else m, e) else old(elems)
    {
      if e.list != this || e == mark || mark.list != this {
        return;
      }
      TakeOut(e, k);
      ghost var m' := if m < k then m else m - 1;
      assert elems[m'] == mark && LinkAt(root, elems, m' + 1) && (m' + 1 < |elems| ==> elems[m' + 1] in old(elems));
      Insert(e, mark, m' + 1);
    }

    /** Copies of all values of the other list go to the back. The other list may be this one: only the elements it
        had at the start are copied, and then the loop ends. */
    method PushBackList(other: PacketList) returns (ghost added: seq<PacketElement>)
      requires Valid() && other.Valid() && (other != this ==> other.root != root)
      modifies this, root, elems
      ensures Valid() && elems == old(elems) + added
      ensures Copies(added, old(other.elems), 0, |old(other.elems)|)
      ensures other != this ==> other.Valid() && other.elems == old(other.elems)
    {
      LazyInit();
      var i := other.len;
      var e := other.Front();
      ghost var was := other.elems;
      added := [];
      while i > 0
        invariant 0 <= i <= |was| && Valid() && root.next != null && other.Valid()
        invariant elems == old(elems) + added && (added != [] ==> fresh(added[|added| - 1]))
        invariant Copies(added, was, 0, |was| - i)
        invariant if other == this then was == old(elems) else other.elems == was
        invariant i > 0 ==> e == was[|was| - i]
        decreases i
      {
        ghost var f;
        ghost var k := |was| - i;
        assert LinkAt(root, elems, |elems|);
        assert added == [] && |elems| > 0 ==> elems[|elems| - 1] in old(elems);
        e, f := CopyBack(other, e, k);
        CopiesNext(added, f, was, k);
        added := added + [f];
        i := i - 1;
      }
    }

    /** One turn of the loop: a copy of the element at position k, then on to the next. */
    method CopyBack(other: PacketList, e: PacketElement, ghost k: nat)
      returns (next: PacketElement?, ghost f: PacketElement)
      requires Valid() && root.next != null && other.Valid() && (other != this ==> other.root != root)
      requires k < |other.elems| && e == other.elems[k]
      modifies this, root, root.prev
      ensures Valid() && root.next != null && fresh(f) && f.value == e.value && elems == old(elems) + [f]
      ensures other.Valid() && k < |other.elems| && (other != this ==> other.elems == old(other.elems))
      ensures next == if k + 1 < |other.elems| then other.elems[k + 1] else null
    {
      assert LinkAt(root, elems, |elems|) && (|elems| > 0 ==> elems[|elems| - 1] in elems);
      f := InsertValue(e.value, root.prev, |elems|);
      assert e == other.elems[k] && e in other.elems && e.list == other;
      assert other.Valid();
      next := e.Next(k);
    }

    /** The same at the front, in the same order. */
    method PushFrontList(other: PacketList) returns (ghost added: seq<PacketElement>)
      requires Valid() && other.Valid() && (other != this ==> other.root != root)
      modifies this, root, elems
      ensures Valid() && elems == added + old(elems)
      ensures Copies(added, old(other.elems), 0, |old(other.elems)|)
      ensures other != this ==> other.Valid() && other.elems == old(other.elems)
    {
      LazyInit();
      var i := other.len;
      var e := other.Back();
      ghost var was := other.elems;
      added := [];
      while i > 0
        invariant 0 <= i <= |was| && Valid() && root.next != null && other.Valid()
        invariant elems == added + old(elems) && (added != [] ==> fresh(added[0]))
        invariant Copies(added, was, i, |was|)
        invariant if other == this then was == old(elems) else other.elems == was
        invariant i > 0 ==> e == was[i - 1]
        decreases i
      {
        ghost var f;
        assert LinkAt(root, elems, 0);
        assert added == [] && |elems| > 0 ==> elems[0] in old(elems);
        e, f := CopyFront(other, e, i, was, added, old(elems));
        CopiesBefore(added, f, was, i);
        added := [f] + added;
        i := i - 1;
      }
    }

    /** One turn of the loop: a copy of element i - 1 of the other list, as it was at the start, then on to the one
        before. In a list copied onto itself, that element keeps moving back as copies go in before it. */
    method CopyFront(other: PacketList, e: PacketElement, ghost i: nat, ghost was: seq<PacketElement>,
                     ghost added: seq<PacketElement>, ghost before: seq<PacketElement>)
        returns (prev: PacketElement?, ghost f: PacketElement)
      requires Valid() && root.next != null && other.Valid() && (other != this ==> other.root != root)
      requires 0 < i <= |was| && e == was[i - 1] && elems == added + before && |added| == |was| - i
      requires if other == this then was == before else other.elems == was
      modifies this, root, root.next
      ensures Valid() && root.next != null && fresh(f) && f.value == e.value && elems == [f] + added + before
      ensures other.Valid() && (other != this ==> other.elems == was)
      ensures i > 1 ==> prev == was[i - 2]
    {
      assert LinkAt(root, elems, 0) && (|elems| > 0 ==> elems[0] in elems);
      f := InsertValue(e.value, root, 0);
      ghost var k := if other == this then |was| else i - 1;
      assert elems == [f] + added + before;
      assert e == other.elems[k] && e in other.elems && e.list == other;
      assert other.Valid();
      prev := e.Prev(k);
    }

    lemma FirstStays(e: PacketElement, k: nat)
      requires Valid() && (e.list == this ==> k < |elems| && elems[k] == e)
      requires e.list == this ==> root.next == e
      ensures e.list == this ==> [e] + RemoveAt(elems, k) == elems
    {
      if e.list == this {
        assert LinkAt(root, elems, 0);
        assert k > 0 ==> Differ(root, elems, 1, k + 1);
      }
    }

    lemma LastStays(e: PacketElement, k: nat)
      requires Valid() && (e.list == this ==> k < |elems| && elems[k] == e)
      requires e.list == this ==> root.prev == e
      ensures e.list == this ==> RemoveAt(elems, k) + [e] == elems
    {
      if e.list == this {
        assert LinkAt(root, elems, |elems|);
        assert k < |elems| - 1 ==> Differ(root, elems, k + 1, |elems|);
      }
    }
  }

  lemma AtRemoved(root: PacketElement, elems: seq<PacketElement>, k: nat, i: nat)
    requires k < |elems| && i <= |elems|
    ensures At(root, RemoveAt(elems, k), i) == if i <= k then At(root, elems, i) else At(root, elems, i + 1)
  {
  }

  lemma DistinctRemoved(root: PacketElement, elems: seq<PacketElement>, k: nat)
    requires Distinct(root, elems) && k < |elems|
    ensures Distinct(root, RemoveAt(elems, k)) && elems[k] !in RemoveAt(elems, k)
  {
    var s := RemoveAt(elems, k);
    forall i: nat, j: nat | i < j <= |s|
      ensures Differ(root, s, i, j)
    {
      AtRemoved(root, elems, k, i);
      AtRemoved(root, elems, k, j);
      assert Differ(root, elems, if i <= k then i else i + 1, if j <= k then j else j + 1);
    }
    forall i | 0 <= i < |s|
      ensures s[i] != elems[k]
    {
      assert if i < k then Differ(root, elems, i + 1, k + 1) else Differ(root, elems, k + 1, i + 2);
    }
  }

  // ------------------------------------------------------- the ring as history

  /** The packets of the elements, in order. */
  ghost function Values(elems: seq<PacketElement>): (ps: seq<Packet>)
    ensures |ps| == |elems| && forall i :: 0 <= i < |elems| ==> ps[i] == elems[i].value
  {
    seq(|elems|, i requires 0 <= i < |elems| => elems[i].value)
  }

  lemma ValuesConcat(a: seq<PacketElement>, e: PacketElement)
    ensures Values(a + [e]) == Values(a) + [e.value]
  {
  }

  /** In a history, an element can be told by its packet. */
  lemma SameElement(elems: seq<PacketElement>, i: nat, j: nat)
    requires Increasing(Values(elems)) && i < |elems| && j < |elems| && elems[i].value == elems[j].value
    ensures i == j
  {
    assert i < j ==> Before(Values(elems), i, j);
    assert j < i ==> Before(Values(elems), j, i);
  }

  lemma FirstIndex(elems: seq<PacketElement>, k: nat)
    requires Increasing(Values(elems)) && k < |elems|
    ensures elems[k].value in Values(elems) && IndexOf(Values(elems), elems[k].value) == k
    ensures Values(RemoveAt(elems, k)) == Remove(Values(elems), elems[k].value)
  {
    assert Values(elems)[k] == elems[k].value;
    SameElement(elems, IndexOf(Values(elems), elems[k].value), k);
  }

  /** The packet sent is put at the end. */
  method Track(list: PacketList, packet: Packet) returns (e: PacketElement)
    requires list.Valid()
    modifies list, list.root, list.elems
    ensures list.Valid() && fresh(e) && list.elems == old(list.elems) + [e]
    ensures Values(list.elems) == Values(old(list.elems)) + [packet]
  {
    e := list.PushBack(packet);
    ValuesConcat(old(list.elems), e);
  }

  /** Takes the element of a packet out of the ring, for an acknowledgement or to queue the packet again. */
  method Release(list: PacketList, e: PacketElement)
    requires list.Valid() && e in list.elems && Increasing(Values(list.elems))
    modifies list, list.root, list.elems
    ensures list.Valid() && e.value in Values(old(list.elems))
            && Values(list.elems) == Remove(Values(old(list.elems)), e.value)
    ensures forall x :: x in old(list.elems) && x != e ==> x in list.elems
    ensures Within(list.elems, old(list.elems))
  {
    ghost var k :| 0 <= k < |list.elems| && list.elems[k] == e;
    ghost var before := list.elems;
    FirstIndex(before, k);
    var _ := list.Remove(e, k);
    OthersStay(before, k);
  }

  ghost predicate Within(elems: seq<PacketElement>, all: seq<PacketElement>) {
    forall j :: 0 <= j < |elems| ==> elems[j] in all
  }

  lemma WithinTransitive(a: seq<PacketElement>, b: seq<PacketElement>, c: seq<PacketElement>)
    requires Within(a, b) && Within(b, c)
    ensures Within(a, c)
  {
  }

  lemma OthersStay(elems: seq<PacketElement>, k: nat)
    requires k < |elems|
    ensures forall x :: x in elems && x != elems[k] ==> x in RemoveAt(elems, k)
  {
    forall x | x in elems && x != elems[k]
      ensures x in RemoveAt(elems, k)
    {
      var i :| 0 <= i < |elems| && elems[i] == x;
      assert RemoveAt(elems, k)[if i < k then i else i - 1] == x;
    }
  }

  /** Releases the elements in the order given. */
  method ReleaseAll(list: PacketList, out: seq<PacketElement>)
    requires list.Valid() && Increasing(Values(list.elems)) && multiset(Values(out)) <= multiset(Values(list.elems))
    requires Within(out, list.elems)
    requires forall i, j :: 0 <= i < j < |out| ==> out[i] != out[j]
    modifies list, list.root, list.elems
    ensures list.Valid() && Values(list.elems) == RemoveMany(Values(old(list.elems)), Values(out))
  {
    ghost var before, values := Values(list.elems), Values(out);
    for i := 0 to |out|
      invariant list.Valid() && forall j :: i <= j < |out| ==> out[j] in list.elems
      invariant Within(list.elems, old(list.elems))
      invariant Values(list.elems) == RemoveMany(before, values[..i]) && Increasing(Values(list.elems))
    {
      RemoveNext(before, values, i);
      ghost var elems := list.elems;
      Release(list, out[i]);
      WithinTransitive(list.elems, elems, old(list.elems));
      StaysIncreasing(before, values, i + 1);
    }
    assert values[..|out|] == values;
  }

  lemma StaysIncreasing(ps: seq<Packet>, out: seq<Packet>, i: nat)
    requires Increasing(ps) && multiset(out) <= multiset(ps) && i <= |out|
    ensures Increasing(RemoveMany(ps, out[..i]))
  {
    PrefixWithin(out, i);
    RemoveManyFacts(ps, out[..i]);
  }

  lemma AckedNext(acked: seq<PacketElement>, e: PacketElement)
    requires Increasing(Values(acked)) && forall i :: 0 <= i < |acked| ==> acked[i].value.number < e.value.number
    ensures Increasing(Values(acked + [e])) && Values(acked + [e]) == Values(acked) + [e.value]
  {
    var ps := Values(acked + [e]);
    forall i: nat, j: nat | i < j < |ps|
      ensures Before(ps, i, j)
    {
      if j < |acked| {
        assert Before(Values(acked), i, j);
      }
    }
  }

  /** Handles the frame on the ring: exactly the packets that it does not cover are left, in order. */
  method Acknowledge(list: PacketList, ack: AckFrame) returns (ok: bool)
    requires list.Valid() && Increasing(Values(list.elems))
    modifies list, list.root, list.elems
    ensures list.Valid() && (WellShaped(ack) ==> ok) && (!ok ==> list.elems == old(list.elems))
    ensures ok <==> NoneAbove(Values(old(list.elems)), ack)
    ensures WellShaped(ack) ==> Values(list.elems) == Select(Values(old(list.elems)), Covered(ack), false)
  {
    ghost var before := Values(list.elems);
    var acked;
    ok, acked := FindCovered(list, ack);
    if ok {
      Apart(acked);
      RemoveManyFacts(before, Values(acked));
      ReleaseAll(list, acked);
      if WellShaped(ack) {
        SelectRest(before, Values(list.elems), Covered(ack));
      }
    }
  }

  lemma Apart(out: seq<PacketElement>)
    requires Increasing(Values(out))
    ensures forall i, j :: 0 <= i < j < |out| ==> out[i] != out[j]
  {
    forall i: nat, j: nat | i < j < |out|
      ensures out[i] != out[j]
    {
      assert Before(Values(out), i, j);
    }
  }

  /** The elements found among the first i, in order. */
  ghost predicate Scanned(acked: seq<PacketElement>, elems: seq<PacketElement>, i: nat, ack: AckFrame)
    requires i <= |elems|
  {
    match ack
    case AckFrame(_, _, _) =>
      && Noting(Values(acked), Values(elems)[..i], ack) && NoneAbove(Values(elems)[..i], ack)
      && Within(acked, elems) && Increasing(Values(acked))
      && forall j :: 0 <= j < |acked| && i < |elems| ==> acked[j].value.number < elems[i].value.number
  }

  lemma ScannedOn(acked: seq<PacketElement>, elems: seq<PacketElement>, i: nat, ack: AckFrame)
    requires i < |elems| && Increasing(Values(elems)) && Scanned(acked, elems, i, ack)
    requires !AboveRanges(ack, elems[i].value.number)
    ensures ack.AcksPacket(elems[i].value.number) ==> Scanned(acked + [elems[i]], elems, i + 1, ack)
    ensures (WellShaped(ack) ==> !ack.AcksPacket(elems[i].value.number)) ==> Scanned(acked, elems, i + 1, ack)
  {
    assert i + 1 < |elems| ==> Before(Values(elems), i, i + 1);
    if ack.AcksPacket(elems[i].value.number) {
      NotedOne(Values(acked), Values(elems), i, ack);
      AckedNext(acked, elems[i]);
    }
    if WellShaped(ack) ==> !ack.AcksPacket(elems[i].value.number) {
      PassedOne(Values(acked), Values(elems), i, ack);
    }
  }

  method ScanOne(ack: AckFrame, ghost elems: seq<PacketElement>, ghost i: nat, el: PacketElement,
                 found: seq<PacketElement>, start: nat)
    returns (ok: bool, acked: seq<PacketElement>, ackRangeIndex: nat)
    requires i < |elems| && elems[i] == el && Increasing(Values(elems)) && el.value.number <= ack.largestAcked
    requires Scanned(found, elems, i, ack)
    requires RangesPassed(ack, start, if i == 0 then 0 else elems[i - 1].value.number)
    ensures (WellShaped(ack) ==> ok) && (ok <==> !AboveRanges(ack, el.value.number))
    ensures ok ==> Scanned(acked, elems, i + 1, ack) && RangesPassed(ack, ackRangeIndex, el.value.number)
  {
    assert i > 0 ==> Before(Values(elems), i - 1, i);
    acked := found;
    var verdict;
    verdict, ackRangeIndex := Examine(ack, el.value.number, start);
    ok := !verdict.WrongPacket?;
    if ok {
      ScannedOn(found, elems, i, ack);
    }
    if verdict.Acknowledged? {
      acked := acked + [el];
    }
  }

  /** The scan of the history, from element to element: it finds the elements of exactly the packets that the frame
      covers. */
  method FindCovered(list: PacketList, ack: AckFrame) returns (ok: bool, acked: seq<PacketElement>)
    requires list.Valid() && Increasing(Values(list.elems))
    ensures ok ==> Noting(Values(acked), Values(list.elems), ack) && Increasing(Values(acked))
    ensures Within(acked, list.elems) && (WellShaped(ack) ==> ok) && (ok <==> NoneAbove(Values(list.elems), ack))
  {
    ghost var elems := list.elems;
    acked := [];
    var ackRangeIndex := 0;
    ghost var i := 0;
    var el := list.Front();
    while el != null
      invariant 0 <= i <= |elems| && el == (if i < |elems| then elems[i] else null)
      invariant RangesPassed(ack, ackRangeIndex, if i == 0 then 0 else elems[i - 1].value.number)
      invariant Scanned(acked, elems, i, ack)
      decreases |elems| - i
    {
      if el.value.number > ack.largestAcked {
        break;
      }
      ok, acked, ackRangeIndex := ScanOne(ack, elems, i, el, acked, ackRangeIndex);
      if !ok {
        assert AboveRanges(ack, Values(elems)[i].number);
        return false, [];
      }
      assert el in list.elems && el.list == list;
      el := el.Next(i);
      i := i + 1;
    }
    NotedAll(Values(acked), Values(elems), i, ack);
    NoneAboveAll(Values(elems), i, ack);
    return true, acked;
  }
}
