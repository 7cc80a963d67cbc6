/** Doubly linked tail queues (the QTAILQ macros of qemu-queue.h).

    An element does not point to its predecessor but to the memory cell that points to it: the "next"
    field of its predecessor or the "first" field of the head. */
module TailQueue {
  import opened Common

  /** The address of a cell that holds a pointer to an element. */
  datatype Cell<T> = FirstOf(q: Queue<T>) | NextOf(e: Elem<T>)

  class Elem<T> {
    const item: T
    var next: Elem?<T>
    var prev: Cell<T>

    constructor (item: T, anywhere: Cell<T>)
      ensures this.item == item
    {
      this.item := item;
      next, prev := null, anywhere;
    }
  }

  ghost predicate NoRepetition<X>(s: seq<X>) {
    forall i, j :: 0 <= i < j < |s| ==> s[i] != s[j]
  }

  ghost function Insert<X>(s: seq<X>, k: nat, x: X): seq<X>
    requires k <= |s|
  {
    s[..k] + [x] + s[k..]
  }

  ghost function Delete<X>(s: seq<X>, k: nat): seq<X>
    requires k < |s|
  {
    s[..k] + s[k + 1..]
  }

  lemma InsertKeepsDistinct<X>(s: seq<X>, k: nat, x: X)
    requires NoRepetition(s) && x !in s && k <= |s|
    ensures NoRepetition(Insert(s, k, x))
    ensures forall i :: 0 <= i <= |s| ==> Insert(s, k, x)[i] == if i < k then s[i] else if i == k then x else s[i - 1]
  {
  }

  lemma DeleteKeepsDistinct<X>(s: seq<X>, k: nat)
    requires NoRepetition(s) && k < |s|
    ensures NoRepetition(Delete(s, k))
    ensures forall i :: 0 <= i < |s| - 1 ==> Delete(s, k)[i] == if i < k then s[i] else s[i + 1]
  {
  }

  class Queue<T> {
    var first: Elem?<T>
    var last: Cell<T>
    ghost var elems: seq<Elem<T>>

    /** The link before position i of a list: the cell in front points to the element there, and that
        element, or the head if the list ends there, knows the address of the cell. */
    ghost predicate Joint(s: seq<Elem<T>>, i: nat)
      requires i <= |s|
      reads this, s
    {
      && (if i == 0 then first else s[i - 1].next) == (if i < |s| then s[i] else null)
      && (if i < |s| then s[i].prev else last) == (if i == 0 then FirstOf(this) else NextOf(s[i - 1]))
    }

    /** The queue links exactly the elements of "elems", in that order, without repetition. */
    ghost predicate Valid()
      reads this, elems
    {
      NoRepetition(elems) && forall i :: 0 <= i <= |elems| ==> Joint(elems, i)
    }

    /** The pointer stored in a cell. */
    function Load(c: Cell<T>): Elem?<T>
      reads if c.FirstOf? then {c.q as object} else {c.e}
    {
      if c.FirstOf? then c.q.first else c.e.next
    }

    method Store(c: Cell<T>, e: Elem?<T>)
      modifies if c.FirstOf? then {c.q as object} else {c.e}
      ensures c.FirstOf? ==> c.q.first == e && c.q.last == old(c.q.last) && c.q.elems == old(c.q.elems)
      ensures c.NextOf? ==> c.e.next == e && c.e.prev == old(c.e.prev)
    {
      match c {
        case FirstOf(q) => q.first := e;
        case NextOf(x) => x.next := e;
      }
    }

    constructor Init()
      ensures Valid() && elems == []
    {
      first := null;
      elems := [];
      last := FirstOf(this);
    }

    method InsertHead(e: Elem<T>)
      requires Valid() && e !in elems
      modifies this, elems, e
      ensures Valid() && elems == [e] + old(elems)
    {
      assert Joint(elems, 0);
      e.next := first;
      if e.next != null {
        first.prev := NextOf(e);
      } else {
        last := NextOf(e);
      }
      first := e;
      e.prev := FirstOf(this);
      InsertKeepsDistinct(elems, 0, e);
      elems := Insert(elems, 0, e);
      forall i | 0 <= i <= |elems| ensures Joint(elems, i) {
        if i > 1 {
          assert old(Joint(elems, i - 1));
        }
      }
    }

    method InsertTail(e: Elem<T>)
      requires Valid() && e !in elems
      modifies this, elems, e
      ensures Valid() && elems == old(elems) + [e]
    {
      assert Joint(elems, |elems|);
      e.next := null;
      e.prev := last;
      Store(last, e);
      last := NextOf(e);
      InsertKeepsDistinct(elems, |elems|, e);
      elems := Insert(elems, |elems|, e);
      forall i | 0 <= i <= |elems| ensures Joint(elems, i) {
        if i < |old(elems)| {
          assert old(Joint(elems, i));
        }
      }
    }

    method InsertAfter(ghost k: nat, at: Elem<T>, e: Elem<T>)
      requires Valid() && e !in elems && k < |elems| && elems[k] == at
      modifies this, elems, e
      ensures Valid() && elems == Insert(old(elems), k + 1, e)
    {
      assert Joint(elems, k + 1);
      e.next := at.next;
      if e.next != null {
        e.next.prev := NextOf(e);
      } else {
        last := NextOf(e);
      }
      at.next := e;
      e.prev := NextOf(at);
      InsertKeepsDistinct(elems, k + 1, e);
      elems := Insert(elems, k + 1, e);
      forall i | 0 <= i <= |elems| ensures Joint(elems, i) {
        if i < k + 1 {
          assert old(Joint(elems, i));
        } else if i > k + 2 {
          assert old(Joint(elems, i - 1));
        }
      }
    }

    method InsertBefore(ghost k: nat, at: Elem<T>, e: Elem<T>)
      requires Valid() && e !in elems && k < |elems| && elems[k] == at
      modifies this, elems, e
      ensures Valid() && elems == Insert(old(elems), k, e)
    {
      assert Joint(elems, k);
      e.prev := at.prev;
      e.next := at;
      Store(at.prev, e);
      at.prev := NextOf(e);
      InsertKeepsDistinct(elems, k, e);
      elems := Insert(elems, k, e);
      forall i | 0 <= i <= |elems| ensures Joint(elems, i) {
        if i < k {
          assert old(Joint(elems, i));
        } else if i > k + 1 {
          assert old(Joint(elems, i - 1));
        }
      }
    }

    method Remove(ghost k: nat, e: Elem<T>)
      requires Valid() && k < |elems| && elems[k] == e
      modifies this, elems
      ensures Valid() && elems == Delete(old(elems), k)
    {
      assert Joint(elems, k) && Joint(elems, k + 1);
      if e.next != null {
        e.next.prev := e.prev;
      } else {
        last := e.prev;
      }
      Store(e.prev, e.next);
      DeleteKeepsDistinct(elems, k);
      elems := Delete(elems, k);
      forall i | 0 <= i <= |elems| ensures Joint(elems, i) {
        if i < k {
          assert old(Joint(elems, i));
        } else if i > k {
          assert old(Joint(elems, i + 1));
        }
      }
    }

    method Traverse() returns (s: seq<Elem<T>>)
      requires Valid()
      ensures s == elems
    {
      s := [];
      assert Joint(elems, 0);
      var e := first;
      while e != null
        invariant |s| <= |elems| && s == elems[..|s|] && e == if |s| < |elems| then elems[|s|] else null
        decreases |elems| - |s|
      {
        s := s + [e];
        assert Joint(elems, |s|);
        e := e.next;
      }
    }

    /** What follows the pointer at an address when the address is read as that of a queue head: both a
        head and the link fields of an element consist of a pointer followed by the address of a cell. */
    function SecondWord(c: Cell<T>): Cell<T>
      reads if c.FirstOf? then {c.q as object} else {c.e}
    {
      if c.FirstOf? then c.q.last else c.e.prev
    }

    /** The last element. */
    method Last() returns (e: Elem?<T>)
      requires Valid()
      ensures e == if elems == [] then null else elems[|elems| - 1]
    {
      assert Joint(elems, |elems|);
      if elems != [] { assert Joint(elems, |elems| - 1); }
      e := Load(SecondWord(last));
    }

    /** The element before another one. */
    method Prev(ghost k: nat, e: Elem<T>) returns (p: Elem?<T>)
      requires Valid() && k < |elems| && elems[k] == e
      ensures p == if k == 0 then null else elems[k - 1]
    {
      assert Joint(elems, k) && Joint(elems, |elems|);
      if k > 0 { assert Joint(elems, k - 1); }
      p := Load(SecondWord(e.prev));
    }

    method TraverseReverse() returns (s: seq<Elem<T>>)
      requires Valid()
      ensures s == Reverse(elems)
    {
      s := [];
      var e := Last();
      while e != null
        invariant |s| <= |elems| && s == Reverse(elems)[..|s|]
        invariant e == if |s| == |elems| then null else elems[|elems| - 1 - |s|]
        decreases |elems| - |s|
      {
        ghost var k := |elems| - 1 - |s|;
        s := s + [e];
        e := Prev(k, e);
      }
    }
  }
}
