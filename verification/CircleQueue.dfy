/** Circular queues (the QCIRCLEQ macros of qemu-queue.h).

    The head takes part in the circle: the pointers past either end lead to the head itself, which is
    written null here, since no element is null. */
module CircleQueue {
  import opened Common
  import opened TailQueue

  class Node<T> {
    const item: T
    var next: Node?<T>
    var prev: Node?<T>

    constructor (item: T)
      ensures this.item == item
    {
      this.item := item;
      next, prev := null, null;
    }
  }

  class Circle<T> {
    var first: Node?<T>
    var last: Node?<T>
    ghost var elems: seq<Node<T>>

    /** The link before position i of a list: both neighbours, the head being the neighbour of both
        ends, point to each other. */
    ghost predicate Joint(s: seq<Node<T>>, i: nat)
      requires i <= |s|
      reads this, s
    {
      && (if i == 0 then first else s[i - 1].next) == (if i < |s| then s[i] else null)
      && (if i < |s| then s[i].prev else last) == (if i == 0 then null else s[i - 1])
    }

    ghost predicate Valid()
      reads this, elems
    {
      NoRepetition(elems) && forall i :: 0 <= i <= |elems| ==> Joint(elems, i)
    }

    constructor Init()
      ensures Valid() && elems == []
    {
      first, last := null, null;
      elems := [];
    }

    method InsertAfter(ghost k: nat, at: Node<T>, e: Node<T>)
      requires Valid() && e !in elems && k < |elems| && elems[k] == at
      modifies this, elems, e
      ensures Valid() && elems == Insert(old(elems), k + 1, e)
    {
      assert Joint(elems, k + 1);
      e.next := at.next;
      e.prev := at;
      if at.next == null {
        last := e;
      } else {
        at.next.prev := e;
      }
      at.next := e;
      InsertKeepsDistinct(elems, k + 1, e);
      elems := Insert(elems, k + 1, e);
      forall i | 0 <= i <= |elems| ensures Joint(elems, i) {
        if i < k + 1 {
          assert old(Joint(elems, i));
        } else if i > k + 2 {
          assert old(Joint(elems, i - 1));
        }
      }
    }

    method InsertBefore(ghost k: nat, at: Node<T>, e: Node<T>)
      requires Valid() && e !in elems && k < |elems| && elems[k] == at
      modifies this, elems, e
      ensures Valid() && elems == Insert(old(elems), k, e)
    {
      assert Joint(elems, k);
      e.next := at;
      e.prev := at.prev;
      if at.prev == null {
        first := e;
      } else {
        at.prev.next := e;
      }
      at.prev := e;
      InsertKeepsDistinct(elems, k, e);
      elems := Insert(elems, k, e);
      forall i | 0 <= i <= |elems| ensures Joint(elems, i) {
        if i < k {
          assert old(Joint(elems, i));
        } else if i > k + 1 {
          assert old(Joint(elems, i - 1));
        }
      }
    }

    method InsertHead(e: Node<T>)
      requires Valid() && e !in elems
      modifies this, elems, e
      ensures Valid() && elems == [e] + old(elems)
    {
      assert Joint(elems, 0) && Joint(elems, |elems|);
      e.next := first;
      e.prev := null;
      if last == null {
        last := e;
      } else {
        first.prev := e;
      }
      first := e;
      InsertKeepsDistinct(elems, 0, e);
      elems := Insert(elems, 0, e);
      forall i | 0 <= i <= |elems| ensures Joint(elems, i) {
        if i > 1 {
          assert old(Joint(elems, i - 1));
        }
      }
    }

    method InsertTail(e: Node<T>)
      requires Valid() && e !in elems
      modifies this, elems, e
      ensures Valid() && elems == old(elems) + [e]
    {
      assert Joint(elems, 0) && Joint(elems, |elems|);
      e.next := null;
      e.prev := last;
      if first == null {
        first := e;
      } else {
        last.next := e;
      }
      last := e;
      InsertKeepsDistinct(elems, |elems|, e);
      elems := Insert(elems, |elems|, e);
      forall i | 0 <= i <= |elems| ensures Joint(elems, i) {
        if i < |old(elems)| {
          assert old(Joint(elems, i));
        }
      }
    }

    method Remove(ghost k: nat, e: Node<T>)
      requires Valid() && k < |elems| && elems[k] == e
      modifies this, elems
      ensures Valid() && elems == Delete(old(elems), k)
    {
      assert Joint(elems, k) && Joint(elems, k + 1);
      if e.next == null {
        last := e.prev;
      } else {
        e.next.prev := e.prev;
      }
      if e.prev == null {
        first := e.next;
      } else {
        e.prev.next := e.next;
      }
      DeleteKeepsDistinct(elems, k);
      elems := Delete(elems, k);
      forall i | 0 <= i <= |elems| ensures Joint(elems, i) {
        if i < k {
          assert old(Joint(elems, i));
        } else if i > k {
          assert old(Joint(elems, i + 1));
        }
      }
    }

    method Traverse() returns (s: seq<Node<T>>)
      requires Valid()
      ensures s == elems
    {
      s := [];
      assert Joint(elems, 0);
      var e := first;
      while e != null
        invariant |s| <= |elems| && s == elems[..|s|] && e == if |s| < |elems| then elems[|s|] else null
        decreases |elems| - |s|
      {
        s := s + [e];
        assert Joint(elems, |s|);
        e := e.next;
      }
    }

    method TraverseReverse() returns (s: seq<Node<T>>)
      requires Valid()
      ensures s == Reverse(elems)
    {
      s := [];
      assert Joint(elems, |elems|);
      var e := last;
      while e != null
        invariant |s| <= |elems| && s == Reverse(elems)[..|s|]
        invariant e == if |s| == |elems| then null else elems[|elems| - 1 - |s|]
        decreases |elems| - |s|
      {
        assert Joint(elems, |elems| - 1 - |s|);
        s := s + [e];
        e := e.prev;
      }
    }

    /** The neighbours of an element when the circle is walked round and round, skipping the head. */
    method LoopNext(ghost k: nat, e: Node<T>) returns (r: Node?<T>)
      requires Valid() && k < |elems| && elems[k] == e
      ensures r == elems[(k + 1) % |elems|]
    {
      assert Joint(elems, k + 1) && Joint(elems, 0);
      r := if e.next == null then first else e.next;
    }

    method LoopPrev(ghost k: nat, e: Node<T>) returns (r: Node?<T>)
      requires Valid() && k < |elems| && elems[k] == e
      ensures r == elems[(k - 1) % |elems|]
    {
      assert Joint(elems, k) && Joint(elems, |elems|);
      r := if e.prev == null then last else e.prev;
    }
  }
}
