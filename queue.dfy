/** queue.go: a FIFO queue over a circular slot array that grows when full.
    The source stores `*Event`; the model is generic in the element type so
    that both event modules can use it. A slot holds `None` where Go holds
    `nil`. */
module Queues {
  import opened Wrappers

  /** Position `x` of a circular array of `n` slots, for `0 <= x < 2 * n`. */
  function Wrap(x: int, n: int): int {
    if x < n then x else x - n
  }

  /** Go's `x % n` agrees with Wrap where the queue uses it. */
  lemma WrapAround(x: int, n: int)
    requires 0 <= x < 2 * n
    ensures x % n == Wrap(x, n)
  {
  }

  class Queue<T> {
    var nodes: array<Option<T>>
    /** The initial capacity, which is also the growth step. */
    var size: nat
    var head: nat
    var tail: nat
    var count: nat

    /** The queued items, oldest first. */
    ghost var Contents: seq<T>
    ghost var Repr: set<object>

    /** The live items sit at `head`, `head + 1`, ... around the wrap point;
        `tail` is the slot the next push writes. A queue may have no slots
        at all (`NewQueue(0)`, or the literal `&Queue{}`); a queue with slots
        grows by a positive step. */
    ghost predicate Valid()
      reads this, Repr
      ensures Valid() ==> this in Repr
    {
      Repr == {this, nodes} &&
      (size == 0 ==> nodes.Length == 0) &&
      count <= nodes.Length &&
      (nodes.Length == 0 ==> head == 0 && tail == 0) &&
      (nodes.Length > 0 ==> head < nodes.Length && tail == Wrap(head + count, nodes.Length)) &&
      |Contents| == count &&
      forall i: nat :: i < count ==> Holds(i)
    }

    /** The `i`th oldest item sits `i` slots after `head`, around the wrap
        point. */
    ghost predicate Holds(i: nat)
      reads this, nodes
    {
      var j := Wrap(head + i, nodes.Length);
      i < |Contents| && 0 <= j < nodes.Length && nodes[j] == Some(Contents[i])
    }

    /** NewQueue (queue.go:14-19). */
    constructor (size: nat)
      ensures Valid() && fresh(Repr)
      ensures Contents == [] && nodes.Length == size && this.size == size
      ensures head == 0 && tail == 0 && count == 0
    {
      nodes := new Option<T>[size](_ => None);
      this.size := size;
      head, tail, count := 0, 0, 0;
      Contents := [];
      Repr := {this, nodes};
    }

    /** The reallocation inside Push (queue.go:23-30): a full queue's items
        are copied, oldest first, to the front of a fresh array `size` slots
        longer; `head` moves to 0 and `tail` to the first free slot. */
    method Grow()
      requires Valid() && 0 < count == nodes.Length
      modifies Repr
      ensures Valid() && fresh(Repr - old(Repr))
      ensures fresh(nodes) && nodes.Length == old(nodes.Length) + size
      ensures Contents == old(Contents) && count == old(count) && size == old(size)
      ensures head == 0 && tail == old(nodes.Length)
      ensures forall i :: 0 <= i < count ==> nodes[i] == Some(Contents[i])
    {
      var len := nodes.Length;
      forall i: nat | i < count ensures nodes[Wrap(head + i, len)] == Some(Contents[i]) {
        assert Holds(i);
      }
      var grown := new Option<T>[len + size](_ => None);
      forall i | 0 <= i < len - head {
        grown[i] := nodes[head + i];
      }
      forall i | len - head <= i < len {
        grown[i] := nodes[i - (len - head)];
      }
      head := 0;
      tail := len;
      nodes := grown;
      Repr := {this, nodes};
      forall i: nat | i < count ensures Holds(i) {
      }
    }

    /** Push (queue.go:22-34): the item joins the back of the queue. Only a
        full queue grows. A queue without slots cannot take an item: Go
        indexes `nodes[0]` and panics. */
    method Push(n: T)
      requires Valid() && nodes.Length > 0
      modifies Repr
      ensures Valid() && fresh(Repr - old(Repr))
      ensures Contents == old(Contents) + [n]
      ensures count == old(count) + 1 && size == old(size)
      ensures old(count) < old(nodes.Length) ==> nodes == old(nodes) && head == old(head)
      ensures old(count) == old(nodes.Length) ==>
        fresh(nodes) && nodes.Length == old(nodes.Length) + size && head == 0 &&
        forall i :: 0 <= i < old(count) ==> nodes[i] == Some(old(Contents)[i])
    {
      WrapAround(head + count, nodes.Length);
      if head == tail && count > 0 {
        Grow();
      }
      Put(n);
    }

    /** The write at the back of Push (queue.go:31-33), into a free slot. */
    method Put(n: T)
      requires Valid() && count < nodes.Length
      modifies nodes, this`tail, this`count, this`Contents
      ensures Valid() && Contents == old(Contents) + [n] && count == old(count) + 1
      ensures nodes == old(nodes) && head == old(head) && nodes[old(tail)] == Some(n)
      ensures forall i :: 0 <= i < nodes.Length && i != old(tail) ==> nodes[i] == old(nodes[i])
    {
      var len := nodes.Length;
      ghost var before := Contents;
      ghost var slots := nodes[..];
      forall i: nat | i < count
        ensures slots[Wrap(head + i, len)] == Some(before[i]) && Wrap(head + i, len) != tail
      {
        assert Holds(i);
      }
      nodes[tail] := Some(n);
      WrapAround(tail + 1, len);
      tail := (tail + 1) % len;
      count := count + 1;
      Contents := Contents + [n];
      forall i: nat | i < count ensures Holds(i) {
        if i < count - 1 {
          assert nodes[Wrap(head + i, len)] == slots[Wrap(head + i, len)];
        }
      }
    }

    /** Pop (queue.go:37-45): the oldest item, or None (Go's nil) on an empty
        queue, which is then left exactly as it was. The vacated slot keeps
        its old value, as in Go. */
    method Pop() returns (node: Option<T>)
      requires Valid()
      modifies this
      ensures Valid() && Repr == old(Repr) && nodes == old(nodes) && size == old(size)
      ensures old(count) == 0 ==>
        node == None && Contents == old(Contents) &&
        head == old(head) && tail == old(tail) && count == old(count)
      ensures old(count) > 0 ==>
        node == Some(old(Contents)[0]) && Contents == old(Contents)[1..] &&
        count == old(count) - 1 && tail == old(tail)
    {
      if count == 0 {
        return None;
      }
      var len := nodes.Length;
      ghost var oldHead, before := head, Contents;
      forall i: nat | i < count ensures nodes[Wrap(head + i, len)] == Some(before[i]) {
        assert Holds(i);
      }
      WrapAround(head, nodes.Length);
      node := nodes[head];
      WrapAround(head + 1, nodes.Length);
      head := (head + 1) % nodes.Length;
      count := count - 1;
      Contents := Contents[1..];
      forall i: nat | i < count
        ensures Holds(i)
      {
        WrapAround(head + i, len);
        WrapAround(oldHead + i + 1, len);
        assert nodes[Wrap(oldHead + i + 1, len)] == Some(before[i + 1]);
      }
    }
  }
}
