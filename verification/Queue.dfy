/** The array queue: head and tail only move forward, so room is never reclaimed. */
module Queue {

  class NodeQueue {
    const q: array<nat>
    const size: nat
    var h: nat
    var t: nat

    ghost predicate Valid()
      reads this
    {
      q.Length == size && h <= t <= size
    }

    /** The elements from head to tail. */
    ghost function Contents(): seq<nat>
      reads this, q
    {
      if h <= t <= q.Length then q[h..t] else []
    }

    /** Everything ever enqueued. */
    ghost function History(): seq<nat>
      reads this, q
    {
      if t <= q.Length then q[..t] else []
    }

    constructor (size: nat)
      ensures Valid() && this.size == size && fresh(q)
      ensures Contents() == [] && History() == [] && h == t == 0
    {
      this.size := size;
      q := new nat[size];
      h := 0;
      t := 0;
    }

    method Enqueue(x: nat) returns (rv: int)
      requires Valid()
      modifies this`t, q
      ensures Valid()
      ensures rv == if |old(History())| == size then -2 else 0
      ensures rv == 0 ==> History() == old(History()) + [x] && Contents() == old(Contents()) + [x]
      ensures rv != 0 ==> t == old(t) && q[..] == old(q[..])
    {
      if t >= size {
        return -2;
      }
      q[t] := x;
      t := t + 1;
      rv := 0;
    }

    /** -1 stands for the NULL of an empty queue. */
    method Dequeue() returns (x: int)
      requires Valid()
      modifies this`h
      ensures Valid() && History() == old(History())
      ensures old(Contents()) == [] ==> x == -1 && h == old(h)
      ensures old(Contents()) != [] ==>
                x == old(Contents())[0] && Contents() == old(Contents())[1..] && h == old(h) + 1
    {
      if h == t {
        return -1;
      }
      x := q[h];
      h := h + 1;
    }

    method IsEmpty() returns (b: bool)
      requires Valid()
      ensures b <==> h == t
      ensures b <==> Contents() == []
    {
      b := h == t;
    }

    method Size() returns (n: nat)
      requires Valid()
      ensures n == |Contents()|
    {
      n := t - h;
    }
  }
}
