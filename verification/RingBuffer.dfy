/** The ring called by one thread at a time: the array of cells, its set-up loop, and the push and
    pop loops.  The interleaved protocol is in Ring. */
module RingBuffer {
  import opened Bits
  import Ring

  type Cell = Ring.Cell
  type Pointer = Ring.Pointer

  /** `capacity < 2 || (capacity & (capacity - 1)) != 0` refuses exactly what is not a power of two
      above 1. */
  lemma {:induction false} SingleBit(n: nat)
    requires n >= 1
    ensures BitAnd(n, n - 1) == 0 <==> PowerOfTwo(n)
  {
    if n == 1 {
    } else if n % 2 == 0 {
      SingleBit(n / 2);
      AndByBit(n / 2, n / 2 - 1, 0, 1);
    } else {
      AndByBit(n / 2, n / 2, 1, 0);
      AndSelf(n / 2);
    }
  }

  lemma {:induction false} AndSelf(n: nat)
    ensures BitAnd(n, n) == n
  {
    if n > 0 {
      AndSelf(n / 2);
      AndByBit(n / 2, n / 2, n % 2, n % 2);
    }
  }

  function At(cells: seq<Cell>, i: nat): Cell
    requires |cells| > 0
  {
    cells[i % |cells|]
  }

  /** Indices `tail..head` hold the queue; the lap ahead is ready to be written. */
  ghost predicate Holds(cells: seq<Cell>, tail: nat, head: nat, queue: seq<Pointer>) {
    && 0 < |cells| && tail <= head <= tail + |cells| && |queue| == head - tail
    && (forall i :: tail <= i < head ==> At(cells, i).sequence == i + 1 && At(cells, i).data == queue[i - tail])
    && (forall i :: head <= i < tail + |cells| ==> At(cells, i).sequence == i)
  }

  /** What the cell at `head` says: free, or still a lap behind. */
  lemma HeadCell(cells: seq<Cell>, tail: nat, head: nat, queue: seq<Pointer>)
    requires Holds(cells, tail, head, queue)
    ensures head < tail + |cells| ==> At(cells, head).sequence == head
    ensures head == tail + |cells| ==> At(cells, head).sequence == tail + 1
  {
    if head == tail + |cells| { WrapOnce(tail, |cells|); assert At(cells, tail).sequence == tail + 1; }
  }

  /** What the cell at `tail` says: filled, or not yet. */
  lemma TailCell(cells: seq<Cell>, tail: nat, head: nat, queue: seq<Pointer>)
    requires Holds(cells, tail, head, queue)
    ensures At(cells, tail).sequence == if tail < head then tail + 1 else tail
  {}

  lemma Pushed(cells: seq<Cell>, tail: nat, head: nat, queue: seq<Pointer>, x: Pointer)
    requires Holds(cells, tail, head, queue) && head < tail + |cells|
    ensures Holds(cells[head % |cells| := Ring.Cell(head + 1, x)], tail, head + 1, queue + [x])
  {
    var cells' := cells[head % |cells| := Ring.Cell(head + 1, x)];
    forall i | tail <= i < head ensures At(cells', i) == At(cells, i) { DistinctSlots(i, head, |cells|); }
    forall i | head < i < tail + |cells| ensures At(cells', i) == At(cells, i) { DistinctSlots(head, i, |cells|); }
  }

  lemma Popped(cells: seq<Cell>, tail: nat, head: nat, queue: seq<Pointer>)
    requires Holds(cells, tail, head, queue) && tail < head
    ensures At(cells, tail).data == queue[0]
    ensures Holds(cells[tail % |cells| := Ring.Cell(tail + |cells|, queue[0])], tail + 1, head, queue[1..])
  {
    var n := |cells|;
    var cells' := cells[tail % n := Ring.Cell(tail + n, queue[0])];
    assert At(cells, tail).data == queue[0];
    forall i | tail < i < tail + n ensures At(cells', i) == At(cells, i) { DistinctSlots(tail, i, n); }
    WrapOnce(tail, n);
    assert At(cells', tail + n).sequence == tail + n;
  }

  class RingBuffer {
    const capacity: nat
    const mask: nat
    const cells: array<Cell>
    var head: nat
    var tail: nat
    ghost var queue: seq<Pointer>

    ghost predicate Valid()
      reads this, cells
    {
      && PowerOfTwo(capacity) && 2 <= capacity == cells.Length && mask == capacity - 1
      && Holds(cells[..], tail, head, queue)
    }

    /** `nkit_ring_create`, on a capacity it accepts. */
    constructor (capacity: nat)
      requires PowerOfTwo(capacity) && capacity >= 2
      ensures Valid() && queue == [] && this.capacity == capacity && fresh(cells)
    {
      this.capacity, mask := capacity, capacity - 1;
      var fresh' := new Cell[capacity](_ => Ring.Cell(0, Ring.NULL));
      for i := 0 to capacity
        invariant forall j :: 0 <= j < i ==> fresh'[j].sequence == j
      {
        fresh'[i] := fresh'[i].(sequence := i);
      }
      cells := fresh';
      head, tail, queue := 0, 0, [];
      new;
      forall i | 0 <= i < capacity ensures At(cells[..], i).sequence == i { ModuloUnique(i, capacity, 0, i); }
    }

    /** The cell a producer or consumer at `h` looks at. */
    ghost predicate Looks(h: nat, i: nat) {
      PowerOfTwo(capacity) && 0 <= i < capacity == cells.Length && i == h % capacity
    }

    method SlotOf(h: nat) returns (i: nat)
      requires Valid()
      ensures Looks(h, i)
    {
      MaskIsModulo(h, capacity);
      i := BitAnd(h, mask);
    }

    /** A producer that has moved `head` past `h` writes its cell and commits. */
    method Fill(h: nat, i: nat, x: Pointer)
      requires Valid() && h == head < tail + capacity && Looks(h, i)
      modifies this`head, this`queue, cells
      ensures Valid() && queue == old(queue) + [x]
    {
      Pushed(cells[..], tail, head, queue, x);
      head := h + 1;
      cells[i] := cells[i].(data := x);
      cells[i] := cells[i].(sequence := h + 1);
      queue := queue + [x];
      assert cells[..] == old(cells[..])[i := Ring.Cell(h + 1, x)];
    }

    /** A consumer that has moved `tail` past `t` reads its cell and commits. */
    method Drain(t: nat, i: nat) returns (x: Pointer)
      requires Valid() && t == tail < head && Looks(t, i)
      modifies this`tail, this`queue, cells
      ensures Valid() && x == old(queue)[0] && queue == old(queue)[1..]
    {
      Popped(cells[..], tail, head, queue);
      tail := t + 1;
      x := cells[i].data;
      cells[i] := cells[i].(sequence := t + mask + 1);
      queue := queue[1..];
      assert cells[..] == old(cells[..])[i := Ring.Cell(t + capacity, x)];
    }

    /** `nkit_ring_push`; the weak CAS fails `spurious` times before it works. */
    method Push(x: Pointer, spurious: nat) returns (ok: bool)
      requires Valid()
      modifies this`head, this`queue, cells
      ensures Valid() && (ok <==> |old(queue)| < capacity)
      ensures queue == if ok then old(queue) + [x] else old(queue)
    {
      var h, fails := head, spurious;
      while true
        invariant h == head == old(head) && cells[..] == old(cells[..]) && queue == old(queue) && fails >= 0
        decreases fails
      {
        var i := SlotOf(h);
        HeadCell(cells[..], tail, head, queue);
        if cells[i].sequence == h {
          if fails == 0 {
            Fill(h, i, x);
            return true;
          }
          h, fails := head, fails - 1;
        } else if cells[i].sequence < h {
          return false;
        } else {
          h := head;
        }
      }
    }

    /** `nkit_ring_pop`. */
    method Pop(spurious: nat) returns (ok: bool, x: Pointer)
      requires Valid()
      modifies this`tail, this`queue, cells
      ensures Valid() && (ok <==> old(queue) != [])
      ensures if ok then x == old(queue)[0] && queue == old(queue)[1..] else queue == old(queue)
    {
      var t, fails := tail, spurious;
      while true
        invariant t == tail == old(tail) && cells[..] == old(cells[..]) && queue == old(queue) && fails >= 0
        decreases fails
      {
        var i := SlotOf(t);
        TailCell(cells[..], tail, head, queue);
        if cells[i].sequence == t + 1 {
          if fails == 0 {
            x := Drain(t, i);
            return true, x;
          }
          t, fails := tail, fails - 1;
        } else if cells[i].sequence < t + 1 {
          return false, Ring.NULL;
        } else {
          t := tail;
        }
      }
    }
  }
}
