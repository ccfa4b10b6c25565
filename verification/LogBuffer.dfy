// backend/internal/admin/ringbuffer.go: the ring of recent log lines.

module LogBuffer {
  import Binning

  /** Index of the slot i places after the start. */
  function Slot(start: nat, size: nat, i: nat): (slot: nat)
    requires start < size
    ensures slot < size
  {
    (start + i) % size
  }

  class RingBuffer {
    const size: nat
    const buf: array<string>
    var start: nat
    var count: nat

    // Every line ever written, oldest first.
    ghost var history: seq<string>

    ghost predicate Valid()
      reads this, buf
    {
      && size > 0 && buf.Length == size && start < size && count <= size && count <= |history|
      && (count < size ==> count == |history| && start == 0)
      && forall i :: 0 <= i < count ==> buf[Slot(start, size, i)] == history[|history| - count + i]
    }

    constructor (size: nat)
      requires size > 0
      ensures Valid() && fresh(buf) && this.size == size && history == []
    {
      this.size := size;
      buf := new string[size](_ => "");
      start, count, history := 0, 0, [];
    }

    method Write(s: string)
      requires Valid()
      modifies this`start, this`count, this`history, buf
      ensures Valid() && history == old(history) + [s]
    {
      hide Slot;
      SlotsDiffer(start, count, size);
      Rotate(start, size);
      buf[Slot(start, size, count)] := s;
      history := history + [s];
      if count < size {
        count := count + 1;
      } else {
        start := Slot(start, size, 1);
      }
    }

    /** The last min(n, size, writes) lines, oldest first. */
    method LastN(n0: nat) returns (result: seq<string>)
      requires Valid()
      ensures var n := Least(n0, Least(size, |history|)); result == history[|history| - n..]
    {
      var n := n0;
      if n > count {
        n := count;
      }
      result := [];
      for i := 0 to n
        invariant |result| == i
        invariant forall k :: 0 <= k < i ==> result[k] == history[|history| - n + k]
      {
        var idx := Slot(start, size, count - n + i);
        result := result + [buf[idx]];
      }
    }
  }

  function Least(a: nat, b: nat): nat {
    if a < b then a else b
  }

  /** Within two turns of the ring the index wraps at most once. */
  lemma WrapsOnce(start: nat, size: nat, i: nat)
    requires start < size && i <= size
    ensures Slot(start, size, i) == if start + i < size then start + i else start + i - size
  {
    Binning.DivUnique(start + i, size, if start + i < size then 0 else 1);
    Binning.DivBounds(start + i, size);
  }

  /** The slot written next is not in use, unless the ring is full; then it is that of the oldest line. */
  lemma SlotsDiffer(start: nat, count: nat, size: nat)
    requires start < size && count <= size
    ensures forall i :: 0 <= i < count && (i > 0 || count < size) ==> Slot(start, size, i) != Slot(start, size, count)
    ensures count == size ==> Slot(start, size, count) == start
  {
    hide Slot;
    WrapsOnce(start, size, count);
    forall i | 0 <= i < count && (i > 0 || count < size) ensures Slot(start, size, i) != Slot(start, size, count) {
      WrapsOnce(start, size, i);
    }
  }

  /** Advancing the start by one shifts every place by one. */
  lemma Rotate(start: nat, size: nat)
    requires start < size
    ensures forall i {:trigger Slot(Slot(start, size, 1), size, i)} :: 0 <= i < size ==>
              Slot(Slot(start, size, 1), size, i) == Slot(start, size, i + 1)
  {
    hide Slot;
    WrapsOnce(start, size, 1);
    forall i | 0 <= i < size ensures Slot(Slot(start, size, 1), size, i) == Slot(start, size, i + 1) {
      WrapsOnce(Slot(start, size, 1), size, i);
      WrapsOnce(start, size, i + 1);
    }
  }
}
