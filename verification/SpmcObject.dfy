/** The queue as an object whose methods run one at a time. */
module SpmcObject {
  import opened Bytes
  import opened Modular

  class SpmcQueueI32 {
    const items: array<int>
    const capacity: nat
    var head: nat
    var tail: nat

    ghost predicate Valid()
      reads this
    {
      0 < capacity == items.Length && head < capacity && tail < capacity
    }

    /** The waiting items, oldest first; they may wrap round the end of the array. */
    ghost function Contents(): seq<int>
      requires Valid()
      reads this, items
    {
      if head <= tail then items[head..tail] else items[head..] + items[..tail]
    }

    constructor (capacity: nat, items: array<int>)
      requires 0 < capacity == items.Length
      ensures Valid() && this.items == items && this.capacity == capacity && Contents() == []
    {
      this.items := items;
      this.capacity := capacity;
      head := 0;
      tail := 0;
    }

    method CompareAndSwap(expected: nat, desired: nat) returns (ok: bool, found: nat)
      modifies this`head
      ensures found == old(head) && ok == (old(head) == expected)
      ensures head == if ok then desired else old(head)
    {
      found := head;
      ok := found == expected;
      if ok {
        head := desired;
      }
    }

    /** Refused exactly when one slot is left, otherwise appended. */
    method Enqueue(item: int) returns (ok: bool)
      requires Valid()
      modifies this`tail, items
      ensures Valid()
      ensures ok <==> |old(Contents())| < capacity - 1
      ensures Contents() == if ok then old(Contents()) + [item] else old(Contents())
    {
      var currentTail := tail;
      Wrap(currentTail, capacity);
      if (currentTail + 1) % capacity == head {
        return false;
      }
      ghost var before := Contents();
      items[currentTail] := item;
      tail := (currentTail + 1) % capacity;
      if head <= currentTail {
        assert items[head..currentTail] == before;
        assert items[head..currentTail + 1] == before + [item];
        assert tail == 0 ==> items[head..] + items[..0] == items[head..currentTail + 1];
      } else {
        assert items[head..] + items[..currentTail] == before;
        assert items[..tail] == items[..currentTail] + [item];
      }
      return true;
    }

    /** Refused exactly when empty, otherwise the oldest item is taken. */
    method Dequeue() returns (r: Option<int>)
      requires Valid()
      modifies this`head
      ensures Valid()
      ensures r.None? <==> old(Contents()) == []
      ensures r.Some? ==> old(Contents()) == [r.value] + Contents()
      ensures r.None? ==> Contents() == old(Contents())
    {
      var currentHead := head;
      var swapped := false;
      while !swapped
        invariant head < capacity
        invariant !swapped ==> head == old(head)
        invariant swapped ==>
                    && currentHead == old(head) != tail
                    && head == if currentHead + 1 == capacity then 0 else currentHead + 1
        decreases !swapped
      {
        currentHead := head;
        if currentHead == tail {
          return None;
        }
        Wrap(currentHead, capacity);
        var found;
        swapped, found := CompareAndSwap(currentHead, (currentHead + 1) % capacity);
      }
      return Some(items[currentHead]);
    }
  }
}
