/** The operations of boost::circular_buffer that src/serialHandler.cpp uses. */
module CircularBuffer {
  import opened Bytes

  class Ring {
    const store: array<byte>
    var first: nat
    var count: nat

    ghost predicate Valid()
      reads this
    {
      count <= store.Length && (first < store.Length || (first == 0 && store.Length == 0))
    }

    /** The slot of logical position i. */
    function Slot(i: nat): (k: nat)
      requires Valid() && i < store.Length
      reads this
      ensures k < store.Length
    {
      if first + i < store.Length then first + i else first + i - store.Length
    }

    /** The logical contents, oldest byte first. */
    ghost function Contents(): (s: seq<byte>)
      requires Valid()
      reads this, store
      ensures |s| == count
    {
      seq(count, i requires 0 <= i < count reads this, store requires Valid() => store[Slot(i)])
    }

    constructor (capacity: nat)
      ensures Valid() && fresh(store) && store.Length == capacity && Contents() == []
    {
      store := new byte[capacity];
      first, count := 0, 0;
    }

    predicate Full()
      reads this
    {
      count == store.Length
    }

    predicate Empty()
      reads this
    {
      count == 0
    }

    /** reserve(): the free space. */
    function Reserve(): nat
      requires Valid()
      reads this
    {
      store.Length - count
    }

    /** A full buffer overwrites its oldest byte. */
    method PushBack(b: byte)
      requires Valid() && store.Length > 0
      modifies this, store
      ensures Valid()
      ensures Contents() == if old(Full()) then old(Contents())[1..] + [b] else old(Contents()) + [b]
      ensures old(!Full()) ==> first == old(first)
      ensures old(!Full()) ==> forall i :: 0 <= i < old(count) ==> store[old(Slot(i))] == old(store[Slot(i)])
    {
      if Full() {
        store[first] := b;
        first := if first + 1 < store.Length then first + 1 else 0;
      } else {
        store[Slot(count)] := b;
        count := count + 1;
      }
    }

    function Front(): (b: byte)
      requires Valid() && !Empty()
      reads this, store
      ensures b == Contents()[0]
    {
      store[first]
    }

    method PopFront()
      requires Valid() && !Empty()
      modifies this
      ensures Valid() && Contents() == old(Contents())[1..]
    {
      first := if first + 1 < store.Length then first + 1 else 0;
      count := count - 1;
    }

    method EraseBegin(n: nat)
      requires Valid() && n <= count
      modifies this
      ensures Valid() && Contents() == old(Contents())[n..]
    {
      first := if first + n < store.Length then first + n else first + n - store.Length;
      count := count - n;
    }

    /** array_one(): start and length of the first contiguous region. */
    method ArrayOne() returns (start: nat, length: nat)
      requires Valid()
      ensures start == first && length <= count && start + length <= store.Length
      ensures count > 0 ==> length > 0
      ensures store[start..start + length] == Contents()[..length]
    {
      start := first;
      length := if first + count <= store.Length then count else store.Length - first;
    }
  }
}
