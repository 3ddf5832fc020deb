/**
 * RawMemory: the owner of a block of `capacity` element slots that carries no
 * knowledge of which slots hold live objects. The block is a Dafny array
 * whose length is the capacity; a zero-length array stands for the null
 * buffer of an empty block. Slots the vector has not constructed hold
 * arbitrary values.
 */
module RawStorage {

  class RawMemory<T(0)> {
    var buffer: array<T>

    /** The number of slots of the owned block: exactly the indices Get and
        Set accept. */
    function Capacity(): (c: nat)
      reads this
      ensures c == buffer.Length
    {
      buffer.Length
    }

    /** Acquires a fresh block of exactly `capacity` slots (none for 0, which
        is also what the default constructor yields). */
    constructor(capacity: nat)
      ensures fresh(buffer) && Capacity() == capacity
    {
      buffer := new T[capacity];
    }

    /** Move construction: takes over the block of `other`, which is left
        with an empty block. */
    constructor Move(other: RawMemory<T>)
      modifies other
      ensures buffer == old(other.buffer)
      ensures fresh(other.buffer) && other.Capacity() == 0
    {
      buffer := other.buffer;
      new;
      other.buffer := new T[0];
    }

    /** Move assignment: takes over the block of `other`, which is left empty;
        assigning a block to itself changes nothing. */
    method MoveAssign(other: RawMemory<T>)
      modifies this, other
      ensures buffer == old(other.buffer)
      ensures other != this ==> fresh(other.buffer) && other.Capacity() == 0
    {
      if this != other {
        Swap(other);
        other.buffer := new T[0];
      }
    }

    /** Exchanges the blocks of two owners without touching any slot. */
    method Swap(other: RawMemory<T>)
      modifies this, other
      ensures buffer == old(other.buffer) && other.buffer == old(buffer)
    {
      var mine := buffer;
      buffer := other.buffer;
      other.buffer := mine;
    }

    /** Reads slot `index`, which must lie inside the block. */
    method Get(index: nat) returns (x: T)
      requires index < Capacity()
      ensures x == buffer[index]
    {
      x := buffer[index];
    }

    /** Writes slot `index`, which must lie inside the block; no other slot changes. */
    method Set(index: nat, x: T)
      requires index < Capacity()
      modifies buffer
      ensures buffer[..] == old(buffer[..])[index := x]
    {
      buffer[index] := x;
    }
  }
}
