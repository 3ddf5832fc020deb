/**
 * Vector: a growable array that owns one RawMemory block and a count of the
 * live elements at its front. The ghost field Elements is the sequence of
 * live elements, buf[0..size); Valid() ties it to the block. Every operation
 * is specified by what it does to Elements (in terms of module VectorSpec),
 * to the capacity, and to the relocation tally.
 *
 * Pointers and iterators are indices into the block. Moving an element and
 * copying it carry the same value here; which of the two the relocation
 * policy chose is recorded in the ghost tally.
 */
module Vectors {
  import opened RawStorage
  import opened Relocation
  import opened VectorSpec

  /** Writes src[from..from + n) into dst[to..to + n) and touches nothing else
      (uninitialized_copy_n, uninitialized_move_n and copy_n between blocks). */
  method CopyN<T>(src: array<T>, from: nat, n: nat, dst: array<T>, to: nat)
    requires src != dst
    requires from + n <= src.Length && to + n <= dst.Length
    modifies dst
    ensures forall k :: to <= k < to + n ==> dst[k] == src[from + (k - to)]
    ensures forall k :: 0 <= k < dst.Length && !(to <= k < to + n) ==> dst[k] == old(dst[k])
  {
    var i := 0;
    while i < n
      invariant 0 <= i <= n
      invariant forall k :: to <= k < to + i ==> dst[k] == src[from + (k - to)]
      invariant forall k :: 0 <= k < dst.Length && !(to <= k < to + i) ==> dst[k] == old(dst[k])
    {
      dst[to + i] := src[from + i];
      i := i + 1;
    }
  }

  /** Value-initialises slots [from, to) with `init` (uninitialized_value_construct_n). */
  method Fill<T>(dst: array<T>, from: nat, to: nat, init: T)
    requires from <= to <= dst.Length
    modifies dst
    ensures forall k :: from <= k < to ==> dst[k] == init
    ensures forall k :: 0 <= k < dst.Length && !(from <= k < to) ==> dst[k] == old(dst[k])
  {
    var i := from;
    while i < to
      invariant from <= i <= to
      invariant forall k :: from <= k < i ==> dst[k] == init
      invariant forall k :: 0 <= k < dst.Length && !(from <= k < i) ==> dst[k] == old(dst[k])
    {
      dst[i] := init;
      i := i + 1;
    }
  }

  /** Moves a[first..last) one slot to the right, starting from the back
      (move_backward with destination end last + 1). */
  method ShiftRight<T>(a: array<T>, first: nat, last: nat)
    requires first <= last < a.Length
    modifies a
    ensures forall k :: first < k <= last ==> a[k] == old(a[k - 1])
    ensures forall k :: 0 <= k < a.Length && !(first < k <= last) ==> a[k] == old(a[k])
  {
    var i := last;
    while i > first
      invariant first <= i <= last
      invariant forall k :: i < k <= last ==> a[k] == old(a[k - 1])
      invariant forall k :: 0 <= k < a.Length && !(i < k <= last) ==> a[k] == old(a[k])
    {
      a[i] := a[i - 1];
      i := i - 1;
    }
  }

  /** Moves a[first..last) one slot to the left, starting from the front
      (std::move with destination first - 1). */
  method ShiftLeft<T>(a: array<T>, first: nat, last: nat)
    requires 0 < first <= last <= a.Length
    modifies a
    ensures forall k :: first - 1 <= k < last - 1 ==> a[k] == old(a[k + 1])
    ensures forall k :: 0 <= k < a.Length && !(first - 1 <= k < last - 1) ==> a[k] == old(a[k])
  {
    var i := first;
    while i < last
      invariant first <= i <= last
      invariant forall k :: first - 1 <= k < i - 1 ==> a[k] == old(a[k + 1])
      invariant forall k :: 0 <= k < a.Length && !(first - 1 <= k < i - 1) ==> a[k] == old(a[k])
    {
      a[i - 1] := a[i];
      i := i + 1;
    }
  }

  class Vector<T(0)> {
    /** The traits of the element type, fixed for the vector's life. */
    const traits: ElementTraits
    /** The value-initialised element T(), fixed for the vector's life. */
    const init: T
    /** The owned block; the object stays, its buffer is swapped on growth. */
    const data: RawMemory<T>
    var size: nat

    /** The live elements, buf[0..size). */
    ghost var Elements: seq<T>
    /** Elements this vector has relocated into new blocks, by move and by copy. */
    ghost var tally: Tally

    /** Object invariant: size <= capacity, and the live prefix is Elements. */
    ghost predicate Valid()
      reads this, data, data.buffer
    {
      size <= data.buffer.Length && Elements == data.buffer[..size]
    }

    /** Default construction: no elements, capacity 0. */
    constructor(traits: ElementTraits, init: T)
      ensures Valid() && fresh(data) && fresh(data.buffer)
      ensures Elements == [] && Capacity() == 0
      ensures this.traits == traits && this.init == init && tally == Tally(0, 0)
    {
      this.traits := traits;
      this.init := init;
      data := new RawMemory(0);
      size := 0;
      Elements := [];
      tally := Tally(0, 0);
    }

    /** Vector(n): exactly n slots, all value-initialised to `init`. */
    constructor Sized(traits: ElementTraits, n: nat, init: T)
      ensures Valid() && fresh(data) && fresh(data.buffer)
      ensures Elements == Filled(n, init) && Capacity() == n
      ensures this.traits == traits && this.init == init && tally == Tally(0, 0)
    {
      this.traits := traits;
      this.init := init;
      data := new RawMemory(n);
      size := n;
      Elements := Filled(n, init);
      tally := Tally(0, 0);
      new;
      Fill(data.buffer, 0, n, init);
      assert forall k :: 0 <= k < n ==> data.buffer[..n][k] == Elements[k];
    }

    /** Copy construction: the same elements in a block of exactly other's
        size; `other` is not modified. */
    constructor Copy(other: Vector<T>)
      requires other.Valid()
      ensures Valid() && fresh(data) && fresh(data.buffer)
      ensures Elements == other.Elements && Capacity() == |other.Elements|
      ensures traits == other.traits && init == other.init && tally == Tally(0, 0)
    {
      traits := other.traits;
      init := other.init;
      data := new RawMemory(other.size);
      size := other.size;
      Elements := other.Elements;
      tally := Tally(0, 0);
      new;
      CopyN(other.data.buffer, 0, other.size, data.buffer, 0);
      assert forall k :: 0 <= k < size ==> data.buffer[..size][k] == Elements[k];
    }

    /** Move construction: takes over other's block and elements; `other` is
        left empty with capacity 0. */
    constructor Move(other: Vector<T>)
      requires other.Valid()
      modifies other, other.data
      ensures Valid() && other.Valid()
      ensures Elements == old(other.Elements) && data.buffer == old(other.data.buffer)
      ensures other.Elements == [] && other.Capacity() == 0
      ensures traits == other.traits && init == other.init
      ensures tally == Tally(0, 0) && other.tally == old(other.tally)
    {
      traits := other.traits;
      init := other.init;
      data := new RawMemory(0);
      size := 0;
      Elements := [];
      tally := Tally(0, 0);
      new;
      Swap(other);
    }

    function Size(): (n: nat)
      reads this, data, data.buffer
      requires Valid()
      ensures n == |Elements|
    {
      size
    }

    function Capacity(): (c: nat)
      reads this, data, data.buffer
      requires Valid()
      ensures |Elements| <= c
    {
      data.Capacity()
    }

    /** The range begin()..end(): the live elements in order. */
    function Items(): (r: seq<T>)
      reads this, data, data.buffer
      requires Valid()
      ensures r == Elements
    {
      data.buffer[..size]
    }

    /** operator[] for reading: the element at `index`, which must be live. */
    method Get(index: nat) returns (x: T)
      requires Valid() && index < size
      ensures x == Elements[index]
    {
      x := data.Get(index);
    }

    /** operator[] for writing: replaces the element at `index` and no other. */
    method Set(index: nat, x: T)
      requires Valid() && index < size
      modifies this, data.buffer
      ensures Valid() && Elements == old(Elements)[index := x] && tally == old(tally)
    {
      data.Set(index, x);
      Elements := Elements[index := x];
    }

    /** Exchanges blocks and sizes with `other` (a no-op when it is this vector). */
    method Swap(other: Vector<T>)
      requires Valid() && other.Valid()
      modifies this, data, other, other.data
      ensures Valid() && other.Valid()
      ensures Elements == old(other.Elements) && other.Elements == old(Elements)
      ensures data.buffer == old(other.data.buffer) && other.data.buffer == old(data.buffer)
      ensures tally == old(tally) && other.tally == old(other.tally)
    {
      data.Swap(other.data);
      var n := size;
      ghost var e := Elements;
      size := other.size;
      Elements := other.Elements;
      other.size := n;
      other.Elements := e;
    }

    /** Copy assignment. A source longer than the capacity is copied into a
        fresh block swapped in; otherwise the elements are copied over the
        existing block and the capacity is kept. Self-assignment changes
        nothing; `other` is not modified. */
    method CopyAssign(other: Vector<T>)
      requires Valid() && other.Valid()
      requires other == this || data.buffer != other.data.buffer
      modifies this, data, data.buffer
      ensures Valid() && other.Valid() && tally == old(tally)
      ensures Elements == old(other.Elements) && other.Elements == old(other.Elements)
      ensures Capacity() == if old(Capacity()) < |old(other.Elements)| then |old(other.Elements)| else old(Capacity())
      ensures if old(Capacity()) < |old(other.Elements)| then fresh(data.buffer) else data.buffer == old(data.buffer)
    {
      if this != other {
        if other.size > data.Capacity() {
          var copy := new Vector.Copy(other);
          Swap(copy);
        } else {
          var minSize := if size < other.size then size else other.size;
          CopyN(other.data.buffer, 0, minSize, data.buffer, 0);
          if size <= other.size {
            // the surplus of a longer source is copy-constructed after the
            // overlap; when the source is shorter, the elements past its size
            // are destroyed, which leaves no trace on values
            CopyN(other.data.buffer, size, other.size - size, data.buffer, size);
          }
          size := other.size;
          Elements := other.Elements;
          assert forall k :: 0 <= k < size ==> data.buffer[..size][k] == Elements[k];
        }
      }
    }

    /** Move assignment: exchanges contents with `rhs`; moving a vector into
        itself changes nothing. */
    method MoveAssign(rhs: Vector<T>)
      requires Valid() && rhs.Valid()
      modifies this, data, rhs, rhs.data
      ensures Valid() && rhs.Valid()
      ensures Elements == old(rhs.Elements) && rhs.Elements == old(Elements)
      ensures data.buffer == old(rhs.data.buffer) && rhs.data.buffer == old(data.buffer)
      ensures tally == old(tally) && rhs.tally == old(rhs.tally)
    {
      if this != rhs {
        Swap(rhs);
      }
    }

    /** Reserve(n): nothing when n fits the capacity; otherwise a fresh block
        of exactly n slots receives the elements, relocated by the policy. */
    method Reserve(newCapacity: nat)
      requires Valid()
      modifies this, data
      ensures Valid() && Elements == old(Elements)
      ensures Capacity() == Max(old(Capacity()), newCapacity)
      ensures newCapacity <= old(Capacity()) ==> data.buffer == old(data.buffer) && tally == old(tally)
      ensures old(Capacity()) < newCapacity ==>
                fresh(data.buffer) && tally == old(tally).Record(Policy(traits), old(size))
    {
      if newCapacity <= data.Capacity() {
        return;
      }
      var newData := new RawMemory(newCapacity);
      // uninitialized_move_n when Policy(traits) == ByMove, uninitialized_copy_n
      // otherwise; both carry the same values
      CopyN(data.buffer, 0, size, newData.buffer, 0);
      tally := tally.Record(Policy(traits), size);
      data.Swap(newData);
      assert forall k :: 0 <= k < size ==> data.buffer[..size][k] == Elements[k];
    }

    /** Resize(n): keeps the first min(size, n) elements, value-initialises
        the slots up to n with `init`, and grows the block to n only when n
        exceeds it. */
    method Resize(newSize: nat)
      requires Valid()
      modifies this, data, data.buffer
      ensures Valid() && Elements == Resized(old(Elements), newSize, init)
      ensures Capacity() == Max(old(Capacity()), newSize)
      ensures newSize <= old(Capacity()) ==> data.buffer == old(data.buffer) && tally == old(tally)
      ensures old(Capacity()) < newSize ==>
                fresh(data.buffer) && tally == old(tally).Record(Policy(traits), old(size))
    {
      if newSize > size {
        Reserve(newSize);
        Fill(data.buffer, size, newSize, init);
      }
      Elements := Resized(Elements, newSize, init);
      size := newSize;
      assert forall k :: 0 <= k < size ==> data.buffer[..size][k] == Elements[k];
    }

    /** PushBack: appends a copy of `value`. */
    method PushBack(value: T)
      requires Valid()
      modifies this, data, data.buffer
      ensures Valid() && Elements == old(Elements) + [value]
      ensures Capacity() == CapacityAfterInsert(old(size), old(Capacity()))
      ensures tally == old(tally).Record(Policy(traits), RelocatedByInsert(old(size), old(Capacity())))
      ensures if old(size) < old(Capacity()) then data.buffer == old(data.buffer) else fresh(data.buffer)
    {
      var _ := EmplaceBack(value);
    }

    /** EmplaceBack: appends `value` and returns the new last element. */
    method EmplaceBack(value: T) returns (r: T)
      requires Valid()
      modifies this, data, data.buffer
      ensures Valid() && Elements == old(Elements) + [value]
      ensures r == Elements[|Elements| - 1]
      ensures Capacity() == CapacityAfterInsert(old(size), old(Capacity()))
      ensures tally == old(tally).Record(Policy(traits), RelocatedByInsert(old(size), old(Capacity())))
      ensures if old(size) < old(Capacity()) then data.buffer == old(data.buffer) else fresh(data.buffer)
    {
      InsertAtEnd(Elements, value);
      var _ := Emplace(size, value);
      r := data.Get(size - 1);
    }

    /** PopBack: removes the last element; on an empty vector, nothing. */
    method PopBack()
      requires Valid()
      modifies this
      ensures Valid() && Elements == DropLast(old(Elements)) && tally == old(tally)
    {
      if size > 0 {
        size := size - 1;
        Elements := Elements[..size];
      }
    }

    /** Insert: places a copy of `value` at `index` and returns that index. */
    method Insert(index: nat, value: T) returns (pos: nat)
      requires Valid() && index <= size
      modifies this, data, data.buffer
      ensures Valid() && pos == index
      ensures Elements == VectorSpec.Insert(old(Elements), index, value)
      ensures Capacity() == CapacityAfterInsert(old(size), old(Capacity()))
      ensures tally == old(tally).Record(Policy(traits), RelocatedByInsert(old(size), old(Capacity())))
      ensures if old(size) < old(Capacity()) then data.buffer == old(data.buffer) else fresh(data.buffer)
    {
      pos := Emplace(index, value);
    }

    /** Emplace: constructs `value` at `index`, shifting the tail right, in
        place when there is room and in a fresh block otherwise. */
    method Emplace(index: nat, value: T) returns (pos: nat)
      requires Valid() && index <= size
      modifies this, data, data.buffer
      ensures Valid() && pos == index
      ensures Elements == VectorSpec.Insert(old(Elements), index, value)
      ensures Capacity() == CapacityAfterInsert(old(size), old(Capacity()))
      ensures tally == old(tally).Record(Policy(traits), RelocatedByInsert(old(size), old(Capacity())))
      ensures if old(size) < old(Capacity()) then data.buffer == old(data.buffer) else fresh(data.buffer)
    {
      if size < data.Capacity() {
        NoRealloc(index, value);
      } else {
        Realloc(index, value);
      }
      size := size + 1;
      Elements := VectorSpec.Insert(Elements, index, value);
      pos := index;
    }

    /** The in-place path of Emplace: the tail moves one slot right into the
        spare capacity and `value` takes slot `index`. Appending moves nothing. */
    method NoRealloc(index: nat, value: T)
      requires Valid() && index <= size < data.Capacity()
      modifies data.buffer
      ensures data.buffer[..size + 1] == VectorSpec.Insert(Elements, index, value)
    {
      if index == size {
        data.buffer[size] := value;
      } else {
        var temp := value;
        data.buffer[size] := data.buffer[size - 1];
        ShiftRight(data.buffer, index, size - 1);
        data.buffer[index] := temp;
      }
      assert forall k :: 0 <= k < size + 1 ==>
          data.buffer[..size + 1][k] == VectorSpec.Insert(Elements, index, value)[k];
    }

    /** The reallocating path of Emplace for a full vector: a block of
        GrowthCapacity(size) slots receives `value` at `index` first, then
        the elements before and after it, relocated by the policy. The size
        is not yet updated. */
    method Realloc(index: nat, value: T)
      requires Valid() && index <= size && size == data.Capacity()
      modifies this, data
      ensures size == old(size) && Elements == old(Elements)
      ensures fresh(data.buffer) && data.Capacity() == GrowthCapacity(size)
      ensures data.buffer[..size + 1] == VectorSpec.Insert(Elements, index, value)
      ensures tally == old(tally).Record(Policy(traits), size)
    {
      var newData := new RawMemory(if size == 0 then 1 else size * 2);
      newData.buffer[index] := value;
      // moved or copied according to Policy(traits), as in Reserve
      CopyN(data.buffer, index, size - index, newData.buffer, index + 1);
      CopyN(data.buffer, 0, index, newData.buffer, 0);
      tally := tally.Record(Policy(traits), size);
      data.Swap(newData);
      assert forall k :: 0 <= k < size + 1 ==>
          data.buffer[..size + 1][k] == VectorSpec.Insert(Elements, index, value)[k];
    }

    /** Erase: an index inside the vector removes that element, shifting the
        tail left, and returns the index; any other index pops the last
        element (if any) and returns the new end. The block is kept. */
    method Erase(index: nat) returns (pos: nat)
      requires Valid()
      modifies this, data.buffer
      ensures Valid() && data.buffer == old(data.buffer) && tally == old(tally)
      ensures index < old(size) ==> Elements == Remove(old(Elements), index) && pos == index
      ensures old(size) <= index ==> Elements == DropLast(old(Elements)) && pos == |Elements|
    {
      if index < size {
        ghost var before := Elements;
        ShiftLeft(data.buffer, index + 1, size);
        Elements := data.buffer[..size];
        PopBack();
        assert forall k :: 0 <= k < |Elements| ==> Elements[k] == Remove(before, index)[k];
        pos := index;
      } else {
        PopBack();
        pos := size;
      }
    }
  }
}
