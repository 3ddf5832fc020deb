/**
 * The in-place insert path (NoRealloc) as the C++ code writes it, with two
 * defects:
 *   - on an empty vector with spare capacity the code reads slot size_ - 1,
 *     which wraps to SIZE_MAX in size_t arithmetic; this read is out of
 *     range for every element type;
 *   - when appending (index == size_) the last element is moved out and
 *     never moved back. Seen in a model where moving out of a slot leaves a
 *     fixed moved-from value `hollow` behind (an empty string, a null
 *     unique_ptr), that element is lost.
 * NoReallocFixed is the corrected path: an append moves nothing. The class
 * Vector in module Vectors implements that corrected path.
 */
module MoveModel {
  import opened VectorSpec

  /** The largest size_t value on a 64-bit target. */
  const SizeMax: nat := 0xFFFF_FFFF_FFFF_FFFF

  /** size_ - 1 computed in size_t arithmetic, as NoRealloc indexes the last element. */
  function LastIndex(size: nat): (i: nat)
    requires size <= SizeMax
    ensures i <= SizeMax
    ensures size > 0 ==> i == size - 1
    ensures size == 0 ==> i == SizeMax
  {
    (size + SizeMax) % (SizeMax + 1)
  }

  /** As written, NoRealloc on an empty vector with spare capacity (Reserve(3)
      then PushBack(x)) reads a slot no block has: the bound assert of
      RawMemory's operator[] fails whatever the capacity. */
  lemma EmptyNoReallocIndexesOutOfRange(capacity: nat)
    requires 0 < capacity <= SizeMax
    ensures LastIndex(0) >= capacity
  {
  }

  /** The placement-new of the last element into the slot past the end: that
      slot receives the last element, whose own slot is left moved-from. */
  function MoveLastToEnd<T>(t: seq<T>, hollow: T): (r: seq<T>)
    requires |t| > 0
    ensures |r| == |t| + 1 && r[|t|] == t[|t| - 1] && r[|t| - 1] == hollow
    ensures forall k :: 0 <= k < |t| - 1 ==> r[k] == t[k]
  {
    t[..|t| - 1] + [hollow, t[|t| - 1]]
  }

  /** move_backward(first, last, last + 1) over slots: from the back, each
      slot of [first, last) is moved one to the right and left moved-from.
      The standard leaves an inverted range (first > last) undefined; this
      function assumes it moves nothing, which is what the generic loop of
      libstdc++ (GCC's library) does for a type that is not trivially
      copyable, such as std::string. Other libraries, and the memmove fast
      path for trivially copyable types, may do otherwise. */
  function MoveBackward<T>(t: seq<T>, first: nat, last: nat, hollow: T): (r: seq<T>)
    requires last < |t|
    ensures |r| == |t|
    decreases last - first
  {
    if last <= first then t
    else MoveBackward(t[last := t[last - 1]][last - 1 := hollow], first, last - 1, hollow)
  }

  lemma {:induction false} MoveBackwardShifts<T>(t: seq<T>, first: nat, last: nat, hollow: T)
    requires first < last < |t|
    ensures MoveBackward(t, first, last, hollow)[first] == hollow
    ensures forall k :: 0 <= k < first ==> MoveBackward(t, first, last, hollow)[k] == t[k]
    ensures forall k :: first < k <= last ==> MoveBackward(t, first, last, hollow)[k] == t[k - 1]
    ensures forall k :: last < k < |t| ==> MoveBackward(t, first, last, hollow)[k] == t[k]
    decreases last - first
  {
    var u := t[last := t[last - 1]][last - 1 := hollow];
    if first < last - 1 {
      MoveBackwardShifts(u, first, last - 1, hollow);
    }
  }

  /** NoRealloc as written: build the last slot, shift [index, size - 1)
      right, move the new value into slot `index`. The empty vector is
      excluded here: it is the out-of-range read above. */
  function NoReallocAsWritten<T>(s: seq<T>, index: nat, v: T, hollow: T): (r: seq<T>)
    requires 0 < |s| && index <= |s|
    ensures |r| == |s| + 1
  {
    MoveBackward(MoveLastToEnd(s, hollow), index, |s| - 1, hollow)[index := v]
  }

  /** Inserting before the end, the code as written is a correct insert. */
  lemma NoReallocAsWrittenInsertsInside<T>(s: seq<T>, index: nat, v: T, hollow: T)
    requires index < |s|
    ensures NoReallocAsWritten(s, index, v, hollow) == Insert(s, index, v)
  {
    var t := MoveLastToEnd(s, hollow);
    if index < |s| - 1 {
      MoveBackwardShifts(t, index, |s| - 1, hollow);
    }
    var r := NoReallocAsWritten(s, index, v, hollow);
    assert forall k :: 0 <= k < |s| + 1 ==> r[k] == Insert(s, index, v)[k];
  }

  /** Appending with spare capacity, the code as written leaves the old last
      element moved-from: unless it already was the moved-from value, it is lost. */
  lemma AppendLosesLastElement<T>(s: seq<T>, v: T, hollow: T)
    requires 0 < |s|
    ensures NoReallocAsWritten(s, |s|, v, hollow) == s[..|s| - 1] + [hollow, v]
    ensures s[|s| - 1] != hollow ==> NoReallocAsWritten(s, |s|, v, hollow) != s + [v]
  {
    var r := NoReallocAsWritten(s, |s|, v, hollow);
    assert forall k :: 0 <= k < |s| + 1 ==> r[k] == (s[..|s| - 1] + [hollow, v])[k];
    if s[|s| - 1] != hollow {
      assert r[|s| - 1] != (s + [v])[|s| - 1];
    }
  }

  /** The corrected path: an append places the value and moves nothing;
      any other index goes through the shifting code. */
  function NoReallocFixed<T>(s: seq<T>, index: nat, v: T, hollow: T): (r: seq<T>)
    requires index <= |s|
    ensures |r| == |s| + 1 && r[index] == v
  {
    if index == |s| then s + [v] else NoReallocAsWritten(s, index, v, hollow)
  }

  /** The corrected path inserts at every index, the empty vector included. */
  lemma NoReallocFixedInserts<T>(s: seq<T>, index: nat, v: T, hollow: T)
    requires index <= |s|
    ensures NoReallocFixed(s, index, v, hollow) == Insert(s, index, v)
  {
    if index < |s| {
      NoReallocAsWrittenInsertsInside(s, index, v, hollow);
    }
  }
}
