/**
 * Client programs over the Vector class. Each result is derived from the
 * contracts of the operations alone, as a caller of the C++ vector would
 * reason about it.
 */
module Scenarios {
  import opened Relocation
  import opened Vectors

  /** Pushing 1, 2, 3, 4, 5 onto an empty vector: the capacity goes
      1, 2, 4, 4, 8, the values stay in push order, and the 7 relocations
      are all moves for a nothrow-movable type and all copies for a
      copyable type whose move may throw. */
  method PushFive(traits: ElementTraits) returns (capacities: seq<nat>, items: seq<int>, ghost relocated: Tally)
    ensures capacities == [1, 2, 4, 4, 8]
    ensures items == [1, 2, 3, 4, 5]
    ensures relocated == Tally(0, 0).Record(Policy(traits), 7)
  {
    var v := new Vector<int>(traits, 0);
    v.PushBack(1);
    capacities := [v.Capacity()];
    v.PushBack(2);
    capacities := capacities + [v.Capacity()];
    v.PushBack(3);
    capacities := capacities + [v.Capacity()];
    v.PushBack(4);
    capacities := capacities + [v.Capacity()];
    v.PushBack(5);
    capacities := capacities + [v.Capacity()];
    items := v.Items();
    relocated := v.tally;
  }

  /** Three value-initialised ints, then EmplaceBack(5), Insert at 1 of 9
      and Erase at 2: [0,0,0], [0,0,0,5], [0,9,0,0,5], [0,9,0,5]. */
  method EditDefaultInts() returns (steps: seq<seq<int>>, positions: seq<nat>, capacity: nat)
    ensures steps == [[0, 0, 0], [0, 0, 0, 5], [0, 9, 0, 0, 5], [0, 9, 0, 5]]
    ensures positions == [1, 2]
    ensures capacity == 6
  {
    var v := new Vector<int>.Sized(ElementTraits(true, true), 3, 0);
    assert v.Elements == [0, 0, 0];
    steps := [v.Items()];
    var back := v.EmplaceBack(5);
    assert back == 5 && v.Elements == [0, 0, 0, 5];
    steps := steps + [v.Items()];
    var inserted := v.Insert(1, 9);
    var x := v.Get(inserted);
    assert x == 9;
    assert v.Elements == [0, 9, 0, 0, 5];
    steps := steps + [v.Items()];
    var erased := v.Erase(2);
    assert v.Elements == [0, 9, 0, 5];
    steps := steps + [v.Items()];
    positions := [inserted, erased];
    capacity := v.Capacity();
  }

  /** Reserve then push on an empty vector: the input on which the in-place
      insert path of the C++ code reads out of range. Here the element is
      appended into the reserved block. */
  method ReserveThenPush(x: int) returns (items: seq<int>, capacity: nat)
    ensures items == [x] && capacity == 3
  {
    var v := new Vector<int>(ElementTraits(true, true), 0);
    v.Reserve(3);
    v.PushBack(x);
    items := v.Items();
    capacity := v.Capacity();
  }

  /** A vector holding 7, 7, 8 in a block of capacity 4. */
  method SevenSevenEight(traits: ElementTraits) returns (v: Vector<int>)
    ensures fresh(v) && fresh(v.data) && fresh(v.data.buffer) && v.Valid()
    ensures v.Elements == [7, 7, 8] && v.Capacity() == 4
  {
    v := new Vector<int>(traits, 0);
    v.PushBack(7);
    v.PushBack(7);
    v.PushBack(8);
  }

  /** A copy has exactly the source's size as capacity and leaves the source alone. */
  method CopyConstruct() returns (copied: seq<int>, copyCapacity: nat, source: seq<int>)
    ensures copied == [7, 7, 8] && copyCapacity == 3 && source == [7, 7, 8]
  {
    var v := SevenSevenEight(ElementTraits(false, true));
    var c := new Vector<int>.Copy(v);
    copied, copyCapacity, source := c.Items(), c.Capacity(), v.Items();
  }

  /** Copy assignment into a larger block keeps that block; assigning a
      vector to itself changes nothing. */
  method CopyAssignKeepsBlock() returns (copied: seq<int>, copyCapacity: nat)
    ensures copied == [7, 7, 8] && copyCapacity == 10
  {
    var v := SevenSevenEight(ElementTraits(false, true));
    var w := new Vector<int>(ElementTraits(false, true), 0);
    w.Reserve(10);
    w.CopyAssign(v);
    w.CopyAssign(w);
    copied, copyCapacity := w.Items(), w.Capacity();
  }

  /** Move construction takes the block; the source is empty with capacity
      0, and PopBack on it changes nothing. */
  method MoveConstruct() returns (moved: seq<int>, movedCapacity: nat, emptied: seq<int>, emptiedCapacity: nat)
    ensures moved == [7, 7, 8] && movedCapacity == 4
    ensures emptied == [] && emptiedCapacity == 0
  {
    var v := SevenSevenEight(ElementTraits(true, false));
    var m := new Vector<int>.Move(v);
    v.PopBack();
    moved, movedCapacity := m.Items(), m.Capacity();
    emptied, emptiedCapacity := v.Items(), v.Capacity();
  }
}
