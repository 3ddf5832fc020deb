/**
 * The relocation policy of the vector: when elements are carried from an
 * old block into a freshly allocated one (Reserve, and the reallocating path
 * of Emplace), they are move-constructed when moving the element type cannot
 * throw or when the type cannot be copied at all; otherwise they are copied,
 * so that a throwing copy leaves the originals intact.
 *
 * The C++ code takes this decision at compile time from two type traits of T;
 * here the two traits are plain booleans.
 */
module Relocation {

  /** The two traits of the element type that the policy consults:
      is_nothrow_move_constructible and is_copy_constructible. */
  datatype ElementTraits = ElementTraits(nothrowMove: bool, copyable: bool)

  /** How the elements of an old block are carried into a new one. */
  datatype Strategy = ByMove | ByCopy

  /** The policy of vector.h: move if that cannot throw or if there is no
      copy constructor, copy otherwise. The contract gives its rationale:
      prefer a move that cannot fail, never copy a type without a copy
      constructor, and never risk a throwing move when a copy is possible. */
  function Policy(traits: ElementTraits): (s: Strategy)
    ensures traits.nothrowMove ==> s == ByMove
    ensures s == ByCopy ==> traits.copyable
    ensures s == ByMove && traits.copyable ==> traits.nothrowMove
  {
    if traits.nothrowMove || !traits.copyable then ByMove else ByCopy
  }

  /** Running count of the elements a vector has relocated into new blocks,
      split by how they were carried over (the move/copy counters of a test). */
  datatype Tally = Tally(moved: nat, copied: nat) {

    /** The tally after relocating `n` more elements with strategy `how`. */
    function Record(how: Strategy, n: nat): (t: Tally)
      ensures t.moved + t.copied == moved + copied + n
      ensures how == ByMove ==> t.copied == copied
      ensures how == ByCopy ==> t.moved == moved
    {
      if how == ByMove then Tally(moved + n, copied) else Tally(moved, copied + n)
    }
  }
}
