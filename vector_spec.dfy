/**
 * Value-level specification of the vector: what each operation does to the
 * sequence of live elements buf[0..size), and how the capacity evolves.
 * The class in module Vectors is proved against these functions.
 */
module VectorSpec {

  function Max(a: nat, b: nat): (m: nat)
    ensures a <= m && b <= m && (m == a || m == b)
  {
    if a < b then b else a
  }

  /** The live elements after inserting `v` so that it sits at index `i`. */
  function Insert<T>(s: seq<T>, i: nat, v: T): (r: seq<T>)
    requires i <= |s|
    ensures |r| == |s| + 1 && r[i] == v
    ensures forall k :: 0 <= k < i ==> r[k] == s[k]
    ensures forall k :: i < k < |r| ==> r[k] == s[k - 1]
  {
    s[..i] + [v] + s[i..]
  }

  /** The live elements after removing the one at index `i`. */
  function Remove<T>(s: seq<T>, i: nat): (r: seq<T>)
    requires i < |s|
    ensures |r| == |s| - 1
    ensures forall k :: 0 <= k < i ==> r[k] == s[k]
    ensures forall k :: i <= k < |r| ==> r[k] == s[k + 1]
  {
    s[..i] + s[i + 1..]
  }

  /** The live elements after PopBack: the last one goes; an empty vector
      stays empty (PopBack guards on size_ > 0). */
  function DropLast<T>(s: seq<T>): (r: seq<T>)
    ensures |s| == 0 ==> r == s
    ensures |s| > 0 ==> r + [s[|s| - 1]] == s
  {
    if |s| == 0 then s else s[..|s| - 1]
  }

  /** `n` value-initialised elements, each equal to `init`. */
  function Filled<T>(n: nat, init: T): (r: seq<T>)
    ensures |r| == n
    ensures forall k :: 0 <= k < n ==> r[k] == init
  {
    seq(n, _ => init)
  }

  /** The live elements after Resize(n): a prefix is kept, new slots hold `init`. */
  function Resized<T>(s: seq<T>, n: nat, init: T): (r: seq<T>)
    ensures |r| == n
    ensures forall k :: 0 <= k < n && k < |s| ==> r[k] == s[k]
    ensures forall k :: |s| <= k < n ==> r[k] == init
  {
    if n <= |s| then s[..n] else s + Filled(n - |s|, init)
  }

  /** Capacity of the new block the reallocating insert allocates for a full
      vector of `size` elements: one slot from empty, double otherwise. */
  function GrowthCapacity(size: nat): (c: nat)
    ensures size < c
    ensures c == Max(1, 2 * size)
  {
    if size == 0 then 1 else size * 2
  }

  /** Capacity after inserting one element into a vector of `size` elements
      and capacity `cap`: unchanged while there is room, grown when full. */
  function CapacityAfterInsert(size: nat, cap: nat): (c: nat)
    requires size <= cap
    ensures size < c && cap <= c
    ensures size < cap ==> c == cap
  {
    if size < cap then cap else GrowthCapacity(size)
  }

  /** Number of elements the insert relocates into a new block. */
  function RelocatedByInsert(size: nat, cap: nat): (n: nat)
    requires size <= cap
    ensures n == 0 || n == size
    ensures size < cap ==> n == 0
    ensures size == cap ==> n == size
  {
    if size < cap then 0 else size
  }

  /** Capacity of a vector built by `n` PushBack calls from an empty one. */
  function CapacityAfterPushes(n: nat): (c: nat)
    ensures n <= c
  {
    if n == 0 then 0 else CapacityAfterInsert(n - 1, CapacityAfterPushes(n - 1))
  }

  /** Total number of element relocations those `n` PushBack calls perform. */
  function RelocationsForPushes(n: nat): nat
  {
    if n == 0 then 0
    else RelocationsForPushes(n - 1) + RelocatedByInsert(n - 1, CapacityAfterPushes(n - 1))
  }

  ghost predicate IsPowerOfTwo(c: nat)
    decreases c
  {
    c == 1 || (c > 1 && c % 2 == 0 && IsPowerOfTwo(c / 2))
  }

  /** Doubling growth: after n >= 1 pushes the capacity is a power of two
      below 2n, and the elements relocated so far number one less than the
      capacity, so appending costs amortised O(1) relocations. */
  lemma {:induction false} PushesGrowGeometrically(n: nat)
    requires n > 0
    ensures IsPowerOfTwo(CapacityAfterPushes(n))
    ensures n <= CapacityAfterPushes(n) < 2 * n
    ensures RelocationsForPushes(n) == CapacityAfterPushes(n) - 1
  {
    if n > 1 {
      PushesGrowGeometrically(n - 1);
      var c := CapacityAfterPushes(n - 1);
      if c == n - 1 {
        assert CapacityAfterPushes(n) == 2 * c;
        assert (2 * c) / 2 == c;
      }
    }
  }

  /** Insert and Remove at the same index are inverse. */
  lemma RemoveInsert<T>(s: seq<T>, i: nat, v: T)
    requires i <= |s|
    ensures Remove(Insert(s, i, v), i) == s
  {
    var r := Remove(Insert(s, i, v), i);
    assert forall k :: 0 <= k < |s| ==> r[k] == s[k];
  }

  /** Inserting at the end appends (EmplaceBack is Emplace at end()). */
  lemma InsertAtEnd<T>(s: seq<T>, v: T)
    ensures Insert(s, |s|, v) == s + [v]
  {
  }

  /** PopBack undoes PushBack. */
  lemma DropLastAppend<T>(s: seq<T>, v: T)
    ensures DropLast(s + [v]) == s
  {
  }

  /** Erasing the last element is the same as PopBack. */
  lemma RemoveLastIsDropLast<T>(s: seq<T>)
    requires |s| > 0
    ensures Remove(s, |s| - 1) == DropLast(s)
  {
  }

  /** Growing with Resize and shrinking back restores the elements. */
  lemma ResizeRoundTrip<T>(s: seq<T>, n: nat, init: T)
    requires |s| <= n
    ensures Resized(Resized(s, n, init), |s|, init) == s
  {
    var r := Resized(Resized(s, n, init), |s|, init);
    assert forall k :: 0 <= k < |s| ==> r[k] == s[k];
  }

  /** A call of PushBack(value) or of PopBack. */
  datatype StackOp<T> = PushOp(value: T) | PopOp

  /** The live elements after running `ops` in order. */
  function Run<T>(s: seq<T>, ops: seq<StackOp<T>>): seq<T>
    decreases |ops|
  {
    if ops == [] then s
    else
      var next := match ops[0]
        case PushOp(v) => s + [v]
        case PopOp => DropLast(s);
      Run(next, ops[1..])
  }

  function Pushes<T>(ops: seq<StackOp<T>>): nat
  {
    if ops == [] then 0 else (if ops[0].PushOp? then 1 else 0) + Pushes(ops[1..])
  }

  function Pops<T>(ops: seq<StackOp<T>>): nat
  {
    if ops == [] then 0 else (if ops[0].PopOp? then 1 else 0) + Pops(ops[1..])
  }

  /** No PopBack in `ops` meets an empty vector when it starts with `n` elements. */
  ghost predicate NeverPopsEmpty<T>(n: nat, ops: seq<StackOp<T>>)
    decreases |ops|
  {
    ops == [] ||
    (ops[0].PushOp? && NeverPopsEmpty(n + 1, ops[1..])) ||
    (ops[0].PopOp? && n > 0 && NeverPopsEmpty(n - 1, ops[1..]))
  }

  /** The size after a run of pushes and pops is the starting size plus the
      pushes minus the pops, as long as no pop meets an empty vector. */
  lemma {:induction false} RunSize<T>(s: seq<T>, ops: seq<StackOp<T>>)
    requires NeverPopsEmpty(|s|, ops)
    ensures |Run(s, ops)| == |s| + Pushes(ops) - Pops(ops)
    decreases |ops|
  {
    if ops != [] {
      match ops[0]
      case PushOp(v) => RunSize(s + [v], ops[1..]);
      case PopOp => RunSize(DropLast(s), ops[1..]);
    }
  }

  /** Pushing values and then popping as many restores the elements. */
  lemma {:induction false} PushAllPopAll<T>(s: seq<T>, xs: seq<T>)
    ensures Run(s, Pushing(xs) + Popping(|xs|)) == s
  {
    RunAppend(s, Pushing(xs), Popping(|xs|));
    RunPushing(s, xs);
    RunPopping(s, xs);
  }

  function Pushing<T>(xs: seq<T>): (ops: seq<StackOp<T>>)
    ensures |ops| == |xs|
    ensures forall k :: 0 <= k < |xs| ==> ops[k] == PushOp(xs[k])
  {
    if xs == [] then [] else [PushOp(xs[0])] + Pushing(xs[1..])
  }

  function Popping<T>(n: nat): (ops: seq<StackOp<T>>)
    ensures |ops| == n
    ensures forall k :: 0 <= k < n ==> ops[k] == PopOp
  {
    if n == 0 then [] else [PopOp] + Popping(n - 1)
  }

  lemma {:induction false} RunAppend<T>(s: seq<T>, ops: seq<StackOp<T>>, more: seq<StackOp<T>>)
    ensures Run(s, ops + more) == Run(Run(s, ops), more)
    decreases |ops|
  {
    if ops != [] {
      assert (ops + more)[0] == ops[0];
      assert (ops + more)[1..] == ops[1..] + more;
      var next := match ops[0]
        case PushOp(v) => s + [v]
        case PopOp => DropLast(s);
      assert ops + more != [];
      assert Run(s, ops + more) == Run(next, ops[1..] + more);
      assert Run(s, ops) == Run(next, ops[1..]);
      RunAppend(next, ops[1..], more);
    } else {
      assert ops + more == more;
    }
  }

  lemma {:induction false} RunPushing<T>(s: seq<T>, xs: seq<T>)
    ensures Run(s, Pushing(xs)) == s + xs
    decreases |xs|
  {
    if xs != [] {
      RunPushing(s + [xs[0]], xs[1..]);
      assert s + [xs[0]] + xs[1..] == s + xs;
    }
  }

  lemma {:induction false} RunPopping<T>(s: seq<T>, xs: seq<T>)
    ensures Run(s + xs, Popping(|xs|)) == s
    decreases |xs|
  {
    if xs != [] {
      var last := |xs| - 1;
      assert s + xs == (s + xs[..last]) + [xs[last]];
      DropLastAppend(s + xs[..last], xs[last]);
      RunPopping(s, xs[..last]);
    }
  }
}
