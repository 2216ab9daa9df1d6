/**
 The scenarios the cache's own tests exercise, and the two worked examples
 of the one-slot promotion and tail eviction, checked on the model.
 */
module Scenarios {
  import opened Cached
  import opened CachedProofs

  /** The key type of the tests: a pair of 64-bit integers. */
  type Pair = (int, int)

  /** The callable of `it_works`. */
  function Double(p: Pair): int { p.0 * 2 + p.1 }

  /** The callable of `test_with_side_effects`; it also stores its result in
      a shared cell, which the trace's invocation log accounts for. */
  function Triple(p: Pair): int { p.0 * 3 - p.1 }

  /** The shared cell after a run: the last value the callable wrote into
      it, or its initial content when the callable never ran. */
  function SharedCell<K>(initial: int, f: K -> int, invocations: seq<K>): int
  {
    if |invocations| == 0 then initial else f(invocations[|invocations| - 1])
  }

  /** `it_works`: the second call of `(4, 4)` returns 12 again without
      invoking the callable. */
  lemma ItWorks()
    ensures var t := Run(New<Pair, int>(24), Double, [(4, 4), (4, 4)]);
      t.Completed? && t.outputs == [12, 12] && t.invocations == [(4, 4)]
  {
    var c0 := New<Pair, int>(24);
    var r1 := Call(c0, Double, (4, 4));
    assert r1.next == Cache(24, map[(4, 4) := Entry(12, 0)], [(4, 4)]);
  }

  /** The cache of `test_with_side_effects` after its first two calls. */
  const SideEffectsFilled: Cache<Pair, int> :=
    Cache(24, map[(4, 3) := Entry(9, 0), (2, 2) := Entry(4, 1)], [(4, 3), (2, 2)])

  /** `test_with_side_effects`, first two calls: both miss, so the cell
      reads 9 and then 4. */
  lemma WithSideEffectsMisses()
    ensures var t := Run(New<Pair, int>(24), Triple, [(4, 3)]);
      t.Completed? && t.outputs == [9] && SharedCell(12, Triple, t.invocations) == 9
    ensures var t := Run(New<Pair, int>(24), Triple, [(4, 3), (2, 2)]);
      && t.Completed? && t.outputs == [9, 4] && SharedCell(12, Triple, t.invocations) == 4
      && t.last == SideEffectsFilled
  {
    var c1 := Call(New<Pair, int>(24), Triple, (4, 3)).next;
    assert c1 == Cache(24, map[(4, 3) := Entry(9, 0)], [(4, 3)]);
  }

  /** `test_with_side_effects`, third call: `(4, 3)` hits, returns 9 and
      leaves the cell at 4. */
  lemma WithSideEffectsHit()
    ensures var t := Run(New<Pair, int>(24), Triple, [(4, 3), (2, 2), (4, 3)]);
      t.Completed? && t.outputs == [9, 4, 9] && SharedCell(12, Triple, t.invocations) == 4
  {
    WithSideEffectsMisses();
    RunSnoc(New<Pair, int>(24), Triple, [(4, 3), (2, 2)], (4, 3));
    assert [(4, 3), (2, 2)] + [(4, 3)] == [(4, 3), (2, 2), (4, 3)];
  }

  /** The callable of the worked examples. */
  function Twice(x: int): int { x * 2 }

  /** Capacity 2 after calling 1 and 2: 1 at rank 0, 2 at rank 1. */
  const EvictionFull: Cache<int, int> := Cache(2, map[1 := Entry(2, 0), 2 := Entry(4, 1)], [1, 2])

  lemma EvictionFill()
    ensures Run(New<int, int>(2), Twice, [1, 2]) == Completed(EvictionFull, [2, 4], [1, 2])
  {
    var c1 := Call(New<int, int>(2), Twice, 1).next;
    assert c1 == Cache(2, map[1 := Entry(2, 0)], [1]);
  }

  /** Capacity 2, calls 1, 2, 3: the pop removes 2, the newest key, leaving
      1 and 3; calling 2 again is therefore a miss. */
  lemma TailEviction()
    ensures var t := Run(New<int, int>(2), Twice, [1, 2, 3]);
      && t.Completed? && t.outputs == [2, 4, 6] && t.invocations == [1, 2, 3]
      && t.last == Cache(2, map[1 := Entry(2, 0), 3 := Entry(6, 1)], [1, 3])
      && Call(t.last, Twice, 2).invoked
  {
    EvictionFill();
    RunSnoc(New<int, int>(2), Twice, [1, 2], 3);
    assert [1, 2] + [3] == [1, 2, 3];
    assert EvictionFull.cache - {2} == map[1 := Entry(2, 0)];
  }

  /** Capacity 3 after calling 1, 2 and 3: ranks 0, 1, 2. */
  const PromotionFull: Cache<int, int> :=
    Cache(3, map[1 := Entry(2, 0), 2 := Entry(4, 1), 3 := Entry(6, 2)], [1, 2, 3])

  /** After one further call of 3: 3 and 2 have traded places and ranks. */
  const PromotedOnce: Cache<int, int> :=
    Cache(3, map[1 := Entry(2, 0), 2 := Entry(4, 2), 3 := Entry(6, 1)], [1, 3, 2])

  /** After two further calls of 3: 3 has reached the front. */
  const PromotedTwice: Cache<int, int> :=
    Cache(3, map[1 := Entry(2, 1), 2 := Entry(4, 2), 3 := Entry(6, 0)], [3, 1, 2])

  lemma PromotionFill()
    ensures Run(New<int, int>(3), Twice, [1, 2, 3]) == Completed(PromotionFull, [2, 4, 6], [1, 2, 3])
  {
    var c1 := Call(New<int, int>(3), Twice, 1).next;
    assert c1 == Cache(3, map[1 := Entry(2, 0)], [1]);
    var c2 := Call(c1, Twice, 2).next;
    assert c2 == Cache(3, map[1 := Entry(2, 0), 2 := Entry(4, 1)], [1, 2]);
  }

  /** Capacity 3, keys 1, 2, 3 take ranks 0, 1, 2; a further call of 3 is
      a hit that moves it one slot toward the front. */
  lemma PromoteFromTail()
    ensures Call(PromotionFull, Twice, 3) == Returned(PromotedOnce, 6, false)
  {
    assert PromotionFull.cache[2 := Entry(4, 2)][3 := Entry(6, 1)] == PromotedOnce.cache;
  }

  /** The next call of 3 moves it to the front. */
  lemma PromoteToFront()
    ensures Call(PromotedOnce, Twice, 3) == Returned(PromotedTwice, 6, false)
  {
    assert PromotedOnce.cache[1 := Entry(2, 1)][3 := Entry(6, 0)] == PromotedTwice.cache;
  }

  /** At rank 0 a hit changes nothing. */
  lemma PromotionStopsAtFront()
    ensures Call(PromotedTwice, Twice, 3) == Returned(PromotedTwice, 6, false)
  {
  }
}
