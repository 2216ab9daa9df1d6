/**
 The memoising cache `Cached<Ti, To>` as a functional state machine.

 A cache holds a fixed capacity, a map from key to (value, rank) and a
 `priority` sequence that orders the keys; a key's rank is meant to be its
 index in `priority`, index 0 being the highest priority. The wrapped
 callable is a parameter `f` of every step, and whether a step invoked it is
 reported in the step's outcome. Every way the step can panic is an explicit
 `Panicked` outcome, so no step needs a precondition.
 */
module Cached {

  /** A stored value together with its rank (the `(To, usize)` pair). */
  datatype Entry<V> = Entry(value: V, rank: nat)

  datatype Cache<K, V> = Cache(capacity: nat, cache: map<K, Entry<V>>, priority: seq<K>)

  /** What one `call` does: it returns (with the new state and the value),
      or it panics. Either way `invoked` says whether the callable ran. */
  datatype Outcome<K, V> =
    | Returned(next: Cache<K, V>, value: V, invoked: bool)
    | Panicked(invoked: bool)

  /** No key occurs twice in `s`. */
  predicate Distinct<K(==)>(s: seq<K>)
  {
    forall i, j :: 0 <= i < j < |s| ==> s[i] != s[j]
  }

  /** The representation invariant: the keys of the map are exactly the
      elements of `priority`, which has no duplicates, and every stored rank
      is the index of its key in `priority`. */
  predicate Consistent<K(==), V>(c: Cache<K, V>)
  {
    && Distinct(c.priority)
    && (forall k :: k in c.cache ==> k in c.priority)
    && (forall i :: 0 <= i < |c.priority| ==> c.priority[i] in c.cache && c.cache[c.priority[i]].rank == i)
  }

  /** The invariant every reachable cache keeps. */
  predicate Valid<K(==), V>(c: Cache<K, V>)
  {
    Consistent(c) && |c.priority| <= c.capacity
  }

  /** Every stored value is what `f` returns for its key. */
  ghost predicate Memoises<K, V>(c: Cache<K, V>, f: K -> V)
  {
    forall k :: k in c.cache ==> c.cache[k].value == f(k)
  }

  /** `Cached::new`: an empty cache of the given capacity. */
  function New<K, V>(capacity: nat): (c: Cache<K, V>)
    ensures Valid(c)
    ensures c.capacity == capacity && |c.cache| == 0 && |c.priority| == 0
  {
    Cache(capacity, map[], [])
  }

  /** `Vec::swap(i, j)` on a sequence. */
  function Swap<K>(s: seq<K>, i: nat, j: nat): (r: seq<K>)
    requires i < |s| && j < |s|
    ensures |r| == |s| && r[i] == s[j] && r[j] == s[i]
    ensures forall n :: 0 <= n < |s| && n != i && n != j ==> r[n] == s[n]
  {
    s[i := s[j]][j := s[i]]
  }

  /** `map.entry(k).and_modify(|(_, idx)| *idx = rank)`: sets the rank of
      `k` when `k` is stored, and changes nothing otherwise. */
  function SetRank<K, V>(m: map<K, Entry<V>>, k: K, rank: nat): (r: map<K, Entry<V>>)
    ensures r.Keys == m.Keys
    ensures k in m ==> r[k] == Entry(m[k].value, rank)
    ensures forall k' :: k' in m && k' != k ==> r[k'] == m[k']
  {
    if k in m then m[k := m[k].(rank := rank)] else m
  }

  /** The hit path: the key `x` is stored. A positive rank swaps `x` with
      the key one slot nearer the front and moves both ranks by one; the
      lookup of that slot and the swap panic when the rank is not a position
      of `priority`. The callable is never invoked. */
  function Hit<K, V>(c: Cache<K, V>, x: K): (r: Outcome<K, V>)
    requires x in c.cache
    ensures !r.invoked
    ensures r.Returned? ==> r.value == c.cache[x].value && r.next.capacity == c.capacity
    ensures r.Returned? ==> r.next.cache.Keys == c.cache.Keys
    ensures r.Panicked? <==> 0 < c.cache[x].rank && |c.priority| <= c.cache[x].rank
  {
    var idx := c.cache[x].rank;
    if idx == 0 then
      Returned(c, c.cache[x].value, false)
    else if |c.priority| <= idx then
      Panicked(false)
    else
      var other := c.priority[idx - 1];
      var raised := SetRank(c.cache, other, if other in c.cache then c.cache[other].rank + 1 else 0);
      var lowered := SetRank(raised, x, raised[x].rank - 1);
      Returned(Cache(c.capacity, lowered, Swap(c.priority, idx, idx - 1)), c.cache[x].value, false)
  }

  /** The miss path: `f(x)` is computed first; when `priority` is as long
      as the capacity its last key is popped and forgotten (popping an empty
      vector panics), then `x` is appended with the post-eviction length as
      its rank. */
  function Miss<K, V>(c: Cache<K, V>, f: K -> V, x: K): (r: Outcome<K, V>)
    ensures r.invoked
    ensures r.Panicked? <==> |c.priority| == c.capacity == 0
    ensures r.Returned? ==> r.value == f(x) && r.next.capacity == c.capacity
    ensures r.Returned? ==> 0 < |r.next.priority| && r.next.priority[|r.next.priority| - 1] == x
    ensures r.Returned? ==> x in r.next.cache && r.next.cache[x] == Entry(f(x), |r.next.priority| - 1)
  {
    var val := f(x);
    if |c.priority| == c.capacity && |c.priority| == 0 then
      Panicked(true)
    else
      var kept := if |c.priority| == c.capacity then c.priority[..|c.priority| - 1] else c.priority;
      var stored := if |c.priority| == c.capacity then c.cache - {c.priority[|c.priority| - 1]} else c.cache;
      Returned(Cache(c.capacity, stored[x := Entry(val, |kept|)], kept + [x]), val, true)
  }

  /** `Cached::call`: a hit returns the stored value without invoking the
      callable; a miss invokes it exactly once and returns its result. */
  function Call<K, V>(c: Cache<K, V>, f: K -> V, x: K): (r: Outcome<K, V>)
    ensures r.invoked <==> x !in c.cache
    ensures r.Returned? ==> r.value == (if x in c.cache then c.cache[x].value else f(x))
    ensures r.Returned? ==> r.next.capacity == c.capacity && x in r.next.cache
  {
    if x in c.cache then Hit(c, x) else Miss(c, f, x)
  }

  /** The result of a sequence of calls: the final state, the value each
      call returned and the keys the callable was invoked on, in order; or a
      panic part-way. */
  datatype Trace<K, V> =
    | Completed(last: Cache<K, V>, outputs: seq<V>, invocations: seq<K>)
    | Aborted(outputs: seq<V>, invocations: seq<K>)

  /** Calls `xs` one after the other, starting from `c`. */
  function Run<K, V>(c: Cache<K, V>, f: K -> V, xs: seq<K>): (t: Trace<K, V>)
    ensures t.Completed? ==> |t.outputs| == |xs| && t.last.capacity == c.capacity
    ensures t.Aborted? ==> |t.outputs| < |xs|
    ensures |t.invocations| <= |xs|
    decreases |xs|
  {
    if |xs| == 0 then
      Completed(c, [], [])
    else
      var r := Call(c, f, xs[0]);
      var inv := if r.invoked then [xs[0]] else [];
      if r.Panicked? then
        Aborted([], inv)
      else
        var rest := Run(r.next, f, xs[1..]);
        if rest.Completed? then
          Completed(rest.last, [r.value] + rest.outputs, inv + rest.invocations)
        else
          Aborted([r.value] + rest.outputs, inv + rest.invocations)
  }
}
