# cached-rs memoising cache, modelled in Dafny

`Cached<Ti, To>` wraps a one-argument function and remembers its results.
Its state has three parts:

- a fixed `capacity`;
- a `HashMap` from key to a pair (value, rank);
- a `priority` vector that orders the keys. Index 0 is the highest priority.

`call(x)` works in one of two ways:

- **Hit.** The stored value is returned and the function is not run. When the key's rank is positive, the key swaps places with its neighbour one slot nearer the front, and both ranks are fixed up.
- **Miss.** The function runs once. If `priority` is as long as the capacity, its last key is popped and dropped from the map. Then `x` is pushed at the tail, with the current length as its rank.

The model is a pure state machine:

- `Cached.Cache` is an immutable record `(capacity, map<K, Entry<V>>, seq<K>)`.
- `Cached.Call` takes the wrapped function as a parameter `f: K -> V`. It returns an `Outcome`: either `Returned(next, value, invoked)` or `Panicked(invoked)`.
- `invoked` records whether `f` ran. It stands in for the function's side effects.
- `Cached.Run` runs a sequence of calls. It collects the returned values and the log of keys `f` was invoked on.

`Call` has no precondition. Each panic the Rust code can reach is an explicit `Panicked` outcome:

- `priority.pop().unwrap()` on an empty vector. This happens when `len == capacity == 0`.
- `priority.get(idx - 1).unwrap()` and `swap`. These panic when a stored rank is not a position of `priority`.

The invariant `Cached.Valid` holds for every cache built by `New` and `Call`. Under it:

- the keys of the map are exactly the elements of `priority`;
- `priority` has no duplicates;
- each stored rank is its key's index;
- `|priority| <= capacity`.

The lemmas in `CachedProofs` show that both branches of `call` keep `Valid`, and say exactly what each branch changes. `Scenarios` replays the crate's two tests and two worked examples.

The code differs from a textbook LRU cache in three places:

- **Eviction pops the tail of `priority`.** A new key enters at the tail, so eviction removes the newest key unless a hit has since promoted it. With capacity 2, the calls 1, 2, 3 leave keys 1 and 3, not 2 and 3. `CachedProofs.EvictsNewestUnpromoted` proves this for every positive capacity. `Scenarios.TailEviction` shows the concrete case.
- **Capacity 0 panics.** A cache of capacity 0 runs the function on the first call and then panics. It does not act as a cache that never retains anything.
- **Promotion is one slot per hit.** A hit moves a key one slot toward the front, not all the way to the front. `Scenarios.PromoteFromTail` and the two lemmas after it show each step.

## Model

| member | source | states |
|---|---|---|
| Cached.New | src/lib.rs:19-23 | a new cache has the given capacity, no entries and an empty `priority`, and satisfies the invariant |
| Cached.Swap | src/lib.rs:32 | `Vec::swap(i, j)`: the result has the same length, slots `i` and `j` exchanged, and every other slot unchanged |
| Cached.SetRank | src/lib.rs:33-34 | `entry(k).and_modify` on the rank: the key set is unchanged, a stored `k` keeps its value and gets the new rank, and every other entry is unchanged |
| Cached.Hit | src/lib.rs:26-37 | a hit never invokes the callable, returns the stored value, keeps the key set and the capacity, and panics exactly when the key's rank is positive but not below the length of `priority` |
| Cached.Miss | src/lib.rs:38-51 | a miss always invokes the callable and returns `f(x)`; it panics exactly when `priority` is empty and the capacity is 0; otherwise `x` ends up last in `priority`, stored with `f(x)` and the last rank |
| Cached.Call | src/lib.rs:25-52 | the callable is invoked if and only if the key is not stored; the returned value is the stored value on a hit and `f(x)` on a miss; afterwards `x` is stored and the capacity is unchanged |
| Cached.Run | src/lib.rs:25-52 | a sequence of calls returns one value per call when it completes, fewer when it panics, and never invokes the callable more often than there are calls |
| CachedProofs.RankLocates | src/lib.rs:29-34 | in a consistent cache the rank stored for a key is a valid index of `priority`, and `priority` holds that key there |
| CachedProofs.EntryCount | src/lib.rs:41-47 | in a valid cache the number of map entries equals the length of `priority`, which is at most the capacity |
| CachedProofs.CallPanicsIffCapacityZero | src/lib.rs:39-42 | on a valid cache, `call` panics if and only if the capacity is 0, and then only after the callable has run |
| CachedProofs.ZeroCapacityPanicsAtOnce | src/lib.rs:39-42 | a valid cache of capacity 0 panics on the first call of any non-empty sequence, having invoked the callable once |
| CachedProofs.HitPromotes | src/lib.rs:26-37 | a hit on a key of rank `i` leaves `priority` unchanged when `i` is 0 and swaps slots `i-1` and `i` otherwise; the keys and all values stay the same; only the ranks of the two swapped keys change, to `i-1` and `i` |
| CachedProofs.MissEvictsTail | src/lib.rs:39-48 | a miss on a full cache drops the last key of `priority` from both structures and appends `x` with rank `len-1` and value `f(x)`; every other entry keeps its value and rank |
| CachedProofs.MissAppends | src/lib.rs:39-48 | a miss on a cache with room appends `x` to `priority` and stores `(f(x), old length)`, changing no other entry |
| CachedProofs.HitPreservesValid | src/lib.rs:29-35 | the hit branch keeps the invariant: the map keys and `priority` still match, `priority` has no duplicates, and every rank is its key's index |
| CachedProofs.EvictPreservesValid | src/lib.rs:41-48 | the eviction-then-insert branch keeps the invariant |
| CachedProofs.AppendPreservesValid | src/lib.rs:46-48 | the insert-without-eviction branch keeps the invariant |
| CachedProofs.CallPreservesValid | src/lib.rs:25-52 | with capacity at least 1, `call` never panics and keeps the invariant, so the length of `priority` never exceeds the capacity |
| CachedProofs.CallMemoises | src/lib.rs:25-52 | if every stored value is `f` of its key, a returning call yields `f(x)` and keeps that property |
| CachedProofs.RepeatCallIsHit | src/lib.rs:26-37 | with capacity at least 1, calling the same key twice in a row makes the second call a hit that returns the same value without invoking the callable |
| CachedProofs.RunMemoises | src/lib.rs:25-52 | over any sequence of calls on a valid, memoising cache with capacity at least 1: nothing panics, the i-th result is `f(xs[i])`, the invariant and memoisation hold at the end, and the invocation log is a sub-multiset of the calls |
| CachedProofs.RunFills | src/lib.rs:46-48 | distinct, unstored keys that fit in the free room are appended to `priority` in call order, and the callable runs on each of them exactly once |
| CachedProofs.RunSnoc | src/lib.rs:25-52 | a completed run followed by one more returning call is the run of the longer sequence |
| CachedProofs.FillsNew | src/lib.rs:19-23 | a new cache given at most `capacity` distinct keys holds exactly those keys, in call order |
| CachedProofs.OverflowAfterFill | src/lib.rs:41-48 | filling a new cache with `n` distinct keys and calling one more unstored key replaces the `n`-th key with the new one |
| CachedProofs.EvictsNewestUnpromoted | src/lib.rs:41-48 | with capacity `n`, `n+1` distinct calls on a new cache invoke the callable on every key and evict the `n`-th key; all other keys stay stored |
| Scenarios.ItWorks | src/lib.rs:62-69 | calling `(4, 4)` twice with `a*2+b` returns 12 both times and invokes the callable once |
| Scenarios.WithSideEffectsMisses | src/lib.rs:71-79 | calls `(4, 3)` then `(2, 2)` with `a*3-b` both miss; the shared cell reads 9 and then 4 |
| Scenarios.WithSideEffectsHit | src/lib.rs:71-82 | the repeated call of `(4, 3)` returns 9 without invoking the callable, so the cell still reads 4 |
| Scenarios.EvictionFill | src/lib.rs:41-48 | with capacity 2, calls 1 and 2 give ranks 0 and 1 |
| Scenarios.TailEviction | src/lib.rs:41-48 | with capacity 2, the calls 1, 2, 3 evict 2 and leave `[1, 3]`, so a later call of 2 misses |
| Scenarios.PromotionFill | src/lib.rs:46-48 | with capacity 3, calls 1, 2, 3 give ranks 0, 1, 2 |
| Scenarios.PromoteFromTail | src/lib.rs:29-35 | calling 3 again swaps it with 2: `priority` becomes `[1, 3, 2]`, with 3 at rank 1 and 2 at rank 2 |
| Scenarios.PromoteToFront | src/lib.rs:29-35 | calling 3 once more swaps it with 1: `priority` becomes `[3, 1, 2]` |
| Scenarios.PromotionStopsAtFront | src/lib.rs:29-37 | at rank 0 a hit returns the value and changes nothing |

## Left out

- `lru_macro/src/lib.rs` is not part of this model. It is a procedural macro that emits fixed stub functions at compile time, and it has no runtime logic to state.
- The callable's ownership (`Box<dyn Fn>` and its lifetime) is not modelled. The callable is a pure Dafny function `f: K -> V` passed to every step, so it is deterministic.
- The callable's side effects are modelled only through the `invoked` flag and the invocation log of `Run`. The tests' `Arc<Mutex<_>>` cell appears only as `Scenarios.SharedCell`.
- `HashMap` hashing and the pre-allocation done by `with_capacity` are not modelled. The map is a Dafny `map`, and keys need only equality.
- `usize` ranks and capacity are modelled as `nat`, with no overflow. In a valid cache every rank is below `|priority| <= capacity`, so `idx + 1` and `idx - 1` on lines 33-34 stay in range.
- `Clone` and `Copy` are not modelled. Keys and values are immutable values.
- Threads and concurrency are not modelled. The source has none.
- The tests' `i64` arithmetic is modelled as `int`. Their values are small, so nothing overflows.
