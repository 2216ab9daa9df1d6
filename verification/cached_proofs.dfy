/**
 Properties of the memoising cache: each branch of `call` keeps the
 representation invariant, changes exactly the entries it should, and
 returns what the callable returns; a sequence of calls memoises `f`.
 */
module CachedProofs {
  import opened Cached

  /** Splitting a non-empty sequence at its head. */
  lemma HeadTail<T>(a: seq<T>, xs: seq<T>)
    requires 0 < |xs|
    ensures a + [xs[0]] + xs[1..] == a + xs && [xs[0]] + xs[1..] == xs
  {
    assert [xs[0]] + xs[1..] == xs;
  }

  /** Appending one element to a non-empty sequence keeps its head and
      extends its tail. */
  lemma SnocSplit<T>(xs: seq<T>, z: T)
    requires 0 < |xs|
    ensures (xs + [z])[0] == xs[0] && (xs + [z])[1..] == xs[1..] + [z]
  {
  }

  /** Regrouping a cons and a snoc; a separate lemma keeps `RunSnoc` cheap. */
  lemma ConsSnoc<T>(v: T, a: seq<T>, w: T)
    ensures [v] + a + [w] == [v] + (a + [w])
  {
  }

  /** Associativity of concatenation; a separate lemma keeps `RunSnoc` cheap. */
  lemma AppendAssoc<T>(a: seq<T>, b: seq<T>, c: seq<T>)
    ensures a + b + c == a + (b + c)
  {
  }

  /** If the head of `xs` maps to `v` and its tail maps element-wise to
      `outs`, then `xs` maps element-wise to `[v] + outs`. */
  lemma ConsMapsThrough<K, V>(f: K -> V, xs: seq<K>, v: V, outs: seq<V>)
    requires 0 < |xs| && v == f(xs[0]) && |outs| == |xs| - 1
    requires forall i :: 0 <= i < |xs[1..]| ==> outs[i] == f(xs[1..][i])
    ensures forall i :: 0 <= i < |xs| ==> ([v] + outs)[i] == f(xs[i])
  {
    forall i | 0 < i < |xs|
      ensures ([v] + outs)[i] == f(xs[i])
    {
      assert xs[1..][i - 1] == xs[i];
    }
  }

  /** Keys drawn from the head (at most once) and from the tail of `xs` are
      drawn from `xs`. */
  lemma ConsSubMultiset<K>(xs: seq<K>, head: seq<K>, rest: seq<K>)
    requires 0 < |xs| && (head == [] || head == [xs[0]])
    requires multiset(rest) <= multiset(xs[1..])
    ensures multiset(head + rest) <= multiset(xs)
  {
    HeadTail([], xs);
    assert multiset(xs) == multiset([xs[0]]) + multiset(xs[1..]);
  }

  /** In a consistent cache a stored rank is the position of its key. */
  lemma RankLocates<K, V>(c: Cache<K, V>, k: K)
    requires Consistent(c) && k in c.cache
    ensures c.cache[k].rank < |c.priority| && c.priority[c.cache[k].rank] == k
  {
    var i :| 0 <= i < |c.priority| && c.priority[i] == k;
  }

  /** The set of keys occurring in `s`. */
  ghost function Elements<K>(s: seq<K>): set<K>
  {
    set k | k in s
  }

  /** A sequence without duplicates has as many distinct elements as it has
      positions. */
  lemma {:induction false} DistinctCardinality<K>(s: seq<K>)
    requires Distinct(s)
    ensures |Elements(s)| == |s|
  {
    if |s| != 0 {
      var init := s[..|s| - 1];
      assert Distinct(init);
      DistinctCardinality(init);
      assert Elements(s) == Elements(init) + {s[|s| - 1]};
      assert s[|s| - 1] !in Elements(init);
    }
  }

  /** In a valid cache the map holds exactly one entry per slot of
      `priority`, so the number of entries never exceeds the capacity. */
  lemma EntryCount<K, V>(c: Cache<K, V>)
    requires Valid(c)
    ensures |c.cache| == |c.priority| <= c.capacity
  {
    assert c.cache.Keys == Elements(c.priority);
    DistinctCardinality(c.priority);
  }

  /** A valid cache panics on `call` exactly when its capacity is 0, and
      then only after the callable has run. */
  lemma CallPanicsIffCapacityZero<K, V>(c: Cache<K, V>, f: K -> V, x: K)
    requires Valid(c)
    ensures Call(c, f, x).Panicked? <==> c.capacity == 0
    ensures c.capacity == 0 ==> Call(c, f, x) == Panicked(true)
  {
    if x in c.cache {
      RankLocates(c, x);
    }
  }

  /** A hit on a stored key `x` of rank `i` does not invoke `f`, returns the
      stored value, and swaps `x` with its front neighbour when `i > 0`: only
      the ranks of those two keys change, and nothing else does. */
  lemma HitPromotes<K, V>(c: Cache<K, V>, f: K -> V, x: K)
    requires Valid(c) && x in c.cache
    ensures var r := Call(c, f, x); var i := c.cache[x].rank;
      && r.Returned? && !r.invoked && r.value == c.cache[x].value
      && r.next.capacity == c.capacity
      && r.next.priority == (if i == 0 then c.priority else Swap(c.priority, i - 1, i))
      && r.next.cache.Keys == c.cache.Keys
      && (forall k :: k in c.cache ==> r.next.cache[k].value == c.cache[k].value)
      && (i == 0 ==> r.next.cache == c.cache)
      && (0 < i ==>
            && r.next.cache[x].rank == i - 1
            && r.next.cache[c.priority[i - 1]].rank == i
            && (forall k :: k in c.cache && k != x && k != c.priority[i - 1] ==> r.next.cache[k] == c.cache[k]))
  {
    RankLocates(c, x);
    var i := c.cache[x].rank;
    if 0 < i {
      var p := Call(c, f, x).next.priority;
      var q := Swap(c.priority, i - 1, i);
      assert |p| == |q|;
      forall n | 0 <= n < |p|
        ensures p[n] == q[n]
      {
      }
    }
  }

  /** A miss on a full cache invokes `f` once, pops the last key of
      `priority` from both structures and appends `x` in its place with the
      last rank; every other entry keeps its value and rank. */
  lemma MissEvictsTail<K, V>(c: Cache<K, V>, f: K -> V, x: K)
    requires Valid(c) && x !in c.cache && 0 < c.capacity && |c.priority| == c.capacity
    ensures var r := Call(c, f, x); var n := |c.priority|; var evicted := c.priority[n - 1];
      && r.Returned? && r.invoked && r.value == f(x)
      && r.next.capacity == c.capacity
      && r.next.priority == c.priority[..n - 1] + [x]
      && evicted !in r.next.cache
      && r.next.cache.Keys == c.cache.Keys - {evicted} + {x}
      && r.next.cache[x] == Entry(f(x), n - 1)
      && (forall k :: k in c.cache && k != evicted ==> r.next.cache[k] == c.cache[k])
  {
    var n := |c.priority|;
    assert x != c.priority[n - 1];
  }

  /** A miss on a cache with room invokes `f` once and appends `x` with
      rank equal to the old length; every stored entry is kept as it was. */
  lemma MissAppends<K, V>(c: Cache<K, V>, f: K -> V, x: K)
    requires Valid(c) && x !in c.cache && |c.priority| < c.capacity
    ensures var r := Call(c, f, x);
      && r.Returned? && r.invoked && r.value == f(x)
      && r.next.capacity == c.capacity
      && r.next.priority == c.priority + [x]
      && r.next.cache == c.cache[x := Entry(f(x), |c.priority|)]
  {
  }

  /** The hit branch keeps a valid cache valid. */
  lemma HitPreservesValid<K, V>(c: Cache<K, V>, f: K -> V, x: K)
    requires Valid(c) && x in c.cache
    ensures Call(c, f, x).Returned? && Valid(Call(c, f, x).next)
  {
    HitPromotes(c, f, x);
    var i := c.cache[x].rank;
    if 0 < i {
      var r := Call(c, f, x);
      var p := r.next.priority;
      var m := r.next.cache;
      assert p == Swap(c.priority, i - 1, i);
      forall j | 0 <= j < |p|
        ensures p[j] in m && m[p[j]].rank == j
      {
        if j != i - 1 && j != i {
          assert p[j] == c.priority[j];
          assert p[j] != x && p[j] != c.priority[i - 1];
        }
      }
      forall k | k in m
        ensures k in p
      {
        RankLocates(c, k);
        var ik := c.cache[k].rank;
        if ik == i - 1 {
          assert p[i] == k;
        } else if ik == i {
          assert p[i - 1] == k;
        } else {
          assert p[ik] == k;
        }
      }
    }
  }

  /** The miss branch on a full cache keeps it valid. */
  lemma EvictPreservesValid<K, V>(c: Cache<K, V>, f: K -> V, x: K)
    requires Valid(c) && x !in c.cache && 0 < c.capacity && |c.priority| == c.capacity
    ensures Call(c, f, x).Returned? && Valid(Call(c, f, x).next)
  {
    MissEvictsTail(c, f, x);
    var r := Call(c, f, x);
    var n := |c.priority|;
    var p := r.next.priority;
    var m := r.next.cache;
    forall j | 0 <= j < |p|
      ensures p[j] in m && m[p[j]].rank == j
    {
      if j < n - 1 {
        assert p[j] == c.priority[j];
        assert c.priority[j] != c.priority[n - 1];
      }
    }
    forall k | k in m
      ensures k in p
    {
      if k != x {
        RankLocates(c, k);
        assert p[c.cache[k].rank] == k;
      }
    }
  }

  /** The miss branch on a cache with room keeps it valid. */
  lemma AppendPreservesValid<K, V>(c: Cache<K, V>, f: K -> V, x: K)
    requires Valid(c) && x !in c.cache && |c.priority| < c.capacity
    ensures Call(c, f, x).Returned? && Valid(Call(c, f, x).next)
  {
    MissAppends(c, f, x);
    var r := Call(c, f, x);
    var p := r.next.priority;
    forall j | 0 <= j < |p|
      ensures p[j] in r.next.cache && r.next.cache[p[j]].rank == j
    {
      if j < |c.priority| {
        assert p[j] == c.priority[j];
      }
    }
  }

  /** Both branches of `call` keep a valid cache of positive capacity
      valid, so `|priority| <= capacity` holds after every call. */
  lemma CallPreservesValid<K, V>(c: Cache<K, V>, f: K -> V, x: K)
    requires Valid(c) && 0 < c.capacity
    ensures Call(c, f, x).Returned? && Valid(Call(c, f, x).next)
  {
    if x in c.cache {
      HitPreservesValid(c, f, x);
    } else if |c.priority| == c.capacity {
      EvictPreservesValid(c, f, x);
    } else {
      AppendPreservesValid(c, f, x);
    }
  }

  /** Whenever `call` returns, its value is `f(x)` on both paths and every
      stored value is still `f` of its key. */
  lemma CallMemoises<K, V>(c: Cache<K, V>, f: K -> V, x: K)
    requires Memoises(c, f)
    ensures Call(c, f, x).Returned? ==> Call(c, f, x).value == f(x) && Memoises(Call(c, f, x).next, f)
  {
  }

  /** A cache of capacity 0 never returns: the first call of any sequence
      invokes `f` and then panics popping the empty `priority`. */
  lemma ZeroCapacityPanicsAtOnce<K, V>(c: Cache<K, V>, f: K -> V, xs: seq<K>)
    requires Valid(c) && c.capacity == 0 && 0 < |xs|
    ensures Run(c, f, xs) == Aborted([], [xs[0]])
  {
    CallPanicsIffCapacityZero(c, f, xs[0]);
  }

  /** Calling the same key twice in a row invokes `f` at most once: the
      second call is a hit and returns the same value. */
  lemma RepeatCallIsHit<K, V>(c: Cache<K, V>, f: K -> V, x: K)
    requires Valid(c) && 0 < c.capacity
    ensures var r1 := Call(c, f, x);
      && r1.Returned?
      && Call(r1.next, f, x).Returned?
      && !Call(r1.next, f, x).invoked
      && Call(r1.next, f, x).value == r1.value
  {
    CallPreservesValid(c, f, x);
    CallPreservesValid(Call(c, f, x).next, f, x);
  }

  /** One step of a run: a call that returns, followed by the run of the
      remaining keys. */
  lemma RunStep<K, V>(c: Cache<K, V>, f: K -> V, xs: seq<K>)
    requires 0 < |xs| && Call(c, f, xs[0]).Returned?
    ensures var r := Call(c, f, xs[0]); var rest := Run(r.next, f, xs[1..]);
      var inv := if r.invoked then [xs[0]] else [];
      Run(c, f, xs) == if rest.Completed? then Completed(rest.last, [r.value] + rest.outputs, inv + rest.invocations)
                       else Aborted([r.value] + rest.outputs, inv + rest.invocations)
  {
  }

  /** Over any sequence of calls on a valid cache of positive capacity that
      memoises `f`: nothing panics, the i-th call returns `f(xs[i])`, the
      cache stays valid and memoising, and `f` runs only on keys that were
      called, never more often than they were called. */
  lemma {:induction false} RunMemoises<K, V>(c: Cache<K, V>, f: K -> V, xs: seq<K>)
    requires Valid(c) && 0 < c.capacity && Memoises(c, f)
    ensures var t := Run(c, f, xs);
      && t.Completed?
      && (forall i :: 0 <= i < |xs| ==> t.outputs[i] == f(xs[i]))
      && Valid(t.last) && Memoises(t.last, f)
      && multiset(t.invocations) <= multiset(xs)
    decreases |xs|
  {
    if |xs| != 0 {
      var r := Call(c, f, xs[0]);
      assert r.Returned? && r.value == f(xs[0]) && Valid(r.next) && Memoises(r.next, f) by {
        CallPreservesValid(c, f, xs[0]);
        CallMemoises(c, f, xs[0]);
      }
      RunMemoises(r.next, f, xs[1..]);
      RunStep(c, f, xs);
      var rest := Run(r.next, f, xs[1..]);
      ConsMapsThrough(f, xs, r.value, rest.outputs);
      ConsSubMultiset(xs, if r.invoked then [xs[0]] else [], rest.invocations);
    }
  }

  /** Calling keys that are distinct, not yet stored, and that fit in the
      free room appends them to `priority` in call order, invoking `f` on
      each exactly once. */
  lemma {:induction false} RunFills<K, V>(c: Cache<K, V>, f: K -> V, xs: seq<K>)
    requires Valid(c) && Distinct(xs) && |c.priority| + |xs| <= c.capacity
    requires forall i :: 0 <= i < |xs| ==> xs[i] !in c.cache
    ensures var t := Run(c, f, xs);
      && t.Completed? && t.last.priority == c.priority + xs && t.invocations == xs
      && Valid(t.last)
    decreases |xs|
  {
    if |xs| != 0 {
      var r := Call(c, f, xs[0]);
      assert r.Returned? && r.invoked && r.next.priority == c.priority + [xs[0]] && Valid(r.next)
        && forall i :: 0 <= i < |xs[1..]| ==> xs[1..][i] !in r.next.cache
      by {
        MissAppends(c, f, xs[0]);
        CallPreservesValid(c, f, xs[0]);
        forall i | 0 <= i < |xs[1..]|
          ensures xs[1..][i] !in r.next.cache
        {
          assert xs[1..][i] == xs[i + 1] != xs[0];
        }
      }
      assert Distinct(xs[1..]);
      RunFills(r.next, f, xs[1..]);
      RunStep(c, f, xs);
      HeadTail(c.priority, xs);
    }
  }

  /** A run that completes, followed by one more call, is the run of the
      longer sequence. */
  lemma {:induction false} RunSnoc<K, V>(c: Cache<K, V>, f: K -> V, xs: seq<K>, z: K)
    requires Run(c, f, xs).Completed?
    ensures var t := Run(c, f, xs); var r := Call(t.last, f, z);
      r.Returned? ==>
        Run(c, f, xs + [z]) == Completed(r.next, t.outputs + [r.value], t.invocations + (if r.invoked then [z] else []))
    decreases |xs|
  {
    if |xs| != 0 {
      var r := Call(c, f, xs[0]);
      assert r.Returned?;
      SnocSplit(xs, z);
      RunStep(c, f, xs);
      RunStep(c, f, xs + [z]);
      RunSnoc(r.next, f, xs[1..], z);
      var rest := Run(r.next, f, xs[1..]);
      var last := Call(rest.last, f, z);
      if last.Returned? {
        ConsSnoc(r.value, rest.outputs, last.value);
        AppendAssoc(if r.invoked then [xs[0]] else [], rest.invocations, if last.invoked then [z] else []);
      }
    }
  }

  /** A new cache of capacity `n` filled with at most `n` distinct keys
      holds exactly those keys, in call order. */
  lemma FillsNew<K, V>(n: nat, f: K -> V, ys: seq<K>)
    requires |ys| <= n && Distinct(ys)
    ensures var t := Run(New<K, V>(n), f, ys);
      && t.Completed? && t.last.priority == ys && t.invocations == ys
      && Valid(t.last) && t.last.capacity == n
  {
    RunFills(New<K, V>(n), f, ys);
  }

  /** Filling a new cache of capacity `n` with `n` distinct keys and then
      calling one more key pops the last of the `n` and appends the new one. */
  lemma OverflowAfterFill<K, V>(n: nat, f: K -> V, ys: seq<K>, z: K)
    requires 0 < n && |ys| == n && Distinct(ys) && z !in ys
    ensures var t := Run(New<K, V>(n), f, ys + [z]);
      && t.Completed? && t.invocations == ys + [z]
      && t.last.priority == ys[..n - 1] + [z]
      && Valid(t.last)
  {
    FillsNew<K, V>(n, f, ys);
    var full := Run(New<K, V>(n), f, ys).last;
    MissEvictsTail(full, f, z);
    CallPreservesValid(full, f, z);
    RunSnoc(New<K, V>(n), f, ys, z);
  }

  /** With capacity `n`, calling `n + 1` distinct keys on a new cache
      invokes `f` on every one of them and evicts the `n`-th key, the newest
      before the last call, not the oldest: new keys enter at the tail of
      `priority`, which is where eviction pops. */
  lemma EvictsNewestUnpromoted<K, V>(n: nat, f: K -> V, xs: seq<K>)
    requires 0 < n && |xs| == n + 1 && Distinct(xs)
    ensures var t := Run(New<K, V>(n), f, xs);
      && t.Completed? && t.invocations == xs
      && t.last.priority == xs[..n - 1] + [xs[n]]
      && xs[n - 1] !in t.last.cache
      && (forall i :: 0 <= i <= n && i != n - 1 ==> xs[i] in t.last.cache)
  {
    var ys := xs[..n];
    assert Distinct(ys) by {
      forall a, b | 0 <= a < b < |ys|
        ensures ys[a] != ys[b]
      {
        assert ys[a] == xs[a] && ys[b] == xs[b];
      }
    }
    OverflowAfterFill<K, V>(n, f, ys, xs[n]);
    assert ys + [xs[n]] == xs;
    assert ys[..n - 1] == xs[..n - 1];
    var last := Run(New<K, V>(n), f, xs).last;
    forall i | 0 <= i <= n && i != n - 1
      ensures xs[i] in last.cache
    {
      assert last.priority[if i < n - 1 then i else n - 1] == xs[i];
    }
  }
}
