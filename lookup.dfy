/**
 * The branchless binary search of the benchmark, `lookup` and its coroutine twin
 * `lookup_coroutine`.  Both keep a window `[low, low + size)` and halve `size` until it is
 * one; the probe `low + size / 2` moves `low` up when its entry is at most the key.  The
 * coroutine version yields before every probe made while `size >= 1024`, which is where
 * the benchmark's prefetch is issued.
 */
module Lookup {
  import opened Scheduler
  import SchedulerProperties
  import TaskStack

  /** `*result = low`: the `size_t` index stored through a `uint32_t *`. */
  function ToUInt32(x: nat): (r: UInt32)
    ensures r <= x
    ensures x < 0x1_0000_0000 ==> r == x
  {
    x % 0x1_0000_0000
  }

  predicate Sorted(t: seq<UInt32>, n: nat)
    requires n <= |t|
  {
    forall i, j :: 0 <= i <= j < n ==> t[i] <= t[j]
  }

  /** One iteration of the search loop on the window `[low, low + size)`: the new `low`. */
  function NextLow(t: seq<UInt32>, low: nat, size: nat, v: UInt32): (r: nat)
    requires low + size <= |t| && size >= 2
    ensures r == low || r == low + size / 2
  {
    var probe := low + size / 2;
    if t[probe] <= v then probe else low
  }

  /**
   * The value of `low` when the search loop stops, started from the window
   * `[low, low + size)` of `t`.  The loop runs while `size / 2 > 0`, that is while `size >= 2`.
   */
  function Search(t: seq<UInt32>, low: nat, size: nat, v: UInt32): (r: nat)
    requires low + size <= |t|
    ensures size <= 1 ==> r == low
    ensures size > 0 ==> low <= r < low + size
    decreases size
  {
    if size < 2 then low
    else Search(t, NextLow(t, low, size, v), size - size / 2, v)
  }

  /** The largest index `i` with `1 <= i < n` and `t[i] <= v`, or 0 when there is none. */
  function LastLeq(t: seq<UInt32>, n: nat, v: UInt32): (r: nat)
    requires n <= |t|
    ensures r == 0 || (r < n && t[r] <= v)
    ensures forall j :: r < j < n ==> t[j] > v
  {
    if n <= 1 then 0
    else if t[n - 1] <= v then n - 1
    else LastLeq(t, n - 1, v)
  }

  /** `LastLeq` is the only index with its two properties. */
  lemma LastLeqUnique(t: seq<UInt32>, n: nat, v: UInt32, r: nat)
    requires n <= |t| && (r < n || r == 0)
    requires r == 0 || t[r] <= v
    requires forall j :: r < j < n ==> t[j] > v
    ensures r == LastLeq(t, n, v)
  {
  }

  /**
   * What the search loop keeps on a sorted table: the start of the window is 0 or at most the
   * key, and every entry from the end of the window on is greater than the key.
   */
  ghost predicate Bracket(t: seq<UInt32>, n: nat, low: nat, size: nat, v: UInt32)
    requires n <= |t|
  {
    (low == 0 || (low < n && t[low] <= v)) && forall j :: low + size <= j < n ==> t[j] > v
  }

  /** One iteration of the search loop keeps the bracket on a sorted table. */
  lemma StepKeepsBracket(t: seq<UInt32>, n: nat, low: nat, size: nat, v: UInt32)
    requires low + size <= n <= |t| && size >= 2 && Sorted(t, n) && Bracket(t, n, low, size, v)
    ensures Bracket(t, n, NextLow(t, low, size, v), size - size / 2, v)
  {
    var probe := low + size / 2;
    if t[probe] > v {
      forall j | low + (size - size / 2) <= j < n
        ensures t[j] > v
      {
        if j < low + size {
          assert t[probe] <= t[j];
        }
      }
    }
  }

  /** When the loop stops on a window of at most one entry, the bracket pins down `LastLeq`. */
  lemma BracketEnd(t: seq<UInt32>, n: nat, low: nat, size: nat, v: UInt32)
    requires low + size <= n <= |t| && size <= 1 && (n > 0 ==> size == 1) && Bracket(t, n, low, size, v)
    ensures low == LastLeq(t, n, v)
  {
    LastLeqUnique(t, n, v, low);
  }

  /**
   * The body of the search loop: probe the middle of the window and move `low` up to it when
   * its entry is at most the key.  The halved window lies inside the old one, the search's
   * outcome is unchanged, and on a sorted table the halved window still brackets the answer.
   */
  method Probe(table: array<UInt32>, n: nat, low: nat, size: nat, value: UInt32) returns (next: nat)
    requires low + size <= n <= table.Length && size >= 2
    ensures low <= next && next + (size - size / 2) <= low + size
    ensures Search(table[..], next, size - size / 2, value) == Search(table[..], low, size, value)
    ensures Sorted(table[..], n) && Bracket(table[..], n, low, size, value) ==>
      Bracket(table[..], n, next, size - size / 2, value)
  {
    ghost var t := table[..];
    if Sorted(t, n) && Bracket(t, n, low, size, value) {
      StepKeepsBracket(t, n, low, size, value);
    }
    var half := size / 2;
    var probe := low + half;
    next := if table[probe] <= value then probe else low;
    assert next == NextLow(t, low, size, value);
  }

  /** `lookup`. */
  method Lookup(table: array<UInt32>, n: nat, value: UInt32) returns (r: UInt32)
    requires n <= table.Length
    ensures r == ToUInt32(Search(table[..], 0, n, value))
    ensures n <= 1 ==> r == 0
    ensures 0 < n ==> r < n
    ensures Sorted(table[..], n) && n <= 0x1_0000_0000 ==> r == LastLeq(table[..], n, value)
  {
    ghost var t := table[..];
    ghost var sorted := Sorted(t, n);
    var low: nat := 0;
    var size: nat := n;
    while size / 2 > 0
      invariant low + size <= n && (n > 0 ==> size >= 1)
      invariant Search(t, low, size, value) == Search(t, 0, n, value)
      invariant sorted ==> Bracket(t, n, low, size, value)
      decreases size
    {
      low := Probe(table, n, low, size, value);
      size := size - size / 2;
    }
    r := ToUInt32(low);
    if sorted {
      BracketEnd(t, n, low, size, value);
    }
  }

  /**
   * The number of probes `lookup_coroutine` makes on windows of 1024 entries or more,
   * starting from a window of `size` entries.  The window only shrinks, so once it is below
   * 1024 no further probe suspends: there is none exactly when the table has fewer than
   * 1024 entries.  Each step keeps at least half of the window, so `size < 1024 · 2^c`.
   */
  function YieldCount(size: nat): (c: nat)
    ensures c == 0 <==> size < 1024
    ensures size < 1024 * TaskStack.Pow2(c)
    decreases size
  {
    if size < 1024 then 0 else 1 + YieldCount(size - size / 2)
  }

  /**
   * `lookup_coroutine`: the same result as `lookup`, and, as `trace`, the suspensions the
   * task makes on the way, one `Yield` per probe of a window of at least 1024 entries.
   */
  method LookupCoroutine(table: array<UInt32>, n: nat, value: UInt32) returns (r: UInt32, trace: seq<Action>)
    requires n <= table.Length
    ensures r == ToUInt32(Search(table[..], 0, n, value))
    ensures n <= 1 ==> r == 0
    ensures 0 < n ==> r < n
    ensures Sorted(table[..], n) && n <= 0x1_0000_0000 ==> r == LastLeq(table[..], n, value)
    ensures trace == SchedulerProperties.Yields(YieldCount(n))
  {
    ghost var t := table[..];
    ghost var sorted := Sorted(t, n);
    var low: nat := 0;
    var size: nat := n;
    trace := [];
    while size / 2 > 0
      invariant low + size <= n && (n > 0 ==> size >= 1)
      invariant Search(t, low, size, value) == Search(t, 0, n, value)
      invariant sorted ==> Bracket(t, n, low, size, value)
      invariant trace == SchedulerProperties.Yields(|trace|)
      invariant |trace| + YieldCount(size) == YieldCount(n)
      decreases size
    {
      var half := size / 2;
      if size >= 1024 {
        // the probe's entry is prefetched and the task yields before it is read
        YieldsSnoc(|trace|);
        trace := trace + [YieldAction];
      }
      low := Probe(table, n, low, size, value);
      assert YieldCount(size) == (if size >= 1024 then 1 else 0) + YieldCount(size - half);
      size := size - half;
    }
    r := ToUInt32(low);
    if sorted {
      BracketEnd(t, n, low, size, value);
    }
  }

  lemma YieldsSnoc(k: nat)
    ensures SchedulerProperties.Yields(k) + [YieldAction] == SchedulerProperties.Yields(k + 1)
  {
  }

  lemma {:induction false} Pow2Mono(a: nat, b: nat)
    requires a <= b
    ensures TaskStack.Pow2(a) <= TaskStack.Pow2(b)
    decreases b
  {
    if a < b {
      Pow2Mono(a, b - 1);
    }
  }

  /** A table of `2^k` entries costs `k - 9` suspensions per lookup, none below 1024 entries. */
  lemma {:induction false} YieldCountPow2(k: nat)
    ensures YieldCount(TaskStack.Pow2(k)) == if k >= 10 then k - 9 else 0
  {
    assert TaskStack.Pow2(2) == 4;
    TaskStack.Pow2Add(2, 2);
    TaskStack.Pow2Add(4, 4);
    TaskStack.Pow2Add(1, 8);
    TaskStack.Pow2Add(2, 8);
    assert TaskStack.Pow2(9) == 512 && TaskStack.Pow2(10) == 1024;
    if k < 10 {
      Pow2Mono(k, 9);
    } else {
      var m := TaskStack.Pow2(k - 1);
      assert TaskStack.Pow2(k) == 2 * m;
      assert 2 * m - (2 * m) / 2 == m;
      YieldCountPow2(k - 1);
      Pow2Mono(10, k);
    }
  }

  /**
   * The benchmark's table, where entry `i` holds `i`, is sorted, and the last entry at most
   * a key below `n` is the key itself.
   */
  lemma IdentityLookup(t: seq<UInt32>, n: nat, key: UInt32)
    requires n <= |t| && n <= 0x1_0000_0000
    requires forall i :: 0 <= i < n ==> t[i] == i
    requires key < n
    ensures Sorted(t, n) && LastLeq(t, n, key) == key
  {
    LastLeqUnique(t, n, key, key);
  }
}
