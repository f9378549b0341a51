/**
 * The benchmark driver: a table whose entry `i` is `i`, one plain lookup per key, the same
 * lookups as coroutine tasks submitted `batch` at a time to a pool of capacity `batch`, and
 * the final comparison of the two result arrays.  The keys are a parameter (the benchmark
 * draws them from a seeded generator, modulo `n`).
 */
module Benchmark {
  import opened Scheduler
  import opened Lookup
  import Coroutine

  /** `data[i] = i` for every `i < n`, the index truncated to the `uint32_t` entry. */
  method InitialiseTable(n: nat) returns (data: array<UInt32>)
    ensures fresh(data) && data.Length == n
    ensures forall i :: 0 <= i < n ==> data[i] == ToUInt32(i)
  {
    data := new UInt32[n];
    var i := 0;
    while i < n
      invariant 0 <= i <= n
      invariant forall k :: 0 <= k < i ==> data[k] == ToUInt32(k)
    {
      data[i] := ToUInt32(i);
      i := i + 1;
    }
  }

  /** `naive`: entry `i` of the result is the plain lookup of `keys[i]`. */
  method Naive(data: array<UInt32>, n: nat, keys: seq<UInt32>) returns (res: array<UInt32>)
    requires n <= data.Length
    ensures fresh(res) && res.Length == |keys|
    ensures forall i :: 0 <= i < |keys| ==> res[i] == ToUInt32(Search(data[..], 0, n, keys[i]))
    ensures Sorted(data[..], n) && n <= 0x1_0000_0000 ==>
      forall i :: 0 <= i < |keys| ==> res[i] == LastLeq(data[..], n, keys[i])
  {
    res := new UInt32[|keys|];
    var i := 0;
    while i < |keys|
      invariant 0 <= i <= |keys|
      invariant forall k :: 0 <= k < i ==> res[k] == ToUInt32(Search(data[..], 0, n, keys[k]))
      invariant Sorted(data[..], n) && n <= 0x1_0000_0000 ==>
        forall k :: 0 <= k < i ==> res[k] == LastLeq(data[..], n, keys[k])
    {
      var r := Lookup.Lookup(data, n, keys[i]);
      res[i] := r;
      i := i + 1;
    }
  }

  /**
   * `coroutine_batched`: a pool of capacity `batch`; for each batch of keys, one task per key
   * is submitted, then `RunAll` drives them all to completion and returns every stack, so the
   * next batch fits again and `New` never reports a full pool.  Each task performs the
   * suspensions of `lookup_coroutine` for its key; its result is the same as the plain lookup.
   */
  method CoroutineBatched(data: array<UInt32>, n: nat, keys: seq<UInt32>, batch: nat)
    returns (res: array<UInt32>)
    requires n <= data.Length
    requires batch > 0 && |keys| % batch == 0
    ensures fresh(res) && res.Length == |keys|
    ensures forall i :: 0 <= i < |keys| ==> res[i] == ToUInt32(Search(data[..], 0, n, keys[i]))
  {
    ghost var t := data[..];
    res := new UInt32[|keys|];
    var pool := new Coroutine.CoroutinePool(batch);
    var i := 0;
    ghost var left := |keys| / batch;
    while i < |keys|
      invariant 0 <= i <= |keys| && |keys| - i == left * batch
      invariant fresh(pool) && pool.Valid() && pool.capacity == batch && pool.size == 0
      invariant data[..] == t
      invariant forall k :: 0 <= k < i ==> res[k] == ToUInt32(Search(t, 0, n, keys[k]))
    {
      NextBatch(|keys|, i, left, batch);
      RunBatch(pool, data, n, keys, i, res);
      i, left := i + batch, left - 1;
    }
  }

  /**
   * While `left` whole batches of keys remain from `i` on and some key remains, a whole batch
   * follows `i`.
   */
  lemma NextBatch(m: nat, i: nat, left: int, batch: nat)
    requires batch > 0 && i < m && m - i == left * batch
    ensures i + batch <= m && m - (i + batch) == (left - 1) * batch
  {
    assert left > 0;
    assert (left - 1) * batch == left * batch - batch;
  }

  /**
   * One iteration of the outer loop of `coroutine_batched`: one `lookup_coroutine` task per
   * key of the batch starting at `start`, into a pool that holds no task, so that every `New`
   * is accepted; then `RunAll`, which leaves the pool empty for the next batch.  Results
   * before the batch are left alone.
   */
  method RunBatch(pool: Coroutine.CoroutinePool, data: array<UInt32>, n: nat, keys: seq<UInt32>,
                     start: nat, res: array<UInt32>)
    requires n <= data.Length && res != data && res.Length == |keys|
    requires start + pool.capacity <= |keys|
    requires pool.Valid() && pool.size == 0
    modifies pool, res
    ensures pool.Valid() && pool.size == 0
    ensures forall k :: 0 <= k < start ==> res[k] == old(res[k])
    ensures forall k :: start <= k < start + pool.capacity ==> res[k] == ToUInt32(Search(data[..], 0, n, keys[k]))
  {
    ghost var t := data[..];
    var j := 0;
    while j < pool.capacity
      invariant 0 <= j <= pool.capacity
      invariant pool.Valid() && pool.size == j
      invariant data[..] == t
      invariant forall k :: 0 <= k < start ==> res[k] == old(res[k])
      invariant forall k :: start <= k < start + j ==> res[k] == ToUInt32(Search(t, 0, n, keys[k]))
    {
      var r := SubmitLookup(pool, data, n, keys[start + j]);
      res[start + j] := r;
      j := j + 1;
    }
    pool.RunAll();
  }

  /**
   * One iteration of that loop: submit, through `New`, one `lookup_coroutine` task for
   * `key` whose result goes to its own slot, into a pool with room for it, which `New`
   * therefore accepts.  The task's result is
   * returned here; it is the plain lookup's.
   */
  method SubmitLookup(pool: Coroutine.CoroutinePool, data: array<UInt32>, n: nat, key: UInt32)
    returns (r: UInt32)
    requires n <= data.Length
    requires pool.Valid() && pool.size < pool.capacity
    modifies pool
    ensures pool.Valid() && pool.size == old(pool.size) + 1
    ensures r == ToUInt32(Search(data[..], 0, n, key))
  {
    var trace;
    r, trace := LookupCoroutine(data, n, key);
    var outcome := pool.New(trace);
    // `New` throws only when the pool is full
    assert outcome.Ok?;
  }

  /**
   * `main` after parsing its options: build the table, run both drivers on the same keys and
   * compare the results entry by entry.  On a table of at most `2^32` entries every result is
   * the key itself.
   */
  method RunBenchmark(n: nat, keys: seq<UInt32>, batch: nat)
    returns (naiveRes: array<UInt32>, coroutineRes: array<UInt32>)
    requires forall i :: 0 <= i < |keys| ==> keys[i] < n
    requires batch > 0 && |keys| % batch == 0
    ensures naiveRes.Length == coroutineRes.Length == |keys|
    ensures forall i :: 0 <= i < |keys| ==> naiveRes[i] == coroutineRes[i]
    ensures n <= 0x1_0000_0000 ==> forall i :: 0 <= i < |keys| ==> naiveRes[i] == keys[i]
  {
    var data := InitialiseTable(n);
    naiveRes := Naive(data, n, keys);
    coroutineRes := CoroutineBatched(data, n, keys, batch);
    var i := 0;
    while i < |keys|
      invariant 0 <= i <= |keys|
    {
      // the check `main` makes on every entry
      assert naiveRes[i] == coroutineRes[i];
      i := i + 1;
    }
    if n <= 0x1_0000_0000 {
      forall i | 0 <= i < |keys|
        ensures naiveRes[i] == keys[i]
      {
        IdentityLookup(data[..], n, keys[i]);
      }
    }
  }
}
