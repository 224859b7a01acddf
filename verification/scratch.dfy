/** The scratch allocator over the pool's used-length table. A buffer is
    named by its index in the pool; a handle that names no pool buffer stands
    for a pointer the pool never handed out. */
module Scratch {
  import opened Base
  import opened Layout

  /** Used length of each buffer; 0 means the buffer is free. */
  type Pool = seq<u32>

  /** Outcome of an allocation: the buffer handed out (None for NULL) and the pool afterwards. */
  datatype Grant = Grant(handle: Option<nat>, pool: Pool)

  /** Number of buffers currently held. */
  function UsedCount(pool: Pool): nat
  {
    if |pool| == 0 then 0
    else UsedCount(pool[..|pool| - 1]) + (if pool[|pool| - 1] != 0 then 1 else 0)
  }

  /** First-fit allocation: refuses sizes above `MaxMsgSize`, otherwise hands out
      the lowest-index free buffer and records `size` as its used length. */
  function Alloc(pool: Pool, size: u32): (g: Grant)
    ensures size > MaxMsgSize ==> g == Grant(None, pool)
    ensures size <= MaxMsgSize && 0 in pool ==> g.handle.Some?
    ensures g.handle.None? ==> g.pool == pool
    ensures g.handle.Some? ==>
      && g.handle.value < |pool|
      && pool[g.handle.value] == 0
      && (forall j :: 0 <= j < g.handle.value ==> pool[j] != 0)
      && g.pool == pool[g.handle.value := size]
  {
    if size > MaxMsgSize then Grant(None, pool)
    else match IndexOf(pool, 0)
      case None => Grant(None, pool)
      case Some(i) => Grant(Some(i), pool[i := size])
  }

  /** Releasing a buffer: a handle naming a held buffer frees it; anything else is ignored. */
  function Release(pool: Pool, handle: Option<nat>): (r: Pool)
    ensures |r| == |pool|
    ensures (handle.None? || handle.value >= |pool| || pool[handle.value] == 0) ==> r == pool
    ensures handle.Some? && handle.value < |pool| ==>
      && r[handle.value] == 0
      && forall j :: 0 <= j < |pool| && j != handle.value ==> r[j] == pool[j]
  {
    match handle
    case Some(i) =>
      if i < |pool| && pool[i] != 0 then pool[i := 0] else pool
    case None => pool
  }

  /** Updating one entry changes the count only by that entry's change of state. */
  lemma {:induction false} UsedCountUpdate(pool: Pool, i: nat, v: u32)
    requires i < |pool|
    ensures UsedCount(pool[i := v]) ==
      UsedCount(pool) - (if pool[i] != 0 then 1 else 0) + (if v != 0 then 1 else 0)
    decreases |pool|
  {
    var last := |pool| - 1;
    var p' := pool[i := v];
    assert p'[..last] == if i == last then pool[..last] else pool[..last][i := v];
    if i < last {
      UsedCountUpdate(pool[..last], i, v);
    }
  }

  /** The pool never holds more buffers than it has. */
  lemma {:induction false} UsedCountBound(pool: Pool)
    ensures UsedCount(pool) <= |pool|
    ensures UsedCount(pool) == |pool| <==> 0 !in pool
    decreases |pool|
  {
    if |pool| > 0 {
      var init := pool[..|pool| - 1];
      UsedCountBound(init);
      assert pool == init + [pool[|pool| - 1]];
    }
  }

  /** The pool holds nothing exactly when every used length is 0. */
  lemma {:induction false} UsedCountZero(pool: Pool)
    ensures UsedCount(pool) == 0 <==> forall i :: 0 <= i < |pool| ==> pool[i] == 0
    decreases |pool|
  {
    if |pool| > 0 {
      var init := pool[..|pool| - 1];
      UsedCountZero(init);
      assert forall i :: 0 <= i < |init| ==> init[i] == pool[i];
    }
  }

  /** A successful allocation of a non-empty message holds one more buffer; a
      size-0 request hands out a buffer but leaves it free; a refused request
      changes nothing. */
  lemma AllocUsedCount(pool: Pool, size: u32)
    ensures var g := Alloc(pool, size);
      UsedCount(g.pool) == UsedCount(pool) + (if g.handle.Some? && size != 0 then 1 else 0)
  {
    var g := Alloc(pool, size);
    if g.handle.Some? {
      UsedCountUpdate(pool, g.handle.value, size);
    }
  }

  /** Releasing a held buffer frees exactly one; any other release changes nothing. */
  lemma ReleaseUsedCount(pool: Pool, handle: Option<nat>)
    ensures UsedCount(Release(pool, handle)) ==
      UsedCount(pool) - (if handle.Some? && handle.value < |pool| && pool[handle.value] != 0 then 1 else 0)
  {
    if handle.Some? && handle.value < |pool| && pool[handle.value] != 0 {
      UsedCountUpdate(pool, handle.value, 0);
    }
  }

  /** A stale or duplicate release is a no-op: releasing twice is releasing once. */
  lemma ReleaseIdempotent(pool: Pool, handle: Option<nat>)
    ensures Release(Release(pool, handle), handle) == Release(pool, handle)
    ensures handle.Some? && handle.value < |pool| ==> Release(pool, handle)[handle.value] == 0
  {
  }

  /** Releasing the buffer an allocation handed out restores the pool, whatever the size. */
  lemma AllocReleaseRoundTrip(pool: Pool, size: u32)
    ensures var g := Alloc(pool, size); Release(g.pool, g.handle) == pool
  {
    var g := Alloc(pool, size);
    if g.handle.Some? {
      var i := g.handle.value;
      if size == 0 {
        assert g.pool == pool;
      } else {
        assert g.pool[i := 0] == pool;
      }
    }
  }

  /** Allocation and release only touch the buffer they name. */
  lemma OthersUntouched(pool: Pool, size: u32, handle: Option<nat>, j: nat)
    requires j < |pool|
    ensures var g := Alloc(pool, size);
      g.handle != Some(j) ==> g.pool[j] == pool[j]
    ensures handle != Some(j) ==> Release(pool, handle)[j] == pool[j]
  {
  }
}
