/** How a download is cut into chunks, and what a set of chunks weighs. */
module ChunkPlan {
  import opened Words
  import opened Geometry

  /** `total.div_ceil(chunkSize)`. */
  function ChunkCount(total: nat, size: nat): nat
    requires 0 < size
  {
    (total + size - 1) / size
  }

  function ChunkStart(i: nat, size: nat): nat { i * size }

  /** One past the last byte of chunk `i`. */
  function ChunkEnd(i: nat, total: nat, size: nat): nat { Min((i + 1) * size, total) }

  /** The inclusive byte ranges of the chunks, in order (section 14.1.2 of RFC 9110). */
  function PlanChunks(total: nat, size: nat): (plan: seq<(nat, nat)>)
    ensures |plan| == if total == 0 || size == 0 then 0 else ChunkCount(total, size)
  {
    if total == 0 || size == 0 then []
    else
      seq(ChunkCount(total, size), i requires 0 <= i < ChunkCount(total, size) =>
        ChunkBounds(i, total, size);
        (ChunkStart(i, size), ChunkEnd(i, total, size) - 1))
  }

  lemma ChunkBounds(i: nat, total: nat, size: nat)
    requires 0 < size
    ensures i < ChunkCount(total, size) <==> ChunkStart(i, size) < total
    ensures i < ChunkCount(total, size) ==> ChunkStart(i, size) < ChunkEnd(i, total, size) <= ChunkStart(i, size) + size
    ensures (i + 1) * size == i * size + size
  {
    var n := ChunkCount(total, size);
    assert (i + 1) * size == i * size + size && n * size <= total + size - 1 < n * size + size;
    if i < n { MulMono(i + 1, n, size); } else { MulMono(n, i, size); }
  }

  /** Byte `k` belongs to chunk `k / size`, and to no other. */
  lemma ByteInChunk(k: nat, i: nat, total: nat, size: nat)
    requires 0 < size && k < total
    ensures k / size < ChunkCount(total, size)
    ensures ChunkStart(i, size) <= k < ChunkEnd(i, total, size) <==> k / size == i
  {
    assert k == (k / size) * size + k % size;
    ChunkBounds(k / size, total, size);
    ChunkBounds(i, total, size);
    if ChunkStart(i, size) <= k < ChunkEnd(i, total, size) { RowMajor(size, k - i * size, i); }
  }

  /** The index of a range is recovered from its start. */
  lemma IndexOfStart(i: nat, size: nat)
    requires 0 < size
    ensures ChunkStart(i, size) / size == i
  {
    RowMajor(size, 0, i);
  }

  /** Range `i` of a plan: non-empty, short enough, at its index, and right after the one before. */
  ghost predicate RangeInPlace(plan: seq<(nat, nat)>, i: nat, size: nat)
    requires i < |plan| && 0 < size
  {
    && plan[i].0 <= plan[i].1 && plan[i].1 - plan[i].0 + 1 <= size
    && plan[i].0 / size == i
    && (if i == 0 then plan[i].0 == 0 else plan[i].0 == plan[i - 1].1 + 1)
  }

  lemma RangesInPlace(total: nat, size: nat, i: nat)
    requires 0 < total && 0 < size && i < |PlanChunks(total, size)|
    ensures RangeInPlace(PlanChunks(total, size), i, size)
  {
    ChunkBounds(i, total, size);
    IndexOfStart(i, size);
    if i > 0 { ChunkBounds(i - 1, total, size); }
  }

  /** Byte `k` lies in the range of the plan its offset names. */
  ghost predicate ByteInPlace(plan: seq<(nat, nat)>, k: nat, size: nat)
    requires 0 < size
  {
    k / size < |plan| && plan[k / size].0 <= k <= plan[k / size].1
  }

  lemma BytesInPlace(total: nat, size: nat, k: nat)
    requires 0 < size && k < total
    ensures ByteInPlace(PlanChunks(total, size), k, size)
  {
    ByteInChunk(k, k / size, total, size);
  }

  lemma PlanEnds(total: nat, size: nat)
    requires 0 < total && 0 < size
    ensures var plan := PlanChunks(total, size); |plan| > 0 && plan[|plan| - 1].1 == total - 1
  {
    var n := ChunkCount(total, size);
    ChunkBounds(0, total, size);
    ChunkBounds(n, total, size);
    ChunkBounds(n - 1, total, size);
  }

  /**
    The plan is an ordered partition of `[0, total)`: it starts at 0, each range starts right after
    the one before it, the last ends at `total - 1`, and byte `k` is in range `k / size`.
    */
  lemma PlanIsPartition(total: nat, size: nat)
    requires 0 < total && 0 < size
    ensures var plan := PlanChunks(total, size);
      && |plan| > 0 && plan[|plan| - 1].1 == total - 1
      && (forall i: nat | i < |plan| :: RangeInPlace(plan, i, size))
      && (forall k: nat | k < total :: ByteInPlace(plan, k, size))
  {
    var plan := PlanChunks(total, size);
    PlanEnds(total, size);
    forall i: nat | i < |plan| ensures RangeInPlace(plan, i, size) { RangesInPlace(total, size, i); }
    forall k: nat | k < total ensures ByteInPlace(plan, k, size) { BytesInPlace(total, size, k); }
  }

  /** With `total + size` below 2^64 no end offset the planner computes overflows. */
  lemma PlanFitsU64(i: nat, total: nat, size: nat)
    requires 0 < size && total + size < 0x1_0000_0000_0000_0000 && i < ChunkCount(total, size)
    ensures (i + 1) * size < 0x1_0000_0000_0000_0000
  {
    ChunkBounds(i, total, size);
  }

  // ---- Weighing chunks ----

  /** Bytes of chunk `i`; a chunk past the end weighs nothing. */
  function ChunkLen(i: nat, total: nat, size: nat): nat {
    if ChunkEnd(i, total, size) > ChunkStart(i, size) then ChunkEnd(i, total, size) - ChunkStart(i, size) else 0
  }

  /** Total weight of the chunks of `s` below `n`. */
  function Weight(s: set<nat>, n: nat, total: nat, size: nat): nat {
    if n == 0 then 0 else Weight(s, n - 1, total, size) + if n - 1 in s then ChunkLen(n - 1, total, size) else 0
  }

  lemma {:induction false} WeightAdd(s: set<nat>, x: nat, n: nat, total: nat, size: nat)
    requires x !in s
    ensures Weight(s + {x}, n, total, size) == Weight(s, n, total, size) + if x < n then ChunkLen(x, total, size) else 0
  {
    if n > 0 { WeightAdd(s, x, n - 1, total, size); }
  }

  lemma {:induction false} WeightMono(s: set<nat>, t: set<nat>, n: nat, total: nat, size: nat)
    requires s <= t
    ensures Weight(s, n, total, size) <= Weight(t, n, total, size)
  {
    if n > 0 { WeightMono(s, t, n - 1, total, size); }
  }

  /** The first `n` chunks together are the first `n * size` bytes. */
  lemma {:induction false} WeightOfAll(s: set<nat>, n: nat, total: nat, size: nat)
    requires 0 < size && n <= ChunkCount(total, size)
    requires forall i: nat | i < n :: i in s
    ensures Weight(s, n, total, size) == Min(n * size, total)
  {
    if n > 0 {
      WeightOfAll(s, n - 1, total, size);
      ChunkBounds(n - 1, total, size);
    }
  }

  function Below(n: nat): (s: set<nat>)
    ensures forall i: nat :: i in s <==> i < n
  {
    if n == 0 then {} else Below(n - 1) + {n - 1}
  }

  /** The whole plan weighs `total`, and any part of it at most that. */
  lemma WeightBound(s: set<nat>, total: nat, size: nat)
    requires 0 < size
    ensures Weight(s, ChunkCount(total, size), total, size) <= total
    ensures (forall i: nat | i < ChunkCount(total, size) :: i in s) ==>
      Weight(s, ChunkCount(total, size), total, size) == total
  {
    var n := ChunkCount(total, size);
    var all := Below(n);
    WeightOfAll(s + all, n, total, size);
    WeightMono(s, s + all, n, total, size);
    ChunkBounds(n, total, size);
    if forall i: nat | i < n :: i in s { WeightOfAll(s, n, total, size); }
  }

  predicate Distinct(q: seq<nat>) { forall i, j | 0 <= i < j < |q| :: q[i] != q[j] }

  function Elements(q: seq<nat>): set<nat> { set x | x in q }

  /** What `completed_bytes` adds up, index by index. */
  function BytesOf(q: seq<nat>, total: nat, size: nat): nat {
    if q == [] then 0 else BytesOf(q[..|q| - 1], total, size) + ChunkLen(q[|q| - 1], total, size)
  }

  /** On a list without duplicates the sum is the weight of its chunks. */
  lemma {:induction false} BytesOfDistinct(q: seq<nat>, total: nat, size: nat)
    requires 0 < size && Distinct(q)
    ensures BytesOf(q, total, size) == Weight(Elements(q), ChunkCount(total, size), total, size)
  {
    var n := ChunkCount(total, size);
    if q == [] {
      assert Elements(q) == {};
      WeightOfNone(n, total, size);
    } else {
      var init, x := q[..|q| - 1], q[|q| - 1];
      BytesOfDistinct(init, total, size);
      assert q == init + [x] && Elements(q) == Elements(init) + {x};
      assert x !in Elements(init);
      WeightAdd(Elements(init), x, n, total, size);
      ChunkBounds(x, total, size);
    }
  }

  lemma {:induction false} WeightOfNone(n: nat, total: nat, size: nat)
    ensures Weight({}, n, total, size) == 0
  {
    if n > 0 { WeightOfNone(n - 1, total, size); }
  }

  /** The accumulating loop of `DownloadState::completed_bytes`. */
  method CompletedBytes(completed: seq<nat>, total: nat, size: nat) returns (sum: nat)
    ensures sum == if size == 0 then 0 else BytesOf(completed, total, size)
  {
    if size == 0 {
      return 0;
    }
    sum := 0;
    for i := 0 to |completed|
      invariant sum == BytesOf(completed[..i], total, size)
    {
      assert completed[..i + 1][..i] == completed[..i];
      var s, e := completed[i] * size, Min((completed[i] + 1) * size, total);
      if e > s {
        sum := sum + (e - s);
      }
    }
    assert completed[..|completed|] == completed;
  }

  // ---- Listing a set in order ----

  lemma {:induction false} HasMax(s: set<nat>) returns (m: nat)
    requires s != {}
    ensures m in s && forall x | x in s :: x <= m
    decreases |s|
  {
    var x :| x in s;
    if s == {x} {
      m := x;
    } else {
      var rest := s - {x};
      assert rest != {} && |rest| < |s|;
      var r := HasMax(rest);
      assert forall y | y in s :: y == x || y in rest;
      m := if r > x then r else x;
    }
  }

  /** The elements of `s` in increasing order, as `sort_unstable` leaves them. */
  ghost function Sorted(s: set<nat>): (q: seq<nat>)
    ensures Elements(q) == s && Distinct(q)
    decreases |s|
  {
    if s == {} then []
    else
      HasMaxExists(s);
      var m :| m in s && forall x | x in s :: x <= m;
      var init := Sorted(s - {m});
      assert m !in Elements(init);
      assert Elements(init + [m]) == Elements(init) + {m};
      init + [m]
  }

  lemma HasMaxExists(s: set<nat>)
    requires s != {}
    ensures exists m :: m in s && forall x | x in s :: x <= m
  {
    var m := HasMax(s);
  }
}
