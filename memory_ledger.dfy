/**
 * The allocation ledger of tests/MemoryTracker.c on values: the `size_t`
 * counter `unfreedMemory` and the `(ptr, bytes)` records of the MemoryRef
 * list after its head, front first, with what each malloc/calloc/realloc/
 * free wrapper and the reset do to them. Pointers are abstract ids; the
 * block the real allocator hands back is a parameter.
 *
 * Besides the records, the ledger keeps one flag per record: whether the
 * record's `prev` pointer still names the record in front of it. The free
 * wrapper unlinks a record through that pointer and never repairs the
 * successor's, so the flags decide what a later free does.
 */
module MemoryLedger {
  import opened Sequences

  /** 2^64: `size_t` arithmetic wraps modulo this. */
  const SizeModulus: int := 0x1_0000_0000_0000_0000
  /** 2^32 and INT_MAX: MemoryRef.bytes is a 32-bit `int`. */
  const IntModulus: int := 0x1_0000_0000
  const IntMax: int := 0x7fff_ffff

  type SizeT = x: int | 0 <= x < SizeModulus

  /** An address handed out by the real allocator; 0 is NULL. */
  type Ptr = nat

  /** Conversion of an integer to `size_t`: reduction modulo 2^64. */
  function ToSize(x: int): (r: SizeT)
    ensures (x - r) % SizeModulus == 0
  {
    x % SizeModulus
  }

  /**
   * Conversion of a `size_t` to `int`: the low 32 bits read as a two's
   * complement number (the usual implementation-defined behaviour).
   */
  function ToInt(x: SizeT): (r: int)
    ensures -IntMax - 1 <= r <= IntMax
    ensures (x - r) % IntModulus == 0
    ensures x <= IntMax ==> r == x
  {
    var low := x % IntModulus;
    if low <= IntMax then low else low - IntModulus
  }

  datatype Record = Record(ptr: Ptr, bytes: int)

  /**
   * `unfreed` is unfreedMemory; `records` the list after the head;
   * `backLinked[i]` that record `i`'s `prev` is the node in front of it.
   */
  datatype Ledger = Ledger(unfreed: SizeT, records: seq<Record>, backLinked: seq<bool>)

  predicate WellFormed(l: Ledger) {
    |l.records| == |l.backLinked|
  }

  /** The state before the first allocation. */
  function Empty(): Ledger {
    Ledger(0, [], [])
  }

  function Sum(rs: seq<Record>): int {
    if rs == [] then 0 else rs[0].bytes + Sum(rs[1..])
  }

  /** The counter equals the recorded sizes, added up as `size_t`. */
  predicate Consistent(l: Ledger) {
    l.unfreed == ToSize(Sum(l.records))
  }

  /** Every `prev` pointer is right, as append alone leaves them. */
  predicate AllBackLinked(l: Ledger) {
    forall i :: 0 <= i < |l.backLinked| ==> l.backLinked[i]
  }

  /** Where getMemoryRef stops: the first record for `p`, or the end. */
  function FindPtr(rs: seq<Record>, p: Ptr): (i: nat)
    ensures i <= |rs|
    ensures forall j :: 0 <= j < i ==> rs[j].ptr != p
    ensures i < |rs| ==> rs[i].ptr == p
  {
    if rs == [] then 0
    else if rs[0].ptr == p then 0
    else 1 + FindPtr(rs[1..], p)
  }

  /** The lookup's stopping point is the only index with its two properties. */
  lemma FindPtrIs(rs: seq<Record>, p: Ptr, k: nat)
    requires k <= |rs|
    requires forall j :: 0 <= j < k ==> rs[j].ptr != p
    requires k < |rs| ==> rs[k].ptr == p
    ensures FindPtr(rs, p) == k
  {
  }

  /** The link flags after record `i` is unlinked: its successor's `prev` now names the freed record. */
  function Unlinked(bs: seq<bool>, i: nat): seq<bool>
    requires i < |bs|
  {
    var r := RemoveAt(bs, i);
    if i < |r| then r[i := false] else r
  }

  /** __wrap_malloc: the counter grows by `bytes`; a record with `bytes` as an `int` is appended. */
  function AfterMalloc(l: Ledger, bytes: SizeT, block: Ptr): Ledger {
    Ledger(ToSize(l.unfreed + bytes), l.records + [Record(block, ToInt(bytes))], l.backLinked + [true])
  }

  /** __wrap_calloc: as malloc of the wrapped product `nitems * size`. */
  function AfterCalloc(l: Ledger, nitems: SizeT, size: SizeT, block: Ptr): Ledger {
    AfterMalloc(l, ToSize(nitems * size), block)
  }

  /** __wrap_realloc: an untracked pointer changes nothing; a tracked one has its record rewritten. */
  function AfterRealloc(l: Ledger, oldPtr: Ptr, bytes: SizeT, block: Ptr): Ledger {
    var i := FindPtr(l.records, oldPtr);
    if i == |l.records| then l
    else Ledger(ToSize(l.unfreed - l.records[i].bytes + bytes),
                l.records[i := Record(block, ToInt(bytes))], l.backLinked)
  }

  /**
   * __wrap_free: an untracked pointer changes nothing. A tracked one lowers
   * the counter; its record leaves the list only when its `prev` pointer is
   * right, since the unlink writes through that pointer.
   */
  function AfterFree(l: Ledger, ptr: Ptr): Ledger
    requires WellFormed(l)
  {
    var i := FindPtr(l.records, ptr);
    if i == |l.records| then l
    else if l.backLinked[i] then
      Ledger(ToSize(l.unfreed - l.records[i].bytes), RemoveAt(l.records, i), Unlinked(l.backLinked, i))
    else Ledger(ToSize(l.unfreed - l.records[i].bytes), l.records, l.backLinked)
  }

  /**
   * __wrap_free with the unlink completed, as a doubly linked list needs:
   * the successor's `prev` is pointed at the node in front, so every flag
   * keeps its value.
   */
  function AfterFreeRepaired(l: Ledger, ptr: Ptr): Ledger
    requires WellFormed(l)
  {
    var i := FindPtr(l.records, ptr);
    if i == |l.records| then l
    else Ledger(ToSize(l.unfreed - l.records[i].bytes), RemoveAt(l.records, i), RemoveAt(l.backLinked, i))
  }

  /** resetMemoryTracking: the counter is zeroed; the list itself is left as it is. */
  function AfterReset(l: Ledger): Ledger {
    l.(unfreed := 0)
  }

  /** totalUnfreedMemory: the counter returned as an `int`. */
  function Total(l: Ledger): int {
    ToInt(l.unfreed)
  }

  // ---------------------------------------------------------------------------
  // Sums

  lemma {:induction false} SumAppend(rs: seq<Record>, r: Record)
    ensures Sum(rs + [r]) == Sum(rs) + r.bytes
  {
    if rs != [] {
      assert (rs + [r])[1..] == rs[1..] + [r];
      SumAppend(rs[1..], r);
    }
  }

  lemma {:induction false} SumUpdate(rs: seq<Record>, i: nat, r: Record)
    requires i < |rs|
    ensures Sum(rs[i := r]) == Sum(rs) - rs[i].bytes + r.bytes
  {
    if i > 0 {
      assert rs[i := r][1..] == rs[1..][i - 1 := r];
      SumUpdate(rs[1..], i - 1, r);
    }
  }

  lemma {:induction false} SumRemove(rs: seq<Record>, i: nat)
    requires i < |rs|
    ensures Sum(RemoveAt(rs, i)) == Sum(rs) - rs[i].bytes
  {
    if i > 0 {
      var r := RemoveAt(rs, i);
      assert r != [] && r[0] == rs[0] && r[1..] == RemoveAt(rs[1..], i - 1);
      SumRemove(rs[1..], i - 1);
      assert rs[1..][i - 1] == rs[i];
    } else {
      assert RemoveAt(rs, i) == rs[1..];
    }
  }

  /** Adding to a wrapped counter is adding before wrapping. */
  lemma ToSizeAdd(a: int, b: int)
    ensures ToSize(ToSize(a) + b) == ToSize(a + b)
  {
  }

  // ---------------------------------------------------------------------------
  // The ledger invariant

  /** Every wrapper keeps the flags one per record. */
  lemma WrappersKeepWellFormed(l: Ledger, p: Ptr, bytes: SizeT, block: Ptr)
    requires WellFormed(l)
    ensures WellFormed(AfterMalloc(l, bytes, block)) && WellFormed(AfterRealloc(l, p, bytes, block))
    ensures WellFormed(AfterFree(l, p)) && WellFormed(AfterReset(l))
  {
  }

  /** malloc keeps the counter equal to the records, for a size an `int` can hold. */
  lemma MallocKeepsConsistent(l: Ledger, bytes: SizeT, block: Ptr)
    requires Consistent(l) && bytes <= IntMax
    ensures Consistent(AfterMalloc(l, bytes, block))
  {
    SumAppend(l.records, Record(block, ToInt(bytes)));
    ToSizeAdd(Sum(l.records), bytes);
  }

  /** realloc keeps the counter equal to the records, for a size an `int` can hold. */
  lemma ReallocKeepsConsistent(l: Ledger, oldPtr: Ptr, bytes: SizeT, block: Ptr)
    requires Consistent(l) && bytes <= IntMax
    ensures Consistent(AfterRealloc(l, oldPtr, bytes, block))
  {
    var i := FindPtr(l.records, oldPtr);
    if i < |l.records| {
      SumUpdate(l.records, i, Record(block, ToInt(bytes)));
      ToSizeAdd(Sum(l.records), bytes - l.records[i].bytes);
    }
  }

  /** free keeps the counter equal to the records when the record's `prev` is right. */
  lemma FreeKeepsConsistent(l: Ledger, ptr: Ptr)
    requires WellFormed(l) && Consistent(l)
    requires var i := FindPtr(l.records, ptr); i < |l.records| ==> l.backLinked[i]
    ensures Consistent(AfterFree(l, ptr))
  {
    var i := FindPtr(l.records, ptr);
    if i < |l.records| {
      SumRemove(l.records, i);
      ToSizeAdd(Sum(l.records), -l.records[i].bytes);
    }
  }

  /**
   * With the successor's `prev` repaired, every free keeps the counter equal
   * to the records and every `prev` pointer right, so a ledger built by
   * wrapped calls of `int`-sized blocks stays consistent.
   */
  lemma RepairedFreeKeepsInvariant(l: Ledger, ptr: Ptr)
    requires WellFormed(l) && Consistent(l) && AllBackLinked(l)
    ensures WellFormed(AfterFreeRepaired(l, ptr)) && AllBackLinked(AfterFreeRepaired(l, ptr))
    ensures Consistent(AfterFreeRepaired(l, ptr))
  {
    var i := FindPtr(l.records, ptr);
    if i < |l.records| {
      SumRemove(l.records, i);
      ToSizeAdd(Sum(l.records), -l.records[i].bytes);
    }
  }

  /** The two frees of `AdjacentFreesLeaveRecord`, repaired, empty the list and the counter. */
  lemma RepairedAdjacentFreesEmpty()
    ensures var l := AfterMalloc(AfterMalloc(Empty(), 8, 1), 16, 2);
            var r := AfterFreeRepaired(AfterFreeRepaired(l, 1), 2);
            r.unfreed == 0 && r.records == [] && Consistent(r)
  {
    var l := AfterMalloc(AfterMalloc(Empty(), 8, 1), 16, 2);
    assert l.records == [Record(1, 8), Record(2, 16)];
    var m := AfterFreeRepaired(l, 1);
    assert FindPtr(l.records, 1) == 0;
    assert m.records == [Record(2, 16)];
    assert FindPtr(m.records, 2) == 0;
  }

  /** Appending records leaves every `prev` pointer right. */
  lemma AllocationsKeepBackLinks(l: Ledger, p: Ptr, bytes: SizeT, block: Ptr)
    requires AllBackLinked(l)
    ensures AllBackLinked(AfterMalloc(l, bytes, block)) && AllBackLinked(AfterRealloc(l, p, bytes, block))
  {
  }

  /**
   * Freeing a record with a successor leaves that successor's `prev`
   * pointing at the freed record.
   */
  lemma FreeStrandsSuccessor(l: Ledger, ptr: Ptr)
    requires WellFormed(l)
    requires var i := FindPtr(l.records, ptr); i + 1 < |l.records| && l.backLinked[i]
    ensures var i := FindPtr(l.records, ptr);
            AfterFree(l, ptr).records[i] == l.records[i + 1] && !AfterFree(l, ptr).backLinked[i]
  {
  }

  /**
   * The ledgers along malloc(8) at 1, malloc(16) at 2, free(1) and free(2):
   * the first free strands the second record's `prev`, so the second free
   * lowers the counter but leaves the record listed.
   */
  lemma AdjacentFreesSteps()
    ensures AfterMalloc(Empty(), 8, 1) == Ledger(8, [Record(1, 8)], [true])
    ensures AfterMalloc(Ledger(8, [Record(1, 8)], [true]), 16, 2) ==
            Ledger(24, [Record(1, 8), Record(2, 16)], [true, true])
    ensures AfterFree(Ledger(24, [Record(1, 8), Record(2, 16)], [true, true]), 1) ==
            Ledger(16, [Record(2, 16)], [false])
    ensures AfterFree(Ledger(16, [Record(2, 16)], [false]), 2) == Ledger(0, [Record(2, 16)], [false])
  {
    assert FindPtr([Record(1, 8), Record(2, 16)], 1) == 0;
    assert RemoveAt([Record(1, 8), Record(2, 16)], 0) == [Record(2, 16)];
    assert Unlinked([true, true], 0) == [false];
    assert FindPtr([Record(2, 16)], 2) == 0;
  }

  /**
   * Two wrapped allocations freed in order: the second free writes through
   * the stale `prev`, so its record stays listed while the counter reads 0.
   */
  lemma AdjacentFreesLeaveRecord()
    ensures var l := AfterMalloc(AfterMalloc(Empty(), 8, 1), 16, 2);
            var r := AfterFree(AfterFree(l, 1), 2);
            Consistent(l) && r.unfreed == 0 && r.records == [Record(2, 16)] && !Consistent(r)
  {
    AdjacentFreesSteps();
    assert Sum([Record(2, 16)]) == 16;
    assert Sum([Record(1, 8), Record(2, 16)]) == 24 by {
      assert [Record(1, 8), Record(2, 16)][1..] == [Record(2, 16)];
    }
  }

  /**
   * A 2 GiB malloc is recorded as a negative `int`, so freeing it leaves
   * 4 GiB on the counter.
   */
  lemma OversizedBlockMiscounted()
    ensures var l := AfterMalloc(Empty(), IntMax + 1, 1);
            l.records == [Record(1, -IntMax - 1)] &&
            AfterFree(l, 1).unfreed == 2 * (IntMax + 1) && AfterFree(l, 1).records == []
  {
    var l := AfterMalloc(Empty(), IntMax + 1, 1);
    assert FindPtr(l.records, 1) == 0;
  }

  /** After a reset the counter reads 0 even though every record is still listed. */
  lemma ResetKeepsRecords(l: Ledger)
    ensures Total(AfterReset(l)) == 0 && AfterReset(l).records == l.records
    ensures Consistent(AfterReset(l)) <==> ToSize(Sum(l.records)) == 0
  {
  }

  /** When the sizes fit an `int`, totalUnfreedMemory reports their sum. */
  lemma TotalIsSum(l: Ledger)
    requires Consistent(l) && 0 <= Sum(l.records) <= IntMax
    ensures Total(l) == Sum(l.records)
  {
  }
}
