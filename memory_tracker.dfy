/**
 * tests/MemoryTracker.c as a class: the globals `unfreedMemory` and
 * `MemTrackerHead` become the fields of one `Tracker`, and the MemoryRef
 * structs become objects whose `next` and `prev` pointers the wrappers
 * write in place. The ghost `chain` lists the head and then the records in
 * link order, `records` and `backLinked` their values, so each method is
 * proved against the ledger functions of `MemoryLedger`. The ghost `gone`
 * collects the records the free wrapper has unlinked: a `prev` pointer
 * that is no longer right points into it.
 */
module MemoryTracker {
  import opened Sequences
  import opened MemoryLedger

  /** One MemoryRef. */
  class MemoryRef {
    var ptr: Ptr
    var bytes: int
    var next: MemoryRef?
    var prev: MemoryRef?

    /** Allocation and the compound literal that fills in `ptr` and `bytes` and zeroes the links. */
    constructor (ptr: Ptr, bytes: int)
      ensures this.ptr == ptr && this.bytes == bytes
      ensures next == null && prev == null
    {
      this.ptr := ptr;
      this.bytes := bytes;
      next := null;
      prev := null;
    }
  }

  /** The node that should follow `c[i]`, or null after the last. */
  function After(c: seq<MemoryRef>, i: nat): MemoryRef? {
    if i + 1 < |c| then c[i + 1] else null
  }

  /** Each node of `c` points forward to the next one, and the last to null. */
  ghost predicate Linked(c: seq<MemoryRef>)
    reads c`next
  {
    forall i {:trigger c[i].next} :: 0 <= i < |c| ==> c[i].next == After(c, i)
  }

  /** `rs` holds the fields of the nodes after the head `c[0]`. */
  ghost predicate Mirrors(c: seq<MemoryRef>, rs: seq<Record>)
    reads c`ptr, c`bytes
  {
    |c| == |rs| + 1 &&
    forall i :: 0 <= i < |rs| ==> rs[i] == Record(c[i + 1].ptr, c[i + 1].bytes)
  }

  /**
   * `bs[i]` says whether record `i`'s `prev` is the node in front of it;
   * when it is not, it is a record the free wrapper has unlinked.
   */
  ghost predicate BackLinks(c: seq<MemoryRef>, bs: seq<bool>, gone: set<MemoryRef>)
    reads c`prev
  {
    |c| == |bs| + 1 &&
    forall i :: 0 <= i < |bs| ==>
      (bs[i] <==> c[i + 1].prev == c[i]) && (!bs[i] ==> c[i + 1].prev in gone)
  }

  /** The links after `c[K].prev.next := c[K].next` with a right `prev`: every other node is untouched. */
  ghost predicate Unhooked(c: seq<MemoryRef>, K: nat)
    reads c`next
    requires 1 <= K < |c|
  {
    (forall i {:trigger c[i].next} :: 0 <= i < |c| && i != K - 1 ==> c[i].next == After(c, i)) &&
    c[K - 1].next == After(c, K)
  }

  class Tracker {
    var unfreedMemory: SizeT
    var head: MemoryRef?
    ghost var chain: seq<MemoryRef>
    ghost var records: seq<Record>
    ghost var backLinked: seq<bool>
    ghost var gone: set<MemoryRef>

    ghost predicate Valid()
      reads this`head, this`chain, this`records, this`backLinked, this`gone, chain
    {
      (head == null ==> chain == [] && records == [] && backLinked == []) &&
      (head != null ==>
        |chain| == |records| + 1 && chain[0] == head &&
        Distinct(chain) && Linked(chain) && Mirrors(chain, records) && BackLinks(chain, backLinked, gone)) &&
      forall i :: 0 <= i < |chain| ==> chain[i] !in gone
    }

    /** The ledger the fields hold. */
    ghost function View(): Ledger
      reads this
    {
      Ledger(unfreedMemory, records, backLinked)
    }

    /** The nodes of the chain, as a set: what the wrappers may change. */
    ghost function Nodes(): set<MemoryRef>
      reads this
    {
      set n | n in chain
    }

    /** The globals' initial values: nothing counted, no head yet. */
    constructor ()
      ensures Valid() && View() == Empty() && head == null && gone == {} && chain == []
    {
      unfreedMemory := 0;
      head := null;
      chain := [];
      records := [];
      backLinked := [];
      gone := {};
    }

    /** addMemoryRef: walks to the last node and links `newRef` after it. */
    method AddMemoryRef(newRef: MemoryRef)
      requires Valid() && head != null && newRef !in chain && newRef !in gone
      modifies this, chain, newRef
      ensures Valid() && head == old(head) && gone == old(gone)
      ensures chain == old(chain) + [newRef]
      ensures View() == old(View()).(records := old(records) + [Record(newRef.ptr, newRef.bytes)],
                                     backLinked := old(backLinked) + [true])
      ensures newRef.ptr == old(newRef.ptr) && newRef.bytes == old(newRef.bytes)
    {
      var previous := head;
      var current := head.next;
      ghost var k := 0;
      while current != null
        invariant 0 <= k < |chain| && previous == chain[k] && current == After(chain, k)
        decreases |chain| - k
      {
        previous := current;
        current := current.next;
        k := k + 1;
      }
      ghost var c := chain;
      newRef.next := null;
      newRef.prev := previous;
      previous.next := newRef;
      chain := c + [newRef];
      records := records + [Record(newRef.ptr, newRef.bytes)];
      backLinked := backLinked + [true];
      AppendedValid(c, newRef);
    }

    /** getMemoryRef: the first record after the head that tracks `memoryLoc`, or null. */
    method GetMemoryRef(memoryLoc: Ptr) returns (r: MemoryRef?)
      requires Valid() && head != null
      ensures r == null <==> FindPtr(records, memoryLoc) == |records|
      ensures FindPtr(records, memoryLoc) < |records| ==> r == chain[FindPtr(records, memoryLoc) + 1]
    {
      r := head.next;
      ghost var k := 0;
      while r != null && r.ptr != memoryLoc
        invariant 0 <= k <= |records| && r == After(chain, k)
        invariant forall j :: 0 <= j < k ==> records[j].ptr != memoryLoc
        decreases |records| - k
      {
        r := r.next;
        k := k + 1;
      }
      FindPtrIs(records, memoryLoc, k);
    }

    /**
     * resetMemoryTracking: zeroes the counter and releases the node in
     * front of every node from the second record on, reached through its
     * `prev` pointer. The list itself is left as it was.
     */
    method Reset() returns (ghost released: seq<MemoryRef>)
      requires Valid() && head != null && head.next != null
      modifies this
      ensures Valid() && chain == old(chain) && head == old(head) && gone == old(gone)
      ensures View() == AfterReset(old(View()))
      ensures |released| == |records| - 1
      ensures forall i :: 0 <= i < |released| ==> released[i] == chain[i + 2].prev
      ensures AllBackLinked(View()) ==> released == chain[1..|chain| - 1]
    {
      unfreedMemory := 0;
      var current := head.next;
      ghost var k := 1;
      released := [];
      while current.next != null
        invariant 1 <= k < |chain| && current == chain[k]
        invariant |released| == k - 1
        invariant forall i :: 0 <= i < k - 1 ==> released[i] == chain[i + 2].prev
        decreases |chain| - k
      {
        current := current.next;
        k := k + 1;
        released := released + [current.prev];
      }
      assert k == |chain| - 1;
    }

    /** totalUnfreedMemory: the counter as an `int`. */
    method TotalUnfreedMemory() returns (n: int)
      requires Valid()
      ensures n == Total(View())
    {
      n := ToInt(unfreedMemory);
    }

    /** Creates the head on first use, as both allocating wrappers do. */
    method EnsureHead()
      requires Valid()
      modifies this
      ensures Valid() && head != null && View() == old(View()) && gone == old(gone)
      ensures old(head) != null ==> head == old(head) && chain == old(chain)
      ensures old(head) == null ==> fresh(head) && chain == [head]
    {
      if head == null {
        head := new MemoryRef(0, 0);
        chain := [head];
      }
    }

    /** __wrap_malloc: `block` is what the real malloc returned for `bytes`. */
    method Malloc(bytes: SizeT, block: Ptr) returns (p: Ptr)
      requires Valid()
      modifies this, chain
      ensures Valid() && head != null && gone == old(gone)
      ensures View() == AfterMalloc(old(View()), bytes, block)
      ensures p == block
      ensures fresh(Nodes() - old(Nodes()))
    {
      EnsureHead();
      unfreedMemory := ToSize(unfreedMemory + bytes);
      var newRef := new MemoryRef(block, ToInt(bytes));
      AddMemoryRef(newRef);
      p := block;
    }

    /** __wrap_calloc: `block` is what the real calloc returned for `nitems` items of `size` bytes. */
    method Calloc(nitems: SizeT, size: SizeT, block: Ptr) returns (p: Ptr)
      requires Valid()
      modifies this, chain
      ensures Valid() && head != null && gone == old(gone)
      ensures View() == AfterCalloc(old(View()), nitems, size, block)
      ensures p == block
      ensures fresh(Nodes() - old(Nodes()))
    {
      EnsureHead();
      var totalBytes := ToSize(nitems * size);
      unfreedMemory := ToSize(unfreedMemory + totalBytes);
      var newRef := new MemoryRef(block, ToInt(totalBytes));
      AddMemoryRef(newRef);
      p := block;
    }

    /** __wrap_realloc: `block` is what the real realloc returned for `oldPtr` and `bytes`. */
    method Realloc(oldPtr: Ptr, bytes: SizeT, block: Ptr) returns (p: Ptr)
      requires Valid() && head != null
      modifies this, chain
      ensures Valid() && head == old(head) && chain == old(chain) && gone == old(gone)
      ensures View() == AfterRealloc(old(View()), oldPtr, bytes, block)
      ensures p == block
    {
      var oldRef := GetMemoryRef(oldPtr);
      if oldRef == null {
        return block;
      }
      ghost var i, c, rs := FindPtr(records, oldPtr), chain, records;
      unfreedMemory := ToSize(unfreedMemory - oldRef.bytes + bytes);
      Rewrite(oldRef, block, ToInt(bytes), c, rs, i);
      records := rs[i := Record(block, ToInt(bytes))];
      p := block;
    }

    /** `oldRef->ptr = tempPtr; oldRef->bytes = bytes`: record `i` of the list now holds the new values. */
    method Rewrite(oldRef: MemoryRef, block: Ptr, bytes: int, ghost c: seq<MemoryRef>, ghost rs: seq<Record>, ghost i: nat)
      requires Distinct(c) && Mirrors(c, rs) && i < |rs| && oldRef == c[i + 1]
      modifies oldRef`ptr, oldRef`bytes
      ensures Mirrors(c, rs[i := Record(block, bytes)])
    {
      oldRef.ptr := block;
      oldRef.bytes := bytes;
      forall j | 0 <= j < |rs| && j != i ensures rs[j] == Record(c[j + 1].ptr, c[j + 1].bytes) {
        assert c[j + 1] != c[i + 1];
      }
    }

    /**
     * __wrap_free: lowers the counter by the record's size and unhooks the
     * record through its `prev` pointer.
     */
    method Free(ptr: Ptr)
      requires Valid() && head != null
      modifies this, chain, gone
      ensures Valid() && head == old(head) && old(gone) <= gone
      ensures View() == AfterFree(old(View()), ptr)
      ensures Nodes() <= old(Nodes()) && gone <= old(gone) + old(Nodes())
    {
      var oldRef := GetMemoryRef(ptr);
      if oldRef == null {
        return;
      }
      ghost var i, c := FindPtr(records, ptr), chain;
      unfreedMemory := ToSize(unfreedMemory - oldRef.bytes);
      Unhook(oldRef, i);
      RemoveAtElements(c, i + 1);
    }

    /**
     * `oldRef->prev->next = oldRef->next`: with a right `prev` the record
     * leaves the list and its successor's `prev` goes stale; with a stale
     * one the write lands in an unlinked record and the list is unchanged.
     */
    method Unhook(oldRef: MemoryRef, ghost i: nat)
      requires Valid() && head != null && i < |records| && oldRef == chain[i + 1]
      modifies chain, gone, this
      ensures Valid() && head == old(head) && unfreedMemory == old(unfreedMemory) && old(gone) <= gone
      ensures old(backLinked[i]) ==> records == RemoveAt(old(records), i) && backLinked == Unlinked(old(backLinked), i)
      ensures !old(backLinked[i]) ==> records == old(records) && backLinked == old(backLinked)
      ensures old(backLinked[i]) ==> chain == RemoveAt(old(chain), i + 1) && gone == old(gone) + {oldRef}
      ensures !old(backLinked[i]) ==> chain == old(chain) && gone == old(gone)
    {
      ghost var c, rs, bs, g := chain, records, backLinked, gone;
      var previous := oldRef.prev;
      assert (bs[i] ==> previous == c[i]) && (!bs[i] ==> previous in g && previous !in c);
      previous.next := oldRef.next;
      if bs[i] {
        assert Unhooked(c, i + 1);
        chain := RemoveAt(c, i + 1);
        records := RemoveAt(rs, i);
        backLinked := Unlinked(bs, i);
        gone := g + {oldRef};
        UnlinkedValid(c, rs, bs, g, i);
      } else {
        assert Linked(c) && Mirrors(c, rs) && BackLinks(c, bs, g);
      }
    }

    // -------------------------------------------------------------------------
    // The invariant after the pointer writes

    lemma AppendedValid(c: seq<MemoryRef>, n: MemoryRef)
      requires 1 <= |c| && chain == c + [n] && head == c[0]
      requires |c| == |records| && Distinct(c) && n !in c && n !in gone
      requires forall i :: 0 <= i < |c| ==> c[i] !in gone
      requires forall i {:trigger c[i].next} :: 0 <= i < |c| - 1 ==> c[i].next == After(c, i)
      requires c[|c| - 1].next == n && n.next == null && n.prev == c[|c| - 1]
      requires Mirrors(c, records[..|records| - 1]) && records[|records| - 1] == Record(n.ptr, n.bytes)
      requires |backLinked| == |records| && backLinked[|records| - 1]
      requires BackLinks(c, backLinked[..|records| - 1], gone)
      ensures Valid()
    {
      assert Linked(chain) by {
        forall i | 0 <= i < |chain| ensures chain[i].next == After(chain, i) {
          if i < |c| - 1 {
            assert chain[i] == c[i] && After(chain, i) == After(c, i);
          }
        }
      }
    }

    lemma UnlinkedValid(c: seq<MemoryRef>, rs: seq<Record>, bs: seq<bool>, g: set<MemoryRef>, i: nat)
      requires i + 1 < |c| && chain == RemoveAt(c, i + 1) && head == c[0]
      requires Distinct(c) && Mirrors(c, rs) && BackLinks(c, bs, g)
      requires forall j :: 0 <= j < |c| ==> c[j] !in g
      requires bs[i] && gone == g + {c[i + 1]}
      requires records == RemoveAt(rs, i) && backLinked == Unlinked(bs, i)
      requires Unhooked(c, i + 1)
      ensures Valid()
    {
      assert Linked(chain) by {
        forall j | 0 <= j < |chain| ensures chain[j].next == After(chain, j) {
          if j < i {
            assert chain[j] == c[j] && After(chain, j) == After(c, j);
          } else if j == i {
            assert chain[j] == c[i] && After(chain, j) == After(c, i + 1);
          } else {
            assert chain[j] == c[j + 1] && After(chain, j) == After(c, j + 1);
          }
        }
      }
      assert BackLinks(chain, backLinked, gone) by {
        forall j | 0 <= j < |backLinked|
          ensures (backLinked[j] <==> chain[j + 1].prev == chain[j])
          ensures !backLinked[j] ==> chain[j + 1].prev in gone
        {
          if j < i {
            assert chain[j + 1] == c[j + 1] && chain[j] == c[j] && backLinked[j] == bs[j];
          } else if j == i {
            assert chain[j + 1] == c[i + 2] && chain[j] == c[i] && !backLinked[j];
            assert c[i + 1] != c[i];
          } else {
            assert chain[j + 1] == c[j + 2] && chain[j] == c[j + 1] && backLinked[j] == bs[j + 1];
          }
        }
      }
      assert Distinct(chain);
      assert Mirrors(chain, records) by {
        forall j | 0 <= j < |records| ensures records[j] == Record(chain[j + 1].ptr, chain[j + 1].bytes) {
          if j >= i {
            assert chain[j + 1] == c[j + 2] && records[j] == rs[j + 1];
          }
        }
      }
    }
  }

  /** malloc(8) at 1 then malloc(16) at 2 on a new tracker: two listed, back-linked records. */
  method TwoMallocs() returns (t: Tracker)
    ensures fresh(t) && t.Valid() && t.head != null && t.gone == {}
    ensures forall i | 0 <= i < |t.chain| :: fresh(t.chain[i])
    ensures t.View() == Ledger(24, [Record(1, 8), Record(2, 16)], [true, true])
  {
    t := new Tracker();
    var _ := t.Malloc(8, 1);
    var _ := t.Malloc(16, 2);
  }

  /**
   * `TwoMallocs` followed by free(1): the first record is unlinked, and the
   * second record's `prev` now names the released one.
   */
  method TwoMallocsFirstFreed() returns (t: Tracker)
    ensures fresh(t) && t.Valid() && t.head != null && fresh(t.gone)
    ensures forall i | 0 <= i < |t.chain| :: fresh(t.chain[i])
    ensures t.View() == Ledger(16, [Record(2, 16)], [false])
  {
    t := TwoMallocs();
    t.Free(1);
    assert t.View() == Ledger(16, [Record(2, 16)], [false]) by { AdjacentFreesSteps(); }
  }

  /**
   * The two adjacent frees of `AdjacentFreesLeaveRecord`, through the
   * class's contracts: after malloc(8) at 1, malloc(16) at 2, free(1) and
   * free(2), totalUnfreedMemory reports 0 while the second record is still
   * listed.
   */
  method AdjacentFreesThroughTracker() returns (t: Tracker, total: int)
    ensures t.Valid() && t.records == [Record(2, 16)] && total == 0
  {
    t := TwoMallocsFirstFreed();
    t.Free(2);
    total := t.TotalUnfreedMemory();
    assert t.View() == Ledger(0, [Record(2, 16)], [false]) by { AdjacentFreesSteps(); }
  }
}
