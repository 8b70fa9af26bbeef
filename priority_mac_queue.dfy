/**
 * PriorityMacQueue.c as a class: the globals `queueHead` and `length`
 * become the fields of one `MacQueue`, every public function one atomic
 * method (each runs under the queue mutex in the source), and the linked
 * PriorityMacElement structs become `Node` objects whose `next` pointers
 * the methods rewrite in place. The ghost `chain` lists the sentinel and
 * then the nodes after it in link order, and `entries` the field values of
 * those nodes, so each method is proved against the value-level functions
 * of `MacQueueModel`.
 */
module PriorityMacQueue {
  import Sequences
  import opened MacAddress
  import opened MacQueueModel

  /** One PriorityMacElement. */
  class Node {
    var next: Node?
    var mac: seq<Byte>
    var packets: int
    var lastUpdated: real
    var priority: real

    /** calloc followed by the field assignments of enqueueMac. */
    constructor (mac: seq<Byte>, packets: int, lastUpdated: real, priority: real)
      ensures this.mac == mac && this.packets == packets
      ensures this.lastUpdated == lastUpdated && this.priority == priority
      ensures next == null
    {
      this.mac := mac;
      this.packets := packets;
      this.lastUpdated := lastUpdated;
      this.priority := priority;
      next := null;
    }
  }

  /** The node that should follow `c[i]` in a chain, or null after the last. */
  function After(c: seq<Node>, i: nat): Node? {
    if i + 1 < |c| then c[i + 1] else null
  }

  /** Each node of `c` points to the next one, and the last to null. */
  ghost predicate Linked(c: seq<Node>)
    reads c`next
  {
    forall i {:trigger c[i].next} :: 0 <= i < |c| ==> c[i].next == After(c, i)
  }

  /** `es` holds the fields of the nodes after the sentinel `c[0]`. */
  ghost predicate Mirrors(c: seq<Node>, es: seq<Entry>)
    reads c`mac, c`packets, c`lastUpdated, c`priority
  {
    |c| == |es| + 1 &&
    forall i {:trigger es[i]} :: 0 <= i < |es| ==>
      es[i] == Entry(c[i + 1].mac, c[i + 1].packets, c[i + 1].lastUpdated, c[i + 1].priority)
  }

  predicate AllStored(es: seq<Entry>) {
    forall i :: 0 <= i < |es| ==> StoredMac(es[i].mac)
  }

  // ---------------------------------------------------------------------------
  // The chain after the three pointer writes of a relink

  /** Moving elements keeps them distinct. */
  lemma DistinctAfterMove<T>(s: seq<T>, k: nat, j: nat)
    requires Sequences.Distinct(s) && k < |s| && j <= |s| && j != k
    ensures Sequences.Distinct(Move(s, k, j))
  {
    MoveAt(s, k, j);
  }

  /** Moving a node and its entry together keeps the chain and the entries in step. */
  lemma MirrorsAfterMove(c: seq<Node>, es: seq<Entry>, k: nat, j: nat)
    requires Mirrors(c, es) && k < |es| && j <= |es| && j != k
    ensures Move(c, k + 1, j + 1)[0] == c[0]
    ensures Mirrors(Move(c, k + 1, j + 1), Move(es, k, j))
  {
    var r, rs := Move(c, k + 1, j + 1), Move(es, k, j);
    MoveAtIndex(c, k + 1, j + 1, 0);
    forall i | 0 <= i < |rs|
      ensures rs[i] == Entry(r[i + 1].mac, r[i + 1].packets, r[i + 1].lastUpdated, r[i + 1].priority)
    {
      MirrorsAfterMoveAt(c, es, k, j, r, rs, i);
    }
  }

  /** One index of the moved chain and entries: the entry is the moved node's fields. */
  lemma MirrorsAfterMoveAt(c: seq<Node>, es: seq<Entry>, k: nat, j: nat, r: seq<Node>, rs: seq<Entry>, i: nat)
    requires Mirrors(c, es) && k < |es| && j <= |es| && j != k
    requires r == Move(c, k + 1, j + 1) && rs == Move(es, k, j) && i < |rs|
    ensures i + 1 < |r| && rs[i] == Entry(r[i + 1].mac, r[i + 1].packets, r[i + 1].lastUpdated, r[i + 1].priority)
  {
    var m := MoveSource(k, j, i);
    assert m < |es| && rs[i] == es[m] by {
      MoveAtIndex(es, k, j, i);
    }
    assert i + 1 < |r| && r[i + 1] == c[m + 1] by {
      MoveAtIndex(c, k + 1, j + 1, i + 1);
      MoveSourceShift(k, j, i);
    }
    MirrorsOne(c, es, m, r[i + 1], rs[i]);
  }

  /** The node at `m + 1` of a mirrored chain carries entry `m`. */
  lemma MirrorsOne(c: seq<Node>, es: seq<Entry>, m: nat, n: Node, e: Entry)
    requires Mirrors(c, es) && m < |es| && n == c[m + 1] && e == es[m]
    ensures e == Entry(n.mac, n.packets, n.lastUpdated, n.priority)
  {
  }

  /** Moving entries keeps every address a stored one. */
  lemma AllStoredAfterMove(es: seq<Entry>, k: nat, j: nat)
    requires AllStored(es) && k < |es| && j <= |es| && j != k
    ensures AllStored(Move(es, k, j))
  {
    MoveAt(es, k, j);
  }

  /**
   * The links after `c[K - 1].next := c[K].next; c[K].next := c[J - 1].next;
   * c[J - 1].next := c[K]`, stated as the pointers they leave behind: every
   * other node is untouched.
   */
  ghost predicate Spliced(c: seq<Node>, K: nat, J: nat)
    reads c`next
    requires 1 <= K < |c| && 1 <= J <= |c|
  {
    (forall i {:trigger c[i].next} :: 0 <= i < |c| && i != K - 1 && i != K && i != J - 1 ==> c[i].next == After(c, i)) &&
    c[K - 1].next == After(c, K) &&
    (J == K + 1 ==> c[K].next == c[K]) &&
    (J != K + 1 ==> c[K].next == After(c, J - 1) && c[J - 1].next == c[K])
  }

  /**
   * The links after `n.next := c[0].next; c[0].next := n`: every other node
   * of `c` is untouched.
   */
  ghost predicate Pushed(c: seq<Node>, n: Node)
    reads c`next, n`next
    requires 1 <= |c|
  {
    (forall i {:trigger c[i].next} :: 1 <= i < |c| ==> c[i].next == After(c, i)) &&
    c[0].next == n && n.next == After(c, 0)
  }

  lemma LinkedAfterPush(c: seq<Node>, n: Node)
    requires 1 <= |c| && Pushed(c, n)
    ensures Linked([c[0], n] + c[1..])
  {
    var r := [c[0], n] + c[1..];
    forall i | 0 <= i < |r| ensures r[i].next == After(r, i) {
      if 2 <= i {
        assert r[i] == c[i - 1] && After(r, i) == After(c, i - 1);
      }
    }
  }

  /** Moving a node and its entry together keeps the chain distinct and in step with the entries. */
  lemma ChainAfterMove(c: seq<Node>, es: seq<Entry>, k: nat, j: nat)
    requires |c| == |es| + 1 && k < |es| && j <= |es| && j != k
    requires Sequences.Distinct(c) && Mirrors(c, es) && AllStored(es)
    ensures |Move(c, k + 1, j + 1)| == |Move(es, k, j)| + 1 && Move(c, k + 1, j + 1)[0] == c[0]
    ensures |Move(es, k, j)| == |es| - (if j == k + 1 then 1 else 0)
    ensures Sequences.Distinct(Move(c, k + 1, j + 1))
    ensures Mirrors(Move(c, k + 1, j + 1), Move(es, k, j)) && AllStored(Move(es, k, j))
  {
    DistinctAfterMove(c, k + 1, j + 1);
    MirrorsAfterMove(c, es, k, j);
    AllStoredAfterMove(es, k, j);
  }

  /** The links Splice's three writes leave are those of the moved chain. */
  lemma LinkedAfterSplice(c: seq<Node>, K: nat, J: nat)
    requires 1 <= K < |c| && 1 <= J <= |c| && J != K && Spliced(c, K, J)
    ensures Linked(Move(c, K, J))
  {
    if J == K + 1 {
      LinkedAfterSelfLoop(c, K, J);
    } else if J < K {
      LinkedAfterMoveAhead(c, K, J);
    } else {
      LinkedAfterMoveBehind(c, K, J);
    }
  }

  /** The scan stopped just past the moved node: it points to itself and drops out. */
  lemma LinkedAfterSelfLoop(c: seq<Node>, K: nat, J: nat)
    requires 1 <= K < |c| && J == K + 1 && Spliced(c, K, J)
    ensures Linked(Move(c, K, J))
  {
    MoveAt(c, K, J);
  }

  /** The scan stopped in front of the moved node. */
  lemma LinkedAfterMoveAhead(c: seq<Node>, K: nat, J: nat)
    requires 1 <= J < K < |c| && Spliced(c, K, J)
    ensures Linked(Move(c, K, J))
  {
    var r := Move(c, K, J);
    MoveAt(c, K, J);
    forall i | 0 <= i < |r| ensures r[i].next == After(r, i) {
      if i == J - 1 {
        assert r[i] == c[J - 1] && r[i + 1] == c[K];
      } else if i == J {
        assert r[i] == c[K] && r[i + 1] == c[J];
      } else if i == K {
        assert r[i] == c[K - 1];
      }
    }
  }

  /** The scan stopped further behind the moved node. */
  lemma LinkedAfterMoveBehind(c: seq<Node>, K: nat, J: nat)
    requires 1 <= K && K + 1 < J <= |c| && Spliced(c, K, J)
    ensures Linked(Move(c, K, J))
  {
    var r := Move(c, K, J);
    MoveAt(c, K, J);
    forall i | 0 <= i < |r| ensures r[i].next == After(r, i) {
      if i == K - 1 {
        assert r[i] == c[K - 1] && r[i + 1] == c[K + 1];
      } else if i == J - 2 {
        assert r[i] == c[J - 1] && r[i + 1] == c[K];
      } else if i == J - 1 {
        assert r[i] == c[K];
      }
    }
  }

  class MacQueue {
    /** NETFREE_REVCOUNT_WEIGHT and NETFREE_TIMEDELTA_WEIGHT. */
    const weights: Weights
    /** queueHead: the sentinel, null before initMacQueue and after destroyMacQueue. */
    var head: Node?
    /** length: the number of entries allocated since initMacQueue. */
    var length: int

    /** The sentinel, then the nodes reachable after it, in link order. */
    ghost var chain: seq<Node>
    /** The fields of the nodes after the sentinel, front first. */
    ghost var entries: seq<Entry>
    /** Entries taken by dequeueMac, and entries unlinked by a relink onto themselves. */
    ghost var dequeued: nat
    ghost var dropped: nat

    /**
     * The sentinel heads a null-terminated chain of distinct nodes whose
     * fields are `entries`; every stored address is a six-byte strncpy
     * result; `length` counts the listed entries plus those dequeued or
     * dropped.
     */
    ghost predicate Valid()
      reads this, chain
    {
      |chain| == |entries| + 1 && chain[0] == head &&
      Sequences.Distinct(chain) && Linked(chain) && Mirrors(chain, entries) && AllStored(entries) &&
      length == |entries| + dequeued + dropped
    }

    /** The nodes of the chain, as a set: what Enqueue and Dequeue may change. */
    ghost function Nodes(): set<Node>
      reads this
    {
      set n | n in chain
    }

    /** The program's globals before initMacQueue: no sentinel, zero length. */
    constructor (weights: Weights)
      ensures this.weights == weights && head == null && length == 0
    {
      this.weights := weights;
      head := null;
      length := 0;
      chain := [];
      entries := [];
      dequeued := 0;
      dropped := 0;
    }

    /** initMacQueue: a fresh sentinel with nothing after it, and a zero length. */
    method Init()
      modifies this
      ensures Valid() && fresh(head) && chain == [head] && fresh(Nodes())
      ensures entries == [] && length == 0 && dequeued == 0 && dropped == 0
    {
      head := new Node([], 0, 0.0, 0.0);
      length := 0;
      chain := [head];
      entries := [];
      dequeued := 0;
      dropped := 0;
    }

    /**
     * destroyMacQueue: the walk that frees every node, the sentinel first
     * and the last node at the end; `released` lists them in the order freed.
     */
    method Destroy() returns (ghost released: seq<Node>)
      requires Valid()
      modifies this
      ensures released == old(chain)
      ensures head == null && chain == [] && entries == []
      ensures length == old(length) && dequeued == old(dequeued) && dropped == old(dropped)
    {
      var current: Node := head;
      ghost var i := 0;
      released := [];
      while current.next != null
        invariant i < |chain| && current == chain[i] && released == chain[..i]
        decreases |chain| - i
      {
        var previous := current;
        current := current.next;
        released := released + [previous];
        i := i + 1;
      }
      released := released + [current];
      assert released == chain;
      head := null;
      chain := [];
      entries := [];
    }

    /**
     * Lines 127-139 of enqueueMac: `found` is the index of the first entry
     * whose address equals `mac`, or the end, and `current` the node in front
     * of it. The `previous` it carries never leaves the sentinel, because the
     * insertion-point guard tests it for null.
     */
    method Lookup(mac: seq<Byte>, priority: int) returns (current: Node, previous: Node?, ghost found: nat)
      requires Valid() && |mac| == MacSize
      ensures found == Find(entries, mac)
      ensures current == chain[found] && current.next == After(chain, found)
      ensures previous == head
    {
      previous := head;
      current := head;
      found := 0;
      assert forall i :: 1 <= i < |chain| ==> |chain[i].mac| == MacSize by {
        forall i | 1 <= i < |chain| ensures |chain[i].mac| == MacSize {
          assert entries[i - 1].mac == chain[i].mac;
        }
      }
      while current.next != null && !MacEquals(current.next.mac, mac)
        invariant found < |chain| && current == chain[found] && previous == head
        invariant forall i :: 0 <= i < found ==> entries[i].mac != mac
        decreases |chain| - found
      {
        if current.next.priority < priority as real && previous == null {
          previous := current;
        }
        current := current.next;
        found := found + 1;
      }
      if previous == null {
        previous := current;
      }
      FindUnique(entries, mac, found);
    }

    /**
     * The relink scan of enqueueMac (line 151): `previous` is the node in
     * front of the first entry whose priority is below `p`, or the last node.
     */
    method ScanFor(p: real) returns (previous: Node, ghost stop: nat)
      requires Valid()
      ensures stop == ScanStop(entries, p)
      ensures previous == chain[stop] && previous.next == After(chain, stop)
    {
      previous := head;
      stop := 0;
      while previous.next != null && previous.next.priority >= p
        invariant stop < |chain| && previous == chain[stop]
        invariant forall i :: 0 <= i < stop ==> entries[i].priority >= p
        decreases |chain| - stop
      {
        previous := previous.next;
        stop := stop + 1;
      }
      ScanStopUnique(entries, p, stop);
    }

    /** The three field updates of a re-observed entry (lines 146-148). */
    method Bump(current: Node, ghost k: nat, t: real)
      requires Valid() && k < |entries| && current == chain[k + 1]
      modifies this, current
      ensures Valid()
      ensures entries == old(entries)[k := Bumped(old(entries)[k], weights, t)]
      ensures chain == old(chain) && head == old(head) && length == old(length)
      ensures dequeued == old(dequeued) && dropped == old(dropped)
    {
      current.packets := current.packets + 1;
      current.lastUpdated := t;
      current.priority := Score(weights, current.packets, t);
      entries := entries[k := Entry(current.mac, current.packets, current.lastUpdated, current.priority)];
      forall i | 0 <= i < |entries| && i != k
        ensures entries[i] == Entry(chain[i + 1].mac, chain[i + 1].packets, chain[i + 1].lastUpdated, chain[i + 1].priority)
      {
        assert chain[i + 1] != chain[k + 1];
      }
      assert entries[k].mac == old(entries)[k].mac;
    }

    /**
     * The three pointer writes that move the updated node `chain[k + 1]` in
     * front of entry `j` (lines 153-155). When the scan stopped just past the
     * node (`j == k + 1`) the node ends up pointing to itself and drops out
     * of the chain.
     */
    method Splice(oldPrevious: Node, current: Node, previous: Node, ghost k: nat, ghost j: nat)
      requires Valid() && k < |entries| && j <= |entries| && j != k
      requires oldPrevious == chain[k] && current == chain[k + 1] && previous == chain[j]
      modifies this, oldPrevious, current, previous
      ensures Valid()
      ensures entries == Move(old(entries), k, j) && head == old(head)
      ensures length == old(length) && dequeued == old(dequeued)
      ensures dropped == old(dropped) + (if j == k + 1 then 1 else 0)
      ensures Nodes() <= old(Nodes())
    {
      ghost var c, es := chain, entries;
      Rewire(oldPrevious, current, previous, c, k + 1, j + 1);
      ChainAfterMove(c, es, k, j);
      Commit(c, es, k, j);
      MoveKeepsElements(c, k + 1, j + 1);
    }

    /**
     * The three pointer writes of the relink, on a linked chain of distinct
     * nodes: they link the chain `Move(c, K, J)`.
     */
    method Rewire(oldPrevious: Node, current: Node, previous: Node, ghost c: seq<Node>, ghost K: nat, ghost J: nat)
      requires 1 <= K < |c| && 1 <= J <= |c| && J != K && Sequences.Distinct(c) && Linked(c)
      requires oldPrevious == c[K - 1] && current == c[K] && previous == c[J - 1]
      modifies oldPrevious`next, current`next, previous`next
      ensures Linked(Move(c, K, J))
    {
      oldPrevious.next := current.next;
      current.next := previous.next;
      previous.next := current;
      assert Spliced(c, K, J);
      LinkedAfterSplice(c, K, J);
    }

    /**
     * The ghost side of a relink: the chain and the entries become the moved
     * ones, and a node that dropped out is counted.
     */
    ghost method Commit(c: seq<Node>, es: seq<Entry>, k: nat, j: nat)
      requires |c| == |es| + 1 && k < |es| && j <= |es| && j != k && c[0] == head
      requires |Move(c, k + 1, j + 1)| == |Move(es, k, j)| + 1 && Move(c, k + 1, j + 1)[0] == c[0]
      requires |Move(es, k, j)| == |es| - (if j == k + 1 then 1 else 0)
      requires Sequences.Distinct(Move(c, k + 1, j + 1)) && Linked(Move(c, k + 1, j + 1))
      requires Mirrors(Move(c, k + 1, j + 1), Move(es, k, j)) && AllStored(Move(es, k, j))
      requires length == |es| + dequeued + dropped
      modifies this
      ensures Valid()
      ensures chain == Move(c, k + 1, j + 1) && entries == Move(es, k, j)
      ensures head == old(head) && length == old(length) && dequeued == old(dequeued)
      ensures dropped == old(dropped) + (if j == k + 1 then 1 else 0)
    {
      chain := Move(c, k + 1, j + 1);
      entries := Move(es, k, j);
      if j == k + 1 {
        dropped := dropped + 1;
      }
    }

    /** The new-entry path (lines 158-170): a fresh node linked after `previous`, the sentinel. */
    method LinkFirst(previous: Node, mac: seq<Byte>, t: real, priority: int)
      requires Valid() && previous == head && |mac| == MacSize
      modifies this, previous
      ensures Valid() && head == old(head)
      ensures entries == [Entry(StrncpyCopy(mac, MacSize), 1, t, priority as real)] + old(entries)
      ensures length == old(length) + 1 && dequeued == old(dequeued) && dropped == old(dropped)
      ensures fresh(Nodes() - old(Nodes()))
    {
      var current := new Node(StrncpyCopy(mac, MacSize), 1, t, priority as real);
      StoredMacIff(mac);
      ghost var c, es := chain, entries;
      current.next := previous.next;
      previous.next := current;
      assert Pushed(c, current) && Mirrors(c, es) && current !in c;
      chain := [head, current] + c[1..];
      entries := [Entry(current.mac, 1, t, priority as real)] + es;
      length := length + 1;
      PushedValid(c, es, current);
    }

    /** The invariant after LinkFirst, from the pointers it leaves. */
    lemma PushedValid(c: seq<Node>, es: seq<Entry>, n: Node)
      requires |c| == |es| + 1 && c[0] == head && n !in c
      requires Sequences.Distinct(c) && Pushed(c, n) && Mirrors(c, es) && AllStored(es)
      requires StoredMac(n.mac)
      requires chain == [head, n] + c[1..]
      requires entries == [Entry(n.mac, n.packets, n.lastUpdated, n.priority)] + es
      requires length == |es| + 1 + dequeued + dropped
      ensures Valid()
    {
      LinkedAfterPush(c, n);
      assert Sequences.Distinct(chain) by {
        forall x, y | 0 <= x < y < |chain| ensures chain[x] != chain[y] {
          if 2 <= x { assert chain[x] == c[x - 1] && chain[y] == c[y - 1]; }
          else if x == 1 { assert chain[y] == c[y - 1]; }
          else if y >= 2 { assert chain[y] == c[y - 1]; }
        }
      }
      assert Mirrors(chain, entries) by {
        forall i | 1 <= i < |entries|
          ensures entries[i] == Entry(chain[i + 1].mac, chain[i + 1].packets, chain[i + 1].lastUpdated, chain[i + 1].priority)
        {
          assert entries[i] == es[i - 1] && chain[i + 1] == c[i];
        }
      }
      assert AllStored(entries) by {
        forall i | 1 <= i < |entries| ensures StoredMac(entries[i].mac) {
          assert entries[i] == es[i - 1];
        }
      }
    }

    /**
     * enqueueMac: one observation of `mac` at `timestamp`, or at the clock
     * reading when `timestamp` is not positive. The list becomes `Upsert` of
     * the old one; `length` grows exactly when the address was not found, and
     * an entry the relink sends onto itself is counted as dropped.
     */
    method Enqueue(mac: seq<Byte>, timestamp: real, clock: real)
      requires Valid() && |mac| == MacSize
      modifies this, chain
      ensures Valid() && head == old(head)
      ensures entries == Upsert(old(entries), weights, mac, ReceiveTime(timestamp, clock))
      ensures length == old(length) + (if IsNew(old(entries), mac) then 1 else 0)
      ensures dropped == old(dropped) + (if Loses(old(entries), weights, mac, ReceiveTime(timestamp, clock)) then 1 else 0)
      ensures dequeued == old(dequeued)
      ensures fresh(Nodes() - old(Nodes()))
    {
      var timeReceived := ReceiveTime(timestamp, clock);
      var priority := TruncateToInt(Score(weights, 1, timeReceived));
      var current, previous, k := Lookup(mac, priority);
      if current.next != null {
        Reobserve(current, k, timeReceived);
      } else {
        LinkFirst(previous, mac, timeReceived, priority);
      }
    }

    /**
     * Lines 144-155 of enqueueMac: the entry at `k`, which follows `current`,
     * is bumped and relinked in front of the first entry that scores lower.
     */
    method Reobserve(current: Node, ghost k: nat, t: real)
      requires Valid() && k < |entries| && current == chain[k] && current.next == After(chain, k)
      modifies this, chain
      ensures Valid() && head == old(head)
      ensures entries == Relink(old(entries)[k := Bumped(old(entries)[k], weights, t)], k)
      ensures length == old(length) && dequeued == old(dequeued)
      ensures dropped == old(dropped) + (if StaysInPlace(old(entries)[k := Bumped(old(entries)[k], weights, t)], k) then 1 else 0)
      ensures Nodes() <= old(Nodes())
    {
      var found := current.next;
      Bump(found, k, t);
      var slot, j := ScanFor(found.priority);
      RelinkIsMove(entries, k);
      Splice(current, found, slot, k, j);
    }

    /**
     * macQueuePeek: null and an untouched buffer when the list is empty,
     * otherwise the buffer with the front entry's address in its first six
     * bytes. Neither the list nor `length` changes.
     */
    method Peek(buf: array<Byte>) returns (r: array?<Byte>)
      requires Valid() && MacSize <= buf.Length
      modifies buf
      ensures entries == [] ==> r == null && buf[..] == old(buf[..])
      ensures entries != [] ==> r == buf && buf[..MacSize] == entries[0].mac && buf[MacSize..] == old(buf[MacSize..])
    {
      if head.next == null {
        return null;
      }
      assert head.next == chain[1] && entries[0].mac == head.next.mac && StoredMac(entries[0].mac);
      StoredMacIff(head.next.mac);
      Strncpy(buf, head.next.mac, MacSize);
      return buf;
    }

    /** macQueueLength: the counter, which also counts the entries dequeued or dropped. */
    method Length() returns (n: int)
      requires Valid()
      ensures n == length && n == |entries| + dequeued + dropped && |entries| <= n
    {
      return length;
    }

    /**
     * dequeueMac: the front entry leaves the list and its address is copied
     * into the buffer (through a peek first when the buffer is not null). On
     * an empty list a non-null buffer is left as it was. The buffer must not
     * be null when the list is not empty, since the copy of line 232 does not
     * test it. `length` is not decremented.
     */
    method Dequeue(buf: array?<Byte>) returns (r: array?<Byte>)
      requires Valid() && (buf != null ==> MacSize <= buf.Length)
      requires entries != [] ==> buf != null
      modifies this, head, buf
      ensures Valid() && r == buf && head == old(head)
      ensures entries == if old(entries) == [] then [] else old(entries)[1..]
      ensures length == old(length) && dropped == old(dropped)
      ensures dequeued == old(dequeued) + (if old(entries) == [] then 0 else 1)
      ensures old(entries) != [] ==>
                buf[..MacSize] == old(entries)[0].mac && buf[MacSize..] == old(buf[MacSize..])
      ensures old(entries) == [] && buf != null ==> buf[..] == old(buf[..])
      ensures Nodes() <= old(Nodes())
    {
      if buf != null {
        var _ := Peek(buf);
      }
      if head.next != null {
        var top := head.next;
        assert top == chain[1];
        StoredMacIff(top.mac);
        head.next := top.next;
        Strncpy(buf, top.mac, MacSize);
        ghost var c, es := chain, entries;
        chain := [head] + c[2..];
        entries := es[1..];
        dequeued := dequeued + 1;
        PoppedValid(c, es);
      }
      r := buf;
    }

    /** The invariant after dequeueMac unlinks the front node. */
    lemma PoppedValid(c: seq<Node>, es: seq<Entry>)
      requires |c| == |es| + 1 && 2 <= |c| && c[0] == head
      requires Sequences.Distinct(c) && Mirrors(c, es) && AllStored(es)
      requires forall i {:trigger c[i].next} :: 2 <= i < |c| ==> c[i].next == After(c, i)
      requires head.next == After(c, 1)
      requires chain == [head] + c[2..] && entries == es[1..]
      requires length == |entries| + dequeued + dropped
      ensures Valid()
    {
      forall i | 1 <= i < |chain| ensures chain[i].next == After(chain, i) {
        assert chain[i] == c[i + 1] && After(chain, i) == After(c, i + 1);
      }
      assert Sequences.Distinct(chain) by {
        forall x, y | 0 <= x < y < |chain| ensures chain[x] != chain[y] {
          assert chain[y] == c[y + 1];
          if 0 < x { assert chain[x] == c[x + 1]; }
        }
      }
      assert Mirrors(chain, entries) by {
        forall i | 0 <= i < |entries|
          ensures entries[i] == Entry(chain[i + 1].mac, chain[i + 1].packets, chain[i + 1].lastUpdated, chain[i + 1].priority)
        {
          assert entries[i] == es[i + 1] && chain[i + 1] == c[i + 2];
        }
      }
      assert AllStored(entries) by {
        forall i | 0 <= i < |entries| ensures StoredMac(entries[i].mac) {
          assert entries[i] == es[i + 1];
        }
      }
    }
  }

  /**
   * Two calls of enqueueMac with the same address on a freshly initialised
   * queue, through the class's contracts alone: afterwards macQueuePeek
   * finds nothing, while macQueueLength reports 1.
   */
  method EnqueueTwiceOnFreshQueue(w: Weights, mac: seq<Byte>, t1: real, t2: real)
    returns (q: MacQueue, front: array?<Byte>, n: int)
    requires StoredMac(mac) && 0.0 < t1 && 0.0 < t2
    ensures q.Valid() && q.entries == [] && front == null && n == 1
  {
    q := new MacQueue(w);
    q.Init();
    q.Enqueue(mac, t1, 0.0);
    q.Enqueue(mac, t2, 0.0);
    SecondObservationEmptiesQueue(w, mac, t1, t2);
    var buf := new Byte[MacSize];
    front := q.Peek(buf);
    n := q.Length();
  }
}
