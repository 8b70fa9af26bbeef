/**
 * The MAC priority queue of PriorityMacQueue.c on values: the list of
 * entries after the sentinel, front first, and what one call of
 * `enqueueMac` does to it. `Upsert` is the code as written; `IntendedUpsert`
 * is the sorted-insertion rule its comments describe. The lemmas say where
 * the two agree, where they part, and what each keeps invariant.
 */
module MacQueueModel {
  import opened Sequences
  import opened MacAddress

  /** NETFREE_REVCOUNT_WEIGHT and NETFREE_TIMEDELTA_WEIGHT, fixed at compile time. */
  datatype Weights = Weights(revcount: real, timedelta: real)

  /** MAC_PRIORITY(timesReceived, lastReceived). */
  function Score(w: Weights, timesReceived: int, lastReceived: real): real {
    w.revcount * timesReceived as real + w.timedelta * lastReceived
  }

  /** C's conversion of a double to `int`: the fraction is dropped, toward zero. */
  function TruncateToInt(x: real): (r: int)
    ensures 0.0 <= x ==> 0 <= r && r as real <= x < r as real + 1.0
    ensures x < 0.0 ==> r <= 0 && r as real - 1.0 < x <= r as real
  {
    if 0.0 <= x then x.Floor else -((-x).Floor)
  }

  /** The time `enqueueMac` records: its argument, or the clock when that is not positive. */
  function ReceiveTime(timestamp: real, clock: real): real {
    if timestamp <= 0.0 then clock else timestamp
  }

  /** One PriorityMacElement: address, packetsReceived, lastUpdated, priority. */
  datatype Entry = Entry(mac: seq<Byte>, packets: int, lastUpdated: real, priority: real)

  /** A first-seen address: count 1, and the priority held in the `int` local of enqueueMac. */
  function FirstEntry(w: Weights, mac: seq<Byte>, t: real): (e: Entry)
    requires |mac| == MacSize
    ensures StoredMac(e.mac) && e.packets == 1 && e.lastUpdated == t
  {
    StoredMacIff(mac);
    Entry(StrncpyCopy(mac, MacSize), 1, t, TruncateToInt(Score(w, 1, t)) as real)
  }

  /** A re-observed entry: one more packet, restamped, re-scored at full precision. */
  function Bumped(e: Entry, w: Weights, t: real): Entry {
    Entry(e.mac, e.packets + 1, t, Score(w, e.packets + 1, t))
  }

  /** Where the lookup loop stops: the first entry whose address equals `mac`, or the end. */
  function Find(es: seq<Entry>, mac: seq<Byte>): (k: nat)
    ensures k <= |es|
    ensures forall i :: 0 <= i < k ==> es[i].mac != mac
    ensures k < |es| ==> es[k].mac == mac
  {
    if es == [] then 0
    else if es[0].mac == mac then 0
    else 1 + Find(es[1..], mac)
  }

  /** The address is not in the list, so enqueueMac allocates an entry. */
  predicate IsNew(es: seq<Entry>, mac: seq<Byte>) {
    Find(es, mac) == |es|
  }

  /** The lookup's stopping point is the only index with its two properties. */
  lemma FindUnique(es: seq<Entry>, mac: seq<Byte>, k: nat)
    requires k <= |es|
    requires forall i :: 0 <= i < k ==> es[i].mac != mac
    requires k < |es| ==> es[k].mac == mac
    ensures Find(es, mac) == k
  {
    var f := Find(es, mac);
  }

  /** Where the relink scan stops: the first entry whose priority is below `p`, or the end. */
  function ScanStop(es: seq<Entry>, p: real): (j: nat)
    ensures j <= |es|
    ensures forall i :: 0 <= i < j ==> es[i].priority >= p
    ensures j < |es| ==> es[j].priority < p
  {
    if es == [] then 0
    else if es[0].priority < p then 0
    else 1 + ScanStop(es[1..], p)
  }

  /**
   * The relink scan stops just past the updated entry itself, so the
   * element it would link after is that entry, and the entry ends up
   * pointing to itself, off the list.
   */
  predicate StaysInPlace(es: seq<Entry>, k: nat)
    requires k < |es|
  {
    ScanStop(es, es[k].priority) == k + 1
  }

  /**
   * The list after the three pointer writes that relink the updated entry
   * at index `k` (`es` already holds its new fields): the entry is unlinked
   * and linked again in front of `es[j]`, where the scan stopped.
   */
  function Relink(es: seq<Entry>, k: nat): seq<Entry>
    requires k < |es|
  {
    ScanStopPassesEntry(es, k);
    Move(es, k, ScanStop(es, es[k].priority))
  }

  /**
   * The three pointer writes with the scan stopped at `j`: the element at `k`
   * is unlinked and linked in front of `s[j]`. When `j` is `k + 1` the node
   * in front of `s[j]` is the moved node itself, which then points to itself
   * and is no longer reachable. Element `i` of the result is the old
   * element `MoveSource(k, j, i)`.
   */
  function Move<T>(s: seq<T>, k: nat, j: nat): (r: seq<T>)
    requires k < |s| && j <= |s| && j != k
    ensures |r| == if j == k + 1 then |s| - 1 else |s|
  {
    var n := if j == k + 1 then |s| - 1 else |s|;
    seq(n, i requires 0 <= i < n => s[MoveSource(k, j, i)])
  }

  /** The old index of the element that `Move(s, k, j)` holds at index `i`. */
  function MoveSource(k: nat, j: nat, i: nat): nat {
    if j == k + 1 then (if i < k then i else i + 1)
    else if j < k then (if i < j then i else if i == j then k else if i <= k then i - 1 else i)
    else (if i < k then i else if i < j - 1 then i + 1 else if i == j - 1 then k else i)
  }

  /** Element `i` of the moved sequence is the old element `MoveSource(k, j, i)`. */
  lemma MoveAtIndex<T>(s: seq<T>, k: nat, j: nat, i: nat)
    requires k < |s| && j <= |s| && j != k && i < |Move(s, k, j)|
    ensures MoveSource(k, j, i) < |s| && Move(s, k, j)[i] == s[MoveSource(k, j, i)]
  {
  }

  /** Moving in a sequence with one more element in front shifts every source index by one. */
  lemma MoveSourceShift(k: nat, j: nat, i: nat)
    ensures MoveSource(k + 1, j + 1, i + 1) == MoveSource(k, j, i) + 1
  {
  }

  lemma MoveAt<T>(s: seq<T>, k: nat, j: nat)
    requires k < |s| && j <= |s| && j != k
    ensures forall i :: 0 <= i < |Move(s, k, j)| ==>
              MoveSource(k, j, i) < |s| && Move(s, k, j)[i] == s[MoveSource(k, j, i)]
  {
  }

  /** A move only rearranges: every element of the result was an element before. */
  lemma MoveKeepsElements<T>(s: seq<T>, k: nat, j: nat)
    requires k < |s| && j <= |s| && j != k
    ensures forall x :: x in Move(s, k, j) ==> x in s
  {
    forall x | x in Move(s, k, j) ensures x in s {
      var i :| 0 <= i < |Move(s, k, j)| && Move(s, k, j)[i] == x;
      MoveAtIndex(s, k, j, i);
    }
  }

  /** The index the updated entry holds after a relink that keeps it. */
  function RelinkPosition(es: seq<Entry>, k: nat): nat
    requires k < |es|
  {
    var j := ScanStop(es, es[k].priority);
    if j < k then j else j - 1
  }

  /** One call of enqueueMac, as written, at observation time `t`. */
  function Upsert(es: seq<Entry>, w: Weights, mac: seq<Byte>, t: real): seq<Entry>
    requires |mac| == MacSize
  {
    var k := Find(es, mac);
    if k < |es| then Relink(es[k := Bumped(es[k], w, t)], k)
    else [FirstEntry(w, mac, t)] + es
  }

  /** The call re-observes an address and the relink drops its entry from the list. */
  predicate Loses(es: seq<Entry>, w: Weights, mac: seq<Byte>, t: real) {
    var k := Find(es, mac);
    k < |es| && StaysInPlace(es[k := Bumped(es[k], w, t)], k)
  }

  // ---------------------------------------------------------------------------
  // The rule the comments at PriorityMacQueue.c:129-131 describe

  /** Non-increasing priority from the front: each entry is at least its successor. */
  predicate Sorted(es: seq<Entry>) {
    forall i :: 0 < i < |es| ==> es[i - 1].priority >= es[i].priority
  }

  /** Every address occurs at most once. */
  predicate DistinctMacs(es: seq<Entry>) {
    forall i, j :: 0 <= i < j < |es| ==> es[i].mac != es[j].mac
  }

  function InsertAt(es: seq<Entry>, e: Entry, j: nat): seq<Entry>
    requires j <= |es|
  {
    es[..j] + [e] + es[j..]
  }

  /** Insert `e` immediately before the first entry whose priority is strictly less. */
  function InsertByPriority(es: seq<Entry>, e: Entry): seq<Entry> {
    InsertAt(es, e, ScanStop(es, e.priority))
  }

  /** enqueueMac as its comments intend: sorted insertion for new and updated entries. */
  function IntendedUpsert(es: seq<Entry>, w: Weights, mac: seq<Byte>, t: real): seq<Entry>
    requires |mac| == MacSize
  {
    var k := Find(es, mac);
    if k < |es| then InsertByPriority(RemoveAt(es, k), Bumped(es[k], w, t))
    else InsertByPriority(es, Entry(StrncpyCopy(mac, MacSize), 1, t, Score(w, 1, t)))
  }

  // ---------------------------------------------------------------------------
  // The relink scan

  /** The scan's stopping point is the only index with its two properties. */
  lemma ScanStopUnique(es: seq<Entry>, p: real, j: nat)
    requires j <= |es|
    requires forall i :: 0 <= i < j ==> es[i].priority >= p
    requires j < |es| ==> es[j].priority < p
    ensures ScanStop(es, p) == j
  {
    var s := ScanStop(es, p);
  }

  /** The scan never stops on the updated entry itself: its priority is not below its own. */
  lemma ScanStopPassesEntry(es: seq<Entry>, k: nat)
    requires k < |es|
    ensures ScanStop(es, es[k].priority) != k
  {
  }

  /** A scan that stops in front of the updated entry stops at the same place without it. */
  lemma ScanStopAhead(es: seq<Entry>, k: nat)
    requires k < |es| && ScanStop(es, es[k].priority) < k
    ensures ScanStop(RemoveAt(es, k), es[k].priority) == ScanStop(es, es[k].priority)
  {
    var p, j := es[k].priority, ScanStop(es, es[k].priority);
    RemoveAtKeepsStop(es, k, p, j);
    ScanStopUnique(RemoveAt(es, k), p, j);
  }

  /** A scan that passes the updated entry stops one place earlier without it. */
  lemma ScanStopBehind(es: seq<Entry>, k: nat)
    requires k < |es| && k < ScanStop(es, es[k].priority)
    ensures ScanStop(RemoveAt(es, k), es[k].priority) == ScanStop(es, es[k].priority) - 1
  {
    var p, j := es[k].priority, ScanStop(es, es[k].priority);
    RemoveAtShiftsStop(es, k, p, j);
    StopAfterRemoval(es, k, p, j);
  }

  /** The two stopping facts `RemoveAtShiftsStop` yields at `j - 1` pin the scan of the shorter queue there. */
  lemma StopAfterRemoval(es: seq<Entry>, k: nat, p: real, j: nat)
    requires k < j <= |es|
    requires forall i :: 0 <= i < j - 1 ==> RemoveAt(es, k)[i].priority >= p
    requires j - 1 < |RemoveAt(es, k)| ==> RemoveAt(es, k)[j - 1].priority < p
    ensures ScanStop(RemoveAt(es, k), p) == j - 1
  {
    var r := RemoveAt(es, k);
    assert |r| == |es| - 1;
    ScanStopUnique(r, p, j - 1);
  }

  /** Removing an entry behind a stopping point `j` keeps the scan's two facts at `j`. */
  lemma RemoveAtKeepsStop(es: seq<Entry>, k: nat, p: real, j: nat)
    requires j < k < |es|
    requires forall i :: 0 <= i < j ==> es[i].priority >= p
    requires es[j].priority < p
    ensures forall i :: 0 <= i < j ==> RemoveAt(es, k)[i].priority >= p
    ensures RemoveAt(es, k)[j].priority < p
  {
  }

  /** Removing an entry in front of a stopping point `j` moves the scan's two facts to `j - 1`. */
  lemma RemoveAtShiftsStop(es: seq<Entry>, k: nat, p: real, j: nat)
    requires k < j <= |es|
    requires forall i :: 0 <= i < j ==> es[i].priority >= p
    requires j < |es| ==> es[j].priority < p
    ensures forall i :: 0 <= i < j - 1 ==> RemoveAt(es, k)[i].priority >= p
    ensures j - 1 < |RemoveAt(es, k)| ==> RemoveAt(es, k)[j - 1].priority < p
  {
    var r := RemoveAt(es, k);
    forall i | 0 <= i < j - 1 ensures r[i].priority >= p {
      if i >= k { assert r[i] == es[i + 1]; }
    }
  }

  /** The updated entry is lost exactly when its sorted position is the one it already holds. */
  lemma StaysInPlaceIff(es: seq<Entry>, k: nat)
    requires k < |es|
    ensures StaysInPlace(es, k) <==> ScanStop(RemoveAt(es, k), es[k].priority) == k
  {
    ScanStopPassesEntry(es, k);
    if ScanStop(es, es[k].priority) < k { ScanStopAhead(es, k); } else { ScanStopBehind(es, k); }
  }

  /** Where `InsertAt` puts the new entry, and that nothing else changes. */
  lemma InsertAtFacts(es: seq<Entry>, e: Entry, j: nat)
    requires j <= |es|
    ensures |InsertAt(es, e, j)| == |es| + 1 && InsertAt(es, e, j)[j] == e
    ensures RemoveAt(InsertAt(es, e, j), j) == es
    ensures multiset(InsertAt(es, e, j)) == multiset(es) + multiset{e}
  {
    var r := InsertAt(es, e, j);
    assert r[..j] == es[..j] && r[j + 1..] == es[j..];
    assert es == es[..j] + es[j..];
  }

  /** Moving the entry at `k` forward to `j`, as three pointer writes do, is removal then insertion. */
  lemma MoveForward(es: seq<Entry>, k: nat, j: nat)
    requires j < k < |es|
    ensures Move(es, k, j) == InsertAt(RemoveAt(es, k), es[k], j)
  {
    var rem := es[..k] + es[k + 1..];
    assert RemoveAt(es, k) == rem;
    assert rem[..j] == es[..j];
    assert rem[j..] == es[j..k] + es[k + 1..];
  }

  /** Moving the entry at `k` back to just before `es[j]` is removal then insertion at `j - 1`. */
  lemma MoveBackward(es: seq<Entry>, k: nat, j: nat)
    requires k + 1 < j <= |es|
    ensures Move(es, k, j) == InsertAt(RemoveAt(es, k), es[k], j - 1)
  {
    var rem := es[..k] + es[k + 1..];
    assert RemoveAt(es, k) == rem;
    assert rem[..j - 1] == es[..k] + es[k + 1..j];
    assert rem[j - 1..] == es[j..];
  }

  /**
   * When the scan does not stop on the updated entry, the relink is the
   * intended one: the entry is taken out and inserted before the first
   * strictly lower entry; the list is a permutation of the old one, and the
   * other entries keep their relative order.
   */
  lemma RelinkMovesEntry(es: seq<Entry>, k: nat)
    requires k < |es| && !StaysInPlace(es, k)
    ensures Relink(es, k) == InsertByPriority(RemoveAt(es, k), es[k])
    ensures |Relink(es, k)| == |es| && RelinkPosition(es, k) < |Relink(es, k)|
    ensures Relink(es, k)[RelinkPosition(es, k)] == es[k]
    ensures RemoveAt(Relink(es, k), RelinkPosition(es, k)) == RemoveAt(es, k)
    ensures multiset(Relink(es, k)) == multiset(es)
  {
    RelinkIsReinsertion(es, k);
    InsertAtFacts(RemoveAt(es, k), es[k], RelinkPosition(es, k));
    RemoveAtMultiset(es, k);
  }

  lemma RelinkIsReinsertion(es: seq<Entry>, k: nat)
    requires k < |es| && !StaysInPlace(es, k)
    ensures RelinkPosition(es, k) == ScanStop(RemoveAt(es, k), es[k].priority)
    ensures Relink(es, k) == InsertAt(RemoveAt(es, k), es[k], RelinkPosition(es, k))
  {
    ScanStopPassesEntry(es, k);
    RelinkIsMove(es, k);
    var j := ScanStop(es, es[k].priority);
    if j < k {
      ScanStopAhead(es, k);
      MoveForward(es, k, j);
    } else {
      RelinkBehind(es, k, j);
    }
  }

  lemma RelinkBehind(es: seq<Entry>, k: nat, j: nat)
    requires k < |es| && k + 1 < j == ScanStop(es, es[k].priority)
    ensures RelinkPosition(es, k) == ScanStop(RemoveAt(es, k), es[k].priority)
    ensures Move(es, k, j) == InsertAt(RemoveAt(es, k), es[k], j - 1)
  {
    ScanStopBehind(es, k);
    MoveBackward(es, k, j);
  }

  lemma RelinkIsMove(es: seq<Entry>, k: nat)
    requires k < |es|
    ensures ScanStop(es, es[k].priority) != k
    ensures Relink(es, k) == Move(es, k, ScanStop(es, es[k].priority))
  {
  }

  /**
   * When the scan stops on the updated entry, the entry leaves the list and
   * nothing else changes.
   */
  lemma RelinkLosesEntry(es: seq<Entry>, k: nat)
    requires k < |es| && StaysInPlace(es, k)
    ensures Relink(es, k) == RemoveAt(es, k)
    ensures multiset(Relink(es, k)) + multiset{es[k]} == multiset(es)
  {
    RemoveAtMultiset(es, k);
  }

  // ---------------------------------------------------------------------------
  // enqueueMac as written

  /**
   * Re-observing a present address whose entry is kept: that entry has one
   * more packet, the new time and the full-precision score; every other
   * entry keeps its fields and its relative order.
   */
  lemma UpsertUpdatesPresentEntry(es: seq<Entry>, w: Weights, mac: seq<Byte>, t: real)
    requires |mac| == MacSize && !IsNew(es, mac) && !Loses(es, w, mac, t)
    ensures var k, r := Find(es, mac), Upsert(es, w, mac, t);
            var q := RelinkPosition(es[k := Bumped(es[k], w, t)], k);
            |r| == |es| && q < |r| &&
            r[q].mac == mac && r[q].packets == es[k].packets + 1 &&
            r[q].lastUpdated == t && r[q].priority == Score(w, r[q].packets, t) &&
            RemoveAt(r, q) == RemoveAt(es, k)
  {
    var k := Find(es, mac);
    var es' := es[k := Bumped(es[k], w, t)];
    RelinkMovesEntry(es', k);
    assert RemoveAt(es', k) == RemoveAt(es, k);
  }

  /** Re-observing a present address whose entry is lost: the list loses exactly that entry. */
  lemma UpsertLosesPresentEntry(es: seq<Entry>, w: Weights, mac: seq<Byte>, t: real)
    requires |mac| == MacSize && Loses(es, w, mac, t)
    ensures Upsert(es, w, mac, t) == RemoveAt(es, Find(es, mac))
    ensures DistinctMacs(es) ==> forall i :: 0 <= i < |Upsert(es, w, mac, t)| ==> Upsert(es, w, mac, t)[i].mac != mac
  {
    var k := Find(es, mac);
    var es' := es[k := Bumped(es[k], w, t)];
    RelinkLosesEntry(es', k);
    assert RemoveAt(es', k) == RemoveAt(es, k);
  }

  /**
   * A present address is lost whenever the relink scan reaches its entry:
   * no entry in front of it scores lower than its new score, and the entry
   * behind it (if any) scores lower.
   */
  lemma LosesIff(es: seq<Entry>, w: Weights, mac: seq<Byte>, t: real, k: nat)
    requires k == Find(es, mac) && k < |es|
    ensures Loses(es, w, mac, t) <==>
              (forall i :: 0 <= i < k ==> es[i].priority >= Score(w, es[k].packets + 1, t)) &&
              (k + 1 == |es| || es[k + 1].priority < Score(w, es[k].packets + 1, t))
  {
    var e := Bumped(es[k], w, t);
    assert Loses(es, w, mac, t) == StaysInPlace(es[k := e], k);
    StaysInPlaceAfterUpdate(es, k, e, Score(w, es[k].packets + 1, t));
  }

  /** `StaysInPlaceAt` for the list whose entry `k` has just been replaced by `e`, of priority `p`. */
  lemma StaysInPlaceAfterUpdate(es: seq<Entry>, k: nat, e: Entry, p: real)
    requires k < |es| && e.priority == p
    ensures StaysInPlace(es[k := e], k) <==>
              (forall i :: 0 <= i < k ==> es[i].priority >= p) && (k + 1 == |es| || es[k + 1].priority < p)
  {
    var es' := es[k := e];
    StaysInPlaceAt(es', k);
    assert forall i :: 0 <= i < k ==> es'[i] == es[i];
    assert k + 1 < |es| ==> es'[k + 1] == es[k + 1];
  }

  /** The scan stops just past index `k` exactly when nothing in front scores lower and the next entry does. */
  lemma StaysInPlaceAt(es: seq<Entry>, k: nat)
    requires k < |es|
    ensures StaysInPlace(es, k) <==>
              (forall i :: 0 <= i < k ==> es[i].priority >= es[k].priority) &&
              (k + 1 == |es| || es[k + 1].priority < es[k].priority)
  {
    var p := es[k].priority;
    if (forall i :: 0 <= i < k ==> es[i].priority >= p) && (k + 1 == |es| || es[k + 1].priority < p) {
      ScanStopUnique(es, p, k + 1);
    }
  }

  /**
   * Re-observing the front entry, the one peek and dequeue return: it is
   * lost exactly when it is the only entry or its new score is above its
   * successor's.
   */
  lemma FrontObservationLost(es: seq<Entry>, w: Weights, mac: seq<Byte>, t: real)
    requires |mac| == MacSize && es != [] && es[0].mac == mac
    ensures Loses(es, w, mac, t) <==> |es| == 1 || es[1].priority < Score(w, es[0].packets + 1, t)
  {
    FindUnique(es, mac, 0);
    LosesIff(es, w, mac, t, 0);
  }

  /** The second observation of the only address in a fresh queue empties the list. */
  lemma SecondObservationEmptiesQueue(w: Weights, mac: seq<Byte>, t1: real, t2: real)
    requires StoredMac(mac)
    ensures IsNew([], mac)
    ensures Upsert([], w, mac, t1) == [FirstEntry(w, mac, t1)]
    ensures Loses(Upsert([], w, mac, t1), w, mac, t2)
    ensures Upsert(Upsert([], w, mac, t1), w, mac, t2) == []
  {
    StoredMacIff(mac);
    var es := Upsert([], w, mac, t1);
    assert es[0].mac == mac;
    var es' := es[0 := Bumped(es[0], w, t2)];
    assert ScanStop(es'[1..], es'[0].priority) == 0;
  }

  /** A new address is always linked first, whatever its score: the order can break. */
  lemma NewEntryCanBreakOrder()
    ensures var w, a, b := Weights(1.0, 0.0), [1, 1, 1, 1, 1, 1], [2, 2, 2, 2, 2, 2];
            var es := [Entry(a, 2, 0.0, 2.0)];
            Sorted(es) && IsNew(es, b) && !Sorted(Upsert(es, w, b, 5.0))
  {
    var w, a, b := Weights(1.0, 0.0), [1, 1, 1, 1, 1, 1], [2, 2, 2, 2, 2, 2];
    var es := [Entry(a, 2, 0.0, 2.0)];
    NulFreeCopiedUnchanged(b);
    assert Find(es, b) == 1 by { assert es[0].mac != b; }
    assert Score(w, 1, 5.0) == 1.0;
    assert FirstEntry(w, b, 5.0).priority == 1.0 by { assert TruncateToInt(1.0) == 1; }
    var r := Upsert(es, w, b, 5.0);
    assert r == [FirstEntry(w, b, 5.0)] + es;
    assert r[0].priority == 1.0 && r[1].priority == 2.0;
  }

  /**
   * An address with a zero byte before a non-zero one is stored zero-padded,
   * so the lookup never matches it again: each observation adds an entry.
   */
  lemma UnpaddedAddressIsDuplicated(w: Weights, t1: real, t2: real)
    ensures var mac: seq<Byte> := [0, 17, 34, 51, 68, 85];
            var r := Upsert(Upsert([], w, mac, t1), w, mac, t2);
            |r| == 2 && r[0].mac == r[1].mac && !DistinctMacs(r)
  {
    var mac: seq<Byte> := [0, 17, 34, 51, 68, 85];
    var stored := StrncpyCopy(mac, MacSize);
    StrncpyCopyAt(mac, MacSize);
    assert stored[1] == 0;
    var es := Upsert([], w, mac, t1);
    assert es == [FirstEntry(w, mac, t1)];
    assert Find(es, mac) == 1 by { assert es[0].mac != mac; }
  }

  /**
   * The lookup as evidently intended: the stored addresses are compared with
   * what strncpy stores for `mac`, not with `mac` itself.
   */
  function PaddedUpsert(es: seq<Entry>, w: Weights, mac: seq<Byte>, t: real): seq<Entry>
    requires |mac| == MacSize
  {
    Upsert(es, w, StrncpyCopy(mac, MacSize), t)
  }

  /** With the padded lookup, every address keeps the stored addresses distinct. */
  lemma PaddedUpsertKeepsMacsDistinct(es: seq<Entry>, w: Weights, mac: seq<Byte>, t: real)
    requires DistinctMacs(es) && |mac| == MacSize
    ensures DistinctMacs(PaddedUpsert(es, w, mac, t))
  {
    StoredMacIff(mac);
    UpsertKeepsMacsDistinct(es, w, StrncpyCopy(mac, MacSize), t);
  }

  /** With the padded lookup, a first observation of any address is found again on the next one. */
  lemma PaddedUpsertFindsNewAddress(es: seq<Entry>, w: Weights, mac: seq<Byte>, t: real)
    requires |mac| == MacSize && IsNew(es, StrncpyCopy(mac, MacSize))
    ensures !IsNew(PaddedUpsert(es, w, mac, t), StrncpyCopy(mac, MacSize))
  {
    var m := StrncpyCopy(mac, MacSize);
    StrncpyCopyIdempotent(mac, MacSize);
    UpsertOfNewAddress(es, w, m, t);
    assert PaddedUpsert(es, w, mac, t)[0].mac == m;
  }

  /**
   * The padded lookup merges two devices whose addresses agree up to their
   * first zero byte: the second device's observation is counted against the
   * first device's entry, whose stored address is neither device's.
   */
  lemma PaddedLookupMergesAddresses(w: Weights, t1: real, t2: real)
    ensures var a: seq<Byte> := [0x00, 0x11, 0x22, 0x33, 0x44, 0x55];
            var b: seq<Byte> := [0x00, 0xAA, 0xBB, 0xCC, 0xDD, 0xEE];
            var es := PaddedUpsert([], w, a, t1);
            |es| == 1 && es[0].mac != a && es[0].mac != b &&
            !IsNew(es, StrncpyCopy(b, MacSize)) && PaddedUpsert(es, w, b, t2) == []
  {
    var a: seq<Byte> := [0x00, 0x11, 0x22, 0x33, 0x44, 0x55];
    var b: seq<Byte> := [0x00, 0xAA, 0xBB, 0xCC, 0xDD, 0xEE];
    var z := StrncpyCopy(a, MacSize);
    assert z == Zeros(MacSize);
    assert StrncpyCopy(b, MacSize) == z;
    StoredMacIff(a);
    SecondObservationEmptiesQueue(w, z, t1, t2);
    var es := PaddedUpsert([], w, a, t1);
    assert es == [FirstEntry(w, z, t1)];
    StrncpyCopyIdempotent(a, MacSize);
    assert es[0].mac == z;
    assert z[1] == 0 && a[1] == 0x11 && b[1] == 0xAA;
  }

  /**
   * enqueueMac as the six-byte addresses of the rest of the program call for:
   * a new entry holds a copy of all six bytes of `mac`, as `memcpy` makes it.
   */
  function CopiedUpsert(es: seq<Entry>, w: Weights, mac: seq<Byte>, t: real): seq<Entry>
    requires |mac| == MacSize
  {
    var k := Find(es, mac);
    if k < |es| then Relink(es[k := Bumped(es[k], w, t)], k)
    else [Entry(mac, 1, t, TruncateToInt(Score(w, 1, t)) as real)] + es
  }

  /** With six-byte copies, every address, zero bytes included, keeps the stored addresses distinct. */
  lemma CopiedUpsertKeepsMacsDistinct(es: seq<Entry>, w: Weights, mac: seq<Byte>, t: real)
    requires DistinctMacs(es) && |mac| == MacSize
    ensures DistinctMacs(CopiedUpsert(es, w, mac, t))
  {
    var k := Find(es, mac);
    if k < |es| {
      ReobserveKeepsMacsDistinct(es, w, k, t);
    } else {
      PrependKeepsMacsDistinct(es, Entry(mac, 1, t, TruncateToInt(Score(w, 1, t)) as real));
    }
  }

  /** With six-byte copies, a new address goes in front as given and is found by the next lookup. */
  lemma CopiedUpsertOfNewAddress(es: seq<Entry>, w: Weights, mac: seq<Byte>, t: real)
    requires |mac| == MacSize && IsNew(es, mac)
    ensures |CopiedUpsert(es, w, mac, t)| == |es| + 1 && CopiedUpsert(es, w, mac, t)[1..] == es
    ensures CopiedUpsert(es, w, mac, t)[0].mac == mac
    ensures !IsNew(CopiedUpsert(es, w, mac, t), mac)
  {
    var r := CopiedUpsert(es, w, mac, t);
    assert r[0].mac == mac;
    assert Find(r, mac) == 0;
  }

  /** A present address is handled by the six-byte copy exactly as by the code as written. */
  lemma CopiedUpsertOfPresentAddress(es: seq<Entry>, w: Weights, mac: seq<Byte>, t: real)
    requires |mac| == MacSize && !IsNew(es, mac)
    ensures CopiedUpsert(es, w, mac, t) == Upsert(es, w, mac, t)
  {
  }

  /** With six-byte copies, the two devices that the padded lookup merges keep one entry each. */
  lemma CopiedUpsertKeepsDevicesApart(w: Weights, t1: real, t2: real)
    ensures var a: seq<Byte> := [0x00, 0x11, 0x22, 0x33, 0x44, 0x55];
            var b: seq<Byte> := [0x00, 0xAA, 0xBB, 0xCC, 0xDD, 0xEE];
            var r := CopiedUpsert(CopiedUpsert([], w, a, t1), w, b, t2);
            |r| == 2 && r[0].mac == b && r[1].mac == a
  {
    var a: seq<Byte> := [0x00, 0x11, 0x22, 0x33, 0x44, 0x55];
    var b: seq<Byte> := [0x00, 0xAA, 0xBB, 0xCC, 0xDD, 0xEE];
    var es := CopiedUpsert([], w, a, t1);
    CopiedUpsertOfNewAddress([], w, a, t1);
    assert Find(es, b) == 1 by { assert es[0].mac[1] != b[1]; }
    CopiedUpsertOfNewAddress(es, w, b, t2);
  }

  /** Inserting a fresh address keeps the addresses distinct. */
  lemma InsertKeepsMacsDistinct(es: seq<Entry>, e: Entry)
    requires DistinctMacs(es) && forall i :: 0 <= i < |es| ==> es[i].mac != e.mac
    ensures DistinctMacs(InsertByPriority(es, e))
  {
    var j := ScanStop(es, e.priority);
    var r := InsertByPriority(es, e);
    forall x, y | 0 <= x < y < |r| ensures r[x].mac != r[y].mac {
      var mx := if x < j then x else if x == j then -1 else x - 1;
      var my := if y < j then y else if y == j then -1 else y - 1;
      if mx >= 0 { assert r[x] == es[mx]; } else { assert r[x] == e; }
      if my >= 0 { assert r[y] == es[my]; } else { assert r[y] == e; }
    }
  }

  /** Re-observing an entry, whether the relink keeps it or loses it, keeps the addresses distinct. */
  lemma ReobserveKeepsMacsDistinct(es: seq<Entry>, w: Weights, k: nat, t: real)
    requires DistinctMacs(es) && k < |es|
    ensures DistinctMacs(Relink(es[k := Bumped(es[k], w, t)], k))
  {
    var es' := es[k := Bumped(es[k], w, t)];
    var rem := RemoveAt(es, k);
    assert RemoveAt(es', k) == rem;
    assert DistinctMacs(rem);
    assert forall i :: 0 <= i < |rem| ==> rem[i].mac != es[k].mac by {
      forall i | 0 <= i < |rem| ensures rem[i].mac != es[k].mac {
        if i < k { assert rem[i] == es[i]; } else { assert rem[i] == es[i + 1]; }
      }
    }
    if StaysInPlace(es', k) {
      RelinkLosesEntry(es', k);
    } else {
      RelinkMovesEntry(es', k);
      InsertKeepsMacsDistinct(rem, es'[k]);
    }
  }

  /** Linking an entry with an absent address in front keeps the addresses distinct. */
  lemma PrependKeepsMacsDistinct(es: seq<Entry>, e: Entry)
    requires DistinctMacs(es) && forall i :: 0 <= i < |es| ==> es[i].mac != e.mac
    ensures DistinctMacs([e] + es)
  {
    var r := [e] + es;
    forall x, y | 0 <= x < y < |r| ensures r[x].mac != r[y].mac {
      assert r[y] == es[y - 1];
      if x > 0 { assert r[x] == es[x - 1]; }
    }
  }

  /**
   * As long as every observed address is zero-padded, at most one entry per
   * address exists: an entry is allocated only when the lookup found none.
   */
  lemma UpsertKeepsMacsDistinct(es: seq<Entry>, w: Weights, mac: seq<Byte>, t: real)
    requires DistinctMacs(es) && StoredMac(mac)
    ensures DistinctMacs(Upsert(es, w, mac, t))
  {
    StoredMacIff(mac);
    var k := Find(es, mac);
    if k < |es| {
      ReobserveKeepsMacsDistinct(es, w, k, t);
    } else {
      PrependKeepsMacsDistinct(es, FirstEntry(w, mac, t));
    }
  }

  // ---------------------------------------------------------------------------
  // Order

  /** Sorted by adjacent pairs means sorted between any two positions. */
  lemma {:induction false} SortedDescending(es: seq<Entry>, i: nat, j: nat)
    requires Sorted(es) && i <= j < |es|
    ensures es[i].priority >= es[j].priority
    decreases j - i
  {
    if i < j {
      SortedDescending(es, i + 1, j);
    }
  }

  /** In a sorted list the front entry, which peek and dequeue read, has the highest priority. */
  lemma FrontIsHighest(es: seq<Entry>)
    requires Sorted(es) && es != []
    ensures forall i :: 0 <= i < |es| ==> es[i].priority <= es[0].priority
  {
    forall i | 0 <= i < |es| ensures es[i].priority <= es[0].priority {
      SortedDescending(es, 0, i);
    }
  }

  lemma RemoveAtKeepsSorted(es: seq<Entry>, k: nat)
    requires Sorted(es) && k < |es|
    ensures Sorted(RemoveAt(es, k))
  {
    var r := RemoveAt(es, k);
    forall i | 0 < i < |r| ensures r[i - 1].priority >= r[i].priority {
      if i == k { SortedDescending(es, k - 1, k + 1); }
    }
  }

  /** Inserting between a not-lower and a strictly lower neighbour keeps a list sorted. */
  lemma InsertAtKeepsSorted(es: seq<Entry>, e: Entry, j: nat)
    requires Sorted(es) && j <= |es|
    requires 0 < j ==> es[j - 1].priority >= e.priority
    requires j < |es| ==> e.priority > es[j].priority
    ensures Sorted(InsertAt(es, e, j))
  {
    var r := InsertAt(es, e, j);
    forall i | 0 < i < |r| ensures r[i - 1].priority >= r[i].priority {
      if i < j {
        assert r[i - 1] == es[i - 1] && r[i] == es[i];
      } else if i == j {
        assert r[i - 1] == es[i - 1] && r[i] == e;
      } else if i == j + 1 {
        assert r[i - 1] == e && r[i] == es[j];
      } else {
        assert r[i - 1] == es[i - 2] && r[i] == es[i - 1];
      }
    }
  }

  /** Sorted insertion keeps a sorted list sorted and adds exactly the one entry. */
  lemma InsertByPriorityKeepsSorted(es: seq<Entry>, e: Entry)
    requires Sorted(es)
    ensures Sorted(InsertByPriority(es, e))
    ensures |InsertByPriority(es, e)| == |es| + 1
    ensures multiset(InsertByPriority(es, e)) == multiset(es) + multiset{e}
  {
    var j := ScanStop(es, e.priority);
    InsertAtKeepsSorted(es, e, j);
    InsertAtFacts(es, e, j);
  }

  /**
   * Re-observing a present address keeps a sorted list sorted, whether the
   * entry moves or is lost.
   */
  lemma UpsertOfPresentKeepsSorted(es: seq<Entry>, w: Weights, mac: seq<Byte>, t: real)
    requires |mac| == MacSize && Sorted(es) && !IsNew(es, mac)
    ensures Sorted(Upsert(es, w, mac, t))
  {
    var k := Find(es, mac);
    var es' := es[k := Bumped(es[k], w, t)];
    assert RemoveAt(es', k) == RemoveAt(es, k);
    RemoveAtKeepsSorted(es, k);
    if StaysInPlace(es', k) {
      RelinkLosesEntry(es', k);
    } else {
      RelinkMovesEntry(es', k);
      InsertByPriorityKeepsSorted(RemoveAt(es, k), es'[k]);
    }
  }

  /** The intended rule keeps the list sorted on every call. */
  lemma IntendedUpsertKeepsSorted(es: seq<Entry>, w: Weights, mac: seq<Byte>, t: real)
    requires |mac| == MacSize && Sorted(es)
    ensures Sorted(IntendedUpsert(es, w, mac, t))
  {
    var k := Find(es, mac);
    if k < |es| {
      RemoveAtKeepsSorted(es, k);
      InsertByPriorityKeepsSorted(RemoveAt(es, k), Bumped(es[k], w, t));
    } else {
      InsertByPriorityKeepsSorted(es, Entry(StrncpyCopy(mac, MacSize), 1, t, Score(w, 1, t)));
    }
  }

  /**
   * A first-seen address: the strncpy copy of the address with count 1, the
   * observation time and the truncated score goes in front of every old
   * entry, which all keep their order.
   */
  lemma UpsertOfNewAddress(es: seq<Entry>, w: Weights, mac: seq<Byte>, t: real)
    requires |mac| == MacSize && IsNew(es, mac)
    ensures |Upsert(es, w, mac, t)| == |es| + 1 && Upsert(es, w, mac, t)[1..] == es
    ensures Upsert(es, w, mac, t)[0].mac == StrncpyCopy(mac, MacSize)
    ensures Upsert(es, w, mac, t)[0].packets == 1 && Upsert(es, w, mac, t)[0].lastUpdated == t
    ensures Upsert(es, w, mac, t)[0].priority == TruncateToInt(Score(w, 1, t)) as real
  {
    assert Upsert(es, w, mac, t) == [FirstEntry(w, mac, t)] + es;
  }

  /**
   * The intended rule never loses an entry: a present address's entry is
   * replaced by its bumped copy, a new address adds one entry.
   */
  lemma IntendedUpsertContents(es: seq<Entry>, w: Weights, mac: seq<Byte>, t: real)
    requires |mac| == MacSize
    ensures !IsNew(es, mac) ==>
              multiset(IntendedUpsert(es, w, mac, t)) ==
              multiset(es) - multiset{es[Find(es, mac)]} + multiset{Bumped(es[Find(es, mac)], w, t)}
    ensures IsNew(es, mac) ==>
              multiset(IntendedUpsert(es, w, mac, t)) ==
              multiset(es) + multiset{Entry(StrncpyCopy(mac, MacSize), 1, t, Score(w, 1, t))}
  {
    var k := Find(es, mac);
    if k < |es| {
      RemoveAtMultiset(es, k);
      InsertAtFacts(RemoveAt(es, k), Bumped(es[k], w, t), ScanStop(RemoveAt(es, k), Bumped(es[k], w, t).priority));
    } else {
      var e := Entry(StrncpyCopy(mac, MacSize), 1, t, Score(w, 1, t));
      InsertAtFacts(es, e, ScanStop(es, e.priority));
    }
  }

  /** Where the code and the intended rule agree: a present address whose entry is kept. */
  lemma UpsertMatchesIntendedWhenKept(es: seq<Entry>, w: Weights, mac: seq<Byte>, t: real)
    requires |mac| == MacSize && !IsNew(es, mac) && !Loses(es, w, mac, t)
    ensures Upsert(es, w, mac, t) == IntendedUpsert(es, w, mac, t)
  {
    var k := Find(es, mac);
    var es' := es[k := Bumped(es[k], w, t)];
    RelinkMovesEntry(es', k);
    assert RemoveAt(es', k) == RemoveAt(es, k);
  }
}
