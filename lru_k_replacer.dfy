/**
 * The LRU-K frame replacement policy of the buffer pool (O'Neil, O'Neil and Weikum).
 * Every tracked frame keeps the timestamps of its last k accesses and an evictable flag;
 * `Evict` removes the evictable frame whose k-th most recent access lies furthest in the
 * past, a frame with fewer than k accesses counting as infinitely far.
 */
module LruKReplacer {
  import opened Wrappers

  /** u64::MAX, the value the replacer uses as an "infinite" backward k-distance. */
  const U64_MAX: nat := 0xFFFF_FFFF_FFFF_FFFF

  type FrameId = nat
  type Timestamp = nat

  ghost predicate StrictlyIncreasing(s: seq<Timestamp>) {
    forall i, j :: 0 <= i < j < |s| ==> s[i] < s[j]
  }

  /** The last `k` entries of `s` (all of `s` when it is shorter): the accesses LRU-K remembers. */
  function LastK(s: seq<Timestamp>, k: nat): seq<Timestamp> {
    if |s| <= k then s else s[|s| - k..]
  }

  /**
   * Backward k-distance as LRU-K defines it: the time elapsed since the k-th most recent
   * access, or infinity (u64::MAX) for a frame with fewer than k recorded accesses.
   */
  function KDistance(h: seq<Timestamp>, k: nat, now: Timestamp): int
    requires k >= 1
  {
    if |h| < k then U64_MAX else now - h[|h| - k]
  }

  /** One tracked frame: its id, whether it may be evicted, and its last (at most k) access times. */
  datatype LrukNode = LrukNode(frameId: FrameId, isEvictable: bool, history: seq<Timestamp>, k: nat)
  {
    predicate HasInfBackwardKDist() {
      |history| < k
    }

    function GetEarliestTimestamp(): (t: Timestamp)
      requires |history| > 0
      ensures StrictlyIncreasing(history) ==> forall i :: 0 <= i < |history| ==> t <= history[i]
    {
      history[0]
    }

    function GetBackwardsKDistance(currentTimestamp: Timestamp): (d: nat)
      requires !HasInfBackwardKDist() ==> |history| > 0 && history[0] <= currentTimestamp
      ensures k >= 1 && |history| <= k ==> d == KDistance(history, k, currentTimestamp)
      ensures currentTimestamp < U64_MAX ==> (d == U64_MAX <==> HasInfBackwardKDist())
    {
      if HasInfBackwardKDist() then U64_MAX else currentTimestamp - GetEarliestTimestamp()
    }

    /** Appends an access time; pops the oldest one once more than k are held. */
    function InsertHistoryTimestamp(currentTimestamp: Timestamp): (n: LrukNode)
      requires |history| == 0 || currentTimestamp > history[|history| - 1]
      ensures n.frameId == frameId && n.isEvictable == isEvictable && n.k == k
      ensures |history| <= k ==> n.history == LastK(history + [currentTimestamp], k)
      ensures StrictlyIncreasing(history) ==> StrictlyIncreasing(n.history)
    {
      var pushed := history + [currentTimestamp];
      this.(history := if |pushed| > k then pushed[1..] else pushed)
    }
  }

  /** The frames whose node is marked evictable. */
  function EvictableFrames(store: map<FrameId, LrukNode>): set<FrameId> {
    set f | f in store && store[f].isEvictable
  }

  /** No timestamp occurs in both sequences. */
  ghost predicate Disjoint(a: seq<Timestamp>, b: seq<Timestamp>) {
    forall i :: 0 <= i < |a| ==> a[i] !in b
  }

  /** What every tracked node satisfies between two calls to the replacer. */
  ghost predicate NodeInvariant(f: FrameId, n: LrukNode, k: nat, now: Timestamp) {
    && n.frameId == f
    && n.k == k
    && 1 <= |n.history| <= k
    && StrictlyIncreasing(n.history)
    && forall i :: 0 <= i < |n.history| ==> n.history[i] < now
  }

  /**
   * Every node is well formed, and no two nodes share a timestamp: the clock hands out each
   * value once, to one frame.
   */
  ghost predicate StoreInvariant(store: map<FrameId, LrukNode>, k: nat, now: Timestamp) {
    && (forall f {:trigger NodeInvariant(f, store[f], k, now)} :: f in store ==> NodeInvariant(f, store[f], k, now))
    && (forall f, g {:trigger Disjoint(store[f].history, store[g].history)} ::
          f in store && g in store && f != g ==> Disjoint(store[f].history, store[g].history))
  }

  /** `a` is a better eviction candidate than `b`: larger backward k-distance, ties to the older first access. */
  ghost predicate Precedes(a: LrukNode, b: LrukNode, k: nat, now: Timestamp)
    requires k >= 1
  {
    var da, db := KDistance(a.history, k, now), KDistance(b.history, k, now);
    && |a.history| > 0 && |b.history| > 0
    && (da > db || (da == db && a.history[0] < b.history[0]))
  }

  /** `f` is evictable and precedes every other evictable frame. */
  ghost predicate IsVictim(store: map<FrameId, LrukNode>, k: nat, now: Timestamp, f: FrameId)
    requires k >= 1
  {
    && f in store
    && store[f].isEvictable
    && forall g :: g in store && g != f && store[g].isEvictable ==> Precedes(store[f], store[g], k, now)
  }

  /** The store after setting the evictable flag of `f`, if `f` is tracked. */
  function SetEvictable(store: map<FrameId, LrukNode>, f: FrameId, evictable: bool): map<FrameId, LrukNode> {
    if f in store then store[f := store[f].(isEvictable := evictable)] else store
  }

  /** Remembering the last k, then appending more, is the same as keeping the last k of everything. */
  lemma LastKOfLastK(s: seq<Timestamp>, r: seq<Timestamp>, k: nat)
    ensures LastK(LastK(s, k) + r, k) == LastK(s + r, k)
  {
    if |s| > k {
      var u := s[|s| - k..] + r;
      var v := s + r;
      assert |u| >= k && |v| > k;
      var a, b := u[|u| - k..], v[|v| - k..];
      assert |a| == |b|;
      forall i | 0 <= i < k
        ensures a[i] == b[i]
      {
        if i < k - |r| {
          assert a[i] == s[|s| - k + (|r| + i)];
        }
      }
    }
  }

  lemma LastKSubset(s: seq<Timestamp>, k: nat, x: Timestamp)
    requires x in LastK(s, k)
    ensures x in s
  {
    if |s| > k {
      var i :| 0 <= i < |s[|s| - k..]| && s[|s| - k..][i] == x;
      assert s[|s| - k + i] == x;
    }
  }

  /** A suffix of a strictly increasing sequence is strictly increasing. */
  lemma SuffixIncreasing(s: seq<Timestamp>, j: nat)
    requires j <= |s| && StrictlyIncreasing(s)
    ensures StrictlyIncreasing(s[j..])
  {
    forall a, b | 0 <= a < b < |s[j..]|
      ensures s[j..][a] < s[j..][b]
    {
      assert s[j..][a] == s[j + a] && s[j..][b] == s[j + b];
    }
  }

  /** The first pending access of a strictly increasing run may be recorded. */
  lemma ReplayStepEnabled(n: LrukNode, ts: seq<Timestamp>)
    requires ts != [] && StrictlyIncreasing(n.history + ts)
    ensures |n.history| == 0 || ts[0] > n.history[|n.history| - 1]
  {
    var h := n.history + ts;
    assert h[|n.history|] == ts[0];
    if |n.history| > 0 {
      assert h[|n.history| - 1] == n.history[|n.history| - 1];
    }
  }

  /**
   * One step of `Replay`: the first pending access may be recorded, and what is left to
   * replay after it still ends in the same last k entries.
   */
  lemma ReplayStep(n: LrukNode, ts: seq<Timestamp>)
    requires |n.history| <= n.k && ts != []
    requires StrictlyIncreasing(n.history + ts)
    ensures |n.history| == 0 || ts[0] > n.history[|n.history| - 1]
    ensures var next := n.InsertHistoryTimestamp(ts[0]);
      && |next.history| <= next.k
      && StrictlyIncreasing(next.history + ts[1..])
      && LastK(next.history + ts[1..], n.k) == LastK(n.history + ts, n.k)
  {
    ReplayStepEnabled(n, ts);
    ReplayStepIncreasing(n.history, ts, n.k);
    LastKOfLastK(n.history + [ts[0]], ts[1..], n.k);
    assert n.history + [ts[0]] + ts[1..] == n.history + ts;
  }

  /** What is left to replay after one recorded access is still strictly increasing. */
  lemma ReplayStepIncreasing(h: seq<Timestamp>, ts: seq<Timestamp>, k: nat)
    requires ts != [] && |h| <= k && StrictlyIncreasing(h + ts)
    ensures StrictlyIncreasing(LastK(h + [ts[0]], k) + ts[1..])
  {
    var j := |h| + 1 - |LastK(h + [ts[0]], k)|;
    if |h + [ts[0]]| > k {
      assert LastK(h + [ts[0]], k) == (h + [ts[0]])[1..];
    }
    assert LastK(h + [ts[0]], k) + ts[1..] == (h + ts)[j..];
    SuffixIncreasing(h + ts, j);
  }

  /** Recording the accesses `ts`, one after the other, starting from node `n`. */
  ghost function Replay(n: LrukNode, ts: seq<Timestamp>): LrukNode
    requires |n.history| <= n.k
    requires StrictlyIncreasing(n.history + ts)
    decreases |ts|
  {
    if ts == [] then n
    else
      ReplayStep(n, ts);
      Replay(n.InsertHistoryTimestamp(ts[0]), ts[1..])
  }

  /**
   * However many accesses are recorded, a node keeps exactly the most recent k of them
   * (or all of them while there are fewer than k).
   */
  lemma {:induction false} ReplayKeepsMostRecentK(n: LrukNode, ts: seq<Timestamp>)
    requires |n.history| <= n.k
    requires StrictlyIncreasing(n.history + ts)
    ensures Replay(n, ts).history == LastK(n.history + ts, n.k)
    ensures Replay(n, ts).isEvictable == n.isEvictable && Replay(n, ts).frameId == n.frameId
    decreases |ts|
  {
    if ts == [] {
      assert n.history + ts == n.history;
    } else {
      ReplayStep(n, ts);
      ReplayKeepsMostRecentK(n.InsertHistoryTimestamp(ts[0]), ts[1..]);
    }
  }

  lemma EvictableFramesUpdate(store: map<FrameId, LrukNode>, f: FrameId, n: LrukNode)
    ensures EvictableFrames(store[f := n]) == (EvictableFrames(store) - {f}) + (if n.isEvictable then {f} else {})
  {
  }

  lemma EvictableFramesRemove(store: map<FrameId, LrukNode>, f: FrameId)
    ensures EvictableFrames(store - {f}) == EvictableFrames(store) - {f}
  {
  }

  /** Pin and unpin are idempotent: setting a flag to the value it already has changes nothing. */
  lemma SetEvictableIdempotent(store: map<FrameId, LrukNode>, f: FrameId, evictable: bool)
    ensures SetEvictable(SetEvictable(store, f, evictable), f, evictable) == SetEvictable(store, f, evictable)
    ensures f in store && store[f].isEvictable == evictable ==> SetEvictable(store, f, evictable) == store
  {
  }

  /** Cardinality of a set after `f` is taken out of it and, when `nowIn`, put back. */
  lemma FlagCount(s: set<FrameId>, f: FrameId, nowIn: bool)
    ensures |(s - {f}) + (if nowIn then {f} else {})| ==
      if (f in s) != nowIn then (if nowIn then |s| + 1 else |s| - 1) else |s|
  {
    if nowIn {
      assert (s - {f}) + {f} == s + {f};
    } else if f !in s {
      assert s - {f} == s;
    }
  }

  /** Number of evictable frames after setting the flag of `f`: it moves only on an actual change. */
  lemma SetEvictableCount(store: map<FrameId, LrukNode>, f: FrameId, evictable: bool)
    ensures |EvictableFrames(SetEvictable(store, f, evictable))| ==
      if f in store && store[f].isEvictable != evictable then
        (if evictable then |EvictableFrames(store)| + 1 else |EvictableFrames(store)| - 1)
      else |EvictableFrames(store)|
  {
    if f in store {
      EvictableFramesUpdate(store, f, store[f].(isEvictable := evictable));
      FlagCount(EvictableFrames(store), f, evictable);
    }
  }

  /**
   * In a consistent store any two distinct frames are strictly ordered as eviction
   * candidates, because their earliest timestamps differ.
   */
  lemma CandidatesTotallyOrdered(store: map<FrameId, LrukNode>, k: nat, now: Timestamp, f: FrameId, g: FrameId)
    requires k >= 1 && StoreInvariant(store, k, now)
    requires f in store && g in store && f != g
    ensures Precedes(store[f], store[g], k, now) || Precedes(store[g], store[f], k, now)
  {
    assert NodeInvariant(f, store[f], k, now) && NodeInvariant(g, store[g], k, now);
    assert Disjoint(store[f].history, store[g].history);
    assert store[f].history[0] != store[g].history[0];
  }

  /** At most one frame is the victim. */
  lemma VictimUnique(store: map<FrameId, LrukNode>, k: nat, now: Timestamp, f: FrameId, g: FrameId)
    requires k >= 1 && StoreInvariant(store, k, now)
    requires IsVictim(store, k, now, f) && IsVictim(store, k, now, g)
    ensures f == g
  {
  }

  class LrukReplacer {
    var nodeStore: map<FrameId, LrukNode>
    /** Number of evictable nodes, kept alongside the store. */
    var evictableSize: nat
    var currentTimestamp: Timestamp
    /** Number of accesses tracked per frame. */
    const k: nat

    ghost predicate Valid()
      reads this
    {
      && k >= 1
      && currentTimestamp < U64_MAX
      && evictableSize == |EvictableFrames(nodeStore)|
      && StoreInvariant(nodeStore, k, currentTimestamp)
    }

    constructor (k: nat)
      requires k >= 1
      ensures Valid()
      ensures this.k == k && nodeStore == map[] && evictableSize == 0 && currentTimestamp == 0
    {
      this.k := k;
      nodeStore := map[];
      evictableSize := 0;
      currentTimestamp := 0;
      assert EvictableFrames(map[]) == {};
    }

    /** Returns the current time and moves the clock one tick forward. */
    method AdvanceTimestamp() returns (oldTimestamp: Timestamp)
      modifies this`currentTimestamp
      ensures oldTimestamp == old(currentTimestamp) && currentTimestamp == old(currentTimestamp) + 1
    {
      oldTimestamp := currentTimestamp;
      currentTimestamp := currentTimestamp + 1;
    }

    /** Records an access to `frameId` at the current time, tracking the frame if it is new. */
    method RecordAccess(frameId: FrameId)
      requires Valid()
      requires currentTimestamp + 1 < U64_MAX
      modifies this
      ensures Valid()
      ensures frameId in nodeStore && nodeStore == old(nodeStore)[frameId := nodeStore[frameId]]
      ensures frameId in old(nodeStore) ==>
        nodeStore[frameId] ==
          old(nodeStore)[frameId].(history := LastK(old(nodeStore)[frameId].history + [old(currentTimestamp)], k))
      ensures frameId !in old(nodeStore) ==>
        nodeStore[frameId] == LrukNode(frameId, false, [old(currentTimestamp)], k)
      ensures currentTimestamp == old(currentTimestamp) + 1
      ensures evictableSize == old(evictableSize)
    {
      ghost var store0, now := nodeStore, currentTimestamp;
      if frameId !in nodeStore {
        var newNode := LrukNode(frameId, false, [], k);
        nodeStore := nodeStore[frameId := newNode];
      }
      var accessedFrame := nodeStore[frameId];
      assert accessedFrame == NodeToRecord(store0, frameId, k);
      RecordStep(store0, frameId, k, now);
      nodeStore := nodeStore[frameId := accessedFrame.InsertHistoryTimestamp(currentTimestamp)];
      assert nodeStore == store0[frameId := accessedFrame.InsertHistoryTimestamp(now)];
      var _ := AdvanceTimestamp();
    }

    /** Marks a tracked frame as not evictable. */
    method Pin(frameId: FrameId)
      requires Valid()
      modifies this
      ensures Valid()
      ensures nodeStore == SetEvictable(old(nodeStore), frameId, false)
      ensures evictableSize ==
        old(evictableSize) - (if frameId in old(nodeStore) && old(nodeStore)[frameId].isEvictable then 1 else 0)
      ensures currentTimestamp == old(currentTimestamp)
    {
      SetEvictableCount(nodeStore, frameId, false);
      SetEvictablePreservesInvariant(nodeStore, frameId, false, k, currentTimestamp);
      if frameId !in nodeStore {
        return;
      }
      var accessedFrame := nodeStore[frameId];
      if accessedFrame.isEvictable {
        nodeStore := nodeStore[frameId := accessedFrame.(isEvictable := false)];
        evictableSize := evictableSize - 1;
      }
    }

    /** Marks a tracked frame as evictable. */
    method Unpin(frameId: FrameId)
      requires Valid()
      modifies this
      ensures Valid()
      ensures nodeStore == SetEvictable(old(nodeStore), frameId, true)
      ensures evictableSize ==
        old(evictableSize) + (if frameId in old(nodeStore) && !old(nodeStore)[frameId].isEvictable then 1 else 0)
      ensures currentTimestamp == old(currentTimestamp)
    {
      SetEvictableCount(nodeStore, frameId, true);
      SetEvictablePreservesInvariant(nodeStore, frameId, true, k, currentTimestamp);
      if frameId !in nodeStore {
        return;
      }
      var accessedFrame := nodeStore[frameId];
      if !accessedFrame.isEvictable {
        nodeStore := nodeStore[frameId := accessedFrame.(isEvictable := true)];
        evictableSize := evictableSize + 1;
      }
    }

    /**
     * Removes and returns the evictable frame with the largest backward k-distance, ties
     * going to the smallest earliest timestamp; `None` when no frame is evictable. The scan
     * visits the tracked frames in any order.
     */
    method Evict() returns (victim: Option<FrameId>)
      requires Valid()
      modifies this
      ensures Valid()
      ensures currentTimestamp == old(currentTimestamp)
      ensures victim.None? <==> EvictableFrames(old(nodeStore)) == {}
      ensures victim.None? ==> nodeStore == old(nodeStore) && evictableSize == old(evictableSize)
      ensures victim.Some? ==> IsVictim(old(nodeStore), k, currentTimestamp, victim.value)
      ensures victim.Some? ==>
        nodeStore == old(nodeStore) - {victim.value} && evictableSize == old(evictableSize) - 1
    {
      var maxFrameId := 0;
      var maxKDist := 0;
      var earliest := U64_MAX;
      var modded := false;
      var remaining := nodeStore.Keys;
      while remaining != {}
        invariant remaining <= nodeStore.Keys
        invariant modded ==> maxFrameId in nodeStore && maxFrameId !in remaining && nodeStore[maxFrameId].isEvictable
        invariant modded ==> NodeInvariant(maxFrameId, nodeStore[maxFrameId], k, currentTimestamp)
        invariant modded ==> maxKDist == KDistance(nodeStore[maxFrameId].history, k, currentTimestamp)
        invariant modded ==> earliest == nodeStore[maxFrameId].history[0]
        invariant modded ==> forall g :: g in nodeStore && g !in remaining && g != maxFrameId && nodeStore[g].isEvictable ==>
          Precedes(nodeStore[maxFrameId], nodeStore[g], k, currentTimestamp)
        invariant !modded ==> maxKDist == 0 && earliest == U64_MAX
        invariant !modded ==> forall g :: g in nodeStore && g !in remaining ==> !nodeStore[g].isEvictable
        decreases remaining
      {
        var frameId :| frameId in remaining;
        var node := nodeStore[frameId];
        assert NodeInvariant(frameId, node, k, currentTimestamp);
        if node.isEvictable && node.GetBackwardsKDistance(currentTimestamp) > maxKDist {
          maxKDist := node.GetBackwardsKDistance(currentTimestamp);
          maxFrameId := frameId;
          earliest := node.GetEarliestTimestamp();
          modded := true;
        } else if node.isEvictable && node.GetBackwardsKDistance(currentTimestamp) == maxKDist {
          if node.GetEarliestTimestamp() < earliest {
            maxKDist := node.GetBackwardsKDistance(currentTimestamp);
            maxFrameId := frameId;
            earliest := node.GetEarliestTimestamp();
            modded := true;
          } else {
            assert modded;
            assert node.history[0] != earliest by {
              assert Disjoint(nodeStore[maxFrameId].history, node.history);
            }
          }
        }
        remaining := remaining - {frameId};
      }

      if modded {
        assert maxFrameId in EvictableFrames(nodeStore);
        EvictableFramesRemove(nodeStore, maxFrameId);
        RemovePreservesInvariant(nodeStore, maxFrameId, k, currentTimestamp);
        nodeStore := nodeStore - {maxFrameId};
        evictableSize := evictableSize - 1;
        return Some(maxFrameId);
      } else {
        assert EvictableFrames(nodeStore) == {};
        return None;
      }
    }

    /** Stops tracking `frameId`, but only if it is tracked and evictable. */
    method Remove(frameId: FrameId)
      requires Valid()
      modifies this
      ensures Valid()
      ensures currentTimestamp == old(currentTimestamp)
      ensures frameId in old(nodeStore) && old(nodeStore)[frameId].isEvictable ==>
        nodeStore == old(nodeStore) - {frameId} && evictableSize == old(evictableSize) - 1
      ensures !(frameId in old(nodeStore) && old(nodeStore)[frameId].isEvictable) ==>
        nodeStore == old(nodeStore) && evictableSize == old(evictableSize)
    {
      if frameId !in nodeStore {
        return;
      }
      var accessedFrame := nodeStore[frameId];
      if accessedFrame.isEvictable {
        assert frameId in EvictableFrames(nodeStore);
        EvictableFramesRemove(nodeStore, frameId);
        RemovePreservesInvariant(nodeStore, frameId, k, currentTimestamp);
        nodeStore := nodeStore - {frameId};
        evictableSize := evictableSize - 1;
      }
    }

    /** The number of evictable frames. */
    function EvictableCount(): (n: nat)
      reads this
      requires Valid()
      ensures n == |EvictableFrames(nodeStore)|
    {
      evictableSize
    }
  }

  /** The node `RecordAccess` stamps: the tracked one, or a fresh non-evictable node. */
  function NodeToRecord(store: map<FrameId, LrukNode>, f: FrameId, k: nat): LrukNode {
    if f in store then store[f] else LrukNode(f, false, [], k)
  }

  /**
   * Recording an access at time `now` is allowed (the new time is later than every recorded
   * one), leaves the set of evictable frames alone and keeps the store consistent once the
   * clock has moved past `now`.
   */
  lemma RecordStep(store: map<FrameId, LrukNode>, f: FrameId, k: nat, now: Timestamp)
    requires k >= 1 && StoreInvariant(store, k, now)
    ensures var n := NodeToRecord(store, f, k);
      && |n.history| <= k
      && (|n.history| == 0 || now > n.history[|n.history| - 1])
      && n.InsertHistoryTimestamp(now) == n.(history := LastK(n.history + [now], k))
      && var m := store[f := n.InsertHistoryTimestamp(now)];
         && EvictableFrames(m) == EvictableFrames(store)
         && StoreInvariant(m, k, now + 1)
  {
    var n := NodeToRecord(store, f, k);
    if f in store {
      assert NodeInvariant(f, store[f], k, now);
      assert n.history[|n.history| - 1] < now;
    }
    var updated := n.InsertHistoryTimestamp(now);
    EvictableFramesUpdate(store, f, updated);
    RecordedHistory(store, f, k, now);
    RecordKeepsNodes(store, f, updated, k, now);
    RecordKeepsDisjoint(store, f, updated, k, now);
  }

  /** The history `RecordAccess` leaves: `now` and older entries of the frame's own history. */
  lemma RecordedHistory(store: map<FrameId, LrukNode>, f: FrameId, k: nat, now: Timestamp)
    requires k >= 1 && StoreInvariant(store, k, now)
    ensures var n := NodeToRecord(store, f, k);
      && (|n.history| == 0 || now > n.history[|n.history| - 1])
      && var h := n.InsertHistoryTimestamp(now).history;
         && NodeInvariant(f, n.InsertHistoryTimestamp(now), k, now + 1)
         && forall i :: 0 <= i < |h| && h[i] != now ==> f in store && h[i] in store[f].history
  {
    var n := NodeToRecord(store, f, k);
    if f in store {
      assert NodeInvariant(f, store[f], k, now);
      assert n.history[|n.history| - 1] < now;
    }
    var h := n.InsertHistoryTimestamp(now).history;
    assert h == LastK(n.history + [now], k);
    forall i | 0 <= i < |h|
      ensures h[i] < now + 1
      ensures h[i] != now ==> f in store && h[i] in store[f].history
    {
      assert h[i] in h;
      LastKSubset(n.history + [now], k, h[i]);
    }
  }

  /** After recording, every node is still well formed with respect to the advanced clock. */
  lemma RecordKeepsNodes(store: map<FrameId, LrukNode>, f: FrameId, updated: LrukNode, k: nat, now: Timestamp)
    requires StoreInvariant(store, k, now) && NodeInvariant(f, updated, k, now + 1)
    ensures forall g {:trigger NodeInvariant(g, store[f := updated][g], k, now + 1)} ::
      g in store[f := updated] ==> NodeInvariant(g, store[f := updated][g], k, now + 1)
  {
    var m := store[f := updated];
    forall g | g in m
      ensures NodeInvariant(g, m[g], k, now + 1)
    {
      if g != f {
        assert NodeInvariant(g, store[g], k, now);
      }
    }
  }

  /** After recording, no two frames share a timestamp. */
  lemma RecordKeepsDisjoint(store: map<FrameId, LrukNode>, f: FrameId, updated: LrukNode, k: nat, now: Timestamp)
    requires StoreInvariant(store, k, now)
    requires forall i :: 0 <= i < |updated.history| && updated.history[i] != now ==>
      f in store && updated.history[i] in store[f].history
    ensures forall g, h {:trigger Disjoint(store[f := updated][g].history, store[f := updated][h].history)} ::
      g in store[f := updated] && h in store[f := updated] && g != h ==>
        Disjoint(store[f := updated][g].history, store[f := updated][h].history)
  {
    var m := store[f := updated];
    forall g, h | g in m && h in m && g != h
      ensures Disjoint(m[g].history, m[h].history)
    {
      if g == f {
        NewHistoryDisjoint(store, f, updated, k, now, h);
      } else if h == f {
        NewHistoryDisjoint(store, f, updated, k, now, g);
      } else {
        assert Disjoint(store[g].history, store[h].history);
      }
    }
  }

  /** The new history of `f` shares no timestamp with any other frame, in either direction. */
  lemma NewHistoryDisjoint(store: map<FrameId, LrukNode>, f: FrameId, updated: LrukNode, k: nat, now: Timestamp, g: FrameId)
    requires StoreInvariant(store, k, now)
    requires forall i :: 0 <= i < |updated.history| && updated.history[i] != now ==>
      f in store && updated.history[i] in store[f].history
    requires g in store && g != f
    ensures Disjoint(updated.history, store[g].history) && Disjoint(store[g].history, updated.history)
  {
    assert NodeInvariant(g, store[g], k, now);
    if f in store {
      assert Disjoint(store[f].history, store[g].history);
      assert Disjoint(store[g].history, store[f].history);
    }
    forall i | 0 <= i < |updated.history|
      ensures updated.history[i] !in store[g].history
    {
      if updated.history[i] != now {
        var j :| 0 <= j < |store[f].history| && store[f].history[j] == updated.history[i];
      }
    }
    forall i | 0 <= i < |store[g].history|
      ensures store[g].history[i] !in updated.history
    {
    }
  }

  /** Changing an evictable flag keeps the store consistent. */
  lemma SetEvictablePreservesInvariant(store: map<FrameId, LrukNode>, f: FrameId, evictable: bool, k: nat, now: Timestamp)
    requires StoreInvariant(store, k, now)
    ensures StoreInvariant(SetEvictable(store, f, evictable), k, now)
  {
    var m := SetEvictable(store, f, evictable);
    forall g | g in m
      ensures NodeInvariant(g, m[g], k, now)
    {
      assert NodeInvariant(g, store[g], k, now);
    }
    forall g, h | g in m && h in m && g != h
      ensures Disjoint(m[g].history, m[h].history)
    {
      assert Disjoint(store[g].history, store[h].history);
    }
  }

  /** Dropping a frame keeps the store consistent. */
  lemma RemovePreservesInvariant(store: map<FrameId, LrukNode>, f: FrameId, k: nat, now: Timestamp)
    requires StoreInvariant(store, k, now)
    ensures StoreInvariant(store - {f}, k, now)
  {
    var m := store - {f};
    forall g | g in m
      ensures NodeInvariant(g, m[g], k, now)
    {
      assert NodeInvariant(g, store[g], k, now);
    }
    forall g, h | g in m && h in m && g != h
      ensures Disjoint(m[g].history, m[h].history)
    {
      assert Disjoint(store[g].history, store[h].history);
    }
  }

  // ---------------------------------------------------------------- a concrete run

  /**
   * With k = 3, frame 1 accessed at times 0, 1 and 3 and frame 2 once at time 2, both
   * evictable: frame 2 has fewer than k accesses, so its infinite backward k-distance makes it
   * the first victim although frame 1 was accessed first; frame 1 follows.
   */
  method EvictInfiniteFirst() returns (first: Option<FrameId>, second: Option<FrameId>)
    ensures first == Some(2) && second == Some(1)
  {
    var replacer := TwoFrames();
    ghost var store := replacer.nodeStore;
    assert 2 in EvictableFrames(store);
    first := replacer.Evict();
    InfiniteDistanceFirst(store, first.value);
    second := replacer.Evict();
  }

  /** The accesses and unpins `EvictInfiniteFirst` starts from. */
  method TwoFrames() returns (replacer: LrukReplacer)
    ensures fresh(replacer) && replacer.Valid() && replacer.k == 3 && replacer.currentTimestamp == 4
    ensures replacer.nodeStore == map[1 := LrukNode(1, true, [0, 1, 3], 3), 2 := LrukNode(2, true, [2], 3)]
  {
    replacer := FrameOneTwice();
    replacer.RecordAccess(2);
    assert replacer.nodeStore == map[1 := LrukNode(1, false, [0, 1], 3), 2 := LrukNode(2, false, [2], 3)];
    replacer.RecordAccess(1);
    assert LastK([0, 1] + [3], 3) == [0, 1, 3];
    assert replacer.nodeStore == map[1 := LrukNode(1, false, [0, 1, 3], 3), 2 := LrukNode(2, false, [2], 3)];
    replacer.Unpin(2);
    replacer.Unpin(1);
  }

  /** A replacer with k = 3 after two accesses to frame 1. */
  method FrameOneTwice() returns (replacer: LrukReplacer)
    ensures fresh(replacer) && replacer.Valid() && replacer.k == 3 && replacer.currentTimestamp == 2
    ensures replacer.nodeStore == map[1 := LrukNode(1, false, [0, 1], 3)]
  {
    replacer := new LrukReplacer(3);
    replacer.RecordAccess(1);
    assert replacer.nodeStore == map[1 := LrukNode(1, false, [0], 3)];
    replacer.RecordAccess(1);
    assert LastK([0] + [1], 3) == [0, 1];
  }

  /** The store of `EvictInfiniteFirst` before its first eviction: frame 2 is the only victim. */
  lemma InfiniteDistanceFirst(store: map<FrameId, LrukNode>, f: FrameId)
    requires store == map[1 := LrukNode(1, true, [0, 1, 3], 3), 2 := LrukNode(2, true, [2], 3)]
    requires IsVictim(store, 3, 4, f)
    ensures f == 2
    ensures store - {f} == map[1 := LrukNode(1, true, [0, 1, 3], 3)]
    ensures 1 in EvictableFrames(store - {f})
  {
    assert !Precedes(store[1], store[2], 3, 4);
  }
}
