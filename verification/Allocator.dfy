/** The free-slot allocator kept beside the state tree. */
module Allocator {
  import opened Merkle
  import opened StateTree

  /** The allocator's fields as a value: stored leaves, slot counter, queue of zero slots. */
  datatype Slots = Slots(leaves: seq<Digest>, count: nat, queue: seq<nat>)

  const NO_SLOTS: Slots := Slots([], 0, [])

  function Range(lo: nat, hi: nat): (r: seq<nat>)
    requires lo <= hi
    ensures |r| == hi - lo && forall k :: 0 <= k < |r| ==> r[k] == lo + k
  {
    seq(hi - lo, k requires 0 <= k < hi - lo => lo + k)
  }

  /** The list with every x left out, the order kept. */
  function Without(s: seq<nat>, x: nat): (r: seq<nat>)
    ensures forall y :: y in r <==> y in s && y != x
  {
    if s == [] then []
    else Without(s[..|s| - 1], x) + (if s[|s| - 1] != x then [s[|s| - 1]] else [])
  }

  /** The positions below `n` that hold a zero leaf, in order. */
  function ZeroPositions(leaves: seq<Digest>, n: nat): (r: seq<nat>)
    requires n <= |leaves|
    ensures forall x: nat :: x in r <==> x < n && leaves[x] == 0
    ensures forall k :: 0 <= k < |r| ==> r[k] < n
    ensures forall j, k :: 0 <= j < k < |r| ==> r[j] < r[k]
  {
    if n == 0 then []
    else ZeroPositions(leaves, n - 1) + (if leaves[n - 1] == 0 then [n - 1] else [])
  }

  lemma WithoutLast(s: seq<nat>, y: nat, x: nat)
    ensures Without(s + [y], x) == Without(s, x) + if y != x then [y] else []
  {
    assert (s + [y])[..|s|] == s;
  }

  /** Leaving out is done piece by piece ... */
  lemma {:induction false} WithoutConcat(s: seq<nat>, t: seq<nat>, x: nat)
    ensures Without(s + t, x) == Without(s, x) + Without(t, x)
    decreases |t|
  {
    hide Without;
    if t == [] {
      assert s + t == s;
      WithoutNone(x);
    } else {
      var front, last := t[..|t| - 1], t[|t| - 1];
      WithoutConcat(s, front, x);
      WithoutLast(front, last, x);
      WithoutLast(s + front, last, x);
      assert t == front + [last];
      assert s + t == s + front + [last];
    }
  }

  lemma WithoutNone(x: nat)
    ensures Without([], x) == []
  {
  }

  /** ... and keeps a list that does not hold x. */
  lemma {:induction false} WithoutAbsent(s: seq<nat>, x: nat)
    requires x !in s
    ensures Without(s, x) == s
    decreases |s|
  {
    if s != [] {
      WithoutAbsent(s[..|s| - 1], x);
      assert s == s[..|s| - 1] + [s[|s| - 1]];
    }
  }

  function WriteSlot(s: Slots, leafHash: Digest, idx: nat): Slots {
    var leaves := Put(s.leaves, 0, idx, leafHash);
    if leafHash == 0 then Slots(leaves, s.count, s.queue + [idx])
    else if idx > s.count then Slots(leaves, idx, s.queue + Range(s.count, idx))
    else if idx == s.count then Slots(leaves, s.count + 1, s.queue)
    else Slots(leaves, s.count, Without(s.queue, idx))
  }

  function Requeue(s: Slots): Slots {
    s.(queue := ZeroPositions(s.leaves, |s.leaves|))
  }

  /** The allocator of a stored tree: all its leaves counted, its zero leaves queued. */
  function Rebuilt(leaves: seq<Digest>): Slots { Requeue(Slots(leaves, |leaves|, [])) }

  /** Queued slots plus stored leaves at or past the counter. */
  function SearchBound(s: Slots): nat {
    |s.queue| + if |s.leaves| > s.count then |s.leaves| - s.count else 0
  }

  /** Taking the next slot: from the back of the queue, else from the counter, skipping occupied ones. */
  function TakeSlot(s: Slots): (r: (Slots, nat))
    ensures r.0.leaves == s.leaves && r.0.count >= s.count
    ensures Get(s.leaves, 0, r.1) == 0
    decreases SearchBound(s)
  {
    var n := |s.queue|;
    var idx := if n == 0 then s.count else s.queue[n - 1];
    var s' := if n == 0 then s.(count := s.count + 1) else s.(queue := s.queue[..n - 1]);
    if Get(s.leaves, 0, idx) != 0 then TakeSlot(s') else (s', idx)
  }

  /** Exactly which slot is taken: the rearmost queued one that is free, those behind it being dropped;
      or, when no queued slot is free, the first free one from the counter on. */
  lemma {:induction false} TakeSlotIs(s: Slots) returns (m: nat)
    ensures var (t, idx) := TakeSlot(s);
      if m < |s.queue| then
        && idx == s.queue[m] && t == s.(queue := s.queue[..m])
        && forall k :: m < k < |s.queue| ==> Get(s.leaves, 0, s.queue[k]) != 0
      else
        && idx >= s.count && t == Slots(s.leaves, idx + 1, [])
        && (forall k :: 0 <= k < |s.queue| ==> Get(s.leaves, 0, s.queue[k]) != 0)
        && forall i :: s.count <= i < idx ==> Get(s.leaves, 0, i) != 0
    decreases SearchBound(s)
  {
    var n := |s.queue|;
    var idx := if n == 0 then s.count else s.queue[n - 1];
    var s' := if n == 0 then s.(count := s.count + 1) else s.(queue := s.queue[..n - 1]);
    if Get(s.leaves, 0, idx) == 0 {
      m := if n == 0 then 0 else n - 1;
    } else {
      m := TakeSlotIs(s');
      if n > 0 {
        assert s.queue == s'.queue + [idx];
        if m >= n - 1 { m := n; } else { assert s'.queue[..m] == s.queue[..m]; }
      }
    }
  }

  class SuperficialTree {
    var leafNodes: seq<Digest>
    const depth: nat
    var count: nat
    var zeroIdxs: seq<nat>

    function View(): Slots reads this { Slots(leafNodes, count, zeroIdxs) }

    constructor (depth: nat)
      ensures View() == NO_SLOTS && this.depth == depth
      ensures leafNodes == [] && count == 0 && zeroIdxs == []
    {
      this.depth := depth;
      leafNodes, count, zeroIdxs := [], 0, [];
    }

    /** Rebuilding the allocator from a stored tree queues exactly its zero leaves. */
    constructor FromTree(tree: Tree)
      ensures View() == Rebuilt(tree.leafNodes) && depth == tree.depth
      ensures leafNodes == tree.leafNodes && count == |tree.leafNodes|
      ensures zeroIdxs == ZeroPositions(tree.leafNodes, |tree.leafNodes|)
    {
      depth := tree.depth;
      leafNodes, count := tree.leafNodes, |tree.leafNodes|;
      zeroIdxs := [];
      new;
      UpdateZeroIdxs();
    }

    method UpdateLeafNode(leafHash: Digest, idx: nat)
      modifies this
      ensures View() == WriteSlot(old(View()), leafHash, idx)
      ensures leafNodes == Put(old(leafNodes), 0, idx, leafHash)
      ensures leafHash == 0 ==> count == old(count) && zeroIdxs == old(zeroIdxs) + [idx]
      ensures leafHash != 0 && idx < old(count) ==> count == old(count) && zeroIdxs == Without(old(zeroIdxs), idx)
      ensures leafHash != 0 && idx == old(count) ==> count == idx + 1 && zeroIdxs == old(zeroIdxs)
      ensures leafHash != 0 && idx > old(count) ==> count == idx && zeroIdxs == old(zeroIdxs) + Range(old(count), idx)
    {
      if leafHash != 0 {
        if idx > count {
          for i := count to idx
            invariant count == old(count) && leafNodes == old(leafNodes)
            invariant zeroIdxs == old(zeroIdxs) + Range(count, i)
          {
            zeroIdxs := zeroIdxs + [i];
          }
          count := idx;
        } else if idx == count {
          count := count + 1;
        } else {
          zeroIdxs := Without(zeroIdxs, idx);
        }
      } else {
        zeroIdxs := zeroIdxs + [idx];
      }
      ghost var counted, queued := count, zeroIdxs;
      if |leafNodes| > idx {
        leafNodes := leafNodes[idx := leafHash];
      } else {
        var lenDiff := idx - |leafNodes|;
        for k := 0 to lenDiff
          invariant count == counted && zeroIdxs == queued
          invariant leafNodes == old(leafNodes) + Repeat(0, k)
        {
          leafNodes := leafNodes + [0];
        }
        leafNodes := leafNodes + [leafHash];
      }
    }

    method UpdateZeroIdxs()
      modifies this
      ensures View() == Requeue(old(View()))
      ensures leafNodes == old(leafNodes) && count == old(count)
      ensures zeroIdxs == ZeroPositions(leafNodes, |leafNodes|)
    {
      ghost var leaves := leafNodes;
      zeroIdxs := [];
      for idx := 0 to |leafNodes|
        invariant leafNodes == leaves && count == old(count)
        invariant zeroIdxs == ZeroPositions(leaves, idx)
      {
        if leafNodes[idx] == 0 {
          zeroIdxs := zeroIdxs + [idx];
        }
      }
    }

    /** Terminates from every state; the slot it returns is zero or not stored. */
    method FirstZeroIdx() returns (idx: nat)
      modifies this
      ensures (View(), idx) == TakeSlot(old(View()))
      ensures GetLeafByIndex(idx) == 0
      decreases SearchBound(View())
    {
      if |zeroIdxs| == 0 {
        idx := count;
        count := count + 1;
      } else {
        idx := zeroIdxs[|zeroIdxs| - 1];
        zeroIdxs := zeroIdxs[..|zeroIdxs| - 1];
      }
      if idx < |leafNodes| && leafNodes[idx] != 0 {
        idx := FirstZeroIdx();
      }
    }

    function GetLeafByIndex(index: nat): (v: Digest)
      reads this
      ensures v == Get(View().leaves, 0, index)
    {
      if index < |leafNodes| then leafNodes[index] else 0
    }
  }

  // ----- no slot leaks -------------------------------------------------------------------------------

  datatype Op = Write(leafHash: Digest, idx: nat) | Rebuild | Allocate

  /** A run of allocator operations, remembering the slots handed out and not yet written. */
  datatype Tracked = Tracked(slots: Slots, handed: set<nat>)

  function Apply(t: Tracked, op: Op): Tracked {
    match op
    case Write(leafHash, idx) => Tracked(WriteSlot(t.slots, leafHash, idx), t.handed - {idx})
    case Rebuild => t.(slots := Requeue(t.slots))
    case Allocate => var (s, idx) := TakeSlot(t.slots); Tracked(s, t.handed + {idx})
  }

  /** A run from the allocator of a stored tree; with no leaves it is the empty allocator. */
  function ApplyAll(leaves: seq<Digest>, ops: seq<Op>): Tracked {
    if ops == [] then Tracked(Rebuilt(leaves), {})
    else Apply(ApplyAll(leaves, ops[..|ops| - 1]), ops[|ops| - 1])
  }

  /** Every slot below the counter is occupied, queued, or handed out and not yet written. */
  ghost predicate NoLeak(t: Tracked) {
    forall i: nat :: i < t.slots.count ==> Get(t.slots.leaves, 0, i) != 0 || i in t.slots.queue || i in t.handed
  }

  predicate QueueStored(s: Slots) {
    forall k :: 0 <= k < |s.queue| ==> s.queue[k] < |s.leaves|
  }

  lemma {:induction false} TakeSlotKeeps(s: Slots, handed: set<nat>)
    requires NoLeak(Tracked(s, handed)) && QueueStored(s)
    ensures NoLeak(Tracked(TakeSlot(s).0, handed + {TakeSlot(s).1})) && QueueStored(TakeSlot(s).0)
    decreases SearchBound(s)
  {
    var n := |s.queue|;
    var idx := if n == 0 then s.count else s.queue[n - 1];
    var s' := if n == 0 then s.(count := s.count + 1) else s.(queue := s.queue[..n - 1]);
    if n > 0 {
      assert s.queue == s'.queue + [idx];
    }
    if Get(s.leaves, 0, idx) != 0 {
      TakeSlotKeeps(s', handed);
    }
  }

  lemma {:induction false} NoSlotLeaks(leaves: seq<Digest>, ops: seq<Op>)
    ensures NoLeak(ApplyAll(leaves, ops)) && QueueStored(ApplyAll(leaves, ops).slots)
    ensures ApplyAll([], []).slots == NO_SLOTS
    decreases |ops|
  {
    if ops == [] {
      RebuiltKeeps(leaves);
    } else {
      var t := ApplyAll(leaves, ops[..|ops| - 1]);
      NoSlotLeaks(leaves, ops[..|ops| - 1]);
      match ops[|ops| - 1]
      case Allocate => TakeSlotKeeps(t.slots, t.handed);
      case Rebuild => RebuildKeeps(t);
      case Write(leafHash, idx) => WriteKeeps(t, leafHash, idx);
    }
  }

  lemma RebuiltKeeps(leaves: seq<Digest>)
    ensures NoLeak(Tracked(Rebuilt(leaves), {})) && QueueStored(Rebuilt(leaves))
  {
    var s := Rebuilt(leaves);
    forall k | 0 <= k < |s.queue| ensures s.queue[k] < |leaves| {
      assert s.queue[k] in s.queue;
    }
  }

  lemma RebuildKeeps(t: Tracked)
    requires NoLeak(t) && QueueStored(t.slots)
    ensures NoLeak(Apply(t, Rebuild)) && QueueStored(Apply(t, Rebuild).slots)
  {
    var t' := Apply(t, Rebuild);
    forall k | 0 <= k < |t'.slots.queue| ensures t'.slots.queue[k] < |t.slots.leaves| {
      assert t'.slots.queue[k] in t'.slots.queue;
    }
    forall i: nat | i < t.slots.count
      ensures Get(t.slots.leaves, 0, i) != 0 || i in t'.slots.queue || i in t.handed
    {
      if i in t.slots.queue {
        assert i < |t.slots.leaves|;
      }
    }
  }

  lemma WriteKeeps(t: Tracked, leafHash: Digest, idx: nat)
    requires NoLeak(t) && QueueStored(t.slots)
    ensures NoLeak(Apply(t, Write(leafHash, idx))) && QueueStored(Apply(t, Write(leafHash, idx)).slots)
  {
    var s, s' := t.slots, WriteSlot(t.slots, leafHash, idx);
    forall k | 0 <= k < |s'.queue| ensures s'.queue[k] < |s'.leaves| {
      assert s'.queue[k] in s'.queue;
    }
    forall i: nat | i < s'.count && i != idx
      ensures Get(s'.leaves, 0, i) != 0 || i in s'.queue || i in t.handed
    {
      if leafHash != 0 && s.count <= i < idx {
        assert Range(s.count, idx)[i - s.count] == i;
      }
    }
  }
}
