/** The prover's server: request handlers and batch finalization over shared state. */
module Settlement {
  import opened Arith
  import opened Merkle
  import opened LevelRun
  import opened Batch
  import opened StateTree
  import opened Allocator
  import TreeUtils

  /** Allocator, recorded updates, and the state index reported for each request so far. */
  datatype Server = Server(slots: Slots, updates: map<nat, Digest>, indices: seq<nat>)

  datatype Event = Request(requestHash: Digest) | Finalize

  const BOOT: Server := Server(NO_SLOTS, map[], [])

  function Handle(s: Server, e: Event): Server {
    match e
    case Request(hash) =>
      var (taken, idx) := TakeSlot(s.slots);
      Server(WriteSlot(taken, hash, idx), s.updates[idx := hash], s.indices + [idx])
    case Finalize => s.(slots := Requeue(s.slots))
  }

  function Serve(events: seq<Event>): Server {
    if events == [] then BOOT else Handle(Serve(events[..|events| - 1]), events[|events| - 1])
  }

  /** The request hashes of a run, in order. */
  function Hashes(events: seq<Event>): seq<Digest> {
    if events == [] then []
    else
      var before := Hashes(events[..|events| - 1]);
      match events[|events| - 1]
      case Request(hash) => before + [hash]
      case Finalize => before
  }

  // ----- the imperative server -----------------------------------------------------------------------

  class Prover {
    const stateTree: SuperficialTree
    var updatedStateHashes: map<nat, Digest>
    var stateIndices: seq<nat>
    const treeDepth: nat

    function View(): Server reads this, stateTree {
      Server(stateTree.View(), updatedStateHashes, stateIndices)
    }

    constructor ()
      ensures View() == BOOT && fresh(stateTree) && treeDepth == 16
      ensures updatedStateHashes == map[] && stateIndices == []
      ensures stateTree.leafNodes == [] && stateTree.count == 0 && stateTree.zeroIdxs == []
    {
      treeDepth := 16;
      stateTree := new SuperficialTree(3);
      updatedStateHashes, stateIndices := map[], [];
    }

    /** All four request handlers make this transition; the slot they use held nothing before. */
    method ExecuteRequest(requestHash: Digest) returns (zeroIdx: nat)
      modifies this, stateTree
      ensures View() == Handle(old(View()), Request(requestHash))
      ensures Get(old(View()).slots.leaves, 0, zeroIdx) == 0
      ensures Get(View().slots.leaves, 0, zeroIdx) == requestHash
      ensures forall i: nat :: i != zeroIdx ==> Get(View().slots.leaves, 0, i) == Get(old(View()).slots.leaves, 0, i)
      ensures updatedStateHashes == old(updatedStateHashes)[zeroIdx := requestHash]
      ensures stateIndices == old(stateIndices) + [zeroIdx]
    {
      zeroIdx := stateTree.FirstZeroIdx();
      stateTree.UpdateLeafNode(requestHash, zeroIdx);
      updatedStateHashes := updatedStateHashes[zeroIdx := requestHash];
      stateIndices := stateIndices + [zeroIdx];
    }

    /** Settling: the update map is run on a fresh tree (of depth 16 as the server is built). */
    method FinalizeBatch(h: Hash2)
      returns (prevRoot: Digest, newRoot: Digest, preimage: Witness, ghost snaps: seq<Snapshot>, ghost trs: seq<Trace>)
      requires treeDepth >= 1
      modifies stateTree
      ensures View() == Handle(old(View()), Finalize)
      ensures View().slots.leaves == old(View()).slots.leaves && updatedStateHashes == old(updatedStateHashes)
      ensures prevRoot == Zero(h, treeDepth)
      ensures Agrees(old(View())) ==> newRoot == Node(h, View().slots.leaves, treeDepth, 0)
      ensures updatedStateHashes != map[] ==> IsBatch(h, EmptyRows(treeDepth), updatedStateHashes, map[], snaps, trs)
      ensures updatedStateHashes != map[] ==> Last(snaps).preimage == preimage
    {
      stateTree.UpdateZeroIdxs();
      var batchInitTree := new Tree(h, treeDepth);
      EmptyTree(h, treeDepth);
      assert At(h, EmptyRows(treeDepth), treeDepth, 0) == Zero(h, treeDepth);
      prevRoot := batchInitTree.root;
      preimage, snaps, trs := batchInitTree.BatchTransitionUpdates(h, updatedStateHashes, map[]);
      newRoot := batchInitTree.root;
      if Agrees(old(View())) {
        SameRoot(h, treeDepth, batchInitTree.leafNodes, old(View()));
      }
    }
  }

  lemma SameRoot(h: Hash2, depth: nat, leaves: seq<Digest>, s: Server)
    requires Agrees(s)
    requires forall x: nat :: Get(leaves, 0, x) == Overridden(s.updates, [], x)
    ensures Node(h, leaves, depth, 0) == Node(h, s.slots.leaves, depth, 0)
  {
    forall x: nat ensures Get(leaves, 0, x) == Get(s.slots.leaves, 0, x) {
      assert Get(leaves, 0, x) == Overridden(s.updates, [], x);
    }
    TreeUtils.SameLeavesSameNodes(h, leaves, s.slots.leaves, depth, 0);
  }

  // ----- runs ------------------------------------------------------------------------------------------

  /** The update map describes the stored leaves, absent ones being zero. */
  ghost predicate Agrees(s: Server) {
    forall i: nat :: Get(s.slots.leaves, 0, i) == if i in s.updates then s.updates[i] else 0
  }

  /** Over any run the recorded updates describe the leaves. */
  lemma {:induction false} RecordedUpdatesAreTheLeaves(events: seq<Event>)
    ensures Agrees(Serve(events))
    decreases |events|
  {
    if events != [] {
      RecordedUpdatesAreTheLeaves(events[..|events| - 1]);
    }
  }

  /** Slots never run ahead of requests. */
  ghost predicate Bounded(s: Server, n: nat) {
    && |s.slots.leaves| <= s.slots.count <= n
    && QueueStored(s.slots)
    && (forall k :: 0 <= k < |s.indices| ==> s.indices[k] < n)
    && |s.indices| == n
    && forall i :: i in s.updates ==> i < n
  }

  lemma {:induction false} TakeSlotBounded(s: Slots)
    requires |s.leaves| <= s.count && QueueStored(s)
    ensures TakeSlot(s).1 < TakeSlot(s).0.count <= s.count + 1 && QueueStored(TakeSlot(s).0)
    decreases SearchBound(s)
  {
    var n := |s.queue|;
    if n > 0 && Get(s.leaves, 0, s.queue[n - 1]) != 0 {
      TakeSlotBounded(s.(queue := s.queue[..n - 1]));
    }
  }

  /** A run of n requests uses only indices below n, so at most 2^16 requests fit the tree. */
  lemma {:induction false} IndicesAreBounded(events: seq<Event>)
    ensures Bounded(Serve(events), |Hashes(events)|)
    decreases |events|
  {
    if events != [] {
      IndicesAreBounded(events[..|events| - 1]);
      var s := Serve(events[..|events| - 1]);
      TakeSlotBounded(s.slots);
      var (taken, idx) := TakeSlot(s.slots);
      match events[|events| - 1]
      case Finalize => RequeueStored(s.slots);
      case Request(hash) => WriteStored(taken, hash, idx);
    }
  }

  lemma RequeueStored(s: Slots)
    ensures QueueStored(Requeue(s))
  {
    forall k | 0 <= k < |Requeue(s).queue| ensures Requeue(s).queue[k] < |s.leaves| {
      assert Requeue(s).queue[k] in Requeue(s).queue;
    }
  }

  lemma WriteStored(s: Slots, hash: Digest, idx: nat)
    requires QueueStored(s) && idx < s.count && |s.leaves| <= s.count
    ensures QueueStored(WriteSlot(s, hash, idx)) && WriteSlot(s, hash, idx).count == s.count
    ensures |WriteSlot(s, hash, idx).leaves| <= s.count
  {
    var s' := WriteSlot(s, hash, idx);
    forall k | 0 <= k < |s'.queue| ensures s'.queue[k] < |s'.leaves| {
      assert s'.queue[k] in s'.queue;
    }
  }

  // ----- when indices are distinct ----------------------------------------------------------------------

  predicate Distinct(s: seq<nat>) {
    forall j, k :: 0 <= j < k < |s| ==> s[j] != s[k]
  }

  /** After n requests with non-zero hashes: slots 0..n in order, nothing queued. */
  predicate Clean(s: Server, n: nat) {
    && s.slots.count == n == |s.slots.leaves| && s.slots.queue == []
    && (forall i :: 0 <= i < n ==> s.slots.leaves[i] != 0)
    && s.indices == Range(0, n)
  }

  /** The same, except that the last request had hash zero and its slot is queued again. */
  predicate LastIsZero(s: Server, n: nat) {
    && n >= 1 && s.slots.count == n == |s.slots.leaves| && s.slots.queue == [n - 1]
    && (forall i :: 0 <= i < n - 1 ==> s.slots.leaves[i] != 0) && s.slots.leaves[n - 1] == 0
    && s.indices == Range(0, n)
  }

  predicate NonzeroUpTo(hashes: seq<Digest>, n: nat)
    requires n <= |hashes|
  {
    forall k :: 0 <= k < n ==> hashes[k] != 0
  }

  lemma {:induction false} NoZeroPositions(leaves: seq<Digest>, n: nat)
    requires n <= |leaves| && forall i :: 0 <= i < n ==> leaves[i] != 0
    ensures ZeroPositions(leaves, n) == []
    decreases n
  {
    if n > 0 { NoZeroPositions(leaves, n - 1); }
  }

  lemma CleanStep(s: Server, n: nat, e: Event)
    requires Clean(s, n)
    ensures match e
      case Finalize => Clean(Handle(s, e), n)
      case Request(hash) => if hash == 0 then LastIsZero(Handle(s, e), n + 1) else Clean(Handle(s, e), n + 1)
  {
    NoZeroPositions(s.slots.leaves, n);
    assert TakeSlot(s.slots) == (s.slots.(count := n + 1), n);
    assert Range(0, n) + [n] == Range(0, n + 1);
    assert Without([], n) == [];
  }

  lemma LastIsZeroStep(s: Server, n: nat, e: Event)
    requires LastIsZero(s, n)
    ensures match e
      case Finalize => LastIsZero(Handle(s, e), n)
      case Request(hash) => !Distinct(Handle(s, e).indices)
  {
    match e
    case Finalize =>
      NoZeroPositions(s.slots.leaves, n - 1);
    case Request(hash) =>
      assert TakeSlot(s.slots) == (s.slots.(queue := []), n - 1);
      var after := Handle(s, e).indices;
      assert after[n - 1] == after[n] == n - 1;
  }

  /** Which of the three shapes a run has left the server in. */
  ghost predicate Shape(s: Server, hs: seq<Digest>) {
    if NonzeroUpTo(hs, |hs|) then Clean(s, |hs|)
    else if NonzeroUpTo(hs, |hs| - 1) then LastIsZero(s, |hs|)
    else !Distinct(s.indices)
  }

  lemma ShapeStep(s: Server, hs: seq<Digest>, e: Event)
    requires Shape(s, hs)
    ensures Shape(Handle(s, e), match e case Request(hash) => hs + [hash] case Finalize => hs)
  {
    hide Clean, LastIsZero, Distinct, Handle;
    if NonzeroUpTo(hs, |hs|) {
      CleanStep(s, |hs|, e);
    } else if NonzeroUpTo(hs, |hs| - 1) {
      LastIsZeroStep(s, |hs|, e);
    } else {
      StillNotDistinct(s, e);
    }
    if e.Request? {
      assert forall k :: 0 <= k < |hs| ==> (hs + [e.requestHash])[k] == hs[k];
    }
  }

  lemma {:induction false} RunShape(events: seq<Event>)
    ensures Shape(Serve(events), Hashes(events))
    decreases |events|
  {
    hide Shape, Handle;
    if events != [] {
      RunShape(events[..|events| - 1]);
      ShapeStep(Serve(events[..|events| - 1]), Hashes(events[..|events| - 1]), events[|events| - 1]);
    } else {
      BootShape();
    }
  }

  lemma BootShape()
    ensures Shape(BOOT, [])
  {
  }

  lemma StillNotDistinct(s: Server, e: Event)
    requires !Distinct(s.indices)
    ensures !Distinct(Handle(s, e).indices)
  {
    var j, k :| 0 <= j < k < |s.indices| && s.indices[j] == s.indices[k];
    assert Handle(s, e).indices[j] == Handle(s, e).indices[k];
  }

  /** State indices are pairwise distinct exactly when no request but the last had hash zero. */
  lemma DistinctIffNonzero(events: seq<Event>)
    ensures Distinct(Serve(events).indices) <==>
      forall k :: 0 <= k < |Hashes(events)| - 1 ==> Hashes(events)[k] != 0
  {
    hide Serve, Hashes, Handle;
    RunShape(events);
    var n := |Hashes(events)|;
    assert n > 0 ==> (NonzeroUpTo(Hashes(events), n - 1) <==> forall k :: 0 <= k < n - 1 ==> Hashes(events)[k] != 0);
  }

  // ----- what the leaves hold ---------------------------------------------------------------------------------

  /** The hash of the last request that was given index i, or 0. */
  function LastAt(indices: seq<nat>, hashes: seq<Digest>, i: nat): Digest
    requires |indices| == |hashes|
  {
    if indices == [] then 0
    else
      var n := |indices| - 1;
      if indices[n] == i then hashes[n] else LastAt(indices[..n], hashes[..n], i)
  }

  /** Over any run every leaf holds the hash of the last request that was given it. */
  lemma {:induction false} LeavesAreRequests(events: seq<Event>)
    ensures |Serve(events).indices| == |Hashes(events)|
    ensures forall i: nat :: Get(Serve(events).slots.leaves, 0, i) == LastAt(Serve(events).indices, Hashes(events), i)
    decreases |events|
  {
    if events != [] {
      var before := events[..|events| - 1];
      LeavesAreRequests(before);
      match events[|events| - 1]
      case Finalize =>
      case Request(hash) =>
        var (indices, hashes) := (Serve(events).indices, Hashes(events));
        assert indices[..|indices| - 1] == Serve(before).indices && hashes[..|hashes| - 1] == Hashes(before);
    }
  }

  lemma {:induction false} LastInOrder(hashes: seq<Digest>, i: nat)
    ensures LastAt(Range(0, |hashes|), hashes, i) == if i < |hashes| then hashes[i] else 0
    decreases |hashes|
  {
    if hashes != [] {
      var n := |hashes| - 1;
      assert Range(0, n + 1)[..n] == Range(0, n);
      LastInOrder(hashes[..n], i);
    }
  }

  /** After any run of requests with non-zero hashes, finalized or not in between, leaf k is the hash of
      request k, its state index is k, and so it is recorded. */
  lemma LeavesAreHashes(events: seq<Event>)
    requires forall k :: 0 <= k < |Hashes(events)| ==> Hashes(events)[k] != 0
    ensures Serve(events).slots.leaves == Hashes(events)
    ensures Serve(events).indices == Range(0, |Hashes(events)|)
    ensures Serve(events).updates == map k | 0 <= k < |Hashes(events)| :: Hashes(events)[k]
  {
    RunShape(events);
    LeavesAreRequests(events);
    RecordedUpdatesAreTheLeaves(events);
    IndicesAreBounded(events);
    var s, hs := Serve(events), Hashes(events);
    hide Serve, Hashes;
    forall i: nat ensures Get(s.slots.leaves, 0, i) == if i < |hs| then hs[i] else 0 { LastInOrder(hs, i); }
    forall k: nat | k < |hs| ensures k in s.updates && s.updates[k] == hs[k] {
      assert Get(s.slots.leaves, 0, k) == hs[k];
    }
  }

  // ----- the settled roots ---------------------------------------------------------------------------------

  /** A finalization after any run: the old root is the empty tree's, the new root is the root of the
      stored leaves, and for every recorded index the witness shows a zero leaf below the old root and
      the recorded hash below the new one. The depth is 16 in the server. */
  lemma SettledRoots(h: Hash2, events: seq<Event>, depth: nat, snaps: seq<Snapshot>, trs: seq<Trace>, idx: nat)
    requires depth >= 1 && |Hashes(events)| <= Pow2(depth)
    requires IsBatch(h, EmptyRows(depth), Serve(events).updates, map[], snaps, trs)
    requires idx in Serve(events).updates && |Last(snaps).rows| == depth + 1
    requires CollisionFree(h, EmptyRows(depth), Last(snaps).rows, Serve(events).updates, map[])
    ensures var leaves, pre := Serve(events).slots.leaves, Last(snaps).preimage;
      ShowsChange(pre, depth, idx, Zero(h, depth), 0, Node(h, leaves, depth, 0), Get(leaves, 0, idx))
    ensures Get(Serve(events).slots.leaves, 0, idx) == Serve(events).updates[idx]
  {
    var s := Serve(events);
    RecordedUpdatesAreTheLeaves(events);
    IndicesAreBounded(events);
    hide Serve, Hashes, CollisionFree, IsBatch, Walk;
    EmptyTree(h, depth);
    SettledWalks(h, s, depth, snaps, trs, idx);
  }

  /** With non-zero request hashes: the new root is the Merkle root of the hashes themselves, and at every
      request's index the witness shows 0 before and that request's hash after. */
  lemma SettledHashes(h: Hash2, events: seq<Event>, depth: nat, snaps: seq<Snapshot>, trs: seq<Trace>, k: nat)
    requires forall j :: 0 <= j < |Hashes(events)| ==> Hashes(events)[j] != 0
    requires depth >= 1 && k < |Hashes(events)| <= Pow2(depth)
    requires IsBatch(h, EmptyRows(depth), Serve(events).updates, map[], snaps, trs) && |Last(snaps).rows| == depth + 1
    requires CollisionFree(h, EmptyRows(depth), Last(snaps).rows, Serve(events).updates, map[])
    ensures ShowsChange(Last(snaps).preimage, depth, k, Zero(h, depth), 0,
                        Node(h, Hashes(events), depth, 0), Hashes(events)[k])
  {
    LeavesAreHashes(events);
    SettledRoots(h, events, depth, snaps, trs, k);
    hide Serve, Hashes, IsBatch, CollisionFree, Node, ShowsChange;
  }

  /** Both walks for `idx` succeed and end in the given leaves. */
  predicate ShowsChange(pre: Witness, depth: nat, idx: nat, oldRoot: Digest, oldLeaf: Digest, newRoot: Digest,
                        newLeaf: Digest) {
    && Walk(pre, oldRoot, depth, idx).Reached? && Walk(pre, oldRoot, depth, idx).leaf == oldLeaf
    && Walk(pre, newRoot, depth, idx).Reached? && Walk(pre, newRoot, depth, idx).leaf == newLeaf
  }

  lemma SettledWalks(h: Hash2, s: Server, depth: nat, snaps: seq<Snapshot>, trs: seq<Trace>, idx: nat)
    requires depth >= 1 && Agrees(s) && idx in s.updates && idx < Pow2(depth)
    requires IsBatch(h, EmptyRows(depth), s.updates, map[], snaps, trs) && |Last(snaps).rows| == depth + 1
    requires CollisionFree(h, EmptyRows(depth), Last(snaps).rows, s.updates, map[])
    ensures ShowsChange(Last(snaps).preimage, depth, idx, Zero(h, depth), 0,
                        Node(h, s.slots.leaves, depth, 0), s.updates[idx])
  {
    hide CollisionFree, Walk, Node;
    EmptyTree(h, depth);
    BatchRefinesSpec(h, EmptyRows(depth), s.updates, map[], snaps, trs);
    var rows := Last(snaps).rows;
    SameRoot(h, depth, rows[0], s);
    assert At(h, rows, depth, 0) == Node(h, rows[0], depth, 0);
    assert At(h, EmptyRows(depth), depth, 0) == Zero(h, depth);
    WitnessForBothRoots(h, EmptyRows(depth), s.updates, map[], snaps, trs, idx);
  }
}
