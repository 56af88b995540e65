/** The sparse state tree, updated in place: vectors that grow lazily, one per level. */
module StateTree {
  import opened Arith
  import opened Merkle
  import opened LevelRun
  import opened Batch
  import opened Scheduler
  import opened TreeUtils

  /** A map's iteration order: some enumeration of its keys. */
  method Enumerate(m: map<nat, Digest>) returns (order: seq<nat>)
    ensures forall p, q :: 0 <= p < q < |order| ==> order[p] != order[q]
    ensures forall x :: x in m <==> x in order
  {
    order := [];
    var rest := m.Keys;
    while rest != {}
      invariant rest <= m.Keys
      invariant forall x :: x in m <==> x in rest || x in order
      invariant forall x :: x in rest ==> x !in order
      invariant forall p, q :: 0 <= p < q < |order| ==> order[p] != order[q]
      decreases |rest|
    {
      var x :| x in rest;
      order := order + [x];
      rest := rest - {x};
    }
  }

  /** Folding the siblings of a leaf's path over its index bits climbs a consistent tree. */
  lemma {:induction false} ProofClimbs(h: Hash2, rows: seq<seq<Digest>>, idx: nat, k: nat, proof: seq<Digest>,
                                       pos: seq<nat>)
    requires Consistent(h, rows) && k < |rows| && |proof| == |pos| == k
    requires forall l: nat :: l < k ==> proof[l] == At(h, rows, l, Sibling(Anc(idx, l)))
    requires forall l: nat :: l < k ==> pos[l] == Anc(idx, l) % 2
    ensures FoldProof(h, At(h, rows, 0, idx), proof, pos) == At(h, rows, k, Anc(idx, k))
    decreases k
  {
    if k > 0 {
      ProofClimbs(h, rows, idx, k - 1, proof[..k - 1], pos[..k - 1]);
      assert NodeOk(h, rows, k, Anc(idx, k));
      assert Anc(idx, k) == Anc(idx, k - 1) / 2;
    }
  }

  lemma EmptyTree(h: Hash2, depth: nat)
    ensures Consistent(h, EmptyRows(depth))
    ensures forall k: nat, j: nat :: k <= depth ==> At(h, EmptyRows(depth), k, j) == Zero(h, k)
  {
    forall k: nat, j: nat | 1 <= k <= depth ensures NodeOk(h, EmptyRows(depth), k, j) {}
  }

  class Tree {
    var leafNodes: seq<Digest>
    var innerNodes: seq<seq<Digest>>
    const depth: nat
    var root: Digest

    predicate Valid() reads this { |innerNodes| == depth }

    /** All rows, leaves first. */
    function Rows(): seq<seq<Digest>> reads this { [leafNodes] + innerNodes }

    function Row(k: nat): (row: seq<Digest>)
      requires Valid() && k <= depth
      reads this
      ensures row == Rows()[k]
    {
      if k == 0 then leafNodes else innerNodes[k - 1]
    }

    constructor (h: Hash2, depth: nat)
      ensures Valid() && this.depth == depth
      ensures leafNodes == [] && Rows() == EmptyRows(depth) && root == Zero(h, depth)
    {
      this.depth := depth;
      leafNodes := [];
      root := Zero(h, depth);
      innerNodes := seq(depth, k => []);
    }

    // ----- node accessors --------------------------------------------------------------------

    method UpdateLeafNode(leafHash: Digest, idx: nat)
      modifies this`leafNodes
      ensures leafNodes == Put(old(leafNodes), 0, idx, leafHash)
    {
      if |leafNodes| > idx {
        leafNodes := leafNodes[idx := leafHash];
      } else {
        var lenDiff := idx - |leafNodes|;
        for k := 0 to lenDiff
          invariant leafNodes == old(leafNodes) + Repeat(0, k)
        {
          leafNodes := leafNodes + [0];
        }
        leafNodes := leafNodes + [leafHash];
      }
    }

    method UpdateInnerNode(h: Hash2, i: nat, j: nat, value: Digest)
      requires Valid() && 1 <= i <= depth
      modifies this`innerNodes
      ensures Valid() && innerNodes[i - 1] == Put(old(innerNodes)[i - 1], Zero(h, i), j, value)
      ensures forall k :: 0 <= k < depth && k != i - 1 ==> innerNodes[k] == old(innerNodes)[k]
    {
      if |innerNodes[i - 1]| > j {
        innerNodes := innerNodes[i - 1 := innerNodes[i - 1][j := value]];
      } else {
        var lenDiff := j - |innerNodes[i - 1]|;
        for k := 0 to lenDiff
          invariant Valid() && innerNodes[i - 1] == old(innerNodes)[i - 1] + Repeat(Zero(h, i), k)
          invariant forall k :: 0 <= k < depth && k != i - 1 ==> innerNodes[k] == old(innerNodes)[k]
        {
          innerNodes := innerNodes[i - 1 := innerNodes[i - 1] + [Zero(h, i)]];
        }
        innerNodes := innerNodes[i - 1 := innerNodes[i - 1] + [value]];
      }
    }

    function NthLeafNode(h: Hash2, n: nat): (v: Digest)
      requires Valid()
      reads this
      ensures v == At(h, Rows(), 0, n)
    {
      if n < |leafNodes| then leafNodes[n] else Zero(h, 0)
    }

    function IthInnerNode(h: Hash2, i: nat, j: nat): (v: Digest)
      requires Valid() && 1 <= i
      reads this
      ensures i <= depth ==> v == At(h, Rows(), i, j)
      ensures i > depth ==> v == Zero(h, i)
    {
      if i - 1 < |innerNodes| && j < |innerNodes[i - 1]| then innerNodes[i - 1][j] else Zero(h, i)
    }

    // ----- one level -----------------------------------------------------------------------------

    /** The rows of the tree agree with the state `s` of a run of level `i` that began at `rows0`. */
    ghost predicate Mirrors(i: nat, rows0: seq<seq<Digest>>, s: State)
      reads this
    {
      && Valid() && i < depth && |rows0| == depth + 1
      && Row(i) == s.child && Row(i + 1) == s.parent
      && forall k: nat :: k <= depth && k != i && k != i + 1 ==> Row(k) == rows0[k]
    }

    lemma MirrorsStart(i: nat, lv: Level, preimage: Witness)
      requires Valid() && i < depth
      ensures |Rows()| == depth + 1 && Mirrors(i, Rows(), Init(lv, Rows()[i], Rows()[i + 1], preimage))
    {
    }

    /** Only the two rows of the state matter. */
    lemma MirrorsSame(i: nat, rows0: seq<seq<Digest>>, s: State, s': State)
      requires Mirrors(i, rows0, s) && s'.child == s.child && s'.parent == s.parent
      ensures Mirrors(i, rows0, s')
    {
    }

    lemma MirrorsRows(i: nat, rows0: seq<seq<Digest>>, s: State)
      requires Mirrors(i, rows0, s)
      ensures Valid() && |rows0| == depth + 1 && i < depth
      ensures Rows() == rows0[i := s.child][i + 1 := s.parent]
    {
      forall k | 0 <= k <= depth ensures Rows()[k] == rows0[i := s.child][i + 1 := s.parent][k] {
        assert Row(k) == Rows()[k];
      }
    }

    /** First region of a loop iteration of build_first_row or build_next_row. */
    method FetchRegion(h: Hash2, i: nat, hashes: map<nat, Digest>, idx: nat, ghost lv: Level,
                       ghost rows0: seq<seq<Digest>>, ghost s: State)
      returns (ph: Phase)
      requires Mirrors(i, rows0, s) && idx in hashes
      requires lv.h == h && lv.first == (i == 0) && lv.hashes == hashes && lv.zc == Zero(h, i)
      modifies this`leafNodes
      ensures ph == FetchChildren(lv, s.child, idx).1
      ensures Mirrors(i, rows0, s.(child := FetchChildren(lv, s.child, idx).0))
    {
      if idx % 2 == 0 {
        if idx + 1 in hashes {
          ph := Skipped;
        } else if i == 0 {
          var initLeft, right := NthLeafNode(h, idx), NthLeafNode(h, idx + 1);
          ph := Fetched(hashes[idx], right, initLeft, right);
        } else {
          var hash, right := IthInnerNode(h, i, idx), IthInnerNode(h, i, idx + 1);
          ph := Fetched(hash, right, hashes[idx], right);
        }
      } else if i == 0 {
        var left, prevLeft, prevRight;
        if idx - 1 in hashes {
          left := hashes[idx - 1];
          prevLeft, prevRight := NthLeafNode(h, idx - 1), NthLeafNode(h, idx);
          UpdateLeafNode(left, idx - 1);
          UpdateLeafNode(hashes[idx], idx);
        } else {
          left := NthLeafNode(h, idx - 1);
          prevLeft, prevRight := NthLeafNode(h, idx - 1), NthLeafNode(h, idx);
          UpdateLeafNode(hashes[idx], idx);
        }
        ph := Fetched(left, hashes[idx], prevLeft, prevRight);
      } else {
        var hash, left := IthInnerNode(h, i, idx), IthInnerNode(h, i, idx - 1);
        var prevLeft := if idx - 1 in hashes then hashes[idx - 1] else left;
        ph := Fetched(left, hash, prevLeft, hashes[idx]);
      }
    }

    /** Second region: exchange the parent for the new hash, keeping the previous one. */
    method StoreRegion(h: Hash2, i: nat, idx: nat, newHash: Digest, ghost rows0: seq<seq<Digest>>, ghost s: State)
      returns (prevRes: Digest)
      requires Mirrors(i, rows0, s)
      modifies this`innerNodes
      ensures prevRes == Get(s.parent, Zero(h, i + 1), idx / 2)
      ensures Mirrors(i, rows0, s.(parent := Put(s.parent, Zero(h, i + 1), idx / 2, newHash)))
    {
      prevRes := IthInnerNode(h, i + 1, idx / 2);
      UpdateInnerNode(h, i + 1, idx / 2, newHash);
    }

    /** Taking the next lock region of position `p`. */
    method TakeRegion(h: Hash2, i: nat, lv: Level, p: nat, phases: seq<Phase>, preimage: Witness,
                      ghost rows0: seq<seq<Digest>>, ghost s: State)
      returns (ph: Phase, preimage': Witness)
      requires Mirrors(i, rows0, s) && s.phases == phases && s.preimage == preimage
      requires lv.h == h && lv.first == (i == 0) && lv.zc == Zero(h, i) && lv.zp == Zero(h, i + 1)
      requires p < |phases| == |lv.order| && lv.order[p] in lv.hashes && !Finished(phases[p])
      requires phases[p].Recorded? ==> i == 0
      modifies this`leafNodes, this`innerNodes
      ensures var s' := AdvanceStep(lv, s, p);
        Mirrors(i, rows0, s') && s'.phases == phases[p := ph] && s'.preimage == preimage'
      ensures ph.Recorded? ==> i == 0
    {
      var idx := lv.order[p];
      preimage' := preimage;
      match phases[p]
      case Ready =>
        ph := FetchRegion(h, i, lv.hashes, idx, lv, rows0, s);
      case Fetched(l, r, pl, pr) =>
        var prevRes := StoreRegion(h, i, idx, h(l, r), rows0, s);
        ph := Stored(l, r, pl, pr, prevRes);
      case Stored(l, r, pl, pr, prevRes) =>
        if prevRes !in preimage' {
          preimage' := preimage'[prevRes := (pl, pr)];
        }
        preimage' := preimage'[h(l, r) := (l, r)];
        ph := if i == 0 && idx % 2 == 0 then Recorded(prevRes) else Done(prevRes);
      case Recorded(prevRes) =>
        UpdateLeafNode(lv.hashes[idx], idx);
        ph := Done(prevRes);
    }

    /** Running one level under a scheduler that picks any enabled lock region: the outcome is that
        of some complete interleaving, which is returned as `tr`. */
    method SplitAndRunRow(h: Hash2, i: nat, hashes: map<nat, Digest>, preimage: Witness)
      returns (next: map<nat, Digest>, preimage': Witness, ghost tr: Trace)
      requires Valid() && i < depth
      modifies this`leafNodes, this`innerNodes
      ensures Valid() && |old(Rows())| == depth + 1
      ensures LevelRuns(h, i, Snapshot(old(Rows()), preimage, hashes), tr)
      ensures Snapshot(Rows(), preimage', next) == RunLevel(h, i, Snapshot(old(Rows()), preimage, hashes), tr)
      ensures tr.task == StrideSplit(|tr.order|) && tr.tasks == StrideTasks(|tr.order|)
    {
      hide Exec, Schedule, Step, Work, AdvanceStep, InsertResults, Mirrors;
      var order := Enumerate(hashes);
      var n := |order|;
      var task := StrideSplit(n);
      forall p | 0 <= p < n ensures task[p] < StrideTasks(n) { StrideSplitIs(n, 0, p); }
      var lv := Level(h, i == 0, Zero(h, i), Zero(h, i + 1), hashes, order, task, StrideTasks(n));
      var phases := seq(n, p => Ready);
      var published: set<nat> := {};
      next, preimage' := map[], preimage;

      ghost var rows0 := Rows();
      ghost var start := Init(lv, rows0[i], rows0[i + 1], preimage);
      ghost var s, acts := start, [];
      NothingRun(lv, start);
      MirrorsStart(i, lv, preimage);
      while !AllReturned(phases, published, lv.tasks)
        invariant Mirrors(i, rows0, s)
        invariant s.phases == phases && s.preimage == preimage' && s.next == next && s.published == published
        invariant |phases| == n && forall p :: 0 <= p < n ==> phases[p].Recorded? ==> i == 0
        invariant Schedule(lv, start, acts) && s == Exec(lv, start, acts)
        decreases Work(lv, s)
      {
        var ready := ReadyPositions(lv, phases);
        var returning := ReturningTasks(lv, phases, published);
        SomethingIsReady(lv, s);
        if
        case ready != {} =>
          var p :| p in ready;
          StepDecreases(lv, s, Advance(p));
          ScheduleExtends(lv, start, acts, Advance(p));
          AdvanceIs(lv, s, p);
          var ph, pre := TakeRegion(h, i, lv, p, phases, preimage', rows0, s);
          phases, preimage' := phases[p := ph], pre;
          s, acts := Step(lv, s, Advance(p)), acts + [Advance(p)];
        case returning != {} =>
          var t :| t in returning;
          StepDecreases(lv, s, Publish(t));
          ScheduleExtends(lv, start, acts, Publish(t));
          PublishIs(lv, s, t);
          MirrorsSame(i, rows0, s, Step(lv, s, Publish(t)));
          next := InsertResults(lv, phases, next, t, n);
          published := published + {t};
          s, acts := Step(lv, s, Publish(t)), acts + [Publish(t)];
      }
      tr := Trace(order, task, StrideTasks(n), acts);
      MirrorsRows(i, rows0, s);
    }

    // ----- the batch -------------------------------------------------------------------------------

    method BatchTransitionUpdates(h: Hash2, updates: map<nat, Digest>, preimage: Witness)
      returns (preimage': Witness, ghost snaps: seq<Snapshot>, ghost trs: seq<Trace>)
      requires Valid() && depth >= 1 && Consistent(h, Rows()) && root == At(h, Rows(), depth, 0)
      requires ValidWitness(h, preimage)
      modifies this`leafNodes, this`innerNodes, this`root
      ensures Valid() && Consistent(h, Rows())
      ensures forall x: nat :: Get(leafNodes, 0, x) == if x in updates then updates[x] else Get(old(leafNodes), 0, x)
      ensures root == At(h, Rows(), depth, 0) == Node(h, leafNodes, depth, 0)
      ensures |old(leafNodes)| <= Pow2(depth) && (forall x :: x in updates ==> x < Pow2(depth)) ==>
        |leafNodes| <= Pow2(depth)
      ensures updates == map[] ==> Rows() == old(Rows()) && preimage' == preimage
      ensures updates != map[] ==>
        && IsBatch(h, old(Rows()), updates, preimage, snaps, trs)
        && Last(snaps) == Snapshot(Rows(), preimage', Last(snaps).dirty)
    {
      preimage', snaps, trs := preimage, [], [];
      if |updates| == 0 {
        ConsistentIsNode(h, Rows(), depth, 0);
        return;
      }
      ghost var rows0 := Rows();
      var nextRow := updates;
      snaps := [Snapshot(rows0, preimage, updates)];
      for i := 0 to depth
        invariant Valid() && |snaps| == i + 1 && |trs| == i
        invariant snaps[0] == Snapshot(rows0, preimage, updates)
        invariant snaps[i] == Snapshot(Rows(), preimage', nextRow)
        invariant BatchRun(h, snaps, trs)
      {
        ghost var tr: Trace;
        ghost var before, beforeTrs := snaps, trs;
        nextRow, preimage', tr := SplitAndRunRow(h, i, nextRow, preimage');
        snaps, trs := snaps + [Snapshot(Rows(), preimage', nextRow)], trs + [tr];
        forall k: nat | k < i + 1 ensures LevelStep(h, snaps, trs, k) {
          if k < i { assert LevelStep(h, before, beforeTrs, k); }
        }
      }
      assert IsBatch(h, rows0, updates, preimage, snaps, trs);
      BatchRefinesSpec(h, rows0, updates, preimage, snaps, trs);
      if |old(leafNodes)| <= Pow2(depth) && forall x :: x in updates ==> x < Pow2(depth) {
        LeavesFit(h, rows0, updates, preimage, snaps, trs, depth, Pow2(depth));
      }
      TopRowExists(h, rows0, updates, preimage, snaps, trs);
      root := innerNodes[depth - 1][0];
      assert root == At(h, Rows(), depth, 0);
    }

    // ----- reading proofs and checking the root -------------------------------------------------------

    /** The proof of any leaf index of the tree, stored or not, folds from the leaf to the root. */
    method GetProof(h: Hash2, leafIdx: nat) returns (proof: seq<Digest>, proofBinaryPos: seq<nat>)
      requires Valid() && depth >= 1 && leafIdx < Pow2(depth)
      ensures |proof| == |proofBinaryPos| == depth
      ensures forall k: nat :: k < depth ==>
        proof[k] == At(h, Rows(), k, Sibling(Anc(leafIdx, k))) && proofBinaryPos[k] == Anc(leafIdx, k) % 2
      ensures Consistent(h, Rows()) ==>
        FoldProof(h, NthLeafNode(h, leafIdx), proof, proofBinaryPos) == At(h, Rows(), depth, 0)
    {
      proofBinaryPos := IdxToBinaryPos(leafIdx, depth);
      var proofPos := ProofPos(leafIdx, depth);
      proof := [NthLeafNode(h, proofPos[0])];
      for i := 1 to depth
        invariant |proof| == i
        invariant forall k: nat :: k < i ==> proof[k] == At(h, Rows(), k, proofPos[k])
      {
        var proofVal := IthInnerNode(h, i, proofPos[i]);
        proof := proof + [proofVal];
      }
      if Consistent(h, Rows()) {
        ProofClimbs(h, Rows(), leafIdx, depth, proof, proofBinaryPos);
        AncOfRoot(leafIdx, depth);
      }
    }

    /** The reference checker compares the stored root with the recursive root of the leaves. */
    method VerifyRoot(h: Hash2) returns (ok: bool)
      requires Valid() && depth >= 1 && |leafNodes| <= Pow2(depth)
      ensures ok <==> root == Node(h, leafNodes, depth, 0)
    {
      var padded := PadLeafNodes(leafNodes, depth, 0);
      var inner := InnerFromLeafNodes(h, depth, padded);
      ok := root == inner[0][0];
      assert inner[0][0] == Node(h, padded, depth, 0) by {
        assert IsRow(h, padded, depth, depth, inner[0]) && Pow2(0) == 1;
      }
      SameLeavesSameNodes(h, padded, leafNodes, depth, 0);
    }
  }
}
