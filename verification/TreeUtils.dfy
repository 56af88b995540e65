/** Index arithmetic of Merkle proofs and the plain pairwise row hash. */
module TreeUtils {
  import opened Arith
  import opened Merkle

  /** The binary numeral of `n`, most significant digit first, without leading zeros. */
  function BinaryChars(n: nat): (r: seq<nat>)
    ensures |r| >= 1 && forall k :: 0 <= k < |r| ==> r[k] < 2
  {
    if n < 2 then [n] else BinaryChars(n / 2) + [n % 2]
  }

  /** Digit `k` from the right of the numeral is the parity of the index shifted by `k`. */
  lemma {:induction false} BinaryCharsAre(n: nat, k: nat)
    ensures k < |BinaryChars(n)| ==> BinaryChars(n)[|BinaryChars(n)| - 1 - k] == Anc(n, k) % 2
    ensures k >= |BinaryChars(n)| ==> Anc(n, k) == 0
    decreases n
  {
    if k > 0 {
      AncFirst(n, k);
      if n >= 2 {
        BinaryCharsAre(n / 2, k - 1);
      } else {
        AncOfZero(k - 1);
      }
    }
  }

  lemma {:induction false} AncFirst(n: nat, k: nat)
    requires k >= 1
    ensures Anc(n, k) == Anc(n / 2, k - 1)
  {
    if k > 1 { AncFirst(n, k - 1); }
  }

  lemma {:induction false} AncOfZero(k: nat)
    ensures Anc(0, k) == 0
  {
    if k > 0 { AncOfZero(k - 1); }
  }

  /** The numeral of an index below 2^depth fits in `depth` digits. */
  lemma {:induction false} BinaryCharsFit(n: nat, depth: nat)
    requires depth >= 1 && n < Pow2(depth)
    ensures |BinaryChars(n)| <= depth
  {
    if n >= 2 {
      if depth > 1 {
        BinaryCharsFit(n / 2, depth - 1);
      }
    }
  }

  function Reverse<T>(s: seq<T>): (r: seq<T>)
    ensures |r| == |s| && forall k :: 0 <= k < |s| ==> r[k] == s[|s| - 1 - k]
  {
    seq(|s|, k requires 0 <= k < |s| => s[|s| - 1 - k])
  }

  method IdxToBinaryPos(idx: nat, binLength: nat) returns (binPos: seq<nat>)
    requires binLength >= 1 && idx < Pow2(binLength)
    ensures |binPos| == binLength
    ensures forall k :: 0 <= k < binLength ==> binPos[k] == Anc(idx, k) % 2
  {
    var binChars := BinaryChars(idx);
    BinaryCharsFit(idx, binLength);
    binPos := [];
    for c := 0 to |binChars|
      invariant binPos == binChars[..c]
    {
      binPos := binPos + [binChars[c]];
    }
    for c := 0 to binLength - |binChars|
      invariant binPos == Repeat(0, c) + binChars
    {
      binPos := [0] + binPos;
    }
    binPos := Reverse(binPos);
    forall k | 0 <= k < binLength ensures binPos[k] == Anc(idx, k) % 2 {
      BinaryCharsAre(idx, k);
    }
  }

  /** The sibling of the parent is next to half the sibling's position, on the side its bit says. */
  method SiblingAboveOf(prev: nat, bit: nat, ghost idx: nat, ghost i: nat) returns (posI: nat)
    requires i >= 1 && prev == Sibling(Anc(idx, i - 1)) && bit == Anc(idx, i) % 2
    ensures posI == Sibling(Anc(idx, i))
  {
    assert prev / 2 == Anc(idx, i);
    if bit == 1 {
      posI := prev / 2 - 1;
    } else {
      posI := prev / 2 + 1;
    }
  }

  /** At every level below `depth`, the position of the sibling of the path of the leaf. */
  function SiblingPath(idx: nat, depth: nat): (r: seq<nat>)
    ensures |r| == depth && forall k :: 0 <= k < depth ==> r[k] == Sibling(Anc(idx, k))
  {
    if depth == 0 then [] else SiblingPath(idx, depth - 1) + [Sibling(Anc(idx, depth - 1))]
  }

  method ProofPos(leafIdx: nat, depth: nat) returns (proofPos: seq<nat>)
    requires depth >= 1 && leafIdx < Pow2(depth)
    ensures proofPos == SiblingPath(leafIdx, depth)
  {
    var proofBinaryPos := IdxToBinaryPos(leafIdx, depth);
    if leafIdx % 2 == 0 {
      proofPos := [leafIdx + 1];
    } else {
      proofPos := [leafIdx - 1];
    }
    assert proofPos == SiblingPath(leafIdx, 1);
    for i := 1 to depth
      invariant proofPos == SiblingPath(leafIdx, i)
    {
      var posI := SiblingAboveOf(proofPos[i - 1], proofBinaryPos[i], leafIdx, i);
      proofPos := proofPos + [posI];
    }
  }

  /** Hashing up from a leaf: at a right child the sibling goes first. */
  function FoldProof(h: Hash2, leaf: Digest, proof: seq<Digest>, pos: seq<nat>): Digest
    requires |proof| == |pos|
  {
    if proof == [] then leaf
    else
      var n := |proof| - 1;
      var below := FoldProof(h, leaf, proof[..n], pos[..n]);
      if pos[n] == 1 then h(proof[n], below) else h(below, proof[n])
  }

  method PairwiseHash(h: Hash2, row: seq<Digest>) returns (hashes: seq<Digest>)
    requires |row| % 2 == 0
    ensures |hashes| == |row| / 2
    ensures forall k :: 0 <= k < |hashes| ==> hashes[k] == h(row[2 * k], row[2 * k + 1])
  {
    hashes := [];
    var i := 0;
    while i < |row|
      invariant 0 <= i <= |row| && i == 2 * |hashes|
      invariant forall k :: 0 <= k < |hashes| ==> hashes[k] == h(row[2 * k], row[2 * k + 1])
    {
      hashes := hashes + [h(row[i], row[i + 1])];
      i := i + 2;
    }
  }

  method PadLeafNodes(arr: seq<Digest>, depth: nat, padValue: Digest) returns (padded: seq<Digest>)
    requires |arr| <= Pow2(depth)
    ensures |padded| == Pow2(depth)
    ensures forall x :: 0 <= x < |padded| ==> padded[x] == Get(arr, padValue, x)
  {
    padded := arr;
    for k := 0 to Pow2(depth) - |arr|
      invariant padded == arr + Repeat(padValue, k)
    {
      padded := padded + [padValue];
    }
  }

  /** Padding leaves with zeros changes no node. */
  lemma {:induction false} SameLeavesSameNodes(h: Hash2, a: seq<Digest>, b: seq<Digest>, i: nat, j: nat)
    requires forall x: nat :: Get(a, 0, x) == Get(b, 0, x)
    ensures Node(h, a, i, j) == Node(h, b, i, j)
    decreases i
  {
    if i == 0 {
      assert Get(a, 0, j) == Get(b, 0, j);
    } else {
      SameLeavesSameNodes(h, a, b, i - 1, 2 * j);
      SameLeavesSameNodes(h, a, b, i - 1, 2 * j + 1);
    }
  }

  lemma NodeAbove(h: Hash2, leaves: seq<Digest>, i: nat, j: nat)
    ensures Node(h, leaves, i + 1, j) == h(Node(h, leaves, i, 2 * j), Node(h, leaves, i, 2 * j + 1))
  {
  }

  /** `row` is the whole level `i` of a tree of depth `depth`. */
  ghost predicate IsRow(h: Hash2, leaves: seq<Digest>, depth: nat, i: nat, row: seq<Digest>) {
    i <= depth && |row| == Pow2(depth - i) && forall j: nat :: j < |row| ==> row[j] == Node(h, leaves, i, j)
  }

  lemma RowAbove(h: Hash2, leaves: seq<Digest>, depth: nat, i: nat, row: seq<Digest>, above: seq<Digest>)
    requires IsRow(h, leaves, depth, i, row) && i < depth && |row| == 2 * |above|
    requires forall k :: 0 <= k < |above| ==> above[k] == h(row[2 * k], row[2 * k + 1])
    ensures IsRow(h, leaves, depth, i + 1, above)
  {
    hide Node;
    assert Pow2(depth - i) == 2 * Pow2(depth - i - 1);
    forall j: nat | j < |above| ensures above[j] == Node(h, leaves, i + 1, j) {
      NodeAbove(h, leaves, i, j);
    }
  }

  lemma RowIsEven(h: Hash2, leaves: seq<Digest>, depth: nat, i: nat, row: seq<Digest>)
    requires IsRow(h, leaves, depth, i, row) && i < depth
    ensures |row| % 2 == 0
  {
    assert Pow2(depth - i) == 2 * Pow2(depth - i - 1);
  }

  /** The whole tree over a full row of leaves, root row first. */
  method InnerFromLeafNodes(h: Hash2, depth: nat, leafNodes: seq<Digest>) returns (tree: seq<seq<Digest>>)
    requires depth >= 1 && |leafNodes| == Pow2(depth)
    ensures |tree| == depth
    ensures forall k :: 0 <= k < depth ==> IsRow(h, leafNodes, depth, depth - k, tree[k])
  {
    assert IsRow(h, leafNodes, depth, 0, leafNodes);
    RowIsEven(h, leafNodes, depth, 0, leafNodes);
    var hashes := PairwiseHash(h, leafNodes);
    RowAbove(h, leafNodes, depth, 0, leafNodes, hashes);
    tree := [hashes];
    for i := 0 to depth - 1
      invariant |tree| == i + 1 && hashes == tree[i]
      invariant forall k :: 0 <= k <= i ==> IsRow(h, leafNodes, depth, k + 1, tree[k])
    {
      ghost var below := hashes;
      RowIsEven(h, leafNodes, depth, i + 1, hashes);
      hashes := PairwiseHash(h, hashes);
      RowAbove(h, leafNodes, depth, i + 1, below, hashes);
      tree := tree + [hashes];
    }
    tree := Reverse(tree);
  }
}
