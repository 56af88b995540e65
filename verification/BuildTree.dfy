/** The second whole-tree builder: rows of any length, hashed in chunks that run concurrently. */
module BuildTree {
  import opened Merkle
  import opened TreeUtils

  /** The value position `k` of the next row is to get. */
  function Paired(h: Hash2, row: seq<Digest>, i: nat, k: nat): Digest
    requires 2 * k < |row|
  {
    h(row[2 * k], Get(row, Zero(h, i), 2 * k + 1))
  }

  /** Hashing neighbours; a last lonely element is paired with the zero hash of its level. */
  method PairwiseHash2(h: Hash2, row: seq<Digest>, i: nat) returns (hashes: seq<Digest>)
    requires |row| >= 1
    ensures |hashes| == (|row| + 1) / 2
    ensures forall k :: 0 <= k < |hashes| ==> hashes[k] == Paired(h, row, i, k)
  {
    hashes := [];
    var j := 0;
    while j < |row| - 1
      invariant 0 <= j <= |row| && j == 2 * |hashes|
      invariant forall k :: 0 <= k < |hashes| ==> hashes[k] == h(row[2 * k], row[2 * k + 1])
    {
      hashes := hashes + [h(row[j], row[j + 1])];
      j := j + 2;
    }
    if |row| % 2 == 1 {
      hashes := hashes + [h(row[|row| - 1], Zero(h, i))];
    }
  }

  /** Copying into `dst[lo..hi]`; the source's copy panics unless the lengths agree. */
  method CloneFromSlice(dst: array<Digest>, lo: nat, hi: nat, src: seq<Digest>)
    requires lo <= hi <= dst.Length && hi - lo == |src|
    modifies dst
    ensures forall x :: 0 <= x < dst.Length ==> dst[x] == if lo <= x < hi then src[x - lo] else old(dst[x])
  {
    for k := 0 to |src|
      invariant forall x :: 0 <= x < dst.Length ==> dst[x] == if lo <= x < lo + k then src[x - lo] else old(dst[x])
    {
      dst[lo + k] := src[k];
    }
  }

  // The chunk length STRIDE is 250, and a chunk of 250 nodes makes 125 hashes.

  /** The positions of chunk `n` in a row of `len` nodes. */
  function ChunkStart(n: nat): nat { 250 * n }

  function ChunkEnd(n: nat, len: nat): nat {
    if 250 * n + 250 <= len then 250 * n + 250 else len
  }

  /** The part of the next row that chunk `n` fills. */
  function ChunkLo(n: nat): nat { 125 * n }

  function ChunkHi(n: nat, len: nat): nat { (ChunkEnd(n, len) + 1) / 2 }

  /** The chunks of a row cover the next row ... */
  lemma ChunksCover(len: nat, k: nat)
    requires k < (len + 1) / 2
    ensures ChunkStart(k / 125) < len && ChunkLo(k / 125) <= k < ChunkHi(k / 125, len)
  {
  }

  /** ... with disjoint ranges. */
  lemma ChunksDisjoint(len: nat, k: nat, m: nat)
    requires k < (len + 1) / 2 && ChunkLo(m) <= k < ChunkHi(m, len)
    ensures m == k / 125
  {
  }

  ghost predicate Filled(h: Hash2, row: seq<Digest>, i: nat, next: seq<Digest>, n: nat)
    requires |next| == (|row| + 1) / 2
  {
    forall k: nat :: ChunkLo(n) <= k < ChunkHi(n, |row|) && k < |next| ==> next[k] == Paired(h, row, i, k)
  }

  /** The copied slice has the length of the chunk's hashes, in either branch of the copy. */
  lemma SliceLengths(len: nat, n: nat)
    requires ChunkStart(n) < len
    ensures var end, next := ChunkEnd(n, len), (len + 1) / 2;
      var hashes := (end - ChunkStart(n) + 1) / 2;
      && ChunkStart(n) / 2 == ChunkLo(n) <= next && ChunkStart(n) == 2 * ChunkLo(n)
      && (end == len || end % 2 == 0)
      && (if next < ChunkLo(n) + 125 || hashes < 125 then ChunkLo(n) + hashes == next else hashes == 125)
      && ChunkHi(n, len) == ChunkLo(n) + hashes <= next
  {
  }

  /** The task of chunk `n`: hash it, then copy the result under the lock. */
  method HashChunk(h: Hash2, nextRow: array<Digest>, row: seq<Digest>, i: nat, n: nat)
    requires ChunkStart(n) < |row| && nextRow.Length == (|row| + 1) / 2
    modifies nextRow
    ensures Filled(h, row, i, nextRow[..], n)
    ensures forall k :: 0 <= k < nextRow.Length && !(ChunkLo(n) <= k < ChunkHi(n, |row|)) ==>
      nextRow[k] == old(nextRow[k])
  {
    var end := ChunkEnd(n, |row|);
    var inp := row[ChunkStart(n)..end];
    var hashes := PairwiseHash2(h, inp, i);
    var lo := ChunkStart(n) / 2;
    SliceLengths(|row|, n);
    if nextRow.Length < lo + 125 || |hashes| < 125 {
      CloneFromSlice(nextRow, lo, nextRow.Length, hashes);
    } else {
      CloneFromSlice(nextRow, lo, lo + 125, hashes);
    }
    forall k: nat | lo <= k < lo + |hashes| ensures nextRow[k] == Paired(h, row, i, k) {
      ChunkPaired(h, row, i, lo, end, k - lo);
      assert nextRow[k] == hashes[k - lo];
    }
  }

  /** Pairing inside a chunk is pairing inside the row: only the last chunk can have a lonely end. */
  lemma ChunkPaired(h: Hash2, row: seq<Digest>, i: nat, lo: nat, end: nat, m: nat)
    requires 2 * lo + 2 * m < end <= |row| && (end == |row| || end % 2 == 0)
    ensures Paired(h, row[2 * lo..end], i, m) == Paired(h, row, i, lo + m)
  {
    var inp := row[2 * lo..end];
    assert inp[2 * m] == row[2 * (lo + m)];
    if 2 * m + 1 < |inp| {
      assert inp[2 * m + 1] == row[2 * (lo + m) + 1];
    }
  }

  /** A chunk's task leaves the ranges of the other chunks alone. */
  lemma FilledKept(h: Hash2, row: seq<Digest>, i: nat, before: seq<Digest>, after: seq<Digest>, m: nat, n: nat)
    requires |before| == |after| == (|row| + 1) / 2 && m != n && Filled(h, row, i, before, m)
    requires forall k: nat :: k < |after| && !(ChunkLo(n) <= k < ChunkHi(n, |row|)) ==> after[k] == before[k]
    ensures Filled(h, row, i, after, m)
  {
    forall k: nat | ChunkLo(m) <= k < ChunkHi(m, |row|) && k < |after| ensures after[k] == Paired(h, row, i, k) {
      ChunksDisjoint(|row|, k, m);
      if ChunkLo(n) <= k < ChunkHi(n, |row|) {
        ChunksDisjoint(|row|, k, n);
      }
    }
  }

  /** Hashing one row: the chunks copy their results in any order. */
  method HashTreeLevel(h: Hash2, row: seq<Digest>, i: nat) returns (hashes: seq<Digest>)
    requires |row| >= 1
    ensures |hashes| == (|row| + 1) / 2
    ensures forall k: nat :: k < |hashes| ==> hashes[k] == Paired(h, row, i, k)
  {
    var newLen := if |row| % 2 == 0 then |row| / 2 else |row| / 2 + 1;
    var next := new Digest[newLen](_ => 0);
    var chunks := (|row| + 249) / 250;
    var pending: set<nat> := Below(chunks);
    while pending != {}
      invariant forall n :: n in pending ==> n < chunks
      invariant forall n: nat :: n < chunks && n !in pending ==> Filled(h, row, i, next[..], n)
      decreases |pending|
    {
      var n :| n in pending;
      ghost var before := next[..];
      HashChunk(h, next, row, i, n);
      forall m: nat | m < chunks && m !in pending - {n} ensures Filled(h, row, i, next[..], m) {
        if m != n {
          assert Filled(h, row, i, before, m);
          FilledKept(h, row, i, before, next[..], m, n);
        }
      }
      pending := pending - {n};
    }
    hashes := next[..];
    forall k: nat | k < |hashes| ensures hashes[k] == Paired(h, row, i, k) {
      ChunksCover(|row|, k);
      assert Filled(h, row, i, next[..], k / 125);
    }
  }

  /** `row` holds the nodes of level `i`; the nodes past its end are zero hashes. */
  ghost predicate IsLevel(h: Hash2, leaves: seq<Digest>, i: nat, row: seq<Digest>) {
    forall j: nat :: Get(row, Zero(h, i), j) == Node(h, leaves, i, j)
  }

  /** Hashing a level of the padded tree gives the level above it. */
  lemma NextLevel(h: Hash2, leaves: seq<Digest>, i: nat, row: seq<Digest>, next: seq<Digest>)
    requires IsLevel(h, leaves, i, row) && |next| == (|row| + 1) / 2
    requires forall k: nat :: k < |next| ==> next[k] == Paired(h, row, i, k)
    ensures IsLevel(h, leaves, i + 1, next)
  {
    var above := i + 1;
    forall j: nat ensures Get(next, Zero(h, above), j) == Node(h, leaves, above, j) {
      assert Get(row, Zero(h, i), 2 * j) == Node(h, leaves, i, 2 * j);
      assert Get(row, Zero(h, i), 2 * j + 1) == Node(h, leaves, i, 2 * j + 1);
    }
  }

  /** The root of the list padded with zero leaves, whatever the order of the chunks. */
  method BuildTree(h: Hash2, depth: nat, leafNodes: seq<Digest>) returns (root: Digest)
    requires depth >= 1 && |leafNodes| >= 1
    ensures root == Node(h, leafNodes, depth, 0)
  {
    var hashes := HashTreeLevel(h, leafNodes, 0);
    assert IsLevel(h, leafNodes, 0, leafNodes);
    NextLevel(h, leafNodes, 0, leafNodes, hashes);
    var tree := [hashes];
    for i := 1 to depth
      invariant |tree| == i && |tree[i - 1]| >= 1 && IsLevel(h, leafNodes, i, tree[i - 1])
    {
      hashes := HashTreeLevel(h, tree[i - 1], i);
      NextLevel(h, leafNodes, i, tree[i - 1], hashes);
      tree := tree + [hashes];
    }
    tree := Reverse(tree);
    assert Get(tree[0], Zero(h, depth), 0) == Node(h, leafNodes, depth, 0);
    root := tree[0][0];
  }
}
