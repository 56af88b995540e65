/** Reference semantics of the state tree: zero hashes, sparse rows and the recursive Merkle root. */
module Merkle {
  import opened Arith

  /** Node values. The tree stores natural numbers; nothing here depends on the sign. */
  type Digest = int

  /** The pairwise hash. Every result holds for any two-argument function. */
  type Hash2 = (Digest, Digest) -> Digest

  /** The value of every node at level `i` of the empty tree. */
  function Zero(h: Hash2, i: nat): Digest {
    if i == 0 then 0 else h(Zero(h, i - 1), Zero(h, i - 1))
  }

  /** A lazily padded row: positions past the end read as `z`. */
  function Get(row: seq<Digest>, z: Digest, x: nat): Digest {
    if x < |row| then row[x] else z
  }

  function Repeat(z: Digest, n: nat): (r: seq<Digest>)
    ensures |r| == n && forall k :: 0 <= k < n ==> r[k] == z
  {
    seq(n, k => z)
  }

  function Below(n: nat): (r: set<nat>)
    ensures forall t: nat :: t in r <==> t < n
  {
    if n == 0 then {} else Below(n - 1) + {n - 1}
  }

  /** Writing position `x` of a padded row, extending the vector when `x` lies past its end. */
  function Put(row: seq<Digest>, z: Digest, x: nat, v: Digest): (r: seq<Digest>)
    ensures |r| == if x < |row| then |row| else x + 1
    ensures forall y: nat :: Get(r, z, y) == if y == x then v else Get(row, z, y)
  {
    if x < |row| then row[x := v] else row + Repeat(z, x - |row|) + [v]
  }

  /** The rows of a tree of depth `depth` to which nothing has been written. */
  function EmptyRows(depth: nat): (rows: seq<seq<Digest>>)
    ensures |rows| == depth + 1 && forall k :: 0 <= k <= depth ==> rows[k] == []
  {
    seq(depth + 1, _ => [])
  }

  /** Two padded rows with the same length and the same node values are the same vector. */
  lemma RowExtensionality(a: seq<Digest>, b: seq<Digest>, z: Digest)
    requires |a| == |b|
    requires forall x: nat :: Get(a, z, x) == Get(b, z, x)
    ensures a == b
  {
    forall k | 0 <= k < |a| ensures a[k] == b[k] {
      assert Get(a, z, k) == Get(b, z, k);
    }
  }

  /** The recursive Merkle value of node `j` at level `i` over the given leaves. */
  function Node(h: Hash2, leaves: seq<Digest>, i: nat, j: nat): Digest
    decreases i
  {
    if i == 0 then Get(leaves, 0, j)
    else h(Node(h, leaves, i - 1, 2 * j), Node(h, leaves, i - 1, 2 * j + 1))
  }

  /** A subtree with no stored leaf has the zero hash of its level. */
  lemma {:induction false} EmptySubtree(h: Hash2, leaves: seq<Digest>, i: nat, j: nat)
    requires |leaves| <= Pow2(i) * j
    ensures Node(h, leaves, i, j) == Zero(h, i)
    decreases i
  {
    if i > 0 {
      assert Pow2(i) * j == Pow2(i - 1) * (2 * j);
      assert Pow2(i - 1) * (2 * j + 1) == Pow2(i - 1) * (2 * j) + Pow2(i - 1);
      EmptySubtree(h, leaves, i - 1, 2 * j);
      EmptySubtree(h, leaves, i - 1, 2 * j + 1);
    }
  }

  /** The ancestor of leaf `idx` at level `i`, one halving per level. */
  function Anc(idx: nat, i: nat): nat {
    if i == 0 then idx else Anc(idx, i - 1) / 2
  }

  function Sibling(x: nat): nat {
    if x % 2 == 0 then x + 1 else x - 1
  }

  /** Halving once per level is the right shift of the leaf index. */
  lemma {:induction false} AncIsShift(idx: nat, i: nat)
    ensures Anc(idx, i) == idx / Pow2(i)
  {
    if i > 0 {
      AncIsShift(idx, i - 1);
      HalfOfQuotient(idx, Pow2(i - 1));
    }
  }

  lemma HalfOfQuotient(x: nat, m: nat)
    requires m >= 1
    ensures (x / m) / 2 == x / (2 * m)
  {
    var q, r := x / m, x % m;
    assert x == q * m + r;
    var s, t := q / 2, q % 2;
    assert q == 2 * s + t;
    assert x == s * (2 * m) + (t * m + r) by {
      assert q * m == (2 * s + t) * m;
    }
    assert 0 <= t * m + r < 2 * m;
    QuotientUnique(x, 2 * m, s, t * m + r);
  }

  /** Every leaf below 2^depth has the root as its ancestor. */
  lemma AncOfRoot(idx: nat, depth: nat)
    requires idx < Pow2(depth)
    ensures Anc(idx, depth) == 0
  {
    AncIsShift(idx, depth);
    QuotientUnique(idx, Pow2(depth), 0, idx);
  }
}
