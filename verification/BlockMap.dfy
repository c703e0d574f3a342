/** How bmap turns a file block number into a walk through the inode's block tree: ten direct slots,
    then a single, a double and a triple indirect tree. */
module BlockMap {

  const NDIRECT: nat := 10
  const NINDIRECT: nat := 128
  const MAXFILE: nat := NDIRECT + NINDIRECT + NINDIRECT * NINDIRECT + NINDIRECT * NINDIRECT * NINDIRECT

  /** A place in the tree: a slot of ip->addrs, then an index into each index block on the way. */
  datatype Node = Node(slot: nat, idx: seq<nat>)

  function Depth(slot: nat): nat {
    if slot < 10 then 0 else slot - 9
  }

  predicate ValidNode(p: Node) {
    p.slot < 13 && |p.idx| <= Depth(p.slot) && forall i :: 0 <= i < |p.idx| ==> p.idx[i] < 128
  }

  /** Data blocks hang at full depth; every other node is an index block. */
  predicate Leaf(p: Node) {
    |p.idx| == Depth(p.slot)
  }

  /** C's `x & 0x4000`. */
  function And4000(x: nat): nat {
    if x / 16384 % 2 == 1 then 16384 else 0
  }

  /** The walk of bmap for block bn, reduced within the triple tree by `reduce`
      (xv6-public/fs.c line 441). */
  function Walk(bn: nat, reduce: nat -> nat): Node {
    if bn < 10 then Node(bn, [])
    else if bn - 10 < 128 then Node(10, [bn - 10])
    else if bn - 138 < 16384 then
      var b := bn - 138;
      Node(11, [b / 128, b % 128])
    else
      var b := bn - 16522;
      var r := reduce(b);
      Node(12, [b / 16384, r / 128, r % 128])
  }

  /** The walk as the code has it: line 441 masks. */
  function PathOf(bn: nat): (p: Node)
    ensures bn >= 16522 ==> p == TriplePath(bn - 16522)
  {
    Walk(bn, And4000)
  }

  function TriplePath(b: nat): Node {
    Node(12, [b / 16384, And4000(b) / 128, And4000(b) % 128])
  }

  /** The walk as the decomposition needs it: line 441 taking a remainder. */
  function IntendedPath(bn: nat): Node {
    Walk(bn, (b: nat) => b % 16384)
  }

  /** The block number a leaf stands for. */
  function BlockNumber(p: Node): int
    requires ValidNode(p) && Leaf(p)
  {
    if p.slot < 10 then p.slot
    else if p.slot == 10 then 10 + p.idx[0]
    else if p.slot == 11 then 138 + 128 * p.idx[0] + p.idx[1]
    else 16522 + 16384 * p.idx[0] + 128 * p.idx[1] + p.idx[2]
  }

  /** With the remainder, block numbers below MAXFILE and leaves correspond one to one. */
  lemma IntendedRoundTrip(bn: nat)
    requires bn < MAXFILE
    ensures ValidNode(IntendedPath(bn)) && Leaf(IntendedPath(bn))
    ensures BlockNumber(IntendedPath(bn)) == bn
  {
    if bn >= 16522 {
      var b := bn - 16522;
      assert b % 16384 == 128 * (b % 16384 / 128) + b % 16384 % 128;
      assert b == 16384 * (b / 16384) + b % 16384;
    }
  }

  lemma IntendedOnto(p: Node)
    requires ValidNode(p) && Leaf(p)
    ensures 0 <= BlockNumber(p) < MAXFILE
    ensures IntendedPath(BlockNumber(p)) == p
  {
    var bn := BlockNumber(p);
    if p.slot >= 12 {
      var b := bn - 16522;
      assert b == 16384 * p.idx[0] + (128 * p.idx[1] + p.idx[2]);
      assert b / 16384 == p.idx[0] && b % 16384 == 128 * p.idx[1] + p.idx[2];
      assert p.idx == [p.idx[0], p.idx[1], p.idx[2]];
    } else if p.slot == 11 {
      assert p.idx == [p.idx[0], p.idx[1]];
    } else if p.slot == 10 {
      assert p.idx == [p.idx[0]];
    }
  }

  /** First block whose walk meets another one's. */
  const GOODBLOCKS: nat := 16523

  /** The walk as written stays inside index blocks exactly below the triple tree and under its even
      first indices; under an odd one its second index is 128, one past the block. */
  lemma PathInRange(bn: nat)
    requires bn < MAXFILE
    ensures ValidNode(PathOf(bn)) <==> bn < 16522 || (bn - 16522) / 16384 % 2 == 0
    ensures !ValidNode(PathOf(bn)) ==> PathOf(bn).idx[1] == 128
    ensures Leaf(PathOf(bn))
  {
    if bn >= 16522 {
      assert PathOf(bn).idx[1] == And4000(bn - 16522) / 128;
    }
  }

  lemma PathAgrees(bn: nat)
    requires bn < GOODBLOCKS
    ensures PathOf(bn) == IntendedPath(bn)
    ensures ValidNode(PathOf(bn)) && Leaf(PathOf(bn)) && BlockNumber(PathOf(bn)) == bn
  {
    IntendedRoundTrip(bn);
  }

  /** Distinct blocks below n get distinct leaves. */
  ghost predicate InjectiveBelow(path: nat -> Node, n: nat) {
    forall a: nat, b: nat :: a < n && b < n && path(a) == path(b) ==> a == b
  }

  lemma IntendedInjective()
    ensures InjectiveBelow(IntendedPath, MAXFILE)
  {
    forall a: nat, b: nat | a < MAXFILE && b < MAXFILE && IntendedPath(a) == IntendedPath(b)
      ensures a == b
    {
      IntendedRoundTrip(a);
      IntendedRoundTrip(b);
    }
  }

  /** As written, distinct blocks get distinct leaves exactly for files of at most GOODBLOCKS blocks. */
  lemma PathInjectiveExactly(n: nat)
    requires n <= MAXFILE
    ensures InjectiveBelow(PathOf, n) <==> n <= GOODBLOCKS
  {
    if n <= GOODBLOCKS {
      forall a: nat, b: nat | a < n && b < n && PathOf(a) == PathOf(b)
        ensures a == b
      {
        PathAgrees(a);
        PathAgrees(b);
      }
    } else {
      assert PathOf(16522) == PathOf(16523);
    }
  }

  /** All 16384 blocks under one first index of the triple tree share one walk. */
  lemma TripleBlocksCollapse(bn: nat, cn: nat)
    requires 16522 <= bn < MAXFILE && 16522 <= cn < MAXFILE
    ensures PathOf(bn) == PathOf(cn) <==> (bn - 16522) / 16384 == (cn - 16522) / 16384
  {
    var p, q := PathOf(bn), PathOf(cn);
    assert p.idx[0] == (bn - 16522) / 16384;
    assert q.idx[0] == (cn - 16522) / 16384;
  }

  /** As written, the walks of a file without holes: distinct up to block 16522, one and the same from there on,
      and out of its index block from block 32906 on. */
  lemma WalksMeet(a: nat, b: nat)
    requires a <= STRAYBLOCKS && b < STRAYBLOCKS
    ensures PathOf(a) == PathOf(b) <==> a == b || (a < STRAYBLOCKS && a >= 16522 && b >= 16522)
    ensures ValidNode(PathOf(a)) <==> a < STRAYBLOCKS
  {
    PathInRange(a);
    PathInRange(b);
    if a >= 16522 && b >= 16522 {
      TripleBlocksCollapse(a, b);
    } else if a < 16522 && b < 16522 {
      PathAgrees(a);
      PathAgrees(b);
    }
  }

  /** First block whose walk leaves its index block. */
  const STRAYBLOCKS: nat := 32906
}
