/** The bytes of a file, read off its block tree, and how bmap and writes to data blocks change them. */
module FileContent {
  import opened Basics
  import opened Blocks
  import opened FileBytes
  import opened BlockMap
  import opened BlockTree

  /** The block bmap finds for block bn of the file; 0 when it would have to add one. */
  ghost function BlockAt(t: Tree, bn: nat): Word
    requires Shape(t)
  {
    if ValidNode(PathOf(bn)) then Addr(t, PathOf(bn)) else 0
  }

  /** No holes among the blocks of the first n bytes. */
  ghost predicate Covers(t: Tree, n: nat)
    requires Shape(t)
  {
    forall bn: nat :: bn * 512 < n ==> BlockAt(t, bn) != 0
  }

  ghost function ByteAt(t: Tree, o: nat): Byte
    requires TreeOk(t)
  {
    BlockInRange(t, o / 512);
    Bytes(t.blocks[BlockAt(t, o / 512)])[o % 512]
  }

  lemma BlockInRange(t: Tree, bn: nat)
    requires TreeOk(t)
    ensures BlockAt(t, bn) < |t.blocks| && t.used[BlockAt(t, bn)]
  {
  }

  ghost function Content(t: Tree, n: nat): (c: seq<Byte>)
    requires TreeOk(t)
    ensures |c| == n
    ensures forall o :: 0 <= o < n ==> c[o] == ByteAt(t, o)
  {
    seq(n, o requires 0 <= o < n => ByteAt(t, o))
  }

  /** Beyond GOODBYTES the law fails: for every longer size there is a content that no state of the
      disk gives a file of that size, because two of its blocks share a walk. */
  lemma LongContentImpossible(n: nat) returns (c: seq<Byte>)
    requires GOODBYTES < n <= MAXBYTES
    ensures |c| == n
    ensures forall t :: TreeOk(t) ==> Content(t, n) != c
  {
    c := seq(n, o => if o == GOODBYTES then 1 else 0);
    forall t | TreeOk(t)
      ensures Content(t, n) != c
    {
      TripleBlocksCollapse(16522, 16523);
      hide PathOf, Addr, Bytes;
      assert GOODBYTES / 512 == 16523 && (GOODBYTES - 512) / 512 == 16522;
      assert GOODBYTES % 512 == (GOODBYTES - 512) % 512;
      assert ByteAt(t, GOODBYTES) == ByteAt(t, GOODBYTES - 512);
      assert Content(t, n)[GOODBYTES] == Content(t, n)[GOODBYTES - 512];
    }
  }

  /** A data block is nobody's index block. */
  lemma DataIsNotIndex(t: Tree, bn: nat)
    requires TreeOk(t) && BlockAt(t, bn) != 0
    ensures !IsIndex(t, BlockAt(t, bn))
  {
    hide Addr;
    assert Leaf(PathOf(bn));
  }

  /** Finding or adding a block changes no byte the file already has. */
  lemma BmapKeepsBytes(t0: Tree, t: Tree, bn: nat, a: Word, n: nat)
    requires ValidNode(PathOf(bn)) && Walking(t0, t, PathOf(bn), a) && Covers(t0, n)
    ensures Covers(t, n)
    ensures forall o :: 0 <= o < n ==> ByteAt(t, o) == ByteAt(t0, o)
  {
    hide Addr, NonSharing, PathOf, Bytes;
    forall bn': nat | bn' * 512 < n
      ensures BlockAt(t, bn') == BlockAt(t0, bn') != 0
      ensures t.blocks[BlockAt(t, bn')] == t0.blocks[BlockAt(t, bn')]
    {
      assert BlockAt(t0, bn') != 0;
      DataIsNotIndex(t0, bn');
      BlockInRange(t0, bn');
    }
  }

  // ----- writing a data block -----

  function SetData(t: Tree, a: Word, blk: Block): Tree
    requires Shape(t) && a < |t.blocks|
  {
    t.(blocks := t.blocks[a := blk])
  }

  lemma {:induction false} SetDataAddr(t: Tree, a: Word, blk: Block, r: Node)
    requires TreeOk(t) && a < |t.blocks| && !IsIndex(t, a) && ValidNode(r)
    ensures Addr(SetData(t, a, blk), r) == Addr(t, r)
    decreases |r.idx|
  {
    if r.idx != [] {
      SetDataAddr(t, a, blk, Parent(r));
      assert !Leaf(Parent(r));
    }
  }

  lemma SetDataOk(t: Tree, a: Word, blk: Block)
    requires TreeOk(t) && a < |t.blocks| && !IsIndex(t, a)
    ensures TreeOk(SetData(t, a, blk))
    ensures forall r :: ValidNode(r) ==> Addr(SetData(t, a, blk), r) == Addr(t, r)
  {
    var t' := SetData(t, a, blk);
    forall r | ValidNode(r)
      ensures Addr(t', r) == Addr(t, r)
    {
      SetDataAddr(t, a, blk, r);
    }
    hide Addr;
  }

  /** Writing the data block of bn changes the bytes of the file blocks that share its walk and no others. */
  lemma SetDataBytes(t: Tree, bn: nat, blk: Block, o: nat)
    requires TreeOk(t) && BlockAt(t, bn) != 0 && BlockAt(t, o / 512) != 0 && BlockAt(t, bn) < |t.blocks|
    ensures TreeOk(SetData(t, BlockAt(t, bn), blk))
    ensures BlockAt(SetData(t, BlockAt(t, bn), blk), o / 512) == BlockAt(t, o / 512)
    ensures ByteAt(SetData(t, BlockAt(t, bn), blk), o) ==
              if PathOf(o / 512) == PathOf(bn) then Bytes(blk)[o % 512] else ByteAt(t, o)
  {
    hide Addr, PathOf, Bytes;
    DataIsNotIndex(t, bn);
    SetDataOk(t, BlockAt(t, bn), blk);
    BlockInRange(t, o / 512);
  }

  /** A file without holes has no stray block. */
  lemma CoversBound(t: Tree, n: nat)
    requires Shape(t) && Covers(t, n)
    ensures n <= STRAYBYTES
  {
    hide Addr, PathOf;
    WalksMeet(STRAYBLOCKS, 0);
    assert STRAYBLOCKS * 512 == STRAYBYTES;
    assert BlockAt(t, STRAYBLOCKS) == 0;
  }

  /** Bytes of the shared block agree in every file without holes. */
  lemma ContentConsistent(t: Tree, n: nat)
    requires TreeOk(t) && Covers(t, n)
    ensures Consistent(Content(t, n))
  {
    hide Addr, PathOf, Bytes, Covers;
    CoversBound(t, n);
    forall o, p | SHARED <= o < n && SHARED <= p < n && Twins(o, p)
      ensures Content(t, n)[o] == Content(t, n)[p]
    {
      WalksMeet(o / 512, p / 512);
    }
  }

  /** The block after memmove of `piece` to byte position pos. */
  function Patched(blk: Block, pos: nat, piece: seq<Byte>): Block
    requires pos + |piece| <= 512
  {
    Pack(Bytes(blk)[..pos] + piece + Bytes(blk)[pos + |piece|..])
  }

  /** One round of the loop of writei, after bmap: the piece is stored in the content at off. */
  lemma PieceWritten(t: Tree, off: nat, piece: seq<Byte>, hi: nat)
    requires TreeOk(t) && Covers(t, hi) && off <= hi && off + |piece| <= STRAYBYTES
    requires 0 < |piece| && off % 512 + |piece| <= 512
    requires BlockAt(t, off / 512) != 0 && BlockAt(t, off / 512) < |t.blocks|
    ensures var a := BlockAt(t, off / 512);
            var t' := SetData(t, a, Patched(t.blocks[a], off % 512, piece));
            && TreeOk(t') && Covers(t', Max(hi, off + |piece|))
            && Content(t', Max(hi, off + |piece|)) == Store(Content(t, hi), off, piece)
  {
    hide Addr, PathOf, Bytes, Pack, NonSharing, BlockAt, ByteAt, Store, StoredByte;
    var bn, m := off / 512, |piece|;
    var a := BlockAt(t, bn);
    var blk := Patched(t.blocks[a], off % 512, piece);
    var t' := SetData(t, a, blk);
    var hi' := Max(hi, off + m);
    CoversBound(t, hi);
    CoversMore(t, off, m, hi);
    forall x: nat | x < hi'
      ensures TreeOk(t') && BlockAt(t', x / 512) == BlockAt(t, x / 512)
      ensures ByteAt(t', x) == StoredByte(Content(t, hi), off, piece, x)
    {
      assert BlockAt(t, x / 512) != 0;
      SetDataBytes(t, bn, blk, x);
      PieceByte(t, off, piece, hi, x);
    }
    assert TreeOk(t') && BlockAt(t', off / 512) == BlockAt(t, off / 512);
    forall k: nat | k * 512 < hi'
      ensures BlockAt(t', k) != 0
    {
      assert k * 512 / 512 == k;
      assert BlockAt(t', k * 512 / 512) == BlockAt(t, k * 512 / 512);
    }
  }

  /** The byte at x after the piece went into its block: what Store says. */
  lemma PieceByte(t: Tree, off: nat, piece: seq<Byte>, hi: nat, x: nat)
    requires TreeOk(t) && off <= hi <= STRAYBYTES && off + |piece| <= STRAYBYTES && x < Max(hi, off + |piece|)
    requires 0 < |piece| && off % 512 + |piece| <= 512 && BlockAt(t, off / 512) < |t.blocks|
    ensures var blk := Patched(t.blocks[BlockAt(t, off / 512)], off % 512, piece);
            StoredByte(Content(t, hi), off, piece, x) ==
              if PathOf(x / 512) == PathOf(off / 512) then Bytes(blk)[x % 512] else ByteAt(t, x)
  {
    hide Bytes, Pack, PathOf, Addr, BlockAt, ByteAt, LastTwin, Patched;
    WalksMeet(x / 512, off / 512);
    TwinInPiece(off, |piece|, x);
    if PathOf(x / 512) == PathOf(off / 512) {
      PatchedByte(t, off, piece, x);
    }
  }

  /** Where a piece inside one block reaches x. */
  lemma TwinInPiece(off: nat, m: nat, x: nat)
    requires 0 < m && off % 512 + m <= 512
    ensures off <= LastTwin(x, off + m) <==> off % 512 <= x % 512 < off % 512 + m
    ensures off <= LastTwin(x, off + m) ==> LastTwin(x, off + m) - off == x % 512 - off % 512
    ensures off <= LastTwin(x, off + m) ==> LastTwin(x, off + m) / 512 == off / 512
    ensures x / 512 == off / 512 ==> (off <= x < off + m <==> off % 512 <= x % 512 < off % 512 + m)
    ensures off <= x < off + m ==> x / 512 == off / 512
  {
    var l := LastTwin(x, off + m);
    TwinOf(x, off + m);
    hide LastTwin;
    var p := 512 * (off / 512) + x % 512;
    assert p % 512 == x % 512 && p / 512 == off / 512;
    if p < off + m {
      TwinIsLast(x, off + m, p);
    }
    assert Twins(l, p);
    if l < p {
      TwinsApart(l, p);
    } else if p < l {
      TwinsApart(p, l);
    }
  }

  lemma CoversMore(t: Tree, off: nat, m: nat, hi: nat)
    requires Shape(t) && Covers(t, hi) && off <= hi && 0 < m && off % 512 + m <= 512 && BlockAt(t, off / 512) != 0
    ensures Covers(t, Max(hi, off + m))
    ensures forall x: nat :: x < Max(hi, off + m) ==> BlockAt(t, x / 512) != 0
  {
    hide BlockAt;
    forall k: nat | k * 512 < Max(hi, off + m)
      ensures BlockAt(t, k) != 0
    {
      if k != off / 512 {
        assert k * 512 < hi;
      }
    }
    forall x: nat | x < Max(hi, off + m)
      ensures BlockAt(t, x / 512) != 0
    {
      assert x / 512 * 512 <= x;
    }
  }

  lemma PatchedByte(t: Tree, off: nat, piece: seq<Byte>, x: nat)
    requires TreeOk(t) && off % 512 + |piece| <= 512 && BlockAt(t, off / 512) < |t.blocks|
    requires PathOf(x / 512) == PathOf(off / 512)
    ensures var blk := Patched(t.blocks[BlockAt(t, off / 512)], off % 512, piece);
            Bytes(blk)[x % 512] ==
              if off % 512 <= x % 512 < off % 512 + |piece| then piece[x % 512 - off % 512] else ByteAt(t, x)
  {
    hide Bytes, Pack, PathOf, Addr;
  }

  /** The bytes of one block that readi copies are the content there. */
  lemma SliceOfBlock(t: Tree, off: nat, m: nat, n: nat)
    requires TreeOk(t) && off % 512 + m <= 512 && off + m <= n && BlockAt(t, off / 512) < |t.blocks|
    ensures Bytes(t.blocks[BlockAt(t, off / 512)])[off % 512..off % 512 + m] == Content(t, n)[off..off + m]
  {
    hide Bytes, PathOf, Addr, BlockAt;
    var a := Bytes(t.blocks[BlockAt(t, off / 512)])[off % 512..off % 512 + m];
    var c := Content(t, n);
    forall i | 0 <= i < m
      ensures a[i] == c[off..off + m][i]
    {
      assert (off + i) / 512 == off / 512 && (off + i) % 512 == off % 512 + i;
    }
  }

  // ----- other files -----

  ghost predicate InTree(t: Tree, b: nat)
    requires Shape(t)
  {
    b != 0 && exists p :: ValidNode(p) && Addr(t, p) == b
  }

  lemma InTreeUsed(t: Tree)
    requires TreeOk(t)
    ensures forall b: nat :: InTree(t, b) ==> b < |t.used| && t.used[b]
  {
    hide Addr, NonSharing;
  }

  /** From t to t' only blocks of this tree and free blocks were touched. */
  ghost predicate Local(t: Tree, t': Tree) {
    && TreeOk(t) && TreeOk(t') && |t'.blocks| == |t.blocks|
    && (forall b :: 0 <= b < |t.used| && t.used[b] ==> t'.used[b])
    && (forall b :: 0 <= b < |t.used| && t.used[b] && !InTree(t, b) ==> t'.blocks[b] == t.blocks[b])
    && (forall b :: 0 <= b < |t.used| && InTree(t', b) ==> InTree(t, b) || !t.used[b])
    && (forall b :: 0 <= b < |t.used| && InTree(t, b) ==> InTree(t', b))
    && (forall b :: 0 <= b < |t.used| && t'.used[b] && !t.used[b] ==> InTree(t', b))
  }

  lemma LocalTrans(t: Tree, u: Tree, v: Tree)
    requires Local(t, u) && Local(u, v)
    ensures Local(t, v)
  {
    hide Addr, NonSharing, InTree;
  }

  lemma ExtendsIsLocal(t: Tree, t': Tree, p: Node)
    requires Extends(t, t', p)
    ensures Local(t, t')
  {
    hide Addr, NonSharing;
    forall b | 0 <= b < |t.used| && InTree(t', b)
      ensures InTree(t, b) || !t.used[b]
    {
      var r :| ValidNode(r) && Addr(t', r) == b;
      assert Addr(t, r) == b || !t.used[b];
    }
    forall b | 0 <= b < |t.used| && InTree(t, b)
      ensures InTree(t', b)
    {
      var r :| ValidNode(r) && Addr(t, r) == b;
      assert Addr(t', r) == b;
    }
    assert forall b :: IsIndex(t, b) ==> InTree(t, b);
  }

  lemma SetDataIsLocal(t: Tree, bn: nat, blk: Block)
    requires TreeOk(t) && BlockAt(t, bn) != 0 && BlockAt(t, bn) < |t.blocks|
    ensures Local(t, SetData(t, BlockAt(t, bn), blk))
  {
    DataIsNotIndex(t, bn);
    SetDataOk(t, BlockAt(t, bn), blk);
    hide Addr;
    var t' := SetData(t, BlockAt(t, bn), blk);
    assert forall b :: InTree(t', b) <==> InTree(t, b);
    assert InTree(t, BlockAt(t, bn));
  }

  /** The blocks in use are those of `base`, all of them outside this tree, and those of the tree. */
  ghost predicate Accounted(t: Tree, base: seq<bool>) {
    && TreeOk(t) && |base| == |t.used|
    && (forall b :: 0 <= b < |base| ==> (t.used[b] <==> base[b] || InTree(t, b)))
    && (forall b :: 0 <= b < |base| && InTree(t, b) ==> !base[b])
  }

  /** Allocation by bmap and writei takes free blocks into the tree and loses none. */
  lemma LocalKeepsAccount(t: Tree, t': Tree, base: seq<bool>)
    requires Local(t, t') && Accounted(t, base)
    ensures Accounted(t', base)
  {
    hide Addr, NonSharing;
    forall b | 0 <= b < |base| && InTree(t', b)
      ensures t'.used[b]
    {
      var r :| ValidNode(r) && Addr(t', r) == b;
    }
    hide InTree;
  }

  ghost predicate Disjoint(t: Tree, u: Tree)
    requires Shape(t) && Shape(u)
  {
    forall b :: InTree(t, b) ==> !InTree(u, b)
  }

  /** Another file on the same disk keeps every block and byte, and stays apart. */
  lemma OtherFileUntouched(t: Tree, t': Tree, addrs: seq<Word>, n: nat)
    requires Local(t, t') && |addrs| == 13
    requires TreeOk(t.(addrs := addrs)) && Disjoint(t, t.(addrs := addrs))
    ensures TreeOk(t'.(addrs := addrs)) && Disjoint(t', t'.(addrs := addrs))
    ensures Content(t'.(addrs := addrs), n) == Content(t.(addrs := addrs), n)
  {
    var u, u' := t.(addrs := addrs), t'.(addrs := addrs);
    forall r | ValidNode(r)
      ensures Addr(u', r) == Addr(u, r) && (Addr(u, r) != 0 ==> u'.blocks[Addr(u, r)] == u.blocks[Addr(u, r)])
    {
      OtherAddr(t, t', addrs, r);
    }
    hide Addr, ValidNode, PathOf, Bytes;
    OtherDisjoint(t, t', u, u');
    assert u'.blocks[0] == u.blocks[0] by { assert !InTree(t, 0); }
    forall o: nat | o < n
      ensures ByteAt(u', o) == ByteAt(u, o)
    {
    }
  }

  lemma OtherDisjoint(t: Tree, t': Tree, u: Tree, u': Tree)
    requires Local(t, t') && TreeOk(u) && Shape(u') && u.used == t.used && Disjoint(t, u)
    requires |u'.blocks| == |u.blocks| == |t.blocks|
    requires forall r :: ValidNode(r) ==> Addr(u', r) == Addr(u, r)
    ensures Disjoint(t', u')
  {
    hide Addr, NonSharing;
    forall b: nat | InTree(u', b)
      ensures InTree(u, b) && t.used[b]
    {
    }
  }

  lemma {:induction false} OtherAddr(t: Tree, t': Tree, addrs: seq<Word>, r: Node)
    requires Local(t, t') && |addrs| == 13 && ValidNode(r)
    requires TreeOk(t.(addrs := addrs)) && Disjoint(t, t.(addrs := addrs))
    ensures var u, u' := t.(addrs := addrs), t'.(addrs := addrs);
            Addr(u', r) == Addr(u, r) && (Addr(u, r) != 0 ==> u'.blocks[Addr(u, r)] == u.blocks[Addr(u, r)])
    decreases |r.idx|
  {
    var u, u' := t.(addrs := addrs), t'.(addrs := addrs);
    if r.idx != [] {
      OtherAddr(t, t', addrs, Parent(r));
    }
    assert Addr(u', r) == Addr(u, r);
    if Addr(u, r) != 0 {
      assert InTree(u, Addr(u, r));
      assert u.used[Addr(u, r)];
    }
  }

  // ----- what truncation walks over -----

  /** Block b is at a node strictly below q, through one of q's first k entries. */
  ghost predicate Below(t: Tree, q: Node, k: nat, b: nat)
    requires Shape(t)
  {
    b != 0 && exists r :: ValidNode(r) && UnderEntry(r, q, k) && Addr(t, r) == b
  }

  predicate UnderEntry(r: Node, q: Node, k: nat) {
    r.slot == q.slot && |r.idx| > |q.idx| && r.idx[..|q.idx|] == q.idx && r.idx[|q.idx|] < k
  }

  lemma BelowNone(t: Tree, q: Node)
    requires Shape(t)
    ensures forall b :: !Below(t, q, 0, b)
  {
  }

  lemma BelowLeaf(t: Tree, c: Node)
    requires Shape(t) && ValidNode(c) && Leaf(c)
    ensures forall b :: !Below(t, c, 128, b)
  {
  }

  lemma EntryIsChild(t: Tree, q: Node, a: Word, i: nat)
    requires TreeOk(t) && ValidNode(q) && !Leaf(q) && i < 128 && Addr(t, q) == a && a != 0
    ensures a < |t.blocks| && t.blocks[a][i] == Addr(t, Child(q, i)) < |t.blocks|
  {
    assert ValidNode(Child(q, i));
  }

  lemma UnderSplit(r: Node, q: Node, i: nat)
    requires ValidNode(r) && ValidNode(q) && !Leaf(q) && i < 128
    ensures var c := Child(q, i);
            && (UnderEntry(r, q, i + 1) <==> UnderEntry(r, q, i) || r == c || UnderEntry(r, c, 128))
            && (UnderEntry(r, q, i) ==> r != c && !UnderEntry(r, c, 128))
            && !UnderEntry(c, c, 128)
            && (UnderEntry(r, q, i + 1) ==> UnderEntry(r, q, 128))
            && (UnderEntry(r, c, 128) ==> OnPath(c, r))
  {
    var c := Child(q, i);
    if UnderEntry(r, q, i + 1) && r.idx[|q.idx|] == i {
      assert r.idx[..|c.idx|] == q.idx + [i];
      if |r.idx| == |c.idx| {
        assert r.idx == c.idx;
      }
    }
    if UnderEntry(r, c, 128) {
      assert r.idx[|q.idx|] == r.idx[..|c.idx|][|q.idx|] == i;
      assert r.idx[..|q.idx|] == r.idx[..|c.idx|][..|q.idx|] == q.idx;
    }
  }

  /** What lies below q through entry i: the child there and what lies below it. */
  lemma BelowStep(t: Tree, q: Node, i: nat, b: nat)
    requires TreeOk(t) && ValidNode(q) && !Leaf(q) && i < 128
    ensures var c := Child(q, i);
            && (Below(t, q, i + 1, b) <==>
                  Below(t, q, i, b) || (b != 0 && Addr(t, c) == b) || Below(t, c, 128, b))
            && (Below(t, q, i + 1, b) ==> Below(t, q, 128, b))
            && (Addr(t, c) == 0 ==> !Below(t, c, 128, b))
  {
    var c := Child(q, i);
    forall r | ValidNode(r)
      ensures UnderEntry(r, q, i + 1) <==> UnderEntry(r, q, i) || r == c || UnderEntry(r, c, 128)
      ensures UnderEntry(r, q, i + 1) ==> UnderEntry(r, q, 128)
      ensures UnderEntry(r, c, 128) && Addr(t, r) != 0 ==> Addr(t, c) != 0
    {
      UnderSplit(r, q, i);
      PresentAbove(t, r);
    }
    hide Addr, UnderEntry, NonSharing, Child, ValidNode;
  }

  /** No block is met twice: entry i leads to nothing the earlier entries led to. */
  lemma BelowOnce(t: Tree, q: Node, i: nat, b: nat)
    requires TreeOk(t) && ValidNode(q) && !Leaf(q) && i < 128
    ensures var c := Child(q, i);
            && (Below(t, q, i, b) ==> Addr(t, c) != b && !Below(t, c, 128, b))
            && (b != 0 && Addr(t, c) == b ==> !Below(t, c, 128, b))
  {
    var c := Child(q, i);
    forall r | ValidNode(r)
      ensures UnderEntry(r, q, i) ==> r != c && !UnderEntry(r, c, 128)
      ensures !UnderEntry(c, c, 128)
    {
      UnderSplit(r, q, i);
    }
    hide Addr, UnderEntry, Child;
  }

  /** The round of a truncation loop over q that handles entry i. */
  lemma BelowRound(t: Tree, q: Node, i: nat)
    requires TreeOk(t) && ValidNode(q) && !Leaf(q) && i < 128
    ensures var c := Child(q, i);
            && (forall b: nat :: Below(t, q, i + 1, b) <==>
                  Below(t, q, i, b) || (b != 0 && Addr(t, c) == b) || Below(t, c, 128, b))
            && (forall b: nat :: Below(t, q, i + 1, b) ==> Below(t, q, 128, b))
            && (forall b: nat :: Addr(t, c) == 0 ==> !Below(t, c, 128, b))
            && (forall b: nat :: Below(t, q, i, b) ==> Addr(t, c) != b && !Below(t, c, 128, b))
            && (forall b: nat :: b != 0 && Addr(t, c) == b ==> !Below(t, c, 128, b))
  {
    hide Addr, Below, NonSharing;
    forall b: nat
      ensures var c := Child(q, i);
              && (Below(t, q, i + 1, b) <==>
                    Below(t, q, i, b) || (b != 0 && Addr(t, c) == b) || Below(t, c, 128, b))
              && (Below(t, q, i + 1, b) ==> Below(t, q, 128, b))
              && (Addr(t, c) == 0 ==> !Below(t, c, 128, b))
              && (Below(t, q, i, b) ==> Addr(t, c) != b && !Below(t, c, 128, b))
              && (b != 0 && Addr(t, c) == b ==> !Below(t, c, 128, b))
    {
      BelowStep(t, q, i, b);
      BelowOnce(t, q, i, b);
    }
  }

  /** Block b is at a node of one of the first s slots. */
  ghost predicate Gone(t: Tree, s: nat, b: nat)
    requires Shape(t)
  {
    b != 0 && exists r :: ValidNode(r) && r.slot < s && Addr(t, r) == b
  }

  lemma GoneNone(t: Tree)
    requires Shape(t)
    ensures forall b :: !Gone(t, 0, b)
  {
  }

  lemma GoneAll(t: Tree)
    requires Shape(t)
    ensures forall b :: Gone(t, 13, b) <==> InTree(t, b)
  {
    hide Addr;
  }

  lemma GoneStep(t: Tree, s: nat, b: nat)
    requires TreeOk(t) && s < 13
    ensures var c := Node(s, []);
            && ValidNode(c)
            && (Gone(t, s + 1, b) <==> Gone(t, s, b) || (b != 0 && Addr(t, c) == b) || Below(t, c, 128, b))
            && (Addr(t, c) == 0 ==> !Below(t, c, 128, b))
            && (Gone(t, s, b) ==> Addr(t, c) != b && !Below(t, c, 128, b))
            && (b != 0 && Addr(t, c) == b ==> !Below(t, c, 128, b))
            && (Gone(t, s + 1, b) ==> InTree(t, b))
  {
    var c := Node(s, []);
    forall r | ValidNode(r)
      ensures r.slot == s ==> r == c || UnderEntry(r, c, 128)
      ensures UnderEntry(r, c, 128) ==> r.slot == s && r != c
      ensures UnderEntry(r, c, 128) && Addr(t, r) != 0 ==> Addr(t, c) != 0
    {
      PresentAbove(t, r);
      assert c.idx <= r.idx;
    }
    hide Addr, UnderEntry;
  }
}
