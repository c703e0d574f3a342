/** fs.c: block allocation, bmap, itrunc, readi and writei, over the blocks as the buffer cache shows them. */
module Inode {
  import opened Basics
  import opened Blocks
  import opened FileBytes
  import opened BlockMap
  import opened BlockTree
  import opened FileContent

  const BPB: nat := 4096      // bits per bitmap block

  /** What iupdate writes: the part of the on-disk inode that concerns content. */
  datatype DInode = DInode(size: Word, addrs: seq<Word>)

  /** The outcome of bmap: a block, or one of the two panics, or the stray access of line 441. */
  datatype Mapped = At(addr: Word) | OutOfBlocks | OutOfRange | Stray

  /** What readi and writei return: a count, -1, or no return at all after a panic in bmap. */
  datatype Io = Count(n: nat) | Minus1 | Panicked

  lemma BlockPresent(t: Tree, off: nat, n: nat)
    requires TreeOk(t) && Covers(t, n) && off < n
    ensures BlockAt(t, off / 512) != 0 && off / 512 < STRAYBLOCKS
    ensures ValidNode(PathOf(off / 512)) && Addr(t, PathOf(off / 512)) == BlockAt(t, off / 512) < |t.blocks|
    ensures forall u, a :: Walking(t, u, PathOf(off / 512), a) ==> u == t && a == BlockAt(t, off / 512)
  {
    hide Addr, NonSharing, PathOf;
    assert off / 512 * 512 < n;
    CoversBound(t, n);
    BlockInRange(t, off / 512);
  }

  /** How far writei has got: the content is the old one with the first tot bytes stored. */
  ghost predicate Written(t: Tree, c0: Content, off: nat, src: seq<Byte>, tot: nat) {
    && TreeOk(t) && off <= |c0| && tot <= |src|
    && Covers(t, Max(|c0|, off + tot))
    && FileContent.Content(t, Max(|c0|, off + tot)) == Store(c0, off, src[..tot])
  }

  lemma NothingWritten(t0: Tree, c0: Content, off: nat, src: seq<Byte>)
    requires TreeOk(t0) && off <= |c0| && Covers(t0, |c0|) && FileContent.Content(t0, |c0|) == c0
    ensures Written(t0, c0, off, src, 0) && Local(t0, t0)
  {
    hide Addr, NonSharing, Bytes, PathOf;
    StoreNothing(c0, off);
    assert src[..0] == [];
  }

  /** Below STRAYBYTES bmap neither strays nor leaves its range; a write that passes it strays. */
  lemma BlockOnPath(at: nat, end: nat)
    requires at < end <= MAXBYTES
    ensures at / 512 < MAXFILE
    ensures at < STRAYBYTES + 512 ==> (ValidNode(PathOf(at / 512)) <==> at < STRAYBYTES)
  {
    hide PathOf, ValidNode;
    if at < STRAYBYTES + 512 {
      WalksMeet(at / 512, 0);
    }
  }

  lemma WrittenOk(t: Tree, c0: Content, off: nat, src: seq<Byte>, tot: nat)
    requires Written(t, c0, off, src, tot)
    ensures TreeOk(t)
  {
  }

  lemma WholeRound(at: nat, m: nat)
    requires at < STRAYBYTES && at % 512 + m <= 512
    ensures at + m <= STRAYBYTES
  {
  }

  lemma BlockWalked(t: Tree, u: Tree, bn: nat, a: Word)
    requires ValidNode(PathOf(bn)) && Walking(t, u, PathOf(bn), a)
    ensures Shape(u) && BlockAt(u, bn) == a
  {
  }

  lemma AllWritten(t: Tree, c0: Content, off: nat, src: seq<Byte>)
    requires Written(t, c0, off, src, |src|)
    ensures TreeOk(t) && Covers(t, Max(|c0|, off + |src|))
    ensures off <= |c0| && FileContent.Content(t, Max(|c0|, off + |src|)) == Store(c0, off, src)
    ensures Max(|c0|, off + |src|) <= STRAYBYTES
  {
    hide Addr, NonSharing, Bytes, PathOf, Store, ByteAt;
    CoversBound(t, Max(|c0|, off + |src|));
    assert src[..|src|] == src;
  }

  /** One round of the loop of writei: bmap takes t to u, the memmove stores blk. */
  lemma RoundLocal(t0: Tree, t: Tree, u: Tree, bn: nat, a: Word, blk: Block)
    requires Local(t0, t) && ValidNode(PathOf(bn)) && Walking(t, u, PathOf(bn), a) && a < |u.blocks|
    ensures TreeOk(SetData(u, a, blk)) && Local(t0, SetData(u, a, blk))
  {
    hide Addr, NonSharing, PathOf, BlockAt, InTree;
    BlockWalked(t, u, bn, a);
    ExtendsIsLocal(t, u, PathOf(bn));
    SetDataIsLocal(u, bn, blk);
    LocalTrans(t0, t, u);
    LocalTrans(t0, u, SetData(u, a, blk));
  }

  /** bmap leaves what is written as it is; a round within the old file leaves addrs as they are. */
  lemma BmapKeepsWritten(t: Tree, u: Tree, c0: Content, off: nat, src: seq<Byte>, tot: nat, a: Word)
    requires ValidNode(PathOf((off + tot) / 512)) && Walking(t, u, PathOf((off + tot) / 512), a)
    requires Written(t, c0, off, src, tot)
    ensures Written(u, c0, off, src, tot)
    ensures off + tot < |c0| ==> u == t
    ensures BlockAt(u, (off + tot) / 512) == a
  {
    hide Addr, NonSharing, Bytes, PathOf, Extends, Store, ByteAt, Walking, BlockAt;
    var at, hi := off + tot, Max(|c0|, off + tot);
    BlockWalked(t, u, at / 512, a);
    WalkedTo(t, u, PathOf(at / 512), a);
    BmapKeepsBytes(t, u, at / 512, a, hi);
    assert FileContent.Content(u, hi) == FileContent.Content(t, hi);
    if at < |c0| {
      BlockPresent(t, at, hi);
    }
  }

  lemma RoundContent(u: Tree, c0: Content, off: nat, src: seq<Byte>, tot: nat, m: nat, a: Word)
    requires Written(u, c0, off, src, tot) && off + tot + m <= STRAYBYTES
    requires 0 < m && tot + m <= |src| && (off + tot) % 512 + m <= 512
    requires BlockAt(u, (off + tot) / 512) == a && 0 < a < |u.blocks|
    ensures Written(SetData(u, a, Patched(u.blocks[a], (off + tot) % 512, src[tot..tot + m])), c0, off, src, tot + m)
  {
    hide Addr, NonSharing, Bytes, PathOf, Store, Patched, ByteAt, BlockAt, Covers;
    var piece := src[tot..tot + m];
    var hi := Max(|c0|, off + tot);
    PieceWritten(u, off + tot, piece, hi);
    WritesCompose(c0, off, src[..tot], piece);
    assert src[..tot] + piece == src[..tot + m];
  }

  class Inode {
    const inum: nat
    var size: Word
    var addrs: seq<Word>

    constructor (inum: nat, d: DInode)
      ensures this.inum == inum && size == d.size && addrs == d.addrs
    {
      this.inum := inum;
      size, addrs := d.size, d.addrs;
    }
  }

  class Fs {
    var blocks: seq<Block>
    var used: seq<bool>
    var dinodes: map<nat, DInode>

    constructor (blocks: seq<Block>, used: seq<bool>, dinodes: map<nat, DInode>)
      ensures this.blocks == blocks && this.used == used && this.dinodes == dinodes
    {
      this.blocks, this.used, this.dinodes := blocks, used, dinodes;
    }

    ghost function TreeOf(ip: Inode): (t: Tree)
      reads this, ip
    {
      Tree(blocks, used, ip.addrs)
    }

    ghost predicate DiskFull()
      reads this
    {
      forall b :: 0 <= b < |used| ==> used[b]
    }

    /** balloc: the first free block, zeroed. None is the panic. */
    method Balloc() returns (r: Option<Word>)
      requires |used| == |blocks| <= 0x1_0000_0000
      modifies this`used, this`blocks
      ensures r.None? ==> used == old(used) && blocks == old(blocks) && DiskFull()
      ensures r.Some? ==>
                && r.value < |old(used)| && !old(used)[r.value]
                && (forall b :: 0 <= b < r.value ==> old(used)[b])
                && used == old(used)[r.value := true]
                && blocks == old(blocks)[r.value := ZeroBlock()]
    {
      var b := 0;
      while b < |used|
        invariant used == old(used) && blocks == old(blocks)
        invariant forall k :: 0 <= k < b && k < |used| ==> used[k]
      {
        var bi := 0;
        while bi < BPB && b + bi < |used|
          invariant 0 <= bi <= BPB
          invariant used == old(used) && blocks == old(blocks)
          invariant forall k :: 0 <= k < b + bi && k < |used| ==> used[k]
        {
          if !used[b + bi] {
            used := used[b + bi := true];
            blocks := blocks[b + bi := ZeroBlock()];
            return Some(b + bi);
          }
          bi := bi + 1;
        }
        b := b + BPB;
      }
      r := None;
    }

    /** bfree. False is the panic "freeing free block". */
    method Bfree(b: Word) returns (ok: bool)
      requires b < |used|
      modifies this`used
      ensures ok <==> old(used)[b]
      ensures used == if ok then old(used)[b := false] else old(used)
    {
      if !used[b] {
        return false;
      }
      used := used[b := false];
      return true;
    }

    /** The block of ip->addrs[slot], allocated if missing. */
    method SlotBlock(ip: Inode, slot: nat) returns (r: Option<Word>)
      requires TreeOk(TreeOf(ip)) && slot < 13
      modifies this`used, this`blocks, ip`addrs
      ensures r.Some? ==> Walking(old(TreeOf(ip)), TreeOf(ip), Node(slot, []), r.value)
      ensures Addr(old(TreeOf(ip)), Node(slot, [])) != 0 ==> r.Some?
      ensures r.None? ==> DiskFull()
    {
      ghost var t := TreeOf(ip);
      assert ValidNode(Node(slot, []));
      var addr := ip.addrs[slot];
      if addr == 0 {
        r := Balloc();
        if r.None? {
          return;
        }
        ip.addrs := ip.addrs[slot := r.value];
        SlotAdded(t, slot, r.value);
        assert TreeOf(ip) == SetSlot(t, slot, r.value);
      } else {
        ExtendsRefl(t, Node(slot, []));
        r := Some(addr);
      }
    }

    /** Entry i of the index block `at`, which is node p: the block it names, allocated if missing. */
    method EntryBlock(ip: Inode, ghost p: Node, at: Word, i: nat) returns (r: Option<Word>)
      requires TreeOk(TreeOf(ip)) && ValidNode(p) && !Leaf(p) && i < 128
      requires Addr(TreeOf(ip), p) == at && at != 0
      modifies this`used, this`blocks
      ensures r.Some? ==> Walking(old(TreeOf(ip)), TreeOf(ip), Child(p, i), r.value)
      ensures Addr(old(TreeOf(ip)), Child(p, i)) != 0 ==> r.Some?
      ensures r.None? ==> DiskFull()
    {
      hide TreeOk, Addr, Walking, Child;
      ghost var t := TreeOf(ip);
      TreeShape(t);
      EntryIs(t, p, i);
      var addr := blocks[at][i];
      if addr == 0 {
        r := Balloc();
        if r.None? {
          return;
        }
        blocks := blocks[at := blocks[at][i := r.value]];
        WalkAdds(t, p, i, r.value);
        assert TreeOf(ip) == SetEntry(t, at, i, r.value);
      } else {
        WalkStands(t, Child(p, i));
        r := Some(addr);
      }
    }

    /** bmap. The block found or made is the one at the leaf that PathOf names. */
    method Bmap(ip: Inode, bn: nat) returns (r: Mapped)
      requires TreeOk(TreeOf(ip))
      modifies this`used, this`blocks, ip`addrs
      ensures r.OutOfRange? <==> bn >= MAXFILE
      ensures r.Stray? ==> bn < MAXFILE && !ValidNode(PathOf(bn))
      ensures r.At? ==> ValidNode(PathOf(bn)) && Walking(old(TreeOf(ip)), TreeOf(ip), PathOf(bn), r.addr)
      ensures bn < MAXFILE && ValidNode(PathOf(bn)) && Addr(old(TreeOf(ip)), PathOf(bn)) != 0 ==> r.At?
      ensures r.OutOfBlocks? ==> DiskFull()
    {
      hide Walking, Extends, TreeOk, NonSharing, Addr;
      ghost var t0 := TreeOf(ip);
      if bn < 10 {
        var o := SlotBlock(ip, bn);
        return if o.None? then OutOfBlocks else At(o.value);
      }
      var b := bn - 10;
      if b < 128 {
        r := BmapSingle(ip, b);
        return;
      }
      b := b - 128;
      if b < 16384 {
        r := BmapDouble(ip, b);
        return;
      }
      b := b - 16384;
      if b < 2097152 {
        r := BmapTriple(ip, b);
        return;
      }
      return OutOfRange;
    }

    /** The single indirect part of bmap. */
    method BmapSingle(ip: Inode, b: nat) returns (r: Mapped)
      requires TreeOk(TreeOf(ip)) && b < 128
      modifies this`used, this`blocks, ip`addrs
      ensures r.At? || r.OutOfBlocks?
      ensures r.At? ==> Walking(old(TreeOf(ip)), TreeOf(ip), Node(10, [b]), r.addr)
      ensures Addr(old(TreeOf(ip)), Node(10, [b])) != 0 ==> r.At?
      ensures r.OutOfBlocks? ==> DiskFull()
    {
      hide Walking, Extends, TreeOk, NonSharing, Addr;
      ghost var t0 := TreeOf(ip);
      TreeShape(t0);
      PresentAbove(t0, Node(10, [b]));
      var o := SlotBlock(ip, 10);
      if o.None? {
        return OutOfBlocks;
      }
      r := Descend(ip, t0, Node(10, []), o.value, b);
      assert [] + [b] == [b];
    }

    /** The double indirect part of bmap. */
    method BmapDouble(ip: Inode, b: nat) returns (r: Mapped)
      requires TreeOk(TreeOf(ip)) && b < 16384
      modifies this`used, this`blocks, ip`addrs
      ensures r.At? || r.OutOfBlocks?
      ensures r.At? ==> Walking(old(TreeOf(ip)), TreeOf(ip), Node(11, [b / 128, b % 128]), r.addr)
      ensures Addr(old(TreeOf(ip)), Node(11, [b / 128, b % 128])) != 0 ==> r.At?
      ensures r.OutOfBlocks? ==> DiskFull()
    {
      hide Walking, Extends, TreeOk, NonSharing, Addr;
      ghost var t0 := TreeOf(ip);
      TreeShape(t0);
      var d := b / 128;
      ghost var leaf := Node(11, [d, b % 128]);
      PresentAbove(t0, leaf);
      assert [] + [d] == [d] && [d] + [b % 128] == [d, b % 128];
      assert OnPath(Node(11, []), leaf) && OnPath(Node(11, [d]), leaf);
      var o := SlotBlock(ip, 11);
      if o.None? {
        return OutOfBlocks;
      }
      r := Descend(ip, t0, Node(11, []), o.value, d);
      if r.OutOfBlocks? {
        return;
      }
      r := Descend(ip, t0, Node(11, [d]), r.addr, b % 128);
    }

    /** The triple indirect part of bmap, with the mask of line 441. */
    method BmapTriple(ip: Inode, b: nat) returns (r: Mapped)
      requires TreeOk(TreeOf(ip)) && b < 2097152
      modifies this`used, this`blocks, ip`addrs
      ensures !r.OutOfRange?
      ensures r.Stray? ==> !ValidNode(TriplePath(b))
      ensures r.At? ==> ValidNode(TriplePath(b)) && Walking(old(TreeOf(ip)), TreeOf(ip), TriplePath(b), r.addr)
      ensures ValidNode(TriplePath(b)) && Addr(old(TreeOf(ip)), TriplePath(b)) != 0 ==> r.At?
      ensures r.OutOfBlocks? ==> DiskFull()
    {
      hide Walking, Extends, TreeOk, NonSharing, Addr, And4000;
      ghost var t0 := TreeOf(ip);
      TreeShape(t0);
      var k, m := b / 16384, And4000(b);
      var d := m / 128;
      ghost var leaf := TriplePath(b);
      assert [] + [k] == [k] && [k] + [d] == [k, d] && [k, d] + [m % 128] == [k, d, m % 128] == leaf.idx;
      assert d >= 128 ==> leaf.idx[1] >= 128;
      if d < 128 {
        PresentAbove(t0, leaf);
        assert OnPath(Node(12, []), leaf) && OnPath(Node(12, [k]), leaf) && OnPath(Node(12, [k, d]), leaf);
      }
      var o := SlotBlock(ip, 12);
      if o.None? {
        return OutOfBlocks;
      }
      r := Descend(ip, t0, Node(12, []), o.value, k);
      if r.OutOfBlocks? {
        return;
      }
      if d >= 128 {
        return Stray;
      }
      r := Descend(ip, t0, Node(12, [k]), r.addr, d);
      if r.OutOfBlocks? {
        return;
      }
      r := Descend(ip, t0, Node(12, [k, d]), r.addr, m % 128);
    }

    /** One level down in a walk that began at t0. */
    method Descend(ip: Inode, ghost t0: Tree, ghost p: Node, at: Word, i: nat) returns (r: Mapped)
      requires ValidNode(p) && !Leaf(p) && i < 128 && Walking(t0, TreeOf(ip), p, at)
      modifies this`used, this`blocks
      ensures r.At? || r.OutOfBlocks?
      ensures r.At? ==> Walking(t0, TreeOf(ip), Node(p.slot, p.idx + [i]), r.addr)
      ensures ValidNode(Node(p.slot, p.idx + [i])) && Addr(t0, Node(p.slot, p.idx + [i])) != 0 ==> r.At?
      ensures r.OutOfBlocks? ==> DiskFull()
    {
      ghost var t := TreeOf(ip);
      var o := EntryBlock(ip, p, at, i);
      if o.None? {
        return OutOfBlocks;
      }
      WalkOn(t0, t, TreeOf(ip), p, at, i, o.value);
      r := At(o.value);
    }

    // ----- reading and writing -----

    /** A file without holes, its on-disk inode up to date. */
    ghost predicate FileOk(ip: Inode)
      reads this, ip
    {
      && TreeOk(TreeOf(ip))
      && Covers(TreeOf(ip), ip.size)
      && ip.inum in dinodes && dinodes[ip.inum] == DInode(ip.size, ip.addrs)
    }

    ghost function ContentOf(ip: Inode): (c: Content)
      requires TreeOk(TreeOf(ip))
      reads this, ip
    {
      FileContent.Content(TreeOf(ip), ip.size)
    }

    /** iupdate. */
    method Iupdate(ip: Inode)
      modifies this`dinodes
      ensures dinodes == old(dinodes)[ip.inum := DInode(ip.size, ip.addrs)]
    {
      dinodes := dinodes[ip.inum := DInode(ip.size, ip.addrs)];
    }

    /** readi on an ordinary file: -1 exactly under its tests, and otherwise as many of the n bytes at off as the file
        has; it allocates and changes nothing. */
    method Readi(ip: Inode, off: Word, n: Word) returns (ret: Io, dst: seq<Byte>)
      requires TreeOk(TreeOf(ip)) && Covers(TreeOf(ip), ip.size)
      modifies this`used, this`blocks, ip`addrs
      ensures TreeOf(ip) == old(TreeOf(ip))
      ensures !ret.Panicked?
      ensures ret.Minus1? <==> off > old(ip.size) || off + n >= 0x1_0000_0000
      ensures ret.Count? ==> ret.n == |dst| == Min(n, old(ip.size) - off)
      ensures ret.Count? ==> off + |dst| <= |old(ContentOf(ip))| && dst == old(ContentOf(ip))[off..off + |dst|]
      ensures FileBytes.Readi(old(ContentOf(ip)), off, n) == if ret.Minus1? then None else Some(dst)
    {
      hide Walking, Extends, Addr, Bytes, NonSharing, Covers, BlockAt;
      dst := [];
      if off > ip.size || (off + n) % 0x1_0000_0000 < off {
        return Minus1, dst;
      }
      ghost var t0, c := TreeOf(ip), ContentOf(ip);
      var len: nat := if off + n > ip.size then ip.size - off else n;
      var tot, at := 0, off;
      while tot < len
        invariant 0 <= tot <= len && at == off + tot
        invariant TreeOf(ip) == t0
        invariant dst == c[off..at]
      {
        BlockPresent(t0, at, ip.size);
        var r := Bmap(ip, at / 512);
        var m := Min(len - tot, 512 - at % 512);
        SliceOfBlock(t0, at, m, ip.size);
        dst := dst + Bytes(blocks[r.addr])[at % 512..at % 512 + m];
        assert c[off..at + m] == c[off..at] + c[at..at + m];
        tot, at := tot + m, at + m;
      }
      ret := Count(len);
    }

    /** writei on an ordinary file. It returns -1 exactly when the operation on contents refuses, and when it
        returns a count the content is what that operation leaves and the on-disk inode is up to date although
        iupdate runs only when the file grows; otherwise the disk is full or the write reaches a stray block.
        No other file's blocks are touched. */
    method Writei(ip: Inode, src: seq<Byte>, off: Word) returns (ret: Io)
      requires FileOk(ip) && |src| < 0x1_0000_0000
      modifies this, ip
      ensures ret.Minus1? <==> off > old(ip.size) || off + |src| > MAXBYTES
      ensures ret.Minus1? <==> FileBytes.Writei(old(ContentOf(ip)), off, src).Refused?
      ensures ret.Minus1? ==> TreeOf(ip) == old(TreeOf(ip)) && ip.size == old(ip.size) && dinodes == old(dinodes)
      ensures ret.Count? ==> ret.n == |src| && Local(old(TreeOf(ip)), TreeOf(ip)) && FileOk(ip)
      ensures ret.Count? ==> FileBytes.Writei(old(ContentOf(ip)), off, src) == Done(ContentOf(ip))
      ensures ret.Panicked? ==> DiskFull() || off + |src| > STRAYBYTES
      ensures ret.Panicked? ==> DiskFull() || FileBytes.Writei(old(ContentOf(ip)), off, src).Strayed?
      ensures dinodes - {ip.inum} == old(dinodes) - {ip.inum}
    {
      hide Walking, Extends, Addr, NonSharing, Covers, BlockAt, Local, Store, PathOf, ByteAt, Written, TreeOk;
      var n := |src|;
      if off > ip.size || (off + n) % 0x1_0000_0000 < off {
        return Minus1;
      }
      if off + n > MAXBYTES {
        return Minus1;
      }
      ghost var t0, c0, size0 := TreeOf(ip), ContentOf(ip), ip.size;
      NothingWritten(t0, c0, off, src);
      TreeShape(t0);
      CoversBound(t0, size0);
      var tot := 0;
      while tot < n
        invariant 0 <= tot <= n && off + tot <= STRAYBYTES
        invariant ip.size == size0 && dinodes == old(dinodes)
        invariant TreeOk(TreeOf(ip)) && Local(t0, TreeOf(ip)) && Written(TreeOf(ip), c0, off, src, tot)
        invariant off + tot <= size0 ==> ip.addrs == t0.addrs
      {
        var m := StorePiece(ip, src, off, tot, t0, c0);
        if m == 0 {
          return Panicked;
        }
        tot := tot + m;
      }
      AllWritten(TreeOf(ip), c0, off, src);
      if n > 0 && off + tot > ip.size {
        ip.size := off + tot;
        Iupdate(ip);
      }
      ret := Count(n);
    }

    /** One round of the loop of writei: the number of bytes stored, or 0 after a panic or a stray access. */
    method StorePiece(ip: Inode, src: seq<Byte>, off: nat, tot: nat, ghost t0: Tree, ghost c0: Content) returns (m: nat)
      requires tot < |src| && off + tot <= STRAYBYTES && off + |src| <= MAXBYTES
      requires TreeOk(TreeOf(ip)) && Local(t0, TreeOf(ip)) && Written(TreeOf(ip), c0, off, src, tot)
      modifies this`used, this`blocks, ip`addrs
      ensures m > 0 ==> tot + m <= |src| && off + tot + m <= STRAYBYTES
      ensures m > 0 ==> TreeOk(TreeOf(ip)) && Local(t0, TreeOf(ip)) && Written(TreeOf(ip), c0, off, src, tot + m)
      ensures m > 0 && off + tot < |c0| ==> ip.addrs == old(ip.addrs)
      ensures m == 0 ==> DiskFull() || off + |src| > STRAYBYTES
    {
      hide Walking, Extends, Addr, Bytes, NonSharing, Covers, BlockAt, Local, Store, PathOf, ByteAt, Patched, Written,
           ValidNode, TreeOk;
      ghost var t := TreeOf(ip);
      var at := off + tot;
      var r := Bmap(ip, at / 512);
      BlockOnPath(at, off + |src|);
      if !r.At? {
        return 0;
      }
      ghost var u := TreeOf(ip);
      WalkedTo(t, u, PathOf(at / 512), r.addr);
      m := Min(|src| - tot, 512 - at % 512);
      blocks := blocks[r.addr := Patched(blocks[r.addr], at % 512, src[tot..tot + m])];
      RoundLocal(t0, t, u, at / 512, r.addr, Patched(u.blocks[r.addr], at % 512, src[tot..tot + m]));
      BmapKeepsWritten(t, u, c0, off, src, tot, r.addr);
      WholeRound(at, m);
      RoundContent(u, c0, off, src, tot, m, r.addr);
      WrittenOk(TreeOf(ip), c0, off, src, tot + m);
    }

    // ----- truncation -----

    /** The inner loops of itrunc: free everything below index block a, node q of tree t.
        False would be the panic "freeing free block". */
    method FreeBelow(ghost t: Tree, ghost q: Node, a: Word, depth: nat) returns (ok: bool)
      requires TreeOk(t) && t.blocks == blocks && |used| == |t.used|
      requires ValidNode(q) && depth == Depth(q.slot) - |q.idx| && depth >= 1
      requires Addr(t, q) == a && a != 0
      requires forall b :: 0 <= b < |used| && Below(t, q, 128, b) ==> used[b]
      modifies this`used
      ensures ok
      ensures |used| == |old(used)|
      ensures forall b :: 0 <= b < |used| ==> (used[b] <==> old(used)[b] && !Below(t, q, 128, b))
      decreases depth
    {
      hide Addr, NonSharing, Below;
      BelowNone(t, q);
      ok := true;
      var i := 0;
      while i < 128
        invariant 0 <= i <= 128 && ok
        invariant |used| == |old(used)|
        invariant forall b :: 0 <= b < |used| ==> (used[b] <==> old(used)[b] && !Below(t, q, i, b))
      {
        ghost var c := Child(q, i);
        BelowRound(t, q, i);
        EntryIsChild(t, q, a, i);
        if blocks[a][i] != 0 {
          if depth > 1 {
            ok := FreeBelow(t, c, blocks[a][i], depth - 1);
            if !ok {
              return;
            }
          } else {
            BelowLeaf(t, c);
          }
          ok := Bfree(blocks[a][i]);
          if !ok {
            return;
          }
        }
        i := i + 1;
      }
    }

    /** The part of itrunc for one slot: the tree there, its root and the slot are freed. */
    method FreeSlot(ghost t: Tree, ip: Inode, s: nat) returns (ok: bool)
      requires TreeOk(t) && t.blocks == blocks && |used| == |t.used| && s < 13
      requires |ip.addrs| == 13 && ip.addrs[s] == t.addrs[s]
      requires forall b :: 0 <= b < |used| ==> (used[b] <==> t.used[b] && !Gone(t, s, b))
      modifies this`used, ip`addrs
      ensures ok && |used| == |old(used)|
      ensures forall b :: 0 <= b < |used| ==> (used[b] <==> t.used[b] && !Gone(t, s + 1, b))
      ensures ip.addrs == old(ip.addrs)[s := 0]
    {
      ghost var c := Node(s, []);
      assert Addr(t, c) == t.addrs[s];
      assert t.used[Addr(t, c)];
      forall b: nat {
        GoneStep(t, s, b);
      }
      InTreeUsed(t);
      hide Addr, NonSharing, Gone, Below, InTree;
      ok := true;
      if ip.addrs[s] != 0 {
        if s >= 10 {
          ok := FreeBelow(t, c, ip.addrs[s], s - 9);
          if !ok {
            return;
          }
        } else {
          BelowLeaf(t, c);
        }
        ok := Bfree(ip.addrs[s]);
        if !ok {
          return;
        }
        ip.addrs := ip.addrs[s := 0];
      }
    }

    /** itrunc: exactly the blocks of the tree become free, the panic is never reached, and the inode,
        in memory and on disk, is empty. */
    method Itrunc(ip: Inode) returns (ok: bool)
      requires TreeOk(TreeOf(ip))
      modifies this`used, this`dinodes, ip
      ensures ok
      ensures |used| == |old(used)|
      ensures forall b :: 0 <= b < |used| ==> (used[b] <==> old(used)[b] && !InTree(old(TreeOf(ip)), b))
      ensures ip.size == 0 && ip.addrs == seq(13, _ => 0)
      ensures dinodes == old(dinodes)[ip.inum := DInode(0, ip.addrs)]
      ensures forall base :: Accounted(old(TreeOf(ip)), base) ==> used == base
    {
      hide Addr, NonSharing, Gone;
      ghost var t := TreeOf(ip);
      GoneNone(t);
      ok := true;
      var s := 0;
      while s < 13
        invariant 0 <= s <= 13 && ok
        invariant |used| == |old(used)| && |ip.addrs| == 13 && dinodes == old(dinodes)
        invariant forall k :: 0 <= k < s ==> ip.addrs[k] == 0
        invariant forall k :: s <= k < 13 ==> ip.addrs[k] == t.addrs[k]
        invariant forall b :: 0 <= b < |used| ==> (used[b] <==> old(used)[b] && !Gone(t, s, b))
      {
        ok := FreeSlot(t, ip, s);
        if !ok {
          return;
        }
        s := s + 1;
      }
      GoneAll(t);
      ip.size := 0;
      assert ip.addrs == seq(13, _ => 0);
      Iupdate(ip);
    }
  }
}
