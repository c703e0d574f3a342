/** An inode's block tree on the disk, and what adding one block to it does. */
module BlockTree {
  import opened Blocks
  import opened BlockMap

  /** The blocks as last written, the free map (true: in use) and one inode's addrs. */
  datatype Tree = Tree(blocks: seq<Block>, used: seq<bool>, addrs: seq<Word>)

  predicate Shape(t: Tree) {
    |t.used| == |t.blocks| <= 0x1_0000_0000 && |t.addrs| == 13
  }

  /** The block number stored at a node; 0 when there is none. */
  function Addr(t: Tree, p: Node): Word
    requires Shape(t) && ValidNode(p)
    decreases |p.idx|
  {
    if p.idx == [] then t.addrs[p.slot]
    else
      var a := Addr(t, Parent(p));
      if 0 < a < |t.blocks| then t.blocks[a][p.idx[|p.idx| - 1]] else 0
  }

  function Parent(p: Node): (q: Node)
    requires ValidNode(p) && p.idx != []
    ensures ValidNode(q)
  {
    Node(p.slot, p.idx[..|p.idx| - 1])
  }

  function Child(p: Node, i: nat): (q: Node)
    requires ValidNode(p) && !Leaf(p) && i < 128
    ensures ValidNode(q) && q.idx != [] && Parent(q) == p
  {
    Node(p.slot, p.idx + [i])
  }

  /** Every block of the tree is a block in use, and no block is at two nodes. */
  ghost predicate TreeOk(t: Tree) {
    && Shape(t) && |t.used| > 0 && t.used[0]
    && (forall p :: ValidNode(p) ==> Addr(t, p) < |t.blocks| && t.used[Addr(t, p)])
    && NonSharing(t)
  }

  ghost predicate NonSharing(t: Tree)
    requires Shape(t)
  {
    forall p, q :: ValidNode(p) && ValidNode(q) && Addr(t, p) != 0 && Addr(t, p) == Addr(t, q) ==> p == q
  }

  /** Block b holds part of this tree's index. */
  ghost predicate IsIndex(t: Tree, b: nat)
    requires Shape(t)
  {
    exists p :: ValidNode(p) && !Leaf(p) && Addr(t, p) == b && b != 0
  }

  predicate OnPath(r: Node, p: Node) {
    r.slot == p.slot && r.idx <= p.idx
  }

  /** t' is t with missing blocks on the way to p added, each taken from the free ones, and nothing else
      changed: no other node, no data block, no block of another file. */
  ghost predicate Extends(t: Tree, t': Tree, p: Node) {
    && TreeOk(t) && TreeOk(t') && |t'.blocks| == |t.blocks| && ValidNode(p)
    && (forall r :: ValidNode(r) ==>
          Addr(t', r) == Addr(t, r) || (OnPath(r, p) && Addr(t, r) == 0 && !t.used[Addr(t', r)]))
    && (forall b :: 0 <= b < |t.used| && t.used[b] ==> t'.used[b])
    && (forall b :: 0 <= b < |t.used| && t'.used[b] && !t.used[b] ==>
          exists r :: ValidNode(r) && OnPath(r, p) && Addr(t', r) == b)
    && (forall b :: 0 <= b < |t.used| && t.used[b] && !IsIndex(t, b) ==> t'.blocks[b] == t.blocks[b])
  }

  lemma ExtendsRefl(t: Tree, p: Node)
    requires TreeOk(t) && ValidNode(p)
    ensures Extends(t, t, p)
  {
  }

  lemma NodeTrans(t: Tree, u: Tree, v: Tree, p: Node, r: Node)
    requires Extends(t, u, p) && Extends(u, v, p) && ValidNode(r)
    ensures Addr(v, r) == Addr(t, r) || (OnPath(r, p) && Addr(t, r) == 0 && !t.used[Addr(v, r)])
  {
    hide Addr, NonSharing, OnPath, IsIndex;
    assert Addr(u, r) == Addr(t, r) || !t.used[Addr(u, r)];
    assert Addr(v, r) == Addr(u, r) || !u.used[Addr(v, r)];
  }

  lemma AddedTrans(t: Tree, u: Tree, v: Tree, p: Node, b: nat)
    requires Extends(t, u, p) && Extends(u, v, p) && b < |t.used| && v.used[b] && !t.used[b]
    ensures exists r :: ValidNode(r) && OnPath(r, p) && Addr(v, r) == b
  {
    hide Addr, NonSharing, OnPath, IsIndex;
    if u.used[b] {
      var r :| ValidNode(r) && OnPath(r, p) && Addr(u, r) == b;
      assert Addr(v, r) == b;
    }
  }

  lemma IndexTrans(t: Tree, u: Tree, p: Node, b: nat)
    requires Extends(t, u, p) && b < |t.used| && t.used[b] && IsIndex(u, b)
    ensures IsIndex(t, b)
  {
    hide Addr, NonSharing, OnPath;
    var r :| ValidNode(r) && !Leaf(r) && Addr(u, r) == b && b != 0;
    assert Addr(t, r) == b;
  }

  lemma ExtendsTrans(t: Tree, u: Tree, v: Tree, p: Node)
    requires Extends(t, u, p) && Extends(u, v, p)
    ensures Extends(t, v, p)
  {
    hide Addr, NonSharing, OnPath, IsIndex;
    forall r | ValidNode(r)
      ensures Addr(v, r) == Addr(t, r) || (OnPath(r, p) && Addr(t, r) == 0 && !t.used[Addr(v, r)])
    {
      NodeTrans(t, u, v, p, r);
    }
    forall b | 0 <= b < |t.used| && v.used[b] && !t.used[b]
      ensures exists r :: ValidNode(r) && OnPath(r, p) && Addr(v, r) == b
    {
      AddedTrans(t, u, v, p, b);
    }
    forall b | 0 <= b < |t.used| && t.used[b] && !IsIndex(t, b)
      ensures v.blocks[b] == t.blocks[b]
    {
      if IsIndex(u, b) {
        IndexTrans(t, u, p, b);
      }
    }
  }

  // ----- adding one block -----

  /** bmap fills slot `slot` with the freshly zeroed block a. */
  function SetSlot(t: Tree, slot: nat, a: Word): Tree
    requires Shape(t) && slot < 13 && a < |t.blocks|
  {
    Tree(t.blocks[a := ZeroBlock()], t.used[a := true], t.addrs[slot := a])
  }

  /** bmap fills entry i of index block `at` with the freshly zeroed block a. */
  function SetEntry(t: Tree, at: Word, i: nat, a: Word): Tree
    requires Shape(t) && at < |t.blocks| && i < 128 && a < |t.blocks|
  {
    var zeroed := t.blocks[a := ZeroBlock()];
    Tree(zeroed[at := zeroed[at][i := a]], t.used[a := true], t.addrs)
  }

  lemma {:induction false} SetSlotAddr(t: Tree, slot: nat, a: Word, r: Node)
    requires TreeOk(t) && slot < 13 && a < |t.blocks| && !t.used[a] && ValidNode(r)
    requires Addr(t, Node(slot, [])) == 0
    ensures Addr(SetSlot(t, slot, a), r) == if r == Node(slot, []) then a else Addr(t, r)
    decreases |r.idx|
  {
    if r.idx != [] {
      SetSlotAddr(t, slot, a, Parent(r));
      assert t.used[Addr(t, Parent(r))];
    }
  }

  lemma AddrOfSlot(t: Tree, t': Tree, r: Node)
    requires Shape(t) && Shape(t') && t.addrs == t'.addrs && ValidNode(r) && r.idx == []
    ensures Addr(t, r) == Addr(t', r)
  {
  }

  lemma AddrBelow(t: Tree, r: Node)
    requires Shape(t) && ValidNode(r) && r.idx != []
    ensures var a := Addr(t, Parent(r));
            Addr(t, r) == if 0 < a < |t.blocks| then t.blocks[a][r.idx[|r.idx| - 1]] else 0
  {
  }

  lemma ChildIs(p: Node, i: nat, r: Node)
    requires ValidNode(p) && !Leaf(p) && i < 128 && ValidNode(r) && r.idx != []
    ensures r == Child(p, i) <==> Parent(r) == p && r.idx[|r.idx| - 1] == i
  {
    assert r.idx == r.idx[..|r.idx| - 1] + [r.idx[|r.idx| - 1]];
  }

  lemma OneNode(t: Tree, p: Node, q: Node)
    requires TreeOk(t) && ValidNode(p) && ValidNode(q) && Addr(t, p) != 0 && Addr(t, p) == Addr(t, q)
    ensures p == q
  {
  }

  lemma {:induction false} SetEntryAddr(t: Tree, p: Node, i: nat, a: Word, r: Node)
    requires TreeOk(t) && ValidNode(p) && !Leaf(p) && i < 128 && Addr(t, p) != 0
    requires a < |t.blocks| && !t.used[a] && ValidNode(r) && Addr(t, Child(p, i)) == 0
    ensures Addr(SetEntry(t, Addr(t, p), i, a), r) == if r == Child(p, i) then a else Addr(t, r)
    decreases |r.idx|
  {
    hide Addr, NonSharing, Child;
    var t' := SetEntry(t, Addr(t, p), i, a);
    assert t.used[Addr(t, p)];
    if r.idx == [] {
      AddrOfSlot(t, t', r);
    } else {
      var q := Parent(r);
      SetEntryAddr(t, p, i, a, q);
      assert t.used[Addr(t, q)];
      AddrBelow(t, r);
      AddrBelow(t', r);
      ChildIs(p, i, r);
      if Addr(t, q) == Addr(t, p) {
        OneNode(t, p, q);
      }
    }
  }

  /** t' has the fresh block a at node q, where t has none, and otherwise the same nodes. */
  ghost predicate Added(t: Tree, t': Tree, q: Node, a: Word) {
    && TreeOk(t) && Shape(t') && |t'.blocks| == |t.blocks| && ValidNode(q)
    && a < |t.blocks| && !t.used[a] && t'.used == t.used[a := true]
    && Addr(t, q) == 0
    && (forall r :: ValidNode(r) ==> Addr(t', r) == if r == q then a else Addr(t, r))
  }

  lemma AddedKeepsNonSharing(t: Tree, t': Tree, q: Node, a: Word)
    requires Added(t, t', q, a)
    ensures TreeOk(t')
  {
    hide Addr;
    forall r, s | ValidNode(r) && ValidNode(s) && Addr(t', r) != 0 && Addr(t', r) == Addr(t', s)
      ensures r == s
    {
      assert t.used[Addr(t, r)] && t.used[Addr(t, s)];
    }
  }

  lemma AddedOk(t: Tree, t': Tree, q: Node, a: Word)
    requires Added(t, t', q, a)
    requires forall b :: 0 <= b < |t.blocks| && t.used[b] && !IsIndex(t, b) ==> t'.blocks[b] == t.blocks[b]
    ensures TreeOk(t') && Extends(t, t', q)
  {
    AddedKeepsNonSharing(t, t', q, a);
    hide Addr, NonSharing;
    assert OnPath(q, q);
  }

  /** What is on the way to q is on the way to anything below q. */
  lemma ExtendsFurther(t: Tree, t': Tree, q: Node, p: Node)
    requires Extends(t, t', q) && OnPath(q, p) && ValidNode(p)
    ensures Extends(t, t', p)
  {
    hide Addr;
    assert forall r :: OnPath(r, q) ==> OnPath(r, p);
  }

  lemma SlotAdded(t: Tree, slot: nat, a: Word)
    requires TreeOk(t) && slot < 13 && a < |t.blocks| && !t.used[a] && Addr(t, Node(slot, [])) == 0
    ensures Extends(t, SetSlot(t, slot, a), Node(slot, []))
    ensures Addr(SetSlot(t, slot, a), Node(slot, [])) == a
  {
    var t' := SetSlot(t, slot, a);
    forall r | ValidNode(r)
      ensures Addr(t', r) == if r == Node(slot, []) then a else Addr(t, r)
    {
      SetSlotAddr(t, slot, a, r);
    }
    AddedOk(t, t', Node(slot, []), a);
  }

  lemma EntryAdded(t: Tree, p: Node, i: nat, a: Word)
    requires TreeOk(t) && ValidNode(p) && !Leaf(p) && i < 128 && Addr(t, p) != 0
    requires a < |t.blocks| && !t.used[a] && Addr(t, Child(p, i)) == 0
    ensures Extends(t, SetEntry(t, Addr(t, p), i, a), Child(p, i))
    ensures Addr(SetEntry(t, Addr(t, p), i, a), Child(p, i)) == a
  {
    hide Addr, NonSharing;
    var t' := SetEntry(t, Addr(t, p), i, a);
    forall r | ValidNode(r)
      ensures Addr(t', r) == if r == Child(p, i) then a else Addr(t, r)
    {
      SetEntryAddr(t, p, i, a, r);
    }
    assert IsIndex(t, Addr(t, p));
    AddedOk(t, t', Child(p, i), a);
  }

  /** A walk that began in t0 stands in t at node q, block a; a block it had to add there is zeroed,
      and if it found the block already there it changed nothing. */
  ghost predicate Walking(t0: Tree, t: Tree, q: Node, a: Word) {
    && Extends(t0, t, q)
    && Addr(t, q) == a && a != 0
    && (Addr(t0, q) != 0 ==> t == t0)
    && (Addr(t0, q) == 0 ==> t.blocks[a] == ZeroBlock())
  }

  lemma WalkOn(t0: Tree, t: Tree, u: Tree, p: Node, a: Word, i: nat, c: Word)
    requires Walking(t0, t, p, a) && !Leaf(p) && i < 128
    requires Walking(t, u, Child(p, i), c)
    ensures Walking(t0, u, Child(p, i), c)
  {
    var q := Child(p, i);
    assert OnPath(p, q);
    assert Addr(t0, q) != 0 ==> Addr(t0, p) != 0;
    hide Addr, TreeOk, NonSharing;
    ExtendsFurther(t0, t, p, q);
    ExtendsTrans(t0, t, u, q);
    assert !OnPath(q, p);
  }

  /** A walk that finds the block of node q stands still. */
  lemma WalkStands(t: Tree, q: Node)
    requires TreeOk(t) && ValidNode(q) && Addr(t, q) != 0
    ensures Walking(t, t, q, Addr(t, q))
  {
    ExtendsRefl(t, q);
  }

  /** A walk that finds no block in entry i of node p adds one. */
  lemma WalkAdds(t: Tree, p: Node, i: nat, a: Word)
    requires TreeOk(t) && ValidNode(p) && !Leaf(p) && i < 128 && Addr(t, p) != 0
    requires a < |t.blocks| && !t.used[a] && Addr(t, Child(p, i)) == 0
    ensures Walking(t, SetEntry(t, Addr(t, p), i, a), Child(p, i), a)
  {
    assert t.used[Addr(t, p)];
    hide Addr, NonSharing, Extends;
    EntryAdded(t, p, i, a);
  }

  lemma EntryIs(t: Tree, p: Node, i: nat)
    requires TreeOk(t) && ValidNode(p) && !Leaf(p) && i < 128 && Addr(t, p) != 0
    ensures Addr(t, p) < |t.blocks| && t.used[Addr(t, p)]
    ensures Addr(t, Child(p, i)) == t.blocks[Addr(t, p)][i]
  {
    assert t.used[Addr(t, p)];
  }

  lemma TreeShape(t: Tree)
    requires TreeOk(t)
    ensures Shape(t)
  {
  }

  /** A block that is there can be walked to. */
  lemma {:induction false} PresentAbove(t: Tree, p: Node)
    requires Shape(t) && ValidNode(p)
    ensures Addr(t, p) != 0 ==> forall r :: ValidNode(r) && OnPath(r, p) ==> Addr(t, r) != 0
    decreases |p.idx|
  {
    if p.idx != [] {
      PresentAbove(t, Parent(p));
      forall r | ValidNode(r) && OnPath(r, p)
        ensures r == p || OnPath(r, Parent(p))
      {
      }
    }
  }

  lemma WalkedTo(t0: Tree, t: Tree, q: Node, a: Word)
    requires Walking(t0, t, q, a)
    ensures TreeOk(t) && |t.blocks| == |t0.blocks| && 0 < a < |t.blocks| && t.used[a]
  {
  }
}
