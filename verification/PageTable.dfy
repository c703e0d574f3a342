/** Two-level page tables as they lie in physical memory, and which frames an address space owns. */
module PageTable {

  /** A physical page as 1024 words. */
  type Page = p: seq<nat> | |p| == 1024 witness ZeroPage()

  function ZeroPage(): (p: seq<nat>)
    ensures |p| == 1024 && forall k :: 0 <= k < 1024 ==> p[k] == 0
  {
    seq(1024, _ => 0)
  }

  const USERPAGES: nat := 524288
  const ALLPAGES: nat := 1048576

  // ----- entries -----

  function Frame(e: nat): nat { e / 4096 }

  function Flags(e: nat): nat { e % 4096 }

  predicate Present(e: nat) { e % 2 == 1 }

  const PTE_W: nat := 2
  const PTE_U: nat := 4

  /** The flag bit is set in e. */
  predicate Has(e: nat, bit: nat)
    requires bit > 0
  {
    e / bit % 2 == 1
  }

  /** e lets whatever lies below it be written, and by the user. */
  predicate Open(e: nat) {
    Has(e, PTE_W) && Has(e, PTE_U)
  }

  /** A page address together with flag bits. */
  function Entry(f: nat, flags: nat): nat { 4096 * f + flags }

  /** flags | PTE_P. */
  function WithPresent(flags: nat): nat { if flags % 2 == 1 then flags else flags + 1 }

  lemma EntryParts(f: nat, flags: nat)
    requires flags < 4096
    ensures Frame(Entry(f, flags)) == f && Flags(Entry(f, flags)) == flags
    ensures Present(Entry(f, flags)) == (flags % 2 == 1)
  {
  }

  /** The three lowest flags of an entry are those it was made with. */
  lemma EntryHas(f: nat, flags: nat)
    requires flags < 4096
    ensures Has(Entry(f, flags), PTE_W) == Has(flags, PTE_W) && Has(Entry(f, flags), PTE_U) == Has(flags, PTE_U)
  {
    Shifted(1024 * f, flags, PTE_W);
    Shifted(512 * f, flags, PTE_U);
  }

  /** Multiples of twice the bit do not touch it. */
  lemma Shifted(k: nat, flags: nat, bit: nat)
    requires bit == PTE_W || bit == PTE_U
    ensures Has(2 * bit * k + flags, bit) == Has(flags, bit)
  {
    if bit == PTE_W {
      assert (4 * k + flags) / 2 == 2 * k + flags / 2;
    } else {
      assert (8 * k + flags) / 4 == 2 * k + flags / 4;
    }
  }

  lemma PresentParts(f: nat, flags: nat)
    requires flags < 4096
    ensures Frame(Entry(f, WithPresent(flags))) == f && Present(Entry(f, WithPresent(flags)))
    ensures Entry(f, WithPresent(flags)) != 0 && !Present(0)
  {
    hide Frame, Flags, Present;
    var odd := WithPresent(flags);
    Odd(flags);
    EntryParts(f, odd);
    Zero();
  }

  lemma Odd(flags: nat)
    requires flags < 4096
    ensures WithPresent(flags) < 4096 && WithPresent(flags) % 2 == 1
  {
    if flags % 2 == 0 {
      assert flags == 2 * (flags / 2);
    }
  }

  // ----- walking -----

  function Pde(mem: seq<Page>, d: nat, i: nat): nat {
    if d < |mem| && i < 1024 then mem[d][i] else 0
  }

  /** The frame of the i-th page table, or 0. */
  function Tab(mem: seq<Page>, d: nat, i: nat): nat {
    if Present(Pde(mem, d, i)) then Frame(Pde(mem, d, i)) else 0
  }

  /** The entry that walkpgdir points to, or 0 where there is no table. */
  function Pte(mem: seq<Page>, d: nat, i: nat, j: nat): nat {
    var t := Tab(mem, d, i);
    if 0 < t < |mem| && j < 1024 then mem[t][j] else 0
  }

  /** The same by page number. */
  function At(mem: seq<Page>, d: nat, v: nat): nat {
    Pte(mem, d, v / 1024, v % 1024)
  }

  /** What an address space consists of: its directory, its tables, its user pages. */
  datatype Node = Root | Table(i: nat) | Leaf(i: nat, j: nat)

  function FrameOf(mem: seq<Page>, d: nat, n: Node): nat {
    match n
    case Root => d
    case Table(i) => Tab(mem, d, i)
    case Leaf(i, j) => if i < 512 && Present(Pte(mem, d, i, j)) then Frame(Pte(mem, d, i, j)) else 0
  }

  ghost predicate Owns(mem: seq<Page>, d: nat, f: nat) {
    f != 0 && exists n :: FrameOf(mem, d, n) == f
  }

  /** Frames in use that are not d's. */
  ghost function Rest(mem: seq<Page>, held: set<nat>, d: nat): set<nat> {
    set f | f in held && !Owns(mem, d, f)
  }

  ghost predicate NonSharing(mem: seq<Page>, d: nat) {
    forall m, n :: FrameOf(mem, d, m) != 0 && FrameOf(mem, d, m) == FrameOf(mem, d, n) ==> m == n
  }

  ghost predicate AllHeld(mem: seq<Page>, held: set<nat>, d: nat) {
    forall n :: FrameOf(mem, d, n) != 0 ==> FrameOf(mem, d, n) in held
  }

  ghost predicate TablesThere(mem: seq<Page>, d: nat) {
    forall i :: Present(Pde(mem, d, i)) ==> Tab(mem, d, i) != 0 && Open(Pde(mem, d, i))
  }

  ghost predicate EntriesClean(mem: seq<Page>, d: nat) {
    forall i, j :: Pte(mem, d, i, j) != 0 ==>
      Present(Pte(mem, d, i, j)) && (i < 512 ==> Frame(Pte(mem, d, i, j)) != 0)
  }

  ghost predicate InMemory(mem: seq<Page>, held: set<nat>) {
    forall f :: f in held ==> 0 < f < |mem|
  }

  /** d is the directory of an address space: its frames are in use and no frame serves twice. */
  ghost predicate SpaceOk(mem: seq<Page>, held: set<nat>, d: nat) {
    InMemory(mem, held) && d != 0 && AllHeld(mem, held, d) && NonSharing(mem, d)
    && TablesThere(mem, d) && EntriesClean(mem, d)
  }

  lemma RootIn(mem: seq<Page>, held: set<nat>, d: nat)
    requires SpaceOk(mem, held, d)
    ensures d in held && 0 < d < |mem| && Owns(mem, d, d)
  {
    assert FrameOf(mem, d, Root) == d;
  }

  lemma TableIn(mem: seq<Page>, held: set<nat>, d: nat, i: nat)
    requires SpaceOk(mem, held, d) && Tab(mem, d, i) != 0
    ensures Tab(mem, d, i) in held && Tab(mem, d, i) < |mem| && Tab(mem, d, i) != d && Owns(mem, d, Tab(mem, d, i))
    ensures forall k :: k != i ==> Tab(mem, d, k) != Tab(mem, d, i)
    ensures forall a, b :: FrameOf(mem, d, Leaf(a, b)) != Tab(mem, d, i)
  {
    assert FrameOf(mem, d, Root) == d;
    assert FrameOf(mem, d, Table(i)) == Tab(mem, d, i);
    forall k | k != i
      ensures Tab(mem, d, k) != Tab(mem, d, i)
    {
      assert FrameOf(mem, d, Table(k)) == Tab(mem, d, k);
    }
  }

  // ----- what a change of one node does -----

  /** One node gets the frame x (0: none); every other node keeps its frame. */
  ghost predicate OneNode(mem: seq<Page>, now: seq<Page>, d: nat, at: Node, x: nat) {
    forall n :: FrameOf(now, d, n) == if n == at then x else FrameOf(mem, d, n)
  }

  lemma Gains(mem: seq<Page>, now: seq<Page>, d: nat, at: Node, x: nat)
    requires OneNode(mem, now, d, at, x) && FrameOf(mem, d, at) == 0 && x != 0
    ensures forall f :: Owns(now, d, f) <==> Owns(mem, d, f) || f == x
    ensures NonSharing(mem, d) && !Owns(mem, d, x) ==> NonSharing(now, d)
  {
    forall f
      ensures Owns(now, d, f) <==> Owns(mem, d, f) || f == x
    {
      if Owns(mem, d, f) {
        var n :| FrameOf(mem, d, n) == f;
        assert FrameOf(now, d, n) == f;
      }
      assert FrameOf(now, d, at) == x;
    }
  }

  lemma Loses(mem: seq<Page>, now: seq<Page>, d: nat, at: Node)
    requires OneNode(mem, now, d, at, 0) && NonSharing(mem, d) && FrameOf(mem, d, at) != 0
    ensures forall f :: Owns(now, d, f) <==> Owns(mem, d, f) && f != FrameOf(mem, d, at)
    ensures NonSharing(now, d)
  {
    forall f
      ensures Owns(now, d, f) <==> Owns(mem, d, f) && f != FrameOf(mem, d, at)
    {
      if Owns(mem, d, f) && f != FrameOf(mem, d, at) {
        var n :| FrameOf(mem, d, n) == f;
        assert FrameOf(now, d, n) == f;
      }
    }
  }

  /** Writing to frames that d does not use for its tables changes nothing of d. */
  ghost predicate TablesKept(mem: seq<Page>, now: seq<Page>, d: nat) {
    |now| == |mem| && d < |mem| && now[d] == mem[d]
    && forall i :: 0 < Tab(mem, d, i) < |mem| ==> now[Tab(mem, d, i)] == mem[Tab(mem, d, i)]
  }

  lemma SameSpace(mem: seq<Page>, now: seq<Page>, d: nat)
    requires TablesKept(mem, now, d)
    ensures forall i :: Pde(now, d, i) == Pde(mem, d, i) && Tab(now, d, i) == Tab(mem, d, i)
    ensures forall i, j :: Pte(now, d, i, j) == Pte(mem, d, i, j)
    ensures forall n :: FrameOf(now, d, n) == FrameOf(mem, d, n)
    ensures forall f :: Owns(now, d, f) == Owns(mem, d, f)
  {
    forall i
      ensures Pde(now, d, i) == Pde(mem, d, i) && Tab(now, d, i) == Tab(mem, d, i)
    {
    }
    forall i, j
      ensures Pte(now, d, i, j) == Pte(mem, d, i, j)
    {
      assert Tab(now, d, i) == Tab(mem, d, i);
    }
    forall f
      ensures Owns(now, d, f) == Owns(mem, d, f)
    {
      if Owns(mem, d, f) {
        var n :| FrameOf(mem, d, n) == f;
        assert FrameOf(now, d, n) == f;
      }
      if Owns(now, d, f) {
        var n :| FrameOf(now, d, n) == f;
        assert FrameOf(mem, d, n) == f;
      }
    }
  }

  /** An address space whose frames nobody wrote is still one. */
  lemma Untouched(mem: seq<Page>, held: set<nat>, now: seq<Page>, held': set<nat>, d: nat)
    requires SpaceOk(mem, held, d) && InMemory(now, held') && |now| == |mem|
    requires forall f :: f in held && Owns(mem, d, f) ==> f in held' && now[f] == mem[f]
    ensures SpaceOk(now, held', d) && TablesKept(mem, now, d)
  {
    RootIn(mem, held, d);
    forall i | 0 < Tab(mem, d, i) < |mem|
      ensures now[Tab(mem, d, i)] == mem[Tab(mem, d, i)]
    {
      TableIn(mem, held, d, i);
    }
    SameSpace(mem, now, d);
    forall n | FrameOf(now, d, n) != 0
      ensures FrameOf(now, d, n) in held'
    {
      assert FrameOf(mem, d, n) == FrameOf(now, d, n);
    }
  }

  // ----- installing a page table -----

  /** walkpgdir with alloc: a zeroed page becomes the i-th table. */
  function AddTable(mem: seq<Page>, d: nat, i: nat, f: nat): (now: seq<Page>)
    requires d < |mem| && f < |mem| && i < 1024
    ensures |now| == |mem|
  {
    var zeroed := mem[f := ZeroPage()];
    zeroed[d := zeroed[d][i := Entry(f, 7)]]
  }

  lemma AddTableTabs(mem: seq<Page>, held: set<nat>, d: nat, i: nat, f: nat)
    requires SpaceOk(mem, held, d) && 0 < f < |mem| && f !in held && i < 1024 && d < |mem|
    ensures var now := AddTable(mem, d, i, f);
            && Present(Pde(now, d, i)) && Open(Pde(now, d, i))
            && (forall k :: k != i ==> Pde(now, d, k) == Pde(mem, d, k))
            && (forall k :: Tab(now, d, k) == if k == i then f else Tab(mem, d, k))
  {
    hide Frame, Present, Entry, SpaceOk, Has;
    RootIn(mem, held, d);
    EntryParts(f, 7);
    EntryHas(f, 7);
    SevenIsOpen();
  }

  lemma SevenIsOpen()
    ensures Open(7)
  {
  }

  lemma AddTableEntries(mem: seq<Page>, held: set<nat>, d: nat, i: nat, f: nat)
    requires SpaceOk(mem, held, d) && 0 < f < |mem| && f !in held && i < 1024 && d < |mem| && Tab(mem, d, i) == 0
    ensures var now := AddTable(mem, d, i, f);
            && (forall a, b :: Pte(now, d, a, b) == Pte(mem, d, a, b))
            && OneNode(mem, now, d, Table(i), f)
  {
    hide Frame, Present, Entry, SpaceOk, Tab, Pde;
    var now := AddTable(mem, d, i, f);
    RootIn(mem, held, d);
    AddTableTabs(mem, held, d, i, f);
    forall a, b
      ensures Pte(now, d, a, b) == Pte(mem, d, a, b)
    {
      if a != i && Tab(mem, d, a) != 0 {
        TableIn(mem, held, d, a);
      }
    }
  }

  /** The address space has one more frame, and its entries are what they were. */
  lemma AddTableOk(mem: seq<Page>, held: set<nat>, d: nat, i: nat, f: nat)
    requires SpaceOk(mem, held, d) && 0 < f < |mem| && f !in held && i < 1024 && d < |mem| && Tab(mem, d, i) == 0
    ensures var now := AddTable(mem, d, i, f);
            && SpaceOk(now, held + {f}, d) && Tab(now, d, i) == f
            && Rest(now, held + {f}, d) == Rest(mem, held, d)
  {
    hide Frame, Present, Entry, Tab, Pde, Pte, AddTable, Open;
    var now := AddTable(mem, d, i, f);
    AddTableTabs(mem, held, d, i, f);
    AddTableEntries(mem, held, d, i, f);
    NotOwned(mem, held, d, f);
    Gains(mem, now, d, Table(i), f);
  }

  lemma NotOwned(mem: seq<Page>, held: set<nat>, d: nat, f: nat)
    requires AllHeld(mem, held, d) && f !in held
    ensures !Owns(mem, d, f)
  {
  }

  // ----- writing an entry -----

  function SetPte(mem: seq<Page>, d: nat, i: nat, j: nat, w: nat): (now: seq<Page>)
    requires Tab(mem, d, i) < |mem| && j < 1024
    ensures |now| == |mem|
  {
    var t := Tab(mem, d, i);
    mem[t := mem[t][j := w]]
  }

  lemma SetPteEntries(mem: seq<Page>, held: set<nat>, d: nat, i: nat, j: nat, w: nat)
    requires SpaceOk(mem, held, d) && 0 < Tab(mem, d, i) < |mem| && j < 1024
    ensures var now := SetPte(mem, d, i, j, w);
            && (forall k :: Pde(now, d, k) == Pde(mem, d, k) && Tab(now, d, k) == Tab(mem, d, k))
            && forall a, b :: Pte(now, d, a, b) == if a == i && b == j then w else Pte(mem, d, a, b)
  {
    hide Frame, Present, SpaceOk;
    var now := SetPte(mem, d, i, j, w);
    RootIn(mem, held, d);
    TableIn(mem, held, d, i);
    forall a, b
      ensures Pte(now, d, a, b) == if a == i && b == j then w else Pte(mem, d, a, b)
    {
      assert Tab(now, d, a) == Tab(mem, d, a);
    }
  }

  lemma SetPteNode(mem: seq<Page>, held: set<nat>, d: nat, i: nat, j: nat, w: nat)
    requires SpaceOk(mem, held, d) && 0 < Tab(mem, d, i) < |mem| && j < 1024
    ensures OneNode(mem, SetPte(mem, d, i, j, w), d, Leaf(i, j), if i < 512 && Present(w) then Frame(w) else 0)
  {
    hide Frame, Present, SpaceOk, Tab, Pde, Pte, SetPte;
    SetPteEntries(mem, held, d, i, j, w);
  }

  /** Mapping a page in use that d does not own yet: d owns it afterwards. */
  lemma MapUserOk(mem: seq<Page>, held: set<nat>, d: nat, i: nat, j: nat, f: nat, flags: nat)
    requires SpaceOk(mem, held, d) && 0 < Tab(mem, d, i) < |mem| && i < 512 && j < 1024 && flags < 4096
    requires f in Rest(mem, held, d) && Pte(mem, d, i, j) == 0
    ensures var now := SetPte(mem, d, i, j, Entry(f, WithPresent(flags)));
            SpaceOk(now, held, d) && Rest(now, held, d) == Rest(mem, held, d) - {f}
  {
    hide Frame, Present, Entry, WithPresent, Tab, Pde, Pte, SetPte;
    var w := Entry(f, WithPresent(flags));
    var now := SetPte(mem, d, i, j, w);
    PresentParts(f, flags);
    SetPteEntries(mem, held, d, i, j, w);
    SetPteNode(mem, held, d, i, j, w);
    Gains(mem, now, d, Leaf(i, j), f);
  }

  /** Mapping a kernel page: d owns what it owned. */
  lemma MapKernelOk(mem: seq<Page>, held: set<nat>, d: nat, i: nat, j: nat, f: nat, flags: nat)
    requires SpaceOk(mem, held, d) && 0 < Tab(mem, d, i) < |mem| && i >= 512 && j < 1024 && flags < 4096
    ensures var now := SetPte(mem, d, i, j, Entry(f, WithPresent(flags)));
            SpaceOk(now, held, d) && Rest(now, held, d) == Rest(mem, held, d)
  {
    hide Frame, Present, Entry, WithPresent, Tab, Pde, Pte, SetPte;
    var w := Entry(f, WithPresent(flags));
    var now := SetPte(mem, d, i, j, w);
    PresentParts(f, flags);
    SetPteEntries(mem, held, d, i, j, w);
    SetPteNode(mem, held, d, i, j, w);
    SameOwned(mem, now, d);
  }

  lemma SameOwned(mem: seq<Page>, now: seq<Page>, d: nat)
    requires forall n :: FrameOf(now, d, n) == FrameOf(mem, d, n)
    ensures forall f :: Owns(now, d, f) == Owns(mem, d, f)
    ensures NonSharing(mem, d) ==> NonSharing(now, d)
  {
    forall f
      ensures Owns(now, d, f) == Owns(mem, d, f)
    {
      if Owns(mem, d, f) {
        var n :| FrameOf(mem, d, n) == f;
        assert FrameOf(now, d, n) == f;
      }
      if Owns(now, d, f) {
        var n :| FrameOf(now, d, n) == f;
        assert FrameOf(mem, d, n) == f;
      }
    }
  }

  /** Giving a mapped page back and clearing its entry: every other frame stays where it was. */
  lemma UnmapOk(mem: seq<Page>, held: set<nat>, d: nat, i: nat, j: nat)
    requires SpaceOk(mem, held, d) && 0 < Tab(mem, d, i) < |mem| && i < 512 && j < 1024
    requires Present(Pte(mem, d, i, j))
    ensures var f := Frame(Pte(mem, d, i, j));
            var now := SetPte(mem, d, i, j, 0);
            f in held && Owns(mem, d, f) && SpaceOk(now, held - {f}, d)
            && Rest(now, held - {f}, d) == Rest(mem, held, d)
  {
    hide Frame, Present, Tab, Pde, Pte, SetPte;
    var now := SetPte(mem, d, i, j, 0);
    var f := Frame(Pte(mem, d, i, j));
    assert FrameOf(mem, d, Leaf(i, j)) == f;
    Zero();
    SetPteEntries(mem, held, d, i, j, 0);
    SetPteNode(mem, held, d, i, j, 0);
    Loses(mem, now, d, Leaf(i, j));
  }

  lemma Zero()
    ensures !Present(0)
  {
  }
}
