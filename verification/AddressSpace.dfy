/** Page-number view of an address space, and what the operations of vm.c keep. */
module AddressSpace {
  import opened PageTable

  const KERNBASE: nat := 0x8000_0000
  const TOP: nat := 0x1_0000_0000

  function Pdx(va: nat): nat { va / 0x40_0000 % 1024 }

  function Ptx(va: nat): nat { va / 4096 % 1024 }

  /** The number of pages that sz bytes reach into: PGROUNDUP(sz) / PGSIZE. */
  function PagesFor(sz: nat): nat { (sz + 4095) / 4096 }

  /** Those are exactly the pages that hold a byte below sz. */
  lemma PagesCover(sz: nat, u: nat)
    ensures u < PagesFor(sz) <==> 4096 * u < sz
    ensures u < PagesFor(sz) <==> exists a :: 0 <= a < sz && a / 4096 == u
  {
    if 4096 * u < sz {
      assert 4096 * u / 4096 == u;
    }
  }

  lemma Indices(va: nat)
    requires va < TOP
    ensures Pdx(va) == va / 4096 / 1024 && Ptx(va) == va / 4096 % 1024
    ensures Pdx(va) < 1024 && Ptx(va) < 1024 && (Pdx(va) < 512 <==> va / 4096 < USERPAGES)
  {
    var v := va / 4096;
    assert va / 0x40_0000 == v / 1024;
  }

  /** Other frames in use are still in use by others and hold what they held. */
  ghost predicate Keeps(mem: seq<Page>, held: set<nat>, now: seq<Page>, held': set<nat>, d: nat) {
    SpaceOk(now, held', d) && |now| == |mem| && Rest(now, held', d) == Rest(mem, held, d)
    && forall f :: f in Rest(mem, held, d) ==> f < |mem| && now[f] == mem[f]
  }

  lemma KeepsTrans(m0: seq<Page>, h0: set<nat>, m1: seq<Page>, h1: set<nat>, m2: seq<Page>, h2: set<nat>, d: nat)
    requires Keeps(m0, h0, m1, h1, d) && Keeps(m1, h1, m2, h2, d)
    ensures Keeps(m0, h0, m2, h2, d)
  {
    hide SpaceOk, Rest;
  }

  /** The user pages outside [lo, hi) hold what they held. */
  ghost predicate PagesKept(mem: seq<Page>, now: seq<Page>, d: nat, lo: nat, hi: nat) {
    |now| == |mem|
    && forall v :: 0 <= v < USERPAGES && !(lo <= v < hi) && At(mem, d, v) != 0 ==>
         Frame(At(mem, d, v)) < |mem| && now[Frame(At(mem, d, v))] == mem[Frame(At(mem, d, v))]
  }

  lemma PageIn(mem: seq<Page>, held: set<nat>, d: nat, v: nat)
    requires SpaceOk(mem, held, d) && v < USERPAGES && At(mem, d, v) != 0
    ensures Present(At(mem, d, v)) && Frame(At(mem, d, v)) in held && 0 < Frame(At(mem, d, v)) < |mem|
    ensures Owns(mem, d, Frame(At(mem, d, v))) && Frame(At(mem, d, v)) != d
    ensures forall i :: Tab(mem, d, i) != Frame(At(mem, d, v))
  {
    hide Frame, Present, Pte, Tab;
    var n := Leaf(v / 1024, v % 1024);
    assert FrameOf(mem, d, n) == Frame(At(mem, d, v));
    assert FrameOf(mem, d, Root) == d;
    forall i
      ensures Tab(mem, d, i) != Frame(At(mem, d, v))
    {
      assert FrameOf(mem, d, Table(i)) == Tab(mem, d, i);
    }
  }

  /** Two user pages with the same frame are one page. */
  lemma PagesDiffer(mem: seq<Page>, held: set<nat>, d: nat, u: nat, v: nat)
    requires SpaceOk(mem, held, d) && u < USERPAGES && v < USERPAGES && At(mem, d, u) != 0 && At(mem, d, v) != 0
    requires Frame(At(mem, d, u)) == Frame(At(mem, d, v))
    ensures u == v
  {
    hide Frame, Present, Pte, Tab;
    PageIn(mem, held, d, u);
    PageIn(mem, held, d, v);
    assert FrameOf(mem, d, Leaf(u / 1024, u % 1024)) == FrameOf(mem, d, Leaf(v / 1024, v % 1024));
  }

  /** Writes to frames that are no user pages of d keep the user pages. */
  lemma WriteKeepsPages(mem: seq<Page>, held: set<nat>, now: seq<Page>, d: nat)
    requires SpaceOk(mem, held, d) && |now| == |mem|
    requires forall f :: f in held && f < |mem| && now[f] != mem[f] ==> f == d || exists i :: Tab(mem, d, i) == f
    ensures PagesKept(mem, now, d, 0, 0)
  {
    hide SpaceOk, Frame, At, Tab;
    forall v | 0 <= v < USERPAGES && At(mem, d, v) != 0
      ensures Frame(At(mem, d, v)) < |mem| && now[Frame(At(mem, d, v))] == mem[Frame(At(mem, d, v))]
    {
      PageIn(mem, held, d, v);
    }
  }

  lemma SetAt(mem: seq<Page>, held: set<nat>, d: nat, v: nat, w: nat)
    requires SpaceOk(mem, held, d) && v < ALLPAGES && 0 < Tab(mem, d, v / 1024) < |mem|
    ensures var now := SetPte(mem, d, v / 1024, v % 1024, w);
            && (forall u: nat :: At(now, d, u) == if u == v then w else At(mem, d, u))
            && (forall k :: Tab(now, d, k) == Tab(mem, d, k)) && PagesKept(mem, now, d, 0, 0)
  {
    hide SpaceOk, Frame, Tab, Pte;
    SetPteEntries(mem, held, d, v / 1024, v % 1024, w);
    var now := SetPte(mem, d, v / 1024, v % 1024, w);
    forall u: nat
      ensures At(now, d, u) == if u == v then w else At(mem, d, u)
    {
    }
    WriteKeepsPages(mem, held, now, d);
  }

  lemma AddTableKeeps(mem: seq<Page>, held: set<nat>, d: nat, i: nat, f: nat)
    requires SpaceOk(mem, held, d) && 0 < f < |mem| && f !in held && i < 1024 && d < |mem| && Tab(mem, d, i) == 0
    ensures var now := AddTable(mem, d, i, f);
            && Keeps(mem, held, now, held + {f}, d) && Tab(now, d, i) == f
            && (forall u: nat :: At(now, d, u) == At(mem, d, u)) && PagesKept(mem, now, d, 0, 0)
  {
    hide SpaceOk, Frame, Tab, Pte, Owns;
    var now := AddTable(mem, d, i, f);
    AddTableOk(mem, held, d, i, f);
    AddTableEntries(mem, held, d, i, f);
    RootIn(mem, held, d);
    InRange(mem, held, d);
    WriteKeepsPages(mem, held, now, d);
  }

  lemma InRange(mem: seq<Page>, held: set<nat>, d: nat)
    requires SpaceOk(mem, held, d)
    ensures forall f :: f in held ==> 0 < f < |mem|
  {
  }

  lemma KeepsRefl(mem: seq<Page>, held: set<nat>, d: nat)
    requires SpaceOk(mem, held, d)
    ensures Keeps(mem, held, mem, held, d) && PagesKept(mem, mem, d, 0, 0)
  {
    hide Frame, Tab, Pte, Owns;
    InRange(mem, held, d);
    WriteKeepsPages(mem, held, mem, d);
  }

  lemma MapOk(mem: seq<Page>, held: set<nat>, d: nat, v: nat, f: nat, flags: nat)
    requires SpaceOk(mem, held, d) && v < ALLPAGES && 0 < Tab(mem, d, v / 1024) < |mem| && flags < 4096
    requires At(mem, d, v) == 0 && (v < USERPAGES ==> f in Rest(mem, held, d))
    ensures var now := SetPte(mem, d, v / 1024, v % 1024, Entry(f, WithPresent(flags)));
            && SpaceOk(now, held, d)
            && Rest(now, held, d) == Rest(mem, held, d) - (if v < USERPAGES then {f} else {})
            && forall x :: x in Rest(mem, held, d) ==> x < |mem| && now[x] == mem[x]
  {
    hide SpaceOk, Frame, Tab, Pte, Entry, WithPresent;
    TableIn(mem, held, d, v / 1024);
    InRange(mem, held, d);
    if v < USERPAGES {
      MapUserOk(mem, held, d, v / 1024, v % 1024, f, flags);
    } else {
      MapKernelOk(mem, held, d, v / 1024, v % 1024, f, flags);
    }
  }

  /** deallocuvm's step: the page's frame f goes back to the allocator, which writes junk p to it, and its entry is
      cleared. */
  lemma UnmapStep(mem: seq<Page>, held: set<nat>, d: nat, v: nat, p: Page)
    requires SpaceOk(mem, held, d) && v < USERPAGES && At(mem, d, v) != 0
    ensures var f, t := Frame(At(mem, d, v)), Tab(mem, d, v / 1024);
            f in held && f < |mem| && 0 < t < |mem| && t != f && t in held &&
            var given := mem[f := p];
            var now := given[t := given[t][v % 1024 := 0]];
            && Keeps(mem, held, now, held - {f}, d) && PagesKept(mem, now, d, v, v + 1)
            && (forall u: nat :: At(now, d, u) == if u == v then 0 else At(mem, d, u))
            && (forall k :: Tab(now, d, k) == Tab(mem, d, k))
  {
    hide SpaceOk, Frame, Tab, Present;
    var f, t := Frame(At(mem, d, v)), Tab(mem, d, v / 1024);
    PageIn(mem, held, d, v);
    TableIn(mem, held, d, v / 1024);
    UnmapOk(mem, held, d, v / 1024, v % 1024);
    SetAt(mem, held, d, v, 0);
    var cleared := SetPte(mem, d, v / 1024, v % 1024, 0);
    var now := cleared[f := p];
    assert now == mem[f := p][t := mem[t][v % 1024 := 0]];
    InRange(mem, held, d);
    FreedStep(mem, held, d, v, cleared, now, f);
  }

  lemma FreedStep(mem: seq<Page>, held: set<nat>, d: nat, v: nat, cleared: seq<Page>, now: seq<Page>, f: nat)
    requires SpaceOk(mem, held, d) && v < USERPAGES && At(mem, d, v) != 0 && f == Frame(At(mem, d, v))
    requires |cleared| == |mem| == |now| && (forall x :: 0 <= x < |mem| && x != f ==> now[x] == cleared[x])
    requires SpaceOk(cleared, held - {f}, d) && Rest(cleared, held - {f}, d) == Rest(mem, held, d)
    requires forall u: nat :: At(cleared, d, u) == if u == v then 0 else At(mem, d, u)
    requires forall k :: Tab(cleared, d, k) == Tab(mem, d, k)
    requires PagesKept(mem, cleared, d, 0, 0)
    requires forall x :: x in Rest(mem, held, d) ==> x < |mem| && cleared[x] == mem[x]
    ensures Keeps(mem, held, now, held - {f}, d) && PagesKept(mem, now, d, v, v + 1)
    ensures forall u: nat :: At(now, d, u) == if u == v then 0 else At(mem, d, u)
    ensures forall k :: Tab(now, d, k) == Tab(mem, d, k)
  {
    hide SpaceOk, Frame, Tab, Present, Pte;
    InRange(cleared, held - {f}, d);
    Untouched(cleared, held - {f}, now, held - {f}, d);
    SameSpace(cleared, now, d);
    forall u | 0 <= u < USERPAGES && u != v && At(mem, d, u) != 0
      ensures Frame(At(mem, d, u)) < |mem| && Frame(At(mem, d, u)) != f
    {
      PageIn(mem, held, d, u);
      if Frame(At(mem, d, u)) == f {
        PagesDiffer(mem, held, d, u, v);
      }
    }
  }

  /** The frames of the user pages from lo up to hi. */
  ghost function FramesOf(mem: seq<Page>, d: nat, lo: nat, hi: nat): set<nat> {
    set v: nat | v < hi && lo <= v && At(mem, d, v) != 0 :: Frame(At(mem, d, v))
  }

  lemma FramesStep(mem: seq<Page>, d: nat, lo: nat, v: nat)
    requires lo <= v
    ensures FramesOf(mem, d, lo, v + 1) ==
              FramesOf(mem, d, lo, v) + (if At(mem, d, v) != 0 then {Frame(At(mem, d, v))} else {})
  {
    hide At, Frame;
  }

  lemma {:induction false} FramesSkip(mem: seq<Page>, d: nat, lo: nat, v: nat, w: nat)
    requires lo <= v <= w && forall u :: v <= u < w ==> At(mem, d, u) == 0
    ensures FramesOf(mem, d, lo, w) == FramesOf(mem, d, lo, v)
    decreases w - v
  {
    hide At, Frame, FramesOf;
    if v < w {
      FramesStep(mem, d, lo, w - 1);
      FramesSkip(mem, d, lo, v, w - 1);
    }
  }

  lemma NoTable(mem: seq<Page>, d: nat, v: nat)
    requires Tab(mem, d, v / 1024) == 0
    ensures forall u :: v <= u < 1024 * (v / 1024 + 1) ==> At(mem, d, u) == 0
  {
    hide Tab;
    forall u | v <= u < 1024 * (v / 1024 + 1)
      ensures At(mem, d, u) == 0
    {
      assert u / 1024 == v / 1024;
    }
  }

  /** The first address that the next page table covers: PGADDR(PDX(a) + 1, 0, 0). */
  lemma NextTable(a: nat)
    requires a % 4096 == 0 && a < KERNBASE
    ensures var next := 0x40_0000 * (a / 0x40_0000 + 1);
            a < next <= KERNBASE && next % 4096 == 0 && next / 4096 == 1024 * (a / 4096 / 1024 + 1)
  {
    Indices(a);
  }

  /** A page just allocated is nobody's. */
  lemma AllocRest(mem: seq<Page>, held: set<nat>, d: nat, f: nat)
    requires SpaceOk(mem, held, d) && f !in held && 0 < f < |mem|
    ensures SpaceOk(mem, held + {f}, d) && Rest(mem, held + {f}, d) == Rest(mem, held, d) + {f}
    ensures f !in Rest(mem, held, d)
  {
    hide Frame, Tab, Pte, FrameOf;
    NotOwned(mem, held, d, f);
  }

  /** Writing to a page that is not d's. */
  lemma WriteRest(mem: seq<Page>, held: set<nat>, d: nat, f: nat, p: Page)
    requires SpaceOk(mem, held, d) && f in Rest(mem, held, d)
    ensures f < |mem| && SpaceOk(mem[f := p], held, d) && Rest(mem[f := p], held, d) == Rest(mem, held, d)
    ensures var now := mem[f := p]; forall u: nat :: At(now, d, u) == At(mem, d, u)
    ensures PagesKept(mem, mem[f := p], d, 0, 0)
  {
    hide SpaceOk, Frame, Tab, Pte, Owns;
    InRange(mem, held, d);
    var now := mem[f := p];
    Untouched(mem, held, now, held, d);
    SameSpace(mem, now, d);
    forall v | 0 <= v < USERPAGES && At(mem, d, v) != 0
      ensures Frame(At(mem, d, v)) < |mem| && now[Frame(At(mem, d, v))] == mem[Frame(At(mem, d, v))]
    {
      PageIn(mem, held, d, v);
    }
  }

  /** Giving such a page back. */
  lemma FreeRest(mem: seq<Page>, held: set<nat>, d: nat, f: nat, p: Page)
    requires SpaceOk(mem, held, d) && f in Rest(mem, held, d)
    ensures f < |mem| && SpaceOk(mem[f := p], held - {f}, d)
    ensures Rest(mem[f := p], held - {f}, d) == Rest(mem, held, d) - {f}
    ensures var now := mem[f := p]; forall u: nat :: At(now, d, u) == At(mem, d, u)
    ensures PagesKept(mem, mem[f := p], d, 0, 0)
  {
    hide Frame, Tab, Pte, FrameOf;
    WriteRest(mem, held, d, f, p);
  }

  // ----- access -----

  /** What the processor grants for page u: the flag is set in the directory entry and in the table entry. */
  predicate Granted(mem: seq<Page>, d: nat, u: nat, bit: nat)
    requires bit > 0
  {
    && Present(Pde(mem, d, u / 1024)) && Has(Pde(mem, d, u / 1024), bit)
    && Present(At(mem, d, u)) && Has(At(mem, d, u), bit)
  }

  predicate UserAccess(mem: seq<Page>, d: nat, u: nat) {
    Granted(mem, d, u, PTE_U)
  }

  /** Writing also takes the write flag, in either mode. */
  predicate WriteAccess(mem: seq<Page>, d: nat, u: nat) {
    Granted(mem, d, u, PTE_W)
  }

  /** In an address space the table entry alone decides. */
  lemma EntryDecides(mem: seq<Page>, held: set<nat>, d: nat, u: nat)
    requires SpaceOk(mem, held, d)
    ensures UserAccess(mem, d, u) <==> Present(At(mem, d, u)) && Has(At(mem, d, u), PTE_U)
    ensures WriteAccess(mem, d, u) <==> Present(At(mem, d, u)) && Has(At(mem, d, u), PTE_W)
  {
    hide Frame, Has;
    Zero();
  }

  /** e maps a page that was not in use before, writable by the user, holding the given contents. */
  ghost predicate Fresh(mem: seq<Page>, before: set<nat>, e: nat, flags: nat, contents: Page) {
    e == Entry(Frame(e), flags) && Frame(e) < |mem| && Frame(e) !in before && mem[Frame(e)] == contents
  }

  /** A fresh page stays one while it stays mapped. */
  lemma FreshKept(mem: seq<Page>, now: seq<Page>, d: nat, before: set<nat>, v: nat, flags: nat, contents: Page)
    requires PagesKept(mem, now, d, 0, 0) && v < USERPAGES && At(now, d, v) == At(mem, d, v) != 0
    requires Fresh(mem, before, At(mem, d, v), flags, contents)
    ensures Fresh(now, before, At(now, d, v), flags, contents)
  {
  }
}
