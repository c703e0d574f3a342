/** setupkvm and copyuvm: a new address space with the kernel half, and with copies of a parent's pages. */
module CopyVm {
  import opened Basics
  import opened PageTable
  import opened Kmem
  import opened AddressSpace
  import opened Vm

  const EXTMEM: nat := 0x10_0000
  const PHYSTOP: nat := 0xE00_0000
  const DEVSPACE: nat := 0xFE00_0000

  /** A line of the kmap table; phys_end - phys_start is computed in 32 bits. */
  datatype Region = Region(virt: nat, start: nat, end: nat, perm: nat) {
    function Size(): nat {
      (end - start) % TOP
    }

    /** The page-table entry that the region prescribes for page u, or 0 outside it. */
    function EntryFor(u: nat): nat {
      if virt / 4096 <= u <= (virt + Size() - 1) / 4096
      then Entry(start / 4096 + (u - virt / 4096), WithPresent(perm)) else 0
    }
  }

  /** Where the linker put the end of the kernel text: above KERNLINK, page-aligned. */
  predicate IsDataStart(data: nat) {
    data % 4096 == 0 && KERNBASE + EXTMEM < data < KERNBASE + PHYSTOP
  }

  function Kmap(data: nat): seq<Region>
    requires IsDataStart(data)
  {
    [Region(KERNBASE, 0, EXTMEM, 2),
     Region(KERNBASE + EXTMEM, EXTMEM, data - KERNBASE, 0),
     Region(data, data - KERNBASE, PHYSTOP, 2),
     Region(DEVSPACE, DEVSPACE, 0, 2)]
  }

  /** The entry for page u after the first k lines. */
  function Mapped(regions: seq<Region>, k: nat, u: nat): nat
    requires k <= |regions|
  {
    if k == 0 then 0
    else if regions[k - 1].EntryFor(u) != 0 then regions[k - 1].EntryFor(u)
    else Mapped(regions, k - 1, u)
  }

  lemma EntryNonzero(f: nat, perm: nat)
    requires perm < 4096
    ensures Entry(f, WithPresent(perm)) != 0
  {
  }

  /** What each line prescribes for page u. */
  lemma Prescribed(data: nat, u: nat)
    requires IsDataStart(data)
    ensures Kmap(data)[0].EntryFor(u) == if 524288 <= u < 524544 then Entry(u - 524288, 3) else 0
    ensures Kmap(data)[1].EntryFor(u) == if 524544 <= u < data / 4096 then Entry(u - 524288, 1) else 0
    ensures Kmap(data)[2].EntryFor(u) == if data / 4096 <= u < 581632 then Entry(u - 524288, 3) else 0
    ensures Kmap(data)[3].EntryFor(u) == if 1040384 <= u < 1048576 then Entry(u, 3) else 0
  {
    hide Entry;
    var page := data / 4096;
    assert data == 4096 * page;
  }

  lemma MappedIs(data: nat, u: nat)
    requires IsDataStart(data)
    ensures Mapped(Kmap(data), 0, u) == 0
    ensures Mapped(Kmap(data), 1, u) == if 524288 <= u < 524544 then Entry(u - 524288, 3) else 0
    ensures Mapped(Kmap(data), 2, u) ==
              if 524544 <= u < data / 4096 then Entry(u - 524288, 1) else Mapped(Kmap(data), 1, u)
    ensures Mapped(Kmap(data), 3, u) ==
              if data / 4096 <= u < 581632 then Entry(u - 524288, 3) else Mapped(Kmap(data), 2, u)
    ensures Mapped(Kmap(data), 4, u) == if 1040384 <= u < 1048576 then Entry(u, 3) else Mapped(Kmap(data), 3, u)
  {
    Prescribed(data, u);
  }

  lemma LineSizes(data: nat)
    requires IsDataStart(data)
    ensures Kmap(data)[0].Size() == EXTMEM && Kmap(data)[1].Size() == data - KERNBASE - EXTMEM
    ensures Kmap(data)[2].Size() == KERNBASE + PHYSTOP - data && Kmap(data)[3].Size() == TOP - DEVSPACE
  {
  }

  /** The line maps only kernel pages. */
  lemma LineBounds(data: nat, k: nat)
    requires IsDataStart(data) && k < 4
    ensures var r := Kmap(data)[k];
            && 0 < r.Size() && KERNBASE <= r.virt && r.virt + r.Size() <= TOP && r.start % 4096 == 0 && r.perm < 4096
            && Span(r.virt / 4096, (r.virt + r.Size() - 1) / 4096) <= 57
  {
    hide Region.Size;
    LineSizes(data);
  }

  /** The line maps pages that no earlier line maps. */
  lemma LineUnmapped(data: nat, k: nat, u: nat)
    requires IsDataStart(data) && k < 4
    requires var r := Kmap(data)[k]; 0 < r.Size() && r.virt / 4096 <= u <= (r.virt + r.Size() - 1) / 4096
    ensures Mapped(Kmap(data), k, u) == 0
  {
    hide Region.Size, Mapped, Entry;
    LineSizes(data);
    MappedIs(data, u);
  }

  lemma Lines(data: nat, k: nat)
    requires IsDataStart(data) && k < 4
    ensures var r := Kmap(data)[k];
            && 0 < r.Size() && KERNBASE <= r.virt && r.virt + r.Size() <= TOP && r.start % 4096 == 0 && r.perm < 4096
            && Span(r.virt / 4096, (r.virt + r.Size() - 1) / 4096) <= 57
            && forall u :: r.virt / 4096 <= u <= (r.virt + r.Size() - 1) / 4096 ==> Mapped(Kmap(data), k, u) == 0
  {
    hide Entry, Mapped, Region.EntryFor, Region.Size, Span;
    LineBounds(data, k);
    var r := Kmap(data)[k];
    forall u | r.virt / 4096 <= u <= (r.virt + r.Size() - 1) / 4096
      ensures Mapped(Kmap(data), k, u) == 0
    {
      LineUnmapped(data, k, u);
    }
  }

  /** The kernel half: all of physical memory at KERNBASE, the text read-only, and the devices in place. */
  lemma KernelHalf(data: nat, u: nat)
    requires IsDataStart(data) && u < ALLPAGES
    ensures Mapped(Kmap(data), 4, u) ==
              if u < USERPAGES then 0
              else if u < USERPAGES + PHYSTOP / 4096 then
                Entry(u - USERPAGES, if (KERNBASE + EXTMEM) / 4096 <= u < data / 4096 then 1 else 3)
              else if DEVSPACE / 4096 <= u then Entry(u, 3)
              else 0
  {
    hide Entry, Mapped;
    MappedIs(data, u);
  }

  /** The kernel's text and read-only data. */
  predicate KernelText(data: nat, u: nat) {
    KERNBASE + EXTMEM <= 4096 * u < data
  }

  /** The user gets no access to the kernel half, and the kernel may write all that is mapped there but its own text. */
  ghost predicate KernelGuarded(mem: seq<Page>, d: nat, data: nat, u: nat) {
    && !UserAccess(mem, d, u)
    && (WriteAccess(mem, d, u) <==>
          !KernelText(data, u) && (KERNBASE <= 4096 * u < KERNBASE + PHYSTOP || DEVSPACE <= 4096 * u < TOP))
  }

  lemma KernelAccess(mem: seq<Page>, held: set<nat>, d: nat, data: nat, u: nat)
    requires SpaceOk(mem, held, d) && IsDataStart(data) && u < ALLPAGES && At(mem, d, u) == Mapped(Kmap(data), 4, u)
    ensures KernelGuarded(mem, d, data, u)
  {
    hide SpaceOk, At, Mapped, Has, Entry, Present, UserAccess, WriteAccess, Kmap;
    EntryDecides(mem, held, d, u);
    KernelHalf(data, u);
    Zero();
    KernelFlags(if u < DEVSPACE / 4096 && u >= USERPAGES then u - USERPAGES else u);
    assert data == 4096 * (data / 4096);
  }

  lemma KernelFlags(f: nat)
    ensures !Has(Entry(f, 1), PTE_U) && !Has(Entry(f, 3), PTE_U) && !Has(Entry(f, 1), PTE_W) && Has(Entry(f, 3), PTE_W)
    ensures Present(Entry(f, 1)) && Present(Entry(f, 3))
  {
    hide Has, Entry, Present;
    EntryHas(f, 1);
    EntryHas(f, 3);
    EntryParts(f, 1);
    EntryParts(f, 3);
    OneAndThree();
  }

  lemma OneAndThree()
    ensures !Has(1, PTE_U) && !Has(3, PTE_U) && !Has(1, PTE_W) && Has(3, PTE_W)
  {
  }

  /** A zeroed page is the directory of an empty address space. */
  lemma EmptySpace(mem: seq<Page>, held: set<nat>, d: nat)
    requires InMemory(mem, held) && d in held && mem[d] == ZeroPage()
    ensures SpaceOk(mem, held, d) && Rest(mem, held, d) == held - {d}
    ensures forall u: nat :: At(mem, d, u) == 0
  {
    hide Frame, ZeroPage;
    Zero();
    forall i
      ensures Pde(mem, d, i) == 0 && Tab(mem, d, i) == 0
    {
    }
    forall i, j
      ensures Pte(mem, d, i, j) == 0
    {
      assert Tab(mem, d, i) == 0;
    }
    assert FrameOf(mem, d, Root) == d;
    forall n
      ensures FrameOf(mem, d, n) == if n == Root then d else 0
    {
    }
  }

  /** setupkvm: a new address space with an empty user half, or nothing at all when memory runs out. */
  method Setupkvm(m: Memory, data: nat) returns (d: nat)
    requires m.Valid() && IsDataStart(data)
    modifies m
    ensures m.Valid() && |m.mem| == |old(m.mem)|
    ensures forall x :: x in old(m.held) ==> x < |m.mem| && m.mem[x] == old(m.mem)[x]
    ensures d != 0 ==> SpaceOk(m.mem, m.held, d) && Rest(m.mem, m.held, d) == old(m.held)
    ensures d != 0 ==> forall u: nat :: At(m.mem, d, u) == Mapped(Kmap(data), 4, u)
    ensures d != 0 ==> forall u: nat :: u < ALLPAGES ==> KernelGuarded(m.mem, d, data, u)
    ensures d == 0 ==> m.held == old(m.held) && |old(m.free)| < 229
    ensures |old(m.free)| <= |m.free| + 229 || d == 0
  {
    hide SpaceOk, Rest, Frame, At, Threaded, Distinct, Present, Tab, Entry, PagesKept, ZeroPage, Mapped, Taken, Span,
         KernelGuarded;
    d := m.Kalloc();
    if d == 0 {
      return;
    }
    m.Store(d, ZeroPage());
    EmptySpace(m.mem, m.held, d);
    assert old(m.held) == m.held - {d};
    var regions := Kmap(data);
    var k := 0;
    NothingMapped(regions);
    while k < 4
      invariant k <= 4 && m.Valid() && |m.mem| == |old(m.mem)| && d != 0
      invariant forall x :: x in old(m.held) ==> x < |m.mem| && m.mem[x] == old(m.mem)[x]
      invariant SpaceOk(m.mem, m.held, d) && Rest(m.mem, m.held, d) == old(m.held)
      invariant forall u: nat :: At(m.mem, d, u) == Mapped(regions, k, u)
      invariant |old(m.free)| <= |m.free| + 1 + 57 * k
    {
      Lines(data, k);
      var r := regions[k];
      ghost var mid := m.mem;
      var ok, done := Mappages(m, d, r.virt, r.Size(), r.start, r.perm);
      KernelTakes(r.virt / 4096, r.start / 4096, done);
      if !ok {
        Freevm(m, d);
        return 0;
      }
      LineMapped(regions, k, mid, m.mem, d);
      k := k + 1;
    }
    forall u: nat | u < ALLPAGES
      ensures KernelGuarded(m.mem, d, data, u)
    {
      KernelAccess(m.mem, m.held, d, data, u);
    }
  }

  lemma NothingMapped(regions: seq<Region>)
    ensures forall u: nat :: Mapped(regions, 0, u) == 0
  {
  }

  lemma KernelTakes(first: nat, fr: nat, k: nat)
    requires first >= USERPAGES
    ensures Taken(first, fr, k) == {}
  {
  }

  lemma LineMapped(regions: seq<Region>, k: nat, mem: seq<Page>, now: seq<Page>, d: nat)
    requires k < |regions| && 0 < regions[k].Size() && regions[k].perm < 4096
    requires forall u: nat :: At(mem, d, u) == Mapped(regions, k, u)
    requires var r := regions[k];
             forall u: nat :: At(now, d, u) == if r.virt / 4096 <= u <= (r.virt + r.Size() - 1) / 4096
               then Entry(r.start / 4096 + (u - r.virt / 4096), WithPresent(r.perm)) else At(mem, d, u)
    ensures forall u: nat :: At(now, d, u) == Mapped(regions, k + 1, u)
  {
    hide At, Entry, WithPresent, Region.Size;
    var r := regions[k];
    forall u: nat
      ensures At(now, d, u) == Mapped(regions, k + 1, u)
    {
      if r.virt / 4096 <= u <= (r.virt + r.Size() - 1) / 4096 {
        EntryNonzero(r.start / 4096 + (u - r.virt / 4096), r.perm);
      }
    }
  }

  /** Page u of the child c is a fresh page with the flags and the contents of the parent's page u. */
  ghost predicate Copied(mem: seq<Page>, held: set<nat>, d: nat, now: seq<Page>, c: nat, u: nat) {
    var e := At(mem, d, u);
    Frame(e) < |mem| && Fresh(now, held, At(now, c, u), Flags(e), mem[Frame(e)])
  }

  /** A copied page gives the user and the kernel the access that the original gives. */
  ghost predicate SameAccess(mem: seq<Page>, d: nat, now: seq<Page>, c: nat, u: nat) {
    && (UserAccess(now, c, u) <==> UserAccess(mem, d, u))
    && (WriteAccess(now, c, u) <==> WriteAccess(mem, d, u))
  }

  lemma CopiedAccess(mem: seq<Page>, held: set<nat>, d: nat, now: seq<Page>, held': set<nat>, c: nat, u: nat)
    requires SpaceOk(mem, held, d) && SpaceOk(now, held', c) && Copied(mem, held, d, now, c, u)
    ensures SameAccess(mem, d, now, c, u)
  {
    hide SpaceOk, At, Present, Has, Entry, UserAccess, WriteAccess, Frame, Flags;
    EntryDecides(mem, held, d, u);
    EntryDecides(now, held', c, u);
    SameFlags(At(mem, d, u), At(now, c, u));
  }

  lemma SameFlags(e: nat, x: nat)
    requires x == Entry(Frame(x), Flags(e))
    ensures Present(x) == Present(e) && Has(x, PTE_U) == Has(e, PTE_U) && Has(x, PTE_W) == Has(e, PTE_W)
  {
    assert e == Entry(Frame(e), Flags(e));
    EntryHas(Frame(e), Flags(e));
    EntryHas(Frame(x), Flags(e));
    EntryParts(Frame(e), Flags(e));
    EntryParts(Frame(x), Flags(e));
  }

  lemma CopiedKept(mem: seq<Page>, held: set<nat>, d: nat, mid: seq<Page>, now: seq<Page>, c: nat, v: nat)
    requires PagesKept(mid, now, c, 0, 0) && v <= USERPAGES && SpaceOk(mem, held, d)
    requires forall u :: 0 <= u < v ==> At(now, c, u) == At(mid, c, u) && At(mem, d, u) != 0
    requires forall u :: 0 <= u < v ==> Copied(mem, held, d, mid, c, u)
    ensures forall u :: 0 <= u < v ==> Copied(mem, held, d, now, c, u)
  {
    hide At, PagesKept, Frame, Flags, Entry, SpaceOk;
    forall u | 0 <= u < v
      ensures Copied(mem, held, d, now, c, u)
    {
      assert Copied(mem, held, d, mid, c, u);
      PageIn(mem, held, d, u);
      FreshNonzero(Frame(At(mid, c, u)), At(mem, d, u));
      FreshKept(mid, now, c, held, u, Flags(At(mem, d, u)), mem[Frame(At(mem, d, u))]);
    }
  }

  lemma FreshNonzero(f: nat, parent: nat)
    requires Present(parent)
    ensures Entry(f, Flags(parent)) != 0
  {
    PresentFlags(parent);
    EntryNonzero(f, Flags(parent));
  }

  lemma PresentFlags(e: nat)
    requires Present(e)
    ensures Flags(e) < 4096 && WithPresent(Flags(e)) == Flags(e)
  {
    assert e == 4096 * (e / 4096) + e % 4096;
  }

  lemma NewCopied(mem: seq<Page>, held: set<nat>, d: nat, now: seq<Page>, c: nat, u: nat, f: nat)
    requires Present(At(mem, d, u)) && Frame(At(mem, d, u)) < |mem|
    requires f < |now| && f !in held && now[f] == mem[Frame(At(mem, d, u))]
    requires At(now, c, u) == Entry(f, WithPresent(Flags(At(mem, d, u))))
    ensures Copied(mem, held, d, now, c, u)
  {
    hide At;
    PresentFlags(At(mem, d, u));
    EntryParts(f, Flags(At(mem, d, u)));
  }

  /** copyuvm: on success the child has fresh copies of the parent's pages, with the same access, and the kernel half;
      on failure every page taken is back. Frames that were in use before keep their contents. */
  method Copyuvm(m: Memory, d: nat, sz: nat, data: nat) returns (c: nat)
    requires m.Valid() && SpaceOk(m.mem, m.held, d) && sz <= KERNBASE && IsDataStart(data)
    requires forall u :: 0 <= u < PagesFor(sz) ==> At(m.mem, d, u) != 0
    modifies m
    ensures m.Valid() && |m.mem| == |old(m.mem)|
    ensures forall x :: x in old(m.held) ==> x < |m.mem| && m.mem[x] == old(m.mem)[x]
    ensures c != 0 ==> SpaceOk(m.mem, m.held, c) && Rest(m.mem, m.held, c) == old(m.held)
    ensures c != 0 ==> forall u :: 0 <= u < PagesFor(sz) ==> Copied(old(m.mem), old(m.held), d, m.mem, c, u)
    ensures c != 0 ==> forall u: nat :: PagesFor(sz) <= u ==> At(m.mem, c, u) == Mapped(Kmap(data), 4, u)
    ensures c != 0 ==> forall u :: 0 <= u < PagesFor(sz) ==> SameAccess(old(m.mem), d, m.mem, c, u)
    ensures c != 0 ==> forall u: nat :: PagesFor(sz) <= u < ALLPAGES ==> KernelGuarded(m.mem, c, data, u)
    ensures c == 0 ==> m.held == old(m.held) && |old(m.free)| < 229 + 2 * PagesFor(sz)
  {
    hide SpaceOk, Rest, Frame, At, Threaded, Distinct, Present, Tab, Entry, PagesKept, Mapped, Flags, WithPresent, Copied,
         KernelGuarded, SameAccess;
    c := Setupkvm(m, data);
    if c == 0 {
      return;
    }
    var i := 0;
    while i < sz
      invariant i % 4096 == 0 && i / 4096 <= PagesFor(sz) && c != 0
      invariant m.Valid() && |m.mem| == |old(m.mem)|
      invariant forall x :: x in old(m.held) ==> x < |m.mem| && m.mem[x] == old(m.mem)[x]
      invariant SpaceOk(m.mem, m.held, c) && Rest(m.mem, m.held, c) == old(m.held)
      invariant forall u :: 0 <= u < i / 4096 ==> Copied(old(m.mem), old(m.held), d, m.mem, c, u)
      invariant forall u: nat :: i / 4096 <= u ==> At(m.mem, c, u) == Mapped(Kmap(data), 4, u)
      invariant |old(m.free)| <= |m.free| + 229 + 2 * (i / 4096)
    {
      ghost var v := i / 4096;
      ghost var mid := m.mem;
      RestSubset(m.mem, m.held, c);
      ParentPage(old(m.mem), old(m.held), m.mem, m.held, d, v);
      KernelHalf(data, v);
      var pte := ReadPte(m, d, i);
      PresentFlags(pte);
      var ok, f := GrowPage(m, c, i, m.mem[Frame(pte)], Flags(pte));
      if !ok {
        if f != 0 {
          FreeRest(m.mem, m.held, c, f, Junk()[0 := m.freelist]);
          RestHeld(m.mem, m.held, c, f);
          m.Kfree(f);
        }
        Freevm(m, c);
        return 0;
      }
      CopiedKept(old(m.mem), old(m.held), d, mid, m.mem, c, v);
      NewCopied(old(m.mem), old(m.held), d, m.mem, c, v, f);
      i := i + 4096;
    }
    forall u | 0 <= u < PagesFor(sz)
      ensures SameAccess(old(m.mem), d, m.mem, c, u)
    {
      CopiedAccess(old(m.mem), old(m.held), d, m.mem, m.held, c, u);
    }
    forall u: nat | PagesFor(sz) <= u < ALLPAGES
      ensures KernelGuarded(m.mem, c, data, u)
    {
      KernelAccess(m.mem, m.held, c, data, u);
    }
  }

  lemma RestSubset(mem: seq<Page>, held: set<nat>, d: nat)
    ensures Rest(mem, held, d) <= held
  {
  }

  /** walkpgdir without alloc, and the entry it points to; pages below sz have one. */
  method ReadPte(m: Memory, d: nat, va: nat) returns (pte: nat)
    requires m.Valid() && SpaceOk(m.mem, m.held, d) && va < TOP && At(m.mem, d, va / 4096) != 0
    ensures pte == At(m.mem, d, va / 4096)
  {
    hide SpaceOk, Frame, Present;
    Indices(va);
    RootIn(m.mem, m.held, d);
    var pde := m.mem[d][Pdx(va)];
    TabAt(m.mem, m.held, d, va / 4096);
    pte := m.mem[Frame(pde)][Ptx(va)];
  }

  lemma TabAt(mem: seq<Page>, held: set<nat>, d: nat, v: nat)
    requires SpaceOk(mem, held, d) && v < ALLPAGES && At(mem, d, v) != 0
    ensures d < |mem| && 0 < Tab(mem, d, v / 1024) < |mem| && Tab(mem, d, v / 1024) == Frame(mem[d][v / 1024])
    ensures At(mem, d, v) == mem[Frame(mem[d][v / 1024])][v % 1024]
  {
    RootIn(mem, held, d);
  }

  /** The parent is as it was: no frame of its was written. */
  lemma ParentPage(mem: seq<Page>, held: set<nat>, now: seq<Page>, held': set<nat>, d: nat, v: nat)
    requires SpaceOk(mem, held, d) && v < USERPAGES && At(mem, d, v) != 0
    requires InMemory(now, held') && |now| == |mem|
    requires forall x :: x in held ==> x in held' && x < |mem| && now[x] == mem[x]
    ensures SpaceOk(now, held', d) && At(now, d, v) == At(mem, d, v) && Present(At(mem, d, v))
    ensures Frame(At(mem, d, v)) < |mem| && now[Frame(At(mem, d, v))] == mem[Frame(At(mem, d, v))]
  {
    hide SpaceOk, Frame, Present, Tab, Pte;
    Untouched(mem, held, now, held', d);
    SameSpace(mem, now, d);
    PageIn(mem, held, d, v);
  }
}
