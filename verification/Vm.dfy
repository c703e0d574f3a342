/** vm.c over the page allocator: growing, shrinking, freeing and copying address spaces. */
module Vm {
  import opened Basics
  import opened PageTable
  import opened Kmem
  import opened AddressSpace

  /** walkpgdir: the frame of the table that covers va, or 0; with alloc a missing table is made. */
  method Walk(m: Memory, d: nat, va: nat, alloc: bool) returns (t: nat)
    requires m.Valid() && SpaceOk(m.mem, m.held, d) && va < TOP
    modifies m
    ensures m.Valid() && Keeps(old(m.mem), old(m.held), m.mem, m.held, d) && old(m.held) <= m.held
    ensures forall u: nat :: At(m.mem, d, u) == At(old(m.mem), d, u)
    ensures PagesKept(old(m.mem), m.mem, d, 0, 0)
    ensures t == Tab(m.mem, d, Pdx(va)) && t < |m.mem|
    ensures t == 0 || !alloc ==> m.mem == old(m.mem) && m.held == old(m.held) && m.free == old(m.free)
    ensures t == 0 && alloc ==> m.free == []
    ensures |old(m.free)| <= |m.free| + (if Tab(old(m.mem), d, Pdx(va)) == 0 then 1 else 0)
  {
    hide SpaceOk, Rest, Frame, Pte, Entry, Threaded, Distinct, Pdx, Present;
    Indices(va);
    RootIn(m.mem, m.held, d);
    KeepsRefl(m.mem, m.held, d);
    var pde := m.mem[d][Pdx(va)];
    if Present(pde) {
      t := Frame(pde);
      TableThere(m.mem, m.held, d, Pdx(va));
    } else {
      t := 0;
      if alloc {
        t := m.Kalloc();
        if t != 0 {
          AddTableKeeps(m.mem, old(m.held), d, Pdx(va), t);
          m.Store(t, ZeroPage());
          m.Store(d, m.mem[d][Pdx(va) := Entry(t, 7)]);
        }
      }
    }
  }

  /** One page of mappages. */
  method MapPage(m: Memory, d: nat, a: nat, f: nat, perm: nat) returns (ok: bool)
    requires m.Valid() && SpaceOk(m.mem, m.held, d) && a < TOP && perm < 4096
    requires At(m.mem, d, a / 4096) == 0
    requires a / 4096 < USERPAGES ==> f in Rest(m.mem, m.held, d)
    modifies m
    ensures m.Valid() && SpaceOk(m.mem, m.held, d) && old(m.held) <= m.held && |m.mem| == |old(m.mem)|
    ensures Rest(m.mem, m.held, d) == old(Rest(m.mem, m.held, d)) - (if ok && a / 4096 < USERPAGES then {f} else {})
    ensures forall x :: x in old(Rest(m.mem, m.held, d)) ==> x < |m.mem| && m.mem[x] == old(m.mem)[x]
    ensures forall u: nat :: At(m.mem, d, u) ==
                             if ok && u == a / 4096 then Entry(f, WithPresent(perm)) else At(old(m.mem), d, u)
    ensures PagesKept(old(m.mem), m.mem, d, 0, 0)
    ensures !ok ==> m.mem == old(m.mem) && m.held == old(m.held) && old(m.free) == []
    ensures ok <==> Tab(m.mem, d, a / 4096 / 1024) != 0
    ensures |old(m.free)| <= |m.free| + (if Tab(old(m.mem), d, a / 4096 / 1024) == 0 then 1 else 0)
  {
    hide SpaceOk, Rest, Frame, Pte, Entry, Threaded, Distinct, Pdx, Ptx, Present, At, WithPresent, Tab;
    Indices(a);
    var t := Walk(m, d, a, true);
    ok := t != 0;
    if ok {
      ghost var mid := m.mem;
      ghost var w := Entry(f, WithPresent(perm));
      SetAt(mid, m.held, d, a / 4096, w);
      MapOk(mid, m.held, d, a / 4096, f, perm);
      TableIn(mid, m.held, d, Pdx(a));
      m.Store(t, m.mem[t][Ptx(a) := Entry(f, WithPresent(perm))]);
    }
  }

  /** The frame fr + (u - first) that mappages gives to page u. */
  predicate Lent(first: nat, fr: nat, x: nat) {
    fr <= x && first + (x - fr) < USERPAGES
  }

  /** The frames of the first k pages that belong to user pages. */
  function Taken(first: nat, fr: nat, k: nat): set<nat> {
    set x: nat | x < fr + k && Lent(first, fr, x)
  }

  /** The number of page tables that cover the pages first to last. */
  function Span(first: nat, last: nat): nat
    requires first <= last
  {
    last / 1024 - first / 1024 + 1
  }

  /** mappages: consecutive pages get consecutive frames; when memory runs out the pages so far stay mapped. */
  method Mappages(m: Memory, d: nat, va: nat, size: nat, pa: nat, perm: nat) returns (ok: bool, ghost done: nat)
    requires m.Valid() && SpaceOk(m.mem, m.held, d) && 0 < size && va + size <= TOP && pa % 4096 == 0 && perm < 4096
    requires forall u :: va / 4096 <= u <= (va + size - 1) / 4096 ==>
               At(m.mem, d, u) == 0 && (u < USERPAGES ==> pa / 4096 + (u - va / 4096) in Rest(m.mem, m.held, d))
    modifies m
    ensures m.Valid() && SpaceOk(m.mem, m.held, d) && old(m.held) <= m.held && |m.mem| == |old(m.mem)|
    ensures Rest(m.mem, m.held, d) == old(Rest(m.mem, m.held, d)) - Taken(va / 4096, pa / 4096, done)
    ensures forall x :: x in old(Rest(m.mem, m.held, d)) ==> x < |m.mem| && m.mem[x] == old(m.mem)[x]
    ensures forall u: nat :: At(m.mem, d, u) == if va / 4096 <= u < va / 4096 + done
                             then Entry(pa / 4096 + (u - va / 4096), WithPresent(perm)) else At(old(m.mem), d, u)
    ensures PagesKept(old(m.mem), m.mem, d, 0, 0)
    ensures ok <==> done == (va + size - 1) / 4096 - va / 4096 + 1
    ensures !ok ==> done <= (va + size - 1) / 4096 - va / 4096
    ensures !ok && done == 0 ==> m.mem == old(m.mem) && m.held == old(m.held)
    ensures |old(m.free)| <= |m.free| + Span(va / 4096, (va + size - 1) / 4096)
    ensures !ok ==> |old(m.free)| < Span(va / 4096, (va + size - 1) / 4096)
  {
    hide SpaceOk, Rest, Frame, Pte, Entry, Threaded, Distinct, Present, At, WithPresent, Tab, PagesKept, Taken, Span;
    KeepsRefl(m.mem, m.held, d);
    ghost var first, fr := va / 4096, pa / 4096;
    var a, last := 4096 * (va / 4096), 4096 * ((va + size - 1) / 4096);
    var p := pa;
    done := 0;
    TakenNone(first, fr);
    while true
      invariant a == 4096 * (first + done) <= last && p == 4096 * (fr + done)
      invariant m.Valid() && SpaceOk(m.mem, m.held, d) && old(m.held) <= m.held && |m.mem| == |old(m.mem)|
      invariant Rest(m.mem, m.held, d) == old(Rest(m.mem, m.held, d)) - Taken(first, fr, done)
      invariant forall x :: x in old(Rest(m.mem, m.held, d)) ==> x < |m.mem| && m.mem[x] == old(m.mem)[x]
      invariant forall u: nat :: At(m.mem, d, u) == if first <= u < first + done
                                 then Entry(fr + (u - first), WithPresent(perm)) else At(old(m.mem), d, u)
      invariant PagesKept(old(m.mem), m.mem, d, 0, 0)
      invariant done == 0 ==> m.mem == old(m.mem) && m.held == old(m.held)
      invariant done > 0 ==> Tab(m.mem, d, (first + done - 1) / 1024) != 0
      invariant |old(m.free)| <= |m.free| + if done == 0 then 0 else Span(first, first + done - 1)
      decreases last - a
    {
      ghost var u := first + done;
      assert a / 4096 == u && p / 4096 == fr + done;
      TakenStep(first, fr, done);
      ghost var mid := m.mem;
      ok := MapPage(m, d, a, p / 4096, perm);
      TakenKept(mid, m.mem, d, first, fr, done, perm);
      KeptMore(old(m.mem), mid, m.mem, d);
      SpanStep(first, done);
      SpanWithin(first, u, (va + size - 1) / 4096);
      if !ok {
        return;
      }
      done := done + 1;
      if a == last {
        return;
      }
      a, p := a + 4096, p + 4096;
    }
  }

  lemma TakenKept(mid: seq<Page>, now: seq<Page>, d: nat, first: nat, fr: nat, k: nat, perm: nat)
    requires PagesKept(mid, now, d, 0, 0) && perm < 4096
    requires forall u :: first <= u < first + k ==> At(mid, d, u) == Entry(fr + (u - first), WithPresent(perm))
    ensures forall x :: x in Taken(first, fr, k) ==> x < |mid| && now[x] == mid[x]
  {
    hide At, Entry, WithPresent, Frame, Present;
    forall x | x in Taken(first, fr, k)
      ensures x < |mid| && now[x] == mid[x]
    {
      var u := first + (x - fr);
      PresentParts(x, perm);
      assert At(mid, d, u) != 0;
    }
  }

  lemma SpanStep(first: nat, k: nat)
    ensures Span(first, first) == 1
    ensures k > 0 ==> Span(first, first + k) == Span(first, first + k - 1)
                                                + if (first + k) / 1024 == (first + k - 1) / 1024 then 0 else 1
  {
  }

  lemma SpanWithin(first: nat, u: nat, last: nat)
    requires first <= u <= last
    ensures Span(first, u) <= Span(first, last)
  {
  }

  lemma TakenNone(first: nat, fr: nat)
    ensures Taken(first, fr, 0) == {}
  {
  }

  lemma TakenStep(first: nat, fr: nat, k: nat)
    ensures Taken(first, fr, k + 1) == Taken(first, fr, k) + (if first + k < USERPAGES then {fr + k} else {})
    ensures fr + k !in Taken(first, fr, k)
  {
  }

  /** One page of deallocuvm; there says whether a table covers it. */
  method UnmapPage(m: Memory, d: nat, a: nat) returns (there: bool)
    requires m.Valid() && SpaceOk(m.mem, m.held, d) && a < KERNBASE
    modifies m
    ensures m.Valid() && Keeps(old(m.mem), old(m.held), m.mem, m.held, d) && m.held <= old(m.held)
    ensures forall u: nat :: At(m.mem, d, u) == if u == a / 4096 then 0 else At(old(m.mem), d, u)
    ensures PagesKept(old(m.mem), m.mem, d, a / 4096, a / 4096 + 1)
    ensures there <==> Tab(old(m.mem), d, a / 4096 / 1024) != 0
    ensures !there ==> m.mem == old(m.mem)
    ensures forall k :: Tab(m.mem, d, k) == Tab(old(m.mem), d, k)
    ensures m.held == old(m.held) - (if At(old(m.mem), d, a / 4096) != 0 then {Frame(At(old(m.mem), d, a / 4096))} else {})
  {
    hide SpaceOk, Rest, Frame, Pte, Threaded, Distinct, Present, Keeps, Pdx, Ptx, Tab;
    KeepsRefl(m.mem, m.held, d);
    Indices(a);
    ghost var v := a / 4096;
    ghost var mid, h := m.mem, m.held;
    var t := Walk(m, d, a, false);
    there := t != 0;
    if there {
      var pte := m.mem[t][Ptx(a)];
      EntryAt(mid, d, v);
      if Present(pte) {
        NotZero(pte);
        UnmapStep(mid, h, d, v, Junk()[0 := m.freelist]);
        m.Kfree(Frame(pte));
        m.Store(t, m.mem[t][Ptx(a) := 0]);
      } else {
        NotPresent(mid, h, d, v);
      }
    } else {
      NoTable(mid, d, v);
    }
  }

  lemma EntryAt(mem: seq<Page>, d: nat, v: nat)
    requires 0 < Tab(mem, d, v / 1024) < |mem|
    ensures At(mem, d, v) == mem[Tab(mem, d, v / 1024)][v % 1024]
  {
  }

  lemma NotZero(e: nat)
    requires Present(e)
    ensures e != 0
  {
  }

  /** deallocuvm: exactly the pages from PGROUNDUP(newsz) up to oldsz are unmapped and given back. */
  method Deallocuvm(m: Memory, d: nat, oldsz: nat, newsz: nat) returns (sz: nat)
    requires m.Valid() && SpaceOk(m.mem, m.held, d) && oldsz <= KERNBASE
    modifies m
    ensures m.Valid() && Keeps(old(m.mem), old(m.held), m.mem, m.held, d) && m.held <= old(m.held)
    ensures forall u: nat :: At(m.mem, d, u) ==
                             if PagesFor(newsz) <= u < PagesFor(oldsz) then 0 else At(old(m.mem), d, u)
    ensures PagesKept(old(m.mem), m.mem, d, PagesFor(newsz), PagesFor(oldsz))
    ensures m.held == old(m.held) - FramesOf(old(m.mem), d, PagesFor(newsz), PagesFor(oldsz))
    ensures forall k :: Tab(m.mem, d, k) == Tab(old(m.mem), d, k)
    ensures sz == if newsz < oldsz then newsz else oldsz
  {
    hide SpaceOk, Rest, Frame, At, Threaded, Distinct, Present, Keeps, Tab, FramesOf, PagesKept;
    KeepsRefl(m.mem, m.held, d);
    if newsz >= oldsz {
      NoFrames(m.mem, d, PagesFor(newsz), PagesFor(oldsz));
      KeptWider(m.mem, m.mem, d, PagesFor(newsz), PagesFor(oldsz));
      return oldsz;
    }
    NoFrames(m.mem, d, PagesFor(newsz), PagesFor(newsz));
    KeptWider(m.mem, m.mem, d, PagesFor(newsz), PagesFor(oldsz));
    ghost var lo, hi := PagesFor(newsz), PagesFor(oldsz);
    var a := 4096 * PagesFor(newsz);
    while a < oldsz
      invariant a % 4096 == 0 && lo <= a / 4096 && a <= KERNBASE
      invariant m.Valid() && Keeps(old(m.mem), old(m.held), m.mem, m.held, d) && m.held <= old(m.held)
      invariant forall u: nat :: At(m.mem, d, u) ==
                                 if lo <= u < a / 4096 && u < hi then 0 else At(old(m.mem), d, u)
      invariant PagesKept(old(m.mem), m.mem, d, lo, hi)
      invariant forall k :: Tab(m.mem, d, k) == Tab(old(m.mem), d, k)
      invariant m.held == old(m.held) - FramesOf(old(m.mem), d, lo, if a / 4096 < hi then a / 4096 else hi)
      decreases KERNBASE - a
    {
      ghost var v := a / 4096;
      FramesStep(old(m.mem), d, lo, v);
      ghost var mid, h := m.mem, m.held;
      SpaceOf(old(m.mem), old(m.held), mid, h, d);
      var there := UnmapPage(m, d, a);
      KeepsTrans(old(m.mem), old(m.held), mid, h, m.mem, m.held, d);
      KeptTrans(old(m.mem), mid, m.mem, d, lo, hi, a / 4096);
      if !there {
        NoTable(mid, d, v);
        NextTable(a);
        ghost var next := 1024 * (v / 1024 + 1);
        FramesSkip(old(m.mem), d, lo, v, if next < hi then next else hi);
        a := 0x40_0000 * (a / 0x40_0000 + 1) - 4096;
      }
      a := a + 4096;
    }
    sz := newsz;
  }

  lemma NoFrames(mem: seq<Page>, d: nat, lo: nat, hi: nat)
    requires hi <= lo
    ensures FramesOf(mem, d, lo, hi) == {}
  {
  }

  lemma KeptWider(mem: seq<Page>, now: seq<Page>, d: nat, lo: nat, hi: nat)
    requires PagesKept(mem, now, d, 0, 0)
    ensures PagesKept(mem, now, d, lo, hi)
  {
    hide At, Frame;
  }

  lemma KeptTrans(before: seq<Page>, mid: seq<Page>, now: seq<Page>, d: nat, lo: nat, hi: nat, v: nat)
    requires PagesKept(before, mid, d, lo, hi) && PagesKept(mid, now, d, v, v + 1) && lo <= v < hi
    requires forall u: nat :: At(mid, d, u) == if lo <= u < v && u < hi then 0 else At(before, d, u)
    ensures PagesKept(before, now, d, lo, hi)
  {
    hide At, Frame;
  }

  /** kalloc, fill, mappages of one user page: allocuvm's and copyuvm's step. A page that could not be mapped
      is returned. */
  method GrowPage(m: Memory, d: nat, a: nat, contents: Page, perm: nat) returns (ok: bool, f: nat)
    requires m.Valid() && SpaceOk(m.mem, m.held, d) && a < KERNBASE && a % 4096 == 0 && perm < 4096
    requires At(m.mem, d, a / 4096) == 0
    modifies m
    ensures m.Valid() && SpaceOk(m.mem, m.held, d) && old(m.held) <= m.held && |m.mem| == |old(m.mem)|
    ensures forall x :: x in old(Rest(m.mem, m.held, d)) ==> x < |m.mem| && m.mem[x] == old(m.mem)[x]
    ensures PagesKept(old(m.mem), m.mem, d, 0, 0)
    ensures forall u: nat :: At(m.mem, d, u) ==
                             if ok && u == a / 4096 then Entry(f, WithPresent(perm)) else At(old(m.mem), d, u)
    ensures ok ==> Rest(m.mem, m.held, d) == old(Rest(m.mem, m.held, d))
    ensures ok ==> 0 < f < |m.mem| && f !in old(m.held) && m.mem[f] == contents
    ensures !ok && f == 0 ==> m.mem == old(m.mem) && m.held == old(m.held)
    ensures !ok && f != 0 ==> f !in old(m.held) && m.held == old(m.held) + {f}
                              && Rest(m.mem, m.held, d) == old(Rest(m.mem, m.held, d)) + {f}
                              && f !in old(Rest(m.mem, m.held, d))
    ensures |old(m.free)| <= |m.free| + 2 && (!ok ==> |old(m.free)| < 2)
  {
    hide SpaceOk, Rest, Frame, At, Threaded, Distinct, Present, Tab, Entry, WithPresent, Keeps;
    ghost var mem0, held0 := m.mem, m.held;
    KeepsRefl(m.mem, m.held, d);
    RestIn(m.mem, m.held, d);
    ok := false;
    f := m.Kalloc();
    if f == 0 {
      return;
    }
    AllocRest(mem0, held0, d, f);
    WriteRest(mem0, m.held, d, f, contents);
    m.Store(f, contents);
    ghost var mid := m.mem;
    ghost var done;
    assert (a + 4096 - 1) / 4096 == a / 4096;
    assert 4096 * f / 4096 == f;
    ok, done := Mappages(m, d, a, 4096, 4096 * f, perm);
    TakenOne(a / 4096, f);
  }

  lemma TakenOne(first: nat, f: nat)
    requires first < USERPAGES
    ensures Taken(first, f, 0) == {} && Taken(first, f, 1) == {f}
  {
    TakenStep(first, f, 0);
  }

  lemma RestIn(mem: seq<Page>, held: set<nat>, d: nat)
    requires SpaceOk(mem, held, d)
    ensures forall x :: x in Rest(mem, held, d) ==> 0 < x < |mem|
  {
  }

  ghost function Extra(f: nat): set<nat> {
    if f == 0 then {} else {f}
  }

  /** allocuvm's error path: the pages mapped so far are unmapped, and the page that found no table goes back. */
  method Undo(m: Memory, d: nat, oldsz: nat, newsz: nat, f: nat, ghost mem: seq<Page>, ghost held: set<nat>)
    requires m.Valid() && SpaceOk(m.mem, m.held, d) && |m.mem| == |mem| && oldsz <= newsz < KERNBASE
    requires Rest(m.mem, m.held, d) == Rest(mem, held, d) + Extra(f) && Extra(f) !! Rest(mem, held, d)
    requires forall x :: x in Rest(mem, held, d) ==> x < |mem| && m.mem[x] == mem[x]
    requires PagesKept(mem, m.mem, d, 0, 0)
    requires forall u: nat :: if PagesFor(oldsz) <= u < PagesFor(newsz) then At(mem, d, u) == 0
                              else At(m.mem, d, u) == At(mem, d, u)
    modifies m
    ensures m.Valid() && Keeps(mem, held, m.mem, m.held, d)
    ensures PagesKept(mem, m.mem, d, 0, 0) && forall u: nat :: At(m.mem, d, u) == At(mem, d, u)
  {
    hide SpaceOk, Rest, Frame, At, Threaded, Distinct, Present, Tab, Entry, PagesFor;
    ghost var mid := m.mem;
    var sz := Deallocuvm(m, d, newsz, oldsz);
    KeptOutside(mem, mid, m.mem, d, PagesFor(oldsz), PagesFor(newsz));
    if f != 0 {
      ghost var last := m.mem;
      RestIn(m.mem, m.held, d);
      RestHeld(m.mem, m.held, d, f);
      FreeRest(m.mem, m.held, d, f, Junk()[0 := m.freelist]);
      m.Kfree(f);
      KeptMore(mem, last, m.mem, d);
    }
  }

  lemma RestHeld(mem: seq<Page>, held: set<nat>, d: nat, f: nat)
    requires f in Rest(mem, held, d)
    ensures f in held
  {
  }

  lemma KeptOutside(mem: seq<Page>, mid: seq<Page>, now: seq<Page>, d: nat, lo: nat, hi: nat)
    requires PagesKept(mem, mid, d, 0, 0) && PagesKept(mid, now, d, lo, hi)
    requires forall u: nat :: if lo <= u < hi then At(mem, d, u) == 0 else At(mid, d, u) == At(mem, d, u)
    ensures PagesKept(mem, now, d, 0, 0)
  {
    hide At, Frame;
  }

  lemma KeptMore(mem: seq<Page>, mid: seq<Page>, now: seq<Page>, d: nat)
    requires PagesKept(mem, mid, d, 0, 0) && PagesKept(mid, now, d, 0, 0)
    requires forall u: nat :: At(mem, d, u) != 0 ==> At(mid, d, u) == At(mem, d, u)
    ensures PagesKept(mem, now, d, 0, 0)
  {
    hide At, Frame;
  }

  lemma KeepsStep(mem: seq<Page>, held: set<nat>, now: seq<Page>, held': set<nat>, d: nat)
    requires SpaceOk(now, held', d) && |now| == |mem| && Rest(now, held', d) == Rest(mem, held, d)
    requires forall x :: x in Rest(mem, held, d) ==> x < |now| && now[x] == mem[x]
    ensures Keeps(mem, held, now, held', d)
  {
  }

  lemma RestOf(mem: seq<Page>, held: set<nat>, now: seq<Page>, held': set<nat>, d: nat)
    requires Keeps(mem, held, now, held', d)
    ensures Rest(now, held', d) == Rest(mem, held, d) && |now| == |mem|
    ensures forall x :: x in Rest(mem, held, d) ==> x < |mem| && now[x] == mem[x]
  {
  }

  lemma StillFresh(mid: seq<Page>, now: seq<Page>, d: nat, before: set<nat>, lo: nat, v: nat)
    requires PagesKept(mid, now, d, 0, 0) && v < USERPAGES
    requires forall u :: lo <= u < v ==> At(now, d, u) == At(mid, d, u)
    requires forall u :: lo <= u < v ==> Fresh(mid, before, At(mid, d, u), 7, ZeroPage())
    ensures forall u :: lo <= u < v ==> Fresh(now, before, At(now, d, u), 7, ZeroPage())
  {
    hide At, ZeroPage, PagesKept;
    forall u | lo <= u < v
      ensures Fresh(now, before, At(now, d, u), 7, ZeroPage())
    {
      assert Fresh(mid, before, At(mid, d, u), 7, ZeroPage());
      FreshKept(mid, now, d, before, u, 7, ZeroPage());
    }
  }

  lemma NewIsFresh(mem: seq<Page>, before: set<nat>, f: nat)
    requires f < |mem| && f !in before && mem[f] == ZeroPage()
    ensures Fresh(mem, before, Entry(f, WithPresent(6)), 7, ZeroPage())
  {
    EntryParts(f, 7);
  }

  lemma FreshIsUsers(mem: seq<Page>, held: set<nat>, d: nat, before: set<nat>, u: nat, contents: Page)
    requires SpaceOk(mem, held, d) && Fresh(mem, before, At(mem, d, u), 7, contents)
    ensures UserAccess(mem, d, u) && WriteAccess(mem, d, u)
  {
    hide SpaceOk, At, Frame, Present, Has, Entry;
    var f := Frame(At(mem, d, u));
    EntryDecides(mem, held, d, u);
    EntryParts(f, 7);
    EntryHas(f, 7);
    SevenIsOpen();
  }

  /** allocuvm: on success the missing pages are mapped to fresh zeroed frames that the user may write; on failure the
      user mapping is as before. */
  method Allocuvm(m: Memory, d: nat, oldsz: nat, newsz: nat) returns (sz: nat)
    requires m.Valid() && SpaceOk(m.mem, m.held, d)
    requires forall u :: PagesFor(oldsz) <= u < PagesFor(newsz) && u < USERPAGES ==> At(m.mem, d, u) == 0
    modifies m
    ensures m.Valid() && Keeps(old(m.mem), old(m.held), m.mem, m.held, d)
    ensures PagesKept(old(m.mem), m.mem, d, 0, 0)
    ensures newsz >= KERNBASE || newsz < oldsz ==> m.mem == old(m.mem) && m.held == old(m.held)
    ensures sz == (if newsz >= KERNBASE then 0 else if newsz < oldsz then oldsz else newsz) || sz == 0
    ensures newsz < KERNBASE && newsz < oldsz ==> sz == oldsz
    ensures forall u: nat :: !(PagesFor(oldsz) <= u < PagesFor(newsz)) || (newsz != 0 && sz == 0) ==>
                               At(m.mem, d, u) == At(old(m.mem), d, u)
    ensures sz != 0 && oldsz <= newsz ==>
              forall u :: PagesFor(oldsz) <= u < PagesFor(newsz) ==>
                            && Fresh(m.mem, old(m.held), At(m.mem, d, u), 7, ZeroPage())
                            && UserAccess(m.mem, d, u) && WriteAccess(m.mem, d, u)
    ensures sz != newsz && oldsz <= newsz < KERNBASE ==> |old(m.free)| < 2 * (PagesFor(newsz) - PagesFor(oldsz))
  {
    hide SpaceOk, Rest, Frame, At, Threaded, Distinct, Present, Tab, Entry, WithPresent, Keeps, ZeroPage,
         PagesKept, Fresh, UserAccess, WriteAccess;
    KeepsRefl(m.mem, m.held, d);
    if newsz >= KERNBASE {
      return 0;
    }
    if newsz < oldsz {
      return oldsz;
    }
    ghost var lo, hi := PagesFor(oldsz), PagesFor(newsz);
    var a := 4096 * PagesFor(oldsz);
    while a < newsz
      invariant a % 4096 == 0 && lo <= a / 4096 <= hi <= USERPAGES
      invariant m.Valid() && Keeps(old(m.mem), old(m.held), m.mem, m.held, d) && old(m.held) <= m.held
      invariant PagesKept(old(m.mem), m.mem, d, 0, 0)
      invariant forall u: nat :: !(lo <= u < a / 4096) ==> At(m.mem, d, u) == At(old(m.mem), d, u)
      invariant forall u :: lo <= u < a / 4096 ==> Fresh(m.mem, old(m.held), At(m.mem, d, u), 7, ZeroPage())
      invariant |old(m.free)| <= |m.free| + 2 * (a / 4096 - lo)
    {
      ghost var mid, h := m.mem, m.held;
      SpaceOf(old(m.mem), old(m.held), mid, h, d);
      var ok, f := GrowPage(m, d, a, ZeroPage(), 6);
      if !ok {
        KeptMore(old(m.mem), mid, m.mem, d);
        RestOf(old(m.mem), old(m.held), mid, h, d);
        Undo(m, d, oldsz, newsz, f, old(m.mem), old(m.held));
        return 0;
      }
      KeptMore(old(m.mem), mid, m.mem, d);
      KeepsStep(mid, h, m.mem, m.held, d);
      KeepsTrans(old(m.mem), old(m.held), mid, h, m.mem, m.held, d);
      StillFresh(mid, m.mem, d, old(m.held), lo, a / 4096);
      NewIsFresh(m.mem, old(m.held), f);
      a := a + 4096;
    }
    SpaceOf(old(m.mem), old(m.held), m.mem, m.held, d);
    forall u | lo <= u < hi
      ensures UserAccess(m.mem, d, u) && WriteAccess(m.mem, d, u)
    {
      FreshIsUsers(m.mem, m.held, d, old(m.held), u, ZeroPage());
    }
    sz := newsz;
  }

  /** The page tables from the i-th on. */
  ghost function TabsFrom(mem: seq<Page>, d: nat, i: nat): set<nat> {
    set k | i <= k < 1024 && Tab(mem, d, k) != 0 :: Tab(mem, d, k)
  }

  lemma TabsStep(mem: seq<Page>, held: set<nat>, d: nat, i: nat)
    requires SpaceOk(mem, held, d) && i < 1024
    ensures TabsFrom(mem, d, i) == TabsFrom(mem, d, i + 1) + (if Tab(mem, d, i) != 0 then {Tab(mem, d, i)} else {})
    ensures Tab(mem, d, i) != d && Tab(mem, d, i) !in TabsFrom(mem, d, i + 1) && Tab(mem, d, i) !in Rest(mem, held, d)
    ensures Tab(mem, d, i) != 0 <==> Present(Pde(mem, d, i))
  {
    hide Frame, Pde, Present;
    RootIn(mem, held, d);
    if Tab(mem, d, i) != 0 {
      TableIn(mem, held, d, i);
    }
    InRange(mem, held, d);
  }

  /** Without user pages an address space is its directory and its tables. */
  lemma NoLeaves(mem: seq<Page>, held: set<nat>, d: nat)
    requires SpaceOk(mem, held, d) && forall u :: 0 <= u < USERPAGES ==> At(mem, d, u) == 0
    ensures held == Rest(mem, held, d) + {d} + TabsFrom(mem, d, 0) && d !in Rest(mem, held, d)
  {
    hide Frame, Present, Tab, Pde, SpaceOk;
    RootIn(mem, held, d);
    forall f | f in held
      ensures f in Rest(mem, held, d) + {d} + TabsFrom(mem, d, 0)
    {
      if Owns(mem, d, f) {
        var n :| FrameOf(mem, d, n) == f;
        OnlyTables(mem, d, n);
      }
    }
    forall i | Tab(mem, d, i) != 0
      ensures Tab(mem, d, i) in held
    {
      TableIn(mem, held, d, i);
    }
  }

  lemma NoEntries(mem: seq<Page>, d: nat, i: nat, j: nat)
    requires (forall u :: 0 <= u < USERPAGES ==> At(mem, d, u) == 0) && i < 512
    ensures Pte(mem, d, i, j) == 0
  {
    if j < 1024 {
      assert At(mem, d, 1024 * i + j) == 0;
    }
  }

  lemma OnlyTables(mem: seq<Page>, d: nat, n: Node)
    requires forall u :: 0 <= u < USERPAGES ==> At(mem, d, u) == 0
    ensures FrameOf(mem, d, n) != 0 ==> n.Root? || (n.Table? && n.i < 1024)
  {
    match n
    case Root =>
    case Table(i) =>
    case Leaf(i, j) =>
      if i < 512 {
        NoEntries(mem, d, i, j);
      }
  }

  /** freevm: every frame of the address space goes back exactly once, and no other frame is touched. */
  method Freevm(m: Memory, d: nat)
    requires m.Valid() && SpaceOk(m.mem, m.held, d)
    modifies m
    ensures m.Valid() && m.held == old(Rest(m.mem, m.held, d)) && |m.mem| == |old(m.mem)|
    ensures forall x :: x in m.held ==> x < |m.mem| && m.mem[x] == old(m.mem)[x]
  {
    hide SpaceOk, Rest, Frame, At, Threaded, Distinct, Present, Tab, Entry, PagesKept, TabsFrom;
    var sz := Deallocuvm(m, d, KERNBASE, 0);
    ghost var mid, held := m.mem, m.held;
    RootIn(mid, held, d);
    NoLeaves(mid, held, d);
    var i := 0;
    while i < 1024
      invariant i <= 1024 && m.Valid() && |m.mem| == |mid| && m.mem[d] == mid[d]
      invariant m.held == Rest(mid, held, d) + {d} + TabsFrom(mid, d, i)
      invariant forall x :: x in Rest(mid, held, d) ==> m.mem[x] == mid[x]
    {
      TabsStep(mid, held, d, i);
      var pde := m.mem[d][i];
      if Present(pde) {
        TabIs(mid, d, i);
        m.Kfree(Frame(pde));
      }
      i := i + 1;
    }
    NoTabs(mid, d);
    m.Kfree(d);
  }

  lemma TabIs(mem: seq<Page>, d: nat, i: nat)
    requires d < |mem| && i < 1024 && Present(mem[d][i])
    ensures Tab(mem, d, i) == Frame(mem[d][i])
  {
  }

  lemma NoTabs(mem: seq<Page>, d: nat)
    ensures TabsFrom(mem, d, 1024) == {}
  {
  }

  lemma SpaceOf(mem: seq<Page>, held: set<nat>, now: seq<Page>, held': set<nat>, d: nat)
    requires Keeps(mem, held, now, held', d)
    ensures SpaceOk(now, held', d)
  {
  }

  lemma NotPresent(mem: seq<Page>, held: set<nat>, d: nat, v: nat)
    requires SpaceOk(mem, held, d) && !Present(At(mem, d, v))
    ensures At(mem, d, v) == 0
  {
  }

  lemma TableThere(mem: seq<Page>, held: set<nat>, d: nat, i: nat)
    requires SpaceOk(mem, held, d) && Present(Pde(mem, d, i))
    ensures 0 < Tab(mem, d, i) < |mem|
  {
    TableIn(mem, held, d, i);
  }
}
