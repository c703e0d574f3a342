/** malloc, free and morecore as they run on the headers, against the free list as a value. */
module Heap {
  import opened Basics
  import opened FreeList
  import opened Umalloc

  /** Every allocated block has its size in its header, lies in the heap and overlaps nothing. */
  ghost predicate AllocOk(alloc: seq<Blk>, size: map<nat, nat>, free: seq<Blk>, base: nat, top: nat) {
    && Disjoint(alloc)
    && forall i :: 0 <= i < |alloc| ==> OneAllocOk(alloc[i], size, free, base, top)
  }

  ghost predicate OneAllocOk(a: Blk, size: map<nat, nat>, free: seq<Blk>, base: nat, top: nat) {
    && a.len >= 1 && base < a.addr && a.End() <= top
    && a.addr in size && size[a.addr] == a.len
    && Outside(a, free)
  }

  /** The free list, as threaded in memory. */
  ghost predicate ListOk(ptr: map<nat, nat>, size: map<nat, nat>, free: seq<Blk>, base: nat, top: nat) {
    Bounded(free, base, top) && Apart(free) && Threaded(ptr, size, free)
  }

  ghost predicate OnList(free: seq<Blk>, p: nat) {
    exists f :: 0 <= f < |free| && free[f].addr == p
  }

  /** What holds between calls, once the list exists: units in the free list and units handed out add
      up to the units obtained from sbrk. */
  ghost predicate HeapOk(ptr: map<nat, nat>, size: map<nat, nat>, freep: nat,
                         free: seq<Blk>, alloc: seq<Blk>, units: nat, base: nat, top: nat) {
    && ListOk(ptr, size, free, base, top) && OnList(free, freep)
    && AllocOk(alloc, size, free, base, top)
    && Sum(free) + Sum(alloc) == units
  }

  /** Freeing block i: it joins the free list, everything else stays allocated and untouched. */
  lemma FreeStep(ptr: map<nat, nat>, size: map<nat, nat>, free: seq<Blk>, alloc: seq<Blk>, base: nat, top: nat,
                 i: nat, k: nat)
    requires ListOk(ptr, size, free, base, top) && AllocOk(alloc, size, free, base, top)
    requires i < |alloc| && Precedes(free, k, alloc[i].addr)
    ensures var b, p := alloc[i], free[k].addr;
            && b.addr in size && p in ptr && p in size && ptr[p] in ptr && ptr[p] in size
            && p != b.addr && ptr[p] != b.addr
            && HeapOk(FreedPtr(ptr, size, p, b.addr), FreedSize(ptr, size, p, b.addr), p,
                      Insert(free, k, b), Without(alloc, i), Sum(free) + Sum(alloc), base, top)
  {
    var b := alloc[i];
    assert OneAllocOk(b, size, free, base, top);
    InsertBounded(free, k, b, base, top);
    InsertApart(free, k, b);
    FreedThreaded(ptr, size, free, k, b);
    DistinctAddrs(free, b);
    assert HeaderAt(ptr, size, free, k);
    InsertSum(free, k, b);
    SumSplit(alloc, i);
    SumConcat(alloc[..i], alloc[i + 1..]);
    RestStaysAllocated(ptr, size, free, alloc, base, top, i, k);
    InsertKeepsAnchor(free, k, b);
    assert OnList(Insert(free, k, b), free[k].addr);
  }

  lemma RestStaysAllocated(ptr: map<nat, nat>, size: map<nat, nat>, free: seq<Blk>, alloc: seq<Blk>,
                           base: nat, top: nat, i: nat, k: nat)
    requires ListOk(ptr, size, free, base, top) && AllocOk(alloc, size, free, base, top)
    requires i < |alloc| && Precedes(free, k, alloc[i].addr) && alloc[i].addr in size
    requires var p := free[k].addr; p in ptr && p in size && ptr[p] in ptr && ptr[p] in size
    ensures AllocOk(Without(alloc, i), FreedSize(ptr, size, free[k].addr, alloc[i].addr), Insert(free, k, alloc[i]),
                    base, top)
  {
    var b, rest := alloc[i], Without(alloc, i);
    assert OneAllocOk(b, size, free, base, top);
    assert forall j :: 0 <= j < |rest| ==> rest[j] == alloc[if j < i then j else j + 1];
    forall j | 0 <= j < |rest|
      ensures OneAllocOk(rest[j], FreedSize(ptr, size, free[k].addr, b.addr), Insert(free, k, b), base, top)
    {
      var j' := if j < i then j else j + 1;
      var a := alloc[j'];
      assert OneAllocOk(a, size, free, base, top);
      assert a.End() <= b.addr || b.End() <= a.addr;
      InsertOutside(free, k, b, a);
      DistinctAddrs(free, a);
    }
  }

  /** Allocating n units from block k: the new block is its own, everything else is untouched. */
  lemma TakeStep(ptr: map<nat, nat>, size: map<nat, nat>, free: seq<Blk>, alloc: seq<Blk>, base: nat, top: nat,
                 k: nat, n: nat)
    requires ListOk(ptr, size, free, base, top) && AllocOk(alloc, size, free, base, top)
    requires k < |free| && 1 <= n <= free[k].len
    ensures k >= 1 && free[k].addr in ptr
    ensures var b := Blk(free[k].End() - n, n);
            HeapOk(TakenPtr(ptr, free, k, n), TakenSize(size, free, k, n), free[k - 1].addr,
                   Take(free, k, n), alloc + [b], Sum(free) + Sum(alloc), base, top)
  {
    var b := Blk(free[k].End() - n, n);
    TakeBounded(free, k, n, base, top);
    TakeApart(free, k, n);
    TakeSum(free, k, n);
    TakenThreaded(ptr, size, free, k, n);
    SumConcat(alloc, [b]);
    TakenStaysAllocated(ptr, size, free, alloc, base, top, k, n);
    assert Take(free, k, n)[k - 1] == free[k - 1];
  }

  lemma OneStaysAllocated(ptr: map<nat, nat>, size: map<nat, nat>, free: seq<Blk>, a: Blk, base: nat, top: nat,
                          k: nat, n: nat)
    requires ListOk(ptr, size, free, base, top) && OneAllocOk(a, size, free, base, top)
    requires 1 <= k < |free| && 1 <= n <= free[k].len
    ensures OneAllocOk(a, TakenSize(size, free, k, n), Take(free, k, n), base, top)
    ensures a.End() <= free[k].End() - n || free[k].End() <= a.addr
  {
    hide Apart, Outside, Take, Threaded;
    TakeOutside(free, k, n, a);
    DistinctAddrs(free, a);
  }

  lemma NewIsAllocated(ptr: map<nat, nat>, size: map<nat, nat>, free: seq<Blk>, base: nat, top: nat, k: nat, n: nat)
    requires ListOk(ptr, size, free, base, top) && 1 <= k < |free| && 1 <= n <= free[k].len
    ensures OneAllocOk(Blk(free[k].End() - n, n), TakenSize(size, free, k, n), Take(free, k, n), base, top)
  {
    assert free[0].End() < free[k].addr && free[k].End() <= top;
    hide Apart, Outside, Take, Threaded, Bounded;
    TakeApart(free, k, n);
    TakenThreaded(ptr, size, free, k, n);
  }

  lemma AllocSnoc(alloc: seq<Blk>, b: Blk, size: map<nat, nat>, free: seq<Blk>, base: nat, top: nat)
    requires Disjoint(alloc) && OneAllocOk(b, size, free, base, top)
    requires forall j :: 0 <= j < |alloc| ==> OneAllocOk(alloc[j], size, free, base, top)
    requires forall j :: 0 <= j < |alloc| ==> alloc[j].End() <= b.addr || b.End() <= alloc[j].addr
    ensures AllocOk(alloc + [b], size, free, base, top)
  {
    hide OneAllocOk;
  }

  lemma TakenStaysAllocated(ptr: map<nat, nat>, size: map<nat, nat>, free: seq<Blk>, alloc: seq<Blk>,
                            base: nat, top: nat, k: nat, n: nat)
    requires ListOk(ptr, size, free, base, top) && AllocOk(alloc, size, free, base, top)
    requires 1 <= k < |free| && 1 <= n <= free[k].len
    ensures AllocOk(alloc + [Blk(free[k].End() - n, n)], TakenSize(size, free, k, n), Take(free, k, n), base, top)
  {
    hide ListOk, OneAllocOk, Disjoint, Take, TakenSize;
    forall j | 0 <= j < |alloc|
      ensures OneAllocOk(alloc[j], TakenSize(size, free, k, n), Take(free, k, n), base, top)
      ensures alloc[j].End() <= free[k].End() - n || free[k].End() <= alloc[j].addr
    {
      OneStaysAllocated(ptr, size, free, alloc[j], base, top, k, n);
    }
    NewIsAllocated(ptr, size, free, base, top, k, n);
    AllocSnoc(alloc, Blk(free[k].End() - n, n), TakenSize(size, free, k, n), Take(free, k, n), base, top);
  }

  /** Going c places on from f, around a list of n. */
  function Wrap(f: nat, c: nat, n: nat): nat
    requires f < n && c <= n
  {
    if f + c < n then f + c else f + c - n
  }

  lemma HeapParts(ptr: map<nat, nat>, size: map<nat, nat>, freep: nat, free: seq<Blk>, alloc: seq<Blk>, units: nat,
                  base: nat, top: nat)
    requires HeapOk(ptr, size, freep, free, alloc, units, base, top)
    ensures ListOk(ptr, size, free, base, top) && OnList(free, freep) && AllocOk(alloc, size, free, base, top)
    ensures Sum(free) + Sum(alloc) == units
  {
  }

  lemma AllocAt(alloc: seq<Blk>, size: map<nat, nat>, free: seq<Blk>, base: nat, top: nat, i: nat)
    requires AllocOk(alloc, size, free, base, top) && i < |alloc|
    ensures OneAllocOk(alloc[i], size, free, base, top)
  {
  }

  /** The header of the k-th free block, which does not lie at address 0. */
  lemma PlacePositive(ptr: map<nat, nat>, size: map<nat, nat>, free: seq<Blk>, base: nat, top: nat, k: nat)
    requires ListOk(ptr, size, free, base, top) && k < |free| && 0 < base
    ensures HeaderAt(ptr, size, free, k) && free[k].addr > 0
  {
    assert k > 0 ==> free[0].End() < free[k].addr;
  }

  /** The n units at r were cut off the first block with room, searching from freep. */
  ghost predicate FirstFitTaken(l: seq<Blk>, freep: nat, n: nat, l': seq<Blk>, r: nat) {
    exists f, c :: FirstFit(l, f, c, n) && Cut(l, f, c, freep, n, l', r)
  }

  ghost predicate Cut(l: seq<Blk>, f: nat, c: nat, freep: nat, n: nat, l': seq<Blk>, r: nat)
    requires FirstFit(l, f, c, n)
  {
    var k := Wrap(f, c, |l|);
    l[f].addr == freep && r == l[k].End() - n && l' == Take(l, k, n)
  }

  lemma BackAtStart(l: seq<Blk>, f: nat, c: nat)
    requires Apart(l) && f < |l| && 1 <= c <= |l| && l[Wrap(f, c, |l|)].addr == l[f].addr
    ensures c == |l|
  {
  }

  lemma AllTooSmall(l: seq<Blk>, f: nat, n: nat)
    requires f < |l| && l[f].len < n && forall d :: 1 <= d < |l| ==> l[Wrap(f, d, |l|)].len < n
    ensures forall i :: 0 <= i < |l| ==> l[i].len < n
  {
    forall i | 0 <= i < |l|
      ensures l[i].len < n
    {
      if i != f {
        assert Wrap(f, if i > f then i - f else i - f + |l|, |l|) == i;
      }
    }
  }

  ghost predicate HasRoom(l: seq<Blk>, n: nat) {
    exists i :: 0 <= i < |l| && l[i].len >= n
  }

  lemma InsertedRoom(l: seq<Blk>, m: seq<Blk>, p: nat, b: Blk, n: nat)
    requires b.len >= n && exists k :: Precedes(l, k, p) && m == Insert(l, k, b)
    ensures HasRoom(m, n)
  {
    var k :| Precedes(l, k, p) && m == Insert(l, k, b);
    InsertKeepsAnchor(l, k, b);
  }

  lemma GrowAlloc(size: map<nat, nat>, free: seq<Blk>, alloc: seq<Blk>, base: nat, top: nat, b: Blk)
    requires Bounded(free, base, top) && AllocOk(alloc, size, free, base, top) && base < top <= b.addr && b.len >= 1
    ensures AllocOk(alloc + [b], size[b.addr := b.len], free, base, b.End())
  {
    var size' := size[b.addr := b.len];
    forall i | 0 <= i < |alloc|
      ensures OneAllocOk(alloc[i], size', free, base, b.End()) && alloc[i].End() <= b.addr
    {
      assert OneAllocOk(alloc[i], size, free, base, top);
    }
    assert OneAllocOk(b, size', free, base, b.End());
  }

  lemma GrowList(ptr: map<nat, nat>, size: map<nat, nat>, free: seq<Blk>, base: nat, top: nat, b: Blk)
    requires ListOk(ptr, size, free, base, top) && base < top <= b.addr && b.len >= 1
    ensures ListOk(ptr, size[b.addr := b.len], free, base, b.End())
  {
    hide Apart;
    var size' := size[b.addr := b.len];
    forall i | 0 <= i < |free|
      ensures HeaderAt(ptr, size', free, i)
    {
      assert HeaderAt(ptr, size, free, i);
    }
  }

  /** Memory from sbrk, taken as an allocated block, overlaps nothing known. */
  lemma {:induction false} GrowStep(ptr: map<nat, nat>, size: map<nat, nat>, freep: nat, free: seq<Blk>,
                                    alloc: seq<Blk>, units: nat, base: nat, top: nat, b: Blk)
    requires HeapOk(ptr, size, freep, free, alloc, units, base, top) && base < top <= b.addr && b.len >= 1
    ensures HeapOk(ptr, size[b.addr := b.len], freep, free, alloc + [b], units + b.len, base, b.End())
  {
    GrowAlloc(size, free, alloc, base, top, b);
    GrowList(ptr, size, free, base, top, b);
    SumConcat(alloc, [b]);
  }

  /** Block c places on from f is the first from there with room for n. */
  ghost predicate FirstFit(l: seq<Blk>, f: nat, c: nat, n: nat) {
    && f < |l| && 1 <= c <= |l|
    && l[Wrap(f, c, |l|)].len >= n
    && forall d :: 1 <= d < c ==> l[Wrap(f, d, |l|)].len < n
  }

  /** Where the search loop of free must go on. */
  lemma Elsewhere(l: seq<Blk>, k: nat, j: nat, a: nat)
    requires Apart(l) && |l| >= 1 && l[0].addr < a && k < |l| && j < |l|
    requires forall i :: 0 <= i < |l| ==> (l[i].addr < a <==> i <= k)
    requires forall i :: 0 <= i < |l| ==> l[i].addr != a
    requires var p, q := l[j].addr, l[After(l, j)].addr;
             !(a > p && a < q) && !(p >= q && (a > p || a < q))
    ensures j != k
  {
  }

  /** The place of an allocated block b among the free ones. */
  lemma PlaceOf(b: Blk, ptr: map<nat, nat>, size: map<nat, nat>, l: seq<Blk>, base: nat, top: nat) returns (k: nat)
    requires ListOk(ptr, size, l, base, top) && OneAllocOk(b, size, l, base, top)
    ensures Apart(l) && Threaded(ptr, size, l) && |l| >= 1 && l[0].addr < b.addr && Precedes(l, k, b.addr)
    ensures forall i :: 0 <= i < |l| ==> (l[i].addr < b.addr <==> i <= k)
    ensures forall i :: 0 <= i < |l| ==> l[i].addr != b.addr
  {
    DistinctAddrs(l, b);
    k := PredecessorExists(l, b.addr);
  }

  /** Where it stops, the block found is the predecessor. */
  lemma Found(l: seq<Blk>, k: nat, j: nat, a: nat)
    requires Apart(l) && |l| >= 1 && l[0].addr < a && Precedes(l, k, a) && j < |l|
    requires forall i :: 0 <= i < |l| ==> (l[i].addr < a <==> i <= k)
    requires var p, q := l[j].addr, l[After(l, j)].addr;
             (a > p && a < q) || (p >= q && (a > p || a < q))
    ensures j == k
  {
  }

  class Heap {
    const base: nat
    var ptr: map<nat, nat>
    var size: map<nat, nat>
    var freep: nat            // 0 before the first malloc
    var brk: nat
    ghost var free: seq<Blk>
    ghost var alloc: seq<Blk>
    ghost var units: nat      // units obtained from sbrk so far

    constructor (base: nat, brk: nat)
      requires 0 < base < brk
      ensures Valid() && freep == 0 && alloc == [] && units == 0
    {
      this.base, this.brk := base, brk;
      ptr, size, freep := map[], map[], 0;
      free, alloc, units := [], [], 0;
    }

    ghost predicate Valid()
      reads this
    {
      && 0 < base < brk
      && (freep == 0 ==> free == [] && alloc == [] && units == 0)
      && (freep != 0 ==> HeapOk(ptr, size, freep, free, alloc, units, base, brk))
    }

    /** The search loop of free, which ends at the block before bp, wherever freep points. */
    method FindPlace(bp: nat, ghost b: Blk) returns (p: nat, ghost k: nat)
      requires ListOk(ptr, size, free, base, brk) && OnList(free, freep)
      requires b.addr == bp && OneAllocOk(b, size, free, base, brk)
      ensures Precedes(free, k, bp) && p == free[k].addr
    {
      hide ListOk, OneAllocOk, Apart;
      k := PlaceOf(b, ptr, size, free, base, brk);
      ghost var j :| 0 <= j < |free| && free[j].addr == freep;
      p := freep;
      assert HeaderAt(ptr, size, free, j);
      while !(bp > p && bp < ptr[p])
        invariant 0 <= j < |free| && p == free[j].addr && HeaderAt(ptr, size, free, j)
        decreases if j <= k then k - j else k - j + |free|
      {
        if p >= ptr[p] && (bp > p || bp < ptr[p]) {
          break;
        }
        Elsewhere(free, k, j, bp);
        p := ptr[p];
        j := After(free, j);
        assert HeaderAt(ptr, size, free, j);
      }
      Found(free, k, j, bp);
    }

    /** The assignments of free once the place is found. */
    method Splice(p: nat, bp: nat)
      requires p in ptr && p in size && bp in size && ptr[p] in ptr && ptr[p] in size && p != bp && ptr[p] != bp
      modifies this`ptr, this`size
      ensures ptr == FreedPtr(old(ptr), old(size), p, bp)
      ensures size == FreedSize(old(ptr), old(size), p, bp)
    {
      if bp + size[bp] == ptr[p] {
        size, ptr := size[bp := size[bp] + size[ptr[p]]], ptr[bp := ptr[ptr[p]]];
      } else {
        ptr := ptr[bp := ptr[p]];
      }
      if p + size[p] == bp {
        size, ptr := size[p := size[p] + size[bp]], ptr[p := ptr[bp]];
      } else {
        ptr := ptr[p := bp];
      }
    }

    /** free of the block whose header is at bp, allocated block i. */
    method Free(bp: nat, ghost i: nat)
      requires Valid() && freep != 0 && i < |alloc| && alloc[i].addr == bp
      modifies this`ptr, this`size, this`freep, this`free, this`alloc
      ensures Valid() && freep != 0
      ensures alloc == Without(old(alloc), i)
      ensures exists k :: Precedes(old(free), k, bp) && free == Insert(old(free), k, old(alloc)[i])
    {
      hide HeapOk, ListOk, AllocOk, OneAllocOk, Insert, Sum, Without, OnList, FreedPtr, FreedSize;
      ghost var b := alloc[i];
      HeapParts(ptr, size, freep, free, alloc, units, base, brk);
      AllocAt(alloc, size, free, base, brk, i);
      ghost var k;
      var p;
      p, k := FindPlace(bp, b);
      FreeStep(ptr, size, free, alloc, base, brk, i, k);
      PlacePositive(ptr, size, free, base, brk, k);
      Splice(p, bp);
      freep := p;
      free, alloc := Insert(free, k, b), Without(alloc, i);
    }

    /** The loop of malloc until it comes back to freep: first fit, in list order from freep on. */
    method FindFit(nunits: nat) returns (prevp: nat, p: nat, found: bool, ghost f: nat, ghost c: nat)
      requires ListOk(ptr, size, free, base, brk) && OnList(free, freep) && nunits >= 1
      ensures f < |free| && free[f].addr == freep
      ensures found ==>
                && FirstFit(free, f, c, nunits)
                && p == free[Wrap(f, c, |free|)].addr && prevp == free[Wrap(f, c - 1, |free|)].addr
      ensures !found ==> forall i :: 0 <= i < |free| ==> free[i].len < nunits
    {
      hide Bounded, Apart;
      f :| f < |free| && free[f].addr == freep;
      assert HeaderAt(ptr, size, free, f);
      prevp := freep;
      p := ptr[prevp];
      c := 1;
      assert HeaderAt(ptr, size, free, Wrap(f, 1, |free|));
      while true
        invariant 1 <= c <= |free|
        invariant p == free[Wrap(f, c, |free|)].addr && prevp == free[Wrap(f, c - 1, |free|)].addr
        invariant HeaderAt(ptr, size, free, Wrap(f, c, |free|))
        invariant forall d :: 1 <= d < c ==> free[Wrap(f, d, |free|)].len < nunits
        decreases |free| - c
      {
        if size[p] >= nunits {
          found := true;
          return;
        }
        if p == freep {
          BackAtStart(free, f, c);
          AllTooSmall(free, f, nunits);
          found := false;
          return;
        }
        prevp, p := p, ptr[p];
        c := c + 1;
        assert HeaderAt(ptr, size, free, Wrap(f, c, |free|));
      }
    }

    /** The assignments of malloc at a block that fits: unlink it, or cut the request off its end. */
    method Carve(prevp: nat, pp: nat, nunits: nat, ghost k: nat) returns (p: nat)
      requires 1 <= k < |free| && nunits <= free[k].len && pp == free[k].addr && prevp == free[k - 1].addr
      requires pp in ptr && pp in size && size[pp] == free[k].len
      modifies this`ptr, this`size, this`freep
      ensures ptr == TakenPtr(old(ptr), free, k, nunits) && size == TakenSize(old(size), free, k, nunits)
      ensures freep == prevp && p == free[k].End() - nunits
    {
      p := pp;
      if size[p] == nunits {
        ptr := ptr[prevp := ptr[p]];
      } else {
        size := size[p := size[p] - nunits];
        p := p + size[p];
        size := size[p := nunits];
      }
      freep := prevp;
    }

    /** One search of malloc. 0 says that no block is large enough. */
    method TryAllocate(nunits: nat) returns (r: nat)
      requires Valid() && freep != 0 && nunits >= 1
      modifies this`ptr, this`size, this`freep, this`free, this`alloc
      ensures Valid() && freep != 0
      ensures r == 0 ==> free == old(free) && alloc == old(alloc)
      ensures r == 0 <==> forall i :: 0 <= i < |old(free)| ==> old(free)[i].len < nunits
      ensures r != 0 ==> alloc == old(alloc) + [Blk(r, nunits)] && FirstFitTaken(old(free), old(freep), nunits, free, r)
      ensures units == old(units)
    {
      hide HeapOk, ListOk, AllocOk, Take, Sum, OnList, TakenPtr, TakenSize;
      HeapParts(ptr, size, freep, free, alloc, units, base, brk);
      ghost var f, c;
      var prevp, p, found;
      prevp, p, found, f, c := FindFit(nunits);
      if !found {
        return 0;
      }
      ghost var k := Wrap(f, c, |free|);
      TakeStep(ptr, size, free, alloc, base, brk, k, nunits);
      PlacePositive(ptr, size, free, base, brk, k);
      PlacePositive(ptr, size, free, base, brk, k - 1);
      assert FirstFit(free, f, c, nunits) && free[f].addr == freep;
      r := Carve(prevp, p, nunits, k);
      free, alloc := Take(free, k, nunits), alloc + [Blk(r, nunits)];
    }

    /** sbrk(n units) granted, and the size put in the header of the new block. */
    method Grow(n: nat, gap: nat) returns (p: nat)
      requires Valid() && freep != 0 && n >= 1
      modifies this
      ensures Valid() && freep == old(freep) && free == old(free)
      ensures alloc == old(alloc) + [Blk(p, n)] && units == old(units) + n
    {
      p := brk + gap;
      GrowStep(ptr, size, freep, free, alloc, units, base, brk, Blk(p, n));
      hide HeapOk;
      brk := p + n;
      size := size[p := n];
      alloc, units := alloc + [Blk(p, n)], units + n;
    }

    /** morecore: at least 4096 units from sbrk, put on the list by free. */
    method Morecore(nu: nat, s: Sbrk) returns (ok: bool)
      requires Valid() && freep != 0
      modifies this
      ensures Valid() && freep != 0 && alloc == old(alloc)
      ensures ok <==> s.Granted?
      ensures !ok ==> free == old(free) && units == old(units)
      ensures ok ==> units == old(units) + Max(nu, 4096) && HasRoom(free, nu)
    {
      hide HeapOk, Insert, Precedes;
      if s.Refused? {
        return false;
      }
      var n := Max(nu, 4096);
      var p := Grow(n, s.gap);
      ghost var b := Blk(p, n);
      assert alloc[|alloc| - 1] == b;
      assert Without(alloc, |alloc| - 1) == old(alloc);
      Free(p, |alloc| - 1);
      InsertedRoom(old(free), free, p, b, nu);
      ok := true;
    }

    /** malloc. The block returned is new, of exactly the computed number of units, and cut first-fit;
        sbrk is asked exactly when no block is large enough, and null is returned exactly when it refuses. */
    method Malloc(nbytes: nat, s: Sbrk) returns (r: nat)
      requires Valid() && nbytes < 0x1_0000_0000
      modifies this
      ensures Valid() && freep != 0
      ensures r != 0 ==> alloc == old(alloc) + [Blk(r, Units(nbytes))]
      ensures r == 0 ==> alloc == old(alloc) && units == old(units) && s.Refused?
                         && forall i :: 0 <= i < |free| ==> free[i].len < Units(nbytes)
      ensures old(freep) != 0 && HasRoom(old(free), Units(nbytes)) ==>
                r != 0 && units == old(units) && FirstFitTaken(old(free), old(freep), Units(nbytes), free, r)
      ensures old(freep) == 0 || !HasRoom(old(free), Units(nbytes)) ==>
                && (r != 0 <==> s.Granted?)
                && units == old(units) + (if s.Granted? then Max(Units(nbytes), 4096) else 0)
    {
      hide HeapOk, FirstFitTaken;
      var nunits := Units(nbytes);
      if freep == 0 {
        Start();
      }
      r := TryAllocate(nunits);
      if r == 0 {
        var ok := Morecore(nunits, s);
        if !ok {
          return 0;
        }
        r := TryAllocate(nunits);
      }
    }

    /** The first call of malloc: a list holding only `base`. */
    method Start()
      requires Valid() && freep == 0
      modifies this
      ensures Valid() && freep != 0 && alloc == [] && units == 0 && free == [Blk(base, 0)]
      ensures brk == old(brk)
    {
      ptr, size := ptr[base := base], size[base := 0];
      freep := base;
      free := [Blk(base, 0)];
    }
  }
}
