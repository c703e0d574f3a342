/** The physical page allocator of kalloc.c: a list threaded through the free pages themselves. */
module Kmem {
  import opened Basics
  import opened PageTable

  function NextIn(free: seq<nat>, k: nat): nat {
    if k + 1 < |free| then free[k + 1] else 0
  }

  /** The first word of the k-th free page leads to the page after it. */
  predicate Link(mem: seq<Page>, free: seq<nat>, k: nat) {
    k < |free| ==> free[k] < |mem| && mem[free[k]][0] == NextIn(free, k)
  }

  ghost predicate Threaded(mem: seq<Page>, head: nat, free: seq<nat>) {
    head == (if free == [] then 0 else free[0]) && forall k: nat :: Link(mem, free, k)
  }

  lemma PopThreaded(mem: seq<Page>, free: seq<nat>)
    requires free != [] && Threaded(mem, free[0], free)
    ensures free[0] < |mem| && Threaded(mem, mem[free[0]][0], free[1..])
  {
    assert Link(mem, free, 0);
    forall k: nat
      ensures Link(mem, free[1..], k)
    {
      assert Link(mem, free, k + 1);
    }
  }

  lemma PushThreaded(mem: seq<Page>, head: nat, free: seq<nat>, f: nat, p: Page)
    requires Threaded(mem, head, free) && f < |mem| && f !in free && p[0] == head
    ensures Threaded(mem[f := p], f, [f] + free)
  {
    var now, longer := mem[f := p], [f] + free;
    forall k: nat
      ensures Link(now, longer, k)
    {
      if 0 < k < |longer| {
        assert Link(mem, free, k - 1);
        assert longer[k] == free[k - 1];
      }
    }
  }

  lemma StoreThreaded(mem: seq<Page>, head: nat, free: seq<nat>, f: nat, p: Page)
    requires Threaded(mem, head, free) && f < |mem| && f !in free
    ensures Threaded(mem[f := p], head, free)
  {
    var now := mem[f := p];
    forall k: nat
      ensures Link(now, free, k)
    {
      assert Link(mem, free, k);
    }
  }

  predicate Within(low: nat, high: nat, f: nat) {
    low <= f < high
  }

  /** What kfree fills a page with. */
  function Junk(): Page
  {
    seq(1024, _ => 0x01010101)
  }

  class Memory {
    const low: nat
    var mem: seq<Page>
    var freelist: nat
    ghost var free: seq<nat>
    ghost var held: set<nat>

    /** Every page from low up is exactly once on the free list or in use. */
    ghost predicate Valid()
      reads this
    {
      0 < low <= |mem| && Threaded(mem, freelist, free) && Distinct(free)
      && (forall f :: f in held ==> low <= f < |mem|)
      && (forall f :: f in free ==> low <= f < |mem|)
      && (forall f: nat :: low <= f < |mem| ==> (f in free <==> f !in held))
    }

    /** Before kinit nothing is free. */
    constructor (low: nat, mem: seq<Page>)
      requires 0 < low <= |mem|
      ensures Valid() && this.low == low && this.mem == mem && free == []
    {
      this.low := low;
      this.mem := mem;
      freelist := 0;
      free := [];
      held := set f: nat | f < |mem| && Within(low, |mem|, f);
    }

    /** A write to a page in use. */
    method Store(f: nat, p: Page)
      requires Valid() && f in held
      modifies `mem
      ensures Valid() && mem == old(mem)[f := p]
    {
      StoreThreaded(mem, freelist, free, f, p);
      mem := mem[f := p];
    }

    method Kfree(f: nat)
      requires Valid() && f in held
      modifies this
      ensures Valid() && held == old(held) - {f} && free == [f] + old(free)
      ensures mem == old(mem)[f := Junk()[0 := old(freelist)]]
      ensures forall k :: 1 <= k < 1024 ==> mem[f][k] == 0x01010101
    {
      var page: Page := Junk()[0 := freelist];
      PushThreaded(mem, freelist, free, f, page);
      mem := mem[f := page];
      freelist := f;
      free := [f] + free;
      held := held - {f};
    }

    method Kalloc() returns (f: nat)
      requires Valid()
      modifies this
      ensures Valid() && mem == old(mem)
      ensures old(free) == [] ==> f == 0 && held == old(held) && free == old(free)
      ensures old(free) != [] ==> f == old(free)[0] && free == old(free)[1..]
      ensures f != 0 ==> f !in old(held) && held == old(held) + {f} && low <= f < |mem|
      ensures f == 0 ==> old(free) == [] && held == old(held)
    {
      f := freelist;
      assert free != [] ==> free[0] in free;
      if f != 0 {
        PopThreaded(mem, free);
        freelist := mem[f][0];
        ghost var rest := free[1..];
        assert forall g :: g in free <==> g == f || g in rest;
        free := rest;
        held := held + {f};
      }
    }

    /** freerange over whole pages: each of them goes onto the list. */
    method Freerange(first: nat, last: nat)
      requires Valid() && first <= last && forall f :: first <= f < last ==> f in held
      modifies this
      ensures Valid() && held == set f | f in old(held) && !(first <= f < last)
    {
      var f := first;
      while f < last
        invariant first <= f <= last && Valid()
        invariant held == set g | g in old(held) && !(first <= g < f)
      {
        Kfree(f);
        f := f + 1;
      }
    }
  }
}
