/** umalloc.c: malloc and free over header fields in memory, addresses counted in header-sized units. */
module Umalloc {
  import opened Basics
  import opened FreeList

  /** The headers of l: each block's size, and its ptr to the next block, the last one's back to the first. */
  ghost predicate Threaded(ptr: map<nat, nat>, size: map<nat, nat>, l: seq<Blk>) {
    forall i :: 0 <= i < |l| ==> HeaderAt(ptr, size, l, i)
  }

  predicate HeaderAt(ptr: map<nat, nat>, size: map<nat, nat>, l: seq<Blk>, i: nat)
    requires i < |l|
  {
    && l[i].addr in ptr && l[i].addr in size
    && size[l[i].addr] == l[i].len && ptr[l[i].addr] == l[After(l, i)].addr
  }

  ghost predicate Disjoint(s: seq<Blk>) {
    forall i, j :: 0 <= i < |s| && 0 <= j < |s| && i != j ==> s[i].End() <= s[j].addr || s[j].End() <= s[i].addr
  }

  /** sbrk's answer: refused, or memory `gap` units past the current break (others may have moved it). */
  datatype Sbrk = Refused | Granted(gap: nat)

  /** (nbytes + sizeof(Header) - 1) / sizeof(Header) + 1, in 32-bit arithmetic, headers being 8 bytes. */
  function Units(nbytes: nat): (n: nat)
    requires nbytes < 0x1_0000_0000
    ensures n >= 1
  {
    (nbytes + 7) % 0x1_0000_0000 / 8 + 1
  }

  /** The block behind the header has room for the request exactly when the rounding does not wrap, and then one unit
      fewer would not have. */
  lemma UnitsSuffice(nbytes: nat)
    requires nbytes < 0x1_0000_0000
    ensures 8 * (Units(nbytes) - 1) >= nbytes <==> nbytes + 7 < 0x1_0000_0000
    ensures nbytes + 7 < 0x1_0000_0000 ==> 8 * (Units(nbytes) - 2) < nbytes
  {
  }

  // ----- the link surgery of free -----

  function FreedPtr(ptr: map<nat, nat>, size: map<nat, nat>, p: nat, bp: nat): map<nat, nat>
    requires p in ptr && p in size && bp in size && ptr[p] in ptr && ptr[p] in size
  {
    var next := if bp + size[bp] == ptr[p] then ptr[ptr[p]] else ptr[p];
    if p + size[p] == bp then ptr[bp := next][p := next] else ptr[bp := next][p := bp]
  }

  function FreedSize(ptr: map<nat, nat>, size: map<nat, nat>, p: nat, bp: nat): map<nat, nat>
    requires p in ptr && p in size && bp in size && ptr[p] in size
  {
    var len := if bp + size[bp] == ptr[p] then size[bp] + size[ptr[p]] else size[bp];
    if p + size[p] == bp then size[bp := len][p := size[p] + len] else size[bp := len]
  }

  /** Addresses of an apart list are distinct, and b's is not among them. */
  lemma DistinctAddrs(l: seq<Blk>, b: Blk)
    requires Apart(l) && Outside(b, l) && b.len >= 1 && |l| >= 1 && l[0].addr < b.addr
    requires forall i :: 1 <= i < |l| ==> l[i].len >= 1
    ensures forall i, j :: 0 <= i < |l| && 0 <= j < |l| && l[i].addr == l[j].addr ==> i == j
    ensures forall i :: 0 <= i < |l| ==> l[i].addr != b.addr
  {
  }

  ghost predicate DistinctList(l: seq<Blk>) {
    forall i, j :: 0 <= i < |l| && 0 <= j < |l| && l[i].addr == l[j].addr ==> i == j
  }

  function Link(l: seq<Blk>, k: nat, b: Blk): seq<Blk>
    requires k < |l|
  {
    l[..k + 1] + [b] + l[k + 1..]
  }

  function LinkIndex(k: nat, i: nat): int {
    if i <= k then i else i - 1
  }

  lemma LinkDistinct(l: seq<Blk>, k: nat, b: Blk)
    requires DistinctList(l) && k < |l| && forall i :: 0 <= i < |l| ==> l[i].addr != b.addr
    ensures DistinctList(Link(l, k, b))
  {
    var m := Link(l, k, b);
    assert forall i :: 0 <= i < |m| ==> m[i] == if i == k + 1 then b else l[LinkIndex(k, i)];
  }

  /** Threading b in behind position k. */
  lemma LinkThreaded(ptr: map<nat, nat>, size: map<nat, nat>, l: seq<Blk>, k: nat, b: Blk)
    requires Threaded(ptr, size, l) && DistinctList(l) && k < |l|
    requires forall i :: 0 <= i < |l| ==> l[i].addr != b.addr
    requires b.addr in size && size[b.addr] == b.len
    ensures l[k].addr in ptr
    ensures Threaded(ptr[b.addr := ptr[l[k].addr]][l[k].addr := b.addr], size, Link(l, k, b))
  {
    var m, p := Link(l, k, b), l[k].addr;
    assert HeaderAt(ptr, size, l, k);
    var ptr' := ptr[b.addr := ptr[p]][p := b.addr];
    forall i | 0 <= i < |m|
      ensures HeaderAt(ptr', size, m, i)
    {
      if i != k + 1 {
        var i' := LinkIndex(k, i);
        assert HeaderAt(ptr, size, l, i') && m[i] == l[i'];
        assert i != k ==> m[After(m, i)] == l[After(l, i')];
      } else {
        assert m[After(m, i)] == l[After(l, k)];
      }
    }
  }

  /** Block j swallows the one after it. */
  function MergeAt(l: seq<Blk>, j: nat): seq<Blk>
    requires j + 1 < |l|
  {
    l[..j] + [Blk(l[j].addr, l[j].len + l[j + 1].len)] + l[j + 2..]
  }

  function MergeIndex(j: nat, i: nat): nat {
    if i <= j then i else i + 1
  }

  lemma MergeDistinct(l: seq<Blk>, j: nat)
    requires DistinctList(l) && j + 1 < |l|
    ensures DistinctList(MergeAt(l, j))
  {
    var m := MergeAt(l, j);
    assert forall i :: 0 <= i < |m| ==> m[i].addr == l[MergeIndex(j, i)].addr;
  }

  lemma MergeThreaded(ptr: map<nat, nat>, size: map<nat, nat>, l: seq<Blk>, j: nat)
    requires Threaded(ptr, size, l) && DistinctList(l) && j + 1 < |l|
    ensures l[j + 1].addr in ptr && l[j].addr in size && l[j + 1].addr in size
    ensures var p, q := l[j].addr, l[j + 1].addr;
            Threaded(ptr[p := ptr[q]], size[p := size[p] + size[q]], MergeAt(l, j))
  {
    var m, p, q := MergeAt(l, j), l[j].addr, l[j + 1].addr;
    assert HeaderAt(ptr, size, l, j) && HeaderAt(ptr, size, l, j + 1);
    var ptr', size' := ptr[p := ptr[q]], size[p := size[p] + size[q]];
    forall i | 0 <= i < |m|
      ensures HeaderAt(ptr', size', m, i)
    {
      var i' := MergeIndex(j, i);
      assert HeaderAt(ptr, size, l, i') && m[i].addr == l[i'].addr && (i != j ==> m[i] == l[i']);
      assert m[After(m, i)].addr == l[After(l, if i == j then j + 1 else i')].addr;
    }
  }

  /** Following the code of free: the new headers thread the list with b inserted. */
  lemma FreedThreaded(ptr: map<nat, nat>, size: map<nat, nat>, l: seq<Blk>, k: nat, b: Blk)
    requires Threaded(ptr, size, l) && Apart(l) && Precedes(l, k, b.addr) && Outside(b, l) && b.len >= 1
    requires l[0].addr < b.addr && (forall i :: 1 <= i < |l| ==> l[i].len >= 1)
    requires b.addr in size && size[b.addr] == b.len
    ensures var p := l[k].addr;
            && p in ptr && p in size && ptr[p] in ptr && ptr[p] in size
            && Threaded(FreedPtr(ptr, size, p, b.addr), FreedSize(ptr, size, p, b.addr), Insert(l, k, b))
  {
    hide DistinctList;
    DistinctAddrs(l, b);
    ApartDistinct(l);
    var p: nat, q: nat := l[k].addr, l[After(l, k)].addr;
    assert HeaderAt(ptr, size, l, k) && HeaderAt(ptr, size, l, After(l, k));
    NextTouches(l, k, b);
    LinkThreaded(ptr, size, l, k, b);
    LinkDistinct(l, k, b);
    FreedUp(ptr, size, ptr[b.addr := q][p := b.addr], l, k, b);
  }

  lemma NextTouches(l: seq<Blk>, k: nat, b: Blk)
    requires k < |l| && l[0].addr < b.addr
    ensures JoinsUp(l, k, b) <==> b.End() == l[After(l, k)].addr
  {
  }

  /** The first half of free: joining the block after. */
  lemma FreedUp(ptr: map<nat, nat>, size: map<nat, nat>, ptr1: map<nat, nat>, l: seq<Blk>, k: nat, b: Blk)
    requires k < |l| && HeaderAt(ptr, size, l, k) && HeaderAt(ptr, size, l, After(l, k))
    requires b.addr in size && size[b.addr] == b.len
    requires l[k].addr != b.addr && l[After(l, k)].addr != b.addr && (k + 1 < |l| ==> l[k + 1].addr != l[k].addr)
    requires JoinsUp(l, k, b) <==> b.End() == l[After(l, k)].addr
    requires ptr1 == ptr[b.addr := ptr[l[k].addr]][l[k].addr := b.addr]
    requires Threaded(ptr1, size, Link(l, k, b)) && DistinctList(Link(l, k, b))
    ensures Threaded(FreedPtr(ptr, size, l[k].addr, b.addr), FreedSize(ptr, size, l[k].addr, b.addr), Insert(l, k, b))
  {
    hide Threaded, DistinctList;
    var q, l1 := l[After(l, k)].addr, Link(l, k, b);
    if JoinsUp(l, k, b) {
      MergeThreaded(ptr1, size, l1, k + 1);
      MergeDistinct(l1, k + 1);
      assert l1[k + 1] == b && l1[k + 2] == l[k + 1];
      assert MergeAt(l1, k + 1) == l[..k + 1] + [Upper(l, k, b)] + Rest(l, k, b);
      FreedDown(ptr, size, ptr1[b.addr := ptr1[q]], size[b.addr := b.len + size[q]], l, k, b);
    } else {
      FreedDown(ptr, size, ptr1, size, l, k, b);
    }
  }

  /** The second half of free: joining the block before. */
  lemma FreedDown(ptr: map<nat, nat>, size: map<nat, nat>, ptr2: map<nat, nat>, size2: map<nat, nat>,
                  l: seq<Blk>, k: nat, b: Blk)
    requires k < |l| && b.addr in size && size[b.addr] == b.len && l[k].addr != b.addr
    requires l[k].addr in ptr && l[k].addr in size && ptr[l[k].addr] in ptr && ptr[l[k].addr] in size
    requires size[l[k].addr] == l[k].len && (JoinsUp(l, k, b) <==> b.End() == ptr[l[k].addr])
    requires var p, q := l[k].addr, ptr[l[k].addr];
             && (JoinsUp(l, k, b) ==> q != p && q != b.addr)
             && ptr2 == ptr[b.addr := if JoinsUp(l, k, b) then ptr[q] else q][p := b.addr]
             && size2 == if JoinsUp(l, k, b) then size[b.addr := b.len + size[q]] else size
    requires DistinctList(l[..k + 1] + [Upper(l, k, b)] + Rest(l, k, b))
    requires Threaded(ptr2, size2, l[..k + 1] + [Upper(l, k, b)] + Rest(l, k, b))
    ensures Threaded(FreedPtr(ptr, size, l[k].addr, b.addr), FreedSize(ptr, size, l[k].addr, b.addr), Insert(l, k, b))
  {
    hide Threaded, DistinctList;
    var p := l[k].addr;
    var l2 := l[..k + 1] + [Upper(l, k, b)] + Rest(l, k, b);
    if JoinsDown(l, k, b) {
      MergeThreaded(ptr2, size2, l2, k);
      assert MergeAt(l2, k) == Insert(l, k, b);
      assert FreedPtr(ptr, size, p, b.addr) == ptr2[p := ptr2[b.addr]];
      assert FreedSize(ptr, size, p, b.addr) == size2[p := size2[p] + size2[b.addr]];
    } else {
      assert FreedPtr(ptr, size, p, b.addr) == ptr2;
      assert FreedSize(ptr, size, p, b.addr) == size2;
    }
  }

  // ----- the link surgery of malloc -----

  function TakenPtr(ptr: map<nat, nat>, l: seq<Blk>, k: nat, n: nat): map<nat, nat>
    requires 1 <= k < |l| && l[k].addr in ptr
  {
    if l[k].len == n then ptr[l[k - 1].addr := ptr[l[k].addr]] else ptr
  }

  function TakenSize(size: map<nat, nat>, l: seq<Blk>, k: nat, n: nat): map<nat, nat>
    requires k < |l| && n <= l[k].len
  {
    if l[k].len == n then size else size[l[k].addr := l[k].len - n][l[k].End() - n := n]
  }

  lemma ApartDistinct(l: seq<Blk>)
    requires Apart(l)
    ensures DistinctList(l)
  {
    assert forall i, j :: 0 <= i < j < |l| ==> l[i].addr < l[j].addr;
  }

  /** Taking the whole of block k: the block before it is linked past it. */
  lemma UnlinkThreaded(ptr: map<nat, nat>, size: map<nat, nat>, l: seq<Blk>, k: nat)
    requires Threaded(ptr, size, l) && DistinctList(l) && 1 <= k < |l|
    ensures l[k].addr in ptr
    ensures Threaded(ptr[l[k - 1].addr := ptr[l[k].addr]], size, Without(l, k))
  {
    var m, p := Without(l, k), l[k - 1].addr;
    assert HeaderAt(ptr, size, l, k);
    var ptr' := ptr[p := ptr[l[k].addr]];
    forall i | 0 <= i < |m|
      ensures HeaderAt(ptr', size, m, i)
    {
      var i' := if i < k then i else i + 1;
      assert HeaderAt(ptr, size, l, i') && m[i] == l[i'];
      assert m[After(m, i)] == l[After(l, if i == k - 1 then k else i')];
    }
  }

  /** Cutting block k: its front stays on the list, and its last n units get a header of their own. */
  lemma CutThreaded(ptr: map<nat, nat>, size: map<nat, nat>, l: seq<Blk>, k: nat, n: nat)
    requires Threaded(ptr, size, l) && DistinctList(l) && k < |l| && n < l[k].len
    requires forall i :: 0 <= i < |l| ==> l[i].addr != l[k].End() - n
    ensures Threaded(ptr, size[l[k].addr := l[k].len - n][l[k].End() - n := n], l[k := Blk(l[k].addr, l[k].len - n)])
  {
    var m := l[k := Blk(l[k].addr, l[k].len - n)];
    var size' := size[l[k].addr := l[k].len - n][l[k].End() - n := n];
    forall i | 0 <= i < |m|
      ensures HeaderAt(ptr, size', m, i)
    {
      assert HeaderAt(ptr, size, l, i) && m[i].addr == l[i].addr && (i != k ==> m[i] == l[i]);
      assert m[After(m, i)].addr == l[After(l, i)].addr;
    }
  }

  lemma TakenThreaded(ptr: map<nat, nat>, size: map<nat, nat>, l: seq<Blk>, k: nat, n: nat)
    requires Threaded(ptr, size, l) && Apart(l) && 1 <= k < |l| && 1 <= n <= l[k].len
    ensures l[k].addr in ptr
    ensures Threaded(TakenPtr(ptr, l, k, n), TakenSize(size, l, k, n), Take(l, k, n))
    ensures l[k].addr in size && TakenSize(size, l, k, n)[l[k].End() - n] == n
  {
    assert HeaderAt(ptr, size, l, k);
    ApartDistinct(l);
    if l[k].len == n {
      UnlinkThreaded(ptr, size, l, k);
    } else {
      forall i | 0 <= i < |l|
        ensures l[i].addr != l[k].End() - n
      {
        assert i < k ==> l[i].End() < l[k].addr;
        assert i > k ==> l[k].End() < l[i].addr;
      }
      CutThreaded(ptr, size, l, k, n);
    }
  }
}
