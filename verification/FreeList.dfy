/** The free list of umalloc.c as a value: blocks in address order, the static `base` first. */
module FreeList {
  import opened Basics

  /** A block of `len` header-sized units at unit address `addr`. */
  datatype Blk = Blk(addr: nat, len: nat) {
    function End(): nat {
      addr + len
    }
  }

  /** In address order, disjoint, and no two of them adjacent. */
  ghost predicate Apart(l: seq<Blk>) {
    forall i, j :: 0 <= i < j < |l| ==> l[i].End() < l[j].addr
  }

  /** b overlaps no block of l. */
  ghost predicate Outside(b: Blk, l: seq<Blk>) {
    forall i :: 0 <= i < |l| ==> b.End() <= l[i].addr || l[i].End() <= b.addr
  }

  function Sum(l: seq<Blk>): (n: nat) {
    if l == [] then 0 else l[0].len + Sum(l[1..])
  }

  lemma {:induction false} SumConcat(l: seq<Blk>, m: seq<Blk>)
    ensures Sum(l + m) == Sum(l) + Sum(m)
  {
    if l == [] {
      assert l + m == m;
    } else {
      SumConcat(l[1..], m);
      assert (l + m)[1..] == l[1..] + m;
    }
  }

  lemma {:induction false} SumSplit(l: seq<Blk>, k: nat)
    requires k < |l|
    ensures Sum(l) == Sum(l[..k]) + l[k].len + Sum(l[k + 1..])
  {
    SumConcat(l[..k], l[k..]);
    assert l == l[..k] + l[k..];
    assert l[k..][1..] == l[k + 1..];
  }

  /** l[k] is the last block before address a. */
  ghost predicate Precedes(l: seq<Blk>, k: nat, a: nat) {
    k < |l| && l[k].addr < a && (k + 1 < |l| ==> a < l[k + 1].addr)
  }

  lemma PredecessorExists(l: seq<Blk>, a: nat) returns (k: nat)
    requires Apart(l) && |l| >= 1 && l[0].addr < a && forall i :: 0 <= i < |l| ==> l[i].addr != a
    ensures Precedes(l, k, a)
    ensures forall i :: 0 <= i < |l| ==> (l[i].addr < a <==> i <= k)
  {
    k := 0;
    while k + 1 < |l| && l[k + 1].addr < a
      invariant 0 <= k < |l| && l[k].addr < a
    {
      k := k + 1;
    }
  }

  /** Whether b joins the block after position k, or the one at k. */
  predicate JoinsUp(l: seq<Blk>, k: nat, b: Blk) {
    k + 1 < |l| && b.End() == l[k + 1].addr
  }

  predicate JoinsDown(l: seq<Blk>, k: nat, b: Blk) {
    k < |l| && l[k].End() == b.addr
  }

  /** b merged with the block after position k, when they touch. */
  function Upper(l: seq<Blk>, k: nat, b: Blk): Blk
    requires k < |l|
  {
    if JoinsUp(l, k, b) then Blk(b.addr, b.len + l[k + 1].len) else b
  }

  function Rest(l: seq<Blk>, k: nat, b: Blk): seq<Blk>
    requires k < |l|
  {
    if JoinsUp(l, k, b) then l[k + 2..] else l[k + 1..]
  }

  /** The list after free() of b behind position k. */
  function Insert(l: seq<Blk>, k: nat, b: Blk): seq<Blk>
    requires k < |l|
  {
    var u := Upper(l, k, b);
    if JoinsDown(l, k, b) then l[..k] + [Blk(l[k].addr, l[k].len + u.len)] + Rest(l, k, b)
    else l[..k + 1] + [u] + Rest(l, k, b)
  }

  /** Every block of l ends before every block of m begins. */
  ghost predicate AllBefore(l: seq<Blk>, m: seq<Blk>) {
    forall i, j :: 0 <= i < |l| && 0 <= j < |m| ==> l[i].End() < m[j].addr
  }

  lemma ApartGlue(l: seq<Blk>, c: Blk, m: seq<Blk>)
    requires Apart(l) && Apart(m) && AllBefore(l, [c]) && AllBefore([c], m)
    ensures Apart(l + [c] + m)
  {
    var z := l + [c] + m;
    forall i, j | 0 <= i < j < |z|
      ensures z[i].End() < z[j].addr
    {
      if i < |l| {
        assert l[i].End() < [c][0].addr;
      }
      if j > |l| {
        assert [c][0].End() < m[j - |l| - 1].addr;
      }
    }
  }

  lemma ApartParts(l: seq<Blk>, k: nat)
    requires Apart(l) && k < |l|
    ensures Apart(l[..k]) && Apart(l[k + 1..]) && AllBefore(l[..k], [l[k]]) && AllBefore([l[k]], l[k + 1..])
    ensures AllBefore(l[..k], l[k + 1..])
  {
  }

  lemma ApartPrefix(l: seq<Blk>, k: nat)
    requires Apart(l) && k <= |l|
    ensures Apart(l[..k])
  {
  }

  /** Freeing keeps the list in order, disjoint and free of adjacent blocks. */
  lemma InsertApart(l: seq<Blk>, k: nat, b: Blk)
    requires Apart(l) && Precedes(l, k, b.addr) && Outside(b, l) && b.len >= 1
    ensures Apart(Insert(l, k, b))
  {
    var u, rest := Upper(l, k, b), Rest(l, k, b);
    assert l[k].End() <= b.addr;
    ApartParts(l, k);
    RestApart(l, k, b);
    hide Apart;
    if JoinsDown(l, k, b) {
      ApartGlue(l[..k], Blk(l[k].addr, l[k].len + u.len), rest);
    } else {
      ApartPrefix(l, k + 1);
      ApartGlue(l[..k + 1], u, rest);
    }
  }

  lemma RestApart(l: seq<Blk>, k: nat, b: Blk)
    requires Apart(l) && Precedes(l, k, b.addr) && Outside(b, l)
    ensures Apart(Rest(l, k, b)) && AllBefore([Upper(l, k, b)], Rest(l, k, b))
  {
    if k + 1 < |l| {
      assert b.End() <= l[k + 1].addr;
    }
  }

  lemma {:induction false} SumThree(l: seq<Blk>, c: Blk, m: seq<Blk>)
    ensures Sum(l + [c] + m) == Sum(l) + c.len + Sum(m)
  {
    SumConcat(l + [c], m);
    SumConcat(l, [c]);
  }

  lemma {:induction false} UpperSum(l: seq<Blk>, k: nat, b: Blk)
    requires k < |l|
    ensures Upper(l, k, b).len + Sum(Rest(l, k, b)) == b.len + Sum(l[k + 1..])
  {
    if JoinsUp(l, k, b) {
      assert l[k + 1..][1..] == l[k + 2..];
    }
  }

  lemma {:induction false} SumUpto(l: seq<Blk>, k: nat)
    requires k < |l|
    ensures Sum(l[..k + 1]) == Sum(l[..k]) + l[k].len
  {
    assert l[..k + 1] == l[..k] + [l[k]];
    SumConcat(l[..k], [l[k]]);
  }

  /** Freeing conserves units. */
  lemma {:induction false} InsertSum(l: seq<Blk>, k: nat, b: Blk)
    requires k < |l|
    ensures Sum(Insert(l, k, b)) == Sum(l) + b.len
  {
    hide Sum, Upper, Rest, JoinsUp;
    UpperSum(l, k, b);
    SumSplit(l, k);
    InsertedSum(l, k, b, Upper(l, k, b), Rest(l, k, b));
  }

  lemma {:induction false} InsertedSum(l: seq<Blk>, k: nat, b: Blk, u: Blk, rest: seq<Blk>)
    requires k < |l| && u == Upper(l, k, b) && rest == Rest(l, k, b)
    ensures Sum(Insert(l, k, b)) == Sum(l[..k]) + l[k].len + u.len + Sum(rest)
  {
    hide Sum, Upper, Rest, JoinsUp;
    if JoinsDown(l, k, b) {
      var c := Blk(l[k].addr, l[k].len + u.len);
      assert Insert(l, k, b) == l[..k] + [c] + rest;
      SumThree(l[..k], c, rest);
    } else {
      assert Insert(l, k, b) == l[..k + 1] + [u] + rest;
      SumUpto(l, k);
      SumThree(l[..k + 1], u, rest);
    }
  }

  /** What a free block may come to overlap is what b or an old free block overlapped. */
  lemma InsertOutside(l: seq<Blk>, k: nat, b: Blk, a: Blk)
    requires Apart(l) && Precedes(l, k, b.addr) && Outside(b, l) && b.len >= 1
    requires Outside(a, l) && (a.End() <= b.addr || b.End() <= a.addr) && a.len >= 1
    ensures Outside(a, Insert(l, k, b))
  {
    var m := Insert(l, k, b);
    var rest := Rest(l, k, b);
    assert l[k].End() <= b.addr;
    forall i | 0 <= i < |m|
      ensures a.End() <= m[i].addr || m[i].End() <= a.addr
    {
      if i < k {
        assert m[i] == l[i];
      } else if JoinsDown(l, k, b) && i > k {
        assert m[i] == rest[i - k - 1];
      } else if !JoinsDown(l, k, b) && i > k + 1 {
        assert m[i] == rest[i - k - 2];
      }
    }
  }

  /** The list after malloc takes n units from the end of block k. */
  function Take(l: seq<Blk>, k: nat, n: nat): seq<Blk>
    requires k < |l| && n <= l[k].len
  {
    if l[k].len == n then Without(l, k) else l[k := Blk(l[k].addr, l[k].len - n)]
  }

  /** Allocation keeps the list apart and hands out a block of its own. */
  lemma TakeApart(l: seq<Blk>, k: nat, n: nat)
    requires Apart(l) && k < |l| && 1 <= n <= l[k].len
    ensures Apart(Take(l, k, n))
    ensures Outside(Blk(l[k].End() - n, n), Take(l, k, n))
  {
    var m := Take(l, k, n);
    if l[k].len == n {
      assert forall i :: 0 <= i < |m| ==> m[i] == if i < k then l[i] else l[i + 1];
    }
  }

  /** Allocation conserves units. */
  lemma {:induction false} TakeSum(l: seq<Blk>, k: nat, n: nat)
    requires k < |l| && n <= l[k].len
    ensures Sum(Take(l, k, n)) + n == Sum(l)
  {
    hide Sum;
    SumSplit(l, k);
    if l[k].len == n {
      SumConcat(l[..k], l[k + 1..]);
    } else {
      var m := Take(l, k, n);
      SumSplit(m, k);
      assert m[..k] == l[..k] && m[k + 1..] == l[k + 1..];
    }
  }

  lemma TakeOutside(l: seq<Blk>, k: nat, n: nat, a: Blk)
    requires k < |l| && 1 <= n <= l[k].len && Outside(a, l)
    ensures Outside(a, Take(l, k, n))
    ensures var b := Blk(l[k].End() - n, n); a.End() <= b.addr || b.End() <= a.addr
  {
    var m := Take(l, k, n);
    if l[k].len == n {
      assert forall i :: 0 <= i < |m| ==> m[i] == if i < k then l[i] else l[i + 1];
    }
  }

  /** Properties of every block of a list that freeing and allocating pass on. */
  ghost predicate Bounded(l: seq<Blk>, base: nat, top: nat) {
    && |l| >= 1 && l[0] == Blk(base, 0)
    && (forall i :: 1 <= i < |l| ==> l[i].len >= 1)
    && (forall i :: 0 <= i < |l| ==> l[i].End() <= top)
  }

  lemma InsertBounded(l: seq<Blk>, k: nat, b: Blk, base: nat, top: nat)
    requires Bounded(l, base, top) && Apart(l) && Precedes(l, k, b.addr) && Outside(b, l) && b.len >= 1
    requires base < b.addr && b.End() <= top
    ensures Bounded(Insert(l, k, b), base, top)
  {
    var m, rest := Insert(l, k, b), Rest(l, k, b);
    forall i | 0 <= i < |m|
      ensures m[i].End() <= top && (i >= 1 ==> m[i].len >= 1)
    {
      if i < k {
        assert m[i] == l[i];
      } else if JoinsDown(l, k, b) && i > k {
        assert m[i] == rest[i - k - 1];
      } else if !JoinsDown(l, k, b) && i > k + 1 {
        assert m[i] == rest[i - k - 2];
      }
    }
  }

  /** The block at position k is still there, perhaps larger. */
  lemma InsertKeepsAnchor(l: seq<Blk>, k: nat, b: Blk)
    requires k < |l|
    ensures k < |Insert(l, k, b)| && Insert(l, k, b)[k].addr == l[k].addr
    ensures exists i :: 0 <= i < |Insert(l, k, b)| && Insert(l, k, b)[i].len >= b.len
  {
    var m := Insert(l, k, b);
    if JoinsDown(l, k, b) {
      assert m[k].len >= b.len;
    } else {
      assert m[k + 1].len >= b.len;
    }
  }

  lemma TakeBounded(l: seq<Blk>, k: nat, n: nat, base: nat, top: nat)
    requires Bounded(l, base, top) && k < |l| && 1 <= n <= l[k].len
    ensures k >= 1 && Bounded(Take(l, k, n), base, top)
  {
    var m := Take(l, k, n);
    if l[k].len == n {
      assert forall i :: 0 <= i < |m| ==> m[i] == if i < k then l[i] else l[i + 1];
    }
  }

  lemma OnePredecessor(l: seq<Blk>, j: nat, k: nat, a: nat)
    requires Apart(l) && Precedes(l, j, a) && Precedes(l, k, a)
    ensures j == k
  {
  }

  /** Freeing the block just allocated puts the list back as it was. */
  lemma FreeUndoesMalloc(l: seq<Blk>, k: nat, n: nat, j: nat)
    requires Apart(l) && 1 <= k < |l| && 1 <= n <= l[k].len
    requires Precedes(Take(l, k, n), j, l[k].End() - n)
    ensures Insert(Take(l, k, n), j, Blk(l[k].End() - n, n)) == l
  {
    hide Apart, Insert, Precedes;
    TakeApart(l, k, n);
    if l[k].len == n {
      assert Take(l, k, n) == Without(l, k) && Blk(l[k].End() - n, n) == l[k];
      UndoWhole(l, k, j);
    } else {
      UndoPart(l, k, n, j);
    }
  }

  lemma UndoWhole(l: seq<Blk>, k: nat, j: nat)
    requires Apart(l) && 1 <= k < |l| && l[k].len >= 1 && Apart(Without(l, k)) && Precedes(Without(l, k), j, l[k].addr)
    ensures Insert(Without(l, k), j, l[k]) == l
  {
    var m := Without(l, k);
    assert m[k - 1] == l[k - 1] && (k < |m| ==> m[k] == l[k + 1]);
    OnePredecessor(m, j, k - 1, l[k].addr);
    assert l[k - 1].End() < l[k].addr && (k < |m| ==> l[k].End() < l[k + 1].addr);
    hide Apart;
    assert Insert(m, j, l[k]) == m[..k] + [l[k]] + m[k..];
    assert m[..k] == l[..k] && m[k..] == l[k + 1..];
  }

  lemma UndoPart(l: seq<Blk>, k: nat, n: nat, j: nat)
    requires Apart(l) && k < |l| && 1 <= n < l[k].len && Apart(Take(l, k, n))
    requires Precedes(Take(l, k, n), j, l[k].End() - n)
    ensures Insert(Take(l, k, n), j, Blk(l[k].End() - n, n)) == l
  {
    var m, b := Take(l, k, n), Blk(l[k].End() - n, n);
    assert m[k].addr < b.addr && (k + 1 < |m| ==> l[k].End() < m[k + 1].addr);
    OnePredecessor(m, j, k, b.addr);
    hide Apart;
    assert Insert(m, j, b) == m[..k] + [l[k]] + m[k + 1..];
    assert m[..k] == l[..k] && m[k + 1..] == l[k + 1..];
  }
}
