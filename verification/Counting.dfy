/** Counting the elements of a sequence that satisfy a predicate. */
module Counting {

  function Bit(b: bool): nat {
    if b then 1 else 0
  }

  ghost function Count<T>(s: seq<T>, f: T -> bool): (n: nat)
    ensures n <= |s|
  {
    if s == [] then 0 else Bit(f(s[0])) + Count(s[1..], f)
  }

  lemma {:induction false} CountUpdate<T>(s: seq<T>, t: nat, x: T, f: T -> bool)
    requires t < |s|
    ensures Count(s[t := x], f) == Count(s, f) - Bit(f(s[t])) + Bit(f(x))
  {
    if t == 0 {
      assert s[t := x][1..] == s[1..];
    } else {
      CountUpdate(s[1..], t - 1, x, f);
      assert s[t := x][1..] == s[1..][t - 1 := x];
    }
  }

  lemma {:induction false} CountOne<T>(s: seq<T>, t: nat, f: T -> bool)
    requires t < |s| && f(s[t])
    ensures Count(s, f) >= 1
  {
    if t > 0 {
      CountOne(s[1..], t - 1, f);
    }
  }

  lemma {:induction false} CountTwo<T>(s: seq<T>, t: nat, u: nat, f: T -> bool)
    requires t < u < |s| && f(s[t]) && f(s[u])
    ensures Count(s, f) >= 2
  {
    if t == 0 {
      CountOne(s[1..], u - 1, f);
    } else {
      CountTwo(s[1..], t - 1, u - 1, f);
    }
  }

  /** An element in class f counts, and if the class has one member it is the only one. */
  lemma CountMember<T>(s: seq<T>, t: nat, f: T -> bool)
    requires t < |s|
    ensures f(s[t]) ==> Count(s, f) >= 1
    ensures f(s[t]) && Count(s, f) == 1 ==> forall u :: 0 <= u < |s| && u != t ==> !f(s[u])
  {
    if f(s[t]) {
      CountOne(s, t, f);
      forall u | 0 <= u < |s| && u != t && f(s[u])
        ensures Count(s, f) >= 2
      {
        if u < t {
          CountTwo(s, u, t, f);
        } else {
          CountTwo(s, t, u, f);
        }
      }
    }
  }

  lemma {:induction false} CountWitness<T>(s: seq<T>, f: T -> bool) returns (t: nat)
    requires Count(s, f) >= 1
    ensures t < |s| && f(s[t])
  {
    if f(s[0]) {
      t := 0;
    } else {
      var u := CountWitness(s[1..], f);
      t := u + 1;
    }
  }

  lemma {:induction false} CountNone<T>(s: seq<T>, f: T -> bool)
    requires forall t :: 0 <= t < |s| ==> !f(s[t])
    ensures Count(s, f) == 0
  {
    if s != [] {
      CountNone(s[1..], f);
    }
  }

  /** Counts over two sequences that agree class by class. */
  lemma {:induction false} CountSame<T>(s: seq<T>, t: seq<T>, f: T -> bool, g: T -> bool)
    requires |s| == |t| && forall i :: 0 <= i < |s| ==> (f(s[i]) <==> g(t[i]))
    ensures Count(s, f) == Count(t, g)
  {
    if s != [] {
      assert s[0] == s[0] && (f(s[0]) <==> g(t[0]));
      CountSame(s[1..], t[1..], f, g);
    }
  }
}
