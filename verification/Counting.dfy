/** How many elements of a sequence have a property, and what that says of its sorted elements. */
module Counting {
  import opened Sorting

  /** How many elements have the property. */
  function Count<T>(s: seq<T>, p: T -> bool): (n: nat) {
    if s == [] then 0 else Count(s[1..], p) + if p(s[0]) then 1 else 0
  }

  lemma {:induction false} CountConcat<T>(a: seq<T>, b: seq<T>, p: T -> bool)
    ensures Count(a + b, p) == Count(a, p) + Count(b, p)
  {
    if a == [] {
      assert a + b == b;
    } else {
      CountConcat(a[1..], b, p);
      assert (a + b)[1..] == a[1..] + b;
    }
  }

  lemma {:induction false} CountAll<T>(s: seq<T>, p: T -> bool)
    ensures Count(s, p) <= |s|
    ensures (forall k :: 0 <= k < |s| ==> p(s[k])) ==> Count(s, p) == |s|
  {
    if s != [] {
      CountAll(s[1..], p);
      assert forall k :: 0 <= k < |s| - 1 ==> s[1..][k] == s[k + 1];
    }
  }

  lemma CountSlice<T>(s: seq<T>, p: T -> bool, lo: nat, hi: nat)
    requires lo <= hi <= |s| && forall k :: lo <= k < hi ==> p(s[k])
    ensures Count(s, p) >= hi - lo
  {
    assert s == s[..lo] + (s[lo..hi] + s[hi..]);
    CountConcat(s[..lo], s[lo..hi] + s[hi..], p);
    CountConcat(s[lo..hi], s[hi..], p);
    CountAll(s[lo..hi], p);
  }

  lemma CountWithout<T>(s: seq<T>, k: nat, p: T -> bool)
    requires k < |s|
    ensures Count(s, p) == Count(s[..k] + s[k + 1..], p) + if p(s[k]) then 1 else 0
  {
    assert s == s[..k] + ([s[k]] + s[k + 1..]);
    CountConcat(s[..k], [s[k]] + s[k + 1..], p);
    CountConcat(s[..k], s[k + 1..], p);
    assert ([s[k]] + s[k + 1..])[1..] == s[k + 1..];
  }

  lemma {:induction false} CountForgetsOrder<T>(a: seq<T>, b: seq<T>, p: T -> bool)
    requires multiset(a) == multiset(b)
    ensures Count(a, p) == Count(b, p)
  {
    SameMembers(a, b);
    if a != [] {
      var k := TakeHead(a, b);
      CountForgetsOrder(a[1..], b[..k] + b[k + 1..], p);
      CountWithout(b, k, p);
    }
  }

  lemma SortedSides<T(!new)>(t: seq<T>, leq: (T, T) -> bool, k: nat, below: T -> bool, above: T -> bool)
    requires TotalPreorder(leq) && Sorted(t, leq) && k < |t|
    requires forall x :: leq(x, t[k]) ==> below(x)
    requires forall x :: leq(t[k], x) ==> above(x)
    ensures Count(t, below) >= k + 1 && Count(t, above) >= |t| - k
  {
    forall i | 0 <= i < |t|
      ensures i <= k ==> below(t[i])
      ensures k <= i ==> above(t[i])
    {
      assert leq(t[k], t[k]);
    }
    CountSlice(t, below, 0, k + 1);
    CountSlice(t, above, k, |t|);
  }

  /** The k-th element in order: more than k elements are no greater, and no more than k are smaller. */
  lemma OrderStatistic<T(!new)>(s: seq<T>, t: seq<T>, leq: (T, T) -> bool, k: nat, below: T -> bool, above: T -> bool)
    requires TotalPreorder(leq) && k < |s| && t == Sort(s, leq)
    requires forall x :: leq(x, t[k]) ==> below(x)
    requires forall x :: leq(t[k], x) ==> above(x)
    ensures t[k] in s && Count(s, below) >= k + 1 && Count(s, above) >= |s| - k
  {
    SortSorted(s, leq);
    SameMembers(t, s);
    SortedSides(t, leq, k, below, above);
    CountForgetsOrder(t, s, below);
    CountForgetsOrder(t, s, above);
  }
}
