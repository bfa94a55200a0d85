/**
 Medians and the Hodges-Lehmann shift of scripts/gl_ab_analyze.py, over the reals.
 */
module Medians {
  import Counting
  import Sorting

  predicate Leq(x: real, y: real) {
    x <= y
  }

  lemma RealOrder()
    ensures Sorting.TotalPreorder(Leq) && Sorting.Antisymmetric(Leq)
  {
  }

  function SortReals(s: seq<real>): (t: seq<real>)
    ensures |t| == |s|
  {
    Sorting.Sort(s, Leq)
  }

  /** The middle of a sorted sequence: its middle element, or the mean of the two middle ones. */
  function Middle(t: seq<real>): (m: real)
    requires t != []
  {
    var n := |t|;
    if n % 2 == 1 then t[n / 2] else (t[n / 2 - 1] + t[n / 2]) / 2.0
  }

  /** `statistics.median`, which refuses an empty sequence. */
  function Median(s: seq<real>): (m: real)
    requires s != []
  {
    Middle(SortReals(s))
  }

  /** The median lies between two elements. */
  lemma MedianIsBetween(s: seq<real>) returns (i: nat, j: nat)
    requires s != []
    ensures i < |s| && j < |s| && s[i] <= Median(s) <= s[j]
  {
    var t, n := SortReals(s), |s|;
    RealOrder();
    Sorting.SortSorted(s, Leq);
    Sorting.SameMembers(t, s);
    assert |t| == n;
    var low := if n % 2 == 1 then n / 2 else n / 2 - 1;
    assert low < n / 2 ==> Leq(t[low], t[n / 2]);
    assert t[low] in s && t[n / 2] in s;
    i :| 0 <= i < |s| && s[i] == t[low];
    j :| 0 <= j < |s| && s[j] == t[n / 2];
  }

  lemma MedianForgetsOrder(a: seq<real>, b: seq<real>)
    requires a != [] && multiset(a) == multiset(b)
    ensures b != [] && Median(a) == Median(b)
  {
    Sorting.SameMembers(a, b);
    RealOrder();
    Sorting.SortForgetsOrder(a, b, Leq);
  }

  // ------------------------------------------------- negation and translation

  function Neg(s: seq<real>): (t: seq<real>)
    ensures |t| == |s| && forall i :: 0 <= i < |s| ==> t[i] == -s[i]
  {
    seq(|s|, i requires 0 <= i < |s| => -s[i])
  }

  function NegRev(s: seq<real>): (t: seq<real>)
    ensures |t| == |s| && forall i :: 0 <= i < |s| ==> t[i] == -s[|s| - 1 - i]
  {
    seq(|s|, i requires 0 <= i < |s| => -s[|s| - 1 - i])
  }

  function Shift(s: seq<real>, c: real): (t: seq<real>)
    ensures |t| == |s| && forall i :: 0 <= i < |s| ==> t[i] == s[i] + c
  {
    seq(|s|, i requires 0 <= i < |s| => s[i] + c)
  }

  /** `t` holds the negatives of what `s` holds, as often. */
  ghost predicate Mirrors(t: seq<real>, s: seq<real>) {
    multiset(t) == multiset(Neg(s))
  }

  lemma NegConcat(s: seq<real>, t: seq<real>)
    ensures Neg(s + t) == Neg(s) + Neg(t)
  {
  }

  lemma NegCons(x: real, s: seq<real>)
    ensures Neg([x] + s) == [-x] + Neg(s)
  {
  }

  lemma NegBehind(x: real, y: real, s: seq<real>, rest: seq<real>)
    requires multiset(Neg(rest)) == multiset([-x]) + multiset(Neg(s))
    ensures multiset(Neg([y] + rest)) == multiset([-x]) + multiset(Neg([y] + s))
  {
    NegCons(y, rest);
    NegCons(y, s);
    assert multiset([-y] + Neg(rest)) == multiset([-y]) + multiset(Neg(rest));
    assert multiset([-y] + Neg(s)) == multiset([-y]) + multiset(Neg(s));
  }

  lemma NegInFront(x: real, s: seq<real>)
    ensures multiset(Neg([x] + s)) == multiset([-x]) + multiset(Neg(s))
  {
    NegCons(x, s);
  }

  lemma {:induction false} NegInsert(x: real, s: seq<real>)
    ensures multiset(Neg(Sorting.Insert(x, s, Leq))) == multiset([-x]) + multiset(Neg(s))
  {
    if s == [] || Leq(x, s[0]) {
      NegInFront(x, s);
      assert s == [] ==> [x] + s == [x];
    } else {
      NegInsert(x, s[1..]);
      NegBehind(x, s[0], s[1..], Sorting.Insert(x, s[1..], Leq));
      assert [s[0]] + s[1..] == s;
    }
  }

  lemma NegSortStep(x: real, rest: seq<real>)
    requires multiset(Neg(SortReals(rest))) == multiset(Neg(rest))
    ensures multiset(Neg(Sorting.Insert(x, SortReals(rest), Leq))) == multiset(Neg([x] + rest))
  {
    NegInsert(x, SortReals(rest));
    NegCons(x, rest);
    assert multiset([-x] + Neg(rest)) == multiset([-x]) + multiset(Neg(rest));
  }

  /** Sorting and negating commute up to order. */
  lemma {:induction false} NegSort(s: seq<real>)
    ensures multiset(Neg(SortReals(s))) == multiset(Neg(s))
  {
    if s != [] {
      NegSort(s[1..]);
      NegSortStep(s[0], s[1..]);
      assert [s[0]] + s[1..] == s;
    }
  }

  lemma NegRevCons(x: real, s: seq<real>)
    ensures NegRev([x] + s) == NegRev(s) + [-x]
  {
    var t := [x] + s;
    forall i | 0 <= i < |t|
      ensures NegRev(t)[i] == (NegRev(s) + [-x])[i]
    {
      assert NegRev(t)[i] == -t[|s| - i];
    }
  }

  lemma {:induction false} NegRevMirrors(s: seq<real>)
    ensures Mirrors(NegRev(s), s)
  {
    if s != [] {
      var x, rest := s[0], s[1..];
      assert s == [x] + rest;
      NegRevMirrors(rest);
      NegRevCons(x, rest);
      NegCons(x, rest);
      assert multiset(NegRev(rest) + [-x]) == multiset(NegRev(rest)) + multiset([-x]);
      assert multiset([-x] + Neg(rest)) == multiset([-x]) + multiset(Neg(rest));
    }
  }

  lemma SortOfMirror(t: seq<real>, s: seq<real>)
    requires Mirrors(t, s)
    ensures SortReals(t) == NegRev(SortReals(s))
  {
    var u := SortReals(s);
    RealOrder();
    Sorting.SortSorted(s, Leq);
    Sorting.SortSorted(t, Leq);
    NegRevMirrors(u);
    NegRevSorted(u);
    NegSort(s);
    Sorting.SortedUnique(NegRev(u), SortReals(t), Leq);
  }

  lemma NegRevSorted(s: seq<real>)
    requires Sorting.Sorted(s, Leq)
    ensures Sorting.Sorted(NegRev(s), Leq)
  {
    forall i, j | 0 <= i < j < |s|
      ensures Leq(NegRev(s)[i], NegRev(s)[j])
    {
      assert Leq(s[|s| - 1 - j], s[|s| - 1 - i]);
    }
  }

  /** Mirrored sequences have opposite medians. */
  lemma MedianOfMirror(t: seq<real>, s: seq<real>)
    requires s != [] && Mirrors(t, s)
    ensures t != [] && Median(t) == -Median(s)
  {
    Sorting.SameMembers(t, Neg(s));
    SortOfMirror(t, s);
    MiddleOfNegRev(SortReals(s));
    assert |SortReals(t)| == |SortReals(s)|;
  }

  lemma MiddleOfNegRev(t: seq<real>)
    requires t != []
    ensures Middle(NegRev(t)) == -Middle(t)
  {
    var n := |t|;
    assert NegRev(t)[n / 2] == -t[n - 1 - n / 2];
    if n % 2 == 0 {
      assert NegRev(t)[n / 2 - 1] == -t[n - 1 - (n / 2 - 1)] == -t[n / 2];
      assert n - 1 - n / 2 == n / 2 - 1;
    } else {
      assert n - 1 - n / 2 == n / 2;
    }
  }

  lemma {:induction false} InsertShift(x: real, s: seq<real>, c: real)
    ensures Sorting.Insert(x + c, Shift(s, c), Leq) == Shift(Sorting.Insert(x, s, Leq), c)
  {
    if s == [] || Leq(x, s[0]) {
      ShiftConcat([x], s, c);
    } else {
      InsertShift(x, s[1..], c);
      assert Shift(s, c)[1..] == Shift(s[1..], c);
      ShiftConcat([s[0]], Sorting.Insert(x, s[1..], Leq), c);
    }
  }

  lemma SortFirst(s: seq<real>)
    requires s != []
    ensures SortReals(s) == Sorting.Insert(s[0], SortReals(s[1..]), Leq)
  {
  }

  lemma {:induction false} SortShift(s: seq<real>, c: real)
    ensures SortReals(Shift(s, c)) == Shift(SortReals(s), c)
  {
    if s == [] {
      assert Shift(s, c) == s;
    } else {
      SortShift(s[1..], c);
      SortFirst(s);
      SortFirst(Shift(s, c));
      assert Shift(s, c)[0] == s[0] + c && Shift(s, c)[1..] == Shift(s[1..], c);
      InsertShift(s[0], SortReals(s[1..]), c);
    }
  }

  lemma MedianOfShift(s: seq<real>, c: real)
    requires s != []
    ensures Median(Shift(s, c)) == Median(s) + c
  {
    SortShift(s, c);
  }

  // --------------------------------------------------- pairwise differences

  function Row(x: real, b: seq<real>): (r: seq<real>)
    ensures |r| == |b| && forall j :: 0 <= j < |b| ==> r[j] == x - b[j]
  {
    seq(|b|, j requires 0 <= j < |b| => x - b[j])
  }

  /** All differences of a sample of `a` and one of `b`, those of the first sample of `a` first. */
  function Diffs(a: seq<real>, b: seq<real>): (d: seq<real>)
    ensures a != [] && b != [] ==> d != []
  {
    if a == [] then [] else Row(a[0], b) + Diffs(a[1..], b)
  }

  /** The Hodges-Lehmann shift, defined when both arms have samples. */
  function HodgesLehmann(a: seq<real>, b: seq<real>): (shift: real)
    requires a != [] && b != []
  {
    Median(Diffs(a, b))
  }

  ghost predicate IsDiff(v: real, a: seq<real>, b: seq<real>) {
    exists x, y :: x in a && y in b && v == x - y
  }

  lemma {:induction false} DiffsAre(a: seq<real>, b: seq<real>)
    ensures forall k :: 0 <= k < |Diffs(a, b)| ==> IsDiff(Diffs(a, b)[k], a, b)
  {
    if a != [] {
      DiffsAre(a[1..], b);
      forall k | 0 <= k < |Diffs(a, b)|
        ensures IsDiff(Diffs(a, b)[k], a, b)
      {
        if k < |b| {
          assert a[0] in a && b[k] in b && Diffs(a, b)[k] == a[0] - b[k];
        } else {
          assert IsDiff(Diffs(a[1..], b)[k - |b|], a[1..], b);
          var x, y :| x in a[1..] && y in b && Diffs(a[1..], b)[k - |b|] == x - y;
          assert x in a;
        }
      }
    }
  }

  function Column(a: seq<real>, y: real): (c: seq<real>)
    ensures |c| == |a| && forall i :: 0 <= i < |a| ==> c[i] == a[i] - y
  {
    seq(|a|, i requires 0 <= i < |a| => a[i] - y)
  }

  lemma RowCons(x: real, b: seq<real>)
    requires b != []
    ensures Row(x, b) == [x - b[0]] + Row(x, b[1..])
  {
  }

  lemma ColumnCons(a: seq<real>, y: real)
    requires a != []
    ensures Column(a, y) == [a[0] - y] + Column(a[1..], y)
  {
  }

  lemma DiffsFirst(a: seq<real>, b: seq<real>)
    requires a != []
    ensures Diffs(a, b) == Row(a[0], b) + Diffs(a[1..], b)
  {
  }

  /** Taking the first column out of a table leaves the other rows and columns together. */
  lemma Regroup(all: seq<real>, below: seq<real>, first: seq<real>, row: seq<real>, column: seq<real>, left: seq<real>,
                others: seq<real>, rest: seq<real>, d: real)
    requires all == first + below && first == [d] + row && column == [d] + left && others == row + rest
    requires multiset(below) == multiset(left) + multiset(rest)
    ensures multiset(all) == multiset(column) + multiset(others)
  {
    assert multiset(all) == multiset([d]) + multiset(row) + multiset(below);
  }

  lemma {:induction false} DiffsByColumn(a: seq<real>, b: seq<real>)
    requires b != []
    ensures multiset(Diffs(a, b)) == multiset(Column(a, b[0])) + multiset(Diffs(a, b[1..]))
  {
    if a != [] {
      var y, bs := b[0], b[1..];
      DiffsByColumn(a[1..], b);
      RowCons(a[0], b);
      ColumnCons(a, y);
      DiffsFirst(a, b);
      DiffsFirst(a, bs);
      Regroup(Diffs(a, b), Diffs(a[1..], b), Row(a[0], b), Row(a[0], bs), Column(a, y), Column(a[1..], y),
              Diffs(a, bs), Diffs(a[1..], bs), a[0] - y);
    }
  }

  lemma {:induction false} DiffsOfNothing(a: seq<real>)
    ensures Diffs(a, []) == []
  {
    if a != [] {
      DiffsOfNothing(a[1..]);
    }
  }

  /** Swapping the arms negates every difference. */
  lemma {:induction false} DiffsMirror(a: seq<real>, b: seq<real>)
    ensures Mirrors(Diffs(b, a), Diffs(a, b))
  {
    if a == [] {
      DiffsOfNothing(b);
    } else {
      var row, column := Row(a[0], b), Column(b, a[0]);
      DiffsMirror(a[1..], b);
      DiffsByColumn(b, a);
      assert column == Neg(row);
      NegConcat(row, Diffs(a[1..], b));
    }
  }

  lemma ShiftConcat(s: seq<real>, t: seq<real>, c: real)
    ensures Shift(s + t, c) == Shift(s, c) + Shift(t, c)
  {
  }

  lemma {:induction false} DiffsOfShift(a: seq<real>, b: seq<real>, c: real)
    ensures Diffs(Shift(a, c), b) == Shift(Diffs(a, b), c)
  {
    if a != [] {
      DiffsOfShift(a[1..], b, c);
      assert Shift(a, c)[1..] == Shift(a[1..], c);
      assert Row(a[0] + c, b) == Shift(Row(a[0], b), c);
      ShiftConcat(Row(a[0], b), Diffs(a[1..], b), c);
    }
  }

  lemma DiffsCons(x: real, a: seq<real>, b: seq<real>)
    ensures Diffs([x] + a, b) == Row(x, b) + Diffs(a, b)
  {
    assert ([x] + a)[1..] == a;
  }

  lemma DiffsConcatStep(x: real, rest: seq<real>, more: seq<real>, b: seq<real>)
    requires Diffs(rest + more, b) == Diffs(rest, b) + Diffs(more, b)
    ensures Diffs([x] + (rest + more), b) == Diffs([x] + rest, b) + Diffs(more, b)
  {
    DiffsCons(x, rest + more, b);
    DiffsCons(x, rest, b);
    Associates(Row(x, b), Diffs(rest, b), Diffs(more, b));
  }

  lemma Associates(a: seq<real>, b: seq<real>, c: seq<real>)
    ensures a + (b + c) == (a + b) + c
  {
  }

  lemma Reassemble(a: seq<real>, more: seq<real>)
    requires a != []
    ensures [a[0]] + a[1..] == a && [a[0]] + (a[1..] + more) == a + more
  {
  }

  lemma {:induction false} DiffsOfConcat(a: seq<real>, more: seq<real>, b: seq<real>)
    ensures Diffs(a + more, b) == Diffs(a, b) + Diffs(more, b)
  {
    if a == [] {
      assert a + more == more;
    } else {
      DiffsOfConcat(a[1..], more, b);
      DiffsConcatStep(a[0], a[1..], more, b);
      Reassemble(a, more);
    }
  }

  lemma {:induction false} DiffsForgetOrder(a: seq<real>, a': seq<real>, b: seq<real>)
    requires multiset(a) == multiset(a')
    ensures multiset(Diffs(a, b)) == multiset(Diffs(a', b))
  {
    if a == [] {
      Sorting.SameMembers(a, a');
    } else {
      var k := Sorting.TakeHead(a, a');
      var left, right := a'[..k], a'[k + 1..];
      DiffsForgetOrder(a[1..], left + right, b);
      DiffsWithout(a, 0, b);
      DiffsWithout(a', k, b);
      assert a[..0] + a[1..] == a[1..];
    }
  }

  lemma DiffsWithout(a: seq<real>, k: nat, b: seq<real>)
    requires k < |a|
    ensures multiset(Diffs(a, b)) == multiset(Row(a[k], b)) + multiset(Diffs(a[..k] + a[k + 1..], b))
  {
    var left, right := a[..k], a[k + 1..];
    assert a == left + ([a[k]] + right);
    DiffsOfConcat(left, [a[k]] + right, b);
    DiffsOfConcat(left, right, b);
    assert ([a[k]] + right)[1..] == right;
  }

  // ------------------------------------------------- laws of the shift

  lemma HodgesLehmannAntisymmetric(a: seq<real>, b: seq<real>)
    requires a != [] && b != []
    ensures HodgesLehmann(b, a) == -HodgesLehmann(a, b)
  {
    DiffsMirror(a, b);
    MedianOfMirror(Diffs(b, a), Diffs(a, b));
  }

  /** Moving the left arm moves the shift as far, and the right arm as far back. */
  lemma HodgesLehmannTranslates(a: seq<real>, b: seq<real>, c: real)
    requires a != [] && b != []
    ensures HodgesLehmann(Shift(a, c), b) == HodgesLehmann(a, b) + c
    ensures HodgesLehmann(a, Shift(b, c)) == HodgesLehmann(a, b) - c
  {
    DiffsOfShift(a, b, c);
    MedianOfShift(Diffs(a, b), c);
    DiffsOfShift(b, a, c);
    MedianOfShift(Diffs(b, a), c);
    HodgesLehmannAntisymmetric(a, b);
    HodgesLehmannAntisymmetric(a, Shift(b, c));
  }

  /** The order of the samples in either arm does not matter. */
  lemma HodgesLehmannForgetsOrder(a: seq<real>, a': seq<real>, b: seq<real>, b': seq<real>)
    requires a != [] && b != [] && multiset(a) == multiset(a') && multiset(b) == multiset(b')
    ensures a' != [] && b' != [] && HodgesLehmann(a, b) == HodgesLehmann(a', b')
  {
    Sorting.SameMembers(a, a');
    Sorting.SameMembers(b, b');
    DiffsForgetOrder(a, a', b);
    MedianForgetsOrder(Diffs(a, b), Diffs(a', b));
    DiffsForgetOrder(b, b', a');
    MedianForgetsOrder(Diffs(b, a'), Diffs(b', a'));
    HodgesLehmannAntisymmetric(a', b);
    HodgesLehmannAntisymmetric(a', b');
  }

  /** `v` lies between two differences of a left and a right sample. */
  ghost predicate Spanned(v: real, a: seq<real>, b: seq<real>) {
    && (exists x, y :: x in a && y in b && x - y <= v)
    && (exists x, y :: x in a && y in b && v <= x - y)
  }

  lemma HodgesLehmannIsSpanned(a: seq<real>, b: seq<real>)
    requires a != [] && b != []
    ensures Spanned(HodgesLehmann(a, b), a, b)
  {
    var d := Diffs(a, b);
    var low, high := MedianIsBetween(d);
    DiffsAre(a, b);
    assert IsDiff(d[low], a, b) && IsDiff(d[high], a, b);
  }

  /** The shift lies in [min a - max b, max a - min b]: within any bounds on the arms. */
  lemma HodgesLehmannBounded(a: seq<real>, b: seq<real>, minA: real, maxA: real, minB: real, maxB: real)
    requires a != [] && b != []
    requires forall x :: x in a ==> minA <= x <= maxA
    requires forall y :: y in b ==> minB <= y <= maxB
    ensures minA - maxB <= HodgesLehmann(a, b) <= maxA - minB
  {
    HodgesLehmannIsSpanned(a, b);
  }

  // ---------------------------------------------------- the middle, by counting

  function AtMost(s: seq<real>, v: real): (n: nat) {
    Counting.Count(s, x => x <= v)
  }

  function AtLeast(s: seq<real>, v: real): (n: nat) {
    Counting.Count(s, x => x >= v)
  }

  /** The k-th smallest value: at least k + 1 elements are no greater and at least n - k no smaller. */
  lemma KthSmallest(s: seq<real>, k: nat)
    requires k < |s|
    ensures var v := SortReals(s)[k]; v in s && AtMost(s, v) >= k + 1 && AtLeast(s, v) >= |s| - k
  {
    var v := SortReals(s)[k];
    RealOrder();
    Counting.OrderStatistic(s, SortReals(s), Leq, k, x => x <= v, x => x >= v);
  }

  lemma {:induction false} CountsApart(s: seq<real>, v: real, w: real)
    ensures v <= w ==> AtMost(s, v) <= AtMost(s, w) && AtLeast(s, w) <= AtLeast(s, v)
    ensures v < w ==> AtMost(s, v) + AtLeast(s, w) <= |s|
  {
    if s != [] {
      CountsApart(s[1..], v, w);
    }
  }

  /** `x` and `y` are the lower and the upper middle of `n` values, of which so many are no greater and no smaller. */
  predicate AreMiddles(n: int, atMostX: nat, atLeastX: nat, atMostY: nat, atLeastY: nat) {
    atMostX >= (n + 1) / 2 && atLeastX >= n / 2 + 1 && atLeastY >= (n + 1) / 2 && atMostY >= n / 2 + 1
  }

  /** The median halves the values: it is the mean of a lower and an upper middle, each with half of them on either side. */
  lemma MedianIsMiddle(s: seq<real>) returns (x: real, y: real)
    requires s != []
    ensures x in s && y in s && Median(s) == (x + y) / 2.0
    ensures AreMiddles(|s|, AtMost(s, x), AtLeast(s, x), AtMost(s, y), AtLeast(s, y))
  {
    var n, t := |s|, SortReals(s);
    x, y := t[(n - 1) / 2], t[n / 2];
    KthSmallest(s, (n - 1) / 2);
    KthSmallest(s, n / 2);
  }

  /** How many pairs of a left and a right sample differ by at most, or at least, `v`. */
  function PairsAtMost(a: seq<real>, b: seq<real>, v: real): (n: nat) {
    if a == [] then 0 else PairsAtMost(a[1..], b, v) + Counting.Count(b, y => a[0] - y <= v)
  }

  function PairsAtLeast(a: seq<real>, b: seq<real>, v: real): (n: nat) {
    if a == [] then 0 else PairsAtLeast(a[1..], b, v) + Counting.Count(b, y => a[0] - y >= v)
  }

  lemma {:induction false} CountOfRow(x: real, b: seq<real>, p: real -> bool, q: real -> bool)
    requires forall y :: q(y) <==> p(x - y)
    ensures Counting.Count(Row(x, b), p) == Counting.Count(b, q)
  {
    if b != [] {
      CountOfRow(x, b[1..], p, q);
      assert Row(x, b)[1..] == Row(x, b[1..]);
    }
  }

  lemma {:induction false} PairsAreDiffs(a: seq<real>, b: seq<real>, v: real)
    ensures AtMost(Diffs(a, b), v) == PairsAtMost(a, b, v) && AtLeast(Diffs(a, b), v) == PairsAtLeast(a, b, v)
  {
    if a != [] {
      var x, rest := a[0], Diffs(a[1..], b);
      PairsAreDiffs(a[1..], b, v);
      Counting.CountConcat(Row(x, b), rest, d => d <= v);
      Counting.CountConcat(Row(x, b), rest, d => d >= v);
      CountOfRow(x, b, d => d <= v, y => x - y <= v);
      CountOfRow(x, b, d => d >= v, y => x - y >= v);
    }
  }

  lemma {:induction false} PairsAreAll(a: seq<real>, b: seq<real>)
    ensures |Diffs(a, b)| == |a| * |b|
  {
    if a != [] {
      PairsAreAll(a[1..], b);
      assert |a| * |b| == |a[1..]| * |b| + |b|;
    }
  }

  /** The shift halves the pairwise differences: as many pairs differ by no more as by no less. */
  lemma HodgesLehmannIsMiddle(a: seq<real>, b: seq<real>) returns (x: real, y: real)
    requires a != [] && b != []
    ensures IsDiff(x, a, b) && IsDiff(y, a, b) && HodgesLehmann(a, b) == (x + y) / 2.0
    ensures AreMiddles(|a| * |b|, PairsAtMost(a, b, x), PairsAtLeast(a, b, x), PairsAtMost(a, b, y), PairsAtLeast(a, b, y))
  {
    x, y := MedianIsMiddle(Diffs(a, b));
    DiffsAre(a, b);
    PairsAreAll(a, b);
    PairsAreDiffs(a, b, x);
    PairsAreDiffs(a, b, y);
  }
}
