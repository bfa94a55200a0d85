/**
 Cutting a sequence into consecutive runs in one pass: a new run opens when the
 next element clashes with an element of the run in progress. The clash is any
 binary relation, so the results hold for every segmenter of this shape.
 */
module GreedyCuts {
  import opened Seqs

  function Flatten<T>(runs: seq<seq<T>>): (s: seq<T>) {
    if runs == [] then [] else Flatten(Front(runs)) + Last(runs)
  }

  ghost predicate Clashes<T(!new)>(run: seq<T>, r: T, clash: (T, T) -> bool) {
    exists i :: 0 <= i < |run| && clash(run[i], r)
  }

  ghost predicate ClashFree<T(!new)>(run: seq<T>, clash: (T, T) -> bool) {
    forall i, j :: 0 <= i < j < |run| ==> !clash(run[i], run[j])
  }

  /** `cut` divides `rs` into non-empty runs, none of which holds a clash. */
  ghost predicate IsCut<T(!new)>(cut: seq<seq<T>>, rs: seq<T>, clash: (T, T) -> bool) {
    && Flatten(cut) == rs
    && forall k :: 0 <= k < |cut| ==> cut[k] != [] && ClashFree(cut[k], clash)
  }

  ghost function CutStep<T(!new)>(runs: seq<seq<T>>, r: T, clash: (T, T) -> bool): (cut: seq<seq<T>>) {
    if runs == [] || Clashes(Last(runs), r, clash) then runs + [[r]]
    else Front(runs) + [Last(runs) + [r]]
  }

  ghost function Greedy<T(!new)>(rs: seq<T>, clash: (T, T) -> bool): (cut: seq<seq<T>>) {
    if rs == [] then [] else CutStep(Greedy(Front(rs), clash), Last(rs), clash)
  }

  lemma FlattenExtend<T>(runs: seq<seq<T>>, run: seq<T>)
    ensures Flatten(runs + [run]) == Flatten(runs) + run
  {
    assert Front(runs + [run]) == runs;
  }

  lemma FlattenInto<T>(runs: seq<seq<T>>, r: T)
    requires runs != []
    ensures Flatten(Front(runs) + [Last(runs) + [r]]) == Flatten(runs) + [r]
  {
    FlattenExtend(Front(runs), Last(runs) + [r]);
  }

  lemma ExtendClashFree<T(!new)>(run: seq<T>, r: T, clash: (T, T) -> bool)
    requires ClashFree(run, clash) && !Clashes(run, r, clash)
    ensures ClashFree(run + [r], clash)
  {
  }

  lemma CutStepIsCut<T(!new)>(runs: seq<seq<T>>, rs: seq<T>, r: T, clash: (T, T) -> bool)
    requires IsCut(runs, rs, clash)
    ensures IsCut(CutStep(runs, r, clash), rs + [r], clash)
  {
    if runs == [] || Clashes(Last(runs), r, clash) {
      FlattenExtend(runs, [r]);
    } else {
      FlattenInto(runs, r);
      ExtendClashFree(Last(runs), r, clash);
    }
  }

  lemma GreedySnoc<T(!new)>(front: seq<T>, r: T, clash: (T, T) -> bool)
    ensures Greedy(front + [r], clash) == CutStep(Greedy(front, clash), r, clash)
  {
    assert Front(front + [r]) == front;
  }

  lemma GreedySnocIsCut<T(!new)>(front: seq<T>, r: T, clash: (T, T) -> bool)
    requires IsCut(Greedy(front, clash), front, clash)
    ensures IsCut(Greedy(front + [r], clash), front + [r], clash)
  {
    GreedySnoc(front, r, clash);
    CutStepIsCut(Greedy(front, clash), front, r, clash);
  }

  /** The greedy pass loses, adds and reorders nothing, and its runs hold no clash. */
  lemma {:induction false} GreedyIsCut<T(!new)>(rs: seq<T>, clash: (T, T) -> bool)
    ensures IsCut(Greedy(rs, clash), rs, clash)
    decreases |rs|
  {
    if rs != [] {
      GreedyIsCut(Front(rs), clash);
      GreedySnocIsCut(Front(rs), Last(rs), clash);
      assert Front(rs) + [Last(rs)] == rs;
    }
  }

  /** Every run but the first opens with an element that clashes with the run before it. */
  ghost predicate OpensOnClash<T(!new)>(cut: seq<seq<T>>, clash: (T, T) -> bool) {
    forall k :: 0 < k < |cut| ==> cut[k] != [] && Clashes(cut[k - 1], cut[k][0], clash)
  }

  lemma {:induction false} GreedyOpensOnClash<T(!new)>(rs: seq<T>, clash: (T, T) -> bool)
    ensures OpensOnClash(Greedy(rs, clash), clash)
    decreases |rs|
  {
    if rs != [] {
      GreedyOpensOnClash(Front(rs), clash);
      GreedyIsCut(Front(rs), clash);
      StepOpensOnClash(Greedy(Front(rs), clash), Last(rs), clash);
    }
  }

  lemma StepOpensOnClash<T(!new)>(runs: seq<seq<T>>, r: T, clash: (T, T) -> bool)
    requires OpensOnClash(runs, clash) && forall k :: 0 <= k < |runs| ==> runs[k] != []
    ensures OpensOnClash(CutStep(runs, r, clash), clash)
  {
    var next := CutStep(runs, r, clash);
    forall k | 0 < k < |next|
      ensures next[k] != [] && Clashes(next[k - 1], next[k][0], clash)
    {
      assert next[k - 1] == runs[k - 1];
      if k < |runs| {
        assert next[k][0] == runs[k][0];
      }
    }
  }

  /** Lexicographic: fewer runs, or as many and a last run that is no longer. */
  ghost predicate NotBehind<T>(a: seq<seq<T>>, b: seq<seq<T>>) {
    |a| < |b| || (|a| == |b| && (a != [] ==> |Last(a)| <= |Last(b)|))
  }

  /** Removing the last element of a cut sequence. */
  ghost function DropLast<T>(cut: seq<seq<T>>): (shorter: seq<seq<T>>)
    requires cut != [] && Last(cut) != []
  {
    if |Last(cut)| == 1 then Front(cut) else Front(cut) + [Front(Last(cut))]
  }

  lemma DropLastIsCut<T(!new)>(cut: seq<seq<T>>, rs: seq<T>, clash: (T, T) -> bool)
    requires rs != [] && IsCut(cut, rs, clash)
    ensures cut != [] && Last(cut) != [] && Last(Last(cut)) == Last(rs)
    ensures IsCut(DropLast(cut), Front(rs), clash)
  {
    assert rs == Flatten(Front(cut)) + Last(cut);
    var run := Last(cut);
    assert Last(rs) == Last(run);
    if |run| == 1 {
      assert Front(rs) == Flatten(Front(cut));
    } else {
      FlattenExtend(Front(cut), Front(run));
      assert Front(rs) == Flatten(Front(cut)) + Front(run);
    }
  }

  /** Two runs that end the same sequence: what the longer one holds apart, so does the shorter. */
  lemma ShorterSuffixNoClash<T(!new)>(before: seq<seq<T>>, shorter: seq<seq<T>>, r: T, clash: (T, T) -> bool)
    requires before != [] && shorter != [] && Flatten(before) == Flatten(shorter)
    requires |Last(before)| <= |Last(shorter)|
    requires !Clashes(Last(shorter), r, clash)
    ensures !Clashes(Last(before), r, clash)
  {
    var whole, mine, theirs := Flatten(before), Last(before), Last(shorter);
    assert whole == Flatten(Front(before)) + mine == Flatten(Front(shorter)) + theirs;
    forall i | 0 <= i < |mine|
      ensures !clash(mine[i], r)
    {
      assert mine[i] == whole[|whole| - |mine| + i] == theirs[|theirs| - |mine| + i];
    }
  }

  lemma NotBehindStep<T(!new)>(before: seq<seq<T>>, cut: seq<seq<T>>, r: T, clash: (T, T) -> bool)
    requires cut != [] && Last(cut) != [] && Last(Last(cut)) == r && ClashFree(Last(cut), clash)
    requires NotBehind(before, DropLast(cut)) && Flatten(before) == Flatten(DropLast(cut))
    ensures NotBehind(CutStep(before, r, clash), cut)
  {
    var shorter := DropLast(cut);
    if |Last(cut)| > 1 && |before| == |shorter| {
      assert !Clashes(Last(shorter), r, clash) by {
        assert forall i :: 0 <= i < |Last(shorter)| ==> Last(shorter)[i] == Last(cut)[i];
      }
      ShorterSuffixNoClash(before, shorter, r, clash);
    }
  }

  /** The greedy pass stays ahead of every clash-free cut of the same sequence. */
  lemma {:induction false} GreedyStaysAhead<T(!new)>(rs: seq<T>, cut: seq<seq<T>>, clash: (T, T) -> bool)
    requires IsCut(cut, rs, clash)
    ensures NotBehind(Greedy(rs, clash), cut)
    decreases |rs|
  {
    if rs != [] {
      DropLastIsCut(cut, rs, clash);
      GreedyStaysAhead(Front(rs), DropLast(cut), clash);
      GreedyIsCut(Front(rs), clash);
      NotBehindStep(Greedy(Front(rs), clash), cut, Last(rs), clash);
    }
  }

  /** No clash-free cut of a sequence has fewer runs than the greedy one. */
  lemma GreedyMinimal<T(!new)>(rs: seq<T>, cut: seq<seq<T>>, clash: (T, T) -> bool)
    requires IsCut(cut, rs, clash)
    ensures |Greedy(rs, clash)| <= |cut|
  {
    GreedyStaysAhead(rs, cut, clash);
  }
}
