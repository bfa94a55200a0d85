/**
 scripts/gl_ab_analyze.py: the bootstrap interval, the exposure-matched strata, and
 the contrast that either refuses or reports a shift between two arms.
 */
module Contrast {
  import opened Options
  import opened Medians
  import Sorting

  datatype Sample = Sample(cores: real, exposure: int)

  // ------------------------------------------------------------- bootstrap

  const ROUNDS: nat := 2000

  /** The sorted shifts at 2.5% and just below 97.5%. */
  const LOW: nat := 25 * ROUNDS / 1000
  const HIGH: nat := 975 * ROUNDS / 1000 - 1

  /** One resample of `a`: the generator's choices, round by round, are an arbitrary function. */
  function Resample(a: seq<real>, draws: (nat, nat) -> nat, round: nat, from: nat): (r: seq<real>)
    requires a != []
    ensures |r| == |a| && forall k :: 0 <= k < |r| ==> r[k] in a
  {
    seq(|a|, k requires 0 <= k < |a| => a[draws(round, from + k) % |a|])
  }

  /** One round, which draws |a| and then |b| choices. */
  function RoundShift(a: seq<real>, b: seq<real>, draws: (nat, nat) -> nat, round: nat): (shift: real)
    requires a != [] && b != []
  {
    Median(Resample(a, draws, round, 0)) - Median(Resample(b, draws, round, |a|))
  }

  function Shifts(a: seq<real>, b: seq<real>, draws: (nat, nat) -> nat, rounds: nat): (shifts: seq<real>)
    requires a != [] && b != []
    ensures |shifts| == rounds && forall k :: 0 <= k < rounds ==> shifts[k] == RoundShift(a, b, draws, k)
  {
    seq(rounds, k requires 0 <= k < rounds => RoundShift(a, b, draws, k))
  }

  /** The ends of the interval that the shifts of all rounds give. */
  function Ends(shifts: seq<real>): (ci: (real, real))
    requires |shifts| == ROUNDS
  {
    (SortReals(shifts)[LOW], SortReals(shifts)[HIGH])
  }

  function Bootstrap(a: seq<real>, b: seq<real>, draws: (nat, nat) -> nat): (ci: (real, real))
    requires a != [] && b != []
  {
    Ends(Shifts(a, b, draws, ROUNDS))
  }

  method BootstrapCI(a: seq<real>, b: seq<real>, draws: (nat, nat) -> nat) returns (lo: real, hi: real)
    requires a != [] && b != []
    ensures (lo, hi) == Bootstrap(a, b, draws)
  {
    var shifts: seq<real> := [];
    for round := 0 to ROUNDS
      invariant shifts == Shifts(a, b, draws, round)
    {
      shifts := shifts + [RoundShift(a, b, draws, round)];
    }
    shifts := SortReals(shifts);
    return shifts[LOW], shifts[HIGH];
  }

  lemma RoundShiftIsSpanned(a: seq<real>, b: seq<real>, draws: (nat, nat) -> nat, round: nat)
    requires a != [] && b != []
    ensures Spanned(RoundShift(a, b, draws, round), a, b)
  {
    var ra, rb := Resample(a, draws, round, 0), Resample(b, draws, round, |a|);
    var i, i' := MedianIsBetween(ra);
    var j', j := MedianIsBetween(rb);
    assert ra[i] in a && rb[j] in b && ra[i'] in a && rb[j'] in b;
    assert ra[i] - rb[j] <= Median(ra) - Median(rb) <= ra[i'] - rb[j'];
  }

  lemma ShiftsAreSpanned(a: seq<real>, b: seq<real>, draws: (nat, nat) -> nat, rounds: nat)
    requires a != [] && b != []
    ensures forall v :: v in Shifts(a, b, draws, rounds) ==> Spanned(v, a, b)
  {
    forall k: nat | k < rounds
      ensures Spanned(Shifts(a, b, draws, rounds)[k], a, b)
    {
      RoundShiftIsSpanned(a, b, draws, k);
    }
  }

  /** Both ends are shifts of some round, and they are in order. */
  lemma BootstrapIsSpanned(a: seq<real>, b: seq<real>, draws: (nat, nat) -> nat)
    requires a != [] && b != []
    ensures var (lo, hi) := Bootstrap(a, b, draws); lo <= hi && Spanned(lo, a, b) && Spanned(hi, a, b)
  {
    var raw := Shifts(a, b, draws, ROUNDS);
    var shifts := SortReals(raw);
    RealOrder();
    Sorting.SortSorted(raw, Leq);
    Sorting.SameMembers(shifts, raw);
    assert Leq(shifts[LOW], shifts[HIGH]);
    ShiftsAreSpanned(a, b, draws, ROUNDS);
    assert shifts[LOW] in shifts && shifts[HIGH] in shifts;
  }

  // ---------------------------------------------------------------- strata

  function Cores(rows: seq<Sample>): (cores: seq<real>)
    ensures |cores| == |rows| && forall k :: 0 <= k < |rows| ==> cores[k] == rows[k].cores
  {
    seq(|rows|, k requires 0 <= k < |rows| => rows[k].cores)
  }

  /** Ten exposures to a bin, by floor division. */
  function BinOf(row: Sample): (bin: int) {
    row.exposure / 10
  }

  function BinValues(rows: seq<Sample>, bin: int): (values: seq<real>) {
    if rows == [] then []
    else
      var last := rows[|rows| - 1];
      BinValues(rows[..|rows| - 1], bin) + if BinOf(last) == bin then [last.cores] else []
  }

  /** The bins in order of first appearance, each once. */
  function Bins(rows: seq<Sample>): (bins: seq<int>) {
    if rows == [] then []
    else
      var before := Bins(rows[..|rows| - 1]);
      var bin := BinOf(rows[|rows| - 1]);
      if bin in before then before else before + [bin]
  }

  predicate IntLeq(x: int, y: int) {
    x <= y
  }

  function Both(bins: seq<int>, other: seq<int>): (both: seq<int>) {
    if bins == [] then []
    else
      var last := bins[|bins| - 1];
      Both(bins[..|bins| - 1], other) + if last in other then [last] else []
  }

  /** The bins both arms have samples in, in increasing order. */
  function SharedBins(a: seq<Sample>, b: seq<Sample>): (bins: seq<int>) {
    Sorting.Sort(Both(Bins(a), Bins(b)), IntLeq)
  }

  function Collect(rows: seq<Sample>, bins: seq<int>): (values: seq<real>) {
    if bins == [] then [] else Collect(rows, bins[..|bins| - 1]) + BinValues(rows, bins[|bins| - 1])
  }

  method GroupByBin(rows: seq<Sample>) returns (bins: map<int, seq<real>>, order: seq<int>)
    ensures order == Bins(rows) && forall bin :: bin in bins <==> bin in order
    ensures forall bin :: bin in bins ==> bins[bin] == BinValues(rows, bin)
    ensures forall bin :: bin !in bins ==> BinValues(rows, bin) == []
  {
    bins, order := map[], [];
    for i := 0 to |rows|
      invariant order == Bins(rows[..i])
      invariant forall bin :: bin in bins <==> bin in order
      invariant forall bin :: bin in bins ==> bins[bin] == BinValues(rows[..i], bin)
      invariant forall bin :: bin !in bins ==> BinValues(rows[..i], bin) == []
    {
      assert rows[..i + 1][..i] == rows[..i];
      var bin := BinOf(rows[i]);
      if bin !in bins {
        bins, order := bins[bin := []], order + [bin];
      }
      bins := bins[bin := bins[bin] + [rows[i].cores]];
    }
    assert rows[..|rows|] == rows;
  }

  method SharedOf(orderA: seq<int>, orderB: seq<int>) returns (shared: seq<int>)
    ensures shared == Sorting.Sort(Both(orderA, orderB), IntLeq)
    ensures forall k :: 0 <= k < |shared| ==> shared[k] in orderA && shared[k] in orderB
  {
    var both: seq<int> := [];
    for i := 0 to |orderA|
      invariant both == Both(orderA[..i], orderB)
    {
      assert orderA[..i + 1][..i] == orderA[..i];
      if orderA[i] in orderB {
        both := both + [orderA[i]];
      }
    }
    assert orderA[..|orderA|] == orderA;
    shared := Sorting.Sort(both, IntLeq);
    SharedMembers(orderA, orderB);
  }

  method CollectBins(rows: seq<Sample>, bins: map<int, seq<real>>, shared: seq<int>) returns (values: seq<real>)
    requires forall k :: 0 <= k < |shared| ==> shared[k] in bins && bins[shared[k]] == BinValues(rows, shared[k])
    ensures values == Collect(rows, shared)
  {
    values := [];
    for i := 0 to |shared|
      invariant values == Collect(rows, shared[..i])
    {
      assert shared[..i + 1][..i] == shared[..i];
      values := values + bins[shared[i]];
    }
    assert shared[..|shared|] == shared;
  }

  method MatchedStrata(a: seq<Sample>, b: seq<Sample>) returns (sa: seq<real>, sb: seq<real>)
    ensures sa == Collect(a, SharedBins(a, b)) && sb == Collect(b, SharedBins(a, b))
  {
    var binsA, orderA := GroupByBin(a);
    var binsB, orderB := GroupByBin(b);
    var shared := SharedOf(orderA, orderB);
    sa := CollectBins(a, binsA, shared);
    sb := CollectBins(b, binsB, shared);
  }

  lemma {:induction false} BothMembers(bins: seq<int>, other: seq<int>)
    ensures forall bin :: bin in Both(bins, other) <==> bin in bins && bin in other
    decreases |bins|
  {
    if bins != [] {
      BothMembers(bins[..|bins| - 1], other);
      assert bins == bins[..|bins| - 1] + [bins[|bins| - 1]];
    }
  }

  lemma SharedMembers(bins: seq<int>, other: seq<int>)
    ensures var shared := Sorting.Sort(Both(bins, other), IntLeq);
      && (forall bin :: bin in shared <==> bin in bins && bin in other)
      && (forall k :: 0 <= k < |shared| ==> shared[k] in bins && shared[k] in other)
  {
    var both := Both(bins, other);
    BothMembers(bins, other);
    Sorting.SortPermutes(both, IntLeq);
    Sorting.SameMembers(Sorting.Sort(both, IntLeq), both);
  }

  lemma {:induction false} BinsMembers(rows: seq<Sample>, bin: int)
    ensures bin in Bins(rows) <==> BinValues(rows, bin) != []
    ensures forall v :: v in BinValues(rows, bin) ==> v in Cores(rows)
    decreases |rows|
  {
    if rows != [] {
      var before, last := rows[..|rows| - 1], rows[|rows| - 1];
      BinsMembers(before, bin);
      assert Cores(rows) == Cores(before) + [last.cores];
    }
  }

  lemma {:induction false} CollectMembers(rows: seq<Sample>, bins: seq<int>)
    ensures forall v :: v in Collect(rows, bins) ==> v in Cores(rows)
    ensures (exists bin :: bin in bins && bin in Bins(rows)) ==> Collect(rows, bins) != []
    decreases |bins|
  {
    if bins != [] {
      var before, last := bins[..|bins| - 1], bins[|bins| - 1];
      assert bins == before + [last];
      CollectMembers(rows, before);
      BinsMembers(rows, last);
    }
  }

  /** Strata are matched: both sides have values or neither has, and all are samples of their arm. */
  lemma StrataAreMatched(a: seq<Sample>, b: seq<Sample>)
    ensures var shared := SharedBins(a, b); var sa, sb := Collect(a, shared), Collect(b, shared);
      && (sa == [] <==> shared == []) && (sb == [] <==> shared == [])
      && (forall v :: v in sa ==> v in Cores(a)) && (forall v :: v in sb ==> v in Cores(b))
      && (forall bin :: bin in shared <==> bin in Bins(a) && bin in Bins(b))
  {
    var shared := SharedBins(a, b);
    SharedMembers(Bins(a), Bins(b));
    CollectMembers(a, shared);
    CollectMembers(b, shared);
    if shared != [] {
      assert shared[0] in shared;
    }
  }

  /** The cores of the rows whose bin is among `bins`. */
  function Matching(rows: seq<Sample>, bins: seq<int>): (values: seq<real>) {
    if rows == [] then []
    else
      var last := rows[|rows| - 1];
      Matching(rows[..|rows| - 1], bins) + if BinOf(last) in bins then [last.cores] else []
  }

  ghost predicate Distinct(bins: seq<int>) {
    forall bin {:trigger multiset(bins)[bin]} :: multiset(bins)[bin] <= 1
  }

  lemma DistinctPrefix(before: seq<int>, last: int)
    requires Distinct(before + [last])
    ensures Distinct(before) && last !in before
  {
    assert forall bin :: multiset(before + [last])[bin] == multiset(before)[bin] + multiset([last])[bin];
    assert last in before ==> multiset(before)[last] >= 1;
  }

  lemma {:induction false} CollectOneMore(rows: seq<Sample>, row: Sample, bins: seq<int>)
    requires Distinct(bins)
    ensures multiset(Collect(rows + [row], bins))
      == multiset(Collect(rows, bins)) + if BinOf(row) in bins then multiset([row.cores]) else multiset{}
    decreases |bins|
  {
    if bins != [] {
      var before, last := bins[..|bins| - 1], bins[|bins| - 1];
      assert bins == before + [last];
      DistinctPrefix(before, last);
      CollectOneMore(rows, row, before);
      assert (rows + [row])[..|rows|] == rows;
    }
  }

  lemma {:induction false} CollectIsMatching(rows: seq<Sample>, bins: seq<int>)
    requires Distinct(bins)
    ensures multiset(Collect(rows, bins)) == multiset(Matching(rows, bins))
    decreases |rows|
  {
    if rows == [] {
      CollectNothing(bins);
    } else {
      var before, last := rows[..|rows| - 1], rows[|rows| - 1];
      CollectIsMatching(before, bins);
      CollectOneMore(before, last, bins);
      assert before + [last] == rows;
    }
  }

  lemma {:induction false} CollectNothing(bins: seq<int>)
    ensures Collect([], bins) == []
    decreases |bins|
  {
    if bins != [] {
      CollectNothing(bins[..|bins| - 1]);
    }
  }

  lemma {:induction false} BinsDistinct(rows: seq<Sample>)
    ensures Distinct(Bins(rows))
    decreases |rows|
  {
    if rows != [] {
      BinsDistinct(rows[..|rows| - 1]);
    }
  }

  lemma {:induction false} BothDistinct(bins: seq<int>, other: seq<int>)
    ensures forall bin {:trigger multiset(Both(bins, other))[bin]} :: multiset(Both(bins, other))[bin] <= multiset(bins)[bin]
    decreases |bins|
  {
    if bins != [] {
      BothDistinct(bins[..|bins| - 1], other);
      assert bins == bins[..|bins| - 1] + [bins[|bins| - 1]];
    }
  }

  /** A stratum keeps exactly the samples whose exposure bin the other arm also has, each once. */
  lemma StrataKeepMatchingRows(a: seq<Sample>, b: seq<Sample>)
    ensures multiset(Collect(a, SharedBins(a, b))) == multiset(Matching(a, SharedBins(a, b)))
    ensures multiset(Collect(b, SharedBins(a, b))) == multiset(Matching(b, SharedBins(a, b)))
  {
    BinsDistinct(a);
    BothDistinct(Bins(a), Bins(b));
    Sorting.SortPermutes(Both(Bins(a), Bins(b)), IntLeq);
    CollectIsMatching(a, SharedBins(a, b));
    CollectIsMatching(b, SharedBins(a, b));
  }

  // -------------------------------------------------------------- contrast

  datatype Verdict = AResult | NotSignificant | WithinDrift | SignsDisagree

  /** What `contrast` prints; `NoData` is the StatisticsError an empty arm raises. */
  datatype Outcome =
    | NotRun
    | NoData
    | ExposureRefused
    | Reported(shift: real, lo: real, hi: real, strat: Option<real>, verdict: Verdict)

  const EXPOSURE_MAX_RELATIVE_GAP := 0.20

  function Abs(x: real): (y: real) {
    if x < 0.0 then -x else x
  }

  function Exposures(rows: seq<Sample>): (xs: seq<real>)
    ensures |xs| == |rows| && forall k :: 0 <= k < |rows| ==> xs[k] == rows[k].exposure as real
  {
    seq(|rows|, k requires 0 <= k < |rows| => rows[k].exposure as real)
  }

  predicate ExposureGate(a: seq<Sample>, b: seq<Sample>)
    requires a != [] && b != []
  {
    var expA, expB := Median(Exposures(a)), Median(Exposures(b));
    var largest := if expA >= expB then expA else expB;
    largest > 0.0 ==> Abs(expA - expB) / largest <= EXPOSURE_MAX_RELATIVE_GAP
  }

  function Judge(shift: real, lo: real, hi: real, strat: Option<real>, drift: Option<real>): (v: Verdict) {
    if lo <= 0.0 <= hi then NotSignificant
    else if drift.Some? && Abs(shift) <= Abs(drift.value) then WithinDrift
    else if strat.Some? && (strat.value > 0.0) != (shift > 0.0) then SignsDisagree
    else AResult
  }

  /** The shift between two strata, when both have values. */
  function ShiftOf(sa: seq<real>, sb: seq<real>): (strat: Option<real>) {
    if sa != [] && sb != [] then Some(HodgesLehmann(sa, sb)) else None
  }

  function StratifiedShift(a: seq<Sample>, b: seq<Sample>): (strat: Option<real>) {
    var shared := SharedBins(a, b);
    ShiftOf(Collect(a, shared), Collect(b, shared))
  }

  function Judged(shift: real, ci: (real, real), strat: Option<real>, drift: Option<real>): (outcome: Outcome)
    ensures outcome.Reported?
  {
    Reported(shift, ci.0, ci.1, strat, Judge(shift, ci.0, ci.1, strat, drift))
  }

  /** The numbers of a contrast that passed the exposure gate. */
  function Report(a: seq<Sample>, b: seq<Sample>, drift: Option<real>, draws: (nat, nat) -> nat): (outcome: Outcome)
    requires a != [] && b != []
    ensures outcome.Reported?
  {
    Judged(HodgesLehmann(Cores(a), Cores(b)), Bootstrap(Cores(a), Cores(b), draws), StratifiedShift(a, b), drift)
  }

  function CompareArms(left: string, right: string, arms: map<string, seq<Sample>>, drift: Option<real>, draws: (nat, nat) -> nat)
    : (outcome: Outcome)
  {
    if left !in arms || right !in arms then NotRun
    else if arms[left] == [] || arms[right] == [] then NoData
    else if !ExposureGate(arms[left], arms[right]) then ExposureRefused
    else Report(arms[left], arms[right], drift, draws)
  }

  ghost predicate IsSpanned(r: Outcome, a: seq<real>, b: seq<real>)
    requires r.Reported?
  {
    && Spanned(r.shift, a, b) && Spanned(r.lo, a, b) && Spanned(r.hi, a, b) && r.lo <= r.hi
    && (r.strat.Some? ==> Spanned(r.strat.value, a, b))
  }

  /** Every number a contrast reports lies between two pairwise differences of the arms' samples. */
  lemma ReportIsSpanned(a: seq<Sample>, b: seq<Sample>, drift: Option<real>, draws: (nat, nat) -> nat)
    requires a != [] && b != []
    ensures IsSpanned(Report(a, b, drift, draws), Cores(a), Cores(b))
  {
    HodgesLehmannIsSpanned(Cores(a), Cores(b));
    BootstrapIsSpanned(Cores(a), Cores(b), draws);
    StratumIsSpanned(a, b);
  }

  lemma StratumIsSpanned(a: seq<Sample>, b: seq<Sample>)
    ensures StratifiedShift(a, b).Some? ==> Spanned(StratifiedShift(a, b).value, Cores(a), Cores(b))
  {
    var shared := SharedBins(a, b);
    StrataAreMatched(a, b);
    if StratifiedShift(a, b).Some? {
      HodgesLehmannIsSpanned(Collect(a, shared), Collect(b, shared));
    }
  }

  ghost predicate AllAbove(a: seq<Sample>, b: seq<Sample>) {
    forall i, j :: 0 <= i < |a| && 0 <= j < |b| ==> a[i].cores > b[j].cores
  }

  /**
   Separated arms cannot be argued away: whatever the generator draws, when every left sample
   exceeds every right one all reported numbers are positive, and when every one is exceeded all
   are negative; only the exposure gate or the drift control can keep it from being a result.
   */
  lemma SeparatedArms(left: string, right: string, arms: map<string, seq<Sample>>, drift: Option<real>, draws: (nat, nat) -> nat)
    requires left in arms && right in arms && arms[left] != [] && arms[right] != []
    requires AllAbove(arms[left], arms[right]) || AllAbove(arms[right], arms[left])
    ensures var o, up := CompareArms(left, right, arms, drift, draws), AllAbove(arms[left], arms[right]);
      if !ExposureGate(arms[left], arms[right]) then o == ExposureRefused
      else
        && o.Reported?
        && (if up then o.shift > 0.0 && 0.0 < o.lo <= o.hi && (o.strat.Some? ==> o.strat.value > 0.0)
            else o.shift < 0.0 && o.lo <= o.hi < 0.0 && (o.strat.Some? ==> o.strat.value < 0.0))
        && o.verdict == if drift.Some? && Abs(o.shift) <= Abs(drift.value) then WithinDrift else AResult
  {
    var a, b := arms[left], arms[right];
    var r := Report(a, b, drift, draws);
    ReportIsSpanned(a, b, drift, draws);
    SpannedSign(r.shift, a, b);
    SpannedSign(r.lo, a, b);
    SpannedSign(r.hi, a, b);
    if r.strat.Some? {
      SpannedSign(r.strat.value, a, b);
    }
  }

  lemma SpannedSign(v: real, a: seq<Sample>, b: seq<Sample>)
    requires a != [] && b != [] && Spanned(v, Cores(a), Cores(b))
    ensures AllAbove(a, b) ==> v > 0.0
    ensures AllAbove(b, a) ==> v < 0.0
    ensures AllAbove(a, b) ==> !AllAbove(b, a)
  {
    var x, y :| x in Cores(a) && y in Cores(b) && x - y <= v;
    var x', y' :| x' in Cores(a) && y' in Cores(b) && v <= x' - y';
    if AllAbove(b, a) {
      assert b[0].cores > a[0].cores;
    }
  }

  lemma SingletonArm(row: Sample)
    ensures Bins([row]) == [BinOf(row)] && Median(Exposures([row])) == row.exposure as real
  {
    assert [row][..0] == [];
    assert Exposures([row]) == [row.exposure as real];
  }

  lemma NoSharedBin(a: Sample, b: Sample)
    requires BinOf(a) != BinOf(b)
    ensures SharedBins([a], [b]) == []
  {
    SingletonArm(a);
    SingletonArm(b);
    var bins := [BinOf(a)];
    assert bins[..0] == [] && BinOf(a) !in [BinOf(b)];
    assert Both(bins, [BinOf(b)]) == [];
  }

  lemma NearExposuresPass(a: Sample, b: Sample)
    requires a.exposure == 20 && b.exposure == 19
    ensures ExposureGate([a], [b])
  {
    SingletonArm(a);
    SingletonArm(b);
    assert Abs(20.0 - 19.0) / 20.0 <= EXPOSURE_MAX_RELATIVE_GAP;
  }

  /**
   Arms without a common exposure bin can still be called a result, the sign check having nothing
   to compare: one sample of twenty flushes in one arm, and one of nineteen in the other.
   */
  lemma ResultWithoutStrata(x: real, y: real, draws: (nat, nat) -> nat)
    requires x > y
    ensures var o := CompareArms("H", "S", map["H" := [Sample(x, 20)], "S" := [Sample(y, 19)]], None, draws);
      o.Reported? && o.verdict == AResult && o.strat == None
  {
    var h, s := Sample(x, 20), Sample(y, 19);
    NoSharedBin(h, s);
    NearExposuresPass(h, s);
    StrataAreMatched([h], [s]);
    SeparatedArms("H", "S", map["H" := [h], "S" := [s]], None, draws);
  }

  function Sgn(x: real): (s: int) {
    if x > 0.0 then 1 else if x < 0.0 then -1 else 0
  }

  /** A result in which both contrasts were made and point the same way, or both nowhere. */
  predicate SignsAgree(o: Outcome)
    requires o.Reported?
  {
    o.strat.Some? && Sgn(o.strat.value) == Sgn(o.shift)
  }

  lemma PassedSigns(shift: real, lo: real, hi: real, strat: real, drift: Option<real>)
    requires Judge(shift, lo, hi, Some(strat), drift) == AResult
    ensures Sgn(strat) == Sgn(shift) <==> (strat == 0.0 <==> shift == 0.0)
  {
  }

  /** A result's two contrasts agree in sign exactly when the arms share an exposure bin and neither shift alone is zero. */
  lemma ResultSignsAgreeIff(a: seq<Sample>, b: seq<Sample>, drift: Option<real>, draws: (nat, nat) -> nat)
    requires a != [] && b != [] && Report(a, b, drift, draws).verdict == AResult
    ensures var r := Report(a, b, drift, draws);
      && (r.strat.Some? <==> SharedBins(a, b) != [])
      && (SignsAgree(r) <==> SharedBins(a, b) != [] && r.strat.Some? && (r.strat.value == 0.0 <==> r.shift == 0.0))
  {
    var r := Report(a, b, drift, draws);
    StrataAreMatched(a, b);
    if r.strat.Some? {
      PassedSigns(r.shift, r.lo, r.hi, r.strat.value, drift);
    }
  }

  // --------------------------------------------- what the verdicts stand for

  /** The shifts of the bootstrap's rounds: the median of the left resample less that of the right one. */
  ghost predicate AreRounds(shifts: seq<real>, a: seq<real>, b: seq<real>, draws: (nat, nat) -> nat)
    requires a != [] && b != []
  {
    |shifts| == 2000 &&
      forall k :: 0 <= k < 2000 ==> shifts[k] == Median(Resample(a, draws, k, 0)) - Median(Resample(b, draws, k, |a|))
  }

  /** The interval leaves at most fifty of the two thousand rounds out on either side. */
  lemma BootstrapEndsAre(a: seq<real>, b: seq<real>, draws: (nat, nat) -> nat, shifts: seq<real>)
    requires a != [] && b != [] && AreRounds(shifts, a, b, draws)
    ensures var (lo, hi) := Bootstrap(a, b, draws);
      && lo in shifts && AtMost(shifts, lo) >= 51 && AtLeast(shifts, lo) >= 1950
      && hi in shifts && AtMost(shifts, hi) >= 1950 && AtLeast(shifts, hi) >= 51
  {
    assert shifts == Shifts(a, b, draws, ROUNDS);
    KthSmallest(shifts, LOW);
    KthSmallest(shifts, HIGH);
  }

  /** A contrast is not significant exactly when at least fifty-one rounds fall on either side of zero, zero on both. */
  lemma NotSignificantIff(a: seq<Sample>, b: seq<Sample>, drift: Option<real>, draws: (nat, nat) -> nat, shifts: seq<real>)
    requires a != [] && b != [] && AreRounds(shifts, Cores(a), Cores(b), draws)
    ensures Report(a, b, drift, draws).verdict == NotSignificant <==>
      AtMost(shifts, 0.0) >= 51 && AtLeast(shifts, 0.0) >= 51
  {
    var (lo, hi) := Bootstrap(Cores(a), Cores(b), draws);
    BootstrapEndsAre(Cores(a), Cores(b), draws, shifts);
    CountsApart(shifts, lo, 0.0);
    CountsApart(shifts, 0.0, lo);
    CountsApart(shifts, hi, 0.0);
    CountsApart(shifts, 0.0, hi);
  }

  lemma ShareBound(gap: real, whole: real)
    requires whole > 0.0
    ensures gap / whole <= EXPOSURE_MAX_RELATIVE_GAP <==> 5.0 * gap <= whole
  {
    assert gap / whole * whole == gap;
    if gap / whole <= 0.2 {
      assert gap / whole * whole <= 0.2 * whole;
    } else {
      assert gap / whole * whole > 0.2 * whole;
    }
  }

  /** The gate passes exactly when neither median exposure exceeds the other by more than a fifth of itself, or none is positive. */
  lemma ExposureGateIff(a: seq<Sample>, b: seq<Sample>)
    requires a != [] && b != []
    ensures var x, y := Median(Exposures(a)), Median(Exposures(b));
      ExposureGate(a, b) <==> (x <= 0.0 && y <= 0.0) || (4.0 * x <= 5.0 * y && 4.0 * y <= 5.0 * x)
  {
    var x, y := Median(Exposures(a)), Median(Exposures(b));
    if x >= y && x > 0.0 {
      ShareBound(x - y, x);
    } else if y > x && y > 0.0 {
      ShareBound(y - x, y);
    }
  }

  /** Whether the sign test has two shifts to compare of which just one is above zero. */
  predicate OneIsAbove(shift: real, strat: Option<real>) {
    strat.Some? && ((shift > 0.0 && strat.value <= 0.0) || (shift <= 0.0 && strat.value > 0.0))
  }

  /** The shift is no larger than the drift control's, either way. */
  predicate IsWithin(shift: real, drift: Option<real>) {
    drift.Some? && (-drift.value <= shift <= drift.value || drift.value <= shift <= -drift.value)
  }

  /** Every verdict, by the case it stands for. */
  lemma VerdictsAre(shift: real, lo: real, hi: real, strat: Option<real>, drift: Option<real>)
    requires lo <= hi
    ensures var v := Judge(shift, lo, hi, strat, drift);
      && (v == NotSignificant <==> lo <= 0.0 && 0.0 <= hi)
      && (v == WithinDrift <==> (lo > 0.0 || hi < 0.0) && IsWithin(shift, drift))
      && (v == SignsDisagree <==> (lo > 0.0 || hi < 0.0) && !IsWithin(shift, drift) && OneIsAbove(shift, strat))
      && (v == AResult <==> (lo > 0.0 || hi < 0.0) && !IsWithin(shift, drift) && !OneIsAbove(shift, strat))
  {
  }

  /** Every outcome, by the case it stands for; what is reported is of the left arm against the right one. */
  lemma OutcomesAre(left: string, right: string, arms: map<string, seq<Sample>>, drift: Option<real>, draws: (nat, nat) -> nat)
    ensures var o := CompareArms(left, right, arms, drift, draws);
      && (o.NotRun? <==> left !in arms || right !in arms)
      && (o.NoData? <==> left in arms && right in arms && (arms[left] == [] || arms[right] == []))
      && (o.ExposureRefused? <==>
        left in arms && right in arms && arms[left] != [] && arms[right] != [] && !ExposureGate(arms[left], arms[right]))
      && (o.Reported? ==>
        && o.shift == HodgesLehmann(Cores(arms[left]), Cores(arms[right]))
        && (o.lo, o.hi) == Bootstrap(Cores(arms[left]), Cores(arms[right]), draws)
        && o.strat == StratifiedShift(arms[left], arms[right])
        && o.verdict == Judge(o.shift, o.lo, o.hi, o.strat, drift))
  {
  }

  /** Some sample's exposure lies in the ten that start at ten times `bin`. */
  ghost predicate HasExposure(rows: seq<Sample>, bin: int) {
    exists k :: 0 <= k < |rows| && 10 * bin <= rows[k].exposure < 10 * bin + 10
  }

  lemma {:induction false} BinsAreTens(rows: seq<Sample>, bin: int)
    ensures bin in Bins(rows) <==> HasExposure(rows, bin)
    decreases |rows|
  {
    if rows != [] {
      var before, last := rows[..|rows| - 1], rows[|rows| - 1];
      BinsAreTens(before, bin);
      if HasExposure(before, bin) {
        var k :| 0 <= k < |before| && 10 * bin <= before[k].exposure < 10 * bin + 10;
        assert rows[k] == before[k];
      }
      assert forall k :: 0 <= k < |before| ==> rows[k] == before[k];
    }
  }

  lemma SharedIsSorted(bins: seq<int>)
    ensures forall i, j :: 0 <= i < j < |bins| ==> Sorting.Sort(bins, IntLeq)[i] <= Sorting.Sort(bins, IntLeq)[j]
  {
    assert Sorting.TotalPreorder(IntLeq);
    Sorting.SortSorted(bins, IntLeq);
    var sorted := Sorting.Sort(bins, IntLeq);
    assert forall i, j :: 0 <= i < j < |sorted| ==> IntLeq(sorted[i], sorted[j]);
  }

  /** The shared bins are the tens of exposures that both arms reach, in increasing order. */
  lemma SharedBinsAre(a: seq<Sample>, b: seq<Sample>)
    ensures forall bin :: bin in SharedBins(a, b) <==> HasExposure(a, bin) && HasExposure(b, bin)
    ensures forall i, j :: 0 <= i < j < |SharedBins(a, b)| ==> SharedBins(a, b)[i] <= SharedBins(a, b)[j]
  {
    SharedMembers(Bins(a), Bins(b));
    forall bin
      ensures bin in SharedBins(a, b) <==> HasExposure(a, bin) && HasExposure(b, bin)
    {
      BinsAreTens(a, bin);
      BinsAreTens(b, bin);
    }
    SharedIsSorted(Both(Bins(a), Bins(b)));
    Sorting.SortPermutes(Both(Bins(a), Bins(b)), IntLeq);
  }

  // ------------------------------------------------------ swapping the arms

  /** The choices under which the swapped arms are resampled as the arms were: the right one's `n` come first. */
  function SwappedDraws(draws: (nat, nat) -> nat, m: nat, n: nat): (swapped: (nat, nat) -> nat) {
    (round: nat, k: nat) => if k < n then draws(round, m + k) else draws(round, k - n)
  }

  lemma RoundShiftSwaps(a: seq<real>, b: seq<real>, draws: (nat, nat) -> nat, round: nat)
    requires a != [] && b != []
    ensures RoundShift(b, a, SwappedDraws(draws, |a|, |b|), round) == -RoundShift(a, b, draws, round)
  {
    var swapped := SwappedDraws(draws, |a|, |b|);
    assert Resample(b, swapped, round, 0) == Resample(b, draws, round, |a|);
    assert Resample(a, swapped, round, |b|) == Resample(a, draws, round, 0);
  }

  lemma ShiftsSwap(a: seq<real>, b: seq<real>, draws: (nat, nat) -> nat, rounds: nat)
    requires a != [] && b != []
    ensures Shifts(b, a, SwappedDraws(draws, |a|, |b|), rounds) == Neg(Shifts(a, b, draws, rounds))
  {
    forall k: nat | k < rounds {
      RoundShiftSwaps(a, b, draws, k);
    }
  }

  lemma EndsOfNegated(shifts: seq<real>, shifts': seq<real>)
    requires |shifts| == ROUNDS && shifts' == Neg(shifts)
    ensures Ends(shifts').0 == -Ends(shifts).1 && Ends(shifts').1 == -Ends(shifts).0
  {
    SortOfMirror(shifts', shifts);
    NegRevAt(SortReals(shifts), LOW);
    NegRevAt(SortReals(shifts), HIGH);
  }

  lemma BootstrapSwaps(a: seq<real>, b: seq<real>, draws: (nat, nat) -> nat)
    requires a != [] && b != []
    ensures Bootstrap(b, a, SwappedDraws(draws, |a|, |b|)).0 == -Bootstrap(a, b, draws).1
    ensures Bootstrap(b, a, SwappedDraws(draws, |a|, |b|)).1 == -Bootstrap(a, b, draws).0
  {
    ShiftsSwap(a, b, draws, ROUNDS);
    EndsOfNegated(Shifts(a, b, draws, ROUNDS), Shifts(b, a, SwappedDraws(draws, |a|, |b|), ROUNDS));
  }

  lemma NegRevAt(s: seq<real>, k: nat)
    requires k < |s|
    ensures NegRev(s)[k] == -s[|s| - 1 - k]
  {
  }

  lemma BothCounts(bins: seq<int>, other: seq<int>, bin: int)
    requires Distinct(bins)
    ensures multiset(Both(bins, other))[bin] == if bin in bins && bin in other then 1 else 0
  {
    BothDistinct(bins, other);
    BothMembers(bins, other);
    assert bin in Both(bins, other) <==> bin in multiset(Both(bins, other));
    assert multiset(bins)[bin] <= 1;
  }

  lemma BothSwap(x: seq<int>, y: seq<int>)
    requires Distinct(x) && Distinct(y)
    ensures multiset(Both(x, y)) == multiset(Both(y, x))
  {
    forall bin
      ensures multiset(Both(x, y))[bin] == multiset(Both(y, x))[bin]
    {
      BothCounts(x, y, bin);
      BothCounts(y, x, bin);
    }
  }

  lemma SharedBinsSwap(a: seq<Sample>, b: seq<Sample>)
    ensures SharedBins(b, a) == SharedBins(a, b)
  {
    BinsDistinct(a);
    BinsDistinct(b);
    BothSwap(Bins(a), Bins(b));
    assert Sorting.TotalPreorder(IntLeq) && Sorting.Antisymmetric(IntLeq);
    Sorting.SortForgetsOrder(Both(Bins(b), Bins(a)), Both(Bins(a), Bins(b)), IntLeq);
  }

  function Negated(x: Option<real>): (y: Option<real>) {
    if x.Some? then Some(-x.value) else None
  }

  lemma ShiftOfSwaps(sa: seq<real>, sb: seq<real>)
    ensures ShiftOf(sb, sa) == Negated(ShiftOf(sa, sb))
  {
    if sa != [] && sb != [] {
      HodgesLehmannAntisymmetric(sa, sb);
    }
  }

  lemma StratifiedShiftSwaps(a: seq<Sample>, b: seq<Sample>)
    ensures StratifiedShift(b, a) == Negated(StratifiedShift(a, b))
  {
    SharedBinsSwap(a, b);
    ShiftOfSwaps(Collect(a, SharedBins(a, b)), Collect(b, SharedBins(a, b)));
  }

  /** The last test treats both directions alike unless exactly one of the two shifts is zero. */
  lemma JudgeSwaps(shift: real, lo: real, hi: real, strat: Option<real>, drift: Option<real>)
    ensures var v := Judge(shift, lo, hi, strat, drift);
      Judge(-shift, -hi, -lo, Negated(strat), drift) == v <==>
        v.NotSignificant? || v.WithinDrift? || strat.None? || (strat.value == 0.0 <==> shift == 0.0)
  {
  }

  lemma GateSwaps(a: seq<Sample>, b: seq<Sample>)
    requires a != [] && b != []
    ensures ExposureGate(b, a) <==> ExposureGate(a, b)
  {
    var expA, expB := Median(Exposures(a)), Median(Exposures(b));
    assert Abs(expA - expB) == Abs(expB - expA);
  }

  /** The same contrast the other way round, on the same resamples. */
  function Swapped(a: seq<Sample>, b: seq<Sample>, drift: Option<real>, draws: (nat, nat) -> nat): (outcome: Outcome)
    requires a != [] && b != []
    ensures outcome.Reported?
  {
    Report(b, a, drift, SwappedDraws(draws, |a|, |b|))
  }

  /** `s` is `r` turned about. */
  predicate IsTurned(r: Outcome, s: Outcome)
    requires r.Reported? && s.Reported?
  {
    && s.shift == -r.shift && s.lo == -r.hi && s.hi == -r.lo && s.strat == Negated(r.strat)
    && (s.verdict == r.verdict <==>
      r.verdict.NotSignificant? || r.verdict.WithinDrift? || r.strat.None? || (r.strat.value == 0.0 <==> r.shift == 0.0))
  }

  lemma JudgedSwaps(shift: real, ci: (real, real), strat: Option<real>, shift': real, ci': (real, real), strat': Option<real>,
                    drift: Option<real>)
    requires shift' == -shift && ci'.0 == -ci.1 && ci'.1 == -ci.0 && strat' == Negated(strat)
    ensures IsTurned(Judged(shift, ci, strat, drift), Judged(shift', ci', strat', drift))
  {
    JudgeSwaps(shift, ci.0, ci.1, strat, drift);
  }

  lemma ReportIs(a: seq<Sample>, b: seq<Sample>, drift: Option<real>, draws: (nat, nat) -> nat)
    requires a != [] && b != []
    ensures Report(a, b, drift, draws)
      == Judged(HodgesLehmann(Cores(a), Cores(b)), Bootstrap(Cores(a), Cores(b), draws), StratifiedShift(a, b), drift)
  {
  }

  lemma SwappedNumbers(a: seq<Sample>, b: seq<Sample>, draws: (nat, nat) -> nat, swapped: (nat, nat) -> nat)
    requires a != [] && b != [] && swapped == SwappedDraws(draws, |a|, |b|)
    ensures HodgesLehmann(Cores(b), Cores(a)) == -HodgesLehmann(Cores(a), Cores(b))
    ensures Bootstrap(Cores(b), Cores(a), swapped).0 == -Bootstrap(Cores(a), Cores(b), draws).1
    ensures Bootstrap(Cores(b), Cores(a), swapped).1 == -Bootstrap(Cores(a), Cores(b), draws).0
    ensures StratifiedShift(b, a) == Negated(StratifiedShift(a, b))
  {
    HodgesLehmannAntisymmetric(Cores(a), Cores(b));
    BootstrapSwaps(Cores(a), Cores(b), draws);
    StratifiedShiftSwaps(a, b);
  }

  lemma ReportSwaps(a: seq<Sample>, b: seq<Sample>, drift: Option<real>, draws: (nat, nat) -> nat, swapped: (nat, nat) -> nat)
    requires a != [] && b != [] && swapped == SwappedDraws(draws, |a|, |b|)
    ensures IsTurned(Report(a, b, drift, draws), Report(b, a, drift, swapped))
  {
    SwappedNumbers(a, b, draws, swapped);
    ReportIs(a, b, drift, draws);
    ReportIs(b, a, drift, swapped);
    JudgedSwaps(HodgesLehmann(Cores(a), Cores(b)), Bootstrap(Cores(a), Cores(b), draws), StratifiedShift(a, b),
                HodgesLehmann(Cores(b), Cores(a)), Bootstrap(Cores(b), Cores(a), swapped), StratifiedShift(b, a), drift);
  }

  /**
   Comparing the arms the other way round turns every number about and passes the exposure gate alike;
   the verdict stays exactly unless the sign test is reached with just one of the shifts zero, where one
   direction is a result and the other refused.
   */
  lemma SwappingArms(a: seq<Sample>, b: seq<Sample>, drift: Option<real>, draws: (nat, nat) -> nat)
    requires a != [] && b != []
    ensures ExposureGate(b, a) <==> ExposureGate(a, b)
    ensures IsTurned(Report(a, b, drift, draws), Swapped(a, b, drift, draws))
  {
    GateSwaps(a, b);
    ReportSwaps(a, b, drift, draws, SwappedDraws(draws, |a|, |b|));
  }

  // ------------------------------------- a result whose contrasts do not agree

  lemma SortIs(s: seq<real>, t: seq<real>)
    requires multiset(s) == multiset(t) && Sorting.Sorted(t, Leq)
    ensures SortReals(s) == t
  {
    RealOrder();
    Sorting.SortSorted(s, Leq);
    Sorting.SortedUnique(SortReals(s), t, Leq);
  }

  lemma MedianOfThree(s: seq<real>)
    requires |s| == 3 && s[1] == s[2] <= s[0]
    ensures Median(s) == s[1]
  {
    var t := s[1..] + s[..1];
    assert s == s[..1] + s[1..];
    SortIs(s, t);
  }

  lemma MedianOfEqual(s: seq<real>, v: real)
    requires s != [] && forall k :: 0 <= k < |s| ==> s[k] == v
    ensures Median(s) == v
  {
    var i, j := MedianIsBetween(s);
  }

  lemma OneAgainst(x: real, b: seq<real>)
    requires b != []
    ensures HodgesLehmann([x], b) == Median(Row(x, b))
  {
    assert Diffs([x][1..], b) == [];
    assert Diffs([x], b) == Row(x, b);
  }

  /** One sample of `x` cores and 29 flushes against the same sample and two of `y` cores and 30 flushes. */
  predicate AreSmallArms(a: seq<Sample>, b: seq<Sample>, x: real, y: real) {
    a == [Sample(x, 29)] && b == [Sample(x, 29), Sample(y, 30), Sample(y, 30)]
  }

  /** A generator that always draws the sample at place 1, or the only one. */
  function SecondAlways(): (draws: (nat, nat) -> nat) {
    (round: nat, k: nat) => 1
  }

  lemma ConstantBootstrap(a: seq<real>, b: seq<real>, draws: (nat, nat) -> nat, v: real)
    requires a != [] && b != [] && forall round :: RoundShift(a, b, draws, round) == v
    ensures Bootstrap(a, b, draws) == (v, v)
  {
    var raw := Shifts(a, b, draws, ROUNDS);
    var shifts := SortReals(raw);
    Sorting.SortPermutes(raw, Leq);
    Sorting.SameMembers(shifts, raw);
    assert shifts[LOW] in shifts && shifts[HIGH] in shifts;
  }

  lemma SecondRound(x: real, b: seq<real>, y: real, round: nat)
    requires |b| > 1 && b[1] == y
    ensures RoundShift([x], b, SecondAlways(), round) == x - y
  {
    MedianOfEqual(Resample([x], SecondAlways(), round, 0), x);
    MedianOfEqual(Resample(b, SecondAlways(), round, 1), y);
  }

  lemma SecondAlwaysShifts(x: real, b: seq<real>, y: real)
    requires |b| > 1 && b[1] == y
    ensures Bootstrap([x], b, SecondAlways()) == (x - y, x - y)
  {
    forall round {
      SecondRound(x, b, y, round);
    }
    ConstantBootstrap([x], b, SecondAlways(), x - y);
  }

  lemma OneMoreBin(rows: seq<Sample>, row: Sample, bin: int)
    ensures Bins(rows + [row]) == Bins(rows) + if BinOf(row) in Bins(rows) then [] else [BinOf(row)]
    ensures BinValues(rows + [row], bin) == BinValues(rows, bin) + if BinOf(row) == bin then [row.cores] else []
  {
    assert (rows + [row])[..|rows|] == rows;
  }

  lemma OneBin(bin: int, other: seq<int>, rows: seq<Sample>)
    requires bin in other
    ensures Both([bin], other) == [bin] && Sorting.Sort([bin], IntLeq) == [bin]
    ensures Collect(rows, [bin]) == BinValues(rows, bin)
  {
    assert [bin][..0] == [] && [bin][1..] == [];
  }

  lemma OneSharedBin(a: seq<Sample>, b: seq<Sample>, x: real, y: real)
    requires AreSmallArms(a, b, x, y)
    ensures StratifiedShift(a, b) == Some(0.0)
  {
    var s, t := Sample(x, 29), Sample(y, 30);
    OneMoreBin([], s, 2);
    OneMoreBin([s], t, 2);
    OneMoreBin([s, t], t, 2);
    assert [] + [s] == a && [s] + [t] == [s, t] && [s, t] + [t] == b;
    assert Bins(a) == [2] && Bins([s, t]) == [2, 3] && BinValues(a, 2) == [x] && BinValues(b, 2) == [x];
    OneBin(2, Bins(b), a);
    OneBin(2, Bins(b), b);
    assert SharedBins(a, b) == [2];
    OneAgainst(x, [x]);
    MedianOfEqual(Row(x, [x]), 0.0);
  }

  lemma ZeroStratumNumbers(a: seq<Sample>, b: seq<Sample>, x: real, y: real)
    requires AreSmallArms(a, b, x, y) && x < y
    ensures HodgesLehmann(Cores(a), Cores(b)) == x - y
    ensures Bootstrap(Cores(a), Cores(b), SecondAlways()) == (x - y, x - y)
  {
    assert Cores(a) == [x] && Cores(b) == [x, y, y];
    OneAgainst(x, [x, y, y]);
    MedianOfThree(Row(x, [x, y, y]));
    SecondAlwaysShifts(x, [x, y, y], y);
  }

  lemma JudgedBesideZero(shift: real, ci: (real, real), strat: Option<real>, d: real)
    requires shift == d != 0.0 && ci.0 == d && ci.1 == d && strat == Some(0.0)
    ensures Judged(shift, ci, strat, None) == Reported(d, d, d, Some(0.0), if d < 0.0 then AResult else SignsDisagree)
  {
  }

  lemma ReportBesideZero(a: seq<Sample>, b: seq<Sample>, draws: (nat, nat) -> nat, d: real)
    requires a != [] && b != [] && HodgesLehmann(Cores(a), Cores(b)) == d != 0.0
    requires Bootstrap(Cores(a), Cores(b), draws).0 == d && Bootstrap(Cores(a), Cores(b), draws).1 == d
    requires StratifiedShift(a, b) == Some(0.0)
    ensures Report(a, b, None, draws) == Reported(d, d, d, Some(0.0), if d < 0.0 then AResult else SignsDisagree)
  {
    ReportIs(a, b, None, draws);
    JudgedBesideZero(HodgesLehmann(Cores(a), Cores(b)), Bootstrap(Cores(a), Cores(b), draws), StratifiedShift(a, b), d);
  }

  lemma ZeroBesideNegative(a: seq<Sample>, b: seq<Sample>, draws: (nat, nat) -> nat, swapped: (nat, nat) -> nat, d: real)
    requires a != [] && b != [] && d < 0.0 && HodgesLehmann(Cores(a), Cores(b)) == d
    requires Bootstrap(Cores(a), Cores(b), draws) == (d, d) && StratifiedShift(a, b) == Some(0.0)
    requires swapped == SwappedDraws(draws, |a|, |b|)
    ensures Report(a, b, None, draws) == Reported(d, d, d, Some(0.0), AResult)
    ensures Report(b, a, None, swapped) == Reported(-d, -d, -d, Some(0.0), SignsDisagree)
  {
    SwappedNumbers(a, b, draws, swapped);
    ReportBesideZero(a, b, draws, d);
    ReportBesideZero(b, a, swapped, -d);
  }

  /** A shift of `d` beside a stratified shift of zero is a result, and refused with the arms exchanged. */
  ghost predicate PassesOneWay(a: seq<Sample>, b: seq<Sample>, draws: (nat, nat) -> nat, d: real)
    requires a != [] && b != []
  {
    && Report(a, b, None, draws) == Reported(d, d, d, Some(0.0), AResult)
    && Swapped(a, b, None, draws) == Reported(-d, -d, -d, Some(0.0), SignsDisagree)
  }

  lemma NegativePassesOneWay(a: seq<Sample>, b: seq<Sample>, draws: (nat, nat) -> nat, d: real)
    requires a != [] && b != [] && d < 0.0 && HodgesLehmann(Cores(a), Cores(b)) == d
    requires Bootstrap(Cores(a), Cores(b), draws) == (d, d) && StratifiedShift(a, b) == Some(0.0)
    ensures PassesOneWay(a, b, draws, d)
  {
    ZeroBesideNegative(a, b, draws, SwappedDraws(draws, |a|, |b|), d);
  }

  /**
   A shift beside a stratified shift of zero: called a result when it is negative, refused for
   disagreeing in sign when the same arms are compared the other way round.
   */
  lemma ZeroStratumPassesOneWay(a: seq<Sample>, b: seq<Sample>, x: real, y: real)
    requires AreSmallArms(a, b, x, y) && x < y
    ensures ExposureGate(a, b) && ExposureGate(b, a)
    ensures PassesOneWay(a, b, SecondAlways(), x - y)
  {
    SmallArmsPass(a, b, x, y);
    NumbersPassOneWay(a, b, x, y);
  }

  lemma NumbersPassOneWay(a: seq<Sample>, b: seq<Sample>, x: real, y: real)
    requires AreSmallArms(a, b, x, y) && x < y
    ensures PassesOneWay(a, b, SecondAlways(), x - y)
  {
    ZeroStratumNumbers(a, b, x, y);
    OneSharedBin(a, b, x, y);
    NegativePassesOneWay(a, b, SecondAlways(), x - y);
  }

  lemma SmallArmsPass(a: seq<Sample>, b: seq<Sample>, x: real, y: real)
    requires AreSmallArms(a, b, x, y)
    ensures ExposureGate(a, b) && ExposureGate(b, a)
  {
    assert a == [a[0]];
    NearMedianPasses(a[0], b);
    GateSwaps(a, b);
  }

  lemma NearMedianPasses(s: Sample, b: seq<Sample>)
    requires s.exposure == 29 && |b| == 3 && b[0].exposure == 29 && b[1].exposure == b[2].exposure == 30
    ensures ExposureGate([s], b)
  {
    SingletonArm(s);
    var xs := Exposures(b);
    assert xs == [29.0, 30.0, 30.0];
    var i, j := MedianIsBetween(xs);
    assert 29.0 <= Median(xs) <= 30.0;
    GapIsSmall(Median(xs));
  }

  lemma GapIsSmall(m: real)
    requires 29.0 <= m <= 30.0
    ensures Abs(29.0 - m) / m <= EXPOSURE_MAX_RELATIVE_GAP
  {
    assert m - 29.0 <= 0.2 * m;
  }
}
