/**
 scripts/paint-diff.py: printing the columns where a mask holds a character as
 comma-joined ranges, and reading them back.
 */
module Spans {
  import opened Options
  import Text

  /** Columns first to last, both included. */
  datatype Run = Run(first: nat, last: nat)

  /** The loop's state: the finished runs, and where the run in progress began. */
  datatype Scan = Scan(out: seq<Run>, start: Option<nat>)

  function ScanTo(mask: string, c: char, n: nat): (sc: Scan)
    requires n <= |mask|
  {
    if n == 0 then Scan([], None)
    else
      var sc := ScanTo(mask, c, n - 1);
      if mask[n - 1] == c && sc.start.None? then sc.(start := Some(n - 1))
      else if mask[n - 1] != c && sc.start.Some? && n >= 2 then Scan(sc.out + [Run(sc.start.value, n - 2)], None)
      else sc
  }

  function Runs(mask: string, c: char): (runs: seq<Run>) {
    var sc := ScanTo(mask, c, |mask|);
    if sc.start.Some? && mask != "" then sc.out + [Run(sc.start.value, |mask| - 1)] else sc.out
  }

  function RunText(r: Run): (text: string) {
    if r.last > r.first then Text.Decimal(r.first) + "-" + Text.Decimal(r.last) else Text.Decimal(r.first)
  }

  function Texts(runs: seq<Run>): (texts: seq<string>)
    ensures |texts| == |runs| && forall k :: 0 <= k < |runs| ==> texts[k] == RunText(runs[k])
  {
    seq(|runs|, k requires 0 <= k < |runs| => RunText(runs[k]))
  }

  function SpanText(mask: string, c: char): (text: string) {
    Text.Join(Texts(Runs(mask, c)), ',')
  }

  method PrintSpans(mask: string, c: char) returns (text: string)
    ensures text == SpanText(mask, c)
  {
    var out: seq<Run> := [];
    var start: Option<nat> := None;
    for i := 0 to |mask|
      invariant Scan(out, start) == ScanTo(mask, c, i)
      invariant start.Some? ==> start.value < i
    {
      if mask[i] == c && start.None? {
        start := Some(i);
      } else if mask[i] != c && start.Some? {
        out := out + [Run(start.value, i - 1)];
        start := None;
      }
    }
    if start.Some? {
      out := out + [Run(start.value, |mask| - 1)];
    }
    text := Text.Join(Texts(out), ',');
  }

  predicate Holds(runs: seq<Run>, i: int) {
    exists k :: 0 <= k < |runs| && runs[k].first <= i <= runs[k].last
  }

  /** Runs are non-empty and increase, with a gap between one and the next: disjoint and maximal. */
  predicate Separated(runs: seq<Run>) {
    && (forall k :: 0 <= k < |runs| ==> runs[k].first <= runs[k].last)
    && (forall j, k :: 0 <= j < k < |runs| ==> runs[j].last + 1 < runs[k].first)
  }

  ghost predicate ScanFacts(mask: string, c: char, n: nat, sc: Scan)
    requires n <= |mask|
  {
    && Separated(sc.out)
    && (sc.start.Some? <==> n > 0 && mask[n - 1] == c)
    && (sc.start.Some? ==> sc.start.value < n && forall k :: 0 <= k < |sc.out| ==> sc.out[k].last + 1 < sc.start.value)
    && (forall k :: 0 <= k < |sc.out| ==> sc.out[k].last + 1 < n)
    && (forall i {:trigger mask[i]} :: 0 <= i < n ==>
      (mask[i] == c <==> Holds(sc.out, i) || (sc.start.Some? && sc.start.value <= i)))
  }

  lemma HoldsAppend(runs: seq<Run>, r: Run, i: int)
    ensures Holds(runs + [r], i) <==> Holds(runs, i) || r.first <= i <= r.last
  {
    assert (runs + [r])[|runs|] == r;
    assert forall k :: 0 <= k < |runs| ==> (runs + [r])[k] == runs[k];
  }

  lemma {:induction false} ScanIsExact(mask: string, c: char, n: nat)
    requires n <= |mask|
    ensures ScanFacts(mask, c, n, ScanTo(mask, c, n))
  {
    if n > 0 {
      ScanIsExact(mask, c, n - 1);
      var sc, sc' := ScanTo(mask, c, n - 1), ScanTo(mask, c, n);
      forall i | 0 <= i < n
        ensures mask[i] == c <==> Holds(sc'.out, i) || (sc'.start.Some? && sc'.start.value <= i)
      {
        if sc.start.Some? && mask[n - 1] != c {
          HoldsAppend(sc.out, Run(sc.start.value, n - 2), i);
        }
      }
    }
  }

  /** The runs hold exactly the columns of the character, increasing, disjoint and maximal. */
  lemma RunsAreExact(mask: string, c: char)
    ensures Separated(Runs(mask, c))
    ensures forall k :: 0 <= k < |Runs(mask, c)| ==> Runs(mask, c)[k].last < |mask|
    ensures forall i :: 0 <= i < |mask| ==> (mask[i] == c <==> Holds(Runs(mask, c), i))
  {
    ScanIsExact(mask, c, |mask|);
    var sc := ScanTo(mask, c, |mask|);
    if sc.start.Some? {
      forall i | 0 <= i < |mask|
        ensures mask[i] == c <==> Holds(Runs(mask, c), i)
      {
        HoldsAppend(sc.out, Run(sc.start.value, |mask| - 1), i);
      }
    }
  }

  // --------------------------------------------------------- reading back

  predicate IsNumber(s: string) {
    s != "" && forall k :: 0 <= k < |s| ==> Text.IsDigit(s[k])
  }

  function ParseRun(piece: string): (r: Option<Run>) {
    var ends := Text.Split(piece, '-');
    if |ends| == 1 && IsNumber(ends[0]) then
      Some(Run(Text.NumberOf(ends[0]), Text.NumberOf(ends[0])))
    else if |ends| == 2 && IsNumber(ends[0]) && IsNumber(ends[1]) then
      Some(Run(Text.NumberOf(ends[0]), Text.NumberOf(ends[1])))
    else None
  }

  function ParseRuns(pieces: seq<string>): (runs: Option<seq<Run>>) {
    if pieces == [] then Some([])
    else
      var first, rest := ParseRun(pieces[0]), ParseRuns(pieces[1..]);
      if first.Some? && rest.Some? then Some([first.value] + rest.value) else None
  }

  /** Reads comma-joined ranges; the empty text has none. */
  function ParseSpans(text: string): (runs: Option<seq<Run>>) {
    if text == "" then Some([]) else ParseRuns(Text.Split(text, ','))
  }

  lemma DecimalPieces(n: nat)
    ensures IsNumber(Text.Decimal(n)) && '-' !in Text.Decimal(n) && ',' !in Text.Decimal(n)
  {
  }

  lemma RunTextParses(r: Run)
    requires r.first <= r.last
    ensures ParseRun(RunText(r)) == Some(r) && ',' !in RunText(r) && RunText(r) != ""
  {
    DecimalPieces(r.first);
    DecimalPieces(r.last);
    Text.DecimalRoundTrip(r.first);
    Text.DecimalRoundTrip(r.last);
    Text.SplitPiece(Text.Decimal(r.first), '-');
    Text.SplitPiece(Text.Decimal(r.last), '-');
    Text.SplitFirst(Text.Decimal(r.first), Text.Decimal(r.last), '-');
    assert Text.Decimal(r.first) + "-" + Text.Decimal(r.last) == Text.Decimal(r.first) + ['-'] + Text.Decimal(r.last);
  }

  lemma {:induction false} RunsParse(runs: seq<Run>)
    requires forall k :: 0 <= k < |runs| ==> runs[k].first <= runs[k].last
    ensures ParseRuns(Texts(runs)) == Some(runs)
  {
    if runs != [] {
      RunTextParses(runs[0]);
      RunsParse(runs[1..]);
      assert Texts(runs)[1..] == Texts(runs[1..]);
      assert runs == [runs[0]] + runs[1..];
    }
  }

  /** Reading the printed spans gives back the runs, and with them exactly the columns of the character. */
  lemma SpansRoundTrip(mask: string, c: char)
    ensures ParseSpans(SpanText(mask, c)) == Some(Runs(mask, c))
    ensures forall i :: 0 <= i < |mask| ==> (mask[i] == c <==> Holds(ParseSpans(SpanText(mask, c)).value, i))
  {
    var runs := Runs(mask, c);
    RunsAreExact(mask, c);
    var texts := Texts(runs);
    if runs != [] {
      forall k | 0 <= k < |texts|
        ensures ',' !in texts[k]
      {
        RunTextParses(runs[k]);
      }
      RunTextParses(runs[0]);
      Text.SplitJoin(texts, ',');
      assert Text.Join(texts, ',') != "";
      RunsParse(runs);
    }
  }
}
