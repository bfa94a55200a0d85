/**
 scripts/paint-chain.py: cutting an interleaved stream of native and canvas
 records into the builds of each host's surface.
 */
module PaintChain {
  import opened Options
  import opened GreedyCuts
  import opened Seqs
  import Text

  datatype Name = Begin | BootstrapReset | MountOpen | FirstFrame | Settle | Other(text: string)

  /**
   One trace record; `native` tells the terminal_mount category from xterm_paint, `payload`
   stands for what a build carries along unread.
   */
  datatype Record = Record(native: bool, name: Name, hostId: Option<string>, sessionPath: Option<string>,
                           payload: string)

  function MountKey(r: Record): (key: Option<string>) {
    if r.hostId.Some? && r.hostId.value != "" then r.hostId else None
  }

  predicate NativeBegin(r: Record) {
    r.native && r.name.Begin?
  }

  predicate CanvasOpen(r: Record) {
    !r.native && r.name.MountOpen?
  }

  predicate NativeOpen(r: Record) {
    r.native && r.name.MountOpen?
  }

  predicate CanvasSettle(r: Record) {
    !r.native && r.name.Settle?
  }

  // ---------------------------------------------------------------- one build

  /** What `build` keeps of one surface build. */
  datatype Build = Build(hostId: string, number: nat, native: seq<Record>, open: Option<Record>,
                         firstFrame: Option<Record>, settles: seq<Record>, resets: nat)

  function Fresh(h: string, number: nat): (b: Build) {
    Build(h, number, [], None, None, [], 0)
  }

  predicate HasBegun(native: seq<Record>) {
    exists k :: 0 <= k < |native| && native[k].name.Begin?
  }

  /** Whether `r` is a boundary for the build in progress. */
  predicate Opens(b: Build, r: Record) {
    if NativeBegin(r) then b.open.Some? || HasBegun(b.native)
    else r.name.MountOpen? && b.open.Some?
  }

  function Absorb(b: Build, r: Record): (b': Build)
    ensures b'.hostId == b.hostId && b'.number == b.number
  {
    if r.native then
      b.(native := b.native + [r], resets := b.resets + if r.name.BootstrapReset? then 1 else 0)
    else match r.name
      case MountOpen => b.(open := Some(r))
      case FirstFrame => b.(firstFrame := Some(r))
      case Settle => b.(settles := b.settles + [r])
      case _ => b
  }

  // ------------------------------------------------- the interleaved stream

  /** Index of the last build of host `h`: the entry the script keeps as current. */
  function LastOf(bs: seq<Build>, h: string): (i: Option<nat>)
    ensures i.None? ==> forall k :: 0 <= k < |bs| ==> bs[k].hostId != h
    ensures i.Some? ==> i.value < |bs| && bs[i.value].hostId == h
    ensures i.Some? ==> forall k :: i.value < k < |bs| ==> bs[k].hostId != h
  {
    if bs == [] then None
    else if Last(bs).hostId == h then Some(|bs| - 1)
    else LastOf(Front(bs), h)
  }

  /** The builds of host `h`, in order. */
  function Of(bs: seq<Build>, h: string): (own: seq<Build>) {
    if bs == [] then [] else Of(Front(bs), h) + if Last(bs).hostId == h then [Last(bs)] else []
  }

  /** The effect of one record on the list of builds. */
  function Step(bs: seq<Build>, r: Record): (bs': seq<Build>) {
    match MountKey(r)
    case None => bs
    case Some(h) =>
      var i := LastOf(bs, h);
      if i.None? || Opens(bs[i.value], r) then bs + [Absorb(Fresh(h, |Of(bs, h)|), r)]
      else bs[i.value := Absorb(bs[i.value], r)]
  }

  function Builds(rows: seq<Record>): (bs: seq<Build>) {
    if rows == [] then [] else Step(Builds(Front(rows)), Last(rows))
  }

  /** The records of host `h`, in order. */
  function HostRecords(rows: seq<Record>, h: string): (own: seq<Record>) {
    if rows == [] then []
    else HostRecords(Front(rows), h) + if MountKey(Last(rows)) == Some(h) then [Last(rows)] else []
  }

  /** The first non-empty session path a host's records carry. */
  function LabelOf(rows: seq<Record>, h: string): (path: Option<string>) {
    if rows == [] then None
    else
      var before := LabelOf(Front(rows), h);
      var r := Last(rows);
      if before.None? && MountKey(r) == Some(h) && r.sessionPath.Some? && r.sessionPath.value != ""
      then r.sessionPath else before
  }

  function SessionOf(rows: seq<Record>, h: string): (session: string) {
    var path := LabelOf(rows, h);
    if path.Some? then path.value else ""
  }

  function DisplayLabel(h: string, number: nat): (text: string) {
    h + if number == 0 then "" else "#b" + Text.Decimal(number)
  }

  // --------------------------------------------------------------- locality

  lemma {:induction false} OfUpdate(bs: seq<Build>, i: nat, b: Build, h: string)
    requires i < |bs| && b.hostId == bs[i].hostId
    requires bs[i].hostId == h ==> LastOf(bs, h) == Some(i)
    ensures bs[i].hostId != h ==> Of(bs[i := b], h) == Of(bs, h)
    ensures bs[i].hostId == h ==> Of(bs, h) != [] && Last(Of(bs, h)) == bs[i]
    ensures bs[i].hostId == h ==> Of(bs[i := b], h) == Front(Of(bs, h)) + [b]
    decreases |bs|
  {
    if i == |bs| - 1 {
      assert Front(bs[i := b]) == Front(bs);
    } else {
      assert Front(bs[i := b]) == Front(bs)[i := b];
      OfUpdate(Front(bs), i, b, h);
    }
  }

  lemma {:induction false} OfNone(bs: seq<Build>, h: string)
    ensures LastOf(bs, h).None? <==> Of(bs, h) == []
    decreases |bs|
  {
    if bs != [] {
      OfNone(Front(bs), h);
    }
  }

  /** The step a host's own builds take. */
  function HostStep(h: string, own: seq<Build>, r: Record): (own': seq<Build>) {
    if own == [] || Opens(Last(own), r) then own + [Absorb(Fresh(h, |own|), r)]
    else Front(own) + [Absorb(Last(own), r)]
  }

  function HostBuilds(h: string, rs: seq<Record>): (own: seq<Build>) {
    if rs == [] then [] else HostStep(h, HostBuilds(h, Front(rs)), Last(rs))
  }

  lemma StepLocal(bs: seq<Build>, r: Record, h: string)
    ensures Of(Step(bs, r), h) == if MountKey(r) == Some(h) then HostStep(h, Of(bs, h), r) else Of(bs, h)
  {
    if MountKey(r).Some? {
      var k := MountKey(r).value;
      var i := LastOf(bs, k);
      OfNone(bs, k);
      if i.Some? {
        OfUpdate(bs, i.value, Absorb(bs[i.value], r), h);
        OfUpdate(bs, i.value, Absorb(bs[i.value], r), k);
      }
      if i.None? || Opens(bs[i.value], r) {
        assert Front(Step(bs, r)) == bs;
      }
    }
  }

  lemma {:induction false} BuildsOfHost(rows: seq<Record>, h: string)
    ensures Of(Builds(rows), h) == HostBuilds(h, HostRecords(rows, h))
    decreases |rows|
  {
    if rows != [] {
      BuildsOfHost(Front(rows), h);
      StepLocal(Builds(Front(rows)), Last(rows), h);
      var own := HostRecords(Front(rows), h);
      if MountKey(Last(rows)) == Some(h) {
        assert Front(own + [Last(rows)]) == own;
      } else {
        assert own + [] == own;
      }
    }
  }

  lemma {:induction false} HostRecordsIdempotent(rows: seq<Record>, h: string)
    ensures HostRecords(HostRecords(rows, h), h) == HostRecords(rows, h)
    decreases |rows|
  {
    if rows != [] {
      HostRecordsIdempotent(Front(rows), h);
      var own := HostRecords(Front(rows), h);
      if MountKey(Last(rows)) == Some(h) {
        assert Front(own + [Last(rows)]) == own;
      } else {
        assert own + [] == own;
      }
    }
  }

  /** Interleaving other hosts' records changes nothing about a host's builds. */
  lemma BuildsAreLocal(rows: seq<Record>, h: string)
    ensures Of(Builds(rows), h) == Of(Builds(HostRecords(rows, h)), h)
  {
    BuildsOfHost(rows, h);
    BuildsOfHost(HostRecords(rows, h), h);
    HostRecordsIdempotent(rows, h);
  }

  // ------------------------------------------------- whose record it is

  /** Whose builds a record belongs to is told by its host id alone, taken whole. */
  lemma {:induction false} HostRecordsAre(rows: seq<Record>, h: string)
    ensures h != "" ==> HostRecords(rows, h) == Keep(rows, (r: Record) => r.hostId == Some(h))
    ensures h == "" ==> HostRecords(rows, h) == []
    decreases |rows|
  {
    if rows != [] {
      HostRecordsAre(Front(rows), h);
    }
  }

  /** A record without a host, or with an empty one, changes nothing. */
  lemma HostlessIsIgnored(rows: seq<Record>, r: Record)
    requires r.hostId.None? || r.hostId.value == ""
    ensures Builds(rows + [r]) == Builds(rows)
  {
    assert Front(rows + [r]) == rows;
  }

  lemma {:induction false} OfAre(bs: seq<Build>, h: string, b: Build)
    ensures b in Of(bs, h) <==> b in bs && b.hostId == h
    decreases |bs|
  {
    if bs != [] {
      OfAre(Front(bs), h, b);
      assert bs == Front(bs) + [Last(bs)];
    }
  }

  /** What is displayed tells the host's builds apart: the first by the host alone, a later one by its number behind it. */
  lemma DisplayLabelTells(h: string, number: nat)
    ensures var text := DisplayLabel(h, number);
      && h <= text && (text == h <==> number == 0)
      && (number > 0 ==>
        && |text| > |h| + 2 && text[|h|..|h| + 2] == "#b"
        && (forall k :: |h| + 2 <= k < |text| ==> Text.IsDigit(text[k]))
        && text[|h| + 2..] == Text.Decimal(number) && Text.NumberOf(Text.Decimal(number)) == number)
  {
    if number > 0 {
      var digits := Text.Decimal(number);
      Text.DecimalRoundTrip(number);
      assert DisplayLabel(h, number) == h + ("#b" + digits);
      assert DisplayLabel(h, number)[|h| + 2..] == digits;
    }
  }

  predicate IsFrom(r: Record, rows: seq<Record>, h: string) {
    r in rows && r.hostId == Some(h)
  }

  /** All that a build holds are records of `rows` that carry its host id. */
  predicate HoldsOwn(b: Build, rows: seq<Record>) {
    && b.hostId != ""
    && (forall r :: r in b.native ==> IsFrom(r, rows, b.hostId))
    && (forall r :: r in b.settles ==> IsFrom(r, rows, b.hostId))
    && (b.open.Some? ==> IsFrom(b.open.value, rows, b.hostId))
    && (b.firstFrame.Some? ==> IsFrom(b.firstFrame.value, rows, b.hostId))
  }

  lemma AbsorbHoldsOwn(b: Build, rows: seq<Record>, r: Record)
    requires HoldsOwn(b, rows) && r.hostId == Some(b.hostId)
    ensures HoldsOwn(Absorb(b, r), rows + [r])
  {
  }

  lemma LaterHoldsOwn(b: Build, rows: seq<Record>, r: Record)
    requires HoldsOwn(b, rows)
    ensures HoldsOwn(b, rows + [r])
  {
  }

  /** No record strays into a build of another host, whatever the interleaving. */
  lemma {:induction false} RecordsStayWithTheirHost(rows: seq<Record>, i: nat)
    requires i < |Builds(rows)|
    ensures HoldsOwn(Builds(rows)[i], rows)
    decreases |rows|
  {
    var bs, r := Builds(Front(rows)), Last(rows);
    assert rows == Front(rows) + [r];
    if i < |bs| {
      RecordsStayWithTheirHost(Front(rows), i);
      LaterHoldsOwn(bs[i], Front(rows), r);
      if Builds(rows)[i] != bs[i] {
        AbsorbHoldsOwn(bs[i], Front(rows), r);
      }
    } else {
      AbsorbHoldsOwn(Fresh(r.hostId.value, |Of(bs, r.hostId.value)|), Front(rows), r);
    }
  }

  predicate Reports(r: Record, h: string) {
    r.hostId == Some(h) && r.sessionPath.Some? && r.sessionPath.value != ""
  }

  /** The label is the path of the first record of this very host that carries one. */
  lemma {:induction false} LabelIsFirstPath(rows: seq<Record>, h: string) returns (k: nat)
    requires h != ""
    ensures LabelOf(rows, h).None? <==> forall j :: 0 <= j < |rows| ==> !Reports(rows[j], h)
    ensures LabelOf(rows, h).Some? ==>
      && k < |rows| && Reports(rows[k], h) && rows[k].sessionPath == LabelOf(rows, h)
      && forall j :: 0 <= j < k ==> !Reports(rows[j], h)
    decreases |rows|
  {
    k := 0;
    if rows != [] {
      var before := Front(rows);
      k := LabelIsFirstPath(before, h);
      assert forall j :: 0 <= j < |before| ==> before[j] == rows[j];
      if LabelOf(before, h).None? {
        k := |before|;
      }
    }
  }

  // ------------------------------------------ builds as summaries of runs

  /** `x` earlier in a build makes `r` open the next one. */
  predicate Boundary(x: Record, r: Record) {
    if NativeBegin(r) then CanvasOpen(x) || NativeBegin(x)
    else r.name.MountOpen? && CanvasOpen(x)
  }

  function Summary(h: string, number: nat, run: seq<Record>): (b: Build)
    ensures b.hostId == h && b.number == number
  {
    if run == [] then Fresh(h, number) else Absorb(Summary(h, number, Front(run)), Last(run))
  }

  function Summaries(h: string, runs: seq<seq<Record>>): (bs: seq<Build>)
    ensures |bs| == |runs|
    ensures forall k :: 0 <= k < |runs| ==> bs[k] == Summary(h, k, runs[k])
  {
    if runs == [] then [] else Summaries(h, Front(runs)) + [Summary(h, |runs| - 1, Last(runs))]
  }

  function Keep(rs: seq<Record>, p: Record -> bool): (kept: seq<Record>) {
    if rs == [] then [] else Keep(Front(rs), p) + if p(Last(rs)) then [Last(rs)] else []
  }

  predicate IsNative(r: Record) { r.native }

  predicate IsReset(r: Record) { r.native && r.name.BootstrapReset? }

  predicate CanvasFirstFrame(r: Record) { !r.native && r.name.FirstFrame? }

  lemma {:induction false} KeepAppend(a: seq<Record>, b: seq<Record>, p: Record -> bool)
    ensures Keep(a + b, p) == Keep(a, p) + Keep(b, p)
    decreases |b|
  {
    if b == [] {
      assert a + b == a;
    } else {
      KeepAppend(a, Front(b), p);
      assert Front(a + b) == a + Front(b);
    }
  }

  lemma KeepOne(rs: seq<Record>, r: Record, p: Record -> bool)
    ensures Keep(rs + [r], p) == if p(r) then Keep(rs, p) + [r] else Keep(rs, p)
  {
    assert Front(rs + [r]) == rs;
  }

  lemma SummaryOne(h: string, number: nat, run: seq<Record>, r: Record)
    ensures Summary(h, number, run + [r]) == Absorb(Summary(h, number, run), r)
  {
    assert Front(run + [r]) == run;
  }

  /** What `run` leaves in the build `b`: its native and settle records in order, its resets counted, its last frame. */
  predicate IsKept(b: Build, run: seq<Record>) {
    && b.native == Keep(run, IsNative) && b.settles == Keep(run, CanvasSettle)
    && b.resets == |Keep(run, IsReset)|
    && b.firstFrame == if Keep(run, CanvasFirstFrame) == [] then None else Some(Last(Keep(run, CanvasFirstFrame)))
  }

  lemma AbsorbIsKept(b: Build, run: seq<Record>, r: Record)
    requires IsKept(b, run)
    ensures IsKept(Absorb(b, r), run + [r])
  {
    KeepOne(run, r, IsNative);
    KeepOne(run, r, CanvasSettle);
    KeepOne(run, r, IsReset);
    KeepOne(run, r, CanvasFirstFrame);
  }

  /** A build keeps its run's native and settle records in order, counts its resets, and has its last frame. */
  lemma {:induction false} SummaryKeeps(h: string, number: nat, run: seq<Record>)
    ensures IsKept(Summary(h, number, run), run)
    decreases |run|
  {
    if run != [] {
      SummaryKeeps(h, number, Front(run));
      AbsorbIsKept(Summary(h, number, Front(run)), Front(run), Last(run));
      SummaryOne(h, number, Front(run), Last(run));
      assert run == Front(run) + [Last(run)];
    }
  }

  /** The two facts a boundary test reads off the build are facts about its run. */
  lemma {:induction false} SummaryMarks(h: string, number: nat, run: seq<Record>)
    ensures Summary(h, number, run).open.Some? <==> exists k :: 0 <= k < |run| && CanvasOpen(run[k])
    ensures HasBegun(Summary(h, number, run).native) <==> exists k :: 0 <= k < |run| && NativeBegin(run[k])
    decreases |run|
  {
    if run != [] {
      var before, r := Summary(h, number, Front(run)), Last(run);
      SummaryMarks(h, number, Front(run));
      assert forall k :: 0 <= k < |run| - 1 ==> Front(run)[k] == run[k];
      if r.native {
        var native := before.native + [r];
        assert Summary(h, number, run).native == native;
        assert forall k :: 0 <= k < |before.native| ==> native[k] == before.native[k];
        assert native[|native| - 1] == r;
      }
    }
  }

  lemma OpensIsClash(h: string, number: nat, run: seq<Record>, r: Record)
    ensures Opens(Summary(h, number, run), r) <==> Clashes(run, r, Boundary)
  {
    SummaryMarks(h, number, run);
    assert forall k :: 0 <= k < |run| ==> (Boundary(run[k], r) <==>
      if NativeBegin(r) then CanvasOpen(run[k]) || NativeBegin(run[k]) else r.name.MountOpen? && CanvasOpen(run[k]));
  }

  lemma SummariesStep(h: string, runs: seq<seq<Record>>, r: Record)
    ensures HostStep(h, Summaries(h, runs), r) == Summaries(h, CutStep(runs, r, Boundary))
  {
    if runs != [] {
      OpensIsClash(h, |runs| - 1, Last(runs), r);
    }
    if runs == [] || Clashes(Last(runs), r, Boundary) {
      assert Front([r]) == [] && Front(runs + [[r]]) == runs;
      assert Summary(h, |runs|, [r]) == Absorb(Fresh(h, |runs|), r);
    } else {
      assert Front(Last(runs) + [r]) == Last(runs);
    }
  }

  /** A host's builds are the numbered summaries of the greedy cut of its records. */
  lemma {:induction false} HostBuildsAreSummaries(h: string, rs: seq<Record>)
    ensures HostBuilds(h, rs) == Summaries(h, Greedy(rs, Boundary))
    decreases |rs|
  {
    if rs != [] {
      HostBuildsAreSummaries(h, Front(rs));
      SummariesStep(h, Greedy(Front(rs), Boundary), Last(rs));
    }
  }

  lemma BuildsAreSummaries(rows: seq<Record>, h: string)
    ensures Of(Builds(rows), h) == Summaries(h, Greedy(HostRecords(rows, h), Boundary))
  {
    BuildsOfHost(rows, h);
    HostBuildsAreSummaries(h, HostRecords(rows, h));
  }

  // ------------------------------------------------------------- optimality

  /** The records of one surface: one begin, one canvas open, and no begin after the open. */
  ghost predicate OneSurface(run: seq<Record>) {
    forall i, j :: 0 <= i < j < |run| ==>
      && !(NativeBegin(run[i]) && NativeBegin(run[j]))
      && !(CanvasOpen(run[i]) && CanvasOpen(run[j]))
      && !(CanvasOpen(run[i]) && NativeBegin(run[j]))
  }

  /** A division of a host's records into consecutive non-empty runs of one surface each. */
  ghost predicate SurfaceCut(cut: seq<seq<Record>>, rs: seq<Record>) {
    && Flatten(cut) == rs
    && forall k :: 0 <= k < |cut| ==> cut[k] != [] && OneSurface(cut[k])
  }

  predicate SurfaceClash(x: Record, r: Record) {
    if NativeBegin(r) then CanvasOpen(x) || NativeBegin(x)
    else CanvasOpen(r) && CanvasOpen(x)
  }

  lemma SurfaceCutIsClashFree(cut: seq<seq<Record>>, rs: seq<Record>)
    ensures SurfaceCut(cut, rs) <==> IsCut(cut, rs, SurfaceClash)
  {
    forall run: seq<Record>
      ensures OneSurface(run) <==> ClashFree(run, SurfaceClash)
    {
      assert forall i, j :: 0 <= i < j < |run| ==> (SurfaceClash(run[i], run[j]) <==>
        ((NativeBegin(run[j]) && (CanvasOpen(run[i]) || NativeBegin(run[i]))) || (CanvasOpen(run[j]) && CanvasOpen(run[i]))));
    }
  }

  /** Whatever the stream, the runs behind a host's builds hold one surface each. */
  lemma BuildsHoldOneSurface(rows: seq<Record>, h: string)
    ensures SurfaceCut(Greedy(HostRecords(rows, h), Boundary), HostRecords(rows, h))
  {
    var rs := HostRecords(rows, h);
    var cut := Greedy(rs, Boundary);
    GreedyIsCut(rs, Boundary);
    forall k | 0 <= k < |cut|
      ensures ClashFree(cut[k], SurfaceClash)
    {
      assert forall i, j :: 0 <= i < j < |cut[k]| ==>
        (SurfaceClash(cut[k][i], cut[k][j]) ==> Boundary(cut[k][i], cut[k][j]));
    }
    SurfaceCutIsClashFree(cut, rs);
  }

  /** `r` cannot be of the surface that already had `x`: a begin after a begin or an open, or any mount_open after an open. */
  predicate Parts(x: Record, r: Record) {
    || (r.native && r.name == Begin && ((x.native && x.name == Begin) || (!x.native && x.name == MountOpen)))
    || (r.name == MountOpen && !x.native && x.name == MountOpen)
  }

  /** The run holds no two records that part. */
  ghost predicate KeepsTogether(run: seq<Record>) {
    forall i, j :: 0 <= i < j < |run| ==> !Parts(run[i], run[j])
  }

  ghost predicate PartsFrom(run: seq<Record>, r: Record) {
    exists i :: 0 <= i < |run| && Parts(run[i], r)
  }

  lemma BoundaryParts(run: seq<Record>, r: Record)
    ensures Clashes(run, r, Boundary) <==> PartsFrom(run, r)
    ensures ClashFree(run, Boundary) <==> KeepsTogether(run)
  {
    assert forall i :: 0 <= i < |run| ==> (Boundary(run[i], r) <==> Parts(run[i], r));
    assert forall i, j :: 0 <= i < j < |run| ==> (Boundary(run[i], run[j]) <==> Parts(run[i], run[j]));
  }

  /** Where builds open: within one no record parts from an earlier one, and the first record of the next one does. */
  lemma BuildsOpenWhereTheyMust(rows: seq<Record>, h: string)
    ensures var runs := Greedy(HostRecords(rows, h), Boundary);
      && Flatten(runs) == HostRecords(rows, h)
      && (forall k :: 0 <= k < |runs| ==> runs[k] != [] && KeepsTogether(runs[k]))
      && (forall k :: 0 < k < |runs| ==> PartsFrom(runs[k - 1], runs[k][0]))
  {
    var rs := HostRecords(rows, h);
    var runs := Greedy(rs, Boundary);
    GreedyIsCut(rs, Boundary);
    GreedyOpensOnClash(rs, Boundary);
    forall k | 0 <= k < |runs|
      ensures KeepsTogether(runs[k]) && (k > 0 ==> PartsFrom(runs[k - 1], runs[k][0]))
    {
      BoundaryParts(runs[k], runs[k][0]);
      if k > 0 {
        BoundaryParts(runs[k - 1], runs[k][0]);
      }
    }
  }

  predicate IsMark(r: Record) {
    NativeBegin(r) || CanvasOpen(r)
  }

  /** Position of the last native begin or canvas open. */
  function LastMark(rs: seq<Record>): (m: Option<nat>)
    ensures m.Some? ==> m.value < |rs| && IsMark(rs[m.value])
    ensures m.Some? ==> forall k :: m.value < k < |rs| ==> !IsMark(rs[k])
    ensures m.None? ==> forall k :: 0 <= k < |rs| ==> !IsMark(rs[k])
  {
    if rs == [] then None
    else if IsMark(Last(rs)) then Some(|rs| - 1)
    else LastMark(Front(rs))
  }

  predicate MarkIsOpen(rs: seq<Record>) {
    LastMark(rs).Some? && CanvasOpen(rs[LastMark(rs).value])
  }

  /** A native record named mount_open follows the canvas open that no begin or canvas open follows. */
  predicate TrailingNativeOpen(rs: seq<Record>) {
    MarkIsOpen(rs) && exists j :: LastMark(rs).value < j < |rs| && NativeOpen(rs[j])
  }

  ghost predicate Opened(run: seq<Record>) {
    exists k :: 0 <= k < |run| && CanvasOpen(run[k])
  }

  ghost predicate Begun(run: seq<Record>) {
    exists k :: 0 <= k < |run| && NativeBegin(run[k])
  }

  lemma MarksAppend(run: seq<Record>, r: Record)
    ensures Opened(run + [r]) <==> Opened(run) || CanvasOpen(r)
    ensures Begun(run + [r]) <==> Begun(run) || NativeBegin(r)
  {
    assert (run + [r])[|run|] == r;
    assert forall k :: 0 <= k < |run| ==> (run + [r])[k] == run[k];
  }

  lemma ClashesByMarks(run: seq<Record>, r: Record)
    ensures Clashes(run, r, Boundary) <==>
      if NativeBegin(r) then Opened(run) || Begun(run) else r.name.MountOpen? && Opened(run)
    ensures Clashes(run, r, SurfaceClash) <==>
      if NativeBegin(r) then Opened(run) || Begun(run) else CanvasOpen(r) && Opened(run)
  {
    assert forall k :: 0 <= k < |run| ==> (Boundary(run[k], r) <==>
      if NativeBegin(r) then CanvasOpen(run[k]) || NativeBegin(run[k]) else r.name.MountOpen? && CanvasOpen(run[k]));
    assert forall k :: 0 <= k < |run| ==> (SurfaceClash(run[k], r) <==>
      if NativeBegin(r) then CanvasOpen(run[k]) || NativeBegin(run[k]) else CanvasOpen(r) && CanvasOpen(run[k]));
  }

  lemma TrailingStep(rs: seq<Record>)
    requires rs != []
    ensures MarkIsOpen(rs) <==> CanvasOpen(Last(rs)) || (!NativeBegin(Last(rs)) && MarkIsOpen(Front(rs)))
    ensures TrailingNativeOpen(rs) <==>
      !IsMark(Last(rs)) && (TrailingNativeOpen(Front(rs)) || (NativeOpen(Last(rs)) && MarkIsOpen(Front(rs))))
  {
    var before := Front(rs);
    if !IsMark(Last(rs)) && MarkIsOpen(before) {
      var m := LastMark(before).value;
      assert LastMark(rs) == Some(m);
      assert forall j :: 0 <= j < |before| ==> rs[j] == before[j];
      if NativeOpen(Last(rs)) {
        assert NativeOpen(rs[|rs| - 1]);
      }
    }
  }

  /** The state of the two greedy passes, the script's and the surface one, after the same records. */
  ghost predicate Compared(rs: seq<Record>, code: seq<seq<Record>>, surface: seq<seq<Record>>) {
    && |code| == |surface| + (if TrailingNativeOpen(rs) then 1 else 0)
    && (rs == [] <==> surface == [])
    && (rs == [] ==> code == [])
    && (rs != [] ==>
      && (Opened(Last(surface)) <==> MarkIsOpen(rs))
      && (if TrailingNativeOpen(rs) then !Opened(Last(code)) && !Begun(Last(code))
          else (Opened(Last(code)) <==> Opened(Last(surface))) && (Begun(Last(code)) <==> Begun(Last(surface)))))
  }

  /** What one record does to the number of runs and to the marks of the last. */
  lemma CutStepMarks(runs: seq<seq<Record>>, r: Record, clash: (Record, Record) -> bool)
    ensures var next, c := CutStep(runs, r, clash), runs == [] || Clashes(Last(runs), r, clash);
      && |next| == |runs| + (if c then 1 else 0) && next != []
      && (Opened(Last(next)) <==> CanvasOpen(r) || (!c && Opened(Last(runs))))
      && (Begun(Last(next)) <==> NativeBegin(r) || (!c && Begun(Last(runs))))
  {
    if runs == [] || Clashes(Last(runs), r, clash) {
      MarksAppend([], r);
      assert [] + [r] == [r];
    } else {
      MarksAppend(Last(runs), r);
    }
  }

  lemma ComparedStep(rs: seq<Record>, code: seq<seq<Record>>, surface: seq<seq<Record>>)
    requires rs != [] && Compared(Front(rs), code, surface)
    ensures Compared(rs, CutStep(code, Last(rs), Boundary), CutStep(surface, Last(rs), SurfaceClash))
  {
    var r := Last(rs);
    TrailingStep(rs);
    CutStepMarks(code, r, Boundary);
    CutStepMarks(surface, r, SurfaceClash);
    if surface != [] {
      ClashesByMarks(Last(code), r);
      ClashesByMarks(Last(surface), r);
    }
  }

  lemma {:induction false} CutsCompared(rs: seq<Record>)
    ensures Compared(rs, Greedy(rs, Boundary), Greedy(rs, SurfaceClash))
    decreases |rs|
  {
    if rs != [] {
      CutsCompared(Front(rs));
      ComparedStep(rs, Greedy(Front(rs), Boundary), Greedy(Front(rs), SurfaceClash));
    }
  }

  /**
   The script uses as few builds as surfaces allow exactly when no native record
   named mount_open trails the host's last canvas open; otherwise it uses one more.
   */
  lemma BuildsAreFewestIff(rows: seq<Record>, h: string)
    ensures var rs := HostRecords(rows, h); var n := |Of(Builds(rows), h)|;
      && ((forall cut :: SurfaceCut(cut, rs) ==> n <= |cut|) <==> !TrailingNativeOpen(rs))
      && (exists cut :: SurfaceCut(cut, rs) && n == |cut| + if TrailingNativeOpen(rs) then 1 else 0)
  {
    var rs := HostRecords(rows, h);
    var best := Greedy(rs, SurfaceClash);
    BuildsAreSummaries(rows, h);
    CutsCompared(rs);
    GreedyIsCut(rs, SurfaceClash);
    SurfaceCutIsClashFree(best, rs);
    forall cut | SurfaceCut(cut, rs)
      ensures |best| <= |cut|
    {
      SurfaceCutIsClashFree(cut, rs);
      GreedyMinimal(rs, cut, SurfaceClash);
    }
  }

  lemma TwoRecords(x: Record, y: Record, h: string)
    requires MountKey(x) == MountKey(y) == Some(h)
    ensures HostRecords([x, y], h) == [x, y]
    ensures Of(Builds([x, y]), h) == HostStep(h, [Absorb(Fresh(h, 0), x)], y)
  {
    BuildsOfHost([x, y], h);
    assert Front([x, y]) == [x] && Front([x]) == [];
    assert HostRecords([x], h) == [] + [x];
    assert HostBuilds(h, [x]) == [] + [Absorb(Fresh(h, 0), x)];
  }

  lemma TrailingPair(x: Record, y: Record)
    requires CanvasOpen(x) && NativeOpen(y)
    ensures TrailingNativeOpen([x, y])
  {
    var rs := [x, y];
    assert Front(rs) == [x] && Last(rs) == y;
    assert LastMark([x]) == Some(0);
    assert LastMark(rs) == Some(0);
    assert NativeOpen(rs[1]);
  }

  lemma OneRun(run: seq<Record>)
    requires run != [] && OneSurface(run)
    ensures SurfaceCut([run], run)
  {
    FlattenExtend([], run);
    assert [] + [run] == [run] && Flatten<Record>([]) == [];
  }

  /** One surface counted as two builds: a canvas open and a native record of that name behind it. */
  lemma NativeOpenSplitsASurface(x: Record, y: Record, h: string)
    requires CanvasOpen(x) && NativeOpen(y) && MountKey(x) == MountKey(y) == Some(h)
    ensures TrailingNativeOpen(HostRecords([x, y], h))
    ensures SurfaceCut([[x, y]], HostRecords([x, y], h)) && |Of(Builds([x, y]), h)| == 2
  {
    TwoRecords(x, y, h);
    TrailingPair(x, y);
    OneRun([x, y]);
  }

  /** Such a stream is easily written down. */
  lemma TrailingNativeOpenOccurs()
    ensures exists rows :: TrailingNativeOpen(HostRecords(rows, "h"))
  {
    NativeOpenSplitsASurface(Record(false, MountOpen, Some("h"), None, ""), Record(true, MountOpen, Some("h"), None, ""), "h");
  }

  /** Streams whose native records are never named mount_open are cut optimally. */
  lemma BuildsAreFewest(rows: seq<Record>, h: string, cut: seq<seq<Record>>)
    requires forall k :: 0 <= k < |rows| ==> !NativeOpen(rows[k])
    requires SurfaceCut(cut, HostRecords(rows, h))
    ensures |Of(Builds(rows), h)| <= |cut|
  {
    NoTrailingNativeOpen(rows, h);
    BuildsAreFewestIff(rows, h);
  }

  lemma NoTrailingNativeOpen(rows: seq<Record>, h: string)
    requires forall k :: 0 <= k < |rows| ==> !NativeOpen(rows[k])
    ensures !TrailingNativeOpen(HostRecords(rows, h))
  {
    var rs := HostRecords(rows, h);
    HostRecordsKeep(rows, h);
    forall j | 0 <= j < |rs|
      ensures !NativeOpen(rs[j])
    {
      assert rs[j] in rows;
    }
  }

  lemma {:induction false} HostRecordsKeep(rows: seq<Record>, h: string)
    ensures forall r :: r in HostRecords(rows, h) <==> r in rows && MountKey(r) == Some(h)
    decreases |rows|
  {
    if rows != [] {
      HostRecordsKeep(Front(rows), h);
      assert rows == Front(rows) + [Last(rows)];
    }
  }

  // ----------------------------------------------------------- conservation

  function NativeOf(b: Build): (rs: seq<Record>) { b.native }

  function SettlesOf(b: Build): (rs: seq<Record>) { b.settles }

  function OpensOf(b: Build): (rs: seq<Record>) { if b.open.Some? then [b.open.value] else [] }

  function Gather(bs: seq<Build>, f: Build -> seq<Record>): (rs: seq<Record>) {
    if bs == [] then [] else Gather(Front(bs), f) + f(Last(bs))
  }

  lemma {:induction false} GatherIsKeep(h: string, runs: seq<seq<Record>>, f: Build -> seq<Record>, p: Record -> bool)
    requires forall k :: 0 <= k < |runs| ==> f(Summary(h, k, runs[k])) == Keep(runs[k], p)
    ensures Gather(Summaries(h, runs), f) == Keep(Flatten(runs), p)
    decreases |runs|
  {
    if runs != [] {
      GatherIsKeep(h, Front(runs), f, p);
      KeepAppend(Flatten(Front(runs)), Last(runs), p);
    }
  }

  lemma {:induction false} SummaryOpen(h: string, number: nat, run: seq<Record>)
    requires OneSurface(run)
    ensures OpensOf(Summary(h, number, run)) == Keep(run, CanvasOpen)
    decreases |run|
  {
    if run != [] {
      SummaryOpen(h, number, Front(run));
      SummaryMarks(h, number, Front(run));
    }
  }

  /**
   Nothing is lost, doubled or moved: a host's builds, numbered 0, 1, 2, ..., hold its native
   and settle records in order and each of its canvas opens exactly once.
   */
  lemma BuildsConserve(rows: seq<Record>, h: string)
    ensures var own, rs := Of(Builds(rows), h), HostRecords(rows, h);
      && Gather(own, NativeOf) == Keep(rs, IsNative)
      && Gather(own, SettlesOf) == Keep(rs, CanvasSettle)
      && Gather(own, OpensOf) == Keep(rs, CanvasOpen)
      && forall k :: 0 <= k < |own| ==> own[k].hostId == h && own[k].number == k
  {
    var rs := HostRecords(rows, h);
    var runs := Greedy(rs, Boundary);
    BuildsAreSummaries(rows, h);
    BuildsHoldOneSurface(rows, h);
    forall k | 0 <= k < |runs|
      ensures NativeOf(Summary(h, k, runs[k])) == Keep(runs[k], IsNative)
      ensures SettlesOf(Summary(h, k, runs[k])) == Keep(runs[k], CanvasSettle)
      ensures OpensOf(Summary(h, k, runs[k])) == Keep(runs[k], CanvasOpen)
    {
      SummaryKeeps(h, k, runs[k]);
      SummaryOpen(h, k, runs[k]);
    }
    GatherIsKeep(h, runs, NativeOf, IsNative);
    GatherIsKeep(h, runs, SettlesOf, CanvasSettle);
    GatherIsKeep(h, runs, OpensOf, CanvasOpen);
  }

  // -------------------------------------------------------------- stability

  /** A build that a later one of its host has superseded. */
  predicate Superseded(bs: seq<Build>, i: nat)
    requires i < |bs|
  {
    LastOf(bs, bs[i].hostId) != Some(i)
  }

  /** On any extension of the stream a superseded build stays as it is, where it is. */
  lemma {:induction false} SupersededIsFrozen(rows: seq<Record>, more: seq<Record>, i: nat)
    requires i < |Builds(rows)| && Superseded(Builds(rows), i)
    ensures i < |Builds(rows + more)| && Builds(rows + more)[i] == Builds(rows)[i]
    ensures Superseded(Builds(rows + more), i)
    decreases |more|
  {
    if more == [] {
      assert rows + more == rows;
    } else {
      SupersededIsFrozen(rows, Front(more), i);
      assert Front(rows + more) == rows + Front(more) && Last(rows + more) == Last(more);
      StepFreezes(Builds(rows + Front(more)), Last(more), i);
    }
  }

  lemma StepFreezes(bs: seq<Build>, r: Record, i: nat)
    requires i < |bs| && Superseded(bs, i)
    ensures i < |Step(bs, r)| && Step(bs, r)[i] == bs[i] && Superseded(Step(bs, r), i)
  {
    var after, h := Step(bs, r), bs[i].hostId;
    var last := LastOf(bs, h).value;
    assert after[last].hostId == h && i < last;
  }

  lemma {:induction false} LabelIsNotEmpty(rows: seq<Record>, h: string)
    ensures LabelOf(rows, h).Some? ==> LabelOf(rows, h).value != ""
    decreases |rows|
  {
    if rows != [] {
      LabelIsNotEmpty(Front(rows), h);
    }
  }

  lemma {:induction false} LabelOnExtension(rows: seq<Record>, more: seq<Record>, h: string)
    ensures LabelOf(rows + more, h) == if LabelOf(rows, h).Some? then LabelOf(rows, h) else LabelOf(more, h)
    decreases |more|
  {
    if more == [] {
      assert rows + more == rows;
    } else {
      LabelOnExtension(rows, Front(more), h);
      assert Front(rows + more) == rows + Front(more) && Last(rows + more) == Last(more);
    }
  }

  /**
   The session a build is labelled with is settled by the first path its host reports:
   an extension changes it exactly when it is still empty and the extension brings a path,
   and then on superseded builds too.
   */
  lemma SessionOnExtension(rows: seq<Record>, more: seq<Record>, h: string)
    ensures SessionOf(rows + more, h) == if SessionOf(rows, h) != "" then SessionOf(rows, h) else SessionOf(more, h)
    ensures SessionOf(rows + more, h) != SessionOf(rows, h) <==> SessionOf(rows, h) == "" && SessionOf(more, h) != ""
  {
    LabelOnExtension(rows, more, h);
    LabelIsNotEmpty(rows, h);
  }

  lemma LabelOfOne(r: Record, h: string)
    requires MountKey(r) == Some(h)
    ensures SessionOf([r], h) == if r.sessionPath.Some? then r.sessionPath.value else ""
  {
    assert Front([r]) == [] && Last([r]) == r;
    assert LabelOf([], h) == None;
  }

  /** A superseded build does change in its label: an open and a begin without a path, and then a record with one. */
  lemma SupersededLabelChanges(x: Record, y: Record, z: Record, h: string)
    requires CanvasOpen(x) && NativeBegin(y) && MountKey(x) == MountKey(y) == MountKey(z) == Some(h)
    requires x.sessionPath.None? && y.sessionPath.None? && z.sessionPath.Some? && z.sessionPath.value != ""
    ensures var bs := Builds([x, y]); |bs| == 2 && bs[0].hostId == h && Superseded(bs, 0)
    ensures SessionOf([x, y], h) == "" && SessionOf([x, y] + [z], h) == z.sessionPath.value
  {
    assert Front([x, y]) == [x] && Front([x]) == [];
    assert Builds([x]) == [Absorb(Fresh(h, 0), x)];
    LabelOfOne(x, h);
    LabelOfOne(y, h);
    LabelOfOne(z, h);
    SessionOnExtension([x], [y], h);
    assert [x] + [y] == [x, y];
    SessionOnExtension([x, y], [z], h);
  }

  // ------------------------------------------------------ the one-pass loop

  /** The dictionary the script appends to `builds`, also held by `current`. */
  class Entry {
    const hostId: string
    const number: nat
    var native: seq<Record>
    var open: Option<Record>
    var firstFrame: Option<Record>
    var settles: seq<Record>
    var resets: nat
    var session: string
    var displayLabel: string

    constructor (h: string, number: nat)
      ensures View() == Fresh(h, number)
    {
      hostId, this.number := h, number;
      native, open, firstFrame, settles, resets := [], None, None, [], 0;
      session, displayLabel := "", "";
    }

    function View(): (b: Build)
      reads this
    {
      Build(hostId, number, native, open, firstFrame, settles, resets)
    }

    method Add(r: Record)
      modifies this`native, this`open, this`firstFrame, this`settles, this`resets
      ensures View() == Absorb(old(View()), r)
    {
      if r.native {
        native := native + [r];
        if r.name.BootstrapReset? {
          resets := resets + 1;
        }
      } else if r.name.MountOpen? {
        open := Some(r);
      } else if r.name.FirstFrame? {
        firstFrame := Some(r);
      } else if r.name.Settle? {
        settles := settles + [r];
      }
    }
  }

  /** The entries are separate objects and show the builds `bs`. */
  ghost predicate Shows(entries: seq<Entry>, bs: seq<Build>)
    reads entries
  {
    && |entries| == |bs|
    && (forall i, j :: 0 <= i < j < |entries| ==> entries[i] != entries[j])
    && forall i :: 0 <= i < |entries| ==> entries[i].View() == bs[i]
  }

  /** `current` leads every host to the entry of its last build. */
  ghost predicate Tracks(current: map<string, Entry>, entries: seq<Entry>, bs: seq<Build>)
    requires |entries| == |bs|
  {
    forall h :: (h in current <==> LastOf(bs, h).Some?) && (h in current ==> current[h] == entries[LastOf(bs, h).value])
  }

  method CountBuilds(entries: seq<Entry>, h: string) returns (n: nat)
    ensures forall bs :: Shows(entries, bs) ==> n == |Of(bs, h)|
  {
    n := 0;
    for i := 0 to |entries|
      invariant forall bs :: Shows(entries, bs) ==> n == |Of(bs[..i], h)|
    {
      assert forall bs: seq<Build> :: Shows(entries, bs) ==> Front(bs[..i + 1]) == bs[..i];
      if entries[i].hostId == h {
        n := n + 1;
      }
    }
    assert forall bs: seq<Build> :: Shows(entries, bs) ==> bs[..|entries|] == bs;
  }

  lemma LastOfAppend(bs: seq<Build>, b: Build, h: string)
    ensures LastOf(bs + [b], h) == if b.hostId == h then Some(|bs|) else LastOf(bs, h)
  {
    assert Front(bs + [b]) == bs;
  }

  lemma {:induction false} LastOfUpdate(bs: seq<Build>, i: nat, b: Build, h: string)
    requires i < |bs| && b.hostId == bs[i].hostId
    ensures LastOf(bs[i := b], h) == LastOf(bs, h)
    decreases |bs|
  {
    if i == |bs| - 1 {
      assert Front(bs[i := b]) == Front(bs);
    } else {
      assert Front(bs[i := b]) == Front(bs)[i := b];
      LastOfUpdate(Front(bs), i, b, h);
    }
  }

  /** The script's nested `open_build`: append an entry and make it current. */
  method OpenBuild(entries: seq<Entry>, current: map<string, Entry>, h: string, ghost bs: seq<Build>)
    returns (entries': seq<Entry>, current': map<string, Entry>)
    requires Shows(entries, bs) && Tracks(current, entries, bs)
    ensures |entries'| == |entries| + 1 && entries == entries'[..|entries|] && fresh(entries'[|entries|])
    ensures Shows(entries', bs + [Fresh(h, |Of(bs, h)|)])
    ensures Tracks(current', entries', bs + [Fresh(h, |Of(bs, h)|)])
    ensures current' == current[h := entries'[|entries|]]
  {
    var number := CountBuilds(entries, h);
    var entry := new Entry(h, number);
    entries', current' := entries + [entry], current[h := entry];
    forall k {
      LastOfAppend(bs, Fresh(h, number), k);
    }
  }

  /** `bs` with one more record absorbed by the last build of its host. */
  function WithRecord(bs: seq<Build>, h: string, r: Record): (bs': seq<Build>)
    requires LastOf(bs, h).Some?
  {
    var i := LastOf(bs, h).value;
    bs[i := Absorb(bs[i], r)]
  }

  lemma StepByHand(bs: seq<Build>, h: string, r: Record)
    requires MountKey(r) == Some(h)
    ensures var i := LastOf(bs, h);
      if i.None? || Opens(bs[i.value], r) then
        var open := bs + [Fresh(h, |Of(bs, h)|)];
        LastOf(open, h).Some? && Step(bs, r) == WithRecord(open, h, r)
      else Step(bs, r) == WithRecord(bs, h, r)
  {
    LastOfAppend(bs, Fresh(h, |Of(bs, h)|), h);
  }

  method AddRecord(entries: seq<Entry>, current: map<string, Entry>, h: string, r: Record, ghost bs: seq<Build>)
    requires Shows(entries, bs) && Tracks(current, entries, bs) && h in current
    modifies entries
    ensures Shows(entries, WithRecord(bs, h, r)) && Tracks(current, entries, WithRecord(bs, h, r))
  {
    ghost var i := LastOf(bs, h).value;
    current[h].Add(r);
    forall k {
      LastOfUpdate(bs, i, Absorb(bs[i], r), k);
    }
  }

  /** One round of the loop over the records of known hosts. */
  method Feed(entries: seq<Entry>, current: map<string, Entry>, h: string, r: Record, ghost bs: seq<Build>)
    returns (entries': seq<Entry>, current': map<string, Entry>)
    requires Shows(entries, bs) && Tracks(current, entries, bs) && MountKey(r) == Some(h)
    modifies entries
    ensures forall i :: 0 <= i < |entries'| ==> entries'[i] in entries || fresh(entries'[i])
    ensures Shows(entries', Step(bs, r)) && Tracks(current', entries', Step(bs, r))
  {
    entries', current' := entries, current;
    ghost var open, i := bs, LastOf(bs, h);
    StepByHand(bs, h, r);
    assert h in current ==> current[h].View() == bs[i.value];
    if h !in current || Opens(current[h].View(), r) {
      open := bs + [Fresh(h, |Of(bs, h)|)];
      entries', current' := OpenBuild(entries, current, h, bs);
    }
    assert Step(bs, r) == WithRecord(open, h, r);
    AddRecord(entries', current', h, r, open);
  }

  /** The closing loop, which labels every entry from the paths collected on the way. */
  method LabelEntries(entries: seq<Entry>, labels: map<string, string>, ghost bs: seq<Build>)
    requires Shows(entries, bs)
    modifies entries
    ensures Shows(entries, bs)
    ensures forall i :: 0 <= i < |entries| ==>
      && entries[i].session == (if entries[i].hostId in labels then labels[entries[i].hostId] else "")
      && entries[i].displayLabel == DisplayLabel(entries[i].hostId, entries[i].number)
  {
    for i := 0 to |entries|
      invariant Shows(entries, bs)
      invariant forall k :: 0 <= k < i ==>
        && entries[k].session == (if entries[k].hostId in labels then labels[entries[k].hostId] else "")
        && entries[k].displayLabel == DisplayLabel(entries[k].hostId, entries[k].number)
    {
      entries[i].session := if entries[i].hostId in labels then labels[entries[i].hostId] else "";
      entries[i].displayLabel := DisplayLabel(entries[i].hostId, entries[i].number);
    }
  }

  /** The script's `build`: one pass over the stream, updating the entries in place. */
  method BuildSurfaces(rows: seq<Record>) returns (entries: seq<Entry>)
    ensures forall i :: 0 <= i < |entries| ==> fresh(entries[i])
    ensures Shows(entries, Builds(rows))
    ensures forall i :: 0 <= i < |entries| ==>
      && entries[i].session == SessionOf(rows, entries[i].hostId)
      && entries[i].displayLabel == DisplayLabel(entries[i].hostId, entries[i].number)
  {
    entries := [];
    var labels: map<string, string> := map[];
    var current: map<string, Entry> := map[];
    for n := 0 to |rows|
      invariant forall i :: 0 <= i < |entries| ==> fresh(entries[i])
      invariant Shows(entries, Builds(rows[..n]))
      invariant Tracks(current, entries, Builds(rows[..n]))
      invariant forall h :: LabelOf(rows[..n], h) == if h in labels then Some(labels[h]) else None
    {
      var r := rows[n];
      assert Front(rows[..n + 1]) == rows[..n];
      var key := MountKey(r);
      if key.Some? {
        if r.sessionPath.Some? && r.sessionPath.value != "" && key.value !in labels {
          labels := labels[key.value := r.sessionPath.value];
        }
        entries, current := Feed(entries, current, key.value, r, Builds(rows[..n]));
      }
    }
    assert rows[..|rows|] == rows;
    LabelEntries(entries, labels, Builds(rows));
  }
}
