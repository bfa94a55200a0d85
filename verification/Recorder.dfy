/**
 scripts/resource-recorder.py: CPU percentages from counter deltas, and retention
 by a byte budget.
 */
module Recorder {
  import opened Options

  /** A pid is reused; with its start time it is not. */
  datatype Key = Key(pid: int, start: int)

  /** One tracked process as one round reads it: its user and kernel jiffies. */
  datatype Obs = Obs(key: Key, utime: int, stime: int)

  datatype Reading = Reading(utime: int, stime: int, atMs: int)

  /** A row of the samples table; the columns that only copy a reading are not modelled. */
  datatype Sample = Sample(tsMs: int, pid: int, userPct: real, kernelPct: real)

  /** What one round of the loop meets: its time, the processes, the system row, and the file size at pruning. */
  datatype Round = Round(nowMs: int, seen: seq<Obs>, systemMs: int, systemRow: string, fileSize: Option<nat>)

  // --------------------------------------------------------------- sampling

  /** Jiffies as a percentage of one core over the milliseconds elapsed. */
  function Pct(jiffies: int, clk: nat, elapsedMs: int): (pct: real)
    requires clk > 0 && elapsedMs > 0
  {
    jiffies as real / clk as real / (elapsedMs as real / 1000.0) * 100.0
  }

  function Record(o: Obs, nowMs: int): (r: Reading) {
    Reading(o.utime, o.stime, nowMs)
  }

  /** The row an observation inserts, if the process was read before, at an earlier time. */
  function RowFor(prev: map<Key, Reading>, o: Obs, nowMs: int, clk: nat): (row: Option<Sample>)
    requires clk > 0
  {
    if o.key in prev && nowMs > prev[o.key].atMs then
      var p := prev[o.key];
      Some(Sample(nowMs, o.key.pid, Pct(o.utime - p.utime, clk, nowMs - p.atMs), Pct(o.stime - p.stime, clk, nowMs - p.atMs)))
    else None
  }

  function PrevAfter(prev: map<Key, Reading>, seen: seq<Obs>, nowMs: int): (prev': map<Key, Reading>) {
    if seen == [] then prev
    else
      var o := seen[|seen| - 1];
      PrevAfter(prev, seen[..|seen| - 1], nowMs)[o.key := Record(o, nowMs)]
  }

  function RowsOf(prev: map<Key, Reading>, seen: seq<Obs>, nowMs: int, clk: nat): (rows: seq<Sample>)
    requires clk > 0
    ensures forall k :: 0 <= k < |rows| ==> rows[k].tsMs == nowMs
  {
    if seen == [] then []
    else
      var before := seen[..|seen| - 1];
      var row := RowFor(PrevAfter(prev, before, nowMs), seen[|seen| - 1], nowMs, clk);
      RowsOf(prev, before, nowMs, clk) + if row.Some? then [row.value] else []
  }

  /** The row of an observation: percentages times the clock rate and the milliseconds give back a hundred thousand times the jiffies. */
  predicate IsReading(prev: map<Key, Reading>, o: Obs, nowMs: int, clk: nat, row: Sample) {
    && o.key in prev && nowMs > prev[o.key].atMs && row.tsMs == nowMs && row.pid == o.key.pid
    && row.userPct * (clk * (nowMs - prev[o.key].atMs)) as real == (100000 * (o.utime - prev[o.key].utime)) as real
    && row.kernelPct * (clk * (nowMs - prev[o.key].atMs)) as real == (100000 * (o.stime - prev[o.key].stime)) as real
  }

  lemma PctIs(jiffies: int, clk: nat, elapsedMs: int)
    requires clk > 0 && elapsedMs > 0
    ensures Pct(jiffies, clk, elapsedMs) * (clk * elapsedMs) as real == (100000 * jiffies) as real
  {
    var c, s := clk as real, elapsedMs as real / 1000.0;
    assert s > 0.0;
    var rate := jiffies as real / c;
    assert rate * c == jiffies as real;
    var load := rate / s;
    assert load * s == rate;
    assert (clk * elapsedMs) as real == c * (s * 1000.0);
    assert load * 100.0 * (c * (s * 1000.0)) == 100000.0 * ((load * s) * c);
  }

  lemma RowIsReading(prev: map<Key, Reading>, o: Obs, nowMs: int, clk: nat)
    requires clk > 0
    ensures RowFor(prev, o, nowMs, clk).Some? <==> o.key in prev && nowMs > prev[o.key].atMs
    ensures RowFor(prev, o, nowMs, clk).Some? ==> IsReading(prev, o, nowMs, clk, RowFor(prev, o, nowMs, clk).value)
  {
    if o.key in prev && nowMs > prev[o.key].atMs {
      PctIs(o.utime - prev[o.key].utime, clk, nowMs - prev[o.key].atMs);
      PctIs(o.stime - prev[o.key].stime, clk, nowMs - prev[o.key].atMs);
    }
  }

  predicate OncePerRound(seen: seq<Obs>) {
    forall i, j :: 0 <= i < j < |seen| ==> seen[i].key != seen[j].key
  }

  lemma {:induction false} UnseenStays(prev: map<Key, Reading>, seen: seq<Obs>, nowMs: int, key: Key)
    requires forall k :: 0 <= k < |seen| ==> seen[k].key != key
    ensures key in PrevAfter(prev, seen, nowMs) <==> key in prev
    ensures key in prev ==> PrevAfter(prev, seen, nowMs)[key] == prev[key]
    decreases |seen|
  {
    if seen != [] {
      UnseenStays(prev, seen[..|seen| - 1], nowMs, key);
    }
  }

  predicate HasRow(rows: seq<Sample>, prev: map<Key, Reading>, o: Obs, nowMs: int, clk: nat) {
    exists k :: 0 <= k < |rows| && IsReading(prev, o, nowMs, clk, rows[k])
  }

  predicate IsOfSome(row: Sample, prev: map<Key, Reading>, seen: seq<Obs>, nowMs: int, clk: nat) {
    exists k :: 0 <= k < |seen| && IsReading(prev, seen[k], nowMs, clk, row)
  }

  lemma LastReading(prev: map<Key, Reading>, before: seq<Obs>, o: Obs, nowMs: int, clk: nat)
    requires clk > 0 && OncePerRound(before + [o])
    ensures var row := RowFor(PrevAfter(prev, before, nowMs), o, nowMs, clk);
      && (row.Some? <==> o.key in prev && nowMs > prev[o.key].atMs)
      && (row.Some? ==> IsReading(prev, o, nowMs, clk, row.value))
  {
    var all := before + [o];
    assert all[|before|] == o && forall k :: 0 <= k < |before| ==> all[k] == before[k];
    UnseenStays(prev, before, nowMs, o.key);
    RowIsReading(PrevAfter(prev, before, nowMs), o, nowMs, clk);
  }

  lemma ReadingsGrow(rows: seq<Sample>, more: seq<Sample>, prev: map<Key, Reading>, seen: seq<Obs>, o: Obs, nowMs: int, clk: nat)
    ensures forall x :: HasRow(rows, prev, x, nowMs, clk) ==> HasRow(rows + more, prev, x, nowMs, clk)
    ensures forall row :: IsOfSome(row, prev, seen, nowMs, clk) ==> IsOfSome(row, prev, seen + [o], nowMs, clk)
  {
    forall x | HasRow(rows, prev, x, nowMs, clk)
      ensures HasRow(rows + more, prev, x, nowMs, clk)
    {
      var k :| 0 <= k < |rows| && IsReading(prev, x, nowMs, clk, rows[k]);
      assert (rows + more)[k] == rows[k];
    }
    forall row | IsOfSome(row, prev, seen, nowMs, clk)
      ensures IsOfSome(row, prev, seen + [o], nowMs, clk)
    {
      var k :| 0 <= k < |seen| && IsReading(prev, seen[k], nowMs, clk, row);
      assert (seen + [o])[k] == seen[k];
    }
  }

  /** A round inserts a row for every process that was read before, at an earlier time, and rows for nothing else. */
  lemma {:induction false} RowsAreReadings(prev: map<Key, Reading>, seen: seq<Obs>, nowMs: int, clk: nat)
    requires clk > 0 && OncePerRound(seen)
    ensures forall row :: row in RowsOf(prev, seen, nowMs, clk) ==> IsOfSome(row, prev, seen, nowMs, clk)
    ensures forall k :: 0 <= k < |seen| && seen[k].key in prev && nowMs > prev[seen[k].key].atMs ==>
      HasRow(RowsOf(prev, seen, nowMs, clk), prev, seen[k], nowMs, clk)
    decreases |seen|
  {
    if seen != [] {
      var before, o := seen[..|seen| - 1], seen[|seen| - 1];
      assert seen == before + [o] && forall k :: 0 <= k < |before| ==> before[k] == seen[k];
      RowsAreReadings(prev, before, nowMs, clk);
      LastReading(prev, before, o, nowMs, clk);
      var rows, row := RowsOf(prev, before, nowMs, clk), RowFor(PrevAfter(prev, before, nowMs), o, nowMs, clk);
      var more := if row.Some? then [row.value] else [];
      ReadingsGrow(rows, more, prev, before, o, nowMs, clk);
      if row.Some? {
        assert (rows + more)[|rows|] == row.value;
        assert seen[|before|] == o;
      }
    }
  }

  // -------------------------------------------------------------- retention

  function MinTs(rows: seq<Sample>): (ts: int)
    requires rows != []
  {
    if |rows| == 1 then rows[0].tsMs
    else
      var m := MinTs(rows[..|rows| - 1]);
      if rows[|rows| - 1].tsMs < m then rows[|rows| - 1].tsMs else m
  }

  function MaxTs(rows: seq<Sample>): (ts: int)
    requires rows != []
  {
    if |rows| == 1 then rows[0].tsMs
    else
      var m := MaxTs(rows[..|rows| - 1]);
      if rows[|rows| - 1].tsMs > m then rows[|rows| - 1].tsMs else m
  }

  lemma {:induction false} Extremes(rows: seq<Sample>) returns (low: nat, high: nat)
    requires rows != []
    ensures low < |rows| && rows[low].tsMs == MinTs(rows)
    ensures high < |rows| && rows[high].tsMs == MaxTs(rows)
    ensures forall k :: 0 <= k < |rows| ==> MinTs(rows) <= rows[k].tsMs <= MaxTs(rows)
    decreases |rows|
  {
    low, high := 0, 0;
    if |rows| > 1 {
      var before, last := rows[..|rows| - 1], rows[|rows| - 1].tsMs;
      low, high := Extremes(before);
      assert forall k :: 0 <= k < |before| ==> before[k] == rows[k];
      low := if last < MinTs(before) then |rows| - 1 else low;
      high := if last > MaxTs(before) then |rows| - 1 else high;
    }
  }

  function KeepFrom(rows: seq<Sample>, cut: int): (kept: seq<Sample>) {
    if rows == [] then []
    else
      var last := rows[|rows| - 1];
      KeepFrom(rows[..|rows| - 1], cut) + if last.tsMs >= cut then [last] else []
  }

  lemma {:induction false} KeepFromMembers(rows: seq<Sample>, cut: int)
    ensures forall r :: r in KeepFrom(rows, cut) <==> r in rows && r.tsMs >= cut
    ensures |KeepFrom(rows, cut)| <= |rows|
    ensures |KeepFrom(rows, cut)| == |rows| <==> forall r :: r in rows ==> r.tsMs >= cut
    decreases |rows|
  {
    if rows != [] {
      var before, last := rows[..|rows| - 1], rows[|rows| - 1];
      KeepFromMembers(before, cut);
      assert rows == before + [last];
    }
  }

  function KeepKeysFrom(system: map<int, string>, cut: int): (kept: map<int, string>) {
    map ts | ts in system && ts >= cut :: system[ts]
  }

  /** Where a prune cuts: a fifth into the span of the samples, when the file is full and there are any. */
  function CutFor(rows: seq<Sample>, fileSize: Option<nat>, maxBytes: int): (cut: Option<int>) {
    if fileSize.None? || fileSize.value < maxBytes || rows == [] then None
    else Some(MinTs(rows) + (MaxTs(rows) - MinTs(rows)) / 5)
  }

  /** The database and the `prev` table. */
  datatype State = State(prev: map<Key, Reading>, samples: seq<Sample>, system: map<int, string>)

  function Pruned(st: State, fileSize: Option<nat>, maxBytes: int): (st': State) {
    match CutFor(st.samples, fileSize, maxBytes)
    case None => st
    case Some(cut) => st.(samples := KeepFrom(st.samples, cut), system := KeepKeysFrom(st.system, cut))
  }

  function Sampled(st: State, r: Round, clk: nat): (st': State)
    requires clk > 0
  {
    State(PrevAfter(st.prev, r.seen, r.nowMs), st.samples + RowsOf(st.prev, r.seen, r.nowMs, clk),
          st.system[r.systemMs := r.systemRow])
  }

  /** The two tables as a database file holds them. */
  datatype Tables = Tables(samples: seq<Sample>, system: map<int, string>)

  function TablesOf(st: State): (db: Tables) {
    Tables(st.samples, st.system)
  }

  /** A run of the recorder: it opens the file with the tables it finds there, and has read no process yet. */
  function Run(db: Tables, rounds: seq<Round>, clk: nat, maxBytes: int): (st: State)
    requires clk > 0
  {
    if rounds == [] then State(map[], db.samples, db.system)
    else
      var r := rounds[|rounds| - 1];
      Pruned(Sampled(Run(db, rounds[..|rounds| - 1], clk, maxBytes), r, clk), r.fileSize, maxBytes)
  }

  /** The recorder process: the `prev` table in memory and the two tables in the database. */
  class Recording {
    const clk: nat
    const maxBytes: int
    var prev: map<Key, Reading>
    var samples: seq<Sample>
    var system: map<int, string>
    ghost const initial: Tables
    ghost var rounds: seq<Round>

    constructor (clk: nat, maxBytes: int, db: Tables)
      requires clk > 0
      ensures Valid() && rounds == [] && initial == db && this.clk == clk && this.maxBytes == maxBytes
    {
      this.clk, this.maxBytes, initial := clk, maxBytes, db;
      prev, samples, system, rounds := map[], db.samples, db.system, [];
    }

    ghost predicate Valid()
      reads this
    {
      clk > 0 && State(prev, samples, system) == Run(initial, rounds, clk, maxBytes)
    }

    method Prune(fileSize: Option<nat>)
      modifies this`samples, this`system
      ensures State(prev, samples, system) == Pruned(old(State(prev, samples, system)), fileSize, maxBytes)
    {
      if fileSize.None? || fileSize.value < maxBytes || samples == [] {
        return;
      }
      var oldest, newest := MinTs(samples), MaxTs(samples);
      var cut := oldest + (newest - oldest) / 5;
      samples := KeepFrom(samples, cut);
      system := KeepKeysFrom(system, cut);
    }

    method Step(r: Round)
      requires Valid()
      modifies this
      ensures Valid() && rounds == old(rounds) + [r]
    {
      ghost var st := State(prev, samples, system);
      var rows: seq<Sample> := [];
      for i := 0 to |r.seen|
        invariant clk > 0 && samples == st.samples && system == st.system && rounds == old(rounds)
        invariant prev == PrevAfter(st.prev, r.seen[..i], r.nowMs)
        invariant rows == RowsOf(st.prev, r.seen[..i], r.nowMs, clk)
      {
        assert r.seen[..i + 1][..i] == r.seen[..i];
        var o := r.seen[i];
        if o.key in prev {
          var p := prev[o.key];
          var elapsed := r.nowMs - p.atMs;
          if elapsed > 0 {
            rows := rows + [Sample(r.nowMs, o.key.pid, Pct(o.utime - p.utime, clk, elapsed), Pct(o.stime - p.stime, clk, elapsed))];
          }
        }
        prev := prev[o.key := Record(o, r.nowMs)];
      }
      assert r.seen[..|r.seen|] == r.seen;
      samples := samples + rows;
      system := system[r.systemMs := r.systemRow];
      assert State(prev, samples, system) == Sampled(st, r, clk);
      Prune(r.fileSize);
      rounds := rounds + [r];
      assert rounds[..|rounds| - 1] == old(rounds);
    }
  }

  // ----------------------------------------------------- retention over a run

  /** Rounds follow the samples taken earlier and one another, and a system row is written after its walk began. */
  predicate ClockRuns(earlier: seq<Sample>, rounds: seq<Round>) {
    && (forall i :: 0 <= i < |rounds| ==> rounds[i].nowMs <= rounds[i].systemMs)
    && (forall i :: 0 < i < |rounds| ==> rounds[i - 1].systemMs <= rounds[i].nowMs)
    && (rounds != [] ==> forall s :: s in earlier ==> s.tsMs <= rounds[0].nowMs)
  }

  function AllPrev(rounds: seq<Round>): (prev: map<Key, Reading>) {
    if rounds == [] then map[]
    else
      var r := rounds[|rounds| - 1];
      PrevAfter(AllPrev(rounds[..|rounds| - 1]), r.seen, r.nowMs)
  }

  /** The samples a run inserts, with nothing pruned. */
  function Inserted(rounds: seq<Round>, clk: nat): (rows: seq<Sample>)
    requires clk > 0
  {
    if rounds == [] then []
    else
      var before, r := rounds[..|rounds| - 1], rounds[|rounds| - 1];
      Inserted(before, clk) + RowsOf(AllPrev(before), r.seen, r.nowMs, clk)
  }

  function SystemAfter(system: map<int, string>, rounds: seq<Round>): (system': map<int, string>) {
    if rounds == [] then system
    else
      var r := rounds[|rounds| - 1];
      SystemAfter(system, rounds[..|rounds| - 1])[r.systemMs := r.systemRow]
  }

  /** The tables of a file and everything a run inserts into them, with nothing pruned. */
  function Unpruned(db: Tables, rounds: seq<Round>, clk: nat): (all: Tables)
    requires clk > 0
  {
    Tables(db.samples + Inserted(rounds, clk), SystemAfter(db.system, rounds))
  }

  /** The tables hold exactly what `all` has at or after one common watermark; without one, all of it. */
  ghost predicate HeldFrom(db: Tables, all: Tables, mark: Option<int>) {
    match mark
    case None => db == all
    case Some(w) =>
      && db.samples == KeepFrom(all.samples, w) && db.system == KeepKeysFrom(all.system, w)
      && exists s :: s in all.samples && s.tsMs >= w
  }

  lemma {:induction false} KeepFromAppend(a: seq<Sample>, b: seq<Sample>, cut: int)
    ensures KeepFrom(a + b, cut) == KeepFrom(a, cut) + KeepFrom(b, cut)
    decreases |b|
  {
    if b == [] {
      assert a + b == a;
    } else {
      KeepFromAppend(a, b[..|b| - 1], cut);
      assert (a + b)[..|a + b| - 1] == a + b[..|b| - 1];
    }
  }

  lemma {:induction false} KeepFromAll(rows: seq<Sample>, cut: int)
    requires forall k :: 0 <= k < |rows| ==> rows[k].tsMs >= cut
    ensures KeepFrom(rows, cut) == rows
    decreases |rows|
  {
    if rows != [] {
      KeepFromAll(rows[..|rows| - 1], cut);
    }
  }

  lemma {:induction false} KeepFromTwice(rows: seq<Sample>, low: int, high: int)
    requires low <= high
    ensures KeepFrom(KeepFrom(rows, low), high) == KeepFrom(rows, high)
    decreases |rows|
  {
    if rows != [] {
      var before, last := rows[..|rows| - 1], rows[|rows| - 1];
      KeepFromTwice(before, low, high);
      KeepFromAppend(KeepFrom(before, low), if last.tsMs >= low then [last] else [], high);
    }
  }

  lemma {:induction false} PrevIsUnpruned(db: Tables, rounds: seq<Round>, clk: nat, maxBytes: int)
    requires clk > 0
    ensures Run(db, rounds, clk, maxBytes).prev == AllPrev(rounds)
    decreases |rounds|
  {
    if rounds != [] {
      PrevIsUnpruned(db, rounds[..|rounds| - 1], clk, maxBytes);
    }
  }

  lemma SystemKeepsMark(system: map<int, string>, ts: int, row: string, w: int)
    requires w <= ts
    ensures KeepKeysFrom(system, w)[ts := row] == KeepKeysFrom(system[ts := row], w)
  {
  }

  lemma LatestRound(earlier: seq<Sample>, rounds: seq<Round>, r: Round)
    requires ClockRuns(earlier, rounds + [r])
    ensures r.nowMs <= r.systemMs && ClockRuns(earlier, rounds)
    ensures rounds != [] ==> rounds[|rounds| - 1].nowMs <= r.nowMs
    ensures rounds == [] ==> NoLater(earlier, r.nowMs)
  {
    var all := rounds + [r];
    assert all[|rounds|] == r && forall k :: 0 <= k < |rounds| ==> all[k] == rounds[k];
    assert rounds != [] ==> all[|rounds| - 1].systemMs <= all[|rounds|].nowMs;
  }

  /** `all` once round `r` has inserted its rows. */
  function WithRound(all: Tables, prev: map<Key, Reading>, r: Round, clk: nat): (all': Tables)
    requires clk > 0
  {
    Tables(all.samples + RowsOf(prev, r.seen, r.nowMs, clk), all.system[r.systemMs := r.systemRow])
  }

  lemma UnprunedAppend(db: Tables, rounds: seq<Round>, r: Round, clk: nat)
    requires clk > 0
    ensures Unpruned(db, rounds + [r], clk) == WithRound(Unpruned(db, rounds, clk), AllPrev(rounds), r, clk)
  {
    var rows := RowsOf(AllPrev(rounds), r.seen, r.nowMs, clk);
    InsertedAppend(rounds, r, clk);
    AppendAppend(db.samples, Inserted(rounds, clk), rows);
  }

  lemma InsertedAppend(rounds: seq<Round>, r: Round, clk: nat)
    requires clk > 0
    ensures Inserted(rounds + [r], clk) == Inserted(rounds, clk) + RowsOf(AllPrev(rounds), r.seen, r.nowMs, clk)
    ensures forall system :: SystemAfter(system, rounds + [r]) == SystemAfter(system, rounds)[r.systemMs := r.systemRow]
  {
    assert (rounds + [r])[..|rounds|] == rounds;
  }

  lemma AppendAppend<T>(a: seq<T>, b: seq<T>, c: seq<T>)
    ensures a + (b + c) == (a + b) + c
  {
  }

  /** Inserting a round's rows keeps the watermark. */
  lemma SampledKeepsMark(st: State, all: Tables, r: Round, clk: nat, mark: Option<int>)
    requires clk > 0 && HeldFrom(TablesOf(st), all, mark)
    requires r.nowMs <= r.systemMs && NoLater(all.samples, r.nowMs)
    ensures HeldFrom(TablesOf(Sampled(st, r, clk)), WithRound(all, st.prev, r, clk), mark)
  {
    if mark.Some? {
      var w, rows := mark.value, RowsOf(st.prev, r.seen, r.nowMs, clk);
      var s :| s in all.samples && s.tsMs >= w;
      KeepFromAppend(all.samples, rows, w);
      KeepFromAll(rows, w);
      SystemKeepsMark(all.system, r.systemMs, r.systemRow, w);
      assert s in all.samples + rows;
    }
  }

  predicate NoLater(rows: seq<Sample>, ts: int) {
    forall s :: s in rows ==> s.tsMs <= ts
  }

  lemma WithRoundIsNoLater(all: Tables, prev: map<Key, Reading>, r: Round, clk: nat)
    requires clk > 0 && NoLater(all.samples, r.nowMs)
    ensures NoLater(WithRound(all, prev, r, clk).samples, r.nowMs)
  {
    var rows := RowsOf(prev, r.seen, r.nowMs, clk);
    forall s | s in all.samples + rows
      ensures s.tsMs <= r.nowMs
    {
      if s !in all.samples {
        var k :| 0 <= k < |rows| && rows[k] == s;
      }
    }
  }

  lemma {:induction false} SamplesAreNoLater(db: Tables, rounds: seq<Round>, clk: nat)
    requires clk > 0 && ClockRuns(db.samples, rounds) && rounds != []
    ensures NoLater(Unpruned(db, rounds, clk).samples, rounds[|rounds| - 1].nowMs)
    decreases |rounds|
  {
    var before, r := rounds[..|rounds| - 1], rounds[|rounds| - 1];
    assert rounds == before + [r];
    LatestRound(db.samples, before, r);
    if before != [] {
      SamplesAreNoLater(db, before, clk);
    } else {
      assert Unpruned(db, before, clk).samples == db.samples;
    }
    UnprunedAppend(db, before, r, clk);
    WithRoundIsNoLater(Unpruned(db, before, clk), AllPrev(before), r, clk);
  }

  /** A cut lies within the times of the samples. */
  lemma CutIsWithin(rows: seq<Sample>, fileSize: Option<nat>, maxBytes: int)
    requires CutFor(rows, fileSize, maxBytes).Some?
    ensures exists s :: s in rows && s.tsMs <= CutFor(rows, fileSize, maxBytes).value
    ensures exists s :: s in rows && CutFor(rows, fileSize, maxBytes).value <= s.tsMs
  {
    var low, high := Extremes(rows);
    assert rows[low] in rows && rows[high] in rows;
  }

  lemma KeepKeysTwice(system: map<int, string>, low: int, high: int)
    requires low <= high
    ensures KeepKeysFrom(KeepKeysFrom(system, low), high) == KeepKeysFrom(system, high)
  {
  }

  lemma RaiseMark(db: Tables, all: Tables, mark: Option<int>, cut: int)
    requires HeldFrom(db, all, mark) && (mark.Some? ==> mark.value <= cut)
    ensures KeepFrom(db.samples, cut) == KeepFrom(all.samples, cut)
    ensures KeepKeysFrom(db.system, cut) == KeepKeysFrom(all.system, cut)
  {
    if mark.Some? {
      KeepFromTwice(all.samples, mark.value, cut);
      KeepKeysTwice(all.system, mark.value, cut);
    }
  }

  /** A prune moves the watermark up, never past the newest sample. */
  lemma PrunedMovesMark(st: State, all: Tables, fileSize: Option<nat>, maxBytes: int, mark: Option<int>)
    returns (mark': Option<int>)
    requires HeldFrom(TablesOf(st), all, mark)
    ensures HeldFrom(TablesOf(Pruned(st, fileSize, maxBytes)), all, mark')
  {
    mark' := mark;
    if CutFor(st.samples, fileSize, maxBytes).Some? {
      var cut := CutFor(st.samples, fileSize, maxBytes).value;
      mark' := Some(cut);
      CutIsWithin(st.samples, fileSize, maxBytes);
      if mark.Some? {
        KeepFromMembers(all.samples, mark.value);
      }
      var s :| s in st.samples && cut <= s.tsMs;
      assert s in all.samples;
      RaiseMark(TablesOf(st), all, mark, cut);
    }
  }

  /** A run that finds its tables held from a watermark leaves them held from one. */
  lemma {:induction false} RunKeepsMark(db: Tables, all: Tables, mark: Option<int>, rounds: seq<Round>, clk: nat, maxBytes: int)
    returns (mark': Option<int>)
    requires clk > 0 && HeldFrom(db, all, mark) && ClockRuns(all.samples, rounds)
    ensures HeldFrom(TablesOf(Run(db, rounds, clk, maxBytes)), Unpruned(all, rounds, clk), mark')
    decreases |rounds|
  {
    mark' := mark;
    if rounds == [] {
      assert Unpruned(all, rounds, clk) == all;
    } else {
      var before, r := rounds[..|rounds| - 1], rounds[|rounds| - 1];
      assert rounds == before + [r];
      LatestRound(all.samples, before, r);
      mark' := RunKeepsMark(db, all, mark, before, clk, maxBytes);
      var st := Run(db, before, clk, maxBytes);
      PrevIsUnpruned(db, before, clk, maxBytes);
      UnprunedAppend(all, before, r, clk);
      if before != [] {
        SamplesAreNoLater(all, before, clk);
      } else {
        assert Unpruned(all, before, clk) == all;
      }
      SampledKeepsMark(st, Unpruned(all, before, clk), r, clk, mark');
      mark' := PrunedMovesMark(Sampled(st, r, clk), Unpruned(all, rounds, clk), r.fileSize, maxBytes, mark');
    }
  }

  // ------------------------------------------------ retention over a file's life

  /** A database file after one run of the recorder upon another, each opening what the last one left. */
  function Life(db: Tables, runs: seq<seq<Round>>, clk: nat, maxBytes: int): (db': Tables)
    requires clk > 0
  {
    if runs == [] then db
    else TablesOf(Run(Life(db, runs[..|runs| - 1], clk, maxBytes), runs[|runs| - 1], clk, maxBytes))
  }

  /** What the file would hold if nothing were pruned. */
  function Ever(db: Tables, runs: seq<seq<Round>>, clk: nat): (all: Tables)
    requires clk > 0
  {
    if runs == [] then db else Unpruned(Ever(db, runs[..|runs| - 1], clk), runs[|runs| - 1], clk)
  }

  /** No run starts before a sample taken earlier. */
  predicate ClocksRun(db: Tables, runs: seq<seq<Round>>, clk: nat)
    requires clk > 0
  {
    runs == [] ||
      (ClocksRun(db, runs[..|runs| - 1], clk) && ClockRuns(Ever(db, runs[..|runs| - 1], clk).samples, runs[|runs| - 1]))
  }

  /**
   Retention: whatever the file held at first, however often the recorder is restarted on it and whatever
   sizes it sees, both tables hold exactly the initial and inserted rows at or after one common watermark.
   */
  lemma {:induction false} RetentionHasOneWatermark(db: Tables, runs: seq<seq<Round>>, clk: nat, maxBytes: int)
    returns (mark: Option<int>)
    requires clk > 0 && ClocksRun(db, runs, clk)
    ensures HeldFrom(Life(db, runs, clk, maxBytes), Ever(db, runs, clk), mark)
    decreases |runs|
  {
    mark := None;
    if runs != [] {
      var before := runs[..|runs| - 1];
      mark := RetentionHasOneWatermark(db, before, clk, maxBytes);
      mark := RunKeepsMark(Life(db, before, clk, maxBytes), Ever(db, before, clk), mark, runs[|runs| - 1], clk, maxBytes);
    }
  }

  ghost predicate IsNewest(s: Sample, rows: seq<Sample>) {
    s in rows && forall other :: other in rows ==> other.tsMs <= s.tsMs
  }

  /** The newest sample there ever was, from whichever run, is never pruned. */
  lemma NewestSampleSurvives(db: Tables, runs: seq<seq<Round>>, clk: nat, maxBytes: int, s: Sample)
    requires clk > 0 && ClocksRun(db, runs, clk) && IsNewest(s, Ever(db, runs, clk).samples)
    ensures IsNewest(s, Life(db, runs, clk, maxBytes).samples)
  {
    var mark := RetentionHasOneWatermark(db, runs, clk, maxBytes);
    if mark.Some? {
      KeepFromMembers(Ever(db, runs, clk).samples, mark.value);
    }
  }

  lemma {:induction false} LastInsertedIsNewest(db: Tables, rounds: seq<Round>, clk: nat)
    requires clk > 0 && ClockRuns(db.samples, rounds) && Inserted(rounds, clk) != []
    ensures IsNewest(Inserted(rounds, clk)[|Inserted(rounds, clk)| - 1], Unpruned(db, rounds, clk).samples)
    decreases |rounds|
  {
    var before, r := rounds[..|rounds| - 1], rounds[|rounds| - 1];
    assert rounds == before + [r];
    LatestRound(db.samples, before, r);
    SamplesAreNoLater(db, rounds, clk);
    UnprunedAppend(db, before, r, clk);
    var rows := RowsOf(AllPrev(before), r.seen, r.nowMs, clk);
    assert Inserted(rounds, clk) == Inserted(before, clk) + rows;
    if rows == [] {
      LastInsertedIsNewest(db, before, clk);
      assert Unpruned(db, rounds, clk).samples == Unpruned(db, before, clk).samples;
    } else {
      assert rows[|rows| - 1] in Inserted(rounds, clk);
    }
  }

  /** So the last sample a run inserts is there when it ends, whatever came before it. */
  lemma LastInsertedSurvives(db: Tables, runs: seq<seq<Round>>, rounds: seq<Round>, clk: nat, maxBytes: int)
    requires clk > 0 && ClocksRun(db, runs + [rounds], clk) && Inserted(rounds, clk) != []
    ensures Inserted(rounds, clk)[|Inserted(rounds, clk)| - 1] in Life(db, runs + [rounds], clk, maxBytes).samples
  {
    var all := runs + [rounds];
    assert all[..|all| - 1] == runs && all[|all| - 1] == rounds;
    LastInsertedIsNewest(Ever(db, runs, clk), rounds, clk);
    NewestSampleSurvives(db, all, clk, maxBytes, Inserted(rounds, clk)[|Inserted(rounds, clk)| - 1]);
  }

  /** The file has reached its cap. */
  predicate AtCap(fileSize: Option<nat>, maxBytes: int) {
    fileSize.Some? && fileSize.value >= maxBytes
  }

  /** The newest samples stay, and the oldest go exactly from a file at its cap with a span of 5 ms or more. */
  lemma PruneKeepsNewest(st: State, fileSize: Option<nat>, maxBytes: int)
    requires st.samples != []
    ensures var st', cuts := Pruned(st, fileSize, maxBytes), AtCap(fileSize, maxBytes) && MaxTs(st.samples) - MinTs(st.samples) >= 5;
      && (forall s :: s in st.samples && s.tsMs == MaxTs(st.samples) ==> s in st'.samples)
      && (forall s :: s in st.samples && s.tsMs == MinTs(st.samples) ==> (s !in st'.samples <==> cuts))
      && (|st'.samples| < |st.samples| <==> cuts)
  {
    if AtCap(fileSize, maxBytes) {
      var cut := CutFor(st.samples, fileSize, maxBytes).value;
      var low, high := Extremes(st.samples);
      KeepFromMembers(st.samples, cut);
      assert st.samples[low] in st.samples;
    }
  }

  /** The cap drops a sample, of whatever tables, exactly when the file is at it and its samples span 5 ms or more. */
  lemma PruneDropsIff(st: State, fileSize: Option<nat>, maxBytes: int)
    ensures |Pruned(st, fileSize, maxBytes).samples| < |st.samples| <==>
      AtCap(fileSize, maxBytes) && st.samples != [] && MaxTs(st.samples) - MinTs(st.samples) >= 5
    ensures st.samples == [] || !AtCap(fileSize, maxBytes) ==> Pruned(st, fileSize, maxBytes) == st
  {
    if st.samples != [] {
      PruneKeepsNewest(st, fileSize, maxBytes);
    }
  }

  /** Not in the oldest fifth of a span of `span` ms that starts at `oldest`, to the whole millisecond. */
  predicate OutlivesFifth(ts: int, oldest: int, span: int) {
    5 * (ts - oldest) > span - 5
  }

  /** At the cap a prune takes the oldest fifth of the samples' span from both tables: just that, and nothing after it. */
  lemma PruneDropsOldestFifth(st: State, fileSize: Option<nat>, maxBytes: int)
    requires AtCap(fileSize, maxBytes) && st.samples != []
    ensures var st', oldest, span := Pruned(st, fileSize, maxBytes), MinTs(st.samples), MaxTs(st.samples) - MinTs(st.samples);
      && (forall s :: s in st'.samples <==> s in st.samples && OutlivesFifth(s.tsMs, oldest, span))
      && (forall ts :: ts in st'.system <==> ts in st.system && OutlivesFifth(ts, oldest, span))
      && (forall ts :: ts in st'.system ==> st'.system[ts] == st.system[ts])
      && st'.prev == st.prev
  {
    var low, high := Extremes(st.samples);
    var cut := CutFor(st.samples, fileSize, maxBytes).value;
    KeepFromMembers(st.samples, cut);
    CutIsFifth(MinTs(st.samples), MaxTs(st.samples) - MinTs(st.samples));
  }

  lemma CutIsFifth(oldest: int, span: int)
    ensures forall ts :: ts >= oldest + span / 5 <==> OutlivesFifth(ts, oldest, span)
  {
  }

  /** The sample lies in the newest four fifths of the span. */
  predicate InNewestFourFifths(s: Sample, rows: seq<Sample>) {
    s in rows && 5 * (s.tsMs - MinTs(rows)) >= MaxTs(rows) - MinTs(rows)
  }

  lemma PruneKeepsFourFifths(st: State, fileSize: Option<nat>, maxBytes: int, s: Sample)
    requires InNewestFourFifths(s, st.samples)
    ensures s in Pruned(st, fileSize, maxBytes).samples
  {
    if AtCap(fileSize, maxBytes) {
      PruneDropsOldestFifth(st, fileSize, maxBytes);
    }
  }

  lemma RunOneMore(db: Tables, rounds: seq<Round>, r: Round, clk: nat, maxBytes: int)
    requires clk > 0
    ensures Run(db, rounds + [r], clk, maxBytes) == Pruned(Sampled(Run(db, rounds, clk, maxBytes), r, clk), r.fileSize, maxBytes)
  {
    assert (rounds + [r])[..|rounds|] == rounds;
  }

  /** Whatever a round finds and prunes, no sample in the newest four fifths of the span is lost in it. */
  lemma RoundKeepsFourFifths(db: Tables, rounds: seq<Round>, r: Round, clk: nat, maxBytes: int, before: seq<Sample>, s: Sample)
    requires clk > 0 && before == Run(db, rounds, clk, maxBytes).samples + RowsOf(AllPrev(rounds), r.seen, r.nowMs, clk)
    requires InNewestFourFifths(s, before)
    ensures s in Run(db, rounds + [r], clk, maxBytes).samples
  {
    RunOneMore(db, rounds, r, clk, maxBytes);
    PrevIsUnpruned(db, rounds, clk, maxBytes);
    PruneKeepsFourFifths(Sampled(Run(db, rounds, clk, maxBytes), r, clk), r.fileSize, maxBytes, s);
  }

  lemma PrunedTables(st: State, fileSize: Option<nat>, maxBytes: int, cut: int)
    requires CutFor(st.samples, fileSize, maxBytes) == Some(cut)
    ensures Pruned(st, fileSize, maxBytes) == st.(samples := KeepFrom(st.samples, cut), system := KeepKeysFrom(st.system, cut))
  {
  }

  /**
   A file at its cap that loses no sample: with samples spanning less than 5 ms, only the system rows
   from before the oldest one go; without samples no system row goes either, however many there are.
   */
  lemma NoSampleDroppedIff(st: State, fileSize: Option<nat>, maxBytes: int)
    requires AtCap(fileSize, maxBytes)
    ensures Pruned(st, fileSize, maxBytes).samples == st.samples <==>
      st.samples == [] || MaxTs(st.samples) - MinTs(st.samples) < 5
    ensures Pruned(st, fileSize, maxBytes).samples == st.samples ==>
      Pruned(st, fileSize, maxBytes).system == if st.samples == [] then st.system else KeepKeysFrom(st.system, MinTs(st.samples))
  {
    PruneDropsIff(st, fileSize, maxBytes);
    if st.samples != [] {
      var cut := CutFor(st.samples, fileSize, maxBytes).value;
      PrunedTables(st, fileSize, maxBytes, cut);
      if MaxTs(st.samples) - MinTs(st.samples) < 5 {
        var low, high := Extremes(st.samples);
        assert cut == MinTs(st.samples);
        KeepFromAll(st.samples, cut);
      }
    }
  }

  /** A file at its cap whose only sample is from 10 ms: the sample stays, a system row of 5 ms goes. */
  lemma FullFileKeepsItsSample(s: Sample, a: string, b: string)
    requires s.tsMs == 10
    ensures Pruned(State(map[], [s], map[5 := a, 10 := b]), Some(1), 1) == State(map[], [s], map[10 := b])
  {
    NoSampleDroppedIff(State(map[], [s], map[5 := a, 10 := b]), Some(1), 1);
  }

  /** A file at its cap that holds system rows alone is left as it is. */
  lemma FullFileKeepsItsSystemRows(system: map<int, string>, size: nat)
    ensures Pruned(State(map[], [], system), Some(size), size) == State(map[], [], system)
  {
    PruneDropsIff(State(map[], [], system), Some(size), size);
  }

  // -------------------------------------------------------- CPU conservation

  /** One observation at its round's time. */
  datatype Tick = Tick(obs: Obs, nowMs: int)

  /** A row together with the process and the elapsed time it stands for. */
  datatype Charge = Charge(key: Key, elapsedMs: int, sample: Sample)

  function TicksOf(seen: seq<Obs>, nowMs: int): (ticks: seq<Tick>)
    ensures |ticks| == |seen| && forall i :: 0 <= i < |seen| ==> ticks[i] == Tick(seen[i], nowMs)
  {
    seq(|seen|, i requires 0 <= i < |seen| => Tick(seen[i], nowMs))
  }

  /** Everything the recorder ever read, in order. */
  function Ticks(rounds: seq<Round>): (ticks: seq<Tick>) {
    if rounds == [] then []
    else
      var r := rounds[|rounds| - 1];
      Ticks(rounds[..|rounds| - 1]) + TicksOf(r.seen, r.nowMs)
  }

  function TickPrev(ticks: seq<Tick>): (prev: map<Key, Reading>) {
    if ticks == [] then map[]
    else
      var t := ticks[|ticks| - 1];
      TickPrev(ticks[..|ticks| - 1])[t.obs.key := Record(t.obs, t.nowMs)]
  }

  function ChargeFor(prev: map<Key, Reading>, t: Tick, clk: nat): (charges: seq<Charge>)
    requires clk > 0
  {
    var row := RowFor(prev, t.obs, t.nowMs, clk);
    if row.Some? then [Charge(t.obs.key, t.nowMs - prev[t.obs.key].atMs, row.value)] else []
  }

  function Charges(ticks: seq<Tick>, clk: nat): (charges: seq<Charge>)
    requires clk > 0
  {
    if ticks == [] then []
    else
      var before := ticks[..|ticks| - 1];
      Charges(before, clk) + ChargeFor(TickPrev(before), ticks[|ticks| - 1], clk)
  }

  function Rows(charges: seq<Charge>): (rows: seq<Sample>)
    ensures |rows| == |charges| && forall i :: 0 <= i < |charges| ==> rows[i] == charges[i].sample
  {
    seq(|charges|, i requires 0 <= i < |charges| => charges[i].sample)
  }

  lemma OneMoreTick(ticks: seq<Tick>, t: Tick, clk: nat)
    requires clk > 0
    ensures TickPrev(ticks + [t]) == TickPrev(ticks)[t.obs.key := Record(t.obs, t.nowMs)]
    ensures Rows(Charges(ticks + [t], clk)) == Rows(Charges(ticks, clk)) + Rows(ChargeFor(TickPrev(ticks), t, clk))
  {
    assert (ticks + [t])[..|ticks|] == ticks;
  }

  lemma {:induction false} ChargesOfRound(ticks: seq<Tick>, seen: seq<Obs>, nowMs: int, clk: nat)
    requires clk > 0
    ensures TickPrev(ticks + TicksOf(seen, nowMs)) == PrevAfter(TickPrev(ticks), seen, nowMs)
    ensures Rows(Charges(ticks + TicksOf(seen, nowMs), clk)) == Rows(Charges(ticks, clk)) + RowsOf(TickPrev(ticks), seen, nowMs, clk)
    decreases |seen|
  {
    if seen == [] {
      assert ticks + TicksOf(seen, nowMs) == ticks;
    } else {
      var before, t := seen[..|seen| - 1], Tick(seen[|seen| - 1], nowMs);
      ChargesOfRound(ticks, before, nowMs, clk);
      TicksOfMore(ticks, seen, nowMs);
      OneMoreTick(ticks + TicksOf(before, nowMs), t, clk);
      OneMoreRow(TickPrev(ticks), seen, nowMs, clk);
    }
  }

  lemma TicksOfMore(ticks: seq<Tick>, seen: seq<Obs>, nowMs: int)
    requires seen != []
    ensures ticks + TicksOf(seen, nowMs) == (ticks + TicksOf(seen[..|seen| - 1], nowMs)) + [Tick(seen[|seen| - 1], nowMs)]
  {
  }

  lemma OneMoreRow(prev: map<Key, Reading>, seen: seq<Obs>, nowMs: int, clk: nat)
    requires clk > 0 && seen != []
    ensures var before, t := seen[..|seen| - 1], Tick(seen[|seen| - 1], nowMs);
      RowsOf(prev, seen, nowMs, clk)
        == RowsOf(prev, before, nowMs, clk) + Rows(ChargeFor(PrevAfter(prev, before, nowMs), t, clk))
  {
  }

  /** The rows inserted over a run are the rows of its charges, in order. */
  lemma {:induction false} RowsAreCharges(rounds: seq<Round>, clk: nat)
    requires clk > 0
    ensures AllPrev(rounds) == TickPrev(Ticks(rounds))
    ensures Inserted(rounds, clk) == Rows(Charges(Ticks(rounds), clk))
    decreases |rounds|
  {
    if rounds != [] {
      var before, r := rounds[..|rounds| - 1], rounds[|rounds| - 1];
      RowsAreCharges(before, clk);
      ChargesOfRound(Ticks(before), r.seen, r.nowMs, clk);
    }
  }

  function FirstOf(ticks: seq<Tick>, key: Key): (o: Option<Obs>) {
    if ticks == [] then None
    else
      var before, t := FirstOf(ticks[..|ticks| - 1], key), ticks[|ticks| - 1];
      if before.Some? then before else if t.obs.key == key then Some(t.obs) else None
  }

  function LastOf(ticks: seq<Tick>, key: Key): (t: Option<Tick>) {
    if ticks == [] then None
    else if ticks[|ticks| - 1].obs.key == key then Some(ticks[|ticks| - 1])
    else LastOf(ticks[..|ticks| - 1], key)
  }

  /** The user and kernel jiffies a row accounts for: percentage, times seconds, times clock rate. */
  function Jiffies(pct: real, elapsedMs: int, clk: nat): (jiffies: real) {
    pct / 100.0 * (elapsedMs as real / 1000.0) * clk as real
  }

  function Charged(charges: seq<Charge>, key: Key, clk: nat): (total: (real, real)) {
    if charges == [] then (0.0, 0.0)
    else
      var c, before := charges[|charges| - 1], Charged(charges[..|charges| - 1], key, clk);
      if c.key != key then before
      else (before.0 + Jiffies(c.sample.userPct, c.elapsedMs, clk), before.1 + Jiffies(c.sample.kernelPct, c.elapsedMs, clk))
  }

  /** What goes unrecorded: readings of a process at no later a time than the one before. */
  function Dropped(ticks: seq<Tick>, key: Key): (total: (int, int)) {
    if ticks == [] then (0, 0)
    else
      var before, t := ticks[..|ticks| - 1], ticks[|ticks| - 1];
      var prev, lost := TickPrev(before), Dropped(before, key);
      if t.obs.key == key && key in prev && t.nowMs <= prev[key].atMs
      then (lost.0 + t.obs.utime - prev[key].utime, lost.1 + t.obs.stime - prev[key].stime)
      else lost
  }

  lemma {:induction false} PrevIsLast(ticks: seq<Tick>, key: Key)
    ensures key in TickPrev(ticks) <==> LastOf(ticks, key).Some?
    ensures key in TickPrev(ticks) <==> FirstOf(ticks, key).Some?
    ensures key in TickPrev(ticks) ==>
      TickPrev(ticks)[key] == Record(LastOf(ticks, key).value.obs, LastOf(ticks, key).value.nowMs)
    decreases |ticks|
  {
    if ticks != [] {
      PrevIsLast(ticks[..|ticks| - 1], key);
    }
  }

  lemma JiffiesOfPct(jiffies: int, clk: nat, elapsedMs: int)
    requires clk > 0 && elapsedMs > 0
    ensures Jiffies(Pct(jiffies, clk, elapsedMs), elapsedMs, clk) == jiffies as real
    ensures jiffies >= 0 ==> Pct(jiffies, clk, elapsedMs) >= 0.0
  {
    var rate, secs := jiffies as real / clk as real, elapsedMs as real / 1000.0;
    assert secs > 0.0;
    DivMul(rate, secs);
    DivMul(jiffies as real, clk as real);
    assert Pct(jiffies, clk, elapsedMs) / 100.0 == rate / secs;
  }

  lemma DivMul(x: real, y: real)
    requires y > 0.0
    ensures x / y * y == x
    ensures x >= 0.0 ==> x / y >= 0.0
  {
  }

  /** What one more observation charges and drops for its process is its change since the reading before. */
  lemma TickConserves(before: seq<Tick>, t: Tick, clk: nat)
    requires clk > 0
    ensures var key, prev := t.obs.key, TickPrev(before);
      var charged := Charged(ChargeFor(prev, t, clk), key, clk);
      var dropped := Dropped(before + [t], key);
      var lost := Dropped(before, key);
      key in prev ==>
        && charged.0 + (dropped.0 - lost.0) as real == (t.obs.utime - prev[key].utime) as real
        && charged.1 + (dropped.1 - lost.1) as real == (t.obs.stime - prev[key].stime) as real
  {
    var key, prev := t.obs.key, TickPrev(before);
    assert (before + [t])[..|before|] == before;
    if key in prev && t.nowMs > prev[key].atMs {
      JiffiesOfPct(t.obs.utime - prev[key].utime, clk, t.nowMs - prev[key].atMs);
      JiffiesOfPct(t.obs.stime - prev[key].stime, clk, t.nowMs - prev[key].atMs);
    }
  }

  lemma ChargedAppend(charges: seq<Charge>, more: seq<Charge>, key: Key, clk: nat)
    requires |more| <= 1
    ensures var a, b, c := Charged(charges + more, key, clk), Charged(charges, key, clk), Charged(more, key, clk);
      a.0 == b.0 + c.0 && a.1 == b.1 + c.1
  {
    if more == [] {
      assert charges + more == charges;
    } else {
      assert (charges + more)[..|charges|] == charges;
      assert more[..0] == [];
    }
  }

  /**
   CPU conservation: what is charged to a process over a run, plus what readings at no later a time
   dropped, telescopes to its last counters minus its first.
   */
  lemma {:induction false} CpuIsConserved(ticks: seq<Tick>, key: Key, clk: nat)
    requires clk > 0 && LastOf(ticks, key).Some?
    ensures FirstOf(ticks, key).Some?
    ensures var first, last := FirstOf(ticks, key).value, LastOf(ticks, key).value.obs;
      var charged, dropped := Charged(Charges(ticks, clk), key, clk), Dropped(ticks, key);
      && charged.0 + dropped.0 as real == (last.utime - first.utime) as real
      && charged.1 + dropped.1 as real == (last.stime - first.stime) as real
    decreases |ticks|
  {
    var before, t := ticks[..|ticks| - 1], ticks[|ticks| - 1];
    assert ticks == before + [t];
    PrevIsLast(before, key);
    PrevIsLast(ticks, key);
    ChargedAppend(Charges(before, clk), ChargeFor(TickPrev(before), t, clk), key, clk);
    if LastOf(before, key).Some? {
      CpuIsConserved(before, key, clk);
    } else {
      NothingYet(before, key, clk);
    }
    if t.obs.key == key {
      TickConserves(before, t, clk);
    }
  }

  lemma {:induction false} NothingYet(ticks: seq<Tick>, key: Key, clk: nat)
    requires clk > 0 && LastOf(ticks, key).None?
    ensures Charged(Charges(ticks, clk), key, clk) == (0.0, 0.0) && Dropped(ticks, key) == (0, 0)
    decreases |ticks|
  {
    if ticks != [] {
      var before, t := ticks[..|ticks| - 1], ticks[|ticks| - 1];
      NothingYet(before, key, clk);
      ChargedAppend(Charges(before, clk), ChargeFor(TickPrev(before), t, clk), key, clk);
    }
  }

  /** Rounds at strictly later times, none reading a process twice. */
  predicate RoundsAdvance(rounds: seq<Round>) {
    && (forall i, j :: 0 <= i < j < |rounds| ==> rounds[i].nowMs < rounds[j].nowMs)
    && (forall i, j, k :: 0 <= i < |rounds| && 0 <= j < k < |rounds[i].seen| ==> rounds[i].seen[j].key != rounds[i].seen[k].key)
  }

  /** Two readings of one process are never at the same time. */
  predicate TicksAdvance(ticks: seq<Tick>) {
    forall i, j :: 0 <= i < j < |ticks| && ticks[i].obs.key == ticks[j].obs.key ==> ticks[i].nowMs < ticks[j].nowMs
  }

  lemma {:induction false} RoundsGiveTicks(rounds: seq<Round>)
    requires RoundsAdvance(rounds)
    ensures TicksAdvance(Ticks(rounds))
    ensures forall t :: t in Ticks(rounds) ==> rounds != [] && t.nowMs <= rounds[|rounds| - 1].nowMs
    decreases |rounds|
  {
    if rounds != [] {
      var before, r := rounds[..|rounds| - 1], rounds[|rounds| - 1];
      assert forall i :: 0 <= i < |before| ==> before[i] == rounds[i];
      RoundsGiveTicks(before);
      var old', new' := Ticks(before), TicksOf(r.seen, r.nowMs);
      forall i | 0 <= i < |old'|
        ensures old'[i].nowMs < r.nowMs
      {
        assert old'[i] in old' && rounds[|before| - 1].nowMs < rounds[|rounds| - 1].nowMs;
      }
      forall i, j | 0 <= i < j < |old' + new'| && (old' + new')[i].obs.key == (old' + new')[j].obs.key
        ensures (old' + new')[i].nowMs < (old' + new')[j].nowMs
      {
        assert i < |old'|;
      }
    }
  }

  lemma {:induction false} LastIsInTicks(ticks: seq<Tick>, key: Key)
    ensures LastOf(ticks, key).Some? ==> LastOf(ticks, key).value in ticks && LastOf(ticks, key).value.obs.key == key
    decreases |ticks|
  {
    if ticks != [] {
      LastIsInTicks(ticks[..|ticks| - 1], key);
    }
  }

  lemma {:induction false} NothingDropped(ticks: seq<Tick>, key: Key)
    requires TicksAdvance(ticks)
    ensures Dropped(ticks, key) == (0, 0)
    decreases |ticks|
  {
    if ticks != [] {
      var before, t := ticks[..|ticks| - 1], ticks[|ticks| - 1];
      assert forall i :: 0 <= i < |before| ==> before[i] == ticks[i];
      NothingDropped(before, key);
      PrevIsLast(before, key);
      LastIsInTicks(before, key);
      if t.obs.key == key && key in TickPrev(before) {
        var i :| 0 <= i < |before| && before[i] == LastOf(before, key).value;
        assert ticks[i].nowMs < ticks[|ticks| - 1].nowMs;
      }
    }
  }

  lemma NothingDroppedIsExact(ticks: seq<Tick>, key: Key, clk: nat)
    requires clk > 0 && TicksAdvance(ticks) && LastOf(ticks, key).Some?
    ensures FirstOf(ticks, key).Some?
    ensures var first, last := FirstOf(ticks, key).value, LastOf(ticks, key).value.obs;
      Charged(Charges(ticks, clk), key, clk) == ((last.utime - first.utime) as real, (last.stime - first.stime) as real)
  {
    NothingDropped(ticks, key);
    CpuIsConserved(ticks, key, clk);
  }

  /** With rounds at strictly later times nothing is dropped: the rows account for every jiffy. */
  lemma RecordedCpuIsExact(rounds: seq<Round>, ticks: seq<Tick>, key: Key, clk: nat)
    requires clk > 0 && RoundsAdvance(rounds) && ticks == Ticks(rounds) && LastOf(ticks, key).Some?
    ensures Inserted(rounds, clk) == Rows(Charges(ticks, clk)) && FirstOf(ticks, key).Some?
    ensures var first, last := FirstOf(ticks, key).value, LastOf(ticks, key).value.obs;
      Charged(Charges(ticks, clk), key, clk) == ((last.utime - first.utime) as real, (last.stime - first.stime) as real)
  {
    RowsAreCharges(rounds, clk);
    RoundsGiveTicks(rounds);
    NothingDroppedIsExact(ticks, key, clk);
  }

  predicate CountersGrow(ticks: seq<Tick>, key: Key) {
    forall i, j :: 0 <= i < j < |ticks| && ticks[i].obs.key == ticks[j].obs.key == key ==>
      ticks[i].obs.utime <= ticks[j].obs.utime && ticks[i].obs.stime <= ticks[j].obs.stime
  }

  /** A process whose counters never go down never gets a negative percentage. */
  lemma {:induction false} PercentagesAreNotNegative(ticks: seq<Tick>, key: Key, clk: nat)
    requires clk > 0 && CountersGrow(ticks, key)
    ensures forall c :: c in Charges(ticks, clk) && c.key == key ==> c.sample.userPct >= 0.0 && c.sample.kernelPct >= 0.0
    decreases |ticks|
  {
    if ticks != [] {
      var before, t := ticks[..|ticks| - 1], ticks[|ticks| - 1];
      assert forall i :: 0 <= i < |before| ==> before[i] == ticks[i];
      PercentagesAreNotNegative(before, key, clk);
      PrevIsLast(before, key);
      LastIsInTicks(before, key);
      if t.obs.key == key && key in TickPrev(before) && t.nowMs > TickPrev(before)[key].atMs {
        var p := TickPrev(before)[key];
        var i :| 0 <= i < |before| && before[i] == LastOf(before, key).value;
        assert ticks[i].obs.utime <= ticks[|ticks| - 1].obs.utime;
        JiffiesOfPct(t.obs.utime - p.utime, clk, t.nowMs - p.atMs);
        JiffiesOfPct(t.obs.stime - p.stime, clk, t.nowMs - p.atMs);
      }
    }
  }
}
