/**
 Where in the file of scripts/migrate_uuidv4_codex_live_sessions.py the candidates for a replacement stand,
 and which of them is picked.
 */
module SessionOffers {
  import opened Options
  import opened CodexIdentity

  /** Machine `i` goes by the name and its j-th session was recorded in the directory under a codex ULID not excluded. */
  predicate Offers(ms: seq<Machine>, machine: string, cwd: string, excluded: set<string>, i: nat, j: nat)
    requires i < |ms| && j < |ms[i].sessions|
  {
    && (ms[i].machineKey == Some(machine) || ms[i].sshTarget == Some(machine))
    && ms[i].sessions[j].cwd == Some(cwd)
    && "019" <= ms[i].sessions[j].sessionId && ms[i].sessions[j].sessionId !in excluded
  }

  /** A place in the file: a machine and one of its sessions. */
  datatype Spot = Spot(i: nat, j: nat)

  predicate InFile(ms: seq<Machine>, s: Spot) {
    s.i < |ms| && s.j < |ms[s.i].sessions|
  }

  predicate Before(s: Spot, t: Spot) {
    s.i < t.i || (s.i == t.i && s.j < t.j)
  }

  function At(ms: seq<Machine>, s: Spot): (c: Candidate)
    requires InFile(ms, s)
  {
    Candidate(ms[s.i].sessions[s.j].sessionId, ms[s.i].sessions[s.j].modifiedEpoch)
  }

  predicate IsOffer(ms: seq<Machine>, machine: string, cwd: string, excluded: set<string>, s: Spot) {
    InFile(ms, s) && Offers(ms, machine, cwd, excluded, s.i, s.j)
  }

  ghost predicate InOrder(spots: seq<Spot>) {
    forall k, l :: 0 <= k < l < |spots| ==> Before(spots[k], spots[l])
  }

  /** `spots` are places that offer the candidates `cs`, one for each. */
  ghost predicate Tell(spots: seq<Spot>, cs: seq<Candidate>, ms: seq<Machine>, machine: string, cwd: string, excluded: set<string>) {
    && |spots| == |cs|
    && forall k :: 0 <= k < |cs| ==> IsOffer(ms, machine, cwd, excluded, spots[k]) && cs[k] == At(ms, spots[k])
  }

  /** They are all the places that offer any, in the order of the file. */
  ghost predicate AreSpots(spots: seq<Spot>, cs: seq<Candidate>, ms: seq<Machine>, machine: string, cwd: string, excluded: set<string>) {
    && Tell(spots, cs, ms, machine, cwd, excluded) && InOrder(spots)
    && forall s :: IsOffer(ms, machine, cwd, excluded, s) ==> s in spots
  }

  /** The sessions of one machine that give the candidates `cs`: all of them, in order. */
  ghost predicate AreColumns(columns: seq<nat>, cs: seq<Candidate>, ss: seq<RemoteSession>, cwd: string, excluded: set<string>) {
    && |columns| == |cs|
    && (forall k :: 0 <= k < |cs| ==>
      && columns[k] < |ss| && Matches(ss[columns[k]], cwd, excluded)
      && cs[k] == Candidate(ss[columns[k]].sessionId, ss[columns[k]].modifiedEpoch))
    && (forall k, l :: 0 <= k < l < |columns| ==> columns[k] < columns[l])
    && (forall j :: 0 <= j < |ss| && Matches(ss[j], cwd, excluded) ==> j in columns)
  }

  lemma ColumnsAppend(columns: seq<nat>, cs: seq<Candidate>, ss: seq<RemoteSession>, rs: RemoteSession, cwd: string, excluded: set<string>)
    requires AreColumns(columns, cs, ss, cwd, excluded)
    ensures if Matches(rs, cwd, excluded)
      then AreColumns(columns + [|ss|], cs + [Candidate(rs.sessionId, rs.modifiedEpoch)], ss + [rs], cwd, excluded)
      else AreColumns(columns, cs, ss + [rs], cwd, excluded)
  {
    var all := ss + [rs];
    assert all[|ss|] == rs && forall j :: 0 <= j < |ss| ==> all[j] == ss[j];
  }

  lemma {:induction false} SessionColumns(ss: seq<RemoteSession>, cwd: string, excluded: set<string>) returns (columns: seq<nat>)
    ensures AreColumns(columns, SessionCandidates(ss, cwd, excluded), ss, cwd, excluded)
    decreases |ss|
  {
    columns := [];
    if ss != [] {
      var before, rs := ss[..|ss| - 1], ss[|ss| - 1];
      columns := SessionColumns(before, cwd, excluded);
      ColumnsAppend(columns, SessionCandidates(before, cwd, excluded), before, rs, cwd, excluded);
      assert before + [rs] == ss;
      if Matches(rs, cwd, excluded) {
        columns := columns + [|before|];
      }
    }
  }

  function SpotsOf(i: nat, columns: seq<nat>): (spots: seq<Spot>)
    ensures |spots| == |columns| && forall k :: 0 <= k < |spots| ==> spots[k] == Spot(i, columns[k])
  {
    seq(|columns|, k requires 0 <= k < |columns| => Spot(i, columns[k]))
  }

  lemma OffersAppend(ms: seq<Machine>, rm: Machine, machine: string, cwd: string, excluded: set<string>, s: Spot)
    ensures s.i < |ms| ==> (IsOffer(ms + [rm], machine, cwd, excluded, s) <==> IsOffer(ms, machine, cwd, excluded, s))
    ensures IsOffer(ms, machine, cwd, excluded, s) ==> At(ms + [rm], s) == At(ms, s)
    ensures s.i == |ms| ==> (IsOffer(ms + [rm], machine, cwd, excluded, s) <==>
      IsMachine(rm, machine) && s.j < |rm.sessions| && Matches(rm.sessions[s.j], cwd, excluded))
  {
    assert s.i < |ms| ==> (ms + [rm])[s.i] == ms[s.i];
  }

  lemma SpotsTell(spots: seq<Spot>, cs: seq<Candidate>, ms: seq<Machine>, rm: Machine, machine: string, cwd: string,
                  excluded: set<string>, columns: seq<nat>, more: seq<Candidate>)
    requires Tell(spots, cs, ms, machine, cwd, excluded)
    requires |columns| == |more| && (columns != [] ==> IsMachine(rm, machine))
    requires AreColumns(columns, more, rm.sessions, cwd, excluded) || columns == []
    ensures Tell(spots + SpotsOf(|ms|, columns), cs + more, ms + [rm], machine, cwd, excluded)
  {
    var all := spots + SpotsOf(|ms|, columns);
    forall k | 0 <= k < |all|
      ensures IsOffer(ms + [rm], machine, cwd, excluded, all[k]) && (cs + more)[k] == At(ms + [rm], all[k])
    {
      OffersAppend(ms, rm, machine, cwd, excluded, all[k]);
    }
  }

  lemma SpotsOrdered(spots: seq<Spot>, i: nat, columns: seq<nat>)
    requires InOrder(spots) && forall k :: 0 <= k < |spots| ==> spots[k].i < i
    requires forall k, l :: 0 <= k < l < |columns| ==> columns[k] < columns[l]
    ensures InOrder(spots + SpotsOf(i, columns))
  {
  }

  lemma SpotsComplete(spots: seq<Spot>, ms: seq<Machine>, rm: Machine, machine: string, cwd: string,
                      excluded: set<string>, columns: seq<nat>, s: Spot)
    requires IsOffer(ms + [rm], machine, cwd, excluded, s)
    requires IsOffer(ms, machine, cwd, excluded, s) ==> s in spots
    requires IsMachine(rm, machine) ==>
      forall j :: 0 <= j < |rm.sessions| && Matches(rm.sessions[j], cwd, excluded) ==> j in columns
    ensures s in spots + SpotsOf(|ms|, columns)
  {
    OffersAppend(ms, rm, machine, cwd, excluded, s);
    if s.i == |ms| {
      var k :| 0 <= k < |columns| && columns[k] == s.j;
      assert SpotsOf(|ms|, columns)[k] == s;
    }
  }

  lemma SpotsAppend(spots: seq<Spot>, cs: seq<Candidate>, ms: seq<Machine>, rm: Machine, machine: string, cwd: string,
                    excluded: set<string>, columns: seq<nat>, more: seq<Candidate>)
    requires AreSpots(spots, cs, ms, machine, cwd, excluded)
    requires if IsMachine(rm, machine) then AreColumns(columns, more, rm.sessions, cwd, excluded) else columns == [] && more == []
    ensures AreSpots(spots + SpotsOf(|ms|, columns), cs + more, ms + [rm], machine, cwd, excluded)
  {
    SpotsTell(spots, cs, ms, rm, machine, cwd, excluded, columns, more);
    SpotsOrdered(spots, |ms|, columns);
    forall s | IsOffer(ms + [rm], machine, cwd, excluded, s)
      ensures s in spots + SpotsOf(|ms|, columns)
    {
      SpotsComplete(spots, ms, rm, machine, cwd, excluded, columns, s);
    }
  }

  /** The candidates are exactly the sessions the file offers at the machine and directory, in its order. */
  lemma {:induction false} CandidatesAreOffered(ms: seq<Machine>, machine: string, cwd: string, excluded: set<string>)
    returns (spots: seq<Spot>)
    ensures AreSpots(spots, Candidates(ms, machine, cwd, excluded), ms, machine, cwd, excluded)
    decreases |ms|
  {
    spots := [];
    if ms != [] {
      var before, rm := ms[..|ms| - 1], ms[|ms| - 1];
      spots := CandidatesAreOffered(before, machine, cwd, excluded);
      var columns: seq<nat> := [];
      var more: seq<Candidate> := [];
      if IsMachine(rm, machine) {
        columns := SessionColumns(rm.sessions, cwd, excluded);
        more := SessionCandidates(rm.sessions, cwd, excluded);
      }
      SpotsAppend(spots, Candidates(before, machine, cwd, excluded), before, rm, machine, cwd, excluded, columns, more);
      assert before + [rm] == ms;
      spots := spots + SpotsOf(|before|, columns);
    }
  }

  /** No place offers a later session than `s`, nor one as late before it in the file. */
  ghost predicate IsPick(ms: seq<Machine>, machine: string, cwd: string, excluded: set<string>, s: Spot)
  {
    && IsOffer(ms, machine, cwd, excluded, s)
    && forall t :: IsOffer(ms, machine, cwd, excluded, t) && t != s ==>
      At(ms, t).epoch < At(ms, s).epoch || (At(ms, t).epoch == At(ms, s).epoch && Before(s, t))
  }

  lemma FirstLatestIsPick(ms: seq<Machine>, machine: string, cwd: string, excluded: set<string>,
                          spots: seq<Spot>, cs: seq<Candidate>, k: nat)
    requires AreSpots(spots, cs, ms, machine, cwd, excluded) && k < |cs| && FirstLatest(cs, k)
    ensures IsPick(ms, machine, cwd, excluded, spots[k]) && At(ms, spots[k]) == cs[k]
  {
    forall t | IsOffer(ms, machine, cwd, excluded, t) && t != spots[k]
      ensures At(ms, t).epoch < At(ms, spots[k]).epoch || (At(ms, t).epoch == At(ms, spots[k]).epoch && Before(spots[k], t))
    {
      assert t in spots;
      var l :| 0 <= l < |spots| && spots[l] == t;
      assert cs[l] == At(ms, t);
    }
  }

  /**
   The replacement is the newest session that the file records at that machine, in that directory, under
   a codex ULID not excluded, the first of them on a tie; there is none exactly when none is recorded.
   */
  lemma ReplacementIsNewestOffered(ms: seq<Machine>, machine: string, cwd: string, excluded: set<string>) returns (s: Spot)
    ensures var c := Newest(Candidates(ms, machine, cwd, excluded));
      if c.Some? then IsPick(ms, machine, cwd, excluded, s) && c == Some(At(ms, s))
      else forall t :: !IsOffer(ms, machine, cwd, excluded, t)
  {
    var cs := Candidates(ms, machine, cwd, excluded);
    var spots := CandidatesAreOffered(ms, machine, cwd, excluded);
    NewestIsFirstLatest(cs);
    s := Spot(0, 0);
    if cs != [] {
      var k :| 0 <= k < |cs| && Newest(cs) == Some(cs[k]) && FirstLatest(cs, k);
      FirstLatestIsPick(ms, machine, cwd, excluded, spots, cs, k);
      s := spots[k];
    }
  }
}
