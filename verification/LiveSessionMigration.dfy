/**
 scripts/migrate_uuidv4_codex_live_sessions.py: planning which live rows to rebind
 to a codex ULID, and renaming them in the saved state one after the other.
 */
module LiveSessionMigration {
  import opened Options
  import opened CodexIdentity
  import opened SessionOffers
  import opened KeyRenames
  import opened Seqs

  datatype Session = Session(kind: string, id: string, key: string, cwd: Option<string>)

  datatype Decision = NoPlace | NoUlid | Rebind(ulid: string, epoch: int)
  datatype PlanRow = PlanRow(idx: nat, oldId: string, machine: string, cwd: string, decision: Decision)

  /** The parts of server-state.json the script rewrites. */
  datatype Saved = Saved(live: seq<Session>, order: Option<seq<string>>, keepAlive: Option<map<string, string>>)

  // -------------------------------------------------------------- planning

  predicate Eligible(s: Session) {
    s.kind == "codex" && IsUuidV4(s.id)
  }

  /** The machine and working directory of a row, when both can be told. */
  function PlaceOf(s: Session): (place: Option<(string, string)>) {
    var machine := MachineOfKey(s.key);
    if machine.None? || machine.value == "" || s.cwd.None? || s.cwd.value == "" then None
    else Some((machine.value, s.cwd.value))
  }

  function Decide(s: Session, ms: seq<Machine>, excluded: set<string>): (d: Decision) {
    match PlaceOf(s)
    case None => NoPlace
    case Some((machine, cwd)) =>
      match Newest(Candidates(ms, machine, cwd, excluded))
      case None => NoUlid
      case Some(c) => Rebind(c.ulid, c.epoch)
  }

  function RowFor(i: nat, s: Session, d: Decision): (p: PlanRow) {
    var place := PlaceOf(s);
    if place.None? then PlanRow(i, s.id, "", "", d) else PlanRow(i, s.id, place.value.0, place.value.1, d)
  }

  function LiveUlids(live: seq<Session>): (ids: set<string>) {
    set s | s in live && IsCodexUlid(s.id) :: s.id
  }

  function Claimed(plan: seq<PlanRow>): (ids: set<string>) {
    set p | p in plan && p.decision.Rebind? :: p.decision.ulid
  }

  /** The plan over the first `n` live rows. */
  function Plan(live: seq<Session>, ms: seq<Machine>, n: nat): (plan: seq<PlanRow>)
    requires n <= |live|
  {
    if n == 0 then []
    else
      var before := Plan(live, ms, n - 1);
      var s := live[n - 1];
      if !Eligible(s) then before
      else before + [RowFor(n - 1, s, Decide(s, ms, LiveUlids(live) + Claimed(before)))]
  }

  predicate Touches(plan: seq<PlanRow>, i: nat) {
    exists k :: 0 <= k < |plan| && plan[k].idx == i
  }

  /** What a plan row records, given the rows before it. */
  ghost predicate Faithful(live: seq<Session>, ms: seq<Machine>, plan: seq<PlanRow>, k: nat)
    requires k < |plan|
  {
    var p := plan[k];
    && p.idx < |live| && Eligible(live[p.idx])
    && p == RowFor(p.idx, live[p.idx], p.decision)
    && p.decision == Decide(live[p.idx], ms, LiveUlids(live) + Claimed(plan[..k]))
  }

  /** Plan rows follow the live rows: one row for each eligible one, decided on what came before. */
  ghost predicate FollowsLive(live: seq<Session>, ms: seq<Machine>, plan: seq<PlanRow>, n: nat)
    requires n <= |live|
  {
    && (forall k :: 0 <= k < |plan| ==> Faithful(live, ms, plan, k) && plan[k].idx < n)
    && (forall j, k :: 0 <= j < k < |plan| ==> plan[j].idx < plan[k].idx)
    && (forall i {:trigger Touches(plan, i)} :: 0 <= i < n && Eligible(live[i]) ==> Touches(plan, i))
  }

  lemma FaithfulPrefix(live: seq<Session>, ms: seq<Machine>, before: seq<PlanRow>, p: PlanRow, k: nat)
    requires k < |before| && Faithful(live, ms, before, k)
    ensures Faithful(live, ms, before + [p], k)
  {
    assert (before + [p])[..k] == before[..k];
  }

  lemma TouchesAppend(before: seq<PlanRow>, p: PlanRow, i: nat)
    ensures Touches(before + [p], i) <==> Touches(before, i) || p.idx == i
  {
    assert (before + [p])[|before|] == p;
    assert forall k :: 0 <= k < |before| ==> (before + [p])[k] == before[k];
  }

  lemma FollowsAppend(live: seq<Session>, ms: seq<Machine>, before: seq<PlanRow>, p: PlanRow, n: nat)
    requires 0 < n <= |live| && FollowsLive(live, ms, before, n - 1) && p.idx == n - 1
    requires Faithful(live, ms, before + [p], |before|)
    ensures FollowsLive(live, ms, before + [p], n)
  {
    forall k | 0 <= k < |before| {
      FaithfulPrefix(live, ms, before, p, k);
    }
    forall i | 0 <= i < n && Eligible(live[i])
      ensures Touches(before + [p], i)
    {
      TouchesAppend(before, p, i);
    }
  }

  /** The row an eligible live row adds to the plan. */
  lemma NextRow(live: seq<Session>, ms: seq<Machine>, n: nat) returns (p: PlanRow)
    requires 0 < n <= |live| && Eligible(live[n - 1])
    ensures var before := Plan(live, ms, n - 1);
      && p == RowFor(n - 1, live[n - 1], Decide(live[n - 1], ms, LiveUlids(live) + Claimed(before)))
      && Plan(live, ms, n) == before + [p] && Faithful(live, ms, before + [p], |before|)
  {
    var before := Plan(live, ms, n - 1);
    p := RowFor(n - 1, live[n - 1], Decide(live[n - 1], ms, LiveUlids(live) + Claimed(before)));
    assert (before + [p])[..|before|] == before;
  }

  lemma SkipFollows(live: seq<Session>, ms: seq<Machine>, plan: seq<PlanRow>, n: nat)
    requires 0 < n <= |live| && FollowsLive(live, ms, plan, n - 1) && !Eligible(live[n - 1])
    ensures FollowsLive(live, ms, plan, n)
  {
    forall k | 0 <= k < |plan|
      ensures Faithful(live, ms, plan, k) && plan[k].idx < n
    {
    }
    forall i | 0 <= i < n && Eligible(live[i])
      ensures Touches(plan, i)
    {
      assert i < n - 1;
    }
  }

  lemma NextFollows(live: seq<Session>, ms: seq<Machine>, n: nat)
    requires 0 < n <= |live| && Eligible(live[n - 1]) && FollowsLive(live, ms, Plan(live, ms, n - 1), n - 1)
    ensures FollowsLive(live, ms, Plan(live, ms, n), n)
  {
    var before := Plan(live, ms, n - 1);
    var p := NextRow(live, ms, n);
    FollowsAppend(live, ms, before, p, n);
  }

  lemma {:induction false} PlanFollowsLive(live: seq<Session>, ms: seq<Machine>, n: nat)
    requires n <= |live|
    ensures FollowsLive(live, ms, Plan(live, ms, n), n)
  {
    if n > 0 {
      PlanFollowsLive(live, ms, n - 1);
      if Eligible(live[n - 1]) {
        NextFollows(live, ms, n);
      } else {
        SkipFollows(live, ms, Plan(live, ms, n - 1), n);
      }
    }
  }

  lemma DecisionFacts(s: Session, ms: seq<Machine>, excluded: set<string>)
    ensures var d := Decide(s, ms, excluded);
      d.Rebind? ==>
        && PlaceOf(s).Some? && IsCodexUlid(d.ulid) && d.ulid !in excluded
        && Candidate(d.ulid, d.epoch) in Candidates(ms, PlaceOf(s).value.0, PlaceOf(s).value.1, {})
  {
    if PlaceOf(s).Some? {
      var (machine, cwd) := PlaceOf(s).value;
      Exclusion(ms, machine, cwd, excluded);
      NewestIsFirstLatest(Candidates(ms, machine, cwd, excluded));
    }
  }

  /** A rebound row takes a ULID no live row had and no other row takes. */
  lemma PlanIsInjective(live: seq<Session>, ms: seq<Machine>, plan: seq<PlanRow>, n: nat)
    requires n <= |live| && FollowsLive(live, ms, plan, n)
    ensures forall k :: 0 <= k < |plan| && plan[k].decision.Rebind? ==>
      IsCodexUlid(plan[k].decision.ulid) && plan[k].decision.ulid !in LiveUlids(live)
    ensures forall j, k :: 0 <= j < k < |plan| && plan[j].decision.Rebind? && plan[k].decision.Rebind? ==>
      plan[j].decision.ulid != plan[k].decision.ulid
  {
    forall k | 0 <= k < |plan| && plan[k].decision.Rebind?
      ensures IsCodexUlid(plan[k].decision.ulid) && plan[k].decision.ulid !in LiveUlids(live)
      ensures forall j :: 0 <= j < k && plan[j].decision.Rebind? ==> plan[j].decision.ulid != plan[k].decision.ulid
    {
      assert Faithful(live, ms, plan, k);
      DecisionFacts(live[plan[k].idx], ms, LiveUlids(live) + Claimed(plan[..k]));
      forall j | 0 <= j < k && plan[j].decision.Rebind?
        ensures plan[j].decision.ulid in Claimed(plan[..k])
      {
        assert plan[..k][j] in plan[..k];
      }
    }
  }

  // ------------------------------------------------ what a plan row says

  /** The row's key names the machine, which is not empty, and the row has the directory. */
  ghost predicate IsAt(s: Session, machine: string, cwd: string) {
    && machine != "" && '/' !in machine && cwd != "" && s.cwd == Some(cwd)
    && exists id :: s.key == "remote-session://" + machine + "/" + id
  }

  lemma PlaceIff(s: Session, machine: string, cwd: string)
    ensures PlaceOf(s) == Some((machine, cwd)) <==> IsAt(s, machine, cwd)
  {
    MachineOfKeyIff(s.key, machine);
    if MachineOfKey(s.key) == Some(machine) {
      var id :| s.key == KeyOf(machine, id);
      assert s.key == "remote-session://" + machine + "/" + id;
    }
    if id :| s.key == "remote-session://" + machine + "/" + id {
      assert s.key == KeyOf(machine, id);
    }
  }

  /** The ULIDs that the k-th plan row may not take: those of live rows, and those of the plan rows before it. */
  ghost predicate InUse(live: seq<Session>, plan: seq<PlanRow>, k: nat, id: string)
    requires k <= |plan|
  {
    || ("019" <= id && exists i :: 0 <= i < |live| && live[i].id == id)
    || exists j :: 0 <= j < k && plan[j].decision.Rebind? && plan[j].decision.ulid == id
  }

  lemma UsedAre(live: seq<Session>, plan: seq<PlanRow>, k: nat, id: string)
    requires k <= |plan|
    ensures id in LiveUlids(live) + Claimed(plan[..k]) <==> InUse(live, plan, k, id)
  {
    if id in LiveUlids(live) {
      var s :| s in live && IsCodexUlid(s.id) && s.id == id;
      var i :| 0 <= i < |live| && live[i] == s;
    }
    if id in Claimed(plan[..k]) {
      var p :| p in plan[..k] && p.decision.Rebind? && p.decision.ulid == id;
      var j :| 0 <= j < k && plan[j] == p;
    }
    if j :| 0 <= j < k && plan[j].decision.Rebind? && plan[j].decision.ulid == id {
      assert plan[..k][j] in plan[..k];
    }
  }

  /** What the k-th row of a plan decides, told by the live row it is for and by what the file records. */
  ghost predicate IsSound(live: seq<Session>, ms: seq<Machine>, plan: seq<PlanRow>, k: nat, used: set<string>)
    requires k < |plan|
  {
    var p := plan[k];
    && (forall id :: id in used <==> InUse(live, plan, k, id))
    && p.idx < |live| && live[p.idx].kind == "codex" && IsUuidV4(live[p.idx].id) && p.oldId == live[p.idx].id
    && match p.decision
      case NoPlace => forall machine, cwd :: !IsAt(live[p.idx], machine, cwd)
      case NoUlid => IsAt(live[p.idx], p.machine, p.cwd) && forall t :: !IsOffer(ms, p.machine, p.cwd, used, t)
      case Rebind(ulid, epoch) =>
        && IsAt(live[p.idx], p.machine, p.cwd)
        && exists t :: IsPick(ms, p.machine, p.cwd, used, t) && At(ms, t) == Candidate(ulid, epoch)
  }

  ghost predicate RowIsSound(live: seq<Session>, ms: seq<Machine>, plan: seq<PlanRow>, k: nat)
    requires k < |plan|
  {
    exists used :: IsSound(live, ms, plan, k, used)
  }

  lemma FaithfulIsSound(live: seq<Session>, ms: seq<Machine>, plan: seq<PlanRow>, k: nat)
    requires k < |plan| && Faithful(live, ms, plan, k)
    ensures RowIsSound(live, ms, plan, k) && plan[k].idx < |live|
    ensures live[plan[k].idx].kind == "codex" && IsUuidV4(live[plan[k].idx].id)
  {
    var p, used := plan[k], LiveUlids(live) + Claimed(plan[..k]);
    var s := live[p.idx];
    forall id
      ensures id in used <==> InUse(live, plan, k, id)
    {
      UsedAre(live, plan, k, id);
    }
    if PlaceOf(s).None? {
      forall machine, cwd
        ensures !IsAt(s, machine, cwd)
      {
        PlaceIff(s, machine, cwd);
      }
    } else {
      var (machine, cwd) := PlaceOf(s).value;
      PlaceIff(s, machine, cwd);
      var t := ReplacementIsNewestOffered(ms, machine, cwd, used);
    }
    assert IsSound(live, ms, plan, k, used);
  }

  /**
   A row is planned exactly for every live codex row with a made-up id. Its ULID is the newest that is
   recorded at the machine and in the directory of the row itself and not in use; no ULID is found only
   when none such is recorded, and no place only when the row has none.
   */
  lemma PlanIsSound(live: seq<Session>, ms: seq<Machine>)
    ensures var plan := Plan(live, ms, |live|);
      && (forall k :: 0 <= k < |plan| ==> RowIsSound(live, ms, plan, k))
      && (forall j, k :: 0 <= j < k < |plan| ==> plan[j].idx < plan[k].idx)
      && (forall i :: 0 <= i < |live| ==> (Touches(plan, i) <==> live[i].kind == "codex" && IsUuidV4(live[i].id)))
  {
    var plan := Plan(live, ms, |live|);
    PlanFollowsLive(live, ms, |live|);
    forall k | 0 <= k < |plan|
      ensures RowIsSound(live, ms, plan, k) && plan[k].idx < |live|
      ensures live[plan[k].idx].kind == "codex" && IsUuidV4(live[plan[k].idx].id)
    {
      assert Faithful(live, ms, plan, k);
      FaithfulIsSound(live, ms, plan, k);
    }
  }

  // ------------------------------------------------- allocation guarantees

  /** Excluding more can only turn a rebind into a refusal, or into an older session. */
  lemma DecideMonotone(s: Session, ms: seq<Machine>, less: set<string>, more: set<string>)
    requires less <= more
    ensures Decide(s, ms, more).Rebind? ==> Decide(s, ms, less).Rebind?
    ensures Decide(s, ms, more).Rebind? ==> Decide(s, ms, more).epoch <= Decide(s, ms, less).epoch
  {
    if PlaceOf(s).Some? {
      var (machine, cwd) := PlaceOf(s).value;
      var few, many := Candidates(ms, machine, cwd, more), Candidates(ms, machine, cwd, less);
      Exclusion(ms, machine, cwd, less);
      Exclusion(ms, machine, cwd, more);
      NewestIsFirstLatest(few);
      NewestIsFirstLatest(many);
      if few != [] {
        assert Newest(few).value in many;
      }
    }
  }

  lemma DecideByPlace(s: Session, t: Session, ms: seq<Machine>, excluded: set<string>)
    requires PlaceOf(s) == PlaceOf(t)
    ensures Decide(s, ms, excluded) == Decide(t, ms, excluded)
  {
  }

  lemma ClaimedGrows(plan: seq<PlanRow>, j: nat, k: nat)
    requires j <= k <= |plan|
    ensures Claimed(plan[..j]) <= Claimed(plan[..k])
  {
    forall id | id in Claimed(plan[..j])
      ensures id in Claimed(plan[..k])
    {
      var p :| p in plan[..j] && p.decision.Rebind? && p.decision.ulid == id;
      assert p in plan[..k] by {
        assert plan[..j] == plan[..k][..j];
      }
    }
  }

  lemma LaterRowFaresNoBetter(live: seq<Session>, ms: seq<Machine>, plan: seq<PlanRow>, j: nat, k: nat)
    requires j < k < |plan| && Faithful(live, ms, plan, j) && Faithful(live, ms, plan, k)
    requires PlaceOf(live[plan[j].idx]) == PlaceOf(live[plan[k].idx])
    ensures plan[k].decision.Rebind? ==> plan[j].decision.Rebind? && plan[j].decision.epoch >= plan[k].decision.epoch
  {
    var first, second := live[plan[j].idx], live[plan[k].idx];
    var less, more := LiveUlids(live) + Claimed(plan[..j]), LiveUlids(live) + Claimed(plan[..k]);
    ClaimedGrows(plan, j, k);
    DecideMonotone(second, ms, less, more);
    DecideByPlace(first, second, ms, less);
  }

  /** Within one (machine, cwd) the epochs never increase, and the first refusal is final. */
  lemma BucketIsServedNewestFirst(live: seq<Session>, ms: seq<Machine>, j: nat, k: nat)
    requires j < k < |Plan(live, ms, |live|)|
    requires var plan := Plan(live, ms, |live|); (plan[j].machine, plan[j].cwd) == (plan[k].machine, plan[k].cwd)
    ensures var a, b := Plan(live, ms, |live|)[j].decision, Plan(live, ms, |live|)[k].decision;
      b.Rebind? ==> a.Rebind? && a.epoch >= b.epoch
  {
    var plan := Plan(live, ms, |live|);
    PlanFollowsLive(live, ms, |live|);
    assert Faithful(live, ms, plan, j) && Faithful(live, ms, plan, k);
    LaterRowFaresNoBetter(live, ms, plan, j, k);
  }

  /** The ULIDs recorded at (machine, cwd) that no live row holds. */
  function Available(live: seq<Session>, ms: seq<Machine>, place: (string, string)): (ids: set<string>) {
    set c | c in Candidates(ms, place.0, place.1, LiveUlids(live)) :: c.ulid
  }

  function CountEligible(live: seq<Session>, place: (string, string), n: nat): (count: nat)
    requires n <= |live|
  {
    if n == 0 then 0
    else
      var last := if Eligible(live[n - 1]) && PlaceOf(live[n - 1]) == Some(place) then 1 else 0;
      CountEligible(live, place, n - 1) + last
  }

  function CountRebound(plan: seq<PlanRow>, place: (string, string)): (count: nat) {
    if plan == [] then 0
    else
      var p := plan[|plan| - 1];
      CountRebound(plan[..|plan| - 1], place) + if p.decision.Rebind? && (p.machine, p.cwd) == place then 1 else 0
  }

  function Min(a: nat, b: nat): (m: nat) {
    if a <= b then a else b
  }

  /** No other place that occurs among the eligible rows offers an available ULID of `place`. */
  ghost predicate OwnsItsUlids(live: seq<Session>, ms: seq<Machine>, place: (string, string)) {
    forall i :: 0 <= i < |live| && Eligible(live[i]) && PlaceOf(live[i]).Some? && PlaceOf(live[i]).value != place ==>
      Available(live, ms, PlaceOf(live[i]).value) !! Available(live, ms, place)
  }

  lemma AvailableAre(live: seq<Session>, ms: seq<Machine>, place: (string, string), claimed: set<string>)
    ensures var cs := Candidates(ms, place.0, place.1, LiveUlids(live) + claimed);
      && (forall c :: c in cs ==> c.ulid in Available(live, ms, place) - claimed)
      && (cs == [] <==> Available(live, ms, place) - claimed == {})
  {
    var ids := Available(live, ms, place);
    var cs := Candidates(ms, place.0, place.1, LiveUlids(live) + claimed);
    Exclusion(ms, place.0, place.1, LiveUlids(live));
    Exclusion(ms, place.0, place.1, LiveUlids(live) + claimed);
    forall c | c in cs
      ensures c.ulid in ids - claimed
    {
      assert c in Candidates(ms, place.0, place.1, LiveUlids(live));
    }
    if cs != [] {
      assert cs[0] in cs;
    }
    if ids - claimed != {} {
      var id :| id in ids - claimed;
      var c :| c in Candidates(ms, place.0, place.1, LiveUlids(live)) && c.ulid == id;
      assert c in cs;
    }
  }

  lemma DecideFromAvailable(live: seq<Session>, ms: seq<Machine>, s: Session, claimed: set<string>)
    requires PlaceOf(s).Some?
    ensures var d, ids := Decide(s, ms, LiveUlids(live) + claimed), Available(live, ms, PlaceOf(s).value);
      && (d.Rebind? <==> ids - claimed != {})
      && (d.Rebind? ==> d.ulid in ids && d.ulid !in claimed)
  {
    var place := PlaceOf(s).value;
    AvailableAre(live, ms, place, claimed);
    NewestIsFirstLatest(Candidates(ms, place.0, place.1, LiveUlids(live) + claimed));
  }

  lemma ClaimedAppend(plan: seq<PlanRow>, p: PlanRow)
    ensures Claimed(plan + [p]) == Claimed(plan) + if p.decision.Rebind? then {p.decision.ulid} else {}
  {
    var after := Claimed(plan) + if p.decision.Rebind? then {p.decision.ulid} else {};
    forall id | id in after
      ensures id in Claimed(plan + [p])
    {
      if p.decision.Rebind? && id == p.decision.ulid {
        assert p in plan + [p];
      } else {
        var q :| q in plan && q.decision.Rebind? && q.decision.ulid == id;
        assert q in plan + [p];
      }
    }
  }

  lemma RemainingIds(claimed: set<string>, ids: set<string>)
    ensures |claimed * ids| <= |ids|
    ensures ids - claimed == {} <==> |claimed * ids| == |ids|
  {
    assert ids == (claimed * ids) + (ids - claimed);
    assert |ids| == |claimed * ids| + |ids - claimed|;
  }

  /** How many ULIDs of a bucket one more decision claims. */
  lemma ClaimGrowth(live: seq<Session>, ms: seq<Machine>, place: (string, string), s: Session, claimed: set<string>)
    requires OwnsItsUlids(live, ms, place) && s in live && Eligible(s)
    ensures var d, ids := Decide(s, ms, LiveUlids(live) + claimed), Available(live, ms, place);
      var taken := claimed + if d.Rebind? then {d.ulid} else {};
      && (PlaceOf(s) == Some(place) ==> (d.Rebind? <==> |claimed * ids| < |ids|))
      && |taken * ids| == |claimed * ids| + if PlaceOf(s) == Some(place) && d.Rebind? then 1 else 0
  {
    var d, ids := Decide(s, ms, LiveUlids(live) + claimed), Available(live, ms, place);
    RemainingIds(claimed, ids);
    if PlaceOf(s).Some? {
      DecideFromAvailable(live, ms, s, claimed);
    }
    if d.Rebind? {
      if PlaceOf(s) == Some(place) {
        assert (claimed + {d.ulid}) * ids == claimed * ids + {d.ulid};
      } else {
        assert d.ulid in Available(live, ms, PlaceOf(s).value);
        assert (claimed + {d.ulid}) * ids == claimed * ids;
      }
    }
  }

  lemma CountReboundAppend(plan: seq<PlanRow>, p: PlanRow, place: (string, string))
    ensures CountRebound(plan + [p], place)
      == CountRebound(plan, place) + if p.decision.Rebind? && (p.machine, p.cwd) == place then 1 else 0
  {
    assert (plan + [p])[..|plan|] == plan;
  }

  /** So many rows of the bucket are rebound as its eligible rows and its ULIDs allow. */
  ghost predicate Served(plan: seq<PlanRow>, place: (string, string), ids: set<string>, eligible: nat) {
    |Claimed(plan) * ids| == CountRebound(plan, place) == Min(eligible, |ids|)
  }

  lemma BucketStep(before: seq<PlanRow>, p: PlanRow, place: (string, string), ids: set<string>, eligible: nat, mine: bool)
    requires Served(before, place, ids, eligible)
    requires p.decision.Rebind? ==> (mine <==> (p.machine, p.cwd) == place)
    requires mine ==> (p.decision.Rebind? <==> |Claimed(before) * ids| < |ids|)
    requires var taken := Claimed(before) + if p.decision.Rebind? then {p.decision.ulid} else {};
      |taken * ids| == |Claimed(before) * ids| + if mine && p.decision.Rebind? then 1 else 0
    ensures Served(before + [p], place, ids, eligible + if mine then 1 else 0)
  {
    ClaimedAppend(before, p);
    CountReboundAppend(before, p, place);
  }

  lemma NextServed(live: seq<Session>, ms: seq<Machine>, place: (string, string), n: nat)
    requires 0 < n <= |live| && OwnsItsUlids(live, ms, place) && Eligible(live[n - 1])
    requires Served(Plan(live, ms, n - 1), place, Available(live, ms, place), CountEligible(live, place, n - 1))
    ensures Served(Plan(live, ms, n), place, Available(live, ms, place), CountEligible(live, place, n))
  {
    var before, s, eligible := Plan(live, ms, n - 1), live[n - 1], CountEligible(live, place, n - 1);
    var p := NextRow(live, ms, n);
    ClaimGrowth(live, ms, place, s, Claimed(before));
    RowPlace(s, ms, LiveUlids(live) + Claimed(before), n - 1, place);
    BucketStep(before, p, place, Available(live, ms, place), eligible, PlaceOf(s) == Some(place));
  }

  /** The greedy allocation wastes nothing: a bucket migrates as many rows as its rows and its ULIDs allow. */
  lemma {:induction false} BucketIsServedFully(live: seq<Session>, ms: seq<Machine>, place: (string, string), n: nat)
    requires n <= |live| && OwnsItsUlids(live, ms, place)
    ensures Served(Plan(live, ms, n), place, Available(live, ms, place), CountEligible(live, place, n))
  {
    if n == 0 {
      assert Claimed([]) * Available(live, ms, place) == {};
    } else {
      BucketIsServedFully(live, ms, place, n - 1);
      if Eligible(live[n - 1]) {
        NextServed(live, ms, place, n);
      }
    }
  }

  lemma RowPlace(s: Session, ms: seq<Machine>, excluded: set<string>, i: nat, place: (string, string))
    ensures var d := Decide(s, ms, excluded); var p := RowFor(i, s, d);
      && p.decision == d
      && (d.Rebind? ==> (PlaceOf(s) == Some(place) <==> (p.machine, p.cwd) == place))
  {
    DecisionFacts(s, ms, excluded);
  }

  // -------------------------------------------------------------- applying

  function Actionable(plan: seq<PlanRow>): (act: seq<PlanRow>) {
    if plan == [] then []
    else
      var p := plan[|plan| - 1];
      Actionable(plan[..|plan| - 1]) + if p.decision.Rebind? then [p] else []
  }

  predicate Applicable(live: seq<Session>, act: seq<PlanRow>) {
    forall k :: 0 <= k < |act| ==> act[k].decision.Rebind? && act[k].idx < |live|
  }

  function NewKey(p: PlanRow): (key: string)
    requires p.decision.Rebind?
  {
    KeyOf(p.machine, p.decision.ulid)
  }

  /** The rewrite of one row, of the order list, and of the keep-alive map. */
  function ApplyRow(st: Saved, p: PlanRow): (st': Saved)
    requires p.decision.Rebind? && p.idx < |st.live|
  {
    var s := st.live[p.idx];
    var r := Rename(s.key, NewKey(p));
    Saved(st.live[p.idx := s.(id := p.decision.ulid, key := NewKey(p))],
          if st.order.Some? then Some(RenameOrder(st.order.value, r)) else None,
          if st.keepAlive.Some? then Some(RenameEntry(st.keepAlive.value, r)) else None)
  }

  function ApplyRows(st: Saved, act: seq<PlanRow>): (st': Saved)
    requires Applicable(st.live, act)
    ensures |st'.live| == |st.live|
    ensures st'.order.Some? <==> st.order.Some?
    ensures st'.keepAlive.Some? <==> st.keepAlive.Some?
  {
    if act == [] then st else ApplyRow(ApplyRows(st, act[..|act| - 1]), act[|act| - 1])
  }

  predicate Increasing(act: seq<PlanRow>) {
    forall j, k :: 0 <= j < k < |act| ==> act[j].idx < act[k].idx
  }

  predicate GoodRow(live: seq<Session>, p: PlanRow) {
    && p.decision.Rebind? && p.idx < |live| && Eligible(live[p.idx])
    && PlaceOf(live[p.idx]) == Some((p.machine, p.cwd))
    && IsCodexUlid(p.decision.ulid) && p.decision.ulid !in LiveUlids(live)
  }

  /** What the plan guarantees about the rows to apply. */
  ghost predicate GoodBatch(live: seq<Session>, act: seq<PlanRow>) {
    && Increasing(act)
    && (forall k :: 0 <= k < |act| ==> GoodRow(live, act[k]))
    && (forall j, k :: 0 <= j < k < |act| ==> act[j].decision.ulid != act[k].decision.ulid)
  }

  lemma {:induction false} ActionableRows(plan: seq<PlanRow>)
    ensures forall p :: p in Actionable(plan) <==> p in plan && p.decision.Rebind?
    ensures Actionable(plan) != [] ==>
      exists k :: 0 <= k < |plan| && plan[k] == Actionable(plan)[|Actionable(plan)| - 1]
    decreases |plan|
  {
    if plan != [] {
      ActionableRows(plan[..|plan| - 1]);
      assert plan == plan[..|plan| - 1] + [plan[|plan| - 1]];
    }
  }

  lemma {:induction false} ActionableOrder(plan: seq<PlanRow>)
    requires forall j, k :: 0 <= j < k < |plan| ==> plan[j].idx < plan[k].idx
    ensures var act := Actionable(plan); forall j, k :: 0 <= j < k < |act| ==> act[j].idx < act[k].idx
    decreases |plan|
  {
    if plan != [] {
      var before, p := plan[..|plan| - 1], plan[|plan| - 1];
      ActionableOrder(before);
      ActionableRows(before);
      forall q | q in Actionable(before)
        ensures q.idx < p.idx
      {
        var j :| 0 <= j < |before| && before[j] == q;
        assert plan[j].idx < plan[|plan| - 1].idx;
      }
    }
  }

  /** The rows the script goes on to apply. */
  function Batch(live: seq<Session>, ms: seq<Machine>): (act: seq<PlanRow>) {
    Actionable(Plan(live, ms, |live|))
  }

  lemma PlannedRowIsGood(live: seq<Session>, ms: seq<Machine>, plan: seq<PlanRow>, k: nat)
    requires k < |plan| && Faithful(live, ms, plan, k) && plan[k].decision.Rebind?
    ensures GoodRow(live, plan[k])
  {
    DecisionFacts(live[plan[k].idx], ms, LiveUlids(live) + Claimed(plan[..k]));
  }

  lemma PlannedRowsAreGood(live: seq<Session>, ms: seq<Machine>, plan: seq<PlanRow>)
    requires FollowsLive(live, ms, plan, |live|)
    ensures forall p :: p in plan && p.decision.Rebind? ==> GoodRow(live, p)
    ensures forall p, q :: p in plan && q in plan && p.decision.Rebind? && q.decision.Rebind? && p.idx < q.idx ==>
      p.decision.ulid != q.decision.ulid
  {
    PlanIsInjective(live, ms, plan, |live|);
    forall p | p in plan && p.decision.Rebind?
      ensures GoodRow(live, p)
    {
      var k :| 0 <= k < |plan| && plan[k] == p;
      assert Faithful(live, ms, plan, k);
      PlannedRowIsGood(live, ms, plan, k);
    }
  }

  lemma GoodMembers(live: seq<Session>, plan: seq<PlanRow>, act: seq<PlanRow>)
    requires Increasing(act) && forall p :: p in act ==> p in plan && p.decision.Rebind?
    requires forall p :: p in plan && p.decision.Rebind? ==> GoodRow(live, p)
    requires forall p, q :: p in plan && q in plan && p.decision.Rebind? && q.decision.Rebind? && p.idx < q.idx ==>
      p.decision.ulid != q.decision.ulid
    ensures GoodBatch(live, act)
  {
    assert forall k :: 0 <= k < |act| ==> act[k] in act;
  }

  lemma BatchIsGood(live: seq<Session>, ms: seq<Machine>)
    ensures GoodBatch(live, Batch(live, ms))
  {
    var plan := Plan(live, ms, |live|);
    PlanFollowsLive(live, ms, |live|);
    PlannedRowsAreGood(live, ms, plan);
    ActionableRows(plan);
    ActionableOrder(plan);
    GoodMembers(live, plan, Actionable(plan));
  }

  // ------------------------------------------------------ the renamed rows

  function Rebound(s: Session, p: PlanRow): (s': Session)
    requires p.decision.Rebind?
  {
    s.(id := p.decision.ulid, key := NewKey(p))
  }

  /** `live'` is `live` with each row of `act` rebound, and nothing else changed. */
  ghost predicate Rewritten(live: seq<Session>, act: seq<PlanRow>, live': seq<Session>)
    requires Applicable(live, act)
  {
    && |live'| == |live|
    && (forall k :: 0 <= k < |act| ==> live'[act[k].idx] == Rebound(live[act[k].idx], act[k]))
    && (forall i :: 0 <= i < |live| && !Touches(act, i) ==> live'[i] == live[i])
  }

  /** Rows rewritten one after the other are each rewritten once; the others stay. */
  lemma {:induction false} LiveAfter(st: Saved, act: seq<PlanRow>)
    requires Applicable(st.live, act) && Increasing(act)
    ensures Rewritten(st.live, act, ApplyRows(st, act).live)
    decreases |act|
  {
    if act != [] {
      var before, p := act[..|act| - 1], act[|act| - 1];
      LiveAfter(st, before);
      assert forall k :: 0 <= k < |before| ==> before[k].idx < p.idx;
      assert act[|act| - 1] == p;
      assert forall k :: 0 <= k < |before| ==> before[k] == act[k];
    }
  }

  lemma GoodIsApplicable(live: seq<Session>, act: seq<PlanRow>)
    requires GoodBatch(live, act)
    ensures Applicable(live, act)
  {
    assert forall k :: 0 <= k < |act| ==> GoodRow(live, act[k]);
  }

  /** If the row's key is a remote-session key, it names the row's own id. */
  ghost predicate NamesOwnId(s: Session) {
    forall m, id :: s.key == KeyOf(m, id) && '/' !in m ==> id == s.id
  }

  /** A fresh key is not the key of any row that still has its own id. */
  lemma NewKeyIsFresh(live: seq<Session>, p: PlanRow, s: Session)
    requires GoodRow(live, p) && s in live && NamesOwnId(s)
    ensures NewKey(p) != s.key && p.decision.ulid != s.id
  {
    MachineOfKeyIff(live[p.idx].key, p.machine);
    assert s.id == p.decision.ulid ==> s.id in LiveUlids(live);
  }

  lemma NewKeysDiffer(live: seq<Session>, p: PlanRow, q: PlanRow)
    requires GoodRow(live, p) && GoodRow(live, q) && p.decision.ulid != q.decision.ulid
    ensures NewKey(p) != NewKey(q)
  {
    MachineOfKeyIff(live[p.idx].key, p.machine);
    MachineOfKeyIff(live[q.idx].key, q.machine);
    if NewKey(p) == NewKey(q) {
      KeyOfInjective(p.machine, p.decision.ulid, q.machine, q.decision.ulid);
    }
  }

  /** After the migration a rebound row shares its id with no other live row, nor its key with one whose key named its own id. */
  lemma ReboundRowsAreUnique(st: Saved, act: seq<PlanRow>, k: nat, i: nat)
    requires GoodBatch(st.live, act) && Applicable(st.live, act)
    requires k < |act| && i < |st.live| && i != act[k].idx
    ensures var live' := ApplyRows(st, act).live; act[k].idx < |live'| && live'[i].id != live'[act[k].idx].id
    ensures var live' := ApplyRows(st, act).live; NamesOwnId(st.live[i]) ==> live'[i].key != live'[act[k].idx].key
  {
    var p, s := act[k], st.live[i];
    LiveAfter(st, act);
    assert GoodRow(st.live, p);
    if j :| 0 <= j < |act| && act[j].idx == i {
      assert GoodRow(st.live, act[j]);
      assert act[j].decision.ulid != p.decision.ulid;
      NewKeysDiffer(st.live, p, act[j]);
    } else {
      assert s.id == p.decision.ulid ==> s.id in LiveUlids(st.live);
      if NamesOwnId(s) {
        NewKeyIsFresh(st.live, p, s);
      }
    }
  }

  // ------------------------------------------------------ the renamed keys

  /** The renames the rows to apply stand for, read off the state as it was. */
  function Renames(live: seq<Session>, act: seq<PlanRow>): (rs: seq<Rename>)
    requires Applicable(live, act)
    ensures |rs| == |act|
    ensures forall k :: 0 <= k < |act| ==> rs[k] == Rename(live[act[k].idx].key, NewKey(act[k]))
  {
    seq(|act|, k requires 0 <= k < |act| => Rename(live[act[k].idx].key, NewKey(act[k])))
  }

  /** The row about to be rewritten still has the key it started with. */
  lemma KeyBefore(st: Saved, act: seq<PlanRow>)
    requires Increasing(act) && Applicable(st.live, act) && act != []
    ensures var p := act[|act| - 1]; ApplyRows(st, act[..|act| - 1]).live[p.idx] == st.live[p.idx]
  {
    var before, p := act[..|act| - 1], act[|act| - 1];
    LiveAfter(st, before);
    assert forall k :: 0 <= k < |before| ==> before[k] == act[k] && before[k].idx < p.idx;
  }

  lemma RenamesFront(live: seq<Session>, act: seq<PlanRow>)
    requires Applicable(live, act) && act != []
    ensures Front(Renames(live, act)) == Renames(live, act[..|act| - 1])
    ensures var p := act[|act| - 1]; Last(Renames(live, act)) == Rename(live[p.idx].key, NewKey(p))
  {
  }

  /** Row by row, the order list and the keep-alive map go through the renames one at a time. */
  lemma {:induction false} ApplyRenames(st: Saved, act: seq<PlanRow>)
    requires Increasing(act) && Applicable(st.live, act)
    ensures var st', rs := ApplyRows(st, act), Renames(st.live, act);
      && (st.order.Some? ==> st'.order.value == OrderAfter(st.order.value, rs))
      && (st.keepAlive.Some? ==> st'.keepAlive.value == EntriesAfter(st.keepAlive.value, rs))
    decreases |act|
  {
    if act != [] {
      KeyBefore(st, act);
      ApplyRenames(st, act[..|act| - 1]);
      RenamesFront(st.live, act);
    }
  }

  predicate LiveKeysDistinct(live: seq<Session>) {
    forall i, j :: 0 <= i < j < |live| ==> live[i].key != live[j].key
  }

  ghost predicate KeysNameIds(live: seq<Session>) {
    forall i :: 0 <= i < |live| ==> NamesOwnId(live[i])
  }

  /** ULIDs never are the ids they replace, so the renames of a batch cannot chain or merge. */
  lemma BatchRenames(live: seq<Session>, act: seq<PlanRow>)
    requires GoodBatch(live, act) && Applicable(live, act) && KeysNameIds(live)
    ensures Unchained(Renames(live, act)) && DistinctNew(Renames(live, act))
    ensures LiveKeysDistinct(live) ==> DistinctOld(Renames(live, act))
  {
    forall j, k | 0 <= j < |act| && 0 <= k < |act|
      ensures NewKey(act[j]) != live[act[k].idx].key
      ensures j < k ==> NewKey(act[j]) != NewKey(act[k])
    {
      assert GoodRow(live, act[j]) && GoodRow(live, act[k]);
      NewKeyIsFresh(live, act[j], live[act[k].idx]);
      if j < k {
        NewKeysDiffer(live, act[j], act[k]);
      }
    }
  }

  // ------------------------------------------------------- the whole script

  /** The saved state after `--apply`. */
  function Migrated(st: Saved, ms: seq<Machine>): (st': Saved) {
    var act := Batch(st.live, ms);
    if Applicable(st.live, act) then ApplyRows(st, act) else st
  }

  lemma MigratedIsApplied(st: Saved, ms: seq<Machine>)
    ensures Applicable(st.live, Batch(st.live, ms))
    ensures Migrated(st, ms) == ApplyRows(st, Batch(st.live, ms))
  {
    BatchIsGood(st.live, ms);
    GoodIsApplicable(st.live, Batch(st.live, ms));
  }

  /** The order list keeps its length and places: every entry is substituted on its own. */
  lemma MigrationSubstitutesOrder(st: Saved, ms: seq<Machine>)
    requires KeysNameIds(st.live) && st.order.Some?
    ensures Applicable(st.live, Batch(st.live, ms))
    ensures var after, rs := Migrated(st, ms).order, Renames(st.live, Batch(st.live, ms));
      && after.Some? && |after.value| == |st.order.value|
      && forall i :: 0 <= i < |st.order.value| ==> after.value[i] == Substitute(rs, st.order.value[i])
  {
    var act := Batch(st.live, ms);
    MigratedIsApplied(st, ms);
    BatchIsGood(st.live, ms);
    BatchRenames(st.live, act);
    ApplyRenames(st, act);
    OrderIsSubstituted(st.order.value, Renames(st.live, act));
  }

  /**
   The keep-alive map is renamed, entry for entry; it loses none exactly when no migrated row
   whose old key is kept finds its new key kept as well.
   */
  lemma MigrationRenamesKeepAlive(st: Saved, ms: seq<Machine>)
    requires KeysNameIds(st.live) && LiveKeysDistinct(st.live) && st.keepAlive.Some?
    ensures Applicable(st.live, Batch(st.live, ms)) && Migrated(st, ms).keepAlive.Some?
    ensures var ka, after, rs := st.keepAlive.value, Migrated(st, ms).keepAlive.value, Renames(st.live, Batch(st.live, ms));
      && MembersAfter(rs, ka, after) && StayersAfter(rs, ka, after) && MoversAfter(rs, ka, after)
      && (|after| == |ka| <==> forall k :: 0 <= k < |rs| ==> !(rs[k].oldKey in ka && rs[k].newKey in ka))
  {
    var act := Batch(st.live, ms);
    MigratedIsApplied(st, ms);
    BatchIsGood(st.live, ms);
    BatchRenames(st.live, act);
    ApplyRenames(st, act);
    EntriesAreMoved(st.keepAlive.value, Renames(st.live, act));
    NothingIsLostIff(st.keepAlive.value, Renames(st.live, act));
  }

  /** `after` is `before` under the ULID the plan row gives it and the key that goes with it. */
  predicate IsRebound(before: Session, p: PlanRow, after: Session) {
    p.decision.Rebind? && after.kind == before.kind && after.cwd == before.cwd && after.id == p.decision.ulid
    && after.key == "remote-session://" + p.machine + "/" + p.decision.ulid
  }

  lemma PlannedRowIsRebound(live: seq<Session>, plan: seq<PlanRow>, act: seq<PlanRow>, live': seq<Session>, k: nat)
    requires Applicable(live, act) && Rewritten(live, act, live') && act == Actionable(plan)
    requires k < |plan| && plan[k].decision.Rebind?
    ensures plan[k].idx < |live| && IsRebound(live[plan[k].idx], plan[k], live'[plan[k].idx])
  {
    ActionableRows(plan);
    assert plan[k] in act;
    var n :| 0 <= n < |act| && act[n] == plan[k];
    assert live'[act[n].idx] == Rebound(live[act[n].idx], act[n]);
  }

  lemma UnplannedRowStays(live: seq<Session>, plan: seq<PlanRow>, act: seq<PlanRow>, live': seq<Session>, i: nat)
    requires Applicable(live, act) && Rewritten(live, act, live') && act == Actionable(plan) && i < |live|
    requires forall k :: 0 <= k < |plan| && plan[k].decision.Rebind? ==> plan[k].idx != i
    ensures live'[i] == live[i]
  {
    ActionableRows(plan);
    if Touches(act, i) {
      var n :| 0 <= n < |act| && act[n].idx == i;
      assert act[n] in plan;
    }
  }

  /** The migration gives each row that is to be rebound its ULID and the key that goes with it, and leaves the others alone. */
  lemma MigrationRewritesRows(st: Saved, ms: seq<Machine>, plan: seq<PlanRow>, live': seq<Session>)
    requires plan == Plan(st.live, ms, |st.live|) && live' == Migrated(st, ms).live
    ensures |live'| == |st.live|
    ensures forall k :: 0 <= k < |plan| && plan[k].decision.Rebind? ==>
      plan[k].idx < |st.live| && IsRebound(st.live[plan[k].idx], plan[k], live'[plan[k].idx])
    ensures forall i :: 0 <= i < |st.live| && (forall k :: 0 <= k < |plan| && plan[k].decision.Rebind? ==> plan[k].idx != i) ==>
      live'[i] == st.live[i]
  {
    var act := Batch(st.live, ms);
    MigratedIsApplied(st, ms);
    BatchIsGood(st.live, ms);
    LiveAfter(st, act);
    forall k | 0 <= k < |plan| && plan[k].decision.Rebind?
      ensures plan[k].idx < |st.live| && IsRebound(st.live[plan[k].idx], plan[k], live'[plan[k].idx])
    {
      PlannedRowIsRebound(st.live, plan, act, live', k);
    }
    forall i | 0 <= i < |st.live| && forall k :: 0 <= k < |plan| && plan[k].decision.Rebind? ==> plan[k].idx != i
      ensures live'[i] == st.live[i]
    {
      UnplannedRowStays(st.live, plan, act, live', i);
    }
  }

  /** A migrated row shares its id with no other live row, nor its key with one whose key named its own id. */
  lemma MigrationKeepsRowsApart(st: Saved, ms: seq<Machine>, k: nat, i: nat)
    requires k < |Batch(st.live, ms)| && i < |st.live| && i != Batch(st.live, ms)[k].idx
    ensures Batch(st.live, ms)[k].decision.Rebind? && IsCodexUlid(Batch(st.live, ms)[k].decision.ulid)
    ensures var live', p := Migrated(st, ms).live, Batch(st.live, ms)[k];
      && |live'| == |st.live| && p.idx < |live'| && live'[p.idx].id == p.decision.ulid
      && live'[i].id != live'[p.idx].id
      && (NamesOwnId(st.live[i]) ==> live'[i].key != live'[p.idx].key)
  {
    var act := Batch(st.live, ms);
    MigratedIsApplied(st, ms);
    BatchIsGood(st.live, ms);
    LiveAfter(st, act);
    assert GoodRow(st.live, act[k]);
    ReboundRowsAreUnique(st, act, k, i);
  }

  // ------------------------------------------------------------ idempotence

  lemma UlidsStay(live: seq<Session>, act: seq<PlanRow>, live': seq<Session>)
    requires GoodBatch(live, act) && Applicable(live, act) && Rewritten(live, act, live')
    ensures LiveUlids(live) <= LiveUlids(live')
  {
    forall id | id in LiveUlids(live)
      ensures id in LiveUlids(live')
    {
      var i :| 0 <= i < |live| && live[i].id == id && IsCodexUlid(id);
      assert !Touches(act, i);
      assert live'[i] == live[i];
    }
  }

  lemma UlidsCome(live: seq<Session>, plan: seq<PlanRow>, act: seq<PlanRow>, live': seq<Session>)
    requires GoodBatch(live, act) && Applicable(live, act) && Rewritten(live, act, live') && act == Actionable(plan)
    ensures Claimed(plan) <= LiveUlids(live')
  {
    ActionableRows(plan);
    forall id | id in Claimed(plan)
      ensures id in LiveUlids(live')
    {
      var p :| p in plan && p.decision.Rebind? && p.decision.ulid == id;
      assert p in act;
      UlidArrives(live, act, live', p);
    }
  }

  lemma UlidArrives(live: seq<Session>, act: seq<PlanRow>, live': seq<Session>, p: PlanRow)
    requires Applicable(live, act) && Rewritten(live, act, live') && p in act && GoodRow(live, p)
    ensures p.decision.ulid in LiveUlids(live')
  {
    var k :| 0 <= k < |act| && act[k] == p;
    assert live'[act[k].idx] in live';
  }

  /** A row of the migrated state that is still eligible is one the plan refused. */
  lemma StillEligible(live: seq<Session>, plan: seq<PlanRow>, act: seq<PlanRow>, live': seq<Session>, i: nat) returns (k: nat)
    requires GoodBatch(live, act) && Applicable(live, act) && Rewritten(live, act, live') && act == Actionable(plan)
    requires i < |live| && Eligible(live'[i])
    requires Eligible(live[i]) ==> Touches(plan, i)
    ensures live'[i] == live[i] && k < |plan| && plan[k].idx == i && !plan[k].decision.Rebind?
  {
    ActionableRows(plan);
    assert !Touches(act, i);
    k :| 0 <= k < |plan| && plan[k].idx == i;
    assert plan[k] in plan;
  }

  lemma MigratedRow(st: Saved, ms: seq<Machine>, i: nat, excluded: set<string>)
    requires i < |Migrated(st, ms).live| && Eligible(Migrated(st, ms).live[i])
    requires LiveUlids(Migrated(st, ms).live) <= excluded
    ensures !Decide(Migrated(st, ms).live[i], ms, excluded).Rebind?
  {
    var live, plan, act := st.live, Plan(st.live, ms, |st.live|), Batch(st.live, ms);
    var live' := Migrated(st, ms).live;
    MigratedIsApplied(st, ms);
    BatchIsGood(live, ms);
    LiveAfter(st, act);
    PlanFollowsLive(live, ms, |live|);
    UlidsStay(live, act, live');
    UlidsCome(live, plan, act, live');
    var k := StillEligible(live, plan, act, live', i);
    RefusedStays(live, ms, plan, k, excluded);
  }

  lemma RefusedStays(live: seq<Session>, ms: seq<Machine>, plan: seq<PlanRow>, k: nat, excluded: set<string>)
    requires k < |plan| && Faithful(live, ms, plan, k) && !plan[k].decision.Rebind?
    requires LiveUlids(live) + Claimed(plan) <= excluded
    ensures !Decide(live[plan[k].idx], ms, excluded).Rebind?
  {
    ClaimedGrows(plan, k, |plan|);
    assert plan[..|plan|] == plan;
    DecideMonotone(live[plan[k].idx], ms, LiveUlids(live) + Claimed(plan[..k]), excluded);
  }

  lemma {:induction false} NothingLeftToPlan(st: Saved, ms: seq<Machine>, n: nat)
    requires n <= |Migrated(st, ms).live|
    ensures Actionable(Plan(Migrated(st, ms).live, ms, n)) == []
  {
    if n > 0 {
      NothingLeftToPlan(st, ms, n - 1);
      var live' := Migrated(st, ms).live;
      var before := Plan(live', ms, n - 1);
      if Eligible(live'[n - 1]) {
        MigratedRow(st, ms, n - 1, LiveUlids(live') + Claimed(before));
        assert Plan(live', ms, n)[..|before|] == before;
      }
    }
  }

  /** Planning again on the migrated state finds nothing to do, so a second run changes nothing. */
  lemma MigrationIsIdempotent(st: Saved, ms: seq<Machine>)
    ensures Batch(Migrated(st, ms).live, ms) == []
    ensures Migrated(Migrated(st, ms), ms) == Migrated(st, ms)
  {
    NothingLeftToPlan(st, ms, |Migrated(st, ms).live|);
  }

  // -------------------------------------------------------- the saved state

  /** server-state.json in memory. */
  class ServerState {
    var live: seq<Session>
    var order: Option<seq<string>>
    var keepAlive: Option<map<string, string>>
    const machines: seq<Machine>

    constructor (st: Saved, machines: seq<Machine>)
      ensures View() == st && this.machines == machines
    {
      live, order, keepAlive, this.machines := st.live, st.order, st.keepAlive, machines;
    }

    function View(): (st: Saved)
      reads this
    {
      Saved(live, order, keepAlive)
    }

    method DecideRow(s: Session, excluded: set<string>) returns (d: Decision)
      ensures d == Decide(s, machines, excluded)
    {
      var place := PlaceOf(s);
      if place.None? {
        return NoPlace;
      }
      var c := FindReplacement(machines, place.value.0, place.value.1, excluded);
      return if c.None? then NoUlid else Rebind(c.value.ulid, c.value.epoch);
    }

    /** The planning loop, with the ULIDs in use and the ULIDs claimed on the way. */
    method MakePlan() returns (plan: seq<PlanRow>)
      ensures plan == Plan(live, machines, |live|)
    {
      var existing: set<string> := {};
      for i := 0 to |live|
        invariant existing == LiveUlids(live[..i])
      {
        LiveUlidsAppend(live, i);
        if IsCodexUlid(live[i].id) {
          existing := existing + {live[i].id};
        }
      }
      assert live[..|live|] == live;
      var claimed: set<string> := {};
      plan := [];
      for i := 0 to |live|
        invariant plan == Plan(live, machines, i)
        invariant claimed == Claimed(plan)
      {
        var s := live[i];
        if Eligible(s) {
          var decision := DecideRow(s, existing + claimed);
          ClaimedAppend(plan, RowFor(i, s, decision));
          if decision.Rebind? {
            claimed := claimed + {decision.ulid};
          }
          plan := plan + [RowFor(i, s, decision)];
        }
      }
    }

    /** The renaming loop: each row, then the order list, then the keep-alive map. */
    method Apply(act: seq<PlanRow>)
      requires Applicable(live, act)
      modifies this
      ensures View() == ApplyRows(old(View()), act)
    {
      ghost var st := View();
      for n := 0 to |act|
        invariant Applicable(st.live, act[..n]) && |live| == |st.live|
        invariant View() == ApplyRows(st, act[..n])
      {
        assert act[..n + 1][..n] == act[..n];
        var p := act[n];
        var r := Rename(live[p.idx].key, NewKey(p));
        live := live[p.idx := live[p.idx].(id := p.decision.ulid, key := r.newKey)];
        if order.Some? {
          order := Some(RenameOrder(order.value, r));
        }
        if keepAlive.Some? && r.oldKey in keepAlive.value {
          keepAlive := Some((keepAlive.value - {r.oldKey})[r.newKey := keepAlive.value[r.oldKey]]);
        }
      }
      assert act[..|act|] == act;
    }

    /** One run of the script; without `apply` it only shows the plan. */
    method Run(apply: bool) returns (plan: seq<PlanRow>)
      modifies this
      ensures plan == Plan(old(live), machines, |old(live)|)
      ensures View() == if apply then Migrated(old(View()), machines) else old(View())
    {
      plan := MakePlan();
      MigratedIsApplied(View(), machines);
      if apply {
        Apply(Actionable(plan));
      }
    }
  }

  lemma LiveUlidsAppend(live: seq<Session>, i: nat)
    requires i < |live|
    ensures LiveUlids(live[..i + 1]) == LiveUlids(live[..i]) + if IsCodexUlid(live[i].id) then {live[i].id} else {}
  {
    assert live[..i + 1] == live[..i] + [live[i]];
    forall id | id in LiveUlids(live[..i]) || (id == live[i].id && IsCodexUlid(id))
      ensures id in LiveUlids(live[..i + 1])
    {
      var s :| s in live[..i + 1] && s.id == id && IsCodexUlid(id);
    }
  }
}
