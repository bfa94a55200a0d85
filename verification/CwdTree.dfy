/**
 scripts/check-cwdtree.py: comparing the rows a daemon ships, grouped by working
 directory, with a manual walk of the local store.
 */
module CwdTree {
  import opened Options

  datatype VerbRow = VerbRow(id: string, kind: string, glyph: string)
  datatype Group = Group(cwd: string, rows: seq<VerbRow>)
  datatype Verb = Verb(groups: seq<Group>, durableCount: Option<int>, truncated: bool)
  datatype Walked = Walked(id: string, cwd: string)

  datatype Issue =
    | NoVerbData
    | IconMismatch(row: VerbRow, expected: string)
    | ExtraIds(ids: set<string>)
    | MissingIds(ids: set<string>)
    | MissingCwds(cwds: set<string>)
    | ExtraCwds(cwds: set<string>)
    | CountDrift(verbCount: nat, manualCount: nat, peerCount: nat)
    | GroupCountDrift(verbGroups: nat, manualGroups: nat)
    | DurableDisagrees(declared: int, shipped: nat)

  // ----------------------------------------------------- the sets compared

  function Ids(rows: seq<VerbRow>): (ids: set<string>) {
    set r | r in rows :: r.id
  }

  function VerbIds(groups: seq<Group>): (ids: set<string>) {
    set g, r | g in groups && r in g.rows :: r.id
  }

  function Cwds(groups: seq<Group>): (cwds: set<string>) {
    set g | g in groups :: g.cwd
  }

  /** The ids under one working directory, over all the groups that carry it. */
  function IdsUnder(groups: seq<Group>, cwd: string): (ids: set<string>) {
    set g, r | g in groups && g.cwd == cwd && r in g.rows :: r.id
  }

  function ManualIds(walk: seq<Walked>): (ids: set<string>) {
    set s | s in walk :: s.id
  }

  function ManualCwds(walk: seq<Walked>): (cwds: set<string>) {
    set s | s in walk :: s.cwd
  }

  /** Ids the walk does not have and no local file backs: rows scanned from peers. */
  function RemoteOnly(groups: seq<Group>, walk: seq<Walked>, backed: string -> bool): (ids: set<string>) {
    set id | id in VerbIds(groups) - ManualIds(walk) && !backed(id)
  }

  function VerbOnly(groups: seq<Group>, walk: seq<Walked>, backed: string -> bool): (ids: set<string>) {
    set id | id in VerbIds(groups) - ManualIds(walk) && backed(id)
  }

  function ManualOnly(groups: seq<Group>, walk: seq<Walked>): (ids: set<string>) {
    ManualIds(walk) - VerbIds(groups)
  }

  /** Directories with rows, all of them from peers, whichever groups carry them. */
  function RemoteCwds(groups: seq<Group>, walk: seq<Walked>, backed: string -> bool): (cwds: set<string>) {
    set cwd | cwd in Cwds(groups) && IdsUnder(groups, cwd) != {} && IdsUnder(groups, cwd) <= RemoteOnly(groups, walk, backed)
  }

  function LocalCwds(groups: seq<Group>, walk: seq<Walked>, backed: string -> bool): (cwds: set<string>) {
    Cwds(groups) - RemoteCwds(groups, walk, backed)
  }

  // ------------------------------------------------------------ the issues

  function RowsOf(groups: seq<Group>): (rows: seq<VerbRow>) {
    if groups == [] then [] else RowsOf(groups[..|groups| - 1]) + groups[|groups| - 1].rows
  }

  /** The icon a row's kind calls for, against the one it was given. */
  function IconIssue(r: VerbRow, glyphs: map<string, string>): (issues: seq<Issue>) {
    if r.kind in glyphs && glyphs[r.kind] != "" && r.glyph != glyphs[r.kind] then [IconMismatch(r, glyphs[r.kind])] else []
  }

  function IconIssues(rows: seq<VerbRow>, glyphs: map<string, string>): (issues: seq<Issue>) {
    if rows == [] then [] else IconIssues(rows[..|rows| - 1], glyphs) + IconIssue(rows[|rows| - 1], glyphs)
  }

  function Noted(issues: seq<Issue>, raised: bool, issue: Issue): (issues': seq<Issue>) {
    if raised then issues + [issue] else issues
  }

  /** The issues about ids and directories, in the order they are raised. */
  function RaiseSets(extra: set<string>, missing: set<string>, local: set<string>, manual: set<string>)
    : (issues: seq<Issue>)
  {
    var a := Noted([], extra != {}, ExtraIds(extra));
    var b := Noted(a, missing != {}, MissingIds(missing));
    var c := Noted(b, manual - local != {}, MissingCwds(manual - local));
    Noted(c, local - manual != {}, ExtraCwds(local - manual))
  }

  function SetIssues(groups: seq<Group>, walk: seq<Walked>, backed: string -> bool): (issues: seq<Issue>) {
    RaiseSets(VerbOnly(groups, walk, backed), ManualOnly(groups, walk), LocalCwds(groups, walk, backed), ManualCwds(walk))
  }

  /** The exact counts on the local half. */
  function RaiseCounts(verbCount: nat, manualCount: nat, peerCount: nat, verbGroups: nat, manualGroups: nat)
    : (issues: seq<Issue>)
  {
    var a := Noted([], verbCount != manualCount, CountDrift(verbCount, manualCount, peerCount));
    Noted(a, verbGroups != manualGroups, GroupCountDrift(verbGroups, manualGroups))
  }

  function LocalIds(groups: seq<Group>, walk: seq<Walked>, backed: string -> bool): (ids: set<string>) {
    VerbIds(groups) - RemoteOnly(groups, walk, backed)
  }

  function CountIssues(groups: seq<Group>, walk: seq<Walked>, backed: string -> bool): (issues: seq<Issue>) {
    RaiseCounts(|LocalIds(groups, walk, backed)|, |ManualIds(walk)|, |RemoteOnly(groups, walk, backed)|,
                |LocalCwds(groups, walk, backed)|, |ManualCwds(walk)|)
  }

  function DurableIssues(verb: Verb): (issues: seq<Issue>) {
    var shipped := |RowsOf(verb.groups)|;
    if verb.durableCount.Some? && !verb.truncated && verb.durableCount.value != shipped
    then [DurableDisagrees(verb.durableCount.value, shipped)] else []
  }

  function Compare(verb: Option<Verb>, walk: seq<Walked>, backed: string -> bool, glyphs: map<string, string>)
    : (issues: seq<Issue>)
  {
    match verb
    case None => [NoVerbData]
    case Some(v) =>
      IconIssues(RowsOf(v.groups), glyphs) + SetIssues(v.groups, walk, backed)
        + CountIssues(v.groups, walk, backed) + DurableIssues(v)
  }

  // --------------------------------------------------------- the comparison

  lemma {:induction false} RowsOfMembers(groups: seq<Group>)
    ensures Ids(RowsOf(groups)) == VerbIds(groups)
    decreases |groups|
  {
    if groups != [] {
      var before, last := groups[..|groups| - 1], groups[|groups| - 1];
      RowsOfMembers(before);
      assert groups == before + [last];
      forall id | id in VerbIds(groups)
        ensures id in Ids(RowsOf(groups))
      {
        var g, r :| g in groups && r in g.rows && r.id == id;
        if g in before {
          assert id in VerbIds(before);
          var r' :| r' in RowsOf(before) && r'.id == id;
          assert r' in RowsOf(groups);
        } else {
          assert r in RowsOf(groups);
        }
      }
      forall id | id in Ids(RowsOf(groups))
        ensures id in VerbIds(groups)
      {
        var r :| r in RowsOf(groups) && r.id == id;
        if r in RowsOf(before) {
          assert id in Ids(RowsOf(before));
          var g, r' :| g in before && r' in g.rows && r'.id == id;
          assert g in groups;
        } else {
          assert last in groups && r in last.rows;
        }
      }
    }
  }

  lemma OneMoreRow(rows: seq<VerbRow>, r: VerbRow, glyphs: map<string, string>)
    ensures IconIssues(rows + [r], glyphs) == IconIssues(rows, glyphs) + IconIssue(r, glyphs)
  {
    assert (rows + [r])[..|rows|] == rows;
  }

  /** The inner loop: one group's rows are added, and their icons checked. */
  method GatherGroup(before: seq<VerbRow>, issued: seq<Issue>, own: seq<VerbRow>, glyphs: map<string, string>)
    returns (rows: seq<VerbRow>, issues: seq<Issue>)
    requires issued == IconIssues(before, glyphs)
    ensures rows == before + own && issues == IconIssues(rows, glyphs)
  {
    rows, issues := before, issued;
    for j := 0 to |own|
      invariant rows == before + own[..j]
      invariant issues == IconIssues(rows, glyphs)
    {
      var r := own[j];
      OneMoreRow(rows, r, glyphs);
      rows := rows + [r];
      if r.kind in glyphs && glyphs[r.kind] != "" && r.glyph != glyphs[r.kind] {
        issues := issues + [IconMismatch(r, glyphs[r.kind])];
      }
    }
  }

  method GatherRows(groups: seq<Group>, glyphs: map<string, string>) returns (rows: seq<VerbRow>, issues: seq<Issue>)
    ensures rows == RowsOf(groups) && issues == IconIssues(rows, glyphs)
  {
    rows, issues := [], [];
    for i := 0 to |groups|
      invariant rows == RowsOf(groups[..i])
      invariant issues == IconIssues(rows, glyphs)
    {
      assert groups[..i + 1][..i] == groups[..i];
      rows, issues := GatherGroup(rows, issues, groups[i].rows, glyphs);
    }
    assert groups[..|groups|] == groups;
  }

  lemma IdsUnderAppend(groups: seq<Group>, g: Group, cwd: string)
    ensures IdsUnder(groups + [g], cwd) == IdsUnder(groups, cwd) + if g.cwd == cwd then Ids(g.rows) else {}
  {
    var all := groups + [g];
    forall id | id in IdsUnder(groups, cwd) || (g.cwd == cwd && id in Ids(g.rows))
      ensures id in IdsUnder(all, cwd)
    {
      if id in IdsUnder(groups, cwd) {
        var h, r :| h in groups && h.cwd == cwd && r in h.rows && r.id == id;
        assert h in all;
      } else {
        assert g in all;
      }
    }
  }

  method GroupIds(groups: seq<Group>) returns (idsByCwd: map<string, set<string>>)
    ensures idsByCwd.Keys == Cwds(groups)
    ensures forall cwd :: cwd in idsByCwd ==> idsByCwd[cwd] == IdsUnder(groups, cwd)
  {
    idsByCwd := map[];
    for i := 0 to |groups|
      invariant idsByCwd.Keys == Cwds(groups[..i])
      invariant forall cwd :: cwd in idsByCwd ==> idsByCwd[cwd] == IdsUnder(groups[..i], cwd)
      invariant forall cwd :: cwd !in idsByCwd ==> IdsUnder(groups[..i], cwd) == {}
    {
      var g := groups[i];
      assert groups[..i + 1] == groups[..i] + [g];
      forall cwd {
        IdsUnderAppend(groups[..i], g, cwd);
      }
      var ids := if g.cwd in idsByCwd then idsByCwd[g.cwd] else {};
      idsByCwd := idsByCwd[g.cwd := ids + Ids(g.rows)];
    }
    assert groups[..|groups|] == groups;
  }

  method RaiseSetIssues(verbOnly: set<string>, manualOnly: set<string>, local: set<string>, manual: set<string>)
    returns (issues: seq<Issue>)
    ensures issues == RaiseSets(verbOnly, manualOnly, local, manual)
  {
    issues := [];
    if verbOnly != {} {
      issues := issues + [ExtraIds(verbOnly)];
    }
    if manualOnly != {} {
      issues := issues + [MissingIds(manualOnly)];
    }
    if manual - local != {} {
      issues := issues + [MissingCwds(manual - local)];
    }
    if local - manual != {} {
      issues := issues + [ExtraCwds(local - manual)];
    }
  }

  method RaiseCountIssues(verbCount: nat, manualCount: nat, peerCount: nat, verbGroups: nat, manualGroups: nat)
    returns (issues: seq<Issue>)
    ensures issues == RaiseCounts(verbCount, manualCount, peerCount, verbGroups, manualGroups)
  {
    issues := [];
    if verbCount != manualCount {
      issues := issues + [CountDrift(verbCount, manualCount, peerCount)];
    }
    if verbGroups != manualGroups {
      issues := issues + [GroupCountDrift(verbGroups, manualGroups)];
    }
  }

  method LocalDirectories(groups: seq<Group>, remoteOnly: set<string>) returns (local: set<string>)
    ensures local == Cwds(groups) -
      (set cwd | cwd in Cwds(groups) && IdsUnder(groups, cwd) != {} && IdsUnder(groups, cwd) <= remoteOnly)
  {
    var idsByCwd := GroupIds(groups);
    var remoteCwds := set cwd | cwd in idsByCwd && idsByCwd[cwd] != {} && idsByCwd[cwd] <= remoteOnly;
    local := Cwds(groups) - remoteCwds;
  }

  method CompareHost(verb: Option<Verb>, walk: seq<Walked>, backed: string -> bool, glyphs: map<string, string>)
    returns (issues: seq<Issue>)
    ensures issues == Compare(verb, walk, backed, glyphs)
  {
    if verb.None? {
      return [NoVerbData];
    }
    var groups := verb.value.groups;
    var rows, icons := GatherRows(groups, glyphs);
    RowsOfMembers(groups);
    var verbIds, manualIds := Ids(rows), ManualIds(walk);
    var verbOnly, manualOnly := verbIds - manualIds, manualIds - verbIds;
    var remoteOnly := set id | id in verbOnly && !backed(id);
    verbOnly := set id | id in verbOnly && backed(id);
    assert remoteOnly == RemoteOnly(groups, walk, backed) && verbOnly == VerbOnly(groups, walk, backed);
    var local := LocalDirectories(groups, remoteOnly);
    var manual := ManualCwds(walk);
    var sets := RaiseSetIssues(verbOnly, manualOnly, local, manual);
    var counts := RaiseCountIssues(|verbIds - remoteOnly|, |manualIds|, |remoteOnly|, |local|, |manual|);
    var durable := DurableIssues(verb.value);
    issues := icons + sets + counts + durable;
  }

  // ------------------------------------------------- what the issues name

  /** The daemon ships a row of that id, in some group. */
  ghost predicate Ships(groups: seq<Group>, id: string) {
    exists i, j :: 0 <= i < |groups| && 0 <= j < |groups[i].rows| && groups[i].rows[j].id == id
  }

  /** The walk found it, in that directory. */
  ghost predicate Finds(walk: seq<Walked>, id: string) {
    exists i :: 0 <= i < |walk| && walk[i].id == id
  }

  ghost predicate FindsIn(walk: seq<Walked>, cwd: string) {
    exists i :: 0 <= i < |walk| && walk[i].cwd == cwd
  }

  /** The j-th row of the i-th group is one of the directory's. */
  predicate IsRow(groups: seq<Group>, cwd: string, i: int, j: int) {
    0 <= i < |groups| && groups[i].cwd == cwd && 0 <= j < |groups[i].rows|
  }

  /** A directory with a group of its own, and with a row that is not a peer's unless it has no row at all. */
  ghost predicate IsLocal(groups: seq<Group>, walk: seq<Walked>, backed: string -> bool, cwd: string) {
    && (exists i :: 0 <= i < |groups| && groups[i].cwd == cwd)
    && ((forall i, j :: !IsRow(groups, cwd, i, j)) || HasLocalRow(groups, walk, backed, cwd))
  }

  ghost predicate HasLocalRow(groups: seq<Group>, walk: seq<Walked>, backed: string -> bool, cwd: string) {
    exists i, j :: IsRow(groups, cwd, i, j) && (Finds(walk, groups[i].rows[j].id) || backed(groups[i].rows[j].id))
  }

  lemma SetsAre(groups: seq<Group>, walk: seq<Walked>, id: string)
    ensures id in VerbIds(groups) <==> Ships(groups, id)
    ensures id in ManualIds(walk) <==> Finds(walk, id)
  {
    if id in VerbIds(groups) {
      var g, r :| g in groups && r in g.rows && r.id == id;
      var i :| 0 <= i < |groups| && groups[i] == g;
      var j :| 0 <= j < |g.rows| && g.rows[j] == r;
      assert groups[i].rows[j].id == id;
    }
    if Ships(groups, id) {
      var i, j :| 0 <= i < |groups| && 0 <= j < |groups[i].rows| && groups[i].rows[j].id == id;
      assert groups[i] in groups && groups[i].rows[j] in groups[i].rows;
    }
    if Finds(walk, id) {
      var i :| 0 <= i < |walk| && walk[i].id == id;
      assert walk[i] in walk;
    }
  }

  lemma DirectoriesAre(groups: seq<Group>, walk: seq<Walked>, cwd: string)
    ensures cwd in Cwds(groups) <==> exists i :: 0 <= i < |groups| && groups[i].cwd == cwd
    ensures cwd in ManualCwds(walk) <==> FindsIn(walk, cwd)
  {
    if i :| 0 <= i < |groups| && groups[i].cwd == cwd {
      assert groups[i] in groups;
    }
    if FindsIn(walk, cwd) {
      var i :| 0 <= i < |walk| && walk[i].cwd == cwd;
      assert walk[i] in walk;
    }
  }

  lemma UnderAre(groups: seq<Group>, cwd: string, id: string)
    ensures id in IdsUnder(groups, cwd) <==> exists i, j :: IsRow(groups, cwd, i, j) && groups[i].rows[j].id == id
  {
    if id in IdsUnder(groups, cwd) {
      var g, r :| g in groups && g.cwd == cwd && r in g.rows && r.id == id;
      var i :| 0 <= i < |groups| && groups[i] == g;
      var j :| 0 <= j < |g.rows| && g.rows[j] == r;
      assert IsRow(groups, cwd, i, j) && groups[i].rows[j].id == id;
    }
    if i, j :| IsRow(groups, cwd, i, j) && groups[i].rows[j].id == id {
      assert groups[i] in groups && groups[i].rows[j] in groups[i].rows;
    }
  }

  /** A directory's id that is not a peer's is one of a local row. */
  lemma LocalRowIff(groups: seq<Group>, walk: seq<Walked>, backed: string -> bool, cwd: string)
    ensures IdsUnder(groups, cwd) <= RemoteOnly(groups, walk, backed) <==> !HasLocalRow(groups, walk, backed, cwd)
    ensures IdsUnder(groups, cwd) == {} <==> forall i, j :: !IsRow(groups, cwd, i, j)
  {
    var under, peers := IdsUnder(groups, cwd), RemoteOnly(groups, walk, backed);
    forall id
      ensures id in under <==> exists i, j :: IsRow(groups, cwd, i, j) && groups[i].rows[j].id == id
      ensures id in under ==> (id in peers <==> !Finds(walk, id) && !backed(id))
    {
      UnderAre(groups, cwd, id);
      SetsAre(groups, walk, id);
    }
    forall i, j | IsRow(groups, cwd, i, j)
      ensures groups[i].rows[j].id in under
    {
    }
    if !(under <= peers) {
      var id :| id in under && id !in peers;
      var i, j :| IsRow(groups, cwd, i, j) && groups[i].rows[j].id == id;
    }
  }

  lemma LocalCwdsAre(groups: seq<Group>, walk: seq<Walked>, backed: string -> bool, cwd: string)
    ensures cwd in LocalCwds(groups, walk, backed) <==> IsLocal(groups, walk, backed, cwd)
  {
    DirectoriesAre(groups, walk, cwd);
    LocalRowIff(groups, walk, backed, cwd);
  }

  /** The id issue names the difference in full. */
  lemma IdIssuesAre(groups: seq<Group>, walk: seq<Walked>, backed: string -> bool, id: string)
    ensures (exists ids :: ExtraIds(ids) in SetIssues(groups, walk, backed) && id in ids) <==>
      Ships(groups, id) && !Finds(walk, id) && backed(id)
    ensures (exists ids :: MissingIds(ids) in SetIssues(groups, walk, backed) && id in ids) <==>
      Finds(walk, id) && !Ships(groups, id)
  {
    SetsAre(groups, walk, id);
    IdIssues(groups, walk, backed);
    if id in VerbOnly(groups, walk, backed) {
      assert ExtraIds(VerbOnly(groups, walk, backed)) in SetIssues(groups, walk, backed);
    }
    if id in ManualOnly(groups, walk) {
      assert MissingIds(ManualOnly(groups, walk)) in SetIssues(groups, walk, backed);
    }
  }

  lemma IdIssues(groups: seq<Group>, walk: seq<Walked>, backed: string -> bool)
    ensures forall ids :: ExtraIds(ids) in SetIssues(groups, walk, backed) <==> ids == VerbOnly(groups, walk, backed) && ids != {}
    ensures forall ids :: MissingIds(ids) in SetIssues(groups, walk, backed) <==> ids == ManualOnly(groups, walk) && ids != {}
  {
  }

  /** So does the directory issue: each side's directories that the other does not have, peers' aside. */
  lemma CwdIssuesAre(groups: seq<Group>, walk: seq<Walked>, backed: string -> bool, cwd: string)
    ensures (exists cwds :: MissingCwds(cwds) in SetIssues(groups, walk, backed) && cwd in cwds) <==>
      FindsIn(walk, cwd) && !IsLocal(groups, walk, backed, cwd)
    ensures (exists cwds :: ExtraCwds(cwds) in SetIssues(groups, walk, backed) && cwd in cwds) <==>
      IsLocal(groups, walk, backed, cwd) && !FindsIn(walk, cwd)
  {
    LocalCwdsAre(groups, walk, backed, cwd);
    DirectoriesAre(groups, walk, cwd);
    MissingCwdsIssue(groups, walk, backed);
  }

  lemma {:induction false} IconIssuesAre(rows: seq<VerbRow>, glyphs: map<string, string>, issue: Issue)
    ensures issue in IconIssues(rows, glyphs) <==>
      && issue.IconMismatch? && issue.row in rows && issue.row.kind in glyphs
      && issue.expected == glyphs[issue.row.kind] != "" && issue.row.glyph != issue.expected
    decreases |rows|
  {
    if rows != [] {
      IconIssuesAre(rows[..|rows| - 1], glyphs, issue);
      assert rows == rows[..|rows| - 1] + [rows[|rows| - 1]];
    }
  }

  lemma RaisedCounts(verbCount: nat, manualCount: nat, peers: nat, verbGroups: nat, manualGroups: nat, issue: Issue)
    ensures issue in RaiseCounts(verbCount, manualCount, peers, verbGroups, manualGroups) <==>
      || (issue == CountDrift(verbCount, manualCount, peers) && verbCount != manualCount)
      || (issue == GroupCountDrift(verbGroups, manualGroups) && verbGroups != manualGroups)
  {
  }

  lemma CountIssuesAre(groups: seq<Group>, walk: seq<Walked>, backed: string -> bool, issue: Issue,
                       ids: nat, found: nat, peers: nat, local: nat, walked: nat)
    requires ids == |LocalIds(groups, walk, backed)| && found == |ManualIds(walk)| && peers == |RemoteOnly(groups, walk, backed)|
    requires local == |LocalCwds(groups, walk, backed)| && walked == |ManualCwds(walk)|
    ensures issue in CountIssues(groups, walk, backed) <==>
      || (issue == CountDrift(ids, found, peers) && ids != found)
      || (issue == GroupCountDrift(local, walked) && local != walked)
  {
    RaisedCounts(ids, found, peers, local, walked, issue);
  }

  lemma InAny(a: seq<Issue>, b: seq<Issue>, c: seq<Issue>, d: seq<Issue>, issue: Issue)
    ensures issue in a + b + c + d <==> issue in a || issue in b || issue in c || issue in d
  {
  }

  /** Where each kind of issue comes from: without data there is just one, and otherwise no issue is lost or added. */
  lemma CompareGathers(v: Verb, walk: seq<Walked>, backed: string -> bool, glyphs: map<string, string>, issue: Issue)
    ensures issue in Compare(Some(v), walk, backed, glyphs) <==>
      || issue in IconIssues(RowsOf(v.groups), glyphs)
      || issue in SetIssues(v.groups, walk, backed)
      || issue in CountIssues(v.groups, walk, backed)
      || issue in DurableIssues(v)
    ensures Compare(None, walk, backed, glyphs) == [NoVerbData]
  {
    InAny(IconIssues(RowsOf(v.groups), glyphs), SetIssues(v.groups, walk, backed), CountIssues(v.groups, walk, backed),
          DurableIssues(v), issue);
  }

  /** The declared number is disputed exactly when all rows were shipped and it is not theirs. */
  lemma DurableIssuesAre(v: Verb, issue: Issue)
    ensures issue in DurableIssues(v) <==>
      && issue.DurableDisagrees? && v.durableCount == Some(issue.declared) && !v.truncated
      && issue.shipped == |RowsOf(v.groups)| && issue.declared != issue.shipped
  {
  }

  // ------------------------------------------------------- peers do not count

  /** A row of a peer: not in the walk, and backed by no local file. */
  predicate IsPeer(id: string, walk: seq<Walked>, backed: string -> bool) {
    id !in ManualIds(walk) && !backed(id)
  }

  /** `more` is `groups` with peer rows added, under directories it had or new ones. */
  ghost predicate AddsPeers(groups: seq<Group>, more: seq<Group>, walk: seq<Walked>, backed: string -> bool) {
    && Cwds(groups) <= Cwds(more)
    && (forall cwd :: IdsUnder(groups, cwd) <= IdsUnder(more, cwd))
    && (forall cwd, id :: id in IdsUnder(more, cwd) && id !in IdsUnder(groups, cwd) ==> IsPeer(id, walk, backed))
    && (forall cwd :: cwd in Cwds(more) && cwd !in Cwds(groups) ==> IdsUnder(more, cwd) != {})
  }

  /** A directory that had groups but no row, and gets one. */
  ghost predicate FillsEmpty(groups: seq<Group>, more: seq<Group>) {
    exists cwd :: cwd in Cwds(groups) && IdsUnder(groups, cwd) == {} && IdsUnder(more, cwd) != {}
  }

  lemma IdsAreUnder(groups: seq<Group>, id: string)
    ensures id in VerbIds(groups) <==> exists cwd :: cwd in Cwds(groups) && id in IdsUnder(groups, cwd)
    ensures forall cwd :: id in IdsUnder(groups, cwd) ==> cwd in Cwds(groups)
  {
    if id in VerbIds(groups) {
      var g, r :| g in groups && r in g.rows && r.id == id;
      assert g.cwd in Cwds(groups) && id in IdsUnder(groups, g.cwd);
    }
  }

  lemma PeerIds(groups: seq<Group>, more: seq<Group>, walk: seq<Walked>, backed: string -> bool, id: string)
    requires AddsPeers(groups, more, walk, backed)
    ensures id in VerbIds(groups) ==> id in VerbIds(more)
    ensures id in VerbIds(more) && id !in VerbIds(groups) ==> IsPeer(id, walk, backed)
  {
    IdsAreUnder(groups, id);
    IdsAreUnder(more, id);
  }

  /** Peers change neither the extra nor the missing ids, nor the local count. */
  lemma PeersKeepMembership(groups: seq<Group>, more: seq<Group>, walk: seq<Walked>, backed: string -> bool)
    requires AddsPeers(groups, more, walk, backed)
    ensures VerbOnly(more, walk, backed) == VerbOnly(groups, walk, backed)
    ensures ManualOnly(more, walk) == ManualOnly(groups, walk)
    ensures LocalIds(more, walk, backed) == LocalIds(groups, walk, backed)
    ensures RemoteOnly(groups, walk, backed) <= RemoteOnly(more, walk, backed)
  {
    forall id {
      PeerIds(groups, more, walk, backed, id);
    }
  }

  lemma UnderIsVerb(groups: seq<Group>, cwd: string)
    ensures IdsUnder(groups, cwd) <= VerbIds(groups)
    ensures IdsUnder(groups, cwd) != {} ==> cwd in Cwds(groups)
  {
    if IdsUnder(groups, cwd) != {} {
      var id :| id in IdsUnder(groups, cwd);
    }
  }

  lemma PeersUnder(groups: seq<Group>, more: seq<Group>, walk: seq<Walked>, backed: string -> bool, cwd: string)
    requires AddsPeers(groups, more, walk, backed)
    ensures IdsUnder(groups, cwd) <= IdsUnder(more, cwd)
    ensures IdsUnder(more, cwd) <= RemoteOnly(more, walk, backed) <==> IdsUnder(groups, cwd) <= RemoteOnly(groups, walk, backed)
  {
    UnderIsVerb(more, cwd);
    UnderIsVerb(groups, cwd);
    forall id | id in IdsUnder(more, cwd)
      ensures id in RemoteOnly(more, walk, backed) <==> IsPeer(id, walk, backed)
    {
      assert id in VerbIds(more);
    }
    forall id | id in IdsUnder(groups, cwd)
      ensures id in RemoteOnly(groups, walk, backed) <==> IsPeer(id, walk, backed)
    {
      assert id in VerbIds(groups) && id in IdsUnder(more, cwd);
    }
  }

  /** A directory stays local or peer-only, unless it was empty and is not any more. */
  lemma PeersKeepCwd(groups: seq<Group>, more: seq<Group>, walk: seq<Walked>, backed: string -> bool, cwd: string)
    requires AddsPeers(groups, more, walk, backed)
    ensures cwd in LocalCwds(more, walk, backed) <==>
      cwd in LocalCwds(groups, walk, backed) && (IdsUnder(groups, cwd) == {} ==> IdsUnder(more, cwd) == {})
  {
    UnderIsVerb(more, cwd);
    UnderIsVerb(groups, cwd);
    PeersUnder(groups, more, walk, backed, cwd);
  }

  lemma SubsetOfSize(a: set<string>, b: set<string>)
    requires a <= b
    ensures a == b <==> |a| == |b|
  {
    assert b == a + (b - a);
    assert |b| == |a| + |b - a|;
  }

  /** The count issues tell the number of local directories, and of peer rows beside a count that has drifted. */
  lemma CountsTell(verbCount: nat, manualCount: nat, peers: nat, peers': nat, groups: nat, groups': nat, manualGroups: nat)
    ensures RaiseCounts(verbCount, manualCount, peers, groups, manualGroups)
         == RaiseCounts(verbCount, manualCount, peers', groups', manualGroups)
      <==> groups == groups' && (verbCount == manualCount || peers == peers')
  {
    var a := RaiseCounts(verbCount, manualCount, peers, groups, manualGroups);
    var b := RaiseCounts(verbCount, manualCount, peers', groups', manualGroups);
    assert |a| == |b| > 0 && groups != groups' ==> a[|a| - 1] != b[|b| - 1];
    assert verbCount != manualCount ==> a[0] == CountDrift(verbCount, manualCount, peers);
    assert verbCount != manualCount ==> b[0] == CountDrift(verbCount, manualCount, peers');
  }

  /** The local directories only shrink, and do so exactly when an empty one is filled. */
  lemma PeersShrinkLocal(groups: seq<Group>, more: seq<Group>, walk: seq<Walked>, backed: string -> bool)
    requires AddsPeers(groups, more, walk, backed)
    ensures LocalCwds(more, walk, backed) <= LocalCwds(groups, walk, backed)
    ensures LocalCwds(more, walk, backed) == LocalCwds(groups, walk, backed) <==> !FillsEmpty(groups, more)
  {
    var local, local' := LocalCwds(groups, walk, backed), LocalCwds(more, walk, backed);
    forall cwd
      ensures cwd in local' <==> cwd in local && (IdsUnder(groups, cwd) == {} ==> IdsUnder(more, cwd) == {})
    {
      PeersKeepCwd(groups, more, walk, backed, cwd);
    }
    if cwd :| cwd in Cwds(groups) && IdsUnder(groups, cwd) == {} && IdsUnder(more, cwd) != {} {
      assert cwd in local && cwd !in local';
    }
  }

  lemma PeersKeepSetsIff(groups: seq<Group>, more: seq<Group>, walk: seq<Walked>, backed: string -> bool)
    requires VerbOnly(more, walk, backed) == VerbOnly(groups, walk, backed) && ManualOnly(more, walk) == ManualOnly(groups, walk)
    requires LocalCwds(more, walk, backed) <= LocalCwds(groups, walk, backed)
    ensures SetIssues(more, walk, backed) == SetIssues(groups, walk, backed) <==>
      LocalCwds(more, walk, backed) == LocalCwds(groups, walk, backed)
  {
    var local, local' := LocalCwds(groups, walk, backed), LocalCwds(more, walk, backed);
    if local' != local {
      var cwd :| cwd in local && cwd !in local';
      CwdIssuesDiffer(groups, more, walk, backed, cwd);
    }
  }

  lemma PeersKeepCountsIff(groups: seq<Group>, more: seq<Group>, walk: seq<Walked>, backed: string -> bool)
    requires LocalIds(more, walk, backed) == LocalIds(groups, walk, backed)
    requires LocalCwds(more, walk, backed) <= LocalCwds(groups, walk, backed)
    requires RemoteOnly(groups, walk, backed) <= RemoteOnly(more, walk, backed)
    ensures CountIssues(more, walk, backed) == CountIssues(groups, walk, backed) <==>
      && LocalCwds(more, walk, backed) == LocalCwds(groups, walk, backed)
      && (|LocalIds(groups, walk, backed)| == |ManualIds(walk)| || RemoteOnly(more, walk, backed) == RemoteOnly(groups, walk, backed))
  {
    var local, local' := LocalCwds(groups, walk, backed), LocalCwds(more, walk, backed);
    var peers, peers' := RemoteOnly(groups, walk, backed), RemoteOnly(more, walk, backed);
    SubsetOfSize(local', local);
    SubsetOfSize(peers, peers');
    CountsTell(|LocalIds(groups, walk, backed)|, |ManualIds(walk)|, |peers'|, |peers|, |local'|, |local|, |ManualCwds(walk)|);
  }

  /**
   Non-interference: added peer rows leave every id and directory issue as it was precisely when none
   of them lands in a directory whose groups were all empty. So do the exact counts, but for the number
   of peer rows that a drifted count tells.
   */
  lemma PeersDoNotInterfere(groups: seq<Group>, more: seq<Group>, walk: seq<Walked>, backed: string -> bool)
    requires AddsPeers(groups, more, walk, backed)
    ensures SetIssues(more, walk, backed) == SetIssues(groups, walk, backed) <==> !FillsEmpty(groups, more)
    ensures CountIssues(more, walk, backed) == CountIssues(groups, walk, backed) <==>
      && !FillsEmpty(groups, more)
      && (|LocalIds(groups, walk, backed)| == |ManualIds(walk)| || RemoteOnly(more, walk, backed) == RemoteOnly(groups, walk, backed))
  {
    PeersKeepMembership(groups, more, walk, backed);
    PeersShrinkLocal(groups, more, walk, backed);
    PeersKeepSetsIff(groups, more, walk, backed);
    PeersKeepCountsIff(groups, more, walk, backed);
  }

  lemma CwdIssuesDiffer(groups: seq<Group>, more: seq<Group>, walk: seq<Walked>, backed: string -> bool, cwd: string)
    requires cwd in LocalCwds(groups, walk, backed) && cwd !in LocalCwds(more, walk, backed)
    ensures SetIssues(groups, walk, backed) != SetIssues(more, walk, backed)
  {
    var a, b, manual := LocalCwds(groups, walk, backed), LocalCwds(more, walk, backed), ManualCwds(walk);
    MissingCwdsIssue(groups, walk, backed);
    MissingCwdsIssue(more, walk, backed);
    if cwd in manual {
      assert cwd in manual - b && cwd !in manual - a;
      assert MissingCwds(manual - b) in SetIssues(more, walk, backed);
    } else {
      assert cwd in a - manual && cwd !in b - manual;
      assert ExtraCwds(a - manual) in SetIssues(groups, walk, backed);
    }
  }

  /** A directory issue names the difference in full. */
  lemma MissingCwdsIssue(groups: seq<Group>, walk: seq<Walked>, backed: string -> bool)
    ensures var local, manual := LocalCwds(groups, walk, backed), ManualCwds(walk);
      && (forall cwds :: MissingCwds(cwds) in SetIssues(groups, walk, backed) <==> cwds == manual - local && cwds != {})
      && (forall cwds :: ExtraCwds(cwds) in SetIssues(groups, walk, backed) <==> cwds == local - manual && cwds != {})
  {
  }

  /** Rows of peers in a group of their own, under an old or a new directory, are such an addition. */
  lemma GroupOfPeersAddsPeers(groups: seq<Group>, g: Group, walk: seq<Walked>, backed: string -> bool)
    requires g.rows != [] && forall r :: r in g.rows ==> IsPeer(r.id, walk, backed)
    ensures AddsPeers(groups, groups + [g], walk, backed)
  {
    var more := groups + [g];
    forall cwd {
      IdsUnderAppend(groups, g, cwd);
    }
    forall cwd | cwd in Cwds(groups)
      ensures cwd in Cwds(more)
    {
      var h :| h in groups && h.cwd == cwd;
      assert h in more;
    }
    assert g.rows[0].id in Ids(g.rows);
  }

  lemma CwdsUpdate(groups: seq<Group>, i: nat, g: Group)
    requires i < |groups| && g.cwd == groups[i].cwd
    ensures Cwds(groups[i := g]) == Cwds(groups)
  {
    var more := groups[i := g];
    forall c | c in Cwds(groups)
      ensures c in Cwds(more)
    {
      var k :| 0 <= k < |groups| && groups[k].cwd == c;
      assert more[k].cwd == c && more[k] in more;
    }
    forall c | c in Cwds(more)
      ensures c in Cwds(groups)
    {
      var k :| 0 <= k < |more| && more[k].cwd == c;
      assert groups[k].cwd == c && groups[k] in groups;
    }
  }

  /** A longer group adds its new ids to its directory, and nothing anywhere else. */
  lemma IdsUnderUpdate(groups: seq<Group>, i: nat, g: Group, cwd: string)
    requires i < |groups| && g.cwd == groups[i].cwd && Ids(groups[i].rows) <= Ids(g.rows)
    ensures IdsUnder(groups[i := g], cwd) == IdsUnder(groups, cwd) + if g.cwd == cwd then Ids(g.rows) else {}
  {
    var more := groups[i := g];
    assert more[i] == g && g in more;
    forall id | id in IdsUnder(groups, cwd)
      ensures id in IdsUnder(more, cwd)
    {
      var k, r :| 0 <= k < |groups| && groups[k].cwd == cwd && r in groups[k].rows && r.id == id;
      if k == i {
        assert id in Ids(groups[i].rows);
      } else {
        assert more[k] == groups[k] && more[k] in more;
      }
    }
    forall id | id in IdsUnder(more, cwd) && !(g.cwd == cwd && id in Ids(g.rows))
      ensures id in IdsUnder(groups, cwd)
    {
      var k, r :| 0 <= k < |more| && more[k].cwd == cwd && r in more[k].rows && r.id == id;
      assert k != i;
      assert groups[k] == more[k] && groups[k] in groups;
    }
  }

  /** So are rows of peers appended to a group that is there. */
  lemma RowsOfPeersAddPeers(groups: seq<Group>, i: nat, peers: seq<VerbRow>, walk: seq<Walked>, backed: string -> bool)
    requires i < |groups| && forall r :: r in peers ==> IsPeer(r.id, walk, backed)
    ensures AddsPeers(groups, groups[i := groups[i].(rows := groups[i].rows + peers)], walk, backed)
  {
    var own := groups[i];
    var g := own.(rows := own.rows + peers);
    CwdsUpdate(groups, i, g);
    assert own in groups;
    assert Ids(own.rows) <= Ids(g.rows);
    forall cwd {
      IdsUnderUpdate(groups, i, g, cwd);
    }
    forall id | id in Ids(g.rows) && id !in IdsUnder(groups, own.cwd)
      ensures IsPeer(id, walk, backed)
    {
      var r :| r in g.rows && r.id == id;
      assert r !in own.rows;
    }
  }

  /** Where peers do interfere: a group of theirs under a directory that had only empty groups. */
  lemma PeersFillEmptyDirectory(groups: seq<Group>, g: Group, walk: seq<Walked>, backed: string -> bool)
    requires g.rows != [] && forall r :: r in g.rows ==> IsPeer(r.id, walk, backed)
    requires g.cwd in Cwds(groups) && IdsUnder(groups, g.cwd) == {}
    ensures AddsPeers(groups, groups + [g], walk, backed) && FillsEmpty(groups, groups + [g])
    ensures SetIssues(groups + [g], walk, backed) != SetIssues(groups, walk, backed)
  {
    GroupOfPeersAddsPeers(groups, g, walk, backed);
    IdsUnderAppend(groups, g, g.cwd);
    assert g.rows[0].id in Ids(g.rows);
    PeersDoNotInterfere(groups, groups + [g], walk, backed);
  }

  /** One empty group and one row of a peer are enough: the directory nobody walked is no longer reported. */
  lemma PeerSilencesExtraDirectory(row: VerbRow, backed: string -> bool)
    requires !backed(row.id)
    ensures var groups, g := [Group("d", [])], Group("d", [row]);
      && FillsEmpty(groups, groups + [g])
      && ExtraCwds({"d"}) in SetIssues(groups, [], backed)
      && forall cwds :: ExtraCwds(cwds) !in SetIssues(groups + [g], [], backed)
  {
    var groups, g := [Group("d", [])], Group("d", [row]);
    assert groups[0] in groups;
    assert Cwds(groups) == {"d"} && IdsUnder(groups, "d") == {};
    PeersFillEmptyDirectory(groups, g, [], backed);
    IdsUnderAppend(groups, g, "d");
    assert Cwds(groups + [g]) == {"d"};
    PeersKeepCwd(groups, groups + [g], [], backed, "d");
    MissingCwdsIssue(groups, [], backed);
    MissingCwdsIssue(groups + [g], [], backed);
    assert LocalCwds(groups, [], backed) - ManualCwds([]) == {"d"};
    assert LocalCwds(groups + [g], [], backed) - ManualCwds([]) == {};
  }

  // --------------------------------------------------- counts add nothing new

  lemma LocalIdsAre(groups: seq<Group>, walk: seq<Walked>, backed: string -> bool)
    ensures LocalIds(groups, walk, backed) == (ManualIds(walk) - ManualOnly(groups, walk)) + VerbOnly(groups, walk, backed)
    ensures LocalIds(groups, walk, backed) == ManualIds(walk) <==>
      VerbOnly(groups, walk, backed) == {} && ManualOnly(groups, walk) == {}
  {
    var extra, missing, manual := VerbOnly(groups, walk, backed), ManualOnly(groups, walk), ManualIds(walk);
    assert extra !! manual && missing <= manual;
    if extra == {} && missing == {} {
      assert LocalIds(groups, walk, backed) == manual;
    }
  }

  lemma SameSets(a: set<string>, b: set<string>)
    ensures a == b <==> a - b == {} && b - a == {}
  {
    if a - b == {} && b - a == {} {
      assert forall x :: x in a <==> x in b by {
        assert forall x :: x in a && x !in b ==> x in a - b;
        assert forall x :: x in b && x !in a ==> x in b - a;
      }
    }
  }

  /** Nothing is reported about ids and directories exactly when the local half is what the walk found. */
  lemma NoSetIssuesIff(groups: seq<Group>, walk: seq<Walked>, backed: string -> bool)
    ensures SetIssues(groups, walk, backed) == [] <==>
      LocalIds(groups, walk, backed) == ManualIds(walk) && LocalCwds(groups, walk, backed) == ManualCwds(walk)
  {
    LocalIdsAre(groups, walk, backed);
    SameSets(LocalCwds(groups, walk, backed), ManualCwds(walk));
  }

  /** The exact counts can fire only beside the set difference that explains them. */
  lemma CountsAreRedundant(groups: seq<Group>, walk: seq<Walked>, backed: string -> bool)
    ensures |LocalIds(groups, walk, backed)| != |ManualIds(walk)| ==>
      VerbOnly(groups, walk, backed) != {} || ManualOnly(groups, walk) != {}
    ensures |LocalCwds(groups, walk, backed)| != |ManualCwds(walk)| ==>
      LocalCwds(groups, walk, backed) - ManualCwds(walk) != {} || ManualCwds(walk) - LocalCwds(groups, walk, backed) != {}
    ensures CountIssues(groups, walk, backed) != [] ==> SetIssues(groups, walk, backed) != []
  {
    LocalIdsAre(groups, walk, backed);
    SameSets(LocalCwds(groups, walk, backed), ManualCwds(walk));
    NoSetIssuesIff(groups, walk, backed);
  }
}
