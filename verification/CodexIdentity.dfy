/**
 scripts/migrate_uuidv4_codex_live_sessions.py: telling made-up ids from codex ones, reading a
 machine off a live key, and picking the codex session that replaces a made-up id.
 */
module CodexIdentity {
  import opened Options
  import Sorting
  import Text

  datatype RemoteSession = RemoteSession(sessionId: string, cwd: Option<string>, modifiedEpoch: int)
  datatype Machine = Machine(machineKey: Option<string>, sshTarget: Option<string>, sessions: seq<RemoteSession>)
  datatype Candidate = Candidate(ulid: string, epoch: int)

  // ------------------------------------------------------------ identities

  const ULID_PREFIX := "019"
  const KEY_PREFIX := "remote-session://"

  predicate IsCodexUlid(id: string) {
    ULID_PREFIX <= id
  }

  predicate IsHex(c: char) {
    '0' <= c <= '9' || 'a' <= c <= 'f' || 'A' <= c <= 'F'
  }

  predicate IsSpace(c: char) {
    c == ' ' || '\U{9}' <= c <= '\U{d}'
  }

  function TrimLeft(s: string): (t: string)
    ensures |t| <= |s|
  {
    if s != "" && IsSpace(s[0]) then TrimLeft(s[1..]) else s
  }

  function TrimRight(s: string): (t: string)
    ensures |t| <= |s|
  {
    if s != "" && IsSpace(s[|s| - 1]) then TrimRight(s[..|s| - 1]) else s
  }

  /** Hex digits, with single underscores between them. */
  predicate HexDigits(s: string) {
    && s != "" && IsHex(s[0]) && IsHex(s[|s| - 1])
    && (forall k :: 0 <= k < |s| ==> IsHex(s[k]) || s[k] == '_')
    && (forall k :: 0 < k < |s| ==> s[k - 1] != '_' || s[k] != '_')
  }

  /** What is left of a base prefix is digits. */
  predicate ReadsUnsigned(u: string) {
    if |u| >= 2 && u[0] == '0' && (u[1] == 'x' || u[1] == 'X')
    then HexDigits(if |u| >= 3 && u[2] == '_' then u[3..] else u[2..])
    else HexDigits(u)
  }

  predicate ReadsAsHex(t: string) {
    ReadsUnsigned(if t != "" && (t[0] == '+' || t[0] == '-') then t[1..] else t)
  }

  /** The ASCII strings Python's `int(p, 16)` accepts. */
  predicate ParsesAsHex(p: string) {
    ReadsAsHex(TrimRight(TrimLeft(p)))
  }

  predicate UuidShape(parts: seq<string>) {
    |parts| == 5 && |parts[0]| == 8 && |parts[1]| == |parts[2]| == |parts[3]| == 4 && |parts[4]| == 12
  }

  predicate IsUuidV4(id: string) {
    var parts := Text.Split(id, '-');
    && UuidShape(parts)
    && !IsCodexUlid(id)
    && forall k :: 0 <= k < 5 ==> ParsesAsHex(parts[k])
  }

  /** The layout of section 4 of RFC 9562: five dash-joined groups of hex digits. */
  predicate HexLayout(parts: seq<string>) {
    UuidShape(parts) && forall k :: 0 <= k < 5 ==> forall i :: 0 <= i < |parts[k]| ==> IsHex(parts[k][i])
  }

  lemma HexParses(p: string)
    requires p != "" && forall i :: 0 <= i < |p| ==> IsHex(p[i])
    ensures ParsesAsHex(p) && '-' !in p
  {
    assert IsHex(p[0]) && IsHex(p[|p| - 1]);
  }

  lemma PiecesAreUuid(parts: seq<string>)
    requires UuidShape(parts) && forall k :: 0 <= k < 5 ==> '-' !in parts[k]
    ensures IsUuidV4(Text.Join(parts, '-')) <==>
      !IsCodexUlid(Text.Join(parts, '-')) && forall k :: 0 <= k < 5 ==> ParsesAsHex(parts[k])
  {
    Text.SplitJoin(parts, '-');
  }

  /** Every id in the RFC's layout that does not look like a ULID is recognised. */
  lemma HexLayoutIsUuid(parts: seq<string>)
    requires HexLayout(parts)
    ensures IsUuidV4(Text.Join(parts, '-')) <==> !IsCodexUlid(Text.Join(parts, '-'))
  {
    forall k | 0 <= k < 5
      ensures ParsesAsHex(parts[k]) && '-' !in parts[k]
    {
      HexParses(parts[k]);
    }
    PiecesAreUuid(parts);
  }

  lemma BasePrefixParses(digits: string)
    requires digits != "" && forall i :: 0 <= i < |digits| ==> IsHex(digits[i])
    ensures ParsesAsHex("0x" + digits)
  {
    var p := "0x" + digits;
    assert TrimLeft(p) == p;
    assert IsHex(digits[0]) && IsHex(digits[|digits| - 1]);
    assert p[|p| - 1] == digits[|digits| - 1];
    assert TrimRight(p) == p;
    assert p[2..] == digits;
  }

  lemma JoinStarts(parts: seq<string>, sep: char)
    requires |parts| > 1
    ensures parts[0] <= Text.Join(parts, sep)
  {
  }

  lemma OddPiecesParse(parts: seq<string>, digits: string)
    requires UuidShape(parts) && parts[0] == "0x" + digits && |digits| == 6
    requires forall i :: 0 <= i < 6 ==> IsHex(digits[i])
    requires forall k :: 1 <= k < 5 ==> forall i :: 0 <= i < |parts[k]| ==> IsHex(parts[k][i])
    ensures forall k :: 0 <= k < 5 ==> ParsesAsHex(parts[k]) && '-' !in parts[k]
  {
    BasePrefixParses(digits);
    forall k | 1 <= k < 5
      ensures ParsesAsHex(parts[k]) && '-' !in parts[k]
    {
      HexParses(parts[k]);
    }
  }

  /** The converse fails: `int(p, 16)` also takes a base prefix, so the first group may hold an 'x'. */
  lemma UuidIsNotAlwaysHexLayout(parts: seq<string>, digits: string)
    requires UuidShape(parts) && parts[0] == "0x" + digits && |digits| == 6
    requires forall i :: 0 <= i < 6 ==> IsHex(digits[i])
    requires forall k :: 1 <= k < 5 ==> forall i :: 0 <= i < |parts[k]| ==> IsHex(parts[k][i])
    ensures IsUuidV4(Text.Join(parts, '-')) && !HexLayout(parts)
  {
    OddPiecesParse(parts, digits);
    JoinStarts(parts, '-');
    PiecesAreUuid(parts);
    assert !IsHex(parts[0][1]);
    assert Text.Join(parts, '-')[1] == 'x';
  }

  /** A group with a blank at an end, a sign, a base prefix, or an underscore. */
  predicate Decorated(p: string) {
    p != "" && (IsSpace(p[0]) || IsSpace(p[|p| - 1]) || p[0] == '+' || "0x" <= p || "0X" <= p || '_' in p)
  }

  /** What else `int(p, 16)` takes, apart from a minus sign, is a decorated group. */
  lemma ParsedGroupIsHexIff(p: string)
    requires ParsesAsHex(p) && '-' !in p
    ensures (forall i :: 0 <= i < |p| ==> IsHex(p[i])) <==> !Decorated(p)
  {
    if Decorated(p) {
      if "0x" <= p || "0X" <= p {
        assert !IsHex(p[1]);
      } else if '_' in p {
        var i :| 0 <= i < |p| && p[i] == '_';
        assert !IsHex(p[i]);
      } else {
        assert !IsHex(p[0]) || !IsHex(p[|p| - 1]);
      }
    } else if p != "" {
      assert TrimLeft(p) == p && TrimRight(p) == p;
      assert p[0] in p;
      assert HexDigits(p);
    }
  }

  /** A recognised id is in the layout exactly when none of its groups is decorated. */
  lemma UuidIsHexLayoutIff(id: string)
    requires IsUuidV4(id)
    ensures HexLayout(Text.Split(id, '-')) <==> forall k :: 0 <= k < 5 ==> !Decorated(Text.Split(id, '-')[k])
  {
    var parts := Text.Split(id, '-');
    Text.SplitKeepsChars(id, '-', '-');
    assert !Text.InPiece(parts, '-');
    forall k | 0 <= k < 5
      ensures (forall i :: 0 <= i < |parts[k]| ==> IsHex(parts[k][i])) <==> !Decorated(parts[k])
    {
      ParsedGroupIsHexIff(parts[k]);
    }
  }

  function KeyOf(machine: string, id: string): (key: string) {
    KEY_PREFIX + machine + "/" + id
  }

  function MachineOfKey(key: string): (machine: Option<string>) {
    if !(KEY_PREFIX <= key) then None
    else
      var tail := key[|KEY_PREFIX|..];
      if '/' in tail then Some(Text.Split(tail, '/')[0]) else None
  }

  lemma MachineOfKeyOf(machine: string, id: string)
    requires '/' !in machine
    ensures MachineOfKey(KeyOf(machine, id)) == Some(machine)
  {
    assert KeyOf(machine, id)[|KEY_PREFIX|..] == machine + ['/'] + id;
    Text.SplitFirst(machine, id, '/');
  }

  /** The machine is read off exactly the keys built from a slash-free machine. */
  lemma MachineOfKeyIff(key: string, machine: string)
    ensures MachineOfKey(key) == Some(machine) <==> '/' !in machine && exists id :: key == KeyOf(machine, id)
  {
    if MachineOfKey(key) == Some(machine) {
      var tail := key[|KEY_PREFIX|..];
      Text.SplitHead(tail, '/');
      assert machine + ['/'] <= tail;
      assert key == KeyOf(machine, tail[|machine| + 1..]);
    }
    if '/' !in machine && exists id :: key == KeyOf(machine, id) {
      var id :| key == KeyOf(machine, id);
      MachineOfKeyOf(machine, id);
    }
  }

  const REMOTE_KEY := "remote-session://dev/0190"
  const LOCAL_KEY := "local-session://dev/0190"

  lemma MachineOfAKey()
    ensures MachineOfKey(REMOTE_KEY) == Some("dev") && MachineOfKey(LOCAL_KEY) == None
  {
    assert KeyOf("dev", "0190") == REMOTE_KEY;
    MachineOfKeyOf("dev", "0190");
    assert LOCAL_KEY[0] != KEY_PREFIX[0];
  }

  lemma KeyOfInjective(m1: string, id1: string, m2: string, id2: string)
    requires '/' !in m1 && '/' !in m2 && KeyOf(m1, id1) == KeyOf(m2, id2)
    ensures m1 == m2 && id1 == id2
  {
    MachineOfKeyOf(m1, id1);
    MachineOfKeyOf(m2, id2);
    assert id1 == KeyOf(m1, id1)[|KEY_PREFIX| + |m1| + 1..];
    assert id2 == KeyOf(m2, id2)[|KEY_PREFIX| + |m2| + 1..];
  }

  // ------------------------------------------------- finding a replacement

  predicate Matches(rs: RemoteSession, cwd: string, excluded: set<string>) {
    rs.cwd == Some(cwd) && IsCodexUlid(rs.sessionId) && rs.sessionId !in excluded
  }

  predicate IsMachine(rm: Machine, machine: string) {
    rm.machineKey == Some(machine) || rm.sshTarget == Some(machine)
  }

  function SessionCandidates(ss: seq<RemoteSession>, cwd: string, excluded: set<string>): (cs: seq<Candidate>)
    ensures forall c :: c in cs <==>
      exists k :: 0 <= k < |ss| && Matches(ss[k], cwd, excluded) && c == Candidate(ss[k].sessionId, ss[k].modifiedEpoch)
  {
    if ss == [] then []
    else
      var last := ss[|ss| - 1];
      SessionCandidates(ss[..|ss| - 1], cwd, excluded)
        + if Matches(last, cwd, excluded) then [Candidate(last.sessionId, last.modifiedEpoch)] else []
  }

  /** The codex sessions at (machine, cwd) whose ULID is not excluded, in file order. */
  function Candidates(ms: seq<Machine>, machine: string, cwd: string, excluded: set<string>): (cs: seq<Candidate>) {
    if ms == [] then []
    else
      var last := ms[|ms| - 1];
      Candidates(ms[..|ms| - 1], machine, cwd, excluded)
        + if IsMachine(last, machine) then SessionCandidates(last.sessions, cwd, excluded) else []
  }

  lemma {:induction false} SessionExclusion(ss: seq<RemoteSession>, cwd: string, excluded: set<string>)
    ensures forall c :: c in SessionCandidates(ss, cwd, excluded) <==>
      c in SessionCandidates(ss, cwd, {}) && c.ulid !in excluded
    ensures forall c :: c in SessionCandidates(ss, cwd, {}) ==> IsCodexUlid(c.ulid)
    decreases |ss|
  {
    if ss != [] {
      SessionExclusion(ss[..|ss| - 1], cwd, excluded);
    }
  }

  /** Excluding ULIDs removes exactly their candidates. */
  lemma {:induction false} Exclusion(ms: seq<Machine>, machine: string, cwd: string, excluded: set<string>)
    ensures forall c :: c in Candidates(ms, machine, cwd, excluded) <==>
      c in Candidates(ms, machine, cwd, {}) && c.ulid !in excluded
    ensures forall c :: c in Candidates(ms, machine, cwd, {}) ==> IsCodexUlid(c.ulid)
    decreases |ms|
  {
    if ms != [] {
      Exclusion(ms[..|ms| - 1], machine, cwd, excluded);
      SessionExclusion(ms[|ms| - 1].sessions, cwd, excluded);
    }
  }

  predicate NewerFirst(a: Candidate, b: Candidate) {
    a.epoch >= b.epoch
  }

  function Newest(cs: seq<Candidate>): (c: Option<Candidate>) {
    if cs == [] then None else Some(Sorting.Sort(cs, NewerFirst)[0])
  }

  predicate FirstLatest(cs: seq<Candidate>, k: nat)
    requires k < |cs|
  {
    && (forall j :: 0 <= j < |cs| ==> cs[j].epoch <= cs[k].epoch)
    && (forall j :: 0 <= j < k ==> cs[j].epoch < cs[k].epoch)
  }

  /** The pick is the first candidate in file order that no other outdates. */
  lemma NewestIsFirstLatest(cs: seq<Candidate>)
    ensures cs == [] <==> Newest(cs).None?
    ensures cs != [] ==> exists k :: 0 <= k < |cs| && Newest(cs) == Some(cs[k]) && FirstLatest(cs, k)
  {
    if cs != [] {
      assert Sorting.TotalPreorder(NewerFirst);
      var k := Sorting.SortHead(cs, NewerFirst);
      assert forall j :: 0 <= j < |cs| ==> NewerFirst(cs[k], cs[j]);
      assert forall j :: 0 <= j < k ==> !NewerFirst(cs[j], cs[k]);
    }
  }

  method FindReplacement(ms: seq<Machine>, machine: string, cwd: string, excluded: set<string>)
    returns (c: Option<Candidate>)
    ensures c == Newest(Candidates(ms, machine, cwd, excluded))
  {
    var candidates: seq<Candidate> := [];
    for i := 0 to |ms|
      invariant candidates == Candidates(ms[..i], machine, cwd, excluded)
    {
      assert ms[..i + 1][..i] == ms[..i];
      if IsMachine(ms[i], machine) {
        var ss := ms[i].sessions;
        ghost var before := candidates;
        for j := 0 to |ss|
          invariant candidates == before + SessionCandidates(ss[..j], cwd, excluded)
        {
          assert ss[..j + 1][..j] == ss[..j];
          if Matches(ss[j], cwd, excluded) {
            candidates := candidates + [Candidate(ss[j].sessionId, ss[j].modifiedEpoch)];
          }
        }
        assert ss[..|ss|] == ss;
      }
    }
    assert ms[..|ms|] == ms;
    if candidates == [] {
      return None;
    }
    c := Some(Sorting.Sort(candidates, NewerFirst)[0]);
  }
}
