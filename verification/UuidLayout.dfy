/**
 What `is_uuidv4` of scripts/migrate_uuidv4_codex_live_sessions.py asks of an id, told character by
 character: the layout it promises and the numerals it takes for groups.
 */
module UuidLayout {
  import opened CodexIdentity
  import Text

  /** Hex digits and blanks, by character code. */
  lemma CharacterClasses(c: char)
    ensures var n := c as int;
      && (IsHex(c) <==> 48 <= n <= 57 || 97 <= n <= 102 || 65 <= n <= 70)
      && (IsSpace(c) <==> 9 <= n <= 13 || n == 32)
  {
  }

  /** Thirty-six characters, hex digits but for the dashes at 8, 13, 18 and 23. */
  predicate RfcLayout(id: string) {
    |id| == 36 && forall k :: 0 <= k < 36 ==> if k == 8 || k == 13 || k == 18 || k == 23 then id[k] == '-' else IsHex(id[k])
  }

  lemma JoinStep(parts: seq<string>)
    requires |parts| > 1
    ensures Text.Join(parts, '-') == parts[0] + "-" + Text.Join(parts[1..], '-')
  {
  }

  lemma JoinOfFive(parts: seq<string>)
    requires |parts| == 5
    ensures Text.Join(parts, '-') == parts[0] + "-" + (parts[1] + "-" + (parts[2] + "-" + (parts[3] + "-" + parts[4])))
  {
    var one := parts[1..];
    var two := one[1..];
    var three := two[1..];
    JoinStep(parts);
    JoinStep(one);
    JoinStep(two);
    JoinStep(three);
    assert three[1..] == [parts[4]];
  }

  lemma LayoutPieces(id: string, a: string, b: string, c: string, d: string, e: string)
    requires |a| == 8 && |b| == |c| == |d| == 4 && |e| == 12
    requires id == a + "-" + (b + "-" + (c + "-" + (d + "-" + e)))
    ensures |id| == 36 && id[8] == id[13] == id[18] == id[23] == '-'
    ensures id[..8] == a && id[9..13] == b && id[14..18] == c && id[19..23] == d && id[24..] == e
  {
    var rest := b + "-" + (c + "-" + (d + "-" + e));
    assert id[..8] == a && id[8] == '-' && id[9..] == rest;
    assert rest[..4] == b && rest[4] == '-';
    var tail := c + "-" + (d + "-" + e);
    assert rest[5..] == tail && tail[..4] == c && tail[4] == '-';
    var last := d + "-" + e;
    assert tail[5..] == last && last[..4] == d && last[4] == '-' && last[5..] == e;
    assert id[13] == rest[4] && id[18] == rest[9] == tail[4] && id[23] == rest[14] == tail[9] == last[4];
    assert id[9..13] == rest[..4] && id[14..18] == rest[5..][..4] && id[19..23] == tail[5..][..4] && id[24..] == last[5..];
  }

  lemma AllHex(id: string, from: nat, to: nat, p: string)
    requires from <= to <= |id| && id[from..to] == p
    ensures (forall k :: from <= k < to ==> IsHex(id[k])) <==> forall i :: 0 <= i < |p| ==> IsHex(p[i])
  {
    assert forall i :: 0 <= i < |p| ==> p[i] == id[from + i];
    assert forall k :: from <= k < to ==> id[k] == p[k - from];
  }

  lemma HexPiecesIff(id: string, parts: seq<string>)
    requires |id| == 36 && id[8] == id[13] == id[18] == id[23] == '-'
    requires parts == [id[..8], id[9..13], id[14..18], id[19..23], id[24..]]
    ensures RfcLayout(id) <==> HexLayout(parts)
  {
    AllHex(id, 0, 8, parts[0]);
    AllHex(id, 9, 13, parts[1]);
    AllHex(id, 14, 18, parts[2]);
    AllHex(id, 19, 23, parts[3]);
    AllHex(id, 24, 36, parts[4]);
  }

  lemma NoDash(p: string)
    requires forall i :: 0 <= i < |p| ==> IsHex(p[i])
    ensures '-' !in p
  {
  }

  /** The five groups of the split are the layout of the RFC, character by character. */
  lemma HexLayoutIsRfc(id: string)
    ensures HexLayout(Text.Split(id, '-')) <==> RfcLayout(id)
  {
    var parts := Text.Split(id, '-');
    if HexLayout(parts) {
      Text.JoinSplit(id, '-');
      JoinOfFive(parts);
      LayoutPieces(id, parts[0], parts[1], parts[2], parts[3], parts[4]);
      HexPiecesIff(id, parts);
    }
    if RfcLayout(id) {
      var pieces := [id[..8], id[9..13], id[14..18], id[19..23], id[24..]];
      HexPiecesIff(id, pieces);
      forall k | 0 <= k < 5
        ensures '-' !in pieces[k]
      {
        NoDash(pieces[k]);
      }
      JoinOfFive(pieces);
      assert id == pieces[0] + "-" + (pieces[1] + "-" + (pieces[2] + "-" + (pieces[3] + "-" + pieces[4])));
      Text.SplitJoin(pieces, '-');
    }
  }

  predicate Blank(s: string) {
    forall k :: 0 <= k < |s| ==> IsSpace(s[k])
  }

  lemma {:induction false} TrimLeftIs(s: string) returns (left: string)
    ensures s == left + TrimLeft(s) && Blank(left) && (TrimLeft(s) == "" || !IsSpace(TrimLeft(s)[0]))
  {
    left := "";
    if s != "" && IsSpace(s[0]) {
      var rest := TrimLeftIs(s[1..]);
      left := [s[0]] + rest;
      assert s == [s[0]] + s[1..];
    }
  }

  lemma {:induction false} TrimRightIs(s: string) returns (right: string)
    ensures s == TrimRight(s) + right && Blank(right) && (TrimRight(s) == "" || !IsSpace(TrimRight(s)[|TrimRight(s)| - 1]))
    ensures TrimRight(s) <= s
    decreases |s|
  {
    right := "";
    if s != "" && IsSpace(s[|s| - 1]) {
      var rest := TrimRightIs(s[..|s| - 1]);
      right := rest + [s[|s| - 1]];
      assert s == s[..|s| - 1] + [s[|s| - 1]];
    }
  }

  lemma {:induction false} TrimLeftOf(left: string, s: string)
    requires Blank(left) && s != "" && !IsSpace(s[0])
    ensures TrimLeft(left + s) == s
  {
    if left == "" {
      assert left + s == s;
    } else {
      TrimLeftOf(left[1..], s);
      assert (left + s)[1..] == left[1..] + s;
    }
  }

  lemma {:induction false} TrimRightOf(s: string, right: string)
    requires Blank(right) && s != "" && !IsSpace(s[|s| - 1])
    ensures TrimRight(s + right) == s
    decreases |right|
  {
    if right == "" {
      assert s + right == s;
    } else {
      TrimRightOf(s, right[..|right| - 1]);
      assert (s + right)[..|s + right| - 1] == s + right[..|right| - 1];
    }
  }

  predicate IsPrefix(s: string) {
    s == "" || s == "0x" || s == "0X" || s == "0x_" || s == "0X_"
  }

  /** A base prefix or none, and digits. */
  ghost predicate IsUnsigned(u: string) {
    exists prefix, digits :: IsPrefix(prefix) && HexDigits(digits) && u == prefix + digits
  }

  predicate IsSign(s: string) {
    s == "" || s == "+" || s == "-"
  }

  ghost predicate IsSigned(core: string, sign: string, u: string) {
    IsSign(sign) && IsUnsigned(u) && core == sign + u
  }

  /** A numeral in base sixteen: a sign or none before it. */
  ghost predicate IsNumeral(core: string) {
    exists sign, u :: IsSigned(core, sign, u)
  }

  lemma UnsignedReads(u: string, prefix: string, digits: string)
    requires IsPrefix(prefix) && HexDigits(digits) && u == prefix + digits
    ensures ReadsUnsigned(u) && IsHex(u[0]) && IsHex(u[|u| - 1])
  {
    assert u[|u| - 1] == digits[|digits| - 1];
    if prefix == "" {
      assert u == digits;
    } else {
      assert u[|prefix|..] == digits;
    }
  }

  lemma UnsignedIff(u: string)
    ensures ReadsUnsigned(u) <==> IsUnsigned(u)
    ensures ReadsUnsigned(u) ==> u != "" && IsHex(u[0]) && IsHex(u[|u| - 1])
  {
    if ReadsUnsigned(u) {
      var n := if |u| >= 2 && u[0] == '0' && (u[1] == 'x' || u[1] == 'X') then if |u| >= 3 && u[2] == '_' then 3 else 2 else 0;
      assert u == u[..n] + u[n..];
      assert IsPrefix(u[..n]) && HexDigits(u[n..]);
    }
    if prefix, digits :| IsPrefix(prefix) && HexDigits(digits) && u == prefix + digits {
      UnsignedReads(u, prefix, digits);
    }
  }

  lemma NumeralReads(t: string, sign: string, u: string)
    requires IsSign(sign) && ReadsUnsigned(u) && u != "" && IsHex(u[0]) && IsHex(u[|u| - 1]) && t == sign + u
    ensures ReadsAsHex(t) && !IsSpace(t[0]) && !IsSpace(t[|t| - 1])
  {
    assert t[|t| - 1] == u[|u| - 1];
    if sign == "" {
      assert t == u;
    } else {
      assert t[1..] == u;
    }
  }

  lemma SignedIsNumeral(t: string, sign: string, u: string)
    requires IsSign(sign) && ReadsUnsigned(u) && t == sign + u
    ensures IsNumeral(t)
  {
    UnsignedIff(u);
    assert IsSigned(t, sign, u);
  }

  lemma SignComesFirst(t: string)
    requires t != "" && (t[0] == '+' || t[0] == '-')
    ensures t == t[..1] + t[1..] && IsSign(t[..1])
  {
    assert t[..1] == [t[0]];
  }

  lemma ReadIsNumeral(t: string)
    requires ReadsAsHex(t)
    ensures IsNumeral(t)
  {
    if t != "" && (t[0] == '+' || t[0] == '-') {
      SignComesFirst(t);
      SignedIsNumeral(t, t[..1], t[1..]);
    } else {
      SignedIsNumeral(t, "", t);
    }
  }

  lemma NumeralIsRead(t: string)
    requires IsNumeral(t)
    ensures ReadsAsHex(t) && t != "" && !IsSpace(t[0]) && !IsSpace(t[|t| - 1])
  {
    var sign, u :| IsSigned(t, sign, u);
    UnsignedIff(u);
    NumeralReads(t, sign, u);
  }

  lemma TrimOf(left: string, core: string, right: string)
    requires Blank(left) && Blank(right) && core != "" && !IsSpace(core[0]) && !IsSpace(core[|core| - 1])
    ensures TrimRight(TrimLeft(left + core + right)) == core
  {
    assert left + core + right == left + (core + right);
    TrimLeftOf(left, core + right);
    TrimRightOf(core, right);
  }

  /** A numeral with blanks around it. */
  ghost predicate IsPadded(p: string, left: string, core: string, right: string) {
    Blank(left) && Blank(right) && IsNumeral(core) && p == left + core + right
  }

  lemma ParsedIsPadded(p: string) returns (left: string, core: string, right: string)
    requires ParsesAsHex(p)
    ensures IsPadded(p, left, core, right)
  {
    core := TrimRight(TrimLeft(p));
    left := TrimLeftIs(p);
    right := TrimRightIs(TrimLeft(p));
    ReadIsNumeral(core);
    assert left + core + right == left + (core + right);
  }

  lemma PaddedParses(p: string, left: string, core: string, right: string)
    requires IsPadded(p, left, core, right)
    ensures ParsesAsHex(p)
  {
    NumeralIsRead(core);
    TrimOf(left, core, right);
  }

  /** `int(p, 16)` takes exactly the numerals in base sixteen with blanks around them. */
  lemma ParsesAsHexIff(p: string)
    ensures ParsesAsHex(p) <==> exists left, core, right :: IsPadded(p, left, core, right)
  {
    if ParsesAsHex(p) {
      var left, core, right := ParsedIsPadded(p);
    }
    if left, core, right :| IsPadded(p, left, core, right) {
      PaddedParses(p, left, core, right);
    }
  }
}
