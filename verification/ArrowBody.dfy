/**
 scripts/check_architecture_contracts.py: cutting the body of a JavaScript arrow
 function out of a source text by counting braces.
 */
module ArrowBody {
  import opened Options
  import Text

  // ---------------------------------------------------------------- balance

  /** Open braces less close braces. */
  function Depth(s: string): (d: int) {
    if s == "" then 0
    else
      var last := s[|s| - 1];
      Depth(s[..|s| - 1]) + if last == '{' then 1 else if last == '}' then -1 else 0
  }

  /** As many open as close braces, and never more close than open ones on the way. */
  ghost predicate Balanced(s: string) {
    Depth(s) == 0 && forall k :: 0 <= k <= |s| ==> Depth(s[..k]) >= 0
  }

  /** The grammar of brace-balanced text. */
  datatype Block = Done | Plain(c: char, rest: Block) | Braced(inner: Block, rest: Block)

  function Render(b: Block): (s: string) {
    match b
    case Done => ""
    case Plain(c, rest) => [c] + Render(rest)
    case Braced(inner, rest) => "{" + Render(inner) + "}" + Render(rest)
  }

  predicate PlainText(b: Block) {
    match b
    case Done => true
    case Plain(c, rest) => c != '{' && c != '}' && PlainText(rest)
    case Braced(inner, rest) => PlainText(inner) && PlainText(rest)
  }

  lemma {:induction false} DepthConcat(a: string, b: string)
    ensures Depth(a + b) == Depth(a) + Depth(b)
    decreases |b|
  {
    if b == "" {
      assert a + b == a;
    } else {
      DepthConcat(a, b[..|b| - 1]);
      assert (a + b)[..|a + b| - 1] == a + b[..|b| - 1];
    }
  }

  lemma DepthOfOne(c: char)
    ensures Depth([c]) == if c == '{' then 1 else if c == '}' then -1 else 0
  {
    assert [c][..0] == "";
  }

  lemma PrefixDepths(a: string, b: string, k: nat)
    requires k <= |a + b|
    ensures Depth((a + b)[..k]) == if k <= |a| then Depth(a[..k]) else Depth(a) + Depth(b[..k - |a|])
  {
    if k <= |a| {
      assert (a + b)[..k] == a[..k];
    } else {
      assert (a + b)[..k] == a + b[..k - |a|];
      DepthConcat(a, b[..k - |a|]);
    }
  }

  lemma BalancedConcat(a: string, b: string)
    requires Balanced(a) && Balanced(b)
    ensures Balanced(a + b)
  {
    DepthConcat(a, b);
    assert a[..|a|] == a;
    forall k | 0 <= k <= |a + b|
      ensures Depth((a + b)[..k]) >= 0
    {
      PrefixDepths(a, b, k);
    }
  }

  lemma BalancedBraced(s: string)
    requires Balanced(s)
    ensures Balanced("{" + s + "}")
  {
    var t := "{" + s;
    DepthOfOne('{');
    DepthOfOne('}');
    DepthConcat("{", s);
    DepthConcat(t, "}");
    forall k | 0 <= k <= |t + "}"|
      ensures Depth((t + "}")[..k]) >= 0
    {
      if k <= |t| {
        PrefixDepths(t, "}", k);
        PrefixDepths("{", s, k);
        assert k == 0 ==> "{"[..k] == "";
        assert k == 1 ==> "{"[..k] == "{";
      } else {
        assert (t + "}")[..k] == t + "}";
      }
    }
  }

  lemma {:induction false} RenderIsBalanced(b: Block)
    requires PlainText(b)
    ensures Balanced(Render(b))
  {
    match b
    case Done =>
    case Plain(c, rest) =>
      RenderIsBalanced(rest);
      DepthOfOne(c);
      assert forall k :: 0 <= k <= 1 ==> [c][..k] == if k == 0 then "" else [c];
      BalancedConcat([c], Render(rest));
    case Braced(inner, rest) =>
      RenderIsBalanced(inner);
      RenderIsBalanced(rest);
      BalancedBraced(Render(inner));
      BalancedConcat("{" + Render(inner) + "}", Render(rest));
  }

  /** Where the brace that opens before `s` is closed: the first prefix of depth -1 ends there. */
  lemma {:induction false} FirstClose(s: string, from: nat) returns (k: nat)
    requires from <= |s| && Depth(s) < 0
    requires forall i :: 0 <= i <= from ==> Depth(s[..i]) >= 0
    ensures k < |s| && s[k] == '}' && Depth(s[..k]) == 0
    ensures forall i :: 0 <= i <= k ==> Depth(s[..i]) >= 0
    decreases |s| - from
  {
    assert s[..|s|] == s;
    assert s[..from + 1][..from] == s[..from];
    if Depth(s[..from + 1]) < 0 {
      k := from;
    } else {
      k := FirstClose(s, from + 1);
    }
  }

  lemma BalancedPrefix(s: string, k: nat)
    requires k <= |s| && Depth(s[..k]) == 0 && forall i :: 0 <= i <= k ==> Depth(s[..i]) >= 0
    ensures Balanced(s[..k])
  {
    forall i | 0 <= i <= k
      ensures Depth(s[..k][..i]) >= 0
    {
      assert s[..k][..i] == s[..i];
    }
  }

  lemma BalancedRest(a: string, b: string)
    requires Balanced(a + b) && Depth(a) == 0
    ensures Balanced(b)
  {
    DepthConcat(a, b);
    forall i | 0 <= i <= |b|
      ensures Depth(b[..i]) >= 0
    {
      PrefixDepths(a, b, |a| + i);
      assert (a + b)[..|a| + i] == a + b[..i];
      DepthConcat(a, b[..i]);
    }
  }

  /** Balance by counting is balance by grammar: every balanced text has a block structure. */
  lemma {:induction false} BalancedHasBlocks(s: string) returns (b: Block)
    requires Balanced(s)
    ensures PlainText(b) && Render(b) == s
    decreases |s|
  {
    if s == "" {
      return Done;
    }
    var tail := s[1..];
    assert s == [s[0]] + tail;
    DepthOfOne(s[0]);
    DepthConcat([s[0]], tail);
    assert s[..1] == [s[0]];
    if s[0] == '{' {
      assert tail[..0] == "";
      var k := FirstClose(tail, 0);
      var inner, rest := tail[..k], tail[k + 1..];
      BalancedPrefix(tail, k);
      BalancedBraced(inner);
      assert s == ("{" + inner + "}") + rest;
      BalancedRest("{" + inner + "}", rest);
      var b1 := BalancedHasBlocks(inner);
      var b2 := BalancedHasBlocks(rest);
      b := Braced(b1, b2);
    } else {
      BalancedRest([s[0]], tail);
      var b1 := BalancedHasBlocks(tail);
      b := Plain(s[0], b1);
    }
  }

  // ----------------------------------------------------------------- search

  /** `text.find(needle, from)`. */
  function Find(text: string, needle: string, from: nat): (at: Option<nat>)
    requires from <= |text|
    ensures at.Some? ==> from <= at.value && Text.OccursAt(text, needle, at.value)
    ensures at.Some? ==> forall k :: from <= k < at.value ==> !Text.OccursAt(text, needle, k)
    ensures at.None? ==> forall k :: from <= k ==> !Text.OccursAt(text, needle, k)
    decreases |text| - from
  {
    if Text.OccursAt(text, needle, from) then Some(from)
    else if from == |text| then None
    else Find(text, needle, from + 1)
  }

  function Marker(name: string): (marker: string) {
    "const " + name + " = "
  }

  /** The first open brace at or after the first marker. */
  function BraceOf(text: string, name: string): (brace: Option<nat>)
    ensures brace.Some? ==> brace.value < |text| && text[brace.value] == '{'
  {
    var start := Find(text, Marker(name), 0);
    if start.None? then None
    else
      var brace := Find(text, "{", start.value);
      assert brace.Some? ==> text[brace.value..brace.value + 1][0] == '{';
      brace
  }

  /** `body` is balanced and stands between the function's open brace and a close brace. */
  ghost predicate IsBody(text: string, name: string, body: string) {
    var brace := BraceOf(text, name);
    brace.Some? && Balanced(body) && body + "}" <= text[brace.value + 1..]
  }

  /** The marker is at `start` and nowhere before, and the first open brace from there on is at `brace`. */
  predicate OpensAt(text: string, name: string, start: nat, brace: nat) {
    && Text.OccursAt(text, "const " + name + " = ", start)
    && (forall k :: 0 <= k < start ==> !Text.OccursAt(text, "const " + name + " = ", k))
    && start <= brace < |text| && text[brace] == '{'
    && (forall k :: start <= k < brace ==> text[k] != '{')
  }

  lemma BraceOccurs(text: string, k: nat)
    requires k <= |text|
    ensures Text.OccursAt(text, "{", k) <==> k < |text| && text[k] == '{'
  {
    if k < |text| {
      assert text[k..k + 1] == [text[k]];
    }
  }

  lemma BraceIsFirst(text: string, name: string, start: nat, brace: nat)
    requires OpensAt(text, name, start, brace)
    ensures BraceOf(text, name) == Some(brace)
  {
    forall k: nat | k <= |text|
      ensures Text.OccursAt(text, "{", k) <==> k < |text| && text[k] == '{'
    {
      BraceOccurs(text, k);
    }
    var marker := Find(text, Marker(name), 0);
    assert Text.OccursAt(text, Marker(name), start);
    assert marker == Some(start);
    var found := Find(text, "{", start);
    assert Text.OccursAt(text, "{", brace);
    assert found == Some(brace);
  }

  lemma BraceOpens(text: string, name: string) returns (start: nat)
    requires BraceOf(text, name).Some?
    ensures OpensAt(text, name, start, BraceOf(text, name).value)
  {
    start := Find(text, Marker(name), 0).value;
    var brace := BraceOf(text, name).value;
    forall k | start <= k < brace
      ensures text[k] != '{'
    {
      BraceOccurs(text, k);
    }
  }

  /** `body` is balanced and closed behind the brace. */
  ghost predicate ClosesBehind(text: string, brace: nat, body: string)
    requires brace < |text|
  {
    Balanced(body) && body + "}" <= text[brace + 1..]
  }

  /**
   The body, told on the text alone: what stands between the first open brace at or after the first
   marker and the close brace that balances it.
   */
  lemma IsBodyIff(text: string, name: string, body: string)
    ensures IsBody(text, name, body) <==>
      exists start: nat, brace: nat :: OpensAt(text, name, start, brace) && ClosesBehind(text, brace, body)
  {
    if IsBody(text, name, body) {
      var start := BraceOpens(text, name);
      assert ClosesBehind(text, BraceOf(text, name).value, body);
    }
    if start: nat, brace: nat :| OpensAt(text, name, start, brace) && ClosesBehind(text, brace, body) {
      BraceIsFirst(text, name, start, brace);
    }
  }

  /** The brace that closes a body is where the text first goes below its start. */
  lemma CloseGoesBelow(after: string, body: string)
    requires Balanced(body) && body + "}" <= after
    ensures Depth(after[..|body| + 1]) == -1
    ensures forall k :: 0 <= k <= |body| ==> Depth(after[..k]) >= 0
  {
    assert after[..|body| + 1] == body + "}";
    DepthConcat(body, "}");
    DepthOfOne('}');
    forall k | 0 <= k <= |body|
      ensures Depth(after[..k]) >= 0
    {
      assert after[..k] == body[..k];
    }
  }

  /** No text has two bodies. */
  lemma BodyIsUnique(text: string, name: string, a: string, b: string)
    requires IsBody(text, name, a) && IsBody(text, name, b)
    ensures a == b
  {
    var after := text[BraceOf(text, name).value + 1..];
    CloseGoesBelow(after, a);
    CloseGoesBelow(after, b);
    assert a == after[..|a|] && b == after[..|b|];
  }

  lemma NoBody(after: string, body: string)
    requires forall k :: 0 <= k <= |after| ==> Depth(after[..k]) >= 0
    ensures !(Balanced(body) && body + "}" <= after)
  {
    if Balanced(body) && body + "}" <= after {
      CloseGoesBelow(after, body);
    }
  }

  /** The extraction finds the body whenever there is one, and nothing else. */
  method Extract(text: string, name: string) returns (body: Option<string>)
    ensures forall b :: body == Some(b) <==> IsBody(text, name, b)
  {
    var brace := BraceOf(text, name);
    if brace.None? {
      return None;
    }
    ghost var after := text[brace.value + 1..];
    var depth := 0;
    var index := brace.value;
    while index < |text|
      invariant brace.value <= index <= |text|
      invariant index == brace.value ==> depth == 0
      invariant index > brace.value ==> depth == 1 + Depth(after[..index - brace.value - 1])
      invariant index > brace.value ==> forall k :: 0 <= k < index - brace.value ==> Depth(after[..k]) >= 0
    {
      if text[index] == '{' {
        depth := depth + 1;
      } else if text[index] == '}' {
        depth := depth - 1;
      }
      if index == brace.value {
        assert after[..0] == "";
      } else {
        ghost var n := index - brace.value - 1;
        assert after[..n + 1][..n] == after[..n] && after[n] == text[index];
        if text[index] == '}' && depth == 0 {
          body := Some(text[brace.value + 1..index]);
          assert body.value == after[..n];
          BalancedPrefix(after, n);
          assert body.value + "}" <= after;
          forall b | IsBody(text, name, b) {
            BodyIsUnique(text, name, b, body.value);
          }
          return;
        }
      }
      index := index + 1;
    }
    forall b {
      NoBody(after, b);
    }
    body := None;
  }
}
