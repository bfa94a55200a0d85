/**
 scripts/audit-summary-grounding.py: the anchors a summary commits to, and the share
 of them that the session text bears out. Text is ASCII.
 */
module Grounding {
  import opened Options
  import Text

  // -------------------------------------------------------------- substrings

  /** Python's `needle in haystack`. */
  predicate Contains(haystack: string, needle: string) {
    exists k: nat :: k <= |haystack| && Text.OccursAt(haystack, needle, k)
  }

  lemma ContainsAt(haystack: string, needle: string, k: nat)
    requires k + |needle| <= |haystack| && haystack[k..k + |needle|] == needle
    ensures Contains(haystack, needle)
  {
    assert Text.OccursAt(haystack, needle, k);
  }

  lemma ContainsTransitive(a: string, b: string, c: string)
    requires Contains(a, b) && Contains(b, c)
    ensures Contains(a, c)
  {
    var i: nat :| i <= |a| && Text.OccursAt(a, b, i);
    var j: nat :| j <= |b| && Text.OccursAt(b, c, j);
    forall t | 0 <= t < |c|
      ensures a[i + j..i + j + |c|][t] == c[t]
    {
      assert a[i + (j + t)] == a[i..i + |b|][j + t] && b[j + t] == b[j..j + |c|][t];
    }
    ContainsAt(a, c, i + j);
  }

  function LowerChar(c: char): (d: char) {
    if 'A' <= c <= 'Z' then (c as int + 32) as char else c
  }

  function Lower(s: string): (t: string)
    ensures |t| == |s| && forall k :: 0 <= k < |s| ==> t[k] == LowerChar(s[k])
  {
    seq(|s|, k requires 0 <= k < |s| => LowerChar(s[k]))
  }

  lemma LowerContains(a: string, b: string)
    requires Contains(a, b)
    ensures Contains(Lower(a), Lower(b))
  {
    var k: nat :| k <= |a| && Text.OccursAt(a, b, k);
    forall i | 0 <= i < |b|
      ensures Lower(a)[k..k + |b|][i] == Lower(b)[i]
    {
      assert a[k + i] == a[k..k + |b|][i];
    }
    ContainsAt(Lower(a), Lower(b), k);
  }

  // ------------------------------------------------------------------ tokens

  predicate IsLetter(c: char) {
    'a' <= c <= 'z' || 'A' <= c <= 'Z'
  }

  predicate IsTokenChar(c: char) {
    IsLetter(c) || '0' <= c <= '9' || c == '_' || c == '.' || c == '-' || c == '/'
  }

  /** How many token characters `s` starts with. */
  function RunLength(s: string): (n: nat)
    ensures n <= |s|
  {
    if s != "" && IsTokenChar(s[0]) then 1 + RunLength(s[1..]) else 0
  }

  /** The matches of the TOKEN pattern: a letter and at least two more token characters, as many as there are. */
  function Tokens(s: string): (tokens: seq<string>)
    decreases |s|
  {
    if s == "" then []
    else if IsLetter(s[0]) && RunLength(s) >= 3 then [s[..RunLength(s)]] + Tokens(s[RunLength(s)..])
    else Tokens(s[1..])
  }

  predicate IsEdge(c: char) {
    c == '.' || c == '/' || c == '-' || c == '_'
  }

  function StripLeft(s: string): (t: string) {
    if s != "" && IsEdge(s[0]) then StripLeft(s[1..]) else s
  }

  function StripRight(s: string): (t: string) {
    if s != "" && IsEdge(s[|s| - 1]) then StripRight(s[..|s| - 1]) else s
  }

  // ------------------------------------------------------------------- stems

  const SUFFIXES := ["ations", "ation", "ings", "ing", "ies", "ed", "es", "s"]
  const STEM_FLOOR := 4
  const MIN_ANCHORS := 4
  const GROUNDED_THRESHOLD := 0.65

  predicate EndsWith(word: string, suffix: string) {
    |suffix| <= |word| && word[|word| - |suffix|..] == suffix
  }

  /** The suffix comes off the word and leaves enough of it. */
  predicate ComesOff(word: string, suffix: string) {
    EndsWith(word, suffix) && |word| - |suffix| >= STEM_FLOOR
  }

  /** The first suffix from the k-th on that comes off is removed. */
  function StemFrom(word: string, suffixes: seq<string>, k: nat): (s: string)
    requires k <= |suffixes|
    decreases |suffixes| - k
  {
    if k == |suffixes| then word
    else if ComesOff(word, suffixes[k]) then word[..|word| - |suffixes[k]|]
    else StemFrom(word, suffixes, k + 1)
  }

  function Stem(word: string): (s: string) {
    StemFrom(word, SUFFIXES, 0)
  }

  lemma {:induction false} StemFromIsPrefix(word: string, suffixes: seq<string>, k: nat)
    requires k <= |suffixes|
    ensures StemFrom(word, suffixes, k) <= word
    ensures |word| >= STEM_FLOOR ==> |StemFrom(word, suffixes, k)| >= STEM_FLOOR
    decreases |suffixes| - k
  {
    if k < |suffixes| {
      StemFromIsPrefix(word, suffixes, k + 1);
    }
  }

  lemma StemIsPrefix(word: string)
    ensures Stem(word) <= word && (|word| >= STEM_FLOOR ==> |Stem(word)| >= STEM_FLOOR)
  {
    StemFromIsPrefix(word, SUFFIXES, 0);
  }

  lemma LetterClash(word: string, suffix: string, j: nat)
    requires j < |suffix| && j < |word| && word[|word| - 1 - j] != suffix[|suffix| - 1 - j]
    ensures !EndsWith(word, suffix)
  {
    if |suffix| <= |word| {
      assert word[|word| - |suffix|..][|suffix| - 1 - j] == word[|word| - 1 - j];
    }
  }

  lemma {:induction false} StemSkips(word: string, suffixes: seq<string>, k: nat, m: nat)
    requires k <= m <= |suffixes|
    requires forall i :: k <= i < m ==> !ComesOff(word, suffixes[i])
    ensures StemFrom(word, suffixes, k) == StemFrom(word, suffixes, m)
    decreases m - k
  {
    if k < m {
      StemSkips(word, suffixes, k + 1, m);
    }
  }

  /** Two suffixes that end in different letters, so that no word ends in both. */
  predicate EndApart(a: string, b: string) {
    a != "" && b != "" && a[|a| - 1] != b[|b| - 1]
  }

  lemma ApartStays(w: string, a: string, tail: string)
    requires EndApart(a, tail)
    ensures !ComesOff(w + tail, a)
  {
    LetterClash(w + tail, a, 0);
  }

  lemma TailComesOff(w: string, tail: string)
    requires |w| >= STEM_FLOOR
    ensures ComesOff(w + tail, tail) && (w + tail)[..|w + tail| - |tail|] == w
  {
    assert (w + tail)[|w|..] == tail && (w + tail)[..|w|] == w;
  }

  /** The m-th suffix comes off a word when no earlier suffix ends as it does. */
  lemma StemTakes(w: string, suffixes: seq<string>, m: nat)
    requires |w| >= STEM_FLOOR && m < |suffixes|
    requires forall i :: 0 <= i < m ==> EndApart(suffixes[i], suffixes[m])
    ensures StemFrom(w + suffixes[m], suffixes, 0) == w
  {
    var tail := suffixes[m];
    forall i | 0 <= i < m
      ensures !ComesOff(w + tail, suffixes[i])
    {
      ApartStays(w, suffixes[i], tail);
    }
    StemSkips(w + tail, suffixes, 0, m);
    TailComesOff(w, tail);
  }

  lemma SuffixesDiffer()
    ensures |SUFFIXES| == 8 && SUFFIXES[3] == "ing" && SUFFIXES[5] == "ed" && SUFFIXES[7] == "s"
    ensures forall i :: 0 <= i < 3 ==> EndApart(SUFFIXES[i], SUFFIXES[3])
    ensures forall i :: 0 <= i < 5 ==> EndApart(SUFFIXES[i], SUFFIXES[5])
    ensures forall i :: 0 <= i < |SUFFIXES| ==> SUFFIXES[i] != ""
  {
  }

  predicate Shortens(word: string, suffixes: seq<string>) {
    exists suffix :: suffix in suffixes && ComesOff(word, suffix)
  }

  lemma {:induction false} StemFromKeeps(word: string, suffixes: seq<string>, k: nat)
    requires k <= |suffixes| && forall i :: 0 <= i < |suffixes| ==> suffixes[i] != ""
    ensures StemFrom(word, suffixes, k) == word <==> forall i :: k <= i < |suffixes| ==> !ComesOff(word, suffixes[i])
    decreases |suffixes| - k
  {
    if k < |suffixes| {
      if ComesOff(word, suffixes[k]) {
        assert |StemFrom(word, suffixes, k)| < |word|;
      } else {
        StemFromKeeps(word, suffixes, k + 1);
      }
    }
  }

  lemma KeepsIff(word: string, suffixes: seq<string>)
    requires forall i :: 0 <= i < |suffixes| ==> suffixes[i] != ""
    ensures StemFrom(word, suffixes, 0) == word <==> !Shortens(word, suffixes)
  {
    StemFromKeeps(word, suffixes, 0);
    if i :| 0 <= i < |suffixes| && ComesOff(word, suffixes[i]) {
      assert suffixes[i] in suffixes;
    }
  }

  /** The -ing and -ed forms have the word itself for a stem; the word shares it exactly when nothing comes off the word. */
  lemma InflectionsShareTheStemIff(w: string)
    requires |w| >= STEM_FLOOR
    ensures Stem(w + "ing") == w && Stem(w + "ed") == w
    ensures Stem(w) == Stem(w + "ing") == Stem(w + "ed") <==> !Shortens(w, SUFFIXES)
  {
    SuffixesDiffer();
    StemTakes(w, SUFFIXES, 3);
    StemTakes(w, SUFFIXES, 5);
    KeepsIff(w, SUFFIXES);
  }

  /** A suffix that a word in a double s does not end in. */
  predicate NotDoubleS(suffix: string) {
    |suffix| >= 2 && (suffix[|suffix| - 1] != 's' || suffix[|suffix| - 2] != 's')
  }

  lemma DoubleSKeeps(w: string, suffix: string)
    requires |w| >= 2 && w[|w| - 1] == w[|w| - 2] == 's' && NotDoubleS(suffix)
    ensures !ComesOff(w, suffix)
  {
    LetterClash(w, suffix, if suffix[|suffix| - 1] == 's' then 1 else 0);
  }

  lemma OnlyFinalSComesOff(w: string, suffixes: seq<string>, last: nat)
    requires |w| > STEM_FLOOR && w[|w| - 1] == w[|w| - 2] == 's'
    requires last < |suffixes| && suffixes[last] == "s" && forall i :: 0 <= i < last ==> NotDoubleS(suffixes[i])
    ensures Shortens(w, suffixes) && StemFrom(w, suffixes, 0) == w[..|w| - 1]
  {
    forall i | 0 <= i < last
      ensures !ComesOff(w, suffixes[i])
    {
      DoubleSKeeps(w, suffixes[i]);
    }
    StemSkips(w, suffixes, 0, last);
    TailComesOff(w[..|w| - 1], "s");
    assert w[..|w| - 1] + "s" == w;
    assert suffixes[last] in suffixes;
  }

  /** Words in a double s are stemmed further than their -ing forms: "process" to "proces", "processing" to "process". */
  lemma DoubleSIsCut(w: string)
    requires |w| > STEM_FLOOR && w[|w| - 1] == w[|w| - 2] == 's'
    ensures Shortens(w, SUFFIXES) && Stem(w) == w[..|w| - 1] && Stem(w + "ing") == w
  {
    InflectionsShareTheStemIff(w);
    SuffixesDiffer();
    assert forall i :: 0 <= i < 7 ==> NotDoubleS(SUFFIXES[i]);
    OnlyFinalSComesOff(w, SUFFIXES, 7);
  }

  lemma ProcessIsCut()
    ensures Stem("process") == "proces" && Stem("process" + "ing") == "process"
  {
    DoubleSIsCut("process");
  }

  lemma CutIntoWord(w: string, tail: string, n: nat)
    requires |tail| <= n <= |w + tail|
    ensures (w + tail)[..|w + tail| - n] <= w
  {
    assert (w + tail)[..|w + tail| - n] == w[..|w + tail| - n];
  }

  /** With the suffixes tried longest first, no more of a suffixed word is left than the word. */
  lemma {:induction false} StemFromReaches(w: string, suffixes: seq<string>, m: nat, k: nat)
    requires |w| >= STEM_FLOOR && k <= m < |suffixes|
    requires forall i :: 0 <= i <= m ==> |suffixes[i]| >= |suffixes[m]|
    ensures StemFrom(w + suffixes[m], suffixes, k) <= w
    decreases m - k
  {
    var word := w + suffixes[m];
    if ComesOff(word, suffixes[k]) {
      CutIntoWord(w, suffixes[m], |suffixes[k]|);
    } else if k < m {
      StemFromReaches(w, suffixes, m, k + 1);
    } else {
      TailComesOff(w, suffixes[m]);
      assert false;
    }
  }

  /** `token` is `w` as it stands or with one of the suffixes. */
  predicate IsForm(token: string, w: string) {
    token == w || token == w + "ations" || token == w + "ation" || token == w + "ings" || token == w + "ing"
    || token == w + "ies" || token == w + "ed" || token == w + "es" || token == w + "s"
  }

  lemma SuffixList()
    ensures |SUFFIXES| == 8
    ensures SUFFIXES[0] == "ations" && SUFFIXES[1] == "ation" && SUFFIXES[2] == "ings" && SUFFIXES[3] == "ing"
    ensures SUFFIXES[4] == "ies" && SUFFIXES[5] == "ed" && SUFFIXES[6] == "es" && SUFFIXES[7] == "s"
  {
  }

  lemma SuffixOfForm(token: string, w: string) returns (m: nat)
    requires IsForm(token, w) && token != w
    ensures m < |SUFFIXES| && token == w + SUFFIXES[m]
  {
    SuffixList();
    m := if token == w + "ations" then 0 else if token == w + "ation" then 1 else if token == w + "ings" then 2
      else if token == w + "ing" then 3 else if token == w + "ies" then 4 else if token == w + "ed" then 5
      else if token == w + "es" then 6 else 7;
  }

  /** Of a form long enough to be looked for, no more than the word is left exactly when the word has four letters or more. */
  lemma FormsKeepTheWordIff(token: string, w: string)
    requires IsForm(token, w) && |token| >= STEM_FLOOR
    ensures Stem(token) <= w <==> |w| >= STEM_FLOOR
  {
    StemIsPrefix(token);
    if token != w && |w| >= STEM_FLOOR {
      var m := SuffixOfForm(token, w);
      SuffixesShrink(m);
      StemFromReaches(w, SUFFIXES, m, 0);
    }
  }

  lemma SuffixesShrink(m: nat)
    requires m < |SUFFIXES|
    ensures forall i :: 0 <= i <= m ==> |SUFFIXES[i]| >= |SUFFIXES[m]|
  {
  }

  lemma FourLettersStay(w: string)
    requires |w| == STEM_FLOOR
    ensures Stem(w) == w
  {
    SuffixesDiffer();
    KeepsIff(w, SUFFIXES);
  }

  lemma EndsInGAndKeeps(word: string)
    requires |word| < STEM_FLOOR + 3 && word != "" && word[|word| - 1] == 'g'
    ensures Stem(word) == word
  {
    SuffixesDiffer();
    KeepsIff(word, SUFFIXES);
    forall suffix | suffix in SUFFIXES
      ensures !ComesOff(word, suffix)
    {
      if |suffix| < 3 {
        LetterClash(word, suffix, 0);
      }
    }
  }

  lemma LongerIsMissing(word: string, a: string)
    requires |a| > |word|
    ensures !Contains(word, a)
  {
  }

  lemma StemOfDoubled(w: string, token: string)
    requires |w| >= STEM_FLOOR && token == w + "ing"
    ensures Stem(token) == w
  {
    InflectionsShareTheStemIff(w);
  }

  /** Forms that are spelled otherwise than word and suffix: "logging" of "log", "making" of "make". */
  lemma SpelledFormsOutgrowTheWord()
    ensures Stem("logging") == "logg" && !Contains("log", "logg")
    ensures Stem("making") == "making" && !Contains("make", "making")
  {
    StemOfDoubled("logg", "logging");
    EndsInGAndKeeps("making");
    LongerIsMissing("log", "logg");
    LongerIsMissing("make", "making");
  }

  // ----------------------------------------------------------------- anchors

  /** A raw token as it is looked for: edges stripped, in lower case. */
  function Normal(raw: string): (token: string) {
    Lower(StripRight(StripLeft(raw)))
  }

  predicate IsAnchorToken(token: string, stop: set<string>) {
    |token| >= 4 && token !in stop
  }

  /** The stems of the summary's tokens once its first `stamp` characters, the date stamp, are gone. */
  function Anchors(summary: string, stamp: nat, stop: set<string>): (found: set<string>)
    requires stamp <= |summary|
  {
    set raw | raw in Tokens(summary[stamp..]) && IsAnchorToken(Normal(raw), stop) :: Stem(Normal(raw))
  }

  method CollectAnchors(summary: string, stamp: nat, stop: set<string>) returns (found: set<string>)
    requires stamp <= |summary|
    ensures found == Anchors(summary, stamp, stop)
  {
    var tokens := Tokens(summary[stamp..]);
    found := {};
    for i := 0 to |tokens|
      invariant found == set raw | raw in tokens[..i] && IsAnchorToken(Normal(raw), stop) :: Stem(Normal(raw))
    {
      assert tokens[..i + 1] == tokens[..i] + [tokens[i]];
      var token := Normal(tokens[i]);
      if IsAnchorToken(token, stop) {
        found := found + {Stem(token)};
      }
    }
    assert tokens[..|tokens|] == tokens;
  }

  function MissingFrom(found: set<string>, session: string): (missing: set<string>) {
    set a | a in found && !Contains(Lower(session), a)
  }

  function Share(missing: nat, whole: nat): (share: real)
    requires whole > 0
  {
    1.0 - missing as real / whole as real
  }

  /** The share of anchors found and the ones missing; too few anchors commit to too little to judge. */
  function Ground(summary: string, stamp: nat, session: string, stop: set<string>): (g: Option<(real, set<string>)>)
    requires stamp <= |summary|
  {
    var found := Anchors(summary, stamp, stop);
    if |found| < MIN_ANCHORS then None
    else
      var missing := MissingFrom(found, session);
      Some((Share(|missing|, |found|), missing))
  }

  // ------------------------------------------------------ what is looked for

  /** The classes of the TOKEN pattern, by character code. */
  lemma TokenCharacters(c: char)
    ensures var n := c as int;
      && (IsLetter(c) <==> 65 <= n <= 90 || 97 <= n <= 122)
      && (IsTokenChar(c) <==> IsLetter(c) || 45 <= n <= 57 || n == 95)
  {
  }

  lemma LowerFolds(k: nat)
    requires k < 26
    ensures LowerChar(('A' as int + k) as char) == ('a' as int + k) as char
    ensures LowerChar(('a' as int + k) as char) == ('a' as int + k) as char
  {
  }

  /** How far into `run` its first letter is. */
  function FirstLetter(run: string): (n: nat)
    ensures n <= |run| && (forall k :: 0 <= k < n ==> !IsLetter(run[k])) && (n < |run| ==> IsLetter(run[n]))
  {
    if run == "" || IsLetter(run[0]) then 0 else 1 + FirstLetter(run[1..])
  }

  predicate AllTokenChars(run: string) {
    forall k :: 0 <= k < |run| ==> IsTokenChar(run[k])
  }

  lemma {:induction false} RunOf(run: string, rest: string)
    requires AllTokenChars(run) && (rest == "" || !IsTokenChar(rest[0]))
    ensures RunLength(run + rest) == |run|
  {
    if run == "" {
      assert run + rest == rest;
    } else {
      RunOf(run[1..], rest);
      assert (run + rest)[1..] == run[1..] + rest;
    }
  }

  lemma TokensStep(s: string)
    requires s != "" && !(IsLetter(s[0]) && RunLength(s) >= 3)
    ensures Tokens(s) == Tokens(s[1..])
  {
  }

  /** A stretch too short for a token gives none. */
  lemma {:induction false} ShortRun(run: string, rest: string)
    requires AllTokenChars(run) && (rest == "" || !IsTokenChar(rest[0])) && |run| < 3
    ensures Tokens(run + rest) == Tokens(rest)
  {
    if run == "" {
      assert run + rest == rest;
    } else {
      RunOf(run, rest);
      TokensStep(run + rest);
      assert (run + rest)[1..] == run[1..] + rest;
      ShortRun(run[1..], rest);
    }
  }

  lemma LongRun(run: string, rest: string)
    requires AllTokenChars(run) && (rest == "" || !IsTokenChar(rest[0])) && |run| >= 3 && IsLetter(run[0])
    ensures Tokens(run + rest) == [run] + Tokens(rest)
  {
    RunOf(run, rest);
    assert (run + rest)[..|run|] == run && (run + rest)[|run|..] == rest;
  }

  lemma SkipToLetter(run: string, rest: string)
    requires run != "" && !IsLetter(run[0])
    ensures Tokens(run + rest) == Tokens(run[1..] + rest)
    ensures run[FirstLetter(run)..] == run[1..][FirstLetter(run[1..])..]
  {
    TokensStep(run + rest);
    assert (run + rest)[1..] == run[1..] + rest;
  }

  /** The token of a stretch: the part from its first letter on, if that is long enough. */
  function TokenOf(run: string): (tokens: seq<string>) {
    var token := run[FirstLetter(run)..];
    if |token| >= 3 then [token] else []
  }

  lemma StartsWithLetter(run: string, rest: string)
    requires AllTokenChars(run) && (rest == "" || !IsTokenChar(rest[0])) && (run == "" || IsLetter(run[0]))
    ensures Tokens(run + rest) == TokenOf(run) + Tokens(rest)
  {
    assert run[0..] == run;
    if |run| >= 3 {
      LongRun(run, rest);
    } else {
      ShortRun(run, rest);
    }
  }

  /**
   Tokens, stretch by stretch: of each longest stretch of token characters the part from its first letter
   on is the one token, if it has three characters or more; what separates stretches gives none.
   */
  lemma {:induction false} TokensOfRun(run: string, rest: string)
    requires AllTokenChars(run) && (rest == "" || !IsTokenChar(rest[0]))
    ensures Tokens(run + rest) == TokenOf(run) + Tokens(rest)
    ensures rest != "" ==> Tokens(rest) == Tokens(rest[1..])
  {
    if rest != "" {
      TokensStep(rest);
    }
    if run == "" || IsLetter(run[0]) {
      StartsWithLetter(run, rest);
    } else {
      SkipToLetter(run, rest);
      TokensOfRun(run[1..], rest);
    }
  }

  predicate AllEdges(s: string) {
    forall k :: 0 <= k < |s| ==> s[k] in "./-_"
  }

  lemma {:induction false} StripLeftIs(s: string) returns (left: string)
    ensures s == left + StripLeft(s) && AllEdges(left)
    ensures StripLeft(s) != "" ==> StripLeft(s)[0] !in "./-_"
  {
    left := "";
    if s != "" && IsEdge(s[0]) {
      var rest := StripLeftIs(s[1..]);
      left := [s[0]] + rest;
      assert s == [s[0]] + s[1..];
    }
  }

  lemma {:induction false} StripRightIs(s: string) returns (right: string)
    ensures s == StripRight(s) + right && AllEdges(right) && StripRight(s) <= s
    ensures StripRight(s) != "" ==> StripRight(s)[|StripRight(s)| - 1] !in "./-_"
    decreases |s|
  {
    right := "";
    if s != "" && IsEdge(s[|s| - 1]) {
      var rest := StripRightIs(s[..|s| - 1]);
      right := rest + [s[|s| - 1]];
      assert s == s[..|s| - 1] + [s[|s| - 1]];
    }
  }

  /** A token is looked for in lower case, without the dots, slashes, dashes and underscores at its ends, and only those. */
  lemma NormalIsStripped(raw: string) returns (left: string, core: string, right: string)
    ensures raw == left + core + right && AllEdges(left) && AllEdges(right) && Normal(raw) == Lower(core)
    ensures core != "" ==> core[0] !in "./-_" && core[|core| - 1] !in "./-_"
  {
    core := StripRight(StripLeft(raw));
    left := StripLeftIs(raw);
    right := StripRightIs(StripLeft(raw));
    assert left + core + right == left + (core + right);
  }

  /** The token counts: four characters or more, and not a stop word. */
  predicate Counts(raw: string, stop: set<string>) {
    |Normal(raw)| >= 4 && Normal(raw) !in stop
  }

  /** Anchors are the stems of the tokens that count, so stopping more words only takes away those no other token gives. */
  lemma AnchorsAre(summary: string, stamp: nat, stop: set<string>, a: string)
    requires stamp <= |summary|
    ensures a in Anchors(summary, stamp, stop) <==>
      exists raw :: raw in Tokens(summary[stamp..]) && Counts(raw, stop) && a == Stem(Normal(raw))
  {
  }

  lemma StoppedWordsAreNoAnchors(summary: string, stamp: nat, stop: set<string>, more: set<string>, a: string)
    requires stamp <= |summary|
    ensures a in Anchors(summary, stamp, stop + more) ==> a in Anchors(summary, stamp, stop)
    ensures a in Anchors(summary, stamp, stop) && a !in Anchors(summary, stamp, stop + more) <==>
      && (exists raw :: raw in Tokens(summary[stamp..]) && Counts(raw, stop) && a == Stem(Normal(raw)))
      && (forall raw :: raw in Tokens(summary[stamp..]) && Counts(raw, stop) && a == Stem(Normal(raw)) ==> Normal(raw) in more)
  {
    AnchorsAre(summary, stamp, stop, a);
    AnchorsAre(summary, stamp, stop + more, a);
    forall raw
      ensures Counts(raw, stop + more) <==> Counts(raw, stop) && Normal(raw) !in more
    {
    }
  }

  /** What is missing: the anchors that do not occur in the lower-cased session. */
  predicate IsMissing(missing: set<string>, found: set<string>, session: string) {
    && (forall a :: a in missing ==> a in found && !Contains(Lower(session), a))
    && (forall a :: a in found && !Contains(Lower(session), a) ==> a in missing)
  }

  /** The verdict on a summary: its missing anchors, and the share of the others; fewer than four anchors are not judged. */
  lemma GroundIsShare(summary: string, stamp: nat, session: string, stop: set<string>, found: set<string>, missing: set<string>)
    requires stamp <= |summary| && found == Anchors(summary, stamp, stop) && IsMissing(missing, found, session)
    ensures Ground(summary, stamp, session, stop) == if |found| < 4 then None else Some((Share(|missing|, |found|), missing))
  {
    assert missing == MissingFrom(found, session);
    GroundIs(summary, stamp, session, stop, found, missing);
  }

  /** The share, without a quotient. */
  lemma ShareTimes(missing: nat, whole: nat)
    requires whole > 0
    ensures Share(missing, whole) * whole as real == (whole - missing) as real
  {
    var m, w := missing as real, whole as real;
    assert m / w * w == m;
    assert (1.0 - m / w) * w == w - m / w * w;
  }

  // -------------------------------------------------------------- the promise

  lemma {:induction false} TokensAreContained(s: string)
    ensures forall t :: t in Tokens(s) ==> Contains(s, t)
    decreases |s|
  {
    if s != "" {
      var n := if IsLetter(s[0]) && RunLength(s) >= 3 then RunLength(s) else 1;
      TokensAreContained(s[n..]);
      ContainsAt(s, s[..n], 0);
      ContainsAt(s, s[n..], n);
      forall t | t in Tokens(s[n..])
        ensures Contains(s, t)
      {
        ContainsTransitive(s, s[n..], t);
      }
    }
  }

  lemma {:induction false} StripLeftIsContained(s: string)
    ensures Contains(s, StripLeft(s))
  {
    if s != "" && IsEdge(s[0]) {
      StripLeftIsContained(s[1..]);
      ContainsAt(s, s[1..], 1);
      ContainsTransitive(s, s[1..], StripLeft(s));
    } else {
      ContainsAt(s, s, 0);
    }
  }

  lemma {:induction false} StripRightIsContained(s: string)
    ensures Contains(s, StripRight(s))
    decreases |s|
  {
    if s != "" && IsEdge(s[|s| - 1]) {
      StripRightIsContained(s[..|s| - 1]);
      ContainsAt(s, s[..|s| - 1], 0);
      ContainsTransitive(s, s[..|s| - 1], StripRight(s));
    } else {
      ContainsAt(s, s, 0);
    }
  }

  lemma NormalIsContained(raw: string)
    ensures Contains(Lower(raw), Normal(raw))
  {
    StripLeftIsContained(raw);
    StripRightIsContained(StripLeft(raw));
    ContainsTransitive(raw, StripLeft(raw), StripRight(StripLeft(raw)));
    LowerContains(raw, StripRight(StripLeft(raw)));
  }

  /** Every anchor keeps at least four characters and stands verbatim in the lower-cased summary body. */
  lemma AnchorsAreVerbatim(summary: string, stamp: nat, stop: set<string>)
    requires stamp <= |summary|
    ensures forall a :: a in Anchors(summary, stamp, stop) ==> |a| >= STEM_FLOOR && Contains(Lower(summary[stamp..]), a)
  {
    var body := summary[stamp..];
    TokensAreContained(body);
    forall raw | raw in Tokens(body) && IsAnchorToken(Normal(raw), stop)
      ensures |Stem(Normal(raw))| >= STEM_FLOOR && Contains(Lower(body), Stem(Normal(raw)))
    {
      LowerContains(body, raw);
      NormalIsContained(raw);
      ContainsTransitive(Lower(body), Lower(raw), Normal(raw));
      StemIsPrefix(Normal(raw));
      ContainsAt(Normal(raw), Stem(Normal(raw)), 0);
      ContainsTransitive(Lower(body), Normal(raw), Stem(Normal(raw)));
    }
  }

  lemma GroundIs(summary: string, stamp: nat, session: string, stop: set<string>, found: set<string>, missing: set<string>)
    requires stamp <= |summary| && found == Anchors(summary, stamp, stop) && missing == MissingFrom(found, session)
    ensures Ground(summary, stamp, session, stop)
      == if |found| < MIN_ANCHORS then None else Some((Share(|missing|, |found|), missing))
  {
  }

  lemma ShareOf(whole: nat)
    requires whole > 0
    ensures Share(0, whole) == 1.0 && Share(2, 4) == 0.5
  {
  }

  ghost predicate BearsOut(session: string, found: set<string>) {
    forall a :: a in found ==> Contains(Lower(session), a)
  }

  lemma NothingIsMissing(found: set<string>, session: string)
    requires BearsOut(session, found)
    ensures MissingFrom(found, session) == {}
  {
  }

  lemma BorneOutIsGrounded(summary: string, stamp: nat, session: string, stop: set<string>)
    requires stamp <= |summary| && BearsOut(session, Anchors(summary, stamp, stop))
    ensures var g := Ground(summary, stamp, session, stop); g.None? || g == Some((1.0, {}))
  {
    var found := Anchors(summary, stamp, stop);
    NothingIsMissing(found, session);
    GroundIs(summary, stamp, session, stop, found, {});
    if |found| >= MIN_ANCHORS {
      ShareOf(|found|);
    }
  }

  /** A summary whose body occurs in the session, whatever the case, is fully grounded or too short to judge. */
  lemma VerbatimIsGrounded(summary: string, stamp: nat, session: string, stop: set<string>)
    requires stamp <= |summary| && Contains(Lower(session), Lower(summary[stamp..]))
    ensures var g := Ground(summary, stamp, session, stop); g.None? || g == Some((1.0, {}))
  {
    var found := Anchors(summary, stamp, stop);
    AnchorsAreVerbatim(summary, stamp, stop);
    forall a | a in found
      ensures Contains(Lower(session), a)
    {
      ContainsTransitive(Lower(session), Lower(summary[stamp..]), a);
    }
    BorneOutIsGrounded(summary, stamp, session, stop);
  }

  /** In particular one whose whole text, date stamp included, occurs there. */
  lemma QuotedSummaryIsGrounded(summary: string, stamp: nat, session: string, stop: set<string>)
    requires stamp <= |summary| && Contains(Lower(session), Lower(summary))
    ensures var g := Ground(summary, stamp, session, stop); g.None? || g == Some((1.0, {}))
  {
    ContainsAt(summary, summary[stamp..], stamp);
    LowerContains(summary, summary[stamp..]);
    ContainsTransitive(Lower(session), Lower(summary), Lower(summary[stamp..]));
    VerbatimIsGrounded(summary, stamp, session, stop);
  }

  /** What is looked for is borne out by every session that uses a word exactly when it occurs in the word. */
  lemma BorneOutByWordIff(a: string, w: string)
    requires Lower(w) == w
    ensures (forall session :: Contains(Lower(session), w) ==> Contains(Lower(session), a)) <==> Contains(w, a)
  {
    if Contains(w, a) {
      forall session | Contains(Lower(session), w)
        ensures Contains(Lower(session), a)
      {
        ContainsTransitive(Lower(session), w, a);
      }
    } else {
      ContainsAt(w, w, 0);
      assert Contains(Lower(w), w);
    }
  }

  /**
   A change of form is no invention, whatever session uses the word, exactly for words of four letters
   or more: the anchor of a form is borne out wherever the word is.
   */
  lemma FormIsBorneOutIff(token: string, w: string)
    requires IsForm(token, w) && |token| >= STEM_FLOOR && Lower(w) == w
    ensures (forall session :: Contains(Lower(session), w) ==> Contains(Lower(session), Stem(token))) <==> |w| >= STEM_FLOOR
  {
    FormsKeepTheWordIff(token, w);
    BorneOutByWordIff(Stem(token), w);
    StemIsPrefix(token);
    if |w| >= STEM_FLOOR {
      ContainsAt(w, Stem(token), 0);
    }
  }

  /** Every word of the summary that counts is a form of a word of four letters or more that the session uses. */
  ghost predicate Rewords(summary: string, stamp: nat, session: string, stop: set<string>)
    requires stamp <= |summary|
  {
    forall raw :: raw in Tokens(summary[stamp..]) && IsAnchorToken(Normal(raw), stop) ==>
      exists w :: |w| >= STEM_FLOOR && IsForm(Normal(raw), w) && Contains(Lower(session), w)
  }

  /** Changing the form of words of four letters or more is no invention: fully grounded, or too short to judge. */
  lemma RewordingIsGrounded(summary: string, stamp: nat, session: string, stop: set<string>)
    requires stamp <= |summary| && Rewords(summary, stamp, session, stop)
    ensures var g := Ground(summary, stamp, session, stop); g.None? || g == Some((1.0, {}))
  {
    forall raw | raw in Tokens(summary[stamp..]) && IsAnchorToken(Normal(raw), stop)
      ensures Contains(Lower(session), Stem(Normal(raw)))
    {
      var w :| |w| >= STEM_FLOOR && IsForm(Normal(raw), w) && Contains(Lower(session), w);
      FormsKeepTheWordIff(Normal(raw), w);
      ContainsAt(w, Stem(Normal(raw)), 0);
      ContainsTransitive(Lower(session), w, Stem(Normal(raw)));
    }
    BorneOutIsGrounded(summary, stamp, session, stop);
  }

  /** A session that uses one form of such a word contains the word, and so bears out the anchor of every other. */
  lemma FormsBearEachOtherOut(session: string, used: string, token: string, w: string)
    requires |w| >= STEM_FLOOR && IsForm(used, w) && IsForm(token, w) && Contains(Lower(session), used)
    ensures Contains(Lower(session), w) && Contains(Lower(session), Stem(token))
  {
    ContainsAt(used, w, 0);
    ContainsTransitive(Lower(session), used, w);
    FormsKeepTheWordIff(token, w);
    ContainsAt(w, Stem(token), 0);
    ContainsTransitive(Lower(session), w, Stem(token));
  }

  // --------------------------------- short words, whose plurals are not borne out

  /** A word of small letters, long enough for a token. */
  predicate IsPlain(w: string) {
    |w| >= STEM_FLOOR && forall k :: 0 <= k < |w| ==> 'a' <= w[k] <= 'z'
  }

  lemma {:induction false} RunOfWord(w: string, rest: string)
    requires forall k :: 0 <= k < |w| ==> 'a' <= w[k] <= 'z'
    requires rest == "" || rest[0] == ' '
    ensures RunLength(w + rest) == |w|
  {
    if w == "" {
      assert w + rest == rest;
    } else {
      RunOfWord(w[1..], rest);
      assert (w + rest)[1..] == w[1..] + rest;
    }
  }

  lemma TokensOfWord(w: string, rest: string)
    requires IsPlain(w) && (rest == "" || rest[0] == ' ')
    ensures Tokens(w + rest) == [w] + Tokens(rest)
  {
    RunOfWord(w, rest);
    assert (w + rest)[..|w|] == w && (w + rest)[|w|..] == rest;
    assert IsLetter((w + rest)[0]);
  }

  lemma TokensAfterBlank(rest: string)
    ensures Tokens(" " + rest) == Tokens(rest)
  {
    assert (" " + rest)[1..] == rest;
  }

  lemma PlainIsNormal(w: string)
    requires IsPlain(w)
    ensures Normal(w) == w
  {
    assert StripLeft(w) == w && StripRight(w) == w;
    assert Lower(w) == w;
  }

  lemma TokensOfFour(a: string, b: string, c: string, d: string)
    requires IsPlain(a) && IsPlain(b) && IsPlain(c) && IsPlain(d)
    ensures Tokens(a + (" " + (b + (" " + (c + (" " + d)))))) == [a, b, c, d]
  {
    TokensOfWord(d, "");
    assert d + "" == d && Tokens("") == [];
    TokensAfterBlank(d);
    TokensOfWord(c, " " + d);
    TokensAfterBlank(c + (" " + d));
    TokensOfWord(b, " " + (c + (" " + d)));
    TokensAfterBlank(b + (" " + (c + (" " + d))));
    TokensOfWord(a, " " + (b + (" " + (c + (" " + d)))));
  }

  /** A summary of four four-letter words: they are its anchors as they stand. */
  lemma AnchorsOfFour(summary: string, a: string, b: string, c: string, d: string, stop: set<string>)
    requires IsPlain(a) && IsPlain(b) && IsPlain(c) && IsPlain(d) && |a| == |b| == |c| == |d| == STEM_FLOOR
    requires summary == a + (" " + (b + (" " + (c + (" " + d))))) && {a, b, c, d} !! stop
    ensures Anchors(summary, 0, stop) == {a, b, c, d}
  {
    TokensOfFour(a, b, c, d);
    assert summary[0..] == summary;
    var tokens := Tokens(summary);
    assert tokens == [a, b, c, d];
    forall w | w in tokens
      ensures Normal(w) == w && Stem(w) == w && IsAnchorToken(w, stop)
    {
      PlainIsNormal(w);
      FourLettersStay(w);
    }
    assert a in tokens && b in tokens && c in tokens && d in tokens;
  }

  lemma OccurrenceHas(session: string, a: string, i: nat, k: nat)
    requires k < |a| && Text.OccursAt(session, a, i)
    ensures a[k] in session
  {
    assert session[i + k] == session[i..i + |a|][k];
  }

  lemma LetterIsMissing(session: string, a: string, c: char)
    requires c in a && c !in session
    ensures !Contains(session, a)
  {
    var k: nat :| k < |a| && a[k] == c;
    if i: nat :| i <= |session| && Text.OccursAt(session, a, i) {
      OccurrenceHas(session, a, i, k);
    }
  }

  lemma MissingOfFour(a: string, b: string, c: string, d: string, session: string)
    requires !Contains(Lower(session), a) && !Contains(Lower(session), b)
    requires Contains(Lower(session), c) && Contains(Lower(session), d)
    ensures MissingFrom({a, b, c, d}, session) == {a, b}
  {
  }

  /** A session that has two of a summary's four words. */
  lemma HalfIsMissing(summary: string, session: string, found: set<string>, missing: set<string>, stop: set<string>)
    requires Anchors(summary, 0, stop) == found && MissingFrom(found, session) == missing
    requires |found| == 4 && |missing| == 2
    ensures Ground(summary, 0, session, stop) == Some((0.5, missing))
  {
    GroundIs(summary, 0, session, stop, found, missing);
    ShareOf(4);
  }

  lemma FourDiffer(a: string, b: string, c: string, d: string)
    requires a != b && a != c && a != d && b != c && b != d && c != d
    ensures |{a, b, c, d}| == 4 && |{a, b}| == 2
  {
    assert {a, b, c, d} == {a, b, c} + {d} && {a, b, c} == {a, b} + {c} && {a, b} == {a} + {b};
  }

  lemma SmallLettersStay(session: string)
    requires forall k :: 0 <= k < |session| ==> !('A' <= session[k] <= 'Z')
    ensures Lower(session) == session
  {
  }

  lemma PluralsOfShortWords()
    ensures IsForm("tabs", "tab") && IsForm("logs", "log")
  {
    assert "tabs" == "tab" + "s" && "logs" == "log" + "s";
  }

  lemma SingularsHaveNoS(session: string)
    requires session == "tab log pane grid"
    ensures Lower(session) == session
    ensures !Contains(session, "tabs") && !Contains(session, "logs") && Contains(session, "pane") && Contains(session, "grid")
  {
    SmallLettersStay(session);
    LetterIsMissing(session, "tabs", 's');
    LetterIsMissing(session, "logs", 's');
    ContainsAt(session, "pane", 8);
    ContainsAt(session, "grid", 13);
  }

  /** Two plurals of three-letter words are enough for an honest summary to be taken for a fabrication. */
  lemma ShortPluralsAreScoredAsInvented(summary: string, session: string, stop: set<string>)
    requires summary == "tabs" + (" " + ("logs" + (" " + ("pane" + (" " + "grid"))))) && session == "tab log pane grid"
    requires {"tabs", "logs", "pane", "grid"} !! stop
    ensures IsForm("tabs", "tab") && IsForm("logs", "log")
    ensures Ground(summary, 0, session, stop) == Some((0.5, {"tabs", "logs"})) && 0.5 < GROUNDED_THRESHOLD
  {
    AnchorsOfFour(summary, "tabs", "logs", "pane", "grid", stop);
    SingularsHaveNoS(session);
    FourDiffer("tabs", "logs", "pane", "grid");
    MissingOfFour("tabs", "logs", "pane", "grid", session);
    HalfIsMissing(summary, session, {"tabs", "logs", "pane", "grid"}, {"tabs", "logs"}, stop);
    PluralsOfShortWords();
  }

  lemma SubsetSize(a: set<string>, b: set<string>)
    requires a <= b
    ensures |a| <= |b|
    ensures |a| == |b| ==> a == b
  {
    assert b == a + (b - a);
    assert |b| == |a| + |b - a|;
  }

  lemma ShareIsOrdered(fewer: nat, more: nat, whole: nat)
    requires fewer <= more <= whole && whole > 0
    ensures 0.0 <= Share(more, whole) <= Share(fewer, whole) <= 1.0
    ensures Share(fewer, whole) == 1.0 <==> fewer == 0
  {
    var w := whole as real;
    assert more as real / w * w == more as real && fewer as real / w * w == fewer as real;
  }

  /** Enlarging the session text never lowers the ratio and never adds to what is missing. */
  lemma MoreTextGroundsMore(summary: string, stamp: nat, session: string, larger: string, stop: set<string>)
    requires stamp <= |summary| && Contains(Lower(larger), Lower(session))
    ensures var g, h := Ground(summary, stamp, session, stop), Ground(summary, stamp, larger, stop);
      && (g.None? <==> h.None?)
      && (g.Some? ==> 0.0 <= g.value.0 <= h.value.0 <= 1.0 && h.value.1 <= g.value.1)
      && (g.Some? ==> (g.value.0 == 1.0 <==> g.value.1 == {}))
  {
    var found := Anchors(summary, stamp, stop);
    var fewer, more := MissingFrom(found, larger), MissingFrom(found, session);
    forall a | a in found && Contains(Lower(session), a)
      ensures Contains(Lower(larger), a)
    {
      ContainsTransitive(Lower(larger), Lower(session), a);
    }
    SubsetSize(fewer, more);
    SubsetSize(more, found);
    if |found| >= MIN_ANCHORS {
      ShareIsOrdered(|fewer|, |more|, |found|);
      ShareIsOrdered(|more|, |more|, |found|);
    }
  }
}
