/**
 scripts/paint-diff.py: laying the buffer's ink mask of a row against the painted
 one and naming the disagreement.
 */
module PaintRows {
  import opened Options
  import Spans

  datatype Verdict = BlankRow | Missing | Ghost | Partial | Agrees

  /** One line of the verdict table. */
  datatype Row = Row(row: nat, verdict: Verdict, bufferCells: nat, paintedCells: nat,
                     missingCols: string, ghostCols: string)

  const INK_MIN_PIXELS := 2
  const PARTIAL_SHARE := 0.6
  const SHORT_ROW_CELLS := 5

  function Count(mask: string): (n: nat) {
    if mask == "" then 0 else Count(mask[..|mask| - 1]) + if mask[|mask| - 1] == '#' then 1 else 0
  }

  function PaintedMask(pixels: seq<nat>): (mask: string)
    ensures |mask| == |pixels|
    ensures forall c :: 0 <= c < |pixels| ==> mask[c] == if pixels[c] >= INK_MIN_PIXELS then '#' else '.'
  {
    seq(|pixels|, c requires 0 <= c < |pixels| => if pixels[c] >= INK_MIN_PIXELS then '#' else '.')
  }

  /** The mask with column `x` read as blank; a shorter mask grows by that one cell. */
  function WithoutCell(mask: string, x: nat): (m: string) {
    if x < |mask| then mask[..x] + "." + mask[x + 1..] else mask + "."
  }

  /** Columns where `a` has a glyph and `b` has none, as far as both masks reach. */
  function OnlyIn(a: string, b: string): (mask: string)
    ensures |mask| == if |a| <= |b| then |a| else |b|
    ensures forall c :: 0 <= c < |mask| ==> mask[c] == if a[c] == '#' && b[c] == '.' then '#' else '.'
  {
    seq(if |a| <= |b| then |a| else |b|,
        c requires 0 <= c < |a| && c < |b| => if a[c] == '#' && b[c] == '.' then '#' else '.')
  }

  function Judge(bn: nat, pn: nat, missing: nat, ghosts: nat): (v: Verdict) {
    if bn == 0 && pn == 0 then BlankRow
    else if bn > 0 && pn == 0 then Missing
    else if bn == 0 && ghosts > INK_MIN_PIXELS then Ghost
    else if bn >= SHORT_ROW_CELLS && pn as real < bn as real * PARTIAL_SHARE then Partial
    else if bn < SHORT_ROW_CELLS && missing > 2 then Partial
    else Agrees
  }

  /** One row; `cursor` is the column of the cursor when it is on this row and in the grid. */
  function Compare(r: nat, buffer: string, pixels: seq<nat>, cursor: Option<nat>): (row: Row)
    requires cursor.Some? ==> cursor.value < |pixels|
  {
    var painted := PaintedMask(pixels);
    var b := if cursor.Some? then WithoutCell(buffer, cursor.value) else buffer;
    var p := if cursor.Some? then WithoutCell(painted, cursor.value) else painted;
    var missing, extra := OnlyIn(b, p), OnlyIn(p, b);
    Row(r, Judge(Count(b), Count(p), Count(missing), Count(extra)), Count(b), Count(p),
        Spans.SpanText(missing, '#'), Spans.SpanText(extra, '#'))
  }

  function CursorOn(r: nat, cursorX: int, cursorY: int, cols: nat): (cursor: Option<nat>)
    ensures forall c: nat :: cursor == Some(c) <==> r == cursorY && c == cursorX && c < cols
  {
    if r == cursorY && 0 <= cursorX < cols then Some(cursorX) else None
  }

  function PixelRow(pixels: array2<nat>, r: nat): (row: seq<nat>)
    requires r < pixels.Length0
    reads pixels
    ensures |row| == pixels.Length1
  {
    seq(pixels.Length1, c requires 0 <= c < pixels.Length1 reads pixels => pixels[r, c])
  }

  /** The verdict loop over the rows both the grid and the masks have. */
  method CompareRows(masks: seq<string>, rows: nat, pixels: array2<nat>, cursorX: int, cursorY: int)
    returns (verdicts: seq<Row>)
    requires pixels.Length0 == if rows <= |masks| then rows else |masks|
    ensures |verdicts| == pixels.Length0
    ensures forall r :: 0 <= r < |verdicts| ==>
      verdicts[r] == Compare(r, masks[r], PixelRow(pixels, r), CursorOn(r, cursorX, cursorY, pixels.Length1))
  {
    verdicts := [];
    for r := 0 to pixels.Length0
      invariant |verdicts| == r
      invariant forall k :: 0 <= k < r ==>
        verdicts[k] == Compare(k, masks[k], PixelRow(pixels, k), CursorOn(k, cursorX, cursorY, pixels.Length1))
    {
      var b, p := masks[r], PaintedMask(PixelRow(pixels, r));
      if r == cursorY && 0 <= cursorX < pixels.Length1 {
        b, p := WithoutCell(b, cursorX), WithoutCell(p, cursorX);
      }
      var missing, extra := OnlyIn(b, p), OnlyIn(p, b);
      var missingCols := Spans.PrintSpans(missing, '#');
      var ghostCols := Spans.PrintSpans(extra, '#');
      var verdict := Judge(Count(b), Count(p), Count(missing), Count(extra));
      verdicts := verdicts + [Row(r, verdict, Count(b), Count(p), missingCols, ghostCols)];
    }
  }

  // ----------------------------------------------------------- what it says

  /** Columns where both masks have a glyph, as far as both reach. */
  function InBoth(a: string, b: string): (mask: string)
    ensures |mask| == if |a| <= |b| then |a| else |b|
    ensures forall c :: 0 <= c < |mask| ==> mask[c] == if a[c] == '#' == b[c] then '#' else '.'
  {
    seq(if |a| <= |b| then |a| else |b|,
        c requires 0 <= c < |a| && c < |b| => if a[c] == '#' == b[c] then '#' else '.')
  }

  /** Columns where `a` has a glyph and `b` neither glyph nor blank, be it that `b` ends before. */
  function Unanswered(a: string, b: string): (mask: string)
    ensures |mask| == |a|
    ensures forall c :: 0 <= c < |a| ==>
      mask[c] == if a[c] == '#' && (c >= |b| || (b[c] != '#' && b[c] != '.')) then '#' else '.'
  {
    seq(|a|, c requires 0 <= c < |a| => if a[c] == '#' && (c >= |b| || (b[c] != '#' && b[c] != '.')) then '#' else '.')
  }

  lemma CountAppend(a: string, c: char)
    ensures Count(a + [c]) == Count(a) + if c == '#' then 1 else 0
  {
    assert (a + [c])[..|a|] == a;
  }

  lemma OnlyInAppend(a: string, c: char, b: string)
    ensures Count(OnlyIn(a + [c], b)) == Count(OnlyIn(a, b)) + if |a| < |b| && c == '#' && b[|a|] == '.' then 1 else 0
  {
    if |a| < |b| {
      CountAppend(OnlyIn(a, b), if c == '#' && b[|a|] == '.' then '#' else '.');
      assert OnlyIn(a + [c], b) == OnlyIn(a, b) + [if c == '#' && b[|a|] == '.' then '#' else '.'];
    } else {
      assert OnlyIn(a + [c], b) == OnlyIn(a, b);
    }
  }

  lemma InBothAppend(a: string, c: char, b: string)
    ensures Count(InBoth(a + [c], b)) == Count(InBoth(a, b)) + if |a| < |b| && c == '#' == b[|a|] then 1 else 0
  {
    if |a| < |b| {
      CountAppend(InBoth(a, b), if c == '#' == b[|a|] then '#' else '.');
      assert InBoth(a + [c], b) == InBoth(a, b) + [if c == '#' == b[|a|] then '#' else '.'];
    } else {
      assert InBoth(a + [c], b) == InBoth(a, b);
    }
  }

  lemma UnansweredAppend(a: string, c: char, b: string)
    ensures Count(Unanswered(a + [c], b))
         == Count(Unanswered(a, b)) + if c == '#' && (|a| >= |b| || (b[|a|] != '#' && b[|a|] != '.')) then 1 else 0
  {
    var d := if c == '#' && (|a| >= |b| || (b[|a|] != '#' && b[|a|] != '.')) then '#' else '.';
    CountAppend(Unanswered(a, b), d);
    assert Unanswered(a + [c], b) == Unanswered(a, b) + [d];
  }

  /** Each glyph of `a` is answered by a glyph, by a blank, or by neither. */
  lemma {:induction false} GlyphsArePartitioned(a: string, b: string)
    ensures Count(a) == Count(InBoth(a, b)) + Count(OnlyIn(a, b)) + Count(Unanswered(a, b))
    decreases |a|
  {
    if a != "" {
      var before, c := a[..|a| - 1], a[|a| - 1];
      GlyphsArePartitioned(before, b);
      assert a == before + [c];
      InBothAppend(before, c, b);
      OnlyInAppend(before, c, b);
      UnansweredAppend(before, c, b);
    }
  }

  /** Both counts agree once the cells that only one side has, or the other does not answer, are set aside. */
  lemma CellsBalance(b: string, p: string)
    ensures Count(b) + Count(OnlyIn(p, b)) + Count(Unanswered(p, b))
         == Count(p) + Count(OnlyIn(b, p)) + Count(Unanswered(b, p))
  {
    GlyphsArePartitioned(b, p);
    GlyphsArePartitioned(p, b);
    assert InBoth(b, p) == InBoth(p, b);
  }

  lemma {:induction false} NoGlyphs(mask: string)
    ensures Count(mask) == 0 <==> '#' !in mask
    decreases |mask|
  {
    if mask != "" {
      var before, c := mask[..|mask| - 1], mask[|mask| - 1];
      NoGlyphs(before);
      assert mask == before + [c];
    }
  }

  /** Nothing goes unanswered when the other mask is made of glyphs and blanks and no shorter. */
  lemma MasksAnswer(a: string, b: string)
    requires |a| <= |b| && forall c :: c in b ==> c == '#' || c == '.'
    ensures Count(Unanswered(a, b)) == 0
  {
    var mask := Unanswered(a, b);
    forall c | 0 <= c < |mask|
      ensures mask[c] != '#'
    {
      assert b[c] in b;
    }
    NoGlyphs(mask);
  }

  /**
   What a row that agrees is allowed to hide: up to two fifths of a long row's glyphs missing,
   and beyond that only as many as there are ghosts to make up the count; and, where the buffer
   has a glyph at all, any number of ghosts. Cells that the other mask does not answer count like
   missing ones and ghosts.
   */
  lemma AgreementBounds(b: string, p: string)
    ensures var bn, missing, ghosts := Count(b), Count(OnlyIn(b, p)), Count(OnlyIn(p, b));
      Judge(bn, Count(p), missing, ghosts) == Agrees <==>
        && Count(p) > 0
        && (bn == 0 ==> ghosts <= INK_MIN_PIXELS)
        && (bn >= SHORT_ROW_CELLS ==>
          5 * (missing + Count(Unanswered(b, p))) <= 2 * bn + 5 * (ghosts + Count(Unanswered(p, b))))
        && (bn < SHORT_ROW_CELLS ==> missing <= 2)
  {
    CellsBalance(b, p);
    ShareIsThreeFifths(Count(p), Count(b));
  }

  /** A row may agree without a single glyph in its place: one glyph a column off. */
  lemma AgreementWithoutMatch()
    ensures var b, p := "#.", ".#";
      && Judge(Count(b), Count(p), Count(OnlyIn(b, p)), Count(OnlyIn(p, b))) == Agrees
      && Count(InBoth(b, p)) == 0
  {
    var b, p := "#.", ".#";
    assert b == ("" + ['#']) + ['.'] && p == ("" + ['.']) + ['#'];
    CountAppend("", '#');
    CountAppend("" + ['#'], '.');
    CountAppend("", '.');
    CountAppend("" + ['.'], '#');
    assert OnlyIn(b, p) == b && OnlyIn(p, b) == p;
    NoGlyphs(InBoth(b, p));
  }

  /** A row with a glyph, all of whose glyphs are painted, agrees whatever else is painted on it. */
  lemma GhostsAreHidden(b: string, p: string)
    requires '#' in b && forall c :: 0 <= c < |b| && b[c] == '#' ==> c < |p| && p[c] == '#'
    ensures Judge(Count(b), Count(p), Count(OnlyIn(b, p)), Count(OnlyIn(p, b))) == Agrees
  {
    NoGlyphs(b);
    NoGlyphs(OnlyIn(b, p));
    NoGlyphs(Unanswered(b, p));
    CellsBalance(b, p);
    AgreementBounds(b, p);
  }

  function Cells(n: nat, c: char): (mask: string)
    ensures |mask| == n && forall k :: 0 <= k < n ==> mask[k] == c
  {
    seq(n, k requires 0 <= k < n => c)
  }

  lemma {:induction false} CountCells(n: nat)
    ensures Count(Cells(n, '#')) == n
  {
    if n > 0 {
      CountCells(n - 1);
      CountAppend(Cells(n - 1, '#'), '#');
      assert Cells(n, '#') == Cells(n - 1, '#') + ['#'];
    }
  }

  /** One glyph of the buffer is enough to hide any number of ghosts. */
  lemma OneGlyphHidesGhosts(n: nat)
    ensures var b, p := Cells(1, '#') + Cells(n, '.'), Cells(1 + n, '#');
      && Judge(Count(b), Count(p), Count(OnlyIn(b, p)), Count(OnlyIn(p, b))) == Agrees
      && Count(b) == 1 && Count(p) == 1 + n && Count(OnlyIn(p, b)) == n
  {
    var b, p := Cells(1, '#') + Cells(n, '.'), Cells(1 + n, '#');
    assert b[0] == '#';
    GhostsAreHidden(b, p);
    CountCells(1 + n);
    CountFirst(n);
    CellsBalance(b, p);
    NoGlyphs(OnlyIn(b, p));
    NoGlyphs(Unanswered(b, p));
    NoGlyphs(Unanswered(p, b));
  }

  lemma {:induction false} CountFirst(n: nat)
    ensures Count(Cells(1, '#') + Cells(n, '.')) == 1
  {
    if n == 0 {
      CountCells(1);
      assert Cells(1, '#') + Cells(0, '.') == Cells(1, '#');
    } else {
      CountFirst(n - 1);
      CountAppend(Cells(1, '#') + Cells(n - 1, '.'), '.');
      assert Cells(1, '#') + Cells(n, '.') == (Cells(1, '#') + Cells(n - 1, '.')) + ['.'];
    }
  }

  lemma ShareIsThreeFifths(pn: nat, bn: nat)
    ensures pn as real < bn as real * PARTIAL_SHARE <==> 5 * pn < 3 * bn
  {
    assert bn as real * PARTIAL_SHARE == (3 * bn) as real / 5.0;
    assert (5 * pn) as real == 5.0 * pn as real;
  }

  /** The columns of a mask that hold a glyph. */
  function Glyphs(mask: string): (columns: set<nat>) {
    set c | 0 <= c < |mask| && mask[c] == '#'
  }

  lemma GlyphsNext(mask: string, c: char)
    ensures Glyphs(mask + [c]) == Glyphs(mask) + if c == '#' then {|mask|} else {}
  {
    var all := mask + [c];
    assert all[|mask|] == c && forall k :: 0 <= k < |mask| ==> all[k] == mask[k];
  }

  lemma {:induction false} CountIsGlyphs(mask: string)
    ensures Count(mask) == |Glyphs(mask)|
    decreases |mask|
  {
    if mask != "" {
      var before, c := mask[..|mask| - 1], mask[|mask| - 1];
      CountIsGlyphs(before);
      assert mask == before + [c];
      GlyphsNext(before, c);
    }
  }

  /** The buffer's glyph columns, the painted ones, and those only one side has, the cursor's cell aside. */
  function BufferColumns(buffer: string, cursor: Option<nat>): (columns: set<nat>) {
    set c: nat | c < |buffer| && buffer[c] == '#' && cursor != Some(c)
  }

  function PaintedColumns(pixels: seq<nat>, cursor: Option<nat>): (columns: set<nat>) {
    set c: nat | c < |pixels| && pixels[c] >= 2 && cursor != Some(c)
  }

  function MissingColumns(buffer: string, pixels: seq<nat>, cursor: Option<nat>): (columns: set<nat>) {
    set c: nat | c < |buffer| && c < |pixels| && buffer[c] == '#' && pixels[c] < 2 && cursor != Some(c)
  }

  /** Blank in the buffer; a cursor beyond the buffer's end has one blank appended to it. */
  predicate IsBlank(buffer: string, cursor: Option<nat>, c: nat) {
    if c < |buffer| then buffer[c] == '.' else cursor.Some? && cursor.value >= |buffer| && c == |buffer|
  }

  function GhostColumns(buffer: string, pixels: seq<nat>, cursor: Option<nat>): (columns: set<nat>) {
    set c: nat | c < |pixels| && IsBlank(buffer, cursor, c) && pixels[c] >= 2 && cursor != Some(c)
  }

  lemma VerdictsAre(bn: nat, pn: nat, missing: nat, ghosts: nat)
    requires (ghosts > 0 ==> pn > 0) && (missing > 0 ==> bn > 0)
    ensures var v := Judge(bn, pn, missing, ghosts);
      && (v == BlankRow <==> bn == 0 && pn == 0)
      && (v == Missing <==> bn > 0 && pn == 0)
      && (v == Ghost <==> bn == 0 && ghosts > 2)
      && (v == Partial <==> bn > 0 && pn > 0 && if bn >= 5 then 5 * pn < 3 * bn else missing > 2)
  {
    ShareIsThreeFifths(pn, bn);
  }

  /** The mask without the cursor's column, in which no glyph is. */
  lemma GlyphsWithout(mask: string, x: nat)
    ensures Glyphs(WithoutCell(mask, x)) == Glyphs(mask) - {x}
  {
    var m := WithoutCell(mask, x);
    assert forall c :: 0 <= c < |mask| ==> m[c] == if c == x then '.' else mask[c];
    assert forall c :: |mask| <= c < |m| ==> m[c] == '.';
  }

  lemma SidesAre(buffer: string, pixels: seq<nat>, cursor: Option<nat>, b: string, p: string)
    requires cursor.Some? ==> cursor.value < |pixels|
    requires b == if cursor.Some? then WithoutCell(buffer, cursor.value) else buffer
    requires p == if cursor.Some? then WithoutCell(PaintedMask(pixels), cursor.value) else PaintedMask(pixels)
    ensures Glyphs(b) == BufferColumns(buffer, cursor) && Glyphs(p) == PaintedColumns(pixels, cursor)
  {
    if cursor.Some? {
      GlyphsWithout(buffer, cursor.value);
      GlyphsWithout(PaintedMask(pixels), cursor.value);
    }
  }

  lemma GlyphsOnlyIn(a: string, b: string)
    ensures Glyphs(OnlyIn(a, b)) == set c: nat | c < |a| && c < |b| && a[c] == '#' && b[c] == '.'
  {
  }

  /** Either side as it is compared, column by column. */
  lemma ComparedSides(buffer: string, pixels: seq<nat>, cursor: Option<nat>, b: string, p: string, c: nat)
    requires cursor.Some? ==> cursor.value < |pixels|
    requires b == if cursor.Some? then WithoutCell(buffer, cursor.value) else buffer
    requires p == if cursor.Some? then WithoutCell(PaintedMask(pixels), cursor.value) else PaintedMask(pixels)
    ensures c < |p| && p[c] == '#' <==> c < |pixels| && pixels[c] >= 2 && cursor != Some(c)
    ensures c < |p| && p[c] == '.' <==> c < |pixels| && (pixels[c] < 2 || cursor == Some(c))
    ensures c < |b| && b[c] == '#' <==> c < |buffer| && buffer[c] == '#' && cursor != Some(c)
    ensures c < |b| && b[c] == '.' && cursor != Some(c) <==> IsBlank(buffer, cursor, c) && cursor != Some(c)
  {
  }

  lemma DifferencesAre(buffer: string, pixels: seq<nat>, cursor: Option<nat>, b: string, p: string)
    requires cursor.Some? ==> cursor.value < |pixels|
    requires b == if cursor.Some? then WithoutCell(buffer, cursor.value) else buffer
    requires p == if cursor.Some? then WithoutCell(PaintedMask(pixels), cursor.value) else PaintedMask(pixels)
    ensures Glyphs(OnlyIn(b, p)) == MissingColumns(buffer, pixels, cursor)
    ensures Glyphs(OnlyIn(p, b)) == GhostColumns(buffer, pixels, cursor)
  {
    GlyphsOnlyIn(b, p);
    GlyphsOnlyIn(p, b);
    forall c: nat
      ensures c in Glyphs(OnlyIn(b, p)) <==> c in MissingColumns(buffer, pixels, cursor)
      ensures c in Glyphs(OnlyIn(p, b)) <==> c in GhostColumns(buffer, pixels, cursor)
    {
      ComparedSides(buffer, pixels, cursor, b, p, c);
    }
  }

  /** The whole row by the two captures alone: how many columns each side holds, and which verdict that makes. */
  lemma RowIs(r: nat, buffer: string, pixels: seq<nat>, cursor: Option<nat>)
    requires cursor.Some? ==> cursor.value < |pixels|
    ensures var row := Compare(r, buffer, pixels, cursor);
      var bn, pn := |BufferColumns(buffer, cursor)|, |PaintedColumns(pixels, cursor)|;
      var missing, ghosts := |MissingColumns(buffer, pixels, cursor)|, |GhostColumns(buffer, pixels, cursor)|;
      && row.row == r && row.bufferCells == bn && row.paintedCells == pn
      && (row.verdict == BlankRow <==> bn == 0 && pn == 0)
      && (row.verdict == Missing <==> bn > 0 && pn == 0)
      && (row.verdict == Ghost <==> bn == 0 && ghosts > 2)
      && (row.verdict == Partial <==> bn > 0 && pn > 0 && if bn >= 5 then 5 * pn < 3 * bn else missing > 2)
  {
    var b := if cursor.Some? then WithoutCell(buffer, cursor.value) else buffer;
    var p := if cursor.Some? then WithoutCell(PaintedMask(pixels), cursor.value) else PaintedMask(pixels);
    SidesAre(buffer, pixels, cursor, b, p);
    DifferencesAre(buffer, pixels, cursor, b, p);
    CountIsGlyphs(b);
    CountIsGlyphs(p);
    CountIsGlyphs(OnlyIn(b, p));
    CountIsGlyphs(OnlyIn(p, b));
    DifferencesAreGlyphs(buffer, pixels, cursor);
    VerdictsAre(Count(b), Count(p), Count(OnlyIn(b, p)), Count(OnlyIn(p, b)));
  }

  lemma DifferencesAreGlyphs(buffer: string, pixels: seq<nat>, cursor: Option<nat>)
    ensures |GhostColumns(buffer, pixels, cursor)| > 0 ==> |PaintedColumns(pixels, cursor)| > 0
    ensures |MissingColumns(buffer, pixels, cursor)| > 0 ==> |BufferColumns(buffer, cursor)| > 0
  {
    if c :| c in MissingColumns(buffer, pixels, cursor) {
      assert c in BufferColumns(buffer, cursor);
    }
    if c :| c in GhostColumns(buffer, pixels, cursor) {
      assert c in PaintedColumns(pixels, cursor);
    }
  }

  lemma WithoutCellForgets(m: string, m': string, x: nat)
    requires |m| == |m'| && forall c :: 0 <= c < |m| && c != x ==> m[c] == m'[c]
    ensures WithoutCell(m, x) == WithoutCell(m', x)
  {
    if x < |m| {
      assert m[..x] == m'[..x] && m[x + 1..] == m'[x + 1..];
    }
  }

  /** The cursor's cell has no say: neither its glyph nor its pixels can change the row. */
  lemma CursorCellIsIgnored(r: nat, buffer: string, buffer': string, pixels: seq<nat>, pixels': seq<nat>, x: nat)
    requires x < |pixels| == |pixels'| && |buffer| == |buffer'|
    requires forall c :: 0 <= c < |buffer| && c != x ==> buffer[c] == buffer'[c]
    requires forall c :: 0 <= c < |pixels| && c != x ==> pixels[c] == pixels'[c]
    ensures Compare(r, buffer, pixels, Some(x)) == Compare(r, buffer', pixels', Some(x))
  {
    WithoutCellForgets(buffer, buffer', x);
    WithoutCellForgets(PaintedMask(pixels), PaintedMask(pixels'), x);
  }

  /**
   The printed columns, read back, are exactly the glyphs of the buffer that were not painted and
   the painted cells the buffer holds blank, as far as both rows reach; the cursor's is neither.
   */
  lemma ColumnsAreExact(r: nat, buffer: string, pixels: seq<nat>, cursor: Option<nat>)
    requires cursor.Some? ==> cursor.value < |pixels|
    ensures var row := Compare(r, buffer, pixels, cursor);
      var missing, extra := Spans.ParseSpans(row.missingCols), Spans.ParseSpans(row.ghostCols);
      && missing.Some? && extra.Some? && Spans.Separated(missing.value) && Spans.Separated(extra.value)
      && forall c :: 0 <= c < |buffer| && c < |pixels| ==>
        && (Spans.Holds(missing.value, c) <==> cursor != Some(c) && buffer[c] == '#' && pixels[c] < INK_MIN_PIXELS)
        && (Spans.Holds(extra.value, c) <==> cursor != Some(c) && buffer[c] == '.' && pixels[c] >= INK_MIN_PIXELS)
  {
    var painted := PaintedMask(pixels);
    var b := if cursor.Some? then WithoutCell(buffer, cursor.value) else buffer;
    var p := if cursor.Some? then WithoutCell(painted, cursor.value) else painted;
    SpansOfDifference(b, p);
    SpansOfDifference(p, b);
    forall c: nat | c < |buffer| && c < |pixels|
      ensures b[c] == '#' && p[c] == '.' <==> cursor != Some(c) && buffer[c] == '#' && pixels[c] < INK_MIN_PIXELS
      ensures p[c] == '#' && b[c] == '.' <==> cursor != Some(c) && buffer[c] == '.' && pixels[c] >= INK_MIN_PIXELS
    {
      ComparedSides(buffer, pixels, cursor, b, p, c);
    }
  }

  lemma SpansOfDifference(a: string, b: string)
    ensures var runs := Spans.ParseSpans(Spans.SpanText(OnlyIn(a, b), '#'));
      && runs.Some? && Spans.Separated(runs.value)
      && forall c :: 0 <= c < |a| && c < |b| ==> (Spans.Holds(runs.value, c) <==> a[c] == '#' && b[c] == '.')
  {
    var mask := OnlyIn(a, b);
    Spans.SpansRoundTrip(mask, '#');
    Spans.RunsAreExact(mask, '#');
    assert forall c :: 0 <= c < |mask| ==> (mask[c] == '#' <==> a[c] == '#' && b[c] == '.');
  }
}
