// The shell window: incremental repaint of a paged text buffer, boot-loader/core/gui/gui-app.c.

module GuiApp {
  import opened Bits
  import opened Wrappers

  /** Bytes of a C string, as signed chars. */
  type Char = c: int | -128 <= c < 128 && c != 0 witness 1

  const NEWLINE: int := 10
  const BLANK: int := 0x20

  // ---------------------------------------------------------------- cell numbers

  /** line * cols + column */
  function At(l: nat, c: nat, cols: nat): (p: nat)
    ensures p >= c
  {
    if l == 0 then c else cols + At(l - 1, c, cols)
  }

  lemma {:induction false} AtIsProduct(l: nat, c: nat, cols: nat)
    ensures At(l, c, cols) == l * cols + c
  {
    if l > 0 {
      AtIsProduct(l - 1, c, cols);
      assert l * cols == (l - 1) * cols + cols;
    }
  }

  lemma {:induction false} AtOrder(l: nat, c: nat, l1: nat, c1: nat, cols: nat)
    requires c < cols && c1 < cols
    ensures At(l, c, cols) < At(l1, c1, cols) <==> l < l1 || (l == l1 && c < c1)
    ensures At(l, c, cols) == At(l1, c1, cols) <==> l == l1 && c == c1
    decreases l
  {
    if l > 0 && l1 > 0 {
      AtOrder(l - 1, c, l1 - 1, c1, cols);
    }
  }

  lemma {:induction false} AtNext(l: nat, c: nat, cols: nat)
    ensures At(l, c + 1, cols) == At(l, c, cols) + 1
    ensures At(l, cols, cols) == At(l + 1, 0, cols)
  {
    if l > 0 {
      AtNext(l - 1, c, cols);
    }
  }

  /** Where the blitter finds line and column again. */
  lemma {:induction false} AtDivided(l: nat, c: nat, cols: nat)
    requires c < cols
    ensures At(l, c, cols) / cols == l && At(l, c, cols) % cols == c
  {
    AtIsProduct(l, c, cols);
    var p := l * cols + c;
    ModUnique(p, cols, l, c);
    assert p == p / cols * cols + p % cols;
    assert (p / cols - l) * cols == 0;
  }

  // ---------------------------------------------------------------- text

  type Lines = seq<seq<Char>>

  /** What a page holds and whether pages were swapped since the last flush. */
  datatype Text = Text(lines: Lines, scrolled: bool)

  /** One character. A character that would come into the last column is dropped for the line
      break it causes. */
  function Put(t: Text, ch: Char, rows: nat, cols: nat): (r: Text)
    requires t.lines != []
    ensures r.lines != []
  {
    var n := |t.lines| - 1;
    if |t.lines[n]| + 1 < cols && ch != NEWLINE then Text(t.lines[n := t.lines[n] + [ch]], t.scrolled)
    else if n + 1 == rows then Text([[]], true)
    else Text(t.lines + [[]], t.scrolled)
  }

  function PutAll(t: Text, s: seq<Char>, rows: nat, cols: nat): (r: Text)
    requires t.lines != []
    ensures r.lines != []
  {
    if s == [] then t else Put(PutAll(t, s[..|s| - 1], rows, cols), s[|s| - 1], rows, cols)
  }

  /** Printing two strings is printing their concatenation. */
  lemma {:induction false} PutAllConcat(t: Text, a: seq<Char>, b: seq<Char>, rows: nat, cols: nat)
    requires t.lines != []
    ensures PutAll(t, a + b, rows, cols) == PutAll(PutAll(t, a, rows, cols), b, rows, cols)
    decreases |b|
  {
    if b == [] {
      assert a + b == a;
    } else {
      assert (a + b)[..|a + b| - 1] == a + b[..|b| - 1];
      PutAllConcat(t, a, b[..|b| - 1], rows, cols);
    }
  }

  /** The cursor stays inside the window, and the last column is never used. */
  ghost predicate Fits(lines: Lines, rows: nat, cols: nat) {
    && 0 < |lines| <= rows
    && forall l :: 0 <= l < |lines| ==> |lines[l]| < cols && forall c :: 0 <= c < |lines[l]| ==> lines[l][c] != NEWLINE
  }

  lemma {:induction false} PutAllFits(t: Text, s: seq<Char>, rows: nat, cols: nat)
    requires Fits(t.lines, rows, cols)
    ensures Fits(PutAll(t, s, rows, cols).lines, rows, cols)
  {
    if s != [] {
      PutAllFits(t, s[..|s| - 1], rows, cols);
    }
  }

  /** The character at a cell, 0 where nothing was printed. */
  function CellOf(lines: Lines, l: nat, c: nat): int {
    if l < |lines| && c < |lines[l]| then lines[l][c] else 0
  }

  /** What a cell looks like: only characters from 0x20 up have a glyph. */
  function Shown(ch: int): int {
    if ch < 0x20 then BLANK else ch
  }

  // ---------------------------------------------------------------- pages

  class Page {
    const vector: array<int>
    var line: nat
    var column: nat
    var updatedLine: nat
    var updatedColumn: nat
    ghost var lines: Lines

    ghost predicate Valid(rows: nat, cols: nat)
      reads this, vector
    {
      && Fits(lines, rows, cols) && vector.Length == At(rows + 1, 0, cols)
      && line == |lines| - 1 && column == |lines[line]|
      && updatedColumn < cols && (updatedLine < line || (updatedLine == line && updatedColumn <= column))
      && HoldsLines(rows, cols)
    }

    ghost predicate HoldsLines(rows: nat, cols: nat)
      reads this, vector
    {
      forall l: nat, c: nat :: l < rows && c < cols ==>
        At(l, c, cols) < vector.Length && vector[At(l, c, cols)] == CellOf(lines, l, c)
    }

    /** bl_bitmap_init_page_vector; the allocated bytes are arbitrary. */
    constructor (rows: nat, cols: nat)
      requires rows > 0 && cols > 0
      ensures Valid(rows, cols) && lines == [[]] && updatedLine == updatedColumn == 0 && fresh(vector)
    {
      vector := new int[At(rows + 1, 0, cols)];
      new;
      Reset(rows, cols);
    }

    /** bl_bitmap_reset_page_vector; bl_memset leaves the last byte as it is. */
    method Reset(rows: nat, cols: nat)
      requires rows > 0 && cols > 0 && vector.Length == At(rows + 1, 0, cols)
      modifies this, vector
      ensures Valid(rows, cols) && lines == [[]] && updatedLine == updatedColumn == 0
    {
      var left := vector.Length - 1;
      for i := 0 to left
        invariant forall k :: 0 <= k < i ==> vector[k] == 0
      {
        vector[i] := 0;
      }
      updatedLine, updatedColumn := 0, 0;
      line, column := 0, 0;
      lines := [[]];
      forall l: nat, c: nat | l < rows && c < cols
        ensures At(l, c, cols) < vector.Length - 1
      {
        AtOrder(l, c, rows, 0, cols);
        AtNext(rows, 0, cols);
      }
    }

    /** A character goes to the cursor. */
    method Write(ch: Char, rows: nat, cols: nat)
      requires Valid(rows, cols) && column + 1 < cols && ch != NEWLINE
      modifies this`column, this`lines, vector
      ensures Valid(rows, cols)
      ensures lines == old(lines)[line := old(lines)[line] + [ch]]
    {
      ghost var was := lines;
      forall l: nat, c: nat | l < rows && c < cols
        ensures At(l, c, cols) == At(line, column, cols) <==> l == line && c == column
      {
        AtOrder(l, c, line, column, cols);
      }
      AtIsProduct(line, column, cols);
      vector[line * cols + column] := ch;
      column := column + 1;
      lines := lines[line := lines[line] + [ch]];
    }
  }

  // ---------------------------------------------------------------- what is on the screen

  ghost predicate Earlier(l: nat, c: nat, l1: nat, c1: nat) {
    l < l1 || (l == l1 && c < c1)
  }

  /** What a cell shows when the screen is up to date before position (l1, c1) and blank from
      there on. */
  ghost function Expected(lines: Lines, l: nat, c: nat, l1: nat, c1: nat): int {
    if Earlier(l, c, l1, c1) then Shown(CellOf(lines, l, c)) else BLANK
  }

  ghost predicate Seen(screen: array2<int>, lines: Lines, l1: nat, c1: nat)
    reads screen
  {
    forall l: nat, c: nat :: l < screen.Length0 && c < screen.Length1 ==>
      screen[l, c] == Expected(lines, l, c, l1, c1)
  }

  /** The whole window shows the whole page. */
  ghost predicate ShowsPage(screen: array2<int>, lines: Lines)
    reads screen
  {
    forall l: nat, c: nat :: l < screen.Length0 && c < screen.Length1 ==> screen[l, c] == Shown(CellOf(lines, l, c))
  }

  /** Behind the end of a line nothing is to be seen, so the repaint may go on with the next. */
  lemma {:induction false} SkipLine(screen: array2<int>, lines: Lines, l: nat, c: nat)
    requires Seen(screen, lines, l, c) && CellOf(lines, l, c) == 0
    ensures Seen(screen, lines, l + 1, 0)
  {
    forall l2: nat, c2: nat | l2 < screen.Length0 && c2 < screen.Length1
      ensures Expected(lines, l2, c2, l + 1, 0) == Expected(lines, l2, c2, l, c)
    {
    }
  }

  /** At the end of the text the window shows everything, however far the repaint went. */
  lemma {:induction false} SeenToTheEnd(screen: array2<int>, lines: Lines, l: nat, c: nat)
    requires lines != [] && Seen(screen, lines, l, c)
    requires !Earlier(l, c, |lines| - 1, |lines[|lines| - 1]|)
    ensures ShowsPage(screen, lines)
    ensures Seen(screen, lines, |lines| - 1, |lines[|lines| - 1]|)
  {
    var l1, c1 := |lines| - 1, |lines[|lines| - 1]|;
    forall l2: nat, c2: nat | l2 < screen.Length0 && c2 < screen.Length1
      ensures Expected(lines, l2, c2, l, c) == Shown(CellOf(lines, l2, c2)) == Expected(lines, l2, c2, l1, c1)
    {
    }
  }

  /** Lines that agree before a position are seen alike before it. */
  lemma {:induction false} SeenKept(screen: array2<int>, a: Lines, b: Lines, l1: nat, c1: nat)
    requires Seen(screen, a, l1, c1)
    requires forall l: nat, c: nat :: Earlier(l, c, l1, c1) ==> CellOf(a, l, c) == CellOf(b, l, c)
    ensures Seen(screen, b, l1, c1)
  {
    forall l: nat, c: nat | l < screen.Length0 && c < screen.Length1
      ensures Expected(b, l, c, l1, c1) == Expected(a, l, c, l1, c1)
    {
    }
  }

  // ---------------------------------------------------------------- what was blitted

  /** A glyph sent to the frame buffer for a cell of the window. */
  datatype Blit = Blit(ch: int, line: nat, column: nat)

  /** The last glyph sent for a cell. */
  ghost function LastBlit(blits: seq<Blit>, l: nat, c: nat): Option<int> {
    if blits == [] then None
    else
      var b := blits[|blits| - 1];
      if b.line == l && b.column == c then Some(b.ch) else LastBlit(blits[..|blits| - 1], l, c)
  }

  /** Only glyphs of cells of the window were sent, and the screen is what they make of it. */
  ghost predicate Traced(screen: array2<int>, blits: seq<Blit>)
    reads screen
  {
    && (forall i :: 0 <= i < |blits| ==>
          blits[i].ch >= 0x20 && blits[i].line < screen.Length0 && blits[i].column < screen.Length1)
    && forall l: nat, c: nat :: l < screen.Length0 && c < screen.Length1 ==>
         screen[l, c] == match LastBlit(blits, l, c) case None => BLANK case Some(ch) => ch
  }

  lemma {:induction false} LastOfMore(blits: seq<Blit>, b: Blit, l: nat, c: nat)
    ensures LastBlit(blits + [b], l, c) == if b.line == l && b.column == c then Some(b.ch) else LastBlit(blits, l, c)
  {
    assert (blits + [b])[..|blits|] == blits;
  }

  // ---------------------------------------------------------------- the window

  class Gui {
    const rows: nat
    const cols: nat
    const page0: Page
    const page1: Page
    const screen: array2<int>
    var blits: seq<Blit>
    var active: bool
    var shouldScroll: bool

    /** A window over an empty screen. */
    constructor (screen: array2<int>)
      requires screen.Length0 > 0 && screen.Length1 > 0
      requires forall l, c :: 0 <= l < screen.Length0 && 0 <= c < screen.Length1 ==> screen[l, c] == BLANK
      ensures Valid() && this.screen == screen && TextNow() == Text([[]], false) && blits == []
      ensures fresh(page0) && fresh(page1) && fresh(page0.vector) && fresh(page1.vector)
    {
      rows, cols, this.screen := screen.Length0, screen.Length1, screen;
      active, shouldScroll, blits := false, false, [];
      page0 := new Page(screen.Length0, screen.Length1);
      page1 := new Page(screen.Length0, screen.Length1);
    }

    function ActivePage(): Page
      reads this
    {
      if active then page1 else page0
    }

    ghost function TextNow(): Text
      reads this, page0, page1
    {
      Text(ActivePage().lines, shouldScroll)
    }

    ghost predicate Shape()
      reads this, page0, page1
    {
      && rows > 0 && cols > 0 && page0 != page1 && page0.vector != page1.vector
      && screen.Length0 == rows && screen.Length1 == cols
      && page0.vector.Length == page1.vector.Length == At(rows + 1, 0, cols)
    }

    ghost predicate Valid()
      reads this, page0, page1, page0.vector, page1.vector, screen
    {
      && Shape() && Traced(screen, blits)
      && var page := ActivePage();
      && page.Valid(rows, cols)
      && screen[rows - 1, cols - 1] == BLANK
      && (if shouldScroll then page.updatedLine == page.updatedColumn == 0
          else Seen(screen, page.lines, page.updatedLine, page.updatedColumn))
    }

    /** bl_gui_app_swap_pages */
    method SwapPages()
      requires Shape()
      modifies this`active, page0, page1, page0.vector, page1.vector
      ensures active == !old(active) && Shape()
      ensures ActivePage().Valid(rows, cols) && ActivePage().lines == [[]]
      ensures ActivePage().updatedLine == ActivePage().updatedColumn == 0
      ensures active ==> page1.Valid(rows, cols) && page1.lines == [[]] && unchanged(page0) && unchanged(page0.vector)
      ensures !active ==> page0.Valid(rows, cols) && page0.lines == [[]] && unchanged(page1) && unchanged(page1.vector)
    {
      active := !active;
      ActivePage().Reset(rows, cols);
    }

    /** A newline, or the character that would come into the last column. */
    method NextLine()
      requires Valid()
      modifies this`active, this`shouldScroll, page0, page1, page0.vector, page1.vector
      ensures Valid()
      ensures var t := old(TextNow());
        TextNow() == if |t.lines| == rows then Text([[]], true) else Text(t.lines + [[]], t.scrolled)
    {
      var page := ActivePage();
      ghost var was := page.lines;
      page.line := page.line + 1;
      page.column := 0;
      if page.line == rows {
        shouldScroll := true;
        SwapPages();
      } else {
        page.lines := page.lines + [[]];
        if !shouldScroll {
          SeenKept(screen, was, page.lines, page.updatedLine, page.updatedColumn);
        }
      }
    }

    /** One character of bl_gui_app_update_pages. */
    method PutChar(ch: Char)
      requires Valid()
      modifies this`active, this`shouldScroll, page0, page1, page0.vector, page1.vector
      ensures Valid() && TextNow() == Put(old(TextNow()), ch, rows, cols)
    {
      var page := ActivePage();
      ghost var was := page.lines;
      if page.column + 1 < cols && ch != NEWLINE {
        page.Write(ch, rows, cols);
        if !shouldScroll {
          SeenKept(screen, was, page.lines, page.updatedLine, page.updatedColumn);
        }
      } else {
        NextLine();
      }
    }

    /** bl_gui_app_update_pages */
    method UpdatePages(s: seq<Char>)
      requires Valid()
      modifies this`active, this`shouldScroll, page0, page1, page0.vector, page1.vector
      ensures Valid() && TextNow() == PutAll(old(TextNow()), s, rows, cols)
    {
      assert s[..|s|] == s;
      for i := 0 to |s|
        invariant Valid() && TextNow() == PutAll(old(TextNow()), s[..i], rows, cols)
      {
        assert s[..i + 1][..i] == s[..i];
        PutChar(s[i]);
      }
    }

    /** A glyph into a cell of the window; control characters have none. */
    method BlitGlyph(ch: int, column: nat, line: nat)
      requires line < screen.Length0 && column < screen.Length1 && Traced(screen, blits)
      modifies screen, this`blits
      ensures Traced(screen, blits) && old(blits) <= blits
      ensures forall l, c :: 0 <= l < screen.Length0 && 0 <= c < screen.Length1 ==>
        screen[l, c] == if l == line && c == column && ch >= 0x20 then ch else old(screen[l, c])
    {
      if ch >= 0x20 {
        screen[line, column] := ch;
        forall l: nat, c: nat | l < screen.Length0 && c < screen.Length1
          ensures LastBlit(blits + [Blit(ch, line, column)], l, c) ==
                  if line == l && column == c then Some(ch) else LastBlit(blits, l, c)
        {
          LastOfMore(blits, Blit(ch, line, column), l, c);
        }
        blits := blits + [Blit(ch, line, column)];
      }
    }

    /** bl_gui_app_clean_shell_screen; it leaves out the very last cell. */
    method CleanScreen()
      requires Shape() && screen[rows - 1, cols - 1] == BLANK && Traced(screen, blits)
      modifies screen, this`blits
      ensures Traced(screen, blits) && old(blits) <= blits
      ensures forall l, c :: 0 <= l < rows && 0 <= c < cols ==> screen[l, c] == BLANK
    {
      AtIsProduct(rows - 1, cols - 1, cols);
      var pos, end: nat := 0, (rows - 1) * cols + (cols - 1);
      ghost var line: nat, column: nat := 0, 0;
      while pos < end
        invariant line < rows && column < cols && pos == At(line, column, cols) <= end == At(rows - 1, cols - 1, cols)
        invariant forall l: nat, c: nat :: l < rows && c < cols && Earlier(l, c, line, column) ==> screen[l, c] == BLANK
        invariant screen[rows - 1, cols - 1] == BLANK && Traced(screen, blits) && old(blits) <= blits
      {
        AtDivided(line, column, cols);
        BlitGlyph(BLANK, pos % cols, pos / cols);
        pos := pos + 1;
        AtNext(line, column, cols);
        AtOrder(line, column, rows - 1, cols - 1, cols);
        if column + 1 < cols {
          column := column + 1;
        } else {
          line, column := line + 1, 0;
        }
      }
      AtOrder(line, column, rows - 1, cols - 1, cols);
    }

    /** One cell of the repaint. */
    method PaintCell(page: Page, pos: nat, ghost line: nat, ghost column: nat)
      returns (ghost line1: nat, ghost column1: nat)
      requires Shape() && page.Valid(rows, cols) && pos == At(line, column, cols)
      requires line < rows && column < cols && Seen(screen, page.lines, line, column) && Traced(screen, blits)
      modifies screen, this`blits
      ensures Traced(screen, blits) && old(blits) <= blits
      ensures column1 < cols && At(line1, column1, cols) == pos + 1 && Seen(screen, page.lines, line1, column1)
    {
      AtDivided(line, column, cols);
      BlitGlyph(page.vector[pos], pos % cols, pos / cols);
      StepSeen(page.lines, line, column, cols);
      AtNext(line, column, cols);
      line1, column1 := if column + 1 < cols then line else line + 1, if column + 1 < cols then column + 1 else 0;
    }

    /** The repaint loop of bl_gui_app_flush_page_buffers. */
    method Repaint(page: Page)
      requires Shape() && page.Valid(rows, cols)
      requires Seen(screen, page.lines, page.updatedLine, page.updatedColumn) && Traced(screen, blits)
      modifies screen, this`blits
      ensures Traced(screen, blits) && old(blits) <= blits
      ensures ShowsPage(screen, page.lines) && Seen(screen, page.lines, page.line, page.column)
    {
      AtIsProduct(page.updatedLine, page.updatedColumn, cols);
      AtIsProduct(page.line, page.column, cols);
      var pos, end: nat := page.updatedLine * cols + page.updatedColumn, page.line * cols + page.column;
      ghost var line: nat, column: nat := page.updatedLine, page.updatedColumn;
      while pos < end
        invariant column < cols && pos == At(line, column, cols) && end == At(page.line, page.column, cols)
        invariant Seen(screen, page.lines, line, column) && Traced(screen, blits) && old(blits) <= blits
        decreases end - pos
      {
        AtOrder(line, column, page.line, page.column, cols);
        line, column := PaintCell(page, pos, line, column);
        pos := pos + 1;
        AtOrder(line, column, page.line, page.column, cols);
        if page.vector[pos] == 0 {
          AtDivided(line, column, cols);
          RestOfLine(line, column, cols);
          pos := pos + (cols - pos % cols);
          SkipLine(screen, page.lines, line, column);
          line, column := line + 1, 0;
        }
      }
      AtOrder(line, column, page.line, page.column, cols);
      SeenToTheEnd(screen, page.lines, line, column);
    }

    /** bl_gui_app_flush_page_buffers */
    method Flush()
      requires Valid()
      modifies this`shouldScroll, this`blits, page0, page1, screen
      ensures old(blits) <= blits && Valid() && TextNow() == Text(old(TextNow()).lines, false)
      ensures ShowsPage(screen, ActivePage().lines) && active == old(active)
    {
      var page := ActivePage();
      if shouldScroll {
        shouldScroll := false;
        CleanScreen();
      }
      Repaint(page);
      page.updatedLine, page.updatedColumn := page.line, page.column;
    }

    /** bl_gui_app_print_str up to the update of the display: afterwards the window is a full
        rendering of the active page, blank where it holds no character or one without a glyph. */
    method Print(s: seq<Char>)
      requires Valid()
      modifies this`active, this`shouldScroll, this`blits, page0, page1, page0.vector, page1.vector, screen
      ensures old(blits) <= blits && Valid() && TextNow() == Text(PutAll(old(TextNow()), s, rows, cols).lines, false)
      ensures var lines := if active then page1.lines else page0.lines;
        forall l: nat, c: nat :: l < screen.Length0 && c < screen.Length1 ==>
          screen[l, c] == if l < |lines| && c < |lines[l]| && lines[l][c] >= 0x20 then lines[l][c] else 0x20
    {
      UpdatePages(s);
      Flush();
    }
  }

  lemma {:induction false} StepSeen(lines: Lines, line: nat, column: nat, cols: nat)
    requires column < cols
    ensures forall l: nat, c: nat :: c < cols ==>
      Expected(lines, l, c, if column + 1 < cols then line else line + 1,
               if column + 1 < cols then column + 1 else 0) ==
      if l == line && c == column then Shown(CellOf(lines, l, c)) else Expected(lines, l, c, line, column)
  {
  }

  lemma {:induction false} RestOfLine(l: nat, c: nat, cols: nat)
    requires c < cols
    ensures At(l, c, cols) + (cols - c) == At(l + 1, 0, cols)
  {
    if l > 0 {
      RestOfLine(l - 1, c, cols);
    }
  }

  // ---------------------------------------------------------------- runs

  lemma {:induction false} ScrolledIsIrrelevant(a: Text, b: Text, s: seq<Char>, rows: nat, cols: nat)
    requires a.lines != [] && a.lines == b.lines
    ensures PutAll(a, s, rows, cols).lines == PutAll(b, s, rows, cols).lines
  {
    if s != [] {
      ScrolledIsIrrelevant(a, b, s[..|s| - 1], rows, cols);
    }
  }

  /** The page after a run of prints. */
  ghost function PrintAll(lines: Lines, strings: seq<seq<Char>>, rows: nat, cols: nat): (r: Lines)
    requires lines != []
    ensures r != []
  {
    if strings == [] then lines
    else
      var n := |strings| - 1;
      PutAll(Text(PrintAll(lines, strings[..n], rows, cols), false), strings[n], rows, cols).lines
  }

  function Concat(strings: seq<seq<Char>>): seq<Char> {
    if strings == [] then [] else Concat(strings[..|strings| - 1]) + strings[|strings| - 1]
  }

  /** However a text is cut into prints, and so into repaints, the page in the end is the one
      that printing it at once gives, and the cursor is inside the window. */
  lemma {:induction false} PrintRun(lines: Lines, strings: seq<seq<Char>>, rows: nat, cols: nat)
    requires Fits(lines, rows, cols)
    ensures PrintAll(lines, strings, rows, cols) == PutAll(Text(lines, false), Concat(strings), rows, cols).lines
    ensures Fits(PrintAll(lines, strings, rows, cols), rows, cols)
  {
    if strings != [] {
      var n := |strings| - 1;
      var t := PutAll(Text(lines, false), Concat(strings[..n]), rows, cols);
      PrintRun(lines, strings[..n], rows, cols);
      ScrolledIsIrrelevant(Text(t.lines, false), t, strings[n], rows, cols);
      PutAllConcat(Text(lines, false), Concat(strings[..n]), strings[n], rows, cols);
    }
    PutAllFits(Text(lines, false), Concat(strings), rows, cols);
  }

  // ---------------------------------------------------------------- layout

  /** Length of the first line: up to a newline, or to the character that would come into the
      last column. */
  function LineLength(s: seq<Char>, k: nat, cols: nat): (n: nat)
    requires k <= |s|
    ensures k <= n <= |s|
    decreases |s| - k
  {
    if k == |s| || s[k] == NEWLINE || k + 1 >= cols then k else LineLength(s, k + 1, cols)
  }

  /** The text cut into lines; the character at each cut is dropped. */
  function Layout(s: seq<Char>, cols: nat): (r: Lines)
    ensures r != []
    decreases |s|
  {
    var n := LineLength(s, 0, cols);
    if n == |s| then [s] else [s[..n]] + Layout(s[n + 1..], cols)
  }

  /** The last of the pages the lines fill. */
  function LastPage(lines: Lines, rows: nat): Lines
    requires rows > 0
    decreases |lines|
  {
    if |lines| <= rows then lines else LastPage(lines[rows..], rows)
  }

  /** Up to the first cut the characters go to the current line. */
  lemma {:induction false} FillLine(p: Lines, s: seq<Char>, k: nat, scrolled: bool, rows: nat, cols: nat)
    requires k <= LineLength(s, 0, cols)
    ensures PutAll(Text(p + [[]], scrolled), s[..k], rows, cols) == Text(p + [s[..k]], scrolled)
    decreases k
  {
    if k > 0 {
      FillLine(p, s, k - 1, scrolled, rows, cols);
      BeforeCut(s, 0, k - 1, cols);
      PutInLine(p, s[..k - 1], s[k - 1], scrolled, rows, cols);
      assert s[..k] == s[..k - 1] + [s[k - 1]];
      PutAllConcat(Text(p + [[]], scrolled), s[..k - 1], [s[k - 1]], rows, cols);
      PutOne(Text(p + [s[..k - 1]], scrolled), s[k - 1], rows, cols);
    }
  }

  lemma {:induction false} PutOne(t: Text, ch: Char, rows: nat, cols: nat)
    requires t.lines != []
    ensures PutAll(t, [ch], rows, cols) == Put(t, ch, rows, cols)
  {
    assert [ch][..0] == [];
  }

  lemma {:induction false} PutInLine(p: Lines, line: seq<Char>, ch: Char, scrolled: bool, rows: nat, cols: nat)
    requires |line| + 1 < cols && ch != NEWLINE
    ensures Put(Text(p + [line], scrolled), ch, rows, cols) == Text(p + [line + [ch]], scrolled)
  {
    assert (p + [line])[|p| := line + [ch]] == p + [line + [ch]];
  }

  lemma {:induction false} BeforeCut(s: seq<Char>, i: nat, k: nat, cols: nat)
    requires i <= |s| && i <= k < LineLength(s, i, cols)
    ensures s[k] != NEWLINE && k + 1 < cols
    decreases k - i
  {
    if i < k {
      BeforeCut(s, i + 1, k, cols);
    }
  }

  lemma {:induction false} AtCut(s: seq<Char>, i: nat, cols: nat)
    requires i <= |s| && LineLength(s, i, cols) < |s|
    ensures var n := LineLength(s, i, cols); s[n] == NEWLINE || n + 1 >= cols
    decreases |s| - i
  {
    if !(s[i] == NEWLINE || i + 1 >= cols) {
      AtCut(s, i + 1, cols);
    }
  }

  /** Character by character, a page comes to hold the last page of the text's layout. */
  lemma {:induction false} PageIsLayout(p: Lines, s: seq<Char>, scrolled: bool, rows: nat, cols: nat)
    requires |p| < rows
    ensures PutAll(Text(p + [[]], scrolled), s, rows, cols).lines == LastPage(p + Layout(s, cols), rows)
    decreases |s|
  {
    var n := LineLength(s, 0, cols);
    FillLine(p, s, n, scrolled, rows, cols);
    if n == |s| {
      assert s[..n] == s;
    } else {
      AtCut(s, 0, cols);
      var rest, line, t := s[n + 1..], s[..n], Text(p + [[]], scrolled);
      assert s[..n + 1] == line + [s[n]] && s == s[..n + 1] + rest;
      PutAllConcat(t, s[..n + 1], rest, rows, cols);
      PutAllConcat(t, line, [s[n]], rows, cols);
      PutOne(Text(p + [line], scrolled), s[n], rows, cols);
      LastPageStep(p, line, Layout(rest, cols), rows);
      if |p| + 1 == rows {
        var none: Lines := [];
        PageIsLayout(none, rest, true, rows, cols);
        assert none + [[]] == [[]] && none + Layout(rest, cols) == Layout(rest, cols);
      } else {
        PageIsLayout(p + [line], rest, scrolled, rows, cols);
      }
    }
  }

  lemma {:induction false} LastPageStep(p: Lines, line: seq<Char>, more: Lines, rows: nat)
    requires |p| < rows && more != []
    ensures LastPage(p + ([line] + more), rows) ==
      LastPage(if |p| + 1 == rows then more else (p + [line]) + more, rows)
  {
    assert p + ([line] + more) == (p + [line]) + more;
    if |p| + 1 == rows {
      assert ((p + [line]) + more)[rows..] == more;
    }
  }
}
