// The shell window on the display: the glyphs of boot-loader/core/gui/gui-app.c drawn through the back
// buffer of boot-loader/core/video/fb.c.

module ShellScreen {
  import opened FrameBuffer
  import opened GuiApp
  import opened Wrappers

  /** The pixel a character has at a position of the screen, merged with the background there. */
  type Font = (int, nat, nat) -> nat

  /** The font and the window's upper left corner. */
  datatype Window = Window(font: Font, x: nat, y: nat) {
    function Cell(line: nat, column: nat): Rect {
      Rect(x + GLYPH_WIDTH * column, y + GLYPH_HEIGHT * line, GLYPH_WIDTH, GLYPH_HEIGHT)
    }

    function Glyph(ch: int): Picture {
      (px: nat, py: nat) => font(ch, px, py)
    }
  }

  /** In every cell a glyph was sent to, each pixel was last drawn by the last glyph sent. */
  ghost predicate Agrees(win: Window, history: seq<Op>, blits: seq<Blit>) {
    forall l: nat, c: nat, px: nat, py: nat :: LastBlit(blits, l, c).Some? && Inside(win.Cell(l, c), px, py) ==>
      LastDrawn(history, px, py) == Some(win.font(LastBlit(blits, l, c).value, px, py))
  }

  lemma {:induction false} CellsApart(win: Window, l: nat, c: nat, l1: nat, c1: nat, px: nat, py: nat)
    requires Inside(win.Cell(l, c), px, py) && Inside(win.Cell(l1, c1), px, py)
    ensures l == l1 && c == c1
  {
  }

  lemma {:induction false} CellOnScreen(win: Window, l: nat, c: nat, rows: nat, cols: nat, px: nat, py: nat)
    requires l < rows && c < cols && Inside(win.Cell(l, c), px, py)
    ensures px < win.x + GLYPH_WIDTH * cols && py < win.y + GLYPH_HEIGHT * rows
  {
  }

  lemma {:induction false} LastOf(history: seq<Op>, op: Op, px: nat, py: nat)
    ensures LastDrawn(history + [op], px, py) ==
            if op.Drawn? && Inside(op.r, px, py) then Some(op.picture(px, py)) else LastDrawn(history, px, py)
  {
    assert (history + [op])[..|history|] == history;
  }

  /** Sending a glyph to its cell keeps that. */
  lemma {:induction false} GlyphAgrees(win: Window, history: seq<Op>, blits: seq<Blit>, b: Blit)
    requires Agrees(win, history, blits)
    ensures Agrees(win, history + [Drawn(win.Cell(b.line, b.column), win.Glyph(b.ch))], blits + [b])
  {
    var op := Drawn(win.Cell(b.line, b.column), win.Glyph(b.ch));
    forall l: nat, c: nat, px: nat, py: nat |
        LastBlit(blits + [b], l, c).Some? && Inside(win.Cell(l, c), px, py)
      ensures LastDrawn(history + [op], px, py) == Some(win.font(LastBlit(blits + [b], l, c).value, px, py))
    {
      LastOf(history, op, px, py);
      LastOfMore(blits, b, l, c);
      if Inside(op.r, px, py) {
        CellsApart(win, l, c, b.line, b.column, px, py);
      }
    }
  }

  lemma {:induction false} FlushAgrees(win: Window, history: seq<Op>, blits: seq<Blit>)
    requires Agrees(win, history, blits)
    ensures Agrees(win, history + [Flushed], blits)
  {
    forall l: nat, c: nat, px: nat, py: nat | LastBlit(blits, l, c).Some? && Inside(win.Cell(l, c), px, py)
      ensures LastDrawn(history + [Flushed], px, py) == LastDrawn(history, px, py)
    {
      LastOf(history, Flushed, px, py);
    }
  }

  /** The shell and its display: the window lies on the screen and has agreed so far. */
  ghost predicate Connected(gui: Gui, fb: FrameBuffer, win: Window)
    reads gui, gui.page0, gui.page1, gui.page0.vector, gui.page1.vector, gui.screen, fb, fb.back, fb.front
  {
    && gui.Valid() && fb.Valid()
    && win.x + GLYPH_WIDTH * gui.cols <= fb.width && win.y + GLYPH_HEIGHT * gui.rows <= fb.height
    && Agrees(win, fb.history, gui.blits)
  }

  /** The i-th glyph sent reaches the back buffer. */
  method SendGlyph(gui: Gui, fb: FrameBuffer, win: Window, i: nat)
    requires gui.Valid() && fb.Valid() && i < |gui.blits| && Agrees(win, fb.history, gui.blits[..i])
    requires win.x + GLYPH_WIDTH * gui.cols <= fb.width && win.y + GLYPH_HEIGHT * gui.rows <= fb.height
    modifies fb`x, fb`y, fb`w, fb`h, fb`history, fb.back
    ensures fb.Valid() && Agrees(win, fb.history, gui.blits[..i + 1])
  {
    var b := gui.blits[i];
    GlyphAgrees(win, fb.history, gui.blits[..i], b);
    assert gui.blits[..i] + [b] == gui.blits[..i + 1];
    fb.BlitGlyph(b.ch, win.Glyph(b.ch), win.x + GLYPH_WIDTH * b.column, win.y + GLYPH_HEIGHT * b.line);
  }

  /** The glyphs sent from the n-th on reach the back buffer. */
  method SendGlyphs(gui: Gui, fb: FrameBuffer, win: Window, n: nat)
    requires gui.Valid() && fb.Valid() && n <= |gui.blits| && Agrees(win, fb.history, gui.blits[..n])
    requires win.x + GLYPH_WIDTH * gui.cols <= fb.width && win.y + GLYPH_HEIGHT * gui.rows <= fb.height
    modifies fb`x, fb`y, fb`w, fb`h, fb`history, fb.back
    ensures fb.Valid() && Agrees(win, fb.history, gui.blits)
  {
    for i := n to |gui.blits|
      invariant fb.Valid() && Agrees(win, fb.history, gui.blits[..i])
    {
      SendGlyph(gui, fb, win, i);
    }
    assert gui.blits[..|gui.blits|] == gui.blits;
  }

  /** A pixel of a cell shows the character the active page has there, save in a blank cell that no glyph
      was ever sent to. */
  ghost predicate PixelShows(gui: Gui, fb: FrameBuffer, win: Window, l: nat, c: nat, px: nat, py: nat)
    requires fb.Valid()
    reads gui, gui.page0, gui.page1, fb, fb.back, fb.front
  {
    var lines := if gui.active then gui.page1.lines else gui.page0.lines;
    var ch := if l < |lines| && c < |lines[l]| && lines[l][c] >= 0x20 then lines[l][c] else 0x20;
    var x, y := win.x + 8 * c, win.y + 16 * l;
    l < gui.rows && c < gui.cols && x <= px < x + 8 && y <= py < y + 16 &&
    (LastBlit(gui.blits, l, c).Some? || ch != 0x20) ==>
      px < fb.width && py < fb.height && fb.front[py, px] == win.font(ch, px, py)
  }

  /** bl_gui_app_print_str: every pixel of every cell a glyph was ever sent to shows the character the
      active page has there. */
  method Print(gui: Gui, fb: FrameBuffer, win: Window, s: seq<Char>)
    requires Connected(gui, fb, win)
    modifies gui`active, gui`shouldScroll, gui`blits, gui.page0, gui.page1, gui.page0.vector, gui.page1.vector
    modifies gui.screen, fb`x, fb`y, fb`w, fb`h, fb`history, fb.back, fb.front
    ensures Connected(gui, fb, win)
    ensures gui.TextNow() == Text(PutAll(old(gui.TextNow()), s, gui.rows, gui.cols).lines, false)
    ensures forall l: nat, c: nat, px: nat, py: nat :: PixelShows(gui, fb, win, l, c, px, py)
  {
    ghost var before := gui.blits;
    var n := |gui.blits|;
    gui.Print(s);
    assert gui.blits[..n] == before;
    SendGlyphs(gui, fb, win, n);
    FlushAgrees(win, fb.history, gui.blits);
    ghost var history := fb.history;
    fb.Flush();
    forall l: nat, c: nat, px: nat, py: nat
      ensures PixelShows(gui, fb, win, l, c, px, py)
    {
      if l < gui.rows && c < gui.cols && Inside(win.Cell(l, c), px, py) && LastBlit(gui.blits, l, c).Some? {
        CellOnScreen(win, l, c, gui.rows, gui.cols, px, py);
        assert LastDrawn(history, px, py) == Some(win.font(gui.screen[l, c], px, py));
      }
    }
  }
}
