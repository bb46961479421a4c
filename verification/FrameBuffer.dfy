// Drawing through a back buffer with a dirty area, boot-loader/core/video/fb.c.

module FrameBuffer {
  import opened Wrappers

  const INVALID: nat := 0xffff_ffff
  const GLYPH_WIDTH: nat := 8
  const GLYPH_HEIGHT: nat := 16

  /** A rectangle of the screen. */
  datatype Rect = Rect(x: nat, y: nat, w: nat, h: nat)

  predicate Inside(r: Rect, px: nat, py: nat) {
    r.x <= px < r.x + r.w && r.y <= py < r.y + r.h
  }

  // ---------------------------------------------------------------- what was drawn

  /** A picture gives the value of each pixel of the screen, used inside some rectangle. */
  type Picture = (nat, nat) -> nat

  datatype Op = Drawn(r: Rect, picture: Picture) | Flushed

  /** What the last operation to touch a pixel drew there. */
  ghost function LastDrawn(history: seq<Op>, px: nat, py: nat): Option<nat> {
    if history == [] then None
    else
      var op := history[|history| - 1];
      if op.Drawn? && Inside(op.r, px, py) then Some(op.picture(px, py))
      else LastDrawn(history[..|history| - 1], px, py)
  }

  /** Operation k drew that pixel. */
  ghost predicate DrewAt(history: seq<Op>, k: nat, px: nat, py: nat) {
    && k < |history| && history[k].Drawn?
    && history[k].r.x <= px < history[k].r.x + history[k].r.w
    && history[k].r.y <= py < history[k].r.y + history[k].r.h
  }

  /** That is, what the last operation whose rectangle holds the pixel has there. */
  lemma {:induction false} LastDrawnMeaning(history: seq<Op>, px: nat, py: nat, k: nat)
    requires DrewAt(history, k, px, py)
    requires forall j: nat :: k < j ==> !DrewAt(history, j, px, py)
    ensures LastDrawn(history, px, py) == Some(history[k].picture(px, py))
  {
    var n := |history| - 1;
    if k < n {
      assert !DrewAt(history, n, px, py);
      forall j: nat | k < j
        ensures !DrewAt(history[..n], j, px, py)
      {
        assert !DrewAt(history, j, px, py);
      }
      LastDrawnMeaning(history[..n], px, py, k);
    }
  }

  /** And nothing when there is none. */
  lemma {:induction false} NeverDrawn(history: seq<Op>, px: nat, py: nat)
    requires forall j: nat :: !DrewAt(history, j, px, py)
    ensures LastDrawn(history, px, py) == None
  {
    if history != [] {
      var n := |history| - 1;
      assert !DrewAt(history, n, px, py);
      forall j: nat
        ensures !DrewAt(history[..n], j, px, py)
      {
        assert !DrewAt(history, j, px, py);
      }
      NeverDrawn(history[..n], px, py);
    }
  }

  datatype Box = Box(left: nat, top: nat, right: nat, bottom: nat)

  function Join(b: Option<Box>, r: Rect): Box {
    match b
    case None => Box(r.x, r.y, r.x + r.w, r.y + r.h)
    case Some(b) => Box(Min(b.left, r.x), Min(b.top, r.y), Max(b.right, r.x + r.w), Max(b.bottom, r.y + r.h))
  }

  /** Box around everything drawn since the last flush. */
  ghost function DirtyBox(history: seq<Op>): Option<Box> {
    if history == [] then None
    else
      match history[|history| - 1]
      case Flushed => None
      case Drawn(r, _) => Some(Join(DirtyBox(history[..|history| - 1]), r))
  }

  /** Operation k was drawn after the last flush. */
  ghost predicate Pending(history: seq<Op>, k: int) {
    0 <= k < |history| && forall j :: k <= j < |history| ==> history[j].Drawn?
  }

  ghost predicate Covers(b: Box, r: Rect) {
    b.left <= r.x && b.top <= r.y && r.x + r.w <= b.right && r.y + r.h <= b.bottom
  }

  /** The box covers everything drawn since the last flush. */
  ghost predicate Bounds(b: Box, history: seq<Op>) {
    forall k :: Pending(history, k) ==> Covers(b, history[k].r)
  }

  ghost predicate Within(b: Box, c: Box) {
    c.left <= b.left && c.top <= b.top && b.right <= c.right && b.bottom <= c.bottom
  }

  lemma {:induction false} PendingStep(history: seq<Op>, k: int)
    requires history != []
    ensures var n := |history| - 1;
      Pending(history, k) <==> history[n].Drawn? && (k == n || Pending(history[..n], k))
  {
  }

  lemma {:induction false} BoundsStep(b: Box, history: seq<Op>)
    requires history != [] && history[|history| - 1].Drawn?
    ensures Bounds(b, history) <==> Bounds(b, history[..|history| - 1]) && Covers(b, history[|history| - 1].r)
  {
    var n := |history| - 1;
    forall k: int
      ensures Pending(history, k) <==> k == n || Pending(history[..n], k)
    {
      PendingStep(history, k);
    }
    if Bounds(b, history) {
      forall k: int | Pending(history[..n], k)
        ensures Covers(b, history[..n][k].r)
      {
        assert Pending(history, k);
      }
    }
  }

  /** DirtyBox is the bounding box: there is one exactly when something was drawn since the last
      flush, it covers all of that, and every box that does covers it. */
  lemma {:induction false} DirtyBoxIsBounding(history: seq<Op>, c: Box)
    ensures DirtyBox(history).None? <==> forall k :: !Pending(history, k)
    ensures DirtyBox(history).Some? ==>
      var b := DirtyBox(history).value;
      Bounds(b, history) && (Bounds(c, history) ==> Within(b, c))
  {
    if history != [] {
      var n := |history| - 1;
      var op := history[n];
      DirtyBoxIsBounding(history[..n], c);
      PendingStep(history, n);
      if op.Drawn? {
        BoundsStep(c, history);
        BoundsStep(DirtyBox(history).value, history);
        WiderBounds(DirtyBox(history[..n]), op.r, history[..n]);
      } else {
        assert forall k :: !Pending(history, k);
      }
    }
  }

  lemma {:induction false} WiderBounds(b: Option<Box>, r: Rect, history: seq<Op>)
    requires if b.Some? then Bounds(b.value, history) else forall k :: !Pending(history, k)
    ensures Bounds(Join(b, r), history)
  {
    if b.Some? {
      forall k | Pending(history, k)
        ensures Covers(Join(b, r), history[k].r)
      {
        assert Covers(b.value, history[k].r);
      }
    }
  }

  // ---------------------------------------------------------------- the frame buffer

  /** One pixel shows what was drawn there: in the back buffer always, on the screen unless it
      lies in the dirty area. */
  ghost predicate Coherent(history: seq<Op>, px: nat, py: nat, back: nat, front: nat) {
    var v := LastDrawn(history, px, py);
    v.Some? ==> back == v.value && (InArea(DirtyBox(history), px, py) || front == v.value)
  }

  ghost predicate InArea(b: Option<Box>, px: nat, py: nat) {
    b.Some? && b.value.left <= px < b.value.right && b.value.top <= py < b.value.bottom
  }

  class FrameBuffer {
    const width: nat
    const height: nat
    const bytesPerPixel: nat
    const back: array2<nat>
    const front: array2<nat>
    var x: nat
    var y: nat
    var w: nat
    var h: nat
    ghost var history: seq<Op>

    predicate AreaIs(b: Option<Box>)
      reads this
    {
      match b
      case None => x == INVALID && y == INVALID && w == INVALID && h == INVALID
      case Some(Box(left, top, right, bottom)) =>
        left <= right && top <= bottom && x == left && y == top && w == right - left && h == bottom - top
    }

    ghost predicate Valid()
      reads this, back, front
    {
      && width < INVALID && height < INVALID && bytesPerPixel in {2, 3, 4}
      && back != front && back.Length0 == front.Length0 == height && back.Length1 == front.Length1 == width
      && AreaIs(DirtyBox(history))
      && (DirtyBox(history).Some? ==>
            DirtyBox(history).value.right <= width && DirtyBox(history).value.bottom <= height)
      && forall py, px :: 0 <= py < height && 0 <= px < width ==> Coherent(history, px, py, back[py, px], front[py, px])
    }

    constructor (width: nat, height: nat, bytesPerPixel: nat, back: array2<nat>, front: array2<nat>)
      requires width < INVALID && height < INVALID && bytesPerPixel in {2, 3, 4} && back != front
      requires back.Length0 == front.Length0 == height && back.Length1 == front.Length1 == width
      ensures Valid() && history == [] && this.back == back && this.front == front
      ensures this.width == width && this.height == height && this.bytesPerPixel == bytesPerPixel
    {
      this.width, this.height, this.bytesPerPixel := width, height, bytesPerPixel;
      this.back, this.front := back, front;
      x, y, w, h := INVALID, INVALID, INVALID, INVALID;
      history := [];
    }

    /** bl_fb_update_dirty_area */
    method UpdateDirtyArea(x1: nat, y1: nat, w1: nat, h1: nat, ghost b: Option<Box>)
      requires AreaIs(b) && width < INVALID && height < INVALID
      requires b.Some? ==> b.value.right <= width && b.value.bottom <= height
      requires x1 + w1 <= width && y1 + h1 <= height
      modifies this`x, this`y, this`w, this`h
      ensures AreaIs(Some(Join(b, Rect(x1, y1, w1, h1))))
      ensures b == None ==> x == x1 && y == y1 && w == w1 && h == h1
      ensures b.Some? ==>
        && x == Min(b.value.left, x1) && x + w == Max(b.value.right, x1 + w1)
        && y == Min(b.value.top, y1) && y + h == Max(b.value.bottom, y1 + h1)
    {
      var dirtyX, dirtyY, dirtyW, dirtyH := x, y, w, h;
      if x1 < dirtyX || dirtyX == INVALID {
        x := x1;
      }
      if y1 < dirtyY || dirtyY == INVALID {
        y := y1;
      }
      if dirtyW == INVALID {
        w := w1;
      } else if x1 < dirtyX {
        if x1 + w1 < dirtyX + dirtyW {
          w := dirtyX + dirtyW - x1;
        } else {
          w := w1;
        }
      } else if x1 + w1 > dirtyX + dirtyW {
        w := x1 + w1 - dirtyX;
      }
      if dirtyH == INVALID {
        h := h1;
      } else if y1 < dirtyY {
        if y1 + h1 < dirtyY + dirtyH {
          h := dirtyY + dirtyH - y1;
        } else {
          h := h1;
        }
      } else if y1 + h1 > dirtyY + dirtyH {
        h := y1 + h1 - dirtyY;
      }
    }

    /** Writes a picture to a rectangle of the back buffer, row by row. */
    method Paint(r: Rect, picture: Picture)
      requires back.Length0 == height && back.Length1 == width && r.x + r.w <= width && r.y + r.h <= height
      modifies back
      ensures forall py, px :: 0 <= py < height && 0 <= px < width ==>
        back[py, px] == if r.x <= px < r.x + r.w && r.y <= py < r.y + r.h then picture(px, py) else old(back[py, px])
    {
      for j := 0 to r.h
        invariant forall py, px :: 0 <= py < height && 0 <= px < width ==>
          back[py, px] == if Inside(r, px, py) && py < r.y + j then picture(px, py) else old(back[py, px])
      {
        for i := 0 to r.w
          invariant forall py, px :: 0 <= py < height && 0 <= px < width ==>
            back[py, px] == if Inside(r, px, py) && (py < r.y + j || (py == r.y + j && px < r.x + i))
                            then picture(px, py) else old(back[py, px])
        {
          back[r.y + j, r.x + i] := picture(r.x + i, r.y + j);
        }
      }
    }

    /** Marks a rectangle dirty and paints it. */
    method Draw(r: Rect, picture: Picture)
      requires Valid() && r.x + r.w <= width && r.y + r.h <= height
      modifies this`x, this`y, this`w, this`h, this`history, back
      ensures Valid() && history == old(history) + [Drawn(r, picture)]
    {
      UpdateDirtyArea(r.x, r.y, r.w, r.h, DirtyBox(history));
      Paint(r, picture);
      ghost var op := Drawn(r, picture);
      forall py, px | 0 <= py < height && 0 <= px < width
        ensures Coherent(history + [op], px, py, back[py, px], front[py, px])
      {
        DrawnCoherent(history, r, picture, px, py, old(back[py, px]), front[py, px]);
      }
      assert (history + [op])[..|history|] == history;
      history := history + [op];
    }

    /** bl_fb_fill_rectangle: every pixel becomes the colour, cut down to the bytes of a pixel. */
    method FillRectangle(color: nat, x: nat, y: nat, w: nat, h: nat)
      requires Valid() && x + w <= width && y + h <= height
      modifies this`x, this`y, this`w, this`h, this`history, back
      ensures Valid() && |history| == |old(history)| + 1 && history[..|old(history)|] == old(history)
      ensures var op := history[|old(history)|];
        && op.Drawn? && op.r == Rect(x, y, w, h)
        && (bytesPerPixel == 2 ==> forall px, py :: op.picture(px, py) == color % 0x1_0000)
        && (bytesPerPixel == 3 ==> forall px, py :: op.picture(px, py) == color % 0x100_0000)
        && (bytesPerPixel == 4 ==> forall px, py :: op.picture(px, py) == color)
    {
      var pixel := if bytesPerPixel == 2 then color % 0x1_0000
                   else if bytesPerPixel == 3 then color % 0x100_0000 else color;
      Draw(Rect(x, y, w, h), (px, py) => pixel);
    }

    /** bl_fb_blit_glyph; the merged pixels of glyph and background are given by a picture. */
    method BlitGlyph(c: int, picture: Picture, x: nat, y: nat)
      requires Valid() && x + GLYPH_WIDTH <= width && y + GLYPH_HEIGHT <= height
      modifies this`x, this`y, this`w, this`h, this`history, back
      ensures Valid()
      ensures history == if c < 0x20 then old(history)
                         else old(history) + [Drawn(Rect(x, y, GLYPH_WIDTH, GLYPH_HEIGHT), picture)]
    {
      if c < 0x20 {
        return;
      }
      Draw(Rect(x, y, GLYPH_WIDTH, GLYPH_HEIGHT), picture);
    }

    /** bl_fb_update_from_double_buffer: afterwards the screen shows, at every pixel ever drawn,
        what was drawn there last. */
    method Flush()
      requires Valid()
      modifies this`x, this`y, this`w, this`h, this`history, front
      ensures Valid() && history == old(history) + [Flushed] && x == y == w == h == INVALID
      ensures forall py, px :: 0 <= py < height && 0 <= px < width ==>
        var v := LastDrawn(old(history), px, py);
        v.Some? ==> front[py, px] == back[py, px] == v.value
    {
      if !(x == INVALID || y == INVALID || w == INVALID || h == INVALID) {
        CopyArea();
        x, y, w, h := INVALID, INVALID, INVALID, INVALID;
      }
      ghost var was := history;
      forall py, px | 0 <= py < height && 0 <= px < width
        ensures Coherent(was + [Flushed], px, py, back[py, px], front[py, px])
        ensures LastDrawn(was, px, py).Some? ==> front[py, px] == back[py, px] == LastDrawn(was, px, py).value
      {
        FlushedCoherent(was, px, py, back[py, px], old(front[py, px]), front[py, px]);
      }
      history := was + [Flushed];
    }

    /** Copies the dirty area of the back buffer to the screen, row by row. */
    method CopyArea()
      requires back != front && x + w <= width && y + h <= height
      requires back.Length0 == front.Length0 == height && back.Length1 == front.Length1 == width
      modifies front
      ensures forall py, px :: 0 <= py < height && 0 <= px < width ==>
        front[py, px] == if x <= px < x + w && y <= py < y + h then back[py, px] else old(front[py, px])
    {
      ghost var r := Rect(x, y, w, h);
      for i := 0 to h
        invariant forall py, px :: 0 <= py < height && 0 <= px < width ==>
          front[py, px] == if Inside(r, px, py) && py < y + i then back[py, px] else old(front[py, px])
      {
        for j := 0 to w
          invariant forall py, px :: 0 <= py < height && 0 <= px < width ==>
            front[py, px] == if Inside(r, px, py) && (py < y + i || (py == y + i && px < x + j))
                             then back[py, px] else old(front[py, px])
        {
          front[y + i, x + j] := back[y + i, x + j];
        }
      }
    }
  }

  /** Drawing keeps every pixel coherent. */
  lemma {:induction false} DrawnCoherent(history: seq<Op>, r: Rect, picture: Picture, px: nat, py: nat, back: nat,
        front: nat)
    requires Coherent(history, px, py, back, front)
    ensures Coherent(history + [Drawn(r, picture)], px, py, if Inside(r, px, py) then picture(px, py) else back, front)
  {
    var after := history + [Drawn(r, picture)];
    assert after[..|history|] == history;
  }

  /** Copying the dirty area brings every pixel up to date. */
  lemma {:induction false} FlushedCoherent(history: seq<Op>, px: nat, py: nat, back: nat, front: nat, front': nat)
    requires Coherent(history, px, py, back, front)
    requires front' == if InArea(DirtyBox(history), px, py) then back else front
    ensures Coherent(history + [Flushed], px, py, back, front')
    ensures LastDrawn(history, px, py).Some? ==> front' == back == LastDrawn(history, px, py).value
  {
    var after := history + [Flushed];
    assert after[..|history|] == history;
  }
}
