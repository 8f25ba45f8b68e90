/**
  `positionRelativeTo`: the absolute `{left, top}` at which an overlay of a given size
  is placed next to an anchor (an element's box or the mouse), for a placement directive
  such as `"bottom-right"`, then pulled back inside the window.

  Pixels are integers. The browser reads (`getBoundingClientRect`, `window.scrollY`,
  `window.outerWidth`, `window.outerHeight`) arrive as explicit values.
 */
module Position {
  import opened Wrappers
  import opened Strings

  /** A box as `getBoundingClientRect` reports it: relative to the viewport. */
  datatype Rect = Rect(top: int, left: int, width: int, height: int)

  /** The size of the element being placed. */
  datatype Size = Size(width: int, height: int)

  /** A `{left, top}` pair: the base offset going in, the placement coming out. */
  datatype Offset = Offset(left: int, top: int)

  /** The base offset used when the caller passes none. */
  const DefaultBaseOffset := Offset(0, 0)

  /** What the overlay is placed relative to: a mouse event's page point, or an element. */
  datatype Anchor = Mouse(pageX: int, pageY: int) | Elem(rect: Rect)

  /** The three window values the computation reads. */
  datatype Window = Window(scrollY: int, outerWidth: int, outerHeight: int)

  /** The closed set of directives of the `AxisPositions` type of `positionRelativeTo`. */
  datatype Placement = Top | TopLeft | TopRight | Left | Right | Bottom | BottomLeft | BottomRight

  /** The directive's spelling. */
  function Name(p: Placement): string {
    match p
    case Top => "top"
    case TopLeft => "top-left"
    case TopRight => "top-right"
    case Left => "left"
    case Right => "right"
    case Bottom => "bottom"
    case BottomLeft => "bottom-left"
    case BottomRight => "bottom-right"
  }

  // ---------------------------------------------------------------------------
  // Stage 1: the directive as a (vertical, horizontal) edge pair
  // ---------------------------------------------------------------------------

  /** The pair of edges a directive names; `None` means "centred on that axis". */
  datatype Edges = Edges(y: Option<string>, x: Option<string>)

  /** Whether a word names a horizontal side. */
  predicate IsSide(w: string) {
    w == "left" || w == "right"
  }

  /**
    `position.split('-')` destructured into `[edgeY, edgeX]`, followed by the fix that
    moves a leading `left`/`right` over to the horizontal axis.
   */
  function ParseEdges(position: string): (e: Edges)
    ensures e.y.Some? ==> !IsSide(e.y.value) && '-' !in e.y.value
    ensures e.y.None? <==> IsSide(Split(position, '-')[0])
    ensures e.y.None? ==> e.x == Some(Split(position, '-')[0])
    ensures e.x.Some? ==> '-' !in e.x.value
  {
    var parts := Split(position, '-');
    var edgeY := parts[0];
    var edgeX := if |parts| >= 2 then Some(parts[1]) else None;
    if IsSide(edgeY) then Edges(None, Some(edgeY)) else Edges(Some(edgeY), edgeX)
  }

  /** A directive of one word: a side goes to the horizontal axis, any other word to the vertical. */
  lemma ParseOneWord(w: string)
    requires '-' !in w
    ensures ParseEdges(w) == if IsSide(w) then Edges(None, Some(w)) else Edges(Some(w), None)
  {
    SplitWord(w, '-');
  }

  /** A directive `a-b`: the pair `(a, b)`, unless `a` is a side, which then wins the horizontal axis. */
  lemma ParseTwoWords(a: string, b: string)
    requires '-' !in a && '-' !in b
    ensures ParseEdges(a + "-" + b) == if IsSide(a) then Edges(None, Some(a)) else Edges(Some(a), Some(b))
  {
    SplitFirst(a, b, '-');
    SplitWord(b, '-');
  }

  /** The edge table for the eight legal directives, independent of any string handling. */
  function TableEdges(p: Placement): Edges {
    match p
    case Top => Edges(Some("top"), None)
    case TopLeft => Edges(Some("top"), Some("left"))
    case TopRight => Edges(Some("top"), Some("right"))
    case Left => Edges(None, Some("left"))
    case Right => Edges(None, Some("right"))
    case Bottom => Edges(Some("bottom"), None)
    case BottomLeft => Edges(Some("bottom"), Some("left"))
    case BottomRight => Edges(Some("bottom"), Some("right"))
  }

  /** Parsing each legal directive yields exactly its row of the table. */
  lemma ParsePlacement(p: Placement)
    ensures ParseEdges(Name(p)) == TableEdges(p)
  {
    if p in {TopLeft, TopRight, BottomLeft, BottomRight} {
      ParseCorner(p);
    } else {
      ParseSide(p);
    }
  }

  /** The four one-word directives parse to a single edge. */
  lemma ParseSide(p: Placement)
    requires p in {Top, Left, Right, Bottom}
    ensures ParseEdges(Name(p)) == TableEdges(p)
  {
    if p == Top {
      ParseWord("top", Name(p));
    } else if p == Bottom {
      ParseWord("bottom", Name(p));
    } else if p == Left {
      ParseWord("left", Name(p));
    } else {
      ParseWord("right", Name(p));
    }
  }

  /**
    `ParseOneWord` for a directive given by its spelling. The spelling is a separate
    parameter so that the verifier does not unfold `Split` on a string literal.
   */
  lemma ParseWord(w: string, spelled: string)
    requires '-' !in w && spelled == w
    ensures ParseEdges(spelled) == if IsSide(w) then Edges(None, Some(w)) else Edges(Some(w), None)
  {
    ParseOneWord(w);
  }

  /** The four corner directives parse to a vertical and a horizontal edge. */
  lemma ParseCorner(p: Placement)
    requires p in {TopLeft, TopRight, BottomLeft, BottomRight}
    ensures ParseEdges(Name(p)) == TableEdges(p)
  {
    if p == TopLeft {
      ParseSpelled("top", "left", Name(p));
    } else if p == TopRight {
      ParseSpelled("top", "right", Name(p));
    } else if p == BottomLeft {
      ParseSpelled("bottom", "left", Name(p));
    } else {
      ParseSpelled("bottom", "right", Name(p));
    }
  }

  /**
    `ParseTwoWords` for a directive given by its spelling, with a vertical first word.
    As in `ParseWord`, the spelling is a parameter to keep string literals out of `Split`.
   */
  lemma ParseSpelled(a: string, b: string, spelled: string)
    requires '-' !in a && '-' !in b && !IsSide(a)
    requires spelled == a + "-" + b
    ensures ParseEdges(spelled) == Edges(Some(a), Some(b))
  {
    ParseTwoWords(a, b);
  }

  // ---------------------------------------------------------------------------
  // Stage 2: seeding the coordinates from the anchor
  // ---------------------------------------------------------------------------

  /**
    The running coordinates after the anchor is added to the base offset, together with
    the anchor's absolute top and its size (all zero for a mouse anchor).
   */
  datatype Seed = Seed(top: int, left: int, relTop: int, relHeight: int, relWidth: int)

  function SeedFrom(anchor: Anchor, base: Offset, win: Window): (s: Seed)
    ensures anchor.Mouse? ==> s == Seed(base.top + anchor.pageY, base.left + anchor.pageX, 0, 0, 0)
    ensures anchor.Elem? ==> s.relTop - anchor.rect.top == win.scrollY
    ensures anchor.Elem? ==> s.top - base.top == s.relTop && s.left - base.left == anchor.rect.left
    ensures anchor.Elem? ==> s.relHeight == anchor.rect.height && s.relWidth == anchor.rect.width
  {
    match anchor
    case Mouse(x, y) => Seed(base.top + y, base.left + x, 0, 0, 0)
    case Elem(r) =>
      var relTop := r.top + win.scrollY;
      Seed(base.top + relTop, base.left + r.left, relTop, r.height, r.width)
  }

  /** A mouse anchor is already in page coordinates: the scroll position plays no part. */
  lemma MouseSeedIgnoresScroll(x: int, y: int, base: Offset, win: Window, win': Window)
    ensures SeedFrom(Mouse(x, y), base, win) == SeedFrom(Mouse(x, y), base, win')
  {
  }

  /** An element anchor moves down the page by exactly as much as the window scrolls. */
  lemma ElemSeedFollowsScroll(r: Rect, base: Offset, win: Window, d: int)
    ensures SeedFrom(Elem(r), base, win.(scrollY := win.scrollY + d)).top == SeedFrom(Elem(r), base, win).top + d
    ensures SeedFrom(Elem(r), base, win.(scrollY := win.scrollY + d)).left == SeedFrom(Elem(r), base, win).left
  {
  }

  // ---------------------------------------------------------------------------
  // Stage 3: the edge shift
  // ---------------------------------------------------------------------------

  /** JavaScript's `Math.round` on a real: the nearest integer, halves going up. */
  function JsRound(x: real): (n: int)
    ensures n as real - 0.5 <= x < n as real + 0.5
  {
    (x + 0.5).Floor
  }

  /** `Math.round(a / 2 - b / 2)` for integers `a` and `b`. */
  function RoundHalfDiff(a: int, b: int): (r: int)
    ensures 2 * r - 1 <= a - b <= 2 * r
  {
    (a - b + 1) / 2
  }

  /** The integer formula agrees with `Math.round` on the real half-difference. */
  lemma RoundHalfDiffIsJsRound(a: int, b: int)
    ensures RoundHalfDiff(a, b) == JsRound(a as real / 2.0 - b as real / 2.0)
  {
    var x := a as real / 2.0 - b as real / 2.0;
    var r := RoundHalfDiff(a, b);
    var n := JsRound(x);
    assert x == (a - b) as real / 2.0;
    assert 2.0 * (r as real) - 1.0 <= (a - b) as real <= 2.0 * (r as real);
    assert r as real - 0.5 <= x <= r as real;
    assert n as real - 0.5 <= x < n as real + 0.5;
  }

  /**
    The shift along one axis. `before` and `after` are the axis's two edge words
    (`top`/`bottom` or `left`/`right`); `pos` is the seeded coordinate, `srcLen` and
    `relLen` the overlay's and the anchor's extent on this axis.
   */
  function Shift(edge: Option<string>, before: string, after: string, pos: int, srcLen: int, relLen: int): (r: int)
    requires before != after
    // the overlay ends where the anchor begins
    ensures edge == Some(before) ==> r + srcLen == pos
    // the overlay begins where the anchor ends
    ensures edge == Some(after) ==> r == pos + relLen
    // centred: the midpoints coincide, or the overlay's sits half a pixel higher
    ensures edge != Some(before) && edge != Some(after) ==> 0 <= (2 * pos + relLen) - (2 * r + srcLen) <= 1
  {
    if edge == Some(before) then pos - srcLen
    else if edge == Some(after) then pos + relLen
    else pos - RoundHalfDiff(srcLen, relLen)
  }

  /** Centring an overlay on an anchor of the same extent leaves the coordinate where it was. */
  lemma CentredSameSize(edge: Option<string>, before: string, after: string, pos: int, len: int)
    requires before != after
    requires edge != Some(before) && edge != Some(after)
    ensures Shift(edge, before, after, pos, len, len) == pos
  {
  }

  // ---------------------------------------------------------------------------
  // Stage 4: keeping the overlay inside the window
  // ---------------------------------------------------------------------------

  /** The horizontal correction: off the left edge snaps to 0, past the right edge snaps back. */
  function ClampLeft(left: int, srcWidth: int, outerWidth: int): (r: int)
    ensures left < 0 ==> r == 0
    ensures 0 <= left && left + srcWidth > outerWidth ==> r == outerWidth - srcWidth
    ensures 0 <= left && left + srcWidth <= outerWidth ==> r == left
    ensures srcWidth <= outerWidth ==> 0 <= r && r + srcWidth <= outerWidth
  {
    if left < 0 then 0
    else if left + srcWidth > outerWidth then outerWidth - srcWidth
    else left
  }

  /** Applying the horizontal correction twice is the same as once, whenever the overlay fits. */
  lemma ClampLeftIdempotent(left: int, srcWidth: int, outerWidth: int)
    requires srcWidth <= outerWidth
    ensures ClampLeft(ClampLeft(left, srcWidth, outerWidth), srcWidth, outerWidth) == ClampLeft(left, srcWidth, outerWidth)
  {
  }

  /**
    An overlay wider than the window: a negative left still snaps to 0, but any other left
    is moved to the negative `outerWidth - srcWidth`, which a second correction moves to 0.
   */
  lemma ClampLeftTooWide(left: int, srcWidth: int, outerWidth: int)
    requires srcWidth > outerWidth
    ensures left < 0 ==> ClampLeft(left, srcWidth, outerWidth) == 0
    ensures 0 <= left ==> ClampLeft(left, srcWidth, outerWidth) == outerWidth - srcWidth < 0
    ensures 0 <= left ==> ClampLeft(ClampLeft(left, srcWidth, outerWidth), srcWidth, outerWidth) == 0
  {
  }

  /**
    The vertical correction: above the page snaps to 0; overflowing the bottom of the
    visible area flips the overlay to end at the anchor's absolute top, unclamped.
   */
  function ClampTop(top: int, srcHeight: int, outerHeight: int, scrollY: int, relTop: int): (r: int)
    ensures top < 0 ==> r == 0
    ensures 0 <= top && top + srcHeight > outerHeight + scrollY ==> r + srcHeight == relTop
    ensures 0 <= top && top + srcHeight <= outerHeight + scrollY ==> r == top
    ensures r < 0 ==> r + srcHeight == relTop
  {
    if top < 0 then 0
    else if top + srcHeight > outerHeight + scrollY then relTop - srcHeight
    else top
  }

  /** A flipped coordinate can land above the page, and correcting it again snaps it to 0. */
  lemma ClampTopFlipNotFixed()
    ensures ClampTop(500, 50, 500, 0, 10) == -40
    ensures ClampTop(ClampTop(500, 50, 500, 0, 10), 50, 500, 0, 10) == 0
  {
  }

  // ---------------------------------------------------------------------------
  // The whole computation
  // ---------------------------------------------------------------------------

  /** The coordinates before the window correction: stages 1 to 3. */
  function Unclamped(position: string, src: Size, anchor: Anchor, base: Offset, win: Window): (u: Offset)
    // vertical: above the anchor, below it, or centred on it
    ensures var e, s := ParseEdges(position), SeedFrom(anchor, base, win);
            && (e.y == Some("top") ==> u.top + src.height == s.top)
            && (e.y == Some("bottom") ==> u.top == s.top + s.relHeight)
            && (e.y != Some("top") && e.y != Some("bottom") ==> 0 <= (2 * s.top + s.relHeight) - (2 * u.top + src.height) <= 1)
    // horizontal: left of the anchor, right of it, or centred on it
    ensures var e, s := ParseEdges(position), SeedFrom(anchor, base, win);
            && (e.x == Some("left") ==> u.left + src.width == s.left)
            && (e.x == Some("right") ==> u.left == s.left + s.relWidth)
            && (e.x != Some("left") && e.x != Some("right") ==> 0 <= (2 * s.left + s.relWidth) - (2 * u.left + src.width) <= 1)
  {
    var e := ParseEdges(position);
    var s := SeedFrom(anchor, base, win);
    Offset(Shift(e.x, "left", "right", s.left, src.width, s.relWidth),
           Shift(e.y, "top", "bottom", s.top, src.height, s.relHeight))
  }

  function PositionRelativeTo(position: string, src: Size, anchor: Anchor, base: Offset, win: Window): (o: Offset)
    ensures src.width <= win.outerWidth ==> 0 <= o.left && o.left + src.width <= win.outerWidth
    ensures o.top >= 0 || o.top + src.height == SeedFrom(anchor, base, win).relTop
    ensures var u := Unclamped(position, src, anchor, base, win);
            0 <= u.left && u.left + src.width <= win.outerWidth ==> o.left == u.left
    ensures var u := Unclamped(position, src, anchor, base, win);
            0 <= u.top && u.top + src.height <= win.outerHeight + win.scrollY ==> o.top == u.top
  {
    var u := Unclamped(position, src, anchor, base, win);
    var s := SeedFrom(anchor, base, win);
    Offset(ClampLeft(u.left, src.width, win.outerWidth),
           ClampTop(u.top, src.height, win.outerHeight, win.scrollY, s.relTop))
  }

  /** When the overlay overflows the bottom, its lower edge is put on the anchor's absolute top. */
  lemma FlipAboveAnchor(position: string, src: Size, r: Rect, base: Offset, win: Window)
    requires var u := Unclamped(position, src, Elem(r), base, win);
             0 <= u.top && u.top + src.height > win.outerHeight + win.scrollY
    ensures PositionRelativeTo(position, src, Elem(r), base, win).top == r.top + win.scrollY - src.height
  {
  }

  /** With a mouse anchor the recorded anchor top is 0, so the same flip sends the overlay to `-height`. */
  lemma MouseFlipLeavesPage(position: string, src: Size, x: int, y: int, base: Offset, win: Window)
    requires var u := Unclamped(position, src, Mouse(x, y), base, win);
             0 <= u.top && u.top + src.height > win.outerHeight + win.scrollY
    ensures PositionRelativeTo(position, src, Mouse(x, y), base, win).top == -src.height
  {
  }

  /** The final `left` reads only the horizontal inputs: the directive's horizontal edge, widths, lefts and the window width. */
  lemma LeftIsHorizontalOnly(p: string, src: Size, a: Anchor, base: Offset, win: Window,
                             p': string, src': Size, a': Anchor, base': Offset, win': Window)
    requires ParseEdges(p).x == ParseEdges(p').x
    requires src.width == src'.width && base.left == base'.left && win.outerWidth == win'.outerWidth
    requires a.Mouse? <==> a'.Mouse?
    requires a.Mouse? ==> a.pageX == a'.pageX
    requires a.Elem? ==> a.rect.left == a'.rect.left && a.rect.width == a'.rect.width
    ensures PositionRelativeTo(p, src, a, base, win).left == PositionRelativeTo(p', src', a', base', win').left
  {
  }

  /** `bottom-right` of a 40x20 box at (300, 200) for a 100x50 overlay in a 1000x800 window. */
  // The directive is a parameter fixed by `requires` rather than a literal, so that the
  // verifier does not unfold `Split` on the literal string.
  lemma BottomRightExample(directive: string)
    requires directive == Name(BottomRight)
    ensures PositionRelativeTo(directive, Size(100, 50), Elem(Rect(200, 300, 40, 20)), Offset(0, 0), Window(0, 1000, 800))
         == Offset(340, 220)
  {
    ParsePlacement(BottomRight);
  }

  /** The same box at top 780 overflows the 800-pixel window, so the overlay flips to 780 - 50. */
  lemma BottomRightFlipExample(directive: string)
    requires directive == Name(BottomRight)
    ensures PositionRelativeTo(directive, Size(100, 50), Elem(Rect(780, 300, 40, 20)), Offset(0, 0), Window(0, 1000, 800))
         == Offset(340, 730)
  {
    ParsePlacement(BottomRight);
  }
}
