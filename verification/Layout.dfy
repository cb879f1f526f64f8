/** The layout engine: one rectangle per slot. */
module Layout {
  import opened Arithmetic
  import opened Geometry

  datatype LayoutKind = Grid | Stacked | Pip

  datatype Edge = RightEdge | BottomEdge | LeftEdge | TopEdge

  datatype LayoutSpec = LayoutSpec(kind: LayoutKind, rows: int, cols: int, thumb: int, edge: Edge)

  const EMPTY_RECT := Rect(0, 0, 0, 0)

  // ---- Grid derivation

  /** The smallest number from `c` up whose square holds `n`. */
  function ColsFrom(n: nat, c: nat): (r: nat)
    ensures c <= r && n <= r * r
    ensures r == c || (r - 1) * (r - 1) < n
    decreases n - c
  {
    if c * c >= n then c
    else
      SelfBelowSquare(c);
      ColsFrom(n, c + 1)
  }

  lemma SelfBelowSquare(c: nat)
    ensures c <= c * c
  {
    if c > 0 {
      MulMonotone(c, 1, c);
    }
  }

  function GridCols(n: nat): nat {
    if n == 0 then 0 else ColsFrom(n, 1)
  }

  function GridRows(n: nat): nat {
    if n == 0 || GridCols(n) == 0 then 0 else (n + GridCols(n) - 1) / GridCols(n)
  }

  method DeriveGrid(n: nat) returns (rows: nat, cols: nat)
    ensures rows == GridRows(n) && cols == GridCols(n)
    ensures n > 0 ==> (cols - 1) * (cols - 1) < n <= cols * cols && cols * (rows - 1) < n <= cols * rows
  {
    if n == 0 {
      return 0, 0;
    }
    cols := 1;
    while cols * cols < n
      invariant ColsFrom(n, cols) == GridCols(n) && 1 <= cols && (cols - 1) * (cols - 1) < n
      decreases GridCols(n) - cols
    {
      cols := cols + 1;
    }
    rows := (n + cols - 1) / cols;
    RoundedUp(n, cols);
  }

  lemma RoundedUp(n: nat, cols: nat)
    requires 0 < cols
    ensures cols * ((n + cols - 1) / cols - 1) < n <= cols * ((n + cols - 1) / cols) || n == 0
  {
    var rows := (n + cols - 1) / cols;
    Quotient(n + cols - 1, cols);
    assert cols * (rows - 1) == cols * rows - cols;
  }

  lemma SquareMonotone(a: nat, b: nat)
    requires a <= b
    ensures a * a <= b * b
  {
    MulMonotone(a, a, b);
    MulMonotone(b, a, b);
    assert a * b == b * a;
  }

  /** The derived grid: tight columns, at most one row short of square, and less than one column's worth of waste. */
  lemma DerivedGridFits(n: nat)
    requires n > 0
    ensures
      var rows, cols := GridRows(n), GridCols(n);
      && (cols - 1) * (cols - 1) < n <= cols * cols
      && rows <= cols <= rows + 1
      && n <= rows * cols < n + cols
  {
    var cols: int, rows: int := GridCols(n), GridRows(n);
    Quotient(n + cols - 1, cols);
    assert cols * rows == rows * cols;
    if cols < rows {
      MulStrict(cols, cols, rows);
    }
    assert cols * (cols - 2) == (cols - 1) * (cols - 1) - 1;
    if rows + 1 < cols {
      MulMonotone(cols, rows, cols - 2);
    }
  }

  lemma SumSquared(a: int, b: int)
    ensures 4 * (a * b) <= (a + b) * (a + b)
  {
    assert (a + b) * (a + b) - 4 * (a * b) == (a - b) * (a - b);
    assert (a - b) * (a - b) >= 0;
  }

  lemma EvenBound(a: nat, b: nat, m: nat)
    requires a + b <= 2 * m
    ensures a * b <= m * m
  {
    SumSquared(a, b);
    SquareMonotone(a + b, 2 * m);
    assert (2 * m) * (2 * m) == 4 * (m * m);
  }

  lemma OddBound(a: nat, b: nat, m: nat)
    requires a + b <= 2 * m + 1
    ensures a * b <= (m + 1) * m
  {
    SumSquared(a, b);
    SquareMonotone(a + b, 2 * m + 1);
    assert (2 * m + 1) * (2 * m + 1) == 4 * ((m + 1) * m) + 1;
  }

  /** No grid with room for n cells has a smaller rows + cols. */
  lemma DerivedGridIsMinimal(n: nat, a: nat, b: nat)
    requires n > 0 && a * b >= n
    ensures GridRows(n) + GridCols(n) <= a + b
  {
    DerivedGridFits(n);
    var cols := GridCols(n);
    if a + b <= 2 * (cols - 1) {
      EvenBound(a, b, cols - 1);
    } else if a + b <= 2 * (cols - 1) + 1 {
      OddBound(a, b, cols - 1);
      FewRows(n, cols);
    }
  }

  lemma FewRows(n: nat, cols: nat)
    requires 1 <= cols && n <= cols * (cols - 1)
    ensures (n + cols - 1) / cols <= cols - 1
  {
    Quotient(n + cols - 1, cols);
    var rows := (n + cols - 1) / cols;
    if rows >= cols {
      MulMonotone(cols, cols, rows);
    }
  }

  // ---- Cutting an axis into parts

  /** C++ integer division: toward zero. */
  function TruncDiv(a: int, b: int): int
    requires b > 0
  {
    if a >= 0 then a / b else -(-a / b)
  }

  /** Toward zero on both sides of it. */
  lemma TruncDivIsTowardZero(a: int, b: nat)
    requires b > 0 && a >= 0
    ensures b * TruncDiv(a, b) <= a < b * TruncDiv(a, b) + b
    ensures TruncDiv(-a, b) == -TruncDiv(a, b)
  {
    Quotient(a, b);
  }

  function Cut(w: int, c: nat, n: nat): int
    requires n > 0
  {
    TruncDiv(w * c, n)
  }

  /** The part that holds offset d. */
  function PartOf(w: nat, d: nat, n: nat): int
    requires w > 0
  {
    ((d + 1) * n - 1) / w
  }

  lemma CutAtMost(w: nat, c: nat, n: nat, d: int)
    requires n > 0
    ensures 0 <= w * c && Cut(w, c, n) == w * c / n
    ensures Cut(w, c, n) <= d <==> w * c < n * (d + 1)
  {
    assert w * c >= 0;
    Quotient(w * c, n);
    var q := w * c / n;
    assert n * (d + 1) == n * d + n;
    if q <= d {
      MulMonotone(n, q, d);
    } else {
      MulMonotone(n, d + 1, q);
    }
  }

  /** Offset d lies in exactly one part of the cut. */
  lemma PartIsUnique(w: nat, d: nat, n: nat, c: nat)
    requires d < w && 0 < n
    ensures 0 <= PartOf(w, d, n) < n
    ensures Cut(w, c, n) <= d < Cut(w, c + 1, n) <==> c == PartOf(w, d, n)
  {
    var m := (d + 1) * n;
    var p := (m - 1) / w;
    assert m == n * (d + 1);
    MulMonotone(n, 1, d + 1);
    Quotient(m - 1, w);
    CutAtMost(w, c, n, d);
    CutAtMost(w, c + 1, n, d);
    assert w * (c + 1) == w * c + w;
    MulMonotone(n, d + 1, w);
    assert n * w == w * n;
    if p >= n {
      MulMonotone(w, n, p);
    }
    if w * c < m <= w * c + w {
      Bracket(m - 1, w, c);
    }
  }

  lemma CutMonotone(w: nat, a: nat, b: nat, n: nat)
    requires a <= b && 0 < n
    ensures 0 <= Cut(w, a, n) <= Cut(w, b, n)
  {
    MulMonotone(w, a, b);
    CutAtMost(w, a, n, 0);
    CutAtMost(w, b, n, 0);
    QuotientMonotone(w * a, w * b, n);
  }

  lemma CutEnds(w: nat, n: nat)
    requires 0 < n
    ensures Cut(w, 0, n) == 0 && Cut(w, n, n) == w
  {
    assert w * 0 == 0 && w * n == n * w;
    CutAtMost(w, n, n, 0);
    Bracket(n * w, n, w);
  }

  lemma SumQuotient(a: nat, w: nat, n: nat)
    requires 0 < n
    ensures a / n + w / n <= (a + w) / n <= a / n + w / n + 1
  {
    Quotient(a, n);
    Quotient(w, n);
    Quotient(a + w, n);
    var lo, hi := a / n + w / n, (a + w) / n;
    assert n * lo == n * (a / n) + n * (w / n);
    if hi < lo {
      MulStrict(n, hi, lo);
    }
    assert n * (lo + 2) == n * lo + 2 * n;
    if lo + 2 <= hi {
      MulMonotone(n, lo + 2, hi);
    }
  }

  /** The parts are in order, start at 0, end at w, and their sizes differ by at most one. */
  lemma PartSizes(w: nat, c: nat, n: nat)
    requires c < n
    ensures Cut(w, 0, n) == 0 && Cut(w, n, n) == w
    ensures 0 <= Cut(w, c, n) <= Cut(w, c + 1, n) <= w
    ensures w / n <= Cut(w, c + 1, n) - Cut(w, c, n) <= w / n + 1
  {
    CutEnds(w, n);
    CutMonotone(w, c, c + 1, n);
    CutMonotone(w, c + 1, n, n);
    CutAtMost(w, c, n, 0);
    CutAtMost(w, c + 1, n, 0);
    assert w * (c + 1) == w * c + w;
    SumQuotient(w * c, w, n);
  }

  // ---- Grid cells

  function Cell(area: Rect, rows: nat, cols: nat, i: nat): Rect
    requires rows > 0 && cols > 0
  {
    var r, c := i / cols, i % cols;
    if r >= rows then EMPTY_RECT
    else
      var x0, x1 := area.x + Cut(area.w, c, cols), area.x + Cut(area.w, c + 1, cols);
      var y0, y1 := area.y + Cut(area.h, r, rows), area.y + Cut(area.h, r + 1, rows);
      Rect(x0, y0, x1 - x0, y1 - y0)
  }

  /** Which cell a pixel is in. */
  function CellIndex(area: Rect, rows: nat, cols: nat, x: int, y: int): int
    requires rows > 0 && cols > 0 && area.Contains(x, y)
  {
    PartOf(area.h, y - area.y, rows) * cols + PartOf(area.w, x - area.x, cols)
  }

  lemma RowMajor(i: nat, cols: nat, r: int, c: int)
    requires 0 < cols && 0 <= c < cols
    ensures i == r * cols + c <==> i / cols == r && i % cols == c
  {
    Quotient(i, cols);
    assert r * cols == cols * r;
    if i == r * cols + c {
      DivMod(i, cols, r, c);
    }
  }

  lemma RowBound(i: nat, rows: nat, cols: nat)
    requires cols > 0
    ensures i / cols < rows <==> i < rows * cols
  {
    Quotient(i, cols);
    assert cols * rows == rows * cols;
    if i / cols < rows {
      MulStrict(cols, i / cols, rows);
    } else {
      MulMonotone(cols, rows, i / cols);
    }
  }

  /** Does offset d of an axis of length w lie in part c of n? */
  predicate InPart(w: int, c: nat, n: nat, d: int)
    requires n > 0
  {
    Cut(w, c, n) <= d < Cut(w, c + 1, n)
  }

  lemma InPartIff(w: nat, c: nat, n: nat, d: int)
    requires c < n
    ensures InPart(w, c, n, d) <==> 0 <= d < w && c == PartOf(w, d, n)
    ensures 0 <= d < w ==> 0 <= PartOf(w, d, n) < n
  {
    PartSizes(w, c, n);
    if 0 <= d < w {
      PartIsUnique(w, d, n, c);
    }
  }

  lemma CellContains(area: Rect, rows: nat, cols: nat, i: nat, x: int, y: int)
    requires rows > 0 && cols > 0
    ensures Cell(area, rows, cols, i).Contains(x, y) <==>
              i / cols < rows && InPart(area.w, i % cols, cols, x - area.x) && InPart(area.h, i / cols, rows, y - area.y)
  {
  }

  /** Every pixel of the area is in exactly one cell of the full grid, and no cell reaches outside the area. */
  lemma GridTiles(area: Rect, rows: nat, cols: nat, i: nat, x: int, y: int)
    requires rows > 0 && cols > 0 && area.w >= 0 && area.h >= 0
    ensures Cell(area, rows, cols, i).Contains(x, y)
            <==> area.Contains(x, y) && i == CellIndex(area, rows, cols, x, y)
    ensures area.Contains(x, y) ==> 0 <= CellIndex(area, rows, cols, x, y) < rows * cols
  {
    CellContains(area, rows, cols, i, x, y);
    InPartIff(area.w, i % cols, cols, x - area.x);
    if i / cols < rows {
      InPartIff(area.h, i / cols, rows, y - area.y);
    }
    if area.Contains(x, y) {
      InPartIff(area.h, 0, rows, y - area.y);
      IndexInRange(area, rows, cols, x, y);
      RowMajor(i, cols, PartOf(area.h, y - area.y, rows), PartOf(area.w, x - area.x, cols));
    }
  }

  lemma IndexInRange(area: Rect, rows: nat, cols: nat, x: int, y: int)
    requires rows > 0 && cols > 0 && area.Contains(x, y)
    requires 0 <= PartOf(area.h, y - area.y, rows) < rows && 0 <= PartOf(area.w, x - area.x, cols) < cols
    ensures 0 <= CellIndex(area, rows, cols, x, y) < rows * cols
  {
    var r := PartOf(area.h, y - area.y, rows);
    MulStrict(cols, r, rows);
    MulMonotone(cols, 0, r);
    assert cols * r == r * cols && cols * rows == rows * cols;
  }

  /** Cells are never larger than their share rounded up, nor smaller than it rounded down; slots beyond are empty. */
  lemma GridCellSize(area: Rect, rows: nat, cols: nat, i: nat)
    requires rows > 0 && cols > 0 && area.w >= 0 && area.h >= 0
    ensures
      var cell := Cell(area, rows, cols, i);
      if i < rows * cols then
        area.w / cols <= cell.w <= area.w / cols + 1 && area.h / rows <= cell.h <= area.h / rows + 1
      else cell == EMPTY_RECT
  {
    RowBound(i, rows, cols);
    var r, c := i / cols, i % cols;
    if r < rows {
      CellExtents(area, rows, cols, i, r, c);
      PartSizes(area.w, c, cols);
      PartSizes(area.h, r, rows);
    }
  }

  lemma CellExtents(area: Rect, rows: nat, cols: nat, i: nat, r: nat, c: nat)
    requires rows > 0 && cols > 0 && r == i / cols < rows && c == i % cols
    ensures Cell(area, rows, cols, i).w == Cut(area.w, c + 1, cols) - Cut(area.w, c, cols)
    ensures Cell(area, rows, cols, i).h == Cut(area.h, r + 1, rows) - Cut(area.h, r, rows)
  {
  }

  // ---- Picture in picture

  function Thickness(spec: LayoutSpec, area: Rect): int {
    var shorter := Min(area.w, area.h);
    if spec.thumb > 0 then spec.thumb else if TruncDiv(shorter, 5) > 1 then TruncDiv(shorter, 5) else 1
  }

  function MainRect(edge: Edge, area: Rect, thumb: int): Rect {
    match edge
    case RightEdge => area.(w := area.w - thumb)
    case LeftEdge => area.(x := area.x + thumb, w := area.w - thumb)
    case BottomEdge => area.(h := area.h - thumb)
    case TopEdge => area.(y := area.y + thumb, h := area.h - thumb)
  }

  function StripRect(edge: Edge, area: Rect, thumb: int): Rect {
    match edge
    case RightEdge => area.(x := area.x + area.w - thumb, w := thumb)
    case LeftEdge => area.(w := thumb)
    case BottomEdge => area.(y := area.y + area.h - thumb, h := thumb)
    case TopEdge => area.(h := thumb)
  }

  predicate Vertical(edge: Edge) {
    edge.RightEdge? || edge.LeftEdge?
  }

  const TWO32 := 0x1_0000_0000
  const TWO64 := 0x1_0000_0000_0000_0000

  /** The strip is cut in 64-bit unsigned arithmetic (the slot counts are unsigned), then cast to 32-bit signed. */
  function UnsignedCut(len: int, k: nat, n: nat): int
    requires n > 0
  {
    var q := ((len % TWO64) * k % TWO64) / n % TWO32;
    if q >= TWO32 / 2 then q - TWO32 else q
  }

  lemma SmallRemainder(a: nat, m: nat)
    requires a < m
    ensures a % m == a
  {
    DivMod(a, m, 0, a);
  }

  lemma UnsignedCutIsExact(len: int, k: nat, n: nat)
    requires 0 <= len < TWO32 / 2 && k <= n && 0 < n < TWO32
    ensures UnsignedCut(len, k, n) == Cut(len, k, n)
  {
    CutAtMost(len, k, n, 0);
    MulMonotone(len, k, n);
    MulMonotone(n, len, TWO32 / 2);
    assert len * n == n * len && n * (TWO32 / 2) < TWO64;
    SmallRemainder(len, TWO64);
    SmallRemainder(len * k, TWO64);
    CutMonotone(len, k, n, n);
    CutEnds(len, n);
    SmallRemainder(len * k / n, TWO32);
  }

  /** For a negative length the unsigned division goes astray: a strip one pixel short of nothing is cut at 0x55555555. */
  lemma NegativeCutGoesAstray()
    ensures UnsignedCut(-1, 1, 3) == 0x5555_5555 && Cut(-1, 1, 3) == 0
  {
    var whole, third := TWO64 - 1, 0x5555_5555_5555_5555;
    DivMod(-1, TWO64, -1, whole);
    DivMod(whole, TWO64, 0, whole);
    DivMod(whole, 3, third, 0);
    DivMod(third, TWO32, 0x5555_5555, 0x5555_5555);
  }

  function Thumb(edge: Edge, strip: Rect, thumbs: nat, k: nat): Rect
    requires thumbs > 0
  {
    if Vertical(edge) then
      var y0, y1 := strip.y + UnsignedCut(strip.h, k, thumbs), strip.y + UnsignedCut(strip.h, k + 1, thumbs);
      Rect(strip.x, y0, strip.w, y1 - y0)
    else
      var x0, x1 := strip.x + UnsignedCut(strip.w, k, thumbs), strip.x + UnsignedCut(strip.w, k + 1, thumbs);
      Rect(x0, strip.y, x1 - x0, strip.h)
  }

  function PipRect(spec: LayoutSpec, area: Rect, slots: nat, i: nat): Rect
    requires i < slots
  {
    var thumb := Thickness(spec, area);
    if i == 0 then MainRect(spec.edge, area, thumb)
    else Thumb(spec.edge, StripRect(spec.edge, area, thumb), slots - 1, i - 1)
  }

  /** Which slot shows a pixel: the main one off the strip, otherwise the thumbnail whose part of the strip it is. */
  function PipIndex(spec: LayoutSpec, area: Rect, slots: nat, x: int, y: int): int
    requires slots >= 2 && area.Contains(x, y)
  {
    if MainRect(spec.edge, area, Thickness(spec, area)).Contains(x, y) then 0
    else if Vertical(spec.edge) then 1 + PartOf(area.h, y - area.y, slots - 1)
    else 1 + PartOf(area.w, x - area.x, slots - 1)
  }

  predicate PipFits(spec: LayoutSpec, area: Rect) {
    && 0 <= area.w < TWO32 / 2 && 0 <= area.h < TWO32 / 2
    && Thickness(spec, area) <= if Vertical(spec.edge) then area.w else area.h
  }

  /** The main rectangle and the strip split the area. */
  lemma MainAndStrip(spec: LayoutSpec, area: Rect, x: int, y: int)
    requires PipFits(spec, area)
    ensures
      var main, strip := MainRect(spec.edge, area, Thickness(spec, area)), StripRect(spec.edge, area, Thickness(spec, area));
      && !(main.Contains(x, y) && strip.Contains(x, y))
      && (main.Contains(x, y) || strip.Contains(x, y) <==> area.Contains(x, y))
      && (Vertical(spec.edge) ==> strip.y == area.y && strip.h == area.h)
      && (!Vertical(spec.edge) ==> strip.x == area.x && strip.w == area.w)
  {
  }

  lemma ThumbsTileStrip(edge: Edge, strip: Rect, thumbs: nat, k: nat, x: int, y: int)
    requires k < thumbs < TWO32 && 0 <= strip.w < TWO32 / 2 && 0 <= strip.h < TWO32 / 2
    ensures Thumb(edge, strip, thumbs, k).Contains(x, y) <==>
              && strip.Contains(x, y)
              && k == if Vertical(edge) then PartOf(strip.h, y - strip.y, thumbs) else PartOf(strip.w, x - strip.x, thumbs)
    ensures strip.Contains(x, y) ==>
              0 <= (if Vertical(edge) then PartOf(strip.h, y - strip.y, thumbs) else PartOf(strip.w, x - strip.x, thumbs)) < thumbs
  {
    var len := if Vertical(edge) then strip.h else strip.w;
    UnsignedCutIsExact(len, k, thumbs);
    UnsignedCutIsExact(len, k + 1, thumbs);
    PartSizes(len, k, thumbs);
    if strip.Contains(x, y) {
      PartIsUnique(len, if Vertical(edge) then y - strip.y else x - strip.x, thumbs, k);
    }
  }

  /** Picture in picture covers every pixel of the area exactly once, for every edge. */
  lemma PipTiles(spec: LayoutSpec, area: Rect, slots: nat, i: nat, x: int, y: int)
    requires PipFits(spec, area) && 2 <= slots <= TWO32 && i < slots
    ensures PipRect(spec, area, slots, i).Contains(x, y)
            <==> area.Contains(x, y) && i == PipIndex(spec, area, slots, x, y)
    ensures area.Contains(x, y) ==> 0 <= PipIndex(spec, area, slots, x, y) < slots
  {
    var strip := StripRect(spec.edge, area, Thickness(spec, area));
    MainAndStrip(spec, area, x, y);
    ThumbsTileStrip(spec.edge, strip, slots - 1, if i > 0 then i - 1 else 0, x, y);
  }

  // Sizes that fit the program's 32-bit coordinates.
  predicate Sized(spec: LayoutSpec, area: Rect) {
    area.w < TWO32 / 2 && area.h < TWO32 / 2 && spec.thumb < TWO32 / 2
  }

  /** Is each pixel of the area in exactly one of the rectangles? */
  ghost predicate CoversOnce(spec: LayoutSpec, area: Rect, slots: nat) {
    forall x, y | area.Contains(x, y) :: exists i: nat ::
      && i < slots && PipRect(spec, area, slots, i).Contains(x, y)
      && forall j: nat | j < slots && PipRect(spec, area, slots, j).Contains(x, y) :: j == i
  }

  /** Do the rectangles show nothing but pixels of the area? */
  ghost predicate StaysInside(spec: LayoutSpec, area: Rect, slots: nat) {
    forall i: nat, x, y | i < slots && PipRect(spec, area, slots, i).Contains(x, y) :: area.Contains(x, y)
  }

  /** A pixel of the area is in the rectangle its index names and in no other, however thick the strip. */
  lemma PipPixel(spec: LayoutSpec, area: Rect, slots: nat, i: nat, x: int, y: int)
    requires Sized(spec, area) && 2 <= slots <= TWO32 && i < slots && area.Contains(x, y)
    ensures PipRect(spec, area, slots, i).Contains(x, y) <==> i == PipIndex(spec, area, slots, x, y)
    ensures 0 <= PipIndex(spec, area, slots, x, y) < slots
  {
    var strip := StripRect(spec.edge, area, Thickness(spec, area));
    assert MainRect(spec.edge, area, Thickness(spec, area)).Contains(x, y) <==> !strip.Contains(x, y);
    ThumbsTileStrip(spec.edge, strip, slots - 1, if i > 0 then i - 1 else 0, x, y);
  }

  /** Picture in picture shows every pixel of the area exactly once, always. */
  lemma PipCoversOnce(spec: LayoutSpec, area: Rect, slots: nat)
    requires Sized(spec, area) && 2 <= slots <= TWO32
    ensures CoversOnce(spec, area, slots)
  {
    forall x, y | area.Contains(x, y)
      ensures exists i: nat ::
        && i < slots && PipRect(spec, area, slots, i).Contains(x, y)
        && forall j: nat | j < slots && PipRect(spec, area, slots, j).Contains(x, y) :: j == i
    {
      PipPixel(spec, area, slots, 0, x, y);
      var i: nat := PipIndex(spec, area, slots, x, y);
      PipPixel(spec, area, slots, i, x, y);
      forall j: nat | j < slots && PipRect(spec, area, slots, j).Contains(x, y) ensures j == i {
        PipPixel(spec, area, slots, j, x, y);
      }
    }
  }

  /** A thumbnail shows this pixel outside the area when the strip is thicker than the area. */
  function StickingOut(edge: Edge, area: Rect, thumb: int): Point {
    match edge
    case RightEdge => Point(area.x + area.w - thumb, area.y)
    case BottomEdge => Point(area.x, area.y + area.h - thumb)
    case LeftEdge => Point(area.x + thumb - 1, area.y)
    case TopEdge => Point(area.x, area.y + thumb - 1)
  }

  /** ... but it shows pixels outside the area exactly when the strip is thicker than the area. */
  lemma PipStaysInsideIffFits(spec: LayoutSpec, area: Rect, slots: nat)
    requires Sized(spec, area) && 2 <= slots <= TWO32 && 0 < area.w && 0 < area.h
    ensures StaysInside(spec, area, slots) <==> PipFits(spec, area)
  {
    if PipFits(spec, area) {
      forall i: nat, x, y | i < slots && PipRect(spec, area, slots, i).Contains(x, y) ensures area.Contains(x, y) {
        PipTiles(spec, area, slots, i, x, y);
      }
    } else {
      var thumb := Thickness(spec, area);
      var strip, p := StripRect(spec.edge, area, thumb), StickingOut(spec.edge, area, thumb);
      ThumbsTileStrip(spec.edge, strip, slots - 1, 0, p.x, p.y);
      var k := if Vertical(spec.edge) then PartOf(strip.h, 0, slots - 1) else PartOf(strip.w, 0, slots - 1);
      ThumbsTileStrip(spec.edge, strip, slots - 1, k, p.x, p.y);
      assert PipRect(spec, area, slots, k + 1).Contains(p.x, p.y) && !area.Contains(p.x, p.y);
    }
  }

  // ---- The layout as a whole

  function SlotRect(spec: LayoutSpec, area: Rect, slots: nat, i: nat): Rect
    requires i < slots
  {
    match spec.kind
    case Stacked => area
    case Grid =>
      if spec.rows <= 0 || spec.cols <= 0 then
        DerivedGridFits(slots);
        Cell(area, GridRows(slots), GridCols(slots), i)
      else Cell(area, spec.rows, spec.cols, i)
    case Pip => PipRect(spec, area, slots, i)
  }

  /** Thickness of the strip: as asked for, otherwise a fifth of the shorter side rounded down, at least one pixel. */
  predicate StripThickness(spec: LayoutSpec, area: Rect, t: int) {
    var shorter := if area.w <= area.h then area.w else area.h;
    if spec.thumb > 0 then t == spec.thumb
    else if shorter < 10 then t == 1
    else 5 * t <= shorter < 5 * (t + 1)
  }

  /** The main picture is the area without the strip along the edge named. */
  predicate IsMainPicture(spec: LayoutSpec, area: Rect, main: Rect) {
    match spec.edge
    case RightEdge =>
      main.x == area.x && main.y == area.y && main.h == area.h && StripThickness(spec, area, area.w - main.w)
    case BottomEdge =>
      main.x == area.x && main.y == area.y && main.w == area.w && StripThickness(spec, area, area.h - main.h)
    case LeftEdge =>
      && main.x + main.w == area.x + area.w && main.y == area.y && main.h == area.h
      && StripThickness(spec, area, main.x - area.x)
    case TopEdge =>
      && main.x == area.x && main.y + main.h == area.y + area.h && main.w == area.w
      && StripThickness(spec, area, main.y - area.y)
  }

  lemma MainPicture(spec: LayoutSpec, area: Rect)
    ensures IsMainPicture(spec, area, MainRect(spec.edge, area, Thickness(spec, area)))
  {
    var shorter := Min(area.w, area.h);
    assert shorter >= 0 ==> shorter == 5 * (shorter / 5) + shorter % 5;
    assert shorter < 0 ==> TruncDiv(shorter, 5) <= 0;
  }

  lemma NextInRow(i: nat, cols: nat)
    requires cols > 0
    ensures i % cols + 1 < cols ==> (i + 1) / cols == i / cols && (i + 1) % cols == i % cols + 1
    ensures (i + cols) / cols == i / cols + 1 && (i + cols) % cols == i % cols
  {
    Quotient(i, cols);
    if i % cols + 1 < cols {
      DivMod(i + 1, cols, i / cols, i % cols + 1);
    }
    assert cols * (i / cols + 1) == cols * (i / cols) + cols;
    DivMod(i + cols, cols, i / cols + 1, i % cols);
  }

  lemma TopLeftCell(area: Rect, rows: nat, cols: nat)
    requires rows > 0 && cols > 0 && area.w >= 0 && area.h >= 0
    ensures Cell(area, rows, cols, 0).x == area.x && Cell(area, rows, cols, 0).y == area.y
  {
    DivMod(0, cols, 0, 0);
    CutEnds(area.w, cols);
    CutEnds(area.h, rows);
  }

  /** Row-major from the top left corner: the next slot is to the right, the slot a row on is below. */
  lemma GridIsRowMajor(area: Rect, rows: nat, cols: nat, i: nat)
    requires rows > 0 && cols > 0 && area.w >= 0 && area.h >= 0 && i < rows * cols
    ensures Cell(area, rows, cols, 0).x == area.x && Cell(area, rows, cols, 0).y == area.y
    ensures i % cols + 1 < cols ==>
              var cell, next := Cell(area, rows, cols, i), Cell(area, rows, cols, i + 1);
              next.x == cell.Right() && next.y == cell.y && next.h == cell.h
    ensures i / cols + 1 < rows ==>
              var cell, below := Cell(area, rows, cols, i), Cell(area, rows, cols, i + cols);
              below.y == cell.Bottom() && below.x == cell.x && below.w == cell.w
  {
    TopLeftCell(area, rows, cols);
    RowBound(i, rows, cols);
    NextInRow(i, cols);
  }

  method FillGrid(out: array<Rect>, area: Rect, rows: nat, cols: nat)
    requires rows > 0 && cols > 0
    modifies out
    ensures forall i: nat | i < out.Length :: out[i] == Cell(area, rows, cols, i)
  {
    for i := 0 to out.Length
      invariant forall j: nat | j < i :: out[j] == Cell(area, rows, cols, j)
    {
      var r, c := i / cols, i % cols;
      if r >= rows {
        out[i] := EMPTY_RECT;
      } else {
        var x0, x1 := area.x + Cut(area.w, c, cols), area.x + Cut(area.w, c + 1, cols);
        var y0, y1 := area.y + Cut(area.h, r, rows), area.y + Cut(area.h, r + 1, rows);
        out[i] := Rect(x0, y0, x1 - x0, y1 - y0);
      }
      assert out[i] == Cell(area, rows, cols, i);
    }
  }

  method FillPip(out: array<Rect>, spec: LayoutSpec, area: Rect)
    requires out.Length > 0
    modifies out
    ensures forall i: nat | i < out.Length :: out[i] == PipRect(spec, area, out.Length, i)
  {
    var thumb := Thickness(spec, area);
    var strip := StripRect(spec.edge, area, thumb);
    out[0] := MainRect(spec.edge, area, thumb);
    for i := 1 to out.Length
      invariant forall j: nat | j < i :: out[j] == PipRect(spec, area, out.Length, j)
    {
      out[i] := Thumb(spec.edge, strip, out.Length - 1, i - 1);
      assert out[i] == PipRect(spec, area, out.Length, i);
    }
  }

  method ComputeLayout(spec: LayoutSpec, area: Rect, slots: nat) returns (out: array<Rect>)
    ensures fresh(out) && out.Length == slots
    ensures forall i: nat | i < slots :: out[i] == SlotRect(spec, area, slots, i)
    ensures spec.kind == Stacked ==> forall i: nat | i < slots :: out[i] == area
    ensures spec.kind == Pip && slots > 0 ==> IsMainPicture(spec, area, out[0])
    ensures spec.kind == Grid && spec.rows > 0 && spec.cols > 0 ==>
              forall i: nat | i < slots :: out[i] == Cell(area, spec.rows, spec.cols, i)
  {
    MainPicture(spec, area);
    out := new Rect[slots](_ => EMPTY_RECT);
    if slots == 0 {
      return;
    }
    match spec.kind {
      case Stacked =>
        forall i | 0 <= i < slots {
          out[i] := area;
        }
      case Grid =>
        var rows, cols := spec.rows, spec.cols;
        if rows <= 0 || cols <= 0 {
          rows, cols := DeriveGrid(slots);
          DerivedGridFits(slots);
        }
        FillGrid(out, area, rows, cols);
      case Pip =>
        FillPip(out, spec, area);
    }
  }
}
