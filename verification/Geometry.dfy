/** Screen rectangles and pointer coordinate maps, with the source's doubles as exact reals. */
module Geometry {
  import opened Arithmetic
  import opened Sequences

  datatype Rect = Rect(x: int, y: int, w: int, h: int) {
    function Right(): int { x + w }

    function Bottom(): int { y + h }

    predicate Contains(px: int, py: int) {
      x <= px < Right() && y <= py < Bottom()
    }
  }

  datatype Point = Point(x: int, y: int)

  datatype NormPoint = NormPoint(u: real, v: real)

  function Clamp01(r: real): real {
    if r < 0.0 then 0.0 else if r > 1.0 then 1.0 else r
  }

  /** The cast from floating point to integer: toward zero. */
  function Truncated(r: real): int {
    if r >= 0.0 then r.Floor else -(-r).Floor
  }

  function Min(a: int, b: int): int {
    if a <= b then a else b
  }

  function NormalizeAxis(origin: int, extent: int, s: int): real {
    (s - origin) as real / (if extent > 0 then extent as real else 1.0)
  }

  function Normalize(client: Rect, sx: int, sy: int): NormPoint {
    NormPoint(NormalizeAxis(client.x, client.w, sx), NormalizeAxis(client.y, client.h, sy))
  }

  function DenormalizeAxis(origin: int, extent: int, u: real): int {
    var p := origin + Truncated(Clamp01(u) * extent as real + 0.5);
    if extent > 0 then Min(p, origin + extent - 1) else p
  }

  function Denormalize(client: Rect, p: NormPoint): Point {
    Point(DenormalizeAxis(client.x, client.w, p.u), DenormalizeAxis(client.y, client.h, p.v))
  }

  const ABS_MAX := 65535

  function Scale(v: int, origin: int, extent: int): int {
    if extent <= 1 then 0
    else Truncated(Clamp01((v - origin) as real / (extent - 1) as real) * ABS_MAX as real + 0.5)
  }

  datatype AbsPoint = AbsPoint(ax: int, ay: int)

  function ToAbsolute(screen: Rect, sx: int, sy: int): AbsPoint {
    AbsPoint(Scale(sx, screen.x, screen.w), Scale(sy, screen.y, screen.h))
  }

  // ---- Rounding to the nearest point of another grid

  /** d steps of a grid of `w` steps, in steps of a grid of `t`, halves rounded up. */
  function Rounded(d: nat, t: nat, w: nat): (r: nat)
    requires 0 < w
  {
    (2 * (d * t) + w) / (2 * w)
  }

  lemma FloorByBracket(r: real, q: int, n: int, d: int)
    requires 0 < d && r * d as real == n as real && d * q <= n < d * q + d
    ensures r.Floor == q
  {
    assert (q + 1) * d == d * q + d;
    AtLeast(r, q, n, d);
    Below(r, q + 1, n, d);
  }

  lemma AtLeast(r: real, q: int, n: int, d: int)
    requires 0 < d && r * d as real == n as real && q * d <= n
    ensures q as real <= r
  {
    WholeProduct(q, d);
    if r < q as real {
      RealMulStrict(r, q as real, d as real);
    }
  }

  lemma Below(r: real, q: int, n: int, d: int)
    requires 0 < d && r * d as real == n as real && n < q * d
    ensures r < q as real
  {
    WholeProduct(q, d);
    if q as real <= r {
      RealMul(q as real, r, d as real);
    }
  }

  lemma WholeProduct(a: int, b: int)
    ensures a as real * b as real == (a * b) as real == (b * a) as real
  {
  }

  lemma RealMulStrict(a: real, b: real, c: real)
    requires a < b && 0.0 < c
    ensures a * c < b * c
  {
  }

  lemma RealMul(a: real, b: real, c: real)
    requires a <= b && 0.0 < c
    ensures a * c <= b * c
  {
  }

  /** The real-number expression of the source is integer rounding. */
  lemma RealRounding(d: nat, t: nat, w: nat)
    requires 0 < w
    ensures Truncated(d as real / w as real * t as real + 0.5) == Rounded(d, t, w)
  {
    var f := d as real / w as real;
    assert f * w as real == d as real;
    var r := f * t as real + 0.5;
    var n := 2 * (d * t) + w;
    ScaledUp(f, d, t, w);
    Quotient(n, 2 * w);
    FloorByBracket(r, n / (2 * w), n, 2 * w);
    assert f >= 0.0;
    assert f * t as real >= 0.0;
  }

  lemma ScaledUp(f: real, d: nat, t: nat, w: nat)
    requires f * w as real == d as real
    ensures (f * t as real + 0.5) * (2 * w) as real == (2 * (d * t) + w) as real
  {
    calc {
      (f * t as real + 0.5) * (2 * w) as real;
      2.0 * (f * t as real * w as real) + w as real;
      2.0 * (f * w as real * t as real) + w as real;
      2.0 * (d as real * t as real) + w as real;
    }
  }

  /** Onto a grid at least as fine and back is the identity. */
  lemma RoundTrip(d: nat, t: nat, w: nat)
    requires 0 < w <= t
    ensures Rounded(Rounded(d, t, w), w, t) == d
  {
    var p := Rounded(d, t, w);
    Quotient(2 * (d * t) + w, 2 * w);
    assert 2 * w * p == 2 * (p * w) && 2 * t * d == 2 * (d * t);
    if w == t {
      Bracket(2 * (d * t) + w, 2 * w, d);
    }
    Bracket(2 * (p * w) + t, 2 * t, d);
  }

  lemma RoundedInside(d: nat, t: nat, w: nat)
    requires d < w <= t
    ensures Rounded(d, t, w) < t
  {
    var p := Rounded(d, t, w);
    Quotient(2 * (d * t) + w, 2 * w);
    MulStrict(t, d, w);
    assert 2 * w * t == 2 * (t * w) && d * t == t * d;
    if t <= p {
      MulMonotone(2 * w, t, p);
    }
  }

  lemma RoundedMonotone(a: nat, b: nat, t: nat, w: nat)
    requires a <= b && 0 < w
    ensures Rounded(a, t, w) <= Rounded(b, t, w)
  {
    MulMonotone(t, a, b);
    QuotientMonotone(2 * (a * t) + w, 2 * (b * t) + w, 2 * w);
  }

  // ---- Client to client

  /** Whatever fraction comes in, the point lands inside a non-empty client. */
  lemma DenormalizeLandsInside(client: Rect, p: NormPoint)
    requires client.w > 0 && client.h > 0
    ensures client.Contains(Denormalize(client, p).x, Denormalize(client, p).y)
  {
    NonNegative(Clamp01(p.u), client.w);
    NonNegative(Clamp01(p.v), client.h);
  }

  lemma NonNegative(u: real, extent: int)
    requires 0.0 <= u && 0 < extent
    ensures Truncated(u * extent as real + 0.5) >= 0
  {
    assert u * extent as real >= 0.0;
  }

  lemma UnitFraction(d: nat, w: nat)
    requires d <= w && 0 < w
    ensures 0.0 <= d as real / w as real <= 1.0
  {
    var f := d as real / w as real;
    assert f * w as real == d as real;
    if f > 1.0 {
      RealMulStrict(1.0, f, w as real);
    }
  }

  /** Where position `s` on one client axis lands on another. */
  function AxisMap(from: int, w: int, to: int, t: int, s: int): int {
    DenormalizeAxis(to, t, NormalizeAxis(from, w, s))
  }

  lemma AxisMapRounds(from: int, w: int, to: int, t: int, d: nat)
    requires d < w && 0 < t
    ensures AxisMap(from, w, to, t, from + d) == to + Min(Rounded(d, t, w), t - 1)
  {
    RealRounding(d, t, w);
    UnitFraction(d, w);
  }

  lemma AxisRoundTrip(from: int, w: int, to: int, t: int, d: nat)
    requires d < w <= t
    ensures AxisMap(to, t, from, w, AxisMap(from, w, to, t, from + d)) == from + d
  {
    AxisMapRounds(from, w, to, t, d);
    RoundedInside(d, t, w);
    RoundTrip(d, t, w);
    AxisMapRounds(to, t, from, w, Rounded(d, t, w));
  }

  /** Every in-client point survives master -> target -> master when the target is at least as large per axis. */
  lemma PointRoundTrip(master: Rect, target: Rect, sx: int, sy: int)
    requires master.Contains(sx, sy) && master.w <= target.w && master.h <= target.h
    ensures
      var there := Denormalize(target, Normalize(master, sx, sy));
      Denormalize(master, Normalize(target, there.x, there.y)) == Point(sx, sy)
  {
    AxisRoundTrip(master.x, master.w, target.x, target.w, sx - master.x);
    AxisRoundTrip(master.y, master.h, target.y, target.h, sy - master.y);
  }

  /** ... and on an axis where the target is smaller, some point does not. */
  lemma AxisRoundTripsIffFineEnough(from: int, w: int, to: int, t: int)
    requires 0 < w && 0 < t
    ensures (forall s | from <= s < from + w :: AxisMap(to, t, from, w, AxisMap(from, w, to, t, s)) == s) <==> w <= t
  {
    if w <= t {
      forall s | from <= s < from + w ensures AxisMap(to, t, from, w, AxisMap(from, w, to, t, s)) == s {
        AxisRoundTrip(from, w, to, t, s - from);
      }
    } else if forall s | from <= s < from + w :: AxisMap(to, t, from, w, AxisMap(from, w, to, t, s)) == s {
      var image := (d: nat) => AxisMap(from, w, to, t, from + d) - to;
      forall d: nat | d < w ensures 0 <= image(d) < t {
        AxisMapRounds(from, w, to, t, d);
      }
      var images: seq<nat> := seq(w, d requires 0 <= d < w => image(d));
      assert forall i, j | 0 <= i < j < w :: images[i] != images[j] by {
        forall i, j | 0 <= i < j < w ensures images[i] != images[j] {
          assert AxisMap(to, t, from, w, to + images[i]) == from + i;
          assert AxisMap(to, t, from, w, to + images[j]) == from + j;
        }
      }
      Pigeonhole(images, t);
    }
  }

  /** A fraction of a whole extent, by the sign of what is divided and by whether it exceeds the extent. */
  lemma RatioEnds(d: int, x: int)
    requires 0 < x
    ensures d <= 0 ==> d as real / x as real <= 0.0
    ensures d >= x ==> d as real / x as real >= 1.0
  {
    var r := d as real / x as real;
    assert r * x as real == d as real;
    if d <= 0 && r > 0.0 {
      RealMulStrict(0.0, r, x as real);
    }
    if d >= x && r < 1.0 {
      RealMulStrict(r, 1.0, x as real);
    }
  }

  lemma AxisEnds(to: int, t: int, u: real)
    requires 0 < t
    ensures u <= 0.0 ==> DenormalizeAxis(to, t, u) == to
    ensures u >= 1.0 ==> DenormalizeAxis(to, t, u) == to + t - 1
  {
    assert 0.0 * t as real == 0.0 && 1.0 * t as real == t as real;
  }

  /** Positions outside the master's client go to the near end of the target's axis; without a client, its origin parts them. */
  lemma OutsideGoesToTheEnds(from: int, w: int, to: int, t: int, s: int)
    requires 0 < t
    ensures s <= from ==> AxisMap(from, w, to, t, s) == to
    ensures s > from && s >= from + w ==> AxisMap(from, w, to, t, s) == to + t - 1
  {
    var x := if w > 0 then w else 1;
    assert NormalizeAxis(from, w, s) == (s - from) as real / x as real;
    RatioEnds(s - from, x);
    AxisEnds(to, t, NormalizeAxis(from, w, s));
  }

  // ---- Screen to absolute units

  lemma ScaleRounds(v: int, origin: int, extent: int)
    requires extent >= 2 && origin <= v < origin + extent
    ensures Scale(v, origin, extent) == Rounded(v - origin, ABS_MAX, extent - 1)
    ensures 0 <= Scale(v, origin, extent) <= ABS_MAX
  {
    var d, w := v - origin, extent - 1;
    RealRounding(d, ABS_MAX, w);
    UnitFraction(d, w);
    RoundedMonotone(d, w, ABS_MAX, w);
    Bracket(2 * (w * ABS_MAX) + w, 2 * w, ABS_MAX);
  }

  /** Nearest-pixel decoding of absolute units. */
  function DecodeAbsolute(a: nat, origin: int, extent: int): int
    requires extent >= 2
  {
    origin + Rounded(a, extent - 1, ABS_MAX)
  }

  /** Up to 65536 pixels every pixel is recovered, and larger pixels have strictly larger units. */
  lemma AbsoluteRecoversPixel(v: int, origin: int, extent: int)
    requires 2 <= extent <= ABS_MAX + 1 && origin <= v < origin + extent
    ensures Scale(v, origin, extent) >= 0 && DecodeAbsolute(Scale(v, origin, extent), origin, extent) == v
  {
    ScaleRounds(v, origin, extent);
    RoundTrip(v - origin, ABS_MAX, extent - 1);
  }

  /** The nearest of the `extent` pixels from `origin` on. */
  function ClampTo(v: int, origin: int, extent: int): int {
    if v < origin then origin else if v >= origin + extent then origin + extent - 1 else v
  }

  lemma ScaleClamps(v: int, origin: int, extent: int)
    requires 1 <= extent
    ensures Scale(v, origin, extent) == Scale(ClampTo(v, origin, extent), origin, extent)
  {
    if extent >= 2 {
      var w := (extent - 1) as real;
      var t := (v - origin) as real / w;
      assert t * w == (v - origin) as real;
      if v < origin {
        BelowUnit(t, w);
      } else if v >= origin + extent {
        AboveUnit(t, w);
        assert (extent - 1) as real / w == 1.0;
      }
    }
  }

  lemma BelowUnit(t: real, w: real)
    requires 0.0 < w && t * w < 0.0
    ensures t < 0.0
  {
  }

  lemma AboveUnit(t: real, w: real)
    requires 0.0 < w && t * w > w
    ensures t > 1.0
  {
    if t <= 1.0 {
      RealMul(t, 1.0, w);
    }
  }

  /** Positions get the same units exactly when their nearest pixels are the same. */
  lemma SameUnitsIffSamePixel(v: int, v': int, origin: int, extent: int)
    requires 1 <= extent <= ABS_MAX + 1
    ensures Scale(v, origin, extent) == Scale(v', origin, extent)
            <==> ClampTo(v, origin, extent) == ClampTo(v', origin, extent)
  {
    ScaleClamps(v, origin, extent);
    ScaleClamps(v', origin, extent);
    if extent >= 2 {
      AbsoluteRecoversPixel(ClampTo(v, origin, extent), origin, extent);
      AbsoluteRecoversPixel(ClampTo(v', origin, extent), origin, extent);
    }
  }

  lemma AbsoluteStrictlyMonotone(v: int, v': int, origin: int, extent: int)
    requires 2 <= extent <= ABS_MAX + 1 && origin <= v < v' < origin + extent
    ensures Scale(v, origin, extent) < Scale(v', origin, extent)
  {
    AbsoluteRecoversPixel(v, origin, extent);
    AbsoluteRecoversPixel(v', origin, extent);
    ScaleRounds(v, origin, extent);
    ScaleRounds(v', origin, extent);
    RoundedMonotone(v - origin, v' - origin, ABS_MAX, extent - 1);
  }

  /** The first and last pixel are the ends of the range. */
  lemma AbsoluteEnds(origin: int, extent: int)
    requires extent >= 2
    ensures Scale(origin, origin, extent) == 0 && Scale(origin + extent - 1, origin, extent) == 65535
  {
    var w := extent - 1;
    ScaleRounds(origin, origin, extent);
    ScaleRounds(origin + w, origin, extent);
    Bracket(w, 2 * w, 0);
    Bracket(2 * (w * ABS_MAX) + w, 2 * w, ABS_MAX);
  }
}
