/** The image normaliser: what `enforce_aspect_pad` (abcd.py:83-101) and `_resize_for_pdf`
    (abcd.py:103-113) do to an image's dimensions. Pixel contents are not modelled; a
    picture is its size, and padding is the canvas it is pasted into plus the offset. */
module Normalize {
  import opened Outcome

  /** The pixel dimensions of an image. */
  datatype Size = Size(w: nat, h: nat)

  /** What `enforce_aspect_pad` returns: the image itself, or a new white canvas with the
      image pasted at offset (`x`, `y`). */
  datatype Padding = Unchanged | Padded(canvas: Size, x: int, y: int)

  /** The longer side, `max(w, h)`. */
  function Longer(s: Size): nat
  {
    if s.w >= s.h then s.w else s.h
  }

  function Abs(x: int): nat
  {
    if x < 0 then -x else x
  }

  /** Python's `round` on a real: the nearest integer, ties going to the even one. */
  function RoundHalfEven(x: real): (r: int)
    ensures x - 0.5 <= r as real <= x + 0.5
    ensures (r as real - x == 0.5 || x - r as real == 0.5) ==> r % 2 == 0
  {
    var f := x.Floor;
    var d := x - f as real;
    if d < 0.5 then f
    else if d > 0.5 then f + 1
    else if f % 2 == 0 then f
    else f + 1
  }

  /** The target ratio 4/3 of both padding calls (abcd.py:178, 351). */
  const Target: real := 4.0 / 3.0

  /** The tolerance of line 87. */
  const Tolerance: real := 0.001

  function AbsReal(x: real): real
  {
    if x < 0.0 then -x else x
  }

  /** `abs(w / h - 4/3) < 1e-3`: the image is already 4:3 as far as the padder cares. */
  predicate NearTarget(s: Size)
    requires s.h > 0
  {
    AbsReal(s.w as real / s.h as real - Target) < Tolerance
  }

  /** `w / h > 4/3`: the image is wider than 4:3. */
  predicate Wider(s: Size)
    requires s.h > 0
  {
    s.w as real / s.h as real > Target
  }

  /** `w / h` minus the target, scaled by `3h`, is the whole number `3w - 4h`. */
  lemma ScaledGap(s: Size)
    requires s.h > 0
    ensures (s.w as real / s.h as real - Target) * (3 * s.h) as real == (3 * s.w - 4 * s.h) as real
  {
    var q := s.w as real / s.h as real;
    assert q * s.h as real == s.w as real;
  }

  /** Multiplying by a positive factor keeps strict order, in both directions. */
  lemma ScaleKeepsOrder(x: real, y: real, k: real)
    requires k > 0.0
    ensures x < y <==> x * k < y * k
  {
    assert y * k - x * k == (y - x) * k;
    if x < y {
      assert (y - x) * k > 0.0;
    } else {
      assert (x - y) * k >= 0.0;
    }
  }

  /** Scaling by a positive factor commutes with taking the absolute value. */
  lemma ScaleKeepsAbs(d: real, k: real, e: real)
    requires k > 0.0 && d * k == e
    ensures AbsReal(d) * k == AbsReal(e)
  {
    ScaleKeepsOrder(d, 0.0, k);
    if d < 0.0 {
      assert (-d) * k == -(d * k);
    }
  }

  /** The tolerance `x < 1e-3`, scaled by a positive `k`. */
  lemma ToleranceScaled(x: real, k: real, g: real)
    requires k > 0.0 && x * k == g
    ensures x < 0.001 <==> 1000.0 * g < k
  {
    ScaleKeepsOrder(x, 0.001, k);
  }

  /** The tolerance test of line 87 in whole numbers. */
  lemma NearTargetInIntegers(s: Size)
    requires s.h > 0
    ensures NearTarget(s) <==> 1000 * Abs(3 * s.w - 4 * s.h) < 3 * s.h
  {
    var d := s.w as real / s.h as real - Target;
    var k := (3 * s.h) as real;
    var g := Abs(3 * s.w - 4 * s.h);
    ScaledGap(s);
    ScaleKeepsAbs(d, k, (3 * s.w - 4 * s.h) as real);
    assert AbsReal((3 * s.w - 4 * s.h) as real) == g as real;
    ToleranceScaled(AbsReal(d), k, g as real);
  }

  /** Scaling by a positive factor keeps the sign. */
  lemma SignScaled(d: real, k: real, g: real)
    requires k > 0.0 && d * k == g
    ensures 0.0 < d <==> 0.0 < g
  {
    ScaleKeepsOrder(0.0, d, k);
  }

  /** The branch test of line 90 in whole numbers. */
  lemma WiderInIntegers(s: Size)
    requires s.h > 0
    ensures Wider(s) <==> 3 * s.w > 4 * s.h
  {
    var q := s.w as real / s.h as real;
    ScaledGap(s);
    SignScaled(q - Target, (3 * s.h) as real, (3 * s.w - 4 * s.h) as real);
  }

  /** `img` placed at (`x`, `y`) lies inside `canvas`, and is centred: on each axis the
      margin after it is the margin before it or one more. */
  predicate CentredIn(img: Size, canvas: Size, x: int, y: int)
  {
    && 0 <= x && x + img.w <= canvas.w && 0 <= canvas.w - img.w - 2 * x <= 1
    && 0 <= y && y + img.h <= canvas.h && 0 <= canvas.h - img.h - 2 * y <= 1
  }

  /** `canvas` grows exactly one side of `img` and keeps the other. */
  predicate GrowsOneSide(img: Size, canvas: Size)
  {
    || (canvas.w == img.w && canvas.h >= img.h)
    || (canvas.h == img.h && canvas.w >= img.w)
  }

  /** `canvas` is 4:3 up to the rounding of one side: `3w - 4h` is at most 2 away from 0. */
  predicate AlmostFourThree(canvas: Size)
  {
    Abs(3 * canvas.w - 4 * canvas.h) <= 2
  }

  /** `h` is `round(w * 3/4)` (line 91): within 1/2 of `3w/4`, and even on a tie, which
      is what Python's `round` does with a value exactly halfway. */
  predicate RoundsThreeQuarters(w: int, h: int)
  {
    Abs(4 * h - 3 * w) <= 2 && (Abs(4 * h - 3 * w) == 2 ==> h % 2 == 0)
  }

  /** `w` is `round(h * 4/3)` (line 94): within 1/2 of `4h/3`, where a tie cannot occur. */
  predicate RoundsFourThirds(h: int, w: int)
  {
    Abs(3 * w - 4 * h) <= 1
  }

  /** Rounding `w * 3/4` the way Python does meets `RoundsThreeQuarters`. */
  lemma RoundThreeQuarters(w: nat)
    ensures RoundsThreeQuarters(w, RoundHalfEven(w as real * 3.0 / 4.0))
  {
    var x := w as real * 3.0 / 4.0;
    var h := RoundHalfEven(x);
    assert (4 * h - 3 * w) as real == 4.0 * (h as real - x);
  }

  /** Rounding `h * 4/3` the way Python does meets `RoundsFourThirds`. */
  lemma RoundFourThirds(h: nat)
    ensures RoundsFourThirds(h, RoundHalfEven(h as real * 4.0 / 3.0))
  {
    var x := h as real * 4.0 / 3.0;
    var w := RoundHalfEven(x);
    assert (3 * w - 4 * h) as real == 3.0 * (w as real - x);
  }

  /** `RoundsThreeQuarters` pins the height down: two heights that meet it are equal. */
  lemma ThreeQuartersUnique(w: int, h: int, k: int)
    requires RoundsThreeQuarters(w, h) && RoundsThreeQuarters(w, k)
    ensures h == k
  {
  }

  /** `RoundsFourThirds` pins the width down: two widths that meet it are equal. */
  lemma FourThirdsUnique(h: int, w: int, v: int)
    requires RoundsFourThirds(h, w) && RoundsFourThirds(h, v)
    ensures w == v
  {
  }

  /** `enforce_aspect_pad(img, 4/3)` on dimensions. A zero height is the division
      error of line 86; an image within the tolerance is returned as it is; otherwise a
      wider image keeps its width and gets the height `round(w * 3/4)`, a taller one keeps
      its height and gets the width `round(h * 4/3)`, and the image is centred in the
      new canvas, which is 4:3 up to rounding and never smaller than the image. */
  function PadToFourThree(s: Size): (r: Result<Padding>)
    ensures r.Err? <==> s.h == 0
    ensures r.Ok? ==> (r.value.Unchanged? <==> NearTarget(s))
    ensures r.Ok? && r.value.Padded? ==>
      && CentredIn(s, r.value.canvas, r.value.x, r.value.y)
      && GrowsOneSide(s, r.value.canvas)
      && AlmostFourThree(r.value.canvas)
      && (Wider(s) ==> r.value.canvas.w == s.w && RoundsThreeQuarters(s.w, r.value.canvas.h))
      && (!Wider(s) ==> r.value.canvas.h == s.h && RoundsFourThirds(s.h, r.value.canvas.w))
  {
    if s.h == 0 then Err(ZeroHeight)
    else
      NearTargetInIntegers(s);
      WiderInIntegers(s);
      if 1000 * Abs(3 * s.w - 4 * s.h) < 3 * s.h then Ok(Unchanged)
      else if 3 * s.w > 4 * s.h then
        var h := RoundHalfEven(s.w as real * 3.0 / 4.0);
        RoundThreeQuarters(s.w);
        Ok(Padded(Size(s.w, h), (s.w - s.w) / 2, (h - s.h) / 2))
      else
        var w := RoundHalfEven(s.h as real * 4.0 / 3.0);
        RoundFourThirds(s.h);
        Ok(Padded(Size(w, s.h), (w - s.w) / 2, (s.h - s.h) / 2))
  }

  /** The cap on the longer side that `build_pdf` passes (abcd.py:179). */
  const MaxPixels: nat := 1400

  /** Whole-number division rounds down: `q = a / b` is the `q` with `q*b <= a < (q+1)*b`. */
  lemma DivBounds(a: nat, b: nat)
    requires b > 0
    ensures (a / b) * b <= a < (a / b + 1) * b
  {
  }

  /** Multiplying by a natural number keeps order. */
  lemma MulMono(a: int, b: int, c: nat)
    requires a <= b
    ensures a * c <= b * c
  {
    assert b * c - a * c == (b - a) * c;
  }

  /** A multiple of a positive `n` that is at most `x * n` has a factor at most `x`. */
  lemma FactorBound(q: int, x: int, n: nat)
    requires n > 0 && q * n <= x * n
    ensures q <= x
  {
    if q > x {
      MulMono(x + 1, q, n);
    }
  }

  /** `int(short * (cap / long))`: the shorter side scaled by the same factor that takes
      the longer side to the cap, rounded down. With `cap < long` it is at most `cap` and
      at most `short`. */
  function ScaleShort(short: nat, long: nat, cap: nat): (r: nat)
    requires short <= long && cap < long
    ensures r * long <= short * cap < (r + 1) * long
    ensures r <= cap && r <= short
  {
    MulMono(0, short, cap);
    var q := (short * cap) / long;
    assert 0 <= q;
    DivBounds(short * cap, long);
    MulMono(short, long, cap);
    assert long * cap == cap * long;
    FactorBound(q, cap, long);
    MulMono(cap, long, short);
    assert cap * short == short * cap;
    FactorBound(q, short, long);
    q
  }

  /** `_resize_for_pdf(img, max_px)` on dimensions. An image whose longer side is within
      the cap is returned as it is. Otherwise the longer side (the width on a tie)
      becomes exactly the cap and the other side is scaled by the same factor and
      rounded down, so neither side grows. */
  function Resize(s: Size, maxPx: nat): (r: Size)
    ensures Longer(s) <= maxPx ==> r == s
    ensures Longer(s) > maxPx ==> Longer(r) == maxPx && r.w <= s.w && r.h <= s.h
    ensures Longer(s) > maxPx && s.w >= s.h ==>
              r.w == maxPx && r.h * s.w <= s.h * maxPx < (r.h + 1) * s.w
    ensures Longer(s) > maxPx && s.w < s.h ==>
              r.h == maxPx && r.w * s.h <= s.w * maxPx < (r.w + 1) * s.h
  {
    if Longer(s) <= maxPx then s
    else if s.w >= s.h then Size(maxPx, ScaleShort(s.h, s.w, maxPx))
    else Size(ScaleShort(s.w, s.h, maxPx), maxPx)
  }

  /** The canvas a padding result describes: the image itself, or the new canvas. */
  function CanvasOf(s: Size, p: Padding): Size
  {
    match p
    case Unchanged => s
    case Padded(canvas, _, _) => canvas
  }

  /** A landscape picture whose height is at least half its width. */
  predicate Landscapish(c: Size)
  {
    1 <= c.h <= c.w <= 2 * c.h
  }

  /** Padding any picture of positive height gives a landscape canvas whose height is
      at least half its width. */
  lemma PaddedIsLandscapish(s: Size)
    requires s.h > 0
    ensures PadToFourThree(s).Ok? && Landscapish(CanvasOf(s, PadToFourThree(s).value))
  {
    NearTargetInIntegers(s);
    WiderInIntegers(s);
  }

  /** The submission pads every picture (abcd.py:351) and `build_pdf` pads it again
      (abcd.py:178). From 667 pixels of height on, the second padding leaves the first
      one's canvas alone: rounding one side moves the ratio by less than the tolerance. */
  lemma RepadIsNoOp(s: Size)
    requires s.h >= 667
    ensures PadToFourThree(s).Ok?
    ensures PadToFourThree(CanvasOf(s, PadToFourThree(s).value)) == Ok(Unchanged)
  {
    var p := PadToFourThree(s).value;
    var c := CanvasOf(s, p);
    if p.Padded? {
      assert AlmostFourThree(c) && c.h >= s.h;
      assert 1000 * Abs(3 * c.w - 4 * c.h) < 3 * c.h;
      NearTargetInIntegers(c);
    }
  }

  /** Below that, the second padding can still grow the canvas: a 2 by 1 picture becomes
      2 by 2 and then 3 by 2. */
  lemma RepadCanGrowSmallPictures()
    ensures PadToFourThree(Size(2, 1)) == Ok(Padded(Size(2, 2), 0, 0))
    ensures PadToFourThree(Size(2, 2)) == Ok(Padded(Size(3, 2), 0, 0))
  {
    assert RoundHalfEven(1.5) == 2;
    assert RoundHalfEven(8.0 / 3.0) == 3;
  }

  /** Right at the tolerance, exact arithmetic pads: 3997 by 3000 is exactly 1/1000 away
      from 4/3, which is not below the tolerance, so it is padded to 4000 by 3000. In
      IEEE doubles the difference comes out just below 1/1000 and the picture is kept. */
  lemma ToleranceBoundaryPads()
    ensures !NearTarget(Size(3997, 3000))
    ensures PadToFourThree(Size(3997, 3000)) == Ok(Padded(Size(4000, 3000), 1, 0))
  {
    assert RoundHalfEven(4000.0) == 4000;
  }

  /** Shrinking a landscape picture whose height is at least half its width to a cap of
      at least 2 never leaves a side of zero pixels. */
  lemma ResizeKeepsPixels(c: Size, maxPx: nat)
    requires Landscapish(c) && maxPx >= 2
    ensures 1 <= Resize(c, maxPx).w && 1 <= Resize(c, maxPx).h
  {
    if Longer(c) > maxPx {
      MulMono(2, maxPx, c.h);
    }
  }

  /** What `build_pdf` does to an attached picture before laying it out (abcd.py:178-179):
      pad it to 4:3, then cap its longer side at 1400 pixels. The result, when there is
      one, has between 1 and 1400 pixels on each side and is landscape. */
  function Prepare(s: Size): (r: Result<Size>)
    ensures r.Err? <==> s.h == 0
    ensures r.Ok? ==> 1 <= r.value.h <= r.value.w <= MaxPixels
  {
    match PadToFourThree(s)
    case Err(e) => Err(e)
    case Ok(p) =>
      PaddedIsLandscapish(s);
      var c := CanvasOf(s, p);
      ResizeKeepsPixels(c, MaxPixels);
      Ok(Resize(c, MaxPixels))
  }
}
