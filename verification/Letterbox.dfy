/**
  Letterboxing of a camera image to the detector's input size, and the way back.  Coordinates
  are exact reals; rounding is round-half-to-even.
 */
module Letterbox {
  import opened Wrappers

  function RMin(a: real, b: real): real {
    if a <= b then a else b
  }

  function RMax(a: real, b: real): real {
    if a >= b then a else b
  }

  function Abs(x: real): real {
    if x >= 0.0 then x else -x
  }

  function RoundHalfEven(x: real): int {
    var f := x.Floor;
    var d := x - f as real;
    if d < 0.5 then f
    else if d > 0.5 then f + 1
    else if f % 2 == 0 then f else f + 1
  }

  datatype Size = Size(h: nat, w: nat)

  /** Images and model inputs have at least one row and one column. */
  predicate NonEmpty(s: Size) {
    s.h > 0 && s.w > 0
  }

  /** One axis: the resized length, the exact offset, and the whole pixels padded on either side. */
  datatype Axis = Axis(resized: int, offset: real, before: int, after: int)

  function FitAxis(size: nat, input: nat, ratio: real): Axis {
    var resized := RoundHalfEven(size as real * ratio);
    var offset := (input - resized) as real / 2.0;
    Axis(resized, offset, RoundHalfEven(offset - 0.1), RoundHalfEven(offset + 0.1))
  }

  function Ratio(original: Size, input: Size): real
    requires NonEmpty(original)
  {
    RMin(input.h as real / original.h as real, input.w as real / original.w as real)
  }

  /** What `preprocess` computes from the two sizes before it touches a pixel. */
  datatype Geometry = Geometry(ratio: real, x: Axis, y: Axis)

  function Fit(original: Size, input: Size): Geometry
    requires NonEmpty(original)
  {
    var ratio := Ratio(original, input);
    Geometry(ratio, FitAxis(original.w, input.w, ratio), FitAxis(original.h, input.h, ratio))
  }

  /** Resizing to an empty image is refused. */
  function Preprocess(original: Size, input: Size): Option<Geometry>
    requires NonEmpty(original)
  {
    var g := Fit(original, input);
    if g.x.resized > 0 && g.y.resized > 0 then Some(g) else None
  }

  // ----- rounding -----

  lemma RoundAt(n: int, d: real)
    requires -0.5 < d < 0.5
    ensures RoundHalfEven(n as real + d) == n
  {
  }

  lemma RoundIsNearest(x: real)
    ensures Abs(RoundHalfEven(x) as real - x) <= 0.5
    ensures RoundHalfEven(x) > 0 <==> x > 0.5
    ensures Abs(RoundHalfEven(x) as real - x) == 0.5 ==> RoundHalfEven(x) % 2 == 0
  {
  }

  // ----- exact division -----

  lemma Nonnegative(a: real, b: real)
    requires a >= 0.0 && b >= 0.0
    ensures a * b >= 0.0
  {
  }

  lemma ScaleLe(x: real, y: real, k: real)
    requires x <= y && k >= 0.0
    ensures x * k <= y * k
  {
  }

  lemma CancelLe(x: real, y: real, k: real)
    requires k > 0.0
    ensures x * k <= y * k ==> x <= y
  {
  }

  // ----- the letterboxed image -----

  lemma RatioBounds(original: Size, input: Size)
    requires NonEmpty(original) && NonEmpty(input)
    ensures Ratio(original, input) > 0.0
    ensures original.w as real * Ratio(original, input) <= input.w as real
    ensures original.h as real * Ratio(original, input) <= input.h as real
  {
  }

  /** The padding of one axis is nonnegative, fills the input exactly, and its first half is
      within half a pixel of the exact offset. */
  lemma PaddingFills(k: nat)
    ensures var d := k as real / 2.0;
            var before, after := RoundHalfEven(d - 0.1), RoundHalfEven(d + 0.1);
            && 0 <= before <= after <= before + 1 && before + after == k
            && Abs(before as real - d) <= 0.5
  {
    var m := k / 2;
    if k % 2 == 0 {
      assert k as real / 2.0 == m as real;
      RoundAt(m, -0.1);
      RoundAt(m, 0.1);
      assert m as real + -0.1 == m as real - 0.1;
    } else {
      assert k == 2 * m + 1;
      assert k as real / 2.0 == m as real + 0.5;
      RoundAt(m, 0.4);
      RoundAt(m + 1, -0.4);
      assert m as real + 0.4 == k as real / 2.0 - 0.1;
      assert (m + 1) as real + -0.4 == k as real / 2.0 + 0.1;
    }
  }

  /** The padded axis has exactly the input length, and rounding moved nothing by more than
      half a pixel. */
  ghost predicate Fits(a: Axis, size: nat, input: nat, ratio: real) {
    && 0 <= a.resized <= input
    && 0 <= a.before <= a.after <= a.before + 1 && a.before + a.resized + a.after == input
    && Abs(a.before as real - a.offset) <= 0.5
    && Abs(a.resized as real - size as real * ratio) <= 0.5
  }

  lemma FitAxisFits(size: nat, input: nat, ratio: real)
    requires ratio > 0.0 && size as real * ratio <= input as real
    ensures Fits(FitAxis(size, input, ratio), size, input, ratio)
  {
    var x := size as real * ratio;
    assert x >= 0.0;
    RoundIsNearest(x);
    PaddingFills(input - RoundHalfEven(x));
  }

  lemma FitFills(original: Size, input: Size)
    requires NonEmpty(original) && NonEmpty(input)
    ensures var g := Fit(original, input);
      g.ratio > 0.0 && Fits(g.x, original.w, input.w, g.ratio) && Fits(g.y, original.h, input.h, g.ratio)
  {
    RatioBounds(original, input);
    FitAxisFits(original.w, input.w, Ratio(original, input));
    FitAxisFits(original.h, input.h, Ratio(original, input));
  }

  /** Unless the resize is refused, the letterboxed image has exactly the input size, with
      nonnegative padding around a nonempty picture. */
  lemma LetterboxFillsInput(original: Size, input: Size)
    requires NonEmpty(original) && NonEmpty(input)
    ensures Preprocess(original, input).Some? ==>
      var g := Preprocess(original, input).value;
      && g.x.resized > 0 && g.y.resized > 0
      && Fits(g.x, original.w, input.w, g.ratio) && Fits(g.y, original.h, input.h, g.ratio)
  {
    FitFills(original, input);
  }

  /** The other side is shorter than twice the input's other side times this one. */
  predicate ThickEnough(side: nat, other: nat, inputOther: nat) {
    2.0 * side as real * inputOther as real > other as real
  }

  /** Exactly which images survive the resize: extreme strips would collapse to nothing. */
  lemma ResizeSurvivesIff(original: Size, input: Size)
    requires NonEmpty(original) && NonEmpty(input)
    ensures Preprocess(original, input).Some? <==>
      ThickEnough(original.w, original.h, input.h) && ThickEnough(original.h, original.w, input.w)
  {
    AxisSurvivesIff(original.w, original.h, input.w, input.h, Ratio(original, input));
    AxisSurvivesIff(original.h, original.w, input.h, input.w, Ratio(original, input));
  }

  /** Such images exist: one row of 2000 pixels does not fit a square input of 640. */
  lemma ThinImageCollapses()
    ensures Preprocess(Size(1, 2000), Size(640, 640)).None?
  {
    ResizeSurvivesIff(Size(1, 2000), Size(640, 640));
  }

  lemma AxisSurvivesIff(side: nat, other: nat, inputSide: nat, inputOther: nat, ratio: real)
    requires side > 0 && other > 0 && inputSide > 0 && inputOther > 0
    requires var ro, rs := inputOther as real / other as real, inputSide as real / side as real;
      ratio == RMin(ro, rs) || ratio == RMin(rs, ro)
    ensures FitAxis(side, inputSide, ratio).resized > 0 <==> ThickEnough(side, other, inputOther)
  {
    SideSurvivesIff(side as real, other as real, inputSide as real, inputOther as real, ratio);
    FitAxisNonEmpty(side, inputSide, ratio);
  }

  lemma FitAxisNonEmpty(size: nat, input: nat, ratio: real)
    ensures FitAxis(size, input, ratio).resized > 0 <==> size as real * ratio > 0.5
  {
  }

  lemma SideSurvivesIff(side: real, other: real, inputSide: real, inputOther: real, ratio: real)
    requires side > 0.0 && other > 0.0 && inputSide >= 1.0 && inputOther >= 1.0
    requires ratio == RMin(inputOther / other, inputSide / side) || ratio == RMin(inputSide / side, inputOther / other)
    ensures side * ratio > 0.5 <==> 2.0 * side * inputOther > other
  {
    var ro, rs := inputOther / other, inputSide / side;
    assert rs * side == inputSide && ro * other == inputOther;
    HalfIff(side, ro, other, inputOther);
    var x, y := side * ratio, ro * side;
    assert y > 0.5 <==> 2.0 * side * inputOther > other;
    if ratio == ro {
      assert x == y;
    } else {
      assert ratio == rs && x == inputSide;
      ScaleLe(ratio, ro, side);
      assert y >= x;
    }
  }

  lemma HalfIff(s: real, r: real, o: real, i: real)
    requires o > 0.0 && r * o == i
    ensures r * s > 0.5 <==> 2.0 * s * i > o
  {
    assert r * s * o == s * i;
    CancelLe(r * s, 0.5, o);
    if r * s > 0.5 {
      assert (r * s - 0.5) * o > 0.0;
    }
  }

  // ----- the way back -----

  function Clip(x: real, limit: real): real {
    RMin(RMax(x, 0.0), limit)
  }

  /** One coordinate of `scale_boxes_to_original`. */
  function MapBack(q: real, offset: real, ratio: real, limit: nat): real
    requires ratio > 0.0
  {
    Clip((q - offset) / ratio, limit as real)
  }

  /** Mapping back inverts the exact letterbox transform on the image. */
  lemma MapBackInverts(p: real, offset: real, ratio: real, limit: nat)
    requires ratio > 0.0 && 0.0 <= p <= limit as real
    ensures MapBack(p * ratio + offset, offset, ratio, limit) == p
  {
  }

  /** Mapping back never leaves the image and keeps corners in order. */
  lemma MapBackMonotone(q: real, r: real, offset: real, ratio: real, limit: nat)
    requires ratio > 0.0 && q <= r
    ensures 0.0 <= MapBack(q, offset, ratio, limit) <= MapBack(r, offset, ratio, limit) <= limit as real
  {
  }

  lemma ClipShrinks(x: real, p: real, limit: real, e: real)
    requires 0.0 <= p <= limit && Abs(x - p) <= e
    ensures Abs(Clip(x, limit) - p) <= e
  {
  }

  /** A coordinate moved by a scale off by `drift` deviates by at most what the far end does. */
  lemma DriftBounded(p: real, size: real, drift: real)
    requires 0.0 <= p <= size && -0.5 <= drift * size <= 0.5
    ensures -0.5 <= drift * p <= 0.5
  {
    var d := Abs(drift);
    Nonnegative(d, size - p);
    Nonnegative(d, p);
    assert d * (size - p) == d * size - d * p;
    if drift >= 0.0 {
      assert d * p == drift * p && d * size == drift * size;
    } else {
      assert d * p == -(drift * p) && d * size == -(drift * size);
    }
  }

  lemma UnscaleBounded(off: real, p: real, ratio: real)
    requires ratio > 0.0 && -1.0 <= off - p * ratio <= 1.0
    ensures Abs(off / ratio - p) <= 1.0 / ratio
  {
  }

  /** The pixels really move by resizing to whole pixels and padding by whole pixels; undoing
      the exact transform misses the original coordinate by at most one resized pixel. */
  lemma ShiftBounded(p: real, size: real, resized: real, before: real, offset: real, ratio: real)
    requires size > 0.0 && ratio > 0.0 && 0.0 <= p <= size
    requires Abs(resized - size * ratio) <= 0.5 && Abs(before - offset) <= 0.5
    ensures Abs((p * (resized / size) + before - offset) / ratio - p) <= 1.0 / ratio
  {
    var scale := resized / size;
    var drift := scale - ratio;
    assert scale * size == resized;
    assert drift * size == resized - size * ratio;
    DriftBounded(p, size, drift);
    var off := p * scale + before - offset;
    assert off - p * ratio == drift * p + (before - offset);
    UnscaleBounded(off, p, ratio);
  }

  /** Where a pixel of the original lands in the letterboxed image. */
  function Moved(p: real, a: Axis, size: nat): real
    requires size > 0
  {
    p * (a.resized as real / size as real) + a.before as real
  }

  ghost predicate ComesBackWithin(p: real, a: Axis, size: nat, ratio: real)
    requires size > 0 && ratio > 0.0
  {
    Abs(MapBack(Moved(p, a, size), a.offset, ratio, size) - p) <= 1.0 / ratio
  }

  lemma AxisShift(p: real, a: Axis, size: nat, input: nat, ratio: real)
    requires size > 0 && ratio > 0.0 && 0.0 <= p <= size as real && Fits(a, size, input, ratio)
    ensures ComesBackWithin(p, a, size, ratio)
  {
    ShiftBounded(p, size as real, a.resized as real, a.before as real, a.offset, ratio);
    ClipShrinks((Moved(p, a, size) - a.offset) / ratio, p, size as real, 1.0 / ratio);
  }

  /** Both axes of the actual `preprocess` geometry: a pixel comes back within one resized
      pixel of where it was. */
  lemma LetterboxShiftBounded(original: Size, input: Size, px: real, py: real)
    requires NonEmpty(original) && NonEmpty(input)
    requires 0.0 <= px <= original.w as real && 0.0 <= py <= original.h as real
    ensures var g := Fit(original, input);
      && g.ratio > 0.0
      && ComesBackWithin(px, g.x, original.w, g.ratio)
      && ComesBackWithin(py, g.y, original.h, g.ratio)
  {
    var g := Fit(original, input);
    FitFills(original, input);
    AxisShift(px, g.x, original.w, input.w, g.ratio);
    AxisShift(py, g.y, original.h, input.h, g.ratio);
  }
}
