/** Clipping a scene item for the blitter, which rejects rectangles outside the canvas: the
    destination is cut to the canvas and the source with it, edge by edge. */
module Ge2dClip {
  import opened Arithmetic

  /** One axis of an item: where it goes and what part of the frame is shown there. */
  datatype Axis = Axis(at: int, length: int, from: int, extent: int)

  /** Division in C truncates toward zero. */
  function Quotient(a: int, b: int): int
    requires b != 0
  {
    if a >= 0 then a / b else -((-a) / b)
  }

  /** How much of the source goes with `clip` out of `whole`. */
  function Trim(clip: int, extent: int, whole: int): int
    requires whole != 0
  {
    Quotient(clip * extent, whole)
  }

  /** The left or upper edge. */
  function CutLow(a: Axis): Axis
    requires a.length > 0
  {
    if a.at >= 0 then a
    else
      var clip := -a.at;
      var trim := Trim(clip, a.extent, a.length);
      Axis(0, a.length - clip, a.from + trim, a.extent - trim)
  }

  /** The division of the right or lower edge is by more than nothing. */
  predicate Divides(a: Axis, canvas: int) {
    a.at + a.length > canvas ==> a.length + (a.at + a.length - canvas) != 0
  }

  /** The right or lower edge.  The length plus the overrun is what the source divides by. */
  function CutHigh(a: Axis, canvas: int): Axis
    requires Divides(a, canvas)
  {
    if a.at + a.length <= canvas then a
    else
      var clip := a.at + a.length - canvas;
      var trim := Trim(clip, a.extent, a.length + clip);
      a.(extent := a.extent - trim, length := canvas - a.at)
  }

  predicate Shown(a: Axis) { a.length > 0 && a.extent > 0 }

  function Min(a: int, b: int): int { if a <= b then a else b }
  function Max(a: int, b: int): int { if a <= b then b else a }

  lemma Positive(a: int, b: int)
    requires a >= 0 && b >= 0
    ensures a * b >= 0 && a * b == b * a
  {
  }

  lemma Division(x: int, d: int)
    requires x >= 0 && d > 0
    ensures Quotient(x, d) >= 0 && 0 <= x - Quotient(x, d) * d < d
  {
    assert x == x / d * d + x % d;
  }

  /** The trim is the clipped fraction of the source, rounded down, and all of the source only if the
      whole is clipped. */
  lemma TrimIsShare(clip: int, extent: int, whole: int)
    requires clip > 0 && extent > 0 && whole > 0
    ensures var t := Trim(clip, extent, whole);
            && t >= 0 && 0 <= clip * extent - t * whole < whole
            && (t < extent <==> clip < whole)
  {
    Positive(clip, extent);
    Division(clip * extent, whole);
    var t := Trim(clip, extent, whole);
    Positive(extent, whole);
    if clip < whole { Multiples(clip, whole, extent); }
    if whole < clip { Multiples(whole, clip, extent); }
    if t < extent { Multiples(t, extent, whole); }
    if extent < t { Multiples(extent, t, whole); }
  }

  /** No division by zero: once the low edge is cut, whatever hangs over the high edge has a length. */
  lemma NeverDividesByZero(a: Axis, canvas: nat)
    requires Shown(a)
    ensures Divides(CutLow(a), canvas)
  {
  }

  function Clip(a: Axis, canvas: nat): Axis
    requires Shown(a)
  {
    NeverDividesByZero(a, canvas);
    CutHigh(CutLow(a), canvas)
  }

  // ---------------------------------------------------------------- main results

  /** For every placement: what is drawn is exactly the part of the destination on the canvas, it is
      drawn if and only if there is such a part, and its source lies within the given one. */
  lemma ClipIsIntersection(a: Axis, canvas: nat)
    requires Shown(a)
    ensures var t := Clip(a, canvas);
            && (Shown(t) <==> Max(a.at, 0) < Min(a.at + a.length, canvas))
            && (Shown(t) ==>
                  && t.at == Max(a.at, 0) && t.at + t.length == Min(a.at + a.length, canvas)
                  && a.from <= t.from && t.from + t.extent <= a.from + a.extent)
  {
    var t := CutLow(a);
    if a.at < 0 { TrimIsShare(-a.at, a.extent, a.length); }
    if Shown(t) && t.at + t.length > canvas {
      var clip := t.at + t.length - canvas;
      TrimIsShare(clip, t.extent, t.length + clip);
    }
  }

  /** The left and upper edges take off the source what they take off the destination, to within one
      source pixel: trimmed / extent is clipped / length, rounded down. */
  lemma LowTrimIsProportional(a: Axis, canvas: nat)
    requires Shown(a) && a.at < 0 && Shown(Clip(a, canvas))
    ensures var trim := Clip(a, canvas).from - a.from;
            0 <= (-a.at) * a.extent - trim * a.length < a.length
  {
    TrimIsShare(-a.at, a.extent, a.length);
  }

  /** The trim takes the clipped fraction off the source, rounded down to a pixel. */
  predicate Proportional(clip: int, extent: int, length: int, trim: int) {
    0 <= clip * extent - trim * length < length
  }

  lemma ProportionalIsQuotient(clip: int, extent: int, length: int, trim: int)
    requires clip > 0 && extent > 0 && length > 0
    ensures Proportional(clip, extent, length, trim) <==> trim == clip * extent / length
  {
    Positive(clip, extent);
    var x := clip * extent;
    Division(x, length);
    Multiples(trim, x / length, length);
    Multiples(x / length, trim, length);
  }

  /** What is left of an item once its low edge is cut hangs over the high edge by this much. */
  function Overrun(a: Axis, canvas: nat): int
    requires Shown(a)
  {
    CutLow(a).at + CutLow(a).length - canvas
  }

  /** The right and lower edges take off their share, to within one source pixel, if and only if
      dividing by the length plus the overrun instead of the length makes no difference. */
  lemma HighTrimIsProportionalIff(a: Axis, canvas: nat)
    requires Shown(a) && Shown(CutLow(a)) && Overrun(a, canvas) > 0
    ensures var t, clip := CutLow(a), Overrun(a, canvas);
            Proportional(clip, t.extent, t.length, t.extent - Clip(a, canvas).extent) <==>
            clip * t.extent / (t.length + clip) == clip * t.extent / t.length
  {
    var t, clip := CutLow(a), Overrun(a, canvas);
    Positive(clip, t.extent);
    assert t.extent - Clip(a, canvas).extent == clip * t.extent / (t.length + clip);
    ProportionalIsQuotient(clip, t.extent, t.length, clip * t.extent / (t.length + clip));
  }

  /** It makes none as long as the overrun is worth less than one source pixel, and it always makes
      one once overrun * overrun * extent reaches length * (length + overrun). */
  lemma HighTrimGuards(a: Axis, canvas: nat)
    requires Shown(a) && Shown(CutLow(a)) && Overrun(a, canvas) > 0
    ensures var t, clip := CutLow(a), Overrun(a, canvas); var trim := t.extent - Clip(a, canvas).extent;
            && (clip * t.extent < t.length ==> Proportional(clip, t.extent, t.length, trim))
            && (clip * (clip * t.extent) >= t.length * (t.length + clip) ==>
                  !Proportional(clip, t.extent, t.length, trim))
  {
    var t, clip := CutLow(a), Overrun(a, canvas);
    HighTrimIsProportionalIff(a, canvas);
    Positive(clip, t.extent);
    QuotientsAgree(clip * t.extent, t.length, clip);
    if clip * (clip * t.extent) >= t.length * (t.length + clip) { QuotientsDiffer(clip * t.extent, t.length, clip); }
  }

  lemma QuotientsAgree(x: nat, l: nat, c: nat)
    requires l > 0
    ensures x < l ==> x / (l + c) == 0 == x / l
  {
    if x < l {
      DivisionIsUnique(x, l, 0, x);
      DivisionIsUnique(x, l + c, 0, x);
    }
  }

  lemma Products(q: int, l: int, c: int, x: int)
    ensures (q * l + l) * (l + c) == l * (q * (l + c)) + l * (l + c)
    ensures x * (l + c) == l * x + c * x
  {
    assert (q * l + l) * (l + c) == q * l * (l + c) + l * (l + c);
    assert q * l * (l + c) == l * (q * (l + c));
  }

  lemma NoMoreThan(a: int, b: int, d: nat)
    requires d > 0
    ensures a <= b <==> a * d <= b * d
  {
    Multiples(a, b, d);
    Multiples(b, a, d);
  }

  /** Whole multiples that fit are counted by the quotient. */
  lemma FitsBelow(k: int, x: nat, d: nat)
    requires d > 0
    ensures k * d <= x <==> k <= x / d
  {
    Division(x, d);
    Multiples(k, x / d, d);
    Multiples(x / d, k, d);
  }

  lemma QuotientsDiffer(x: nat, l: nat, c: nat)
    requires l > 0 && c * x >= l * (l + c)
    ensures x / (l + c) < x / l
  {
    var q := x / (l + c);
    FitsBelow(q, x, l + c);
    OneMoreFits(q, x, l, c);
    FitsBelow(q + 1, x, l);
  }

  lemma OneMoreFits(q: nat, x: nat, l: nat, c: nat)
    requires l > 0 && c * x >= l * (l + c) && q * (l + c) <= x
    ensures (q + 1) * l <= x
  {
    NoMoreThan(q * (l + c), x, l);
    Products(q, l, c, x);
    Positive(q * (l + c), l);
    Positive(x, l);
    NoMoreThan(q * l + l, x, l + c);
    assert (q + 1) * l == q * l + l;
  }

  /** Half of an item over the right edge of its canvas: a third of the source is cut, not half. */
  lemma HalfOverTrimsAThird()
    ensures var a := Axis(50, 100, 0, 300); var t := Clip(a, 100);
            t.length * 2 == a.length && t.extent == 200
  {
    var a := Axis(50, 100, 0, 300);
    assert Quotient(50 * 300, 150) == 100;
  }

  // ---------------------------------------------------------------- rectangles

  datatype Rect = Rect(x: int, y: int, w: int, h: int)

  function Across(dst: Rect, src: Rect): Axis { Axis(dst.x, dst.w, src.x, src.w) }
  function Down(dst: Rect, src: Rect): Axis { Axis(dst.y, dst.h, src.y, src.h) }

  predicate Within(r: Rect, width: int, height: int) {
    0 <= r.x && 0 <= r.y && r.x + r.w <= width && r.y + r.h <= height
  }

  method CutLowEdges(dst0: Rect, src0: Rect) returns (dst: Rect, src: Rect)
    requires dst0.w > 0 && dst0.h > 0
    ensures Across(dst, src) == CutLow(Across(dst0, src0)) && Down(dst, src) == CutLow(Down(dst0, src0))
  {
    dst, src := dst0, src0;
    if dst.x < 0 {
      var clip := -dst.x;
      var adj := Trim(clip, src.w, dst.w);
      src := src.(x := src.x + adj, w := src.w - adj);
      dst := dst.(w := dst.w - clip, x := 0);
    }
    if dst.y < 0 {
      var clip := -dst.y;
      var adj := Trim(clip, src.h, dst.h);
      src := src.(y := src.y + adj, h := src.h - adj);
      dst := dst.(h := dst.h - clip, y := 0);
    }
  }

  method CutHighEdges(dst0: Rect, src0: Rect, width: int, height: int) returns (dst: Rect, src: Rect)
    requires Divides(Across(dst0, src0), width) && Divides(Down(dst0, src0), height)
    ensures Across(dst, src) == CutHigh(Across(dst0, src0), width)
    ensures Down(dst, src) == CutHigh(Down(dst0, src0), height)
  {
    dst, src := dst0, src0;
    if dst.x + dst.w > width {
      var clip := dst.x + dst.w - width;
      var adj := Trim(clip, src.w, dst.w + clip);
      src := src.(w := src.w - adj);
      dst := dst.(w := width - dst.x);
    }
    if dst.y + dst.h > height {
      var clip := dst.y + dst.h - height;
      var adj := Trim(clip, src.h, dst.h + clip);
      src := src.(h := src.h - adj);
      dst := dst.(h := height - dst.y);
    }
  }

  /** The clipping of one item, field by field.  It is drawn exactly if it meets the canvas, and then
      on the canvas only and from within the cropped source. */
  method ClipItem(dst0: Rect, src0: Rect, canvasWidth: nat, canvasHeight: nat)
    returns (drawn: bool, dst: Rect, src: Rect)
    ensures var a, b := Across(dst0, src0), Down(dst0, src0);
            && drawn == (Shown(a) && Shown(b) && Shown(Clip(a, canvasWidth)) && Shown(Clip(b, canvasHeight)))
            && (drawn ==> Across(dst, src) == Clip(a, canvasWidth) && Down(dst, src) == Clip(b, canvasHeight))
    ensures drawn ==> dst.w > 0 && dst.h > 0 && Within(dst, canvasWidth, canvasHeight)
    ensures drawn ==> src.w > 0 && src.h > 0 && src0.x <= src.x && src0.y <= src.y
    ensures drawn ==> src.x + src.w <= src0.x + src0.w && src.y + src.h <= src0.y + src0.h
  {
    dst, src, drawn := dst0, src0, false;
    if src.w <= 0 || src.h <= 0 { return; }
    if dst.w <= 0 || dst.h <= 0 { return; }
    var a, b := Across(dst, src), Down(dst, src);
    NeverDividesByZero(a, canvasWidth);
    NeverDividesByZero(b, canvasHeight);
    dst, src := CutLowEdges(dst, src);
    dst, src := CutHighEdges(dst, src, canvasWidth, canvasHeight);
    ClipIsIntersection(a, canvasWidth);
    ClipIsIntersection(b, canvasHeight);
    drawn := src.w > 0 && src.h > 0 && dst.w > 0 && dst.h > 0;
  }
}
