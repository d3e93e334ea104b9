/** Integer clipping of rectangles, blits and stretches, ge/hcge_matrix.c. */
module GeClip {
  import opened CArithmetic
  import opened GeBuild

  /** The clip of the state, inclusive on both sides, and the size of the destination surface. */
  datatype Target = Target(x1: int, y1: int, x2: int, y2: int, w: int, h: int)
  {
    predicate Shows(px: int, py: int) {
      x1 <= px <= x2 && y1 <= py <= y2 && 0 <= px < w && 0 <= py < h
    }
  }

  /** Some pixel of the rectangle is shown. */
  ghost predicate Visible(t: Target, r: Rect) {
    exists px, py :: r.Contains(px, py) && t.Shows(px, py)
  }

  /** `out` is what the target shows of `r`. */
  ghost predicate IsShownPart(t: Target, r: Rect, out: Rect) {
    && out.w > 0 && out.h > 0
    && forall px, py :: out.Contains(px, py) <==> r.Contains(px, py) && t.Shows(px, py)
  }

  function Max(a: int, b: int): int {
    if a < b then b else a
  }

  function Min(a: int, b: int): int {
    if a < b then a else b
  }

  /** The part of an extent that survives, possibly of negative size. */
  function Cut(r: Rect, left: int, top: int, right: int, bottom: int): Rect {
    var x, y := Max(r.x, left), Max(r.y, top);
    Rect(x, y, Min(r.x + r.w, right) - x, Min(r.y + r.h, bottom) - y)
  }

  function CutTo(t: Target, r: Rect): Rect {
    Cut(r, Max(t.x1, 0), Max(t.y1, 0), Min(t.x2 + 1, t.w), Min(t.y2 + 1, t.h))
  }

  /** Cutting keeps exactly the shown pixels, and leaves an empty size exactly when there are none. */
  lemma {:induction false} CutIsShownPart(t: Target, r: Rect)
    ensures var c := CutTo(t, r); if c.w > 0 && c.h > 0 then IsShownPart(t, r, c) && Visible(t, r) else !Visible(t, r)
  {
    var c := CutTo(t, r);
    assert forall px, py :: c.Contains(px, py) <==> r.Contains(px, py) && t.Shows(px, py);
    if c.w > 0 && c.h > 0 {
      assert c.Contains(c.x, c.y);
    }
  }

  // ----- stretching -----

  /** `(part * size) / whole` in C. */
  function Share(part: int, size: int, whole: int): int
    requires whole > 0
  {
    TruncDiv(part * size, whole)
  }

  /** The source extent left when `before` and `after` of `whole` destination pixels are cut off. */
  function Left(size: int, whole: int, before: int, after: int): int
    requires whole > 0
  {
    size - (Share(before, size, whole) + Share(after, size, whole))
  }

  lemma {:induction false} LeftIs(size: int, whole: int, before: int, after: int)
    requires whole > 0
    ensures Left(size, whole, before, after) == size - (Share(before, size, whole) + Share(after, size, whole))
  {
  }

  lemma {:induction false} ShareFloor(part: int, size: int, whole: int)
    requires whole > 0 && part >= 0 && size >= 0
    ensures Share(part, size, whole) >= 0
    ensures 0 <= part * size - Share(part, size, whole) * whole < whole
  {
    assert part * size >= 0;
  }

  lemma {:induction false} ShareOdd(part: int, size: int, whole: int)
    requires whole > 0 && part >= 0
    ensures Share(part, -size, whole) == -Share(part, size, whole)
  {
    assert part * -size == -(part * size);
  }

  /** What is left is in proportion, but for the two roundings, and never less than one pixel. */
  lemma {:induction false} LeftInProportion(size: int, whole: int, before: int, after: int)
    requires whole > 0 && before >= 0 && after >= 0 && before + after < whole && size > 0
    ensures var d := Left(size, whole, before, after) * whole - size * (whole - before - after);
            0 <= d < 2 * whole - 1 && (before == 0 && after == 0 ==> d == 0)
    ensures 1 <= Left(size, whole, before, after) <= size - Share(before, size, whole)
  {
    hide TruncDiv;
    ShareFloor(before, size, whole);
    ShareFloor(after, size, whole);
    var a, b := Share(before, size, whole), Share(after, size, whole);
    var n := Left(size, whole, before, after);
    assert n * whole == size * whole - a * whole - b * whole;
    assert size * (whole - before - after) == size * whole - before * size - after * size;
    if before == 0 {
      ZeroShare(size, whole);
    }
    if after == 0 {
      ZeroShare(size, whole);
    }
    MulPositive(size, whole - before - after);
    assert n * whole > 0;
    if n <= 0 {
      MulPositive(1 - n, whole);
      assert false;
    }
  }

  lemma {:induction false} ZeroShare(size: int, whole: int)
    requires whole > 0
    ensures Share(0, size, whole) == 0
  {
  }

  lemma {:induction false} MulPositive(a: int, b: int)
    requires a > 0 && b > 0
    ensures a * b > 0
  {
  }

  /** A source without extent keeps none. */
  lemma {:induction false} LeftOfNothing(size: int, whole: int, before: int, after: int)
    requires whole > 0 && before >= 0 && after >= 0 && before + after < whole && size <= 0
    ensures Left(size, whole, before, after) <= 0
  {
    hide TruncDiv;
    ShareOdd(before, -size, whole);
    ShareOdd(after, -size, whole);
    if size < 0 {
      LeftInProportion(-size, whole, before, after);
    } else {
      ShareFloor(before, 0, whole);
      ShareFloor(after, 0, whole);
      NoShare(before, whole);
      NoShare(after, whole);
    }
  }

  lemma {:induction false} NoShare(part: int, whole: int)
    requires whole > 0
    ensures Share(part, 0, whole) == 0
  {
    assert part * 0 == 0;
  }

  // ----- the code -----

  /** A rectangle passed by pointer. */
  class Rectangle {
    var x: int
    var y: int
    var w: int
    var h: int

    constructor (r: Rect)
      ensures Value() == r
    {
      x, y, w, h := r.x, r.y, r.w, r.h;
    }

    function Value(): Rect
      reads this
    {
      Rect(x, y, w, h)
    }

    /** `hcge_intersect`. */
    method Intersect(left: int, top: int, right: int, bottom: int) returns (ok: bool)
      modifies this
      ensures Value() == Cut(old(Value()), left, top, right, bottom)
      ensures ok == (w > 0 && h > 0)
    {
      var x2, y2 := x + w, y + h;
      if x < left {
        x := left;
      }
      if y < top {
        y := top;
      }
      if x2 > right {
        x2 := right;
      }
      if y2 > bottom {
        y2 := bottom;
      }
      w := x2 - x;
      h := y2 - y;
      return w > 0 && h > 0;
    }

    /** `hcge_clip_rect`: succeeds exactly when a pixel is shown, and then keeps exactly those shown. */
    method ClipRect(t: Target) returns (ok: bool)
      modifies this
      ensures Value() == CutTo(t, old(Value()))
      ensures ok <==> Visible(t, old(Value()))
      ensures ok ==> IsShownPart(t, old(Value()), Value())
    {
      var left := if t.x1 > 0 then t.x1 else 0;
      var top := if t.y1 > 0 then t.y1 else 0;
      var right, bottom := t.x2 + 1, t.y2 + 1;
      if right > t.w {
        right := t.w;
      }
      if bottom > t.h {
        bottom := t.h;
      }
      CutIsShownPart(t, Value());
      ok := Intersect(left, top, right, bottom);
    }
  }

  /**
   `hcge_clip_blit`: a failed call changes nothing; after a successful one each shown destination
   pixel is still fed by its own source pixel.
   */
  method ClipBlit(t: Target, source: Rectangle, dx: int, dy: int) returns (ok: bool, dx': int, dy': int)
    modifies source
    ensures ok <==> Visible(t, Rect(dx, dy, old(source.w), old(source.h)))
    ensures !ok ==> source.Value() == old(source.Value()) && dx' == dx && dy' == dy
    ensures ok ==>
      && IsShownPart(t, Rect(dx, dy, old(source.w), old(source.h)), Rect(dx', dy', source.w, source.h))
      && source.x - dx' == old(source.x) - dx && source.y - dy' == old(source.y) - dy
      && forall px, py :: source.Value().Contains(px, py) ==> old(source.Value()).Contains(px, py)
  {
    dx', dy' := dx, dy;
    var destination := new Rectangle(Rect(dx, dy, source.w, source.h));
    var sx, sy := source.x, source.y;
    ok := destination.ClipRect(t);
    if !ok {
      return;
    }
    source.x := sx + destination.x - dx;
    source.y := sy + destination.y - dy;
    source.w := destination.w;
    source.h := destination.h;
    dx', dy' := destination.x, destination.y;
  }

  /** One source axis has been cut in proportion: the offset to below a pixel, the extent as stated. */
  predicate CutInProportion(at: int, size: int, at': int, size': int, dst: int, whole: int, dst': int, whole': int,
                            low: int, high: int)
  {
    && at <= at' && at' + size' <= at + size && size' > 0
    && 0 <= (dst' - dst) * size - (at' - at) * whole < whole
    && low <= size' * whole - size * whole' <= high
  }

  /**
   `hcge_clip_stretch_blit` on two rectangles. It succeeds exactly when something is shown, the
   source has an extent, and a horizontal cut leaves more than one column to give up.
   */
  method ClipStretchBlit(t: Target, source: Rectangle, destination: Rectangle) returns (ok: bool)
    requires source != destination
    modifies source, destination
    ensures var s, d, s', d' := old(source.Value()), old(destination.Value()), source.Value(), destination.Value();
            var c := CutTo(t, d);
            && d' == (if d.w > 0 && d.h > 0 then c else d)
            && (!Visible(t, d) ==> s' == s)
            && (ok <==> Visible(t, d) && s.w > 0 && s.h > 0 &&
                        (c.w == d.w || Left(s.w, d.w, c.x - d.x, d.x + d.w - c.x - c.w) > 1))
            && (ok ==>
                  && IsShownPart(t, d, d')
                  && CutInProportion(s.x, s.w, s'.x, s'.w, d.x, d.w, d'.x, d'.w, -d.w, d.w)
                  && CutInProportion(s.y, s.h, s'.y, s'.h, d.y, d.h, d'.y, d'.h, 0, 2 * d.h - 1))
  {
    hide TruncDiv, Visible, IsShownPart, Share, Left, CutInProportion, CutTo;
    if Visible(t, destination.Value()) {
      VisibleHasExtent(t, destination.Value());
    }
    if destination.w <= 0 || destination.h <= 0 {
      EmptyIsInvisible(t, destination.Value());
      return false;
    }
    var original := destination.Value();
    ok := destination.ClipRect(t);
    if !ok {
      return;
    }
    var s := source.Value();
    ShownInside(t, original, destination.Value());
    var left, top := destination.x - original.x, destination.y - original.y;
    var right := original.x + original.w - destination.x - destination.w;
    var bottom := original.y + original.h - destination.y - destination.h;
    source.x := source.x + Share(left, source.w, original.w);
    source.y := source.y + Share(top, source.h, original.h);
    source.w := source.w - (Share(left, source.w, original.w) + Share(right, source.w, original.w));
    source.h := source.h - (Share(top, source.h, original.h) + Share(bottom, source.h, original.h));
    LeftIs(s.w, original.w, left, right);
    LeftIs(s.h, original.h, top, bottom);
    if (left != 0 || right != 0) && source.w > 0 {
      source.w := source.w - 1;
    }
    StretchOutcome(s, original, destination.Value(), source.Value());
    return source.w > 0 && source.h > 0;
  }

  lemma {:induction false} VisibleHasExtent(t: Target, r: Rect)
    requires Visible(t, r)
    ensures r.w > 0 && r.h > 0
  {
  }

  lemma {:induction false} EmptyIsInvisible(t: Target, r: Rect)
    requires r.w <= 0 || r.h <= 0
    ensures !Visible(t, r)
  {
  }

  lemma {:induction false} ShownInside(t: Target, r: Rect, out: Rect)
    requires IsShownPart(t, r, out)
    ensures r.x <= out.x && out.x + out.w <= r.x + r.w && r.y <= out.y && out.y + out.h <= r.y + r.h
    ensures out.w > 0 && out.h > 0
  {
    assert out.Contains(out.x, out.y);
    assert out.Contains(out.x + out.w - 1, out.y + out.h - 1);
  }

  /** What the assignments to the source amount to, for either sign of its size. */
  lemma {:induction false} StretchOutcome(s: Rect, d: Rect, d': Rect, s': Rect)
    requires d.x <= d'.x && d'.x + d'.w <= d.x + d.w && d.y <= d'.y && d'.y + d'.h <= d.y + d.h
    requires d'.w > 0 && d'.h > 0
    requires s'.x == s.x + Share(d'.x - d.x, s.w, d.w) && s'.y == s.y + Share(d'.y - d.y, s.h, d.h)
    requires var n := Left(s.w, d.w, d'.x - d.x, d.x + d.w - d'.x - d'.w);
             s'.w == if d'.w != d.w && n > 0 then n - 1 else n
    requires s'.h == Left(s.h, d.h, d'.y - d.y, d.y + d.h - d'.y - d'.h)
    ensures (s'.w > 0 && s'.h > 0) <==>
            (s.w > 0 && s.h > 0 && (d'.w == d.w || Left(s.w, d.w, d'.x - d.x, d.x + d.w - d'.x - d'.w) > 1))
    ensures s'.w > 0 && s'.h > 0 ==>
              && CutInProportion(s.x, s.w, s'.x, s'.w, d.x, d.w, d'.x, d'.w, -d.w, d.w)
              && CutInProportion(s.y, s.h, s'.y, s'.h, d.y, d.h, d'.y, d'.h, 0, 2 * d.h - 1)
  {
    hide TruncDiv, Share, Left;
    StretchAxis(s.x, s.w, d.x, d.w, d'.x - d.x, d.x + d.w - d'.x - d'.w);
    StretchAxis(s.y, s.h, d.y, d.h, d'.y - d.y, d.y + d.h - d'.y - d'.h);
    var n := Left(s.w, d.w, d'.x - d.x, d.x + d.w - d'.x - d'.w);
    assert (n - 1) * d.w == n * d.w - d.w;
  }

  lemma {:induction false} StretchAxis(at: int, size: int, dst: int, whole: int, before: int, after: int)
    requires whole > 0 && before >= 0 && after >= 0 && before + after < whole
    ensures var n := Left(size, whole, before, after);
            && (size > 0 <==> n > 0)
            && (n > 0 ==> CutInProportion(at, size, at + Share(before, size, whole), n,
                            dst, whole, dst + before, whole - before - after, 0,
                            if before == 0 && after == 0 then 0 else 2 * whole - 2))
  {
    hide TruncDiv, Share, Left;
    if size > 0 {
      LeftInProportion(size, whole, before, after);
      ShareFloor(before, size, whole);
    } else {
      LeftOfNothing(size, whole, before, after);
    }
  }

  // ----- 32-bit arithmetic -----

  predicate Int32(x: int) {
    -0x8000_0000 <= x < 0x8000_0000
  }

  /**
   Every sum and product of the stretch is an `int` whenever the rectangles end inside the `int`
   range and the products of their sizes do, whatever the clip.
   */
  lemma {:induction false} StretchFitsInt32(t: Target, s: Rect, d: Rect)
    requires Int32(s.x) && Int32(s.y) && Int32(s.x + s.w) && Int32(s.y + s.h)
    requires Int32(d.x) && Int32(d.y) && Int32(d.x + d.w) && Int32(d.y + d.h)
    requires Int32(d.w * s.w) && Int32(d.h * s.h) && Visible(t, d)
    ensures var c := CutTo(t, d);
            && Int32(c.x) && Int32(c.y) && Int32(c.x + c.w) && Int32(c.y + c.h)
            && AxisFits(s.x, s.w, d.w, c.x - d.x, d.x + d.w - c.x - c.w)
            && AxisFits(s.y, s.h, d.h, c.y - d.y, d.y + d.h - c.y - c.h)
  {
    hide Visible, IsShownPart, CutTo, AxisFits;
    VisibleHasExtent(t, d);
    CutIsShownPart(t, d);
    var c := CutTo(t, d);
    ShownInside(t, d, c);
    FactorFits(d.w, s.w);
    FactorFits(d.h, s.h);
    AxisInRange(s.x, s.w, d.w, c.x - d.x, d.x + d.w - c.x - c.w);
    AxisInRange(s.y, s.h, d.h, c.y - d.y, d.y + d.h - c.y - c.h);
  }

  lemma {:induction false} FactorFits(whole: int, size: int)
    requires whole > 0 && Int32(whole * size)
    ensures Int32(size)
  {
    Grows(whole, if size >= 0 then size else -size);
    assert whole * -size == -(whole * size);
  }

  lemma {:induction false} Grows(whole: int, size: int)
    requires whole > 0 && size >= 0
    ensures whole * size >= size
  {
    NotNegative(whole - 1, size);
    assert whole * size == (whole - 1) * size + size;
  }

  lemma {:induction false} NotNegative(a: int, b: int)
    requires a >= 0 && b >= 0
    ensures a * b >= 0
  {
  }

  /** The intermediate results of one source axis. */
  predicate AxisFits(at: int, size: int, whole: int, before: int, after: int)
    requires whole > 0
  {
    && Int32(before * size) && Int32(after * size)
    && Int32(at + Share(before, size, whole))
    && Int32(Share(before, size, whole) + Share(after, size, whole))
    && Int32(Left(size, whole, before, after))
  }

  lemma {:induction false} AxisInRange(at: int, size: int, whole: int, before: int, after: int)
    requires whole > 0 && before >= 0 && after >= 0 && before + after < whole
    requires Int32(at) && Int32(at + size) && Int32(size) && Int32(whole * size)
    ensures AxisFits(at, size, whole, before, after)
  {
    hide TruncDiv, Share, Left;
    LeftIs(size, whole, before, after);
    PartOfProduct(before, whole, size);
    PartOfProduct(after, whole, size);
    if size >= 0 {
      SharesWithin(size, whole, before, after);
    } else {
      SharesWithin(-size, whole, before, after);
      ShareOdd(before, -size, whole);
      ShareOdd(after, -size, whole);
    }
  }

  lemma {:induction false} PartOfProduct(part: int, whole: int, size: int)
    requires 0 <= part <= whole && Int32(whole * size)
    ensures Int32(part * size)
  {
    assert (whole - part) * size == whole * size - part * size;
    if size >= 0 {
      assert part * size >= 0 && (whole - part) * size >= 0;
    } else {
      assert part * size <= 0 && (whole - part) * size <= 0;
    }
  }

  /** The two shares of an extent are no more than all of it. */
  lemma {:induction false} SharesWithin(size: int, whole: int, before: int, after: int)
    requires whole > 0 && before >= 0 && after >= 0 && before + after < whole && size >= 0
    ensures 0 <= Share(before, size, whole) && 0 <= Share(after, size, whole)
    ensures Share(before, size, whole) + Share(after, size, whole) <= size
  {
    hide TruncDiv, Share, Left;
    ShareFloor(before, size, whole);
    ShareFloor(after, size, whole);
    if size > 0 {
      LeftInProportion(size, whole, before, after);
      LeftIs(size, whole, before, after);
    } else {
      NoShare(before, whole);
      NoShare(after, whole);
    }
  }
}
